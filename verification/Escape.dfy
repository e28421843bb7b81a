/**
 Backslash pairing and the unescape pass (src/k2v3.c, src/k2v.c).
 */
module Escape {

  /**
   The scanner's `priv_backslash` flag after reading all of `s`: the last character is a
   backslash that is not itself the second half of a pair.
   */
  predicate Escaped(s: string) {
    s != "" && s[|s| - 1] == '\\' && !Escaped(s[..|s| - 1])
  }

  /** No unescaped occurrence of `c`. */
  ghost predicate NoBare(s: string, c: char) {
    forall j | 0 <= j < |s| && s[j] == c :: Escaped(s[..j])
  }

  /** Pairing restarts after a prefix whose backslashes are all paired. */
  lemma {:induction false} EscapedAppend(a: string, b: string)
    requires !Escaped(a)
    ensures Escaped(a + b) == Escaped(b)
    decreases |b|
  {
    if b == "" {
      assert a + b == a;
    } else {
      assert (a + b)[..|a + b| - 1] == a + b[..|b| - 1];
      EscapedAppend(a, b[..|b| - 1]);
    }
  }

  /** The first pair or single character of a text with nothing pending. */
  lemma FrontIsPaired(a: string)
    requires a != "" && !Escaped(a)
    ensures var n := if a[0] == '\\' then 2 else 1; n <= |a| && !Escaped(a[..n])
  {
    assert a[..1][..0] == "";
    assert a[..|a| - 1] == "" <==> |a| == 1;
    if |a| > 1 {
      assert a[..2][..1] == a[..1];
    }
  }

  /** Behind that front pairing starts anew. */
  lemma BehindFront(a: string, n: nat, c: char)
    requires n <= |a| && !Escaped(a[..n])
    ensures Escaped(a[n..]) == Escaped(a)
    ensures NoBare(a, c) ==> NoBare(a[n..], c)
  {
    assert a == a[..n] + a[n..];
    EscapedAppend(a[..n], a[n..]);
    if NoBare(a, c) {
      forall j | 0 <= j < |a| - n && a[n..][j] == c ensures Escaped(a[n..][..j]) {
        assert a[n + j] == c && a[..n + j] == a[..n] + a[n..][..j];
        EscapedAppend(a[..n], a[n..][..j]);
      }
    }
  }

  /** The first unescaped `c` at or after `i`, where pairing started at `from`; |s| when there is none. */
  function FirstBare(s: string, c: char, from: nat, i: nat): (r: nat)
    requires from <= i <= |s|
    ensures i <= r <= |s|
    ensures r < |s| ==> s[r] == c && !Escaped(s[from..r])
    decreases |s| - i
  {
    if i == |s| || (s[i] == c && !Escaped(s[from..i])) then i else FirstBare(s, c, from, i + 1)
  }

  /** Nothing before it was an unescaped `c`. */
  lemma {:induction false} FirstBareLeast(s: string, c: char, from: nat, i: nat)
    requires from <= i <= |s|
    ensures forall j | i <= j < FirstBare(s, c, from, i) && s[j] == c :: Escaped(s[from..j])
    decreases |s| - i
  {
    if i < FirstBare(s, c, from, i) {
      FirstBareLeast(s, c, from, i + 1);
    }
  }

  /** A well-paired stretch without an unescaped `c`, then `c`: the scan stops right there. */
  lemma FirstBareIs(s: string, c: char, from: nat, v: string)
    requires from + |v| < |s| && s[from..from + |v|] == v && s[from + |v|] == c
    requires NoBare(v, c) && !Escaped(v)
    ensures FirstBare(s, c, from, from) == from + |v|
  {
    FirstBareLeast(s, c, from, from);
    var r := FirstBare(s, c, from, from);
    assert v == s[from..from + |v|];
    forall j | from <= j < from + |v| && s[j] == c
      ensures Escaped(s[from..j])
    {
      assert s[from..j] == v[..j - from];
      assert v[j - from] == c;
    }
  }

  /** The scanner loop shared by get_value's scalar and array branches. */
  method ScanBare(s: string, c: char, from: nat) returns (i: nat)
    requires from <= |s| && c != '\\'
    ensures i == FirstBare(s, c, from, from)
  {
    var privBackslash := false;
    i := from;
    assert s[from..from] == "";
    while i < |s|
      invariant from <= i <= |s|
      invariant privBackslash == Escaped(s[from..i])
      invariant FirstBare(s, c, from, from) == FirstBare(s, c, from, i)
    {
      assert s[from..i + 1][..|s[from..i + 1]| - 1] == s[from..i];
      if privBackslash {
        privBackslash := false;
      } else if s[i] == '\\' {
        privBackslash := true;
      } else if s[i] == c {
        break;
      }
      i := i + 1;
    }
  }

  // ----- correct_backslash -----

  const KEPT := {'n', 't', 'r', '"'}

  /** What correct_backslash returns: a pair keeps its backslash only before n, t, r or a double quote. */
  function Unescape(s: string): (r: string)
    ensures |r| <= |s|
  {
    if s == "" then ""
    else if s[0] == '\\' && |s| > 1 then
      (if s[1] in KEPT then [s[0], s[1]] else [s[1]]) + Unescape(s[2..])
    else [s[0]] + Unescape(s[1..])
  }

  /** Every left-to-right paired backslash precedes n, t, r or a double quote, or ends the string. */
  ghost predicate Stable(s: string) {
    forall i | 0 <= i && i + 1 < |s| && s[i] == '\\' && !Escaped(s[..i]) :: s[i + 1] in {'n', 't', 'r', '"'}
  }

  /** Stability of a string splits at a point where no backslash is pending. */
  lemma StableAppend(a: string, b: string)
    requires !Escaped(a)
    ensures Stable(a + b) <==> Stable(a) && Stable(b)
  {
    var s := a + b;
    forall i | 0 <= i <= |b|
      ensures Escaped(s[..|a| + i]) == Escaped(b[..i])
    {
      assert s[..|a| + i] == a + b[..i];
      EscapedAppend(a, b[..i]);
    }
    if Stable(s) {
      forall i | 0 <= i && i + 1 < |a| && a[i] == '\\' && !Escaped(a[..i])
        ensures a[i + 1] in KEPT
      {
        assert s[..i] == a[..i];
        assert s[i + 1] == a[i + 1];
      }
      forall i | 0 <= i && i + 1 < |b| && b[i] == '\\' && !Escaped(b[..i])
        ensures b[i + 1] in KEPT
      {
        assert s[|a| + i] == '\\' && s[|a| + i + 1] == b[i + 1];
      }
    }
    if Stable(a) && Stable(b) {
      forall i | 0 <= i && i + 1 < |s| && s[i] == '\\' && !Escaped(s[..i])
        ensures s[i + 1] in KEPT
      {
        if i < |a| {
          assert s[..i] == a[..i];
        } else {
          assert b[i - |a|] == '\\';
        }
      }
    }
  }

  /** correct_backslash changes nothing exactly on the stable strings. */
  lemma {:induction false} UnescapeFixed(s: string)
    ensures Unescape(s) == s <==> Stable(s)
    decreases |s|
  {
    if s == "" {
    } else if s[0] == '\\' && |s| > 1 {
      var pair := s[..2];
      assert s == pair + s[2..];
      assert pair[..1][..0] == "" && pair[..|pair| - 1] == pair[..1];
      assert Escaped(pair[..1]);
      assert !Escaped(pair);
      UnescapeFixed(s[2..]);
      StableAppend(pair, s[2..]);
      assert Stable(pair) <==> s[1] in KEPT by {
        assert pair[..0] == "" && pair[0] == '\\' && pair[1] == s[1];
      }
      if s[1] in KEPT {
        assert Unescape(s)[2..] == Unescape(s[2..]);
        assert [s[0], s[1]] == pair;
      }
    } else {
      var one := s[..1];
      assert s == one + s[1..];
      assert one[..0] == "";
      if |s| > 1 {
        UnescapeFixed(s[1..]);
        StableAppend(one, s[1..]);
        assert Unescape(s)[1..] == Unescape(s[1..]);
      }
    }
  }

  /** A text without a backslash has nothing pending and nothing to unescape. */
  lemma {:induction false} PlainIsStable(s: string)
    requires '\\' !in s
    ensures !Escaped(s) && Stable(s) && Unescape(s) == s
  {
    UnescapeFixed(s);
  }

  /**
   The pass turns the pair or single character at `i` into want[j..w] and goes on at `n`.
   */
  lemma UnescapeStep(s: string, i: nat, want: string, j: nat) returns (n: nat, w: nat)
    requires i < |s| && j <= |want|
    requires want[j..] == Unescape(s[i..])
    ensures i < n <= |s| && j < w <= |want| && want[w..] == Unescape(s[n..])
    ensures n == if s[i] == '\\' && i + 1 < |s| then i + 2 else i + 1
    ensures w == if n == i + 2 && s[i + 1] in KEPT then j + 2 else j + 1
    ensures want[w - 1] == s[n - 1] && (w == j + 2 ==> want[j] == '\\')
  {
    var u := want[j..];
    n, w := i + 1, j + 1;
    if s[i] == '\\' && i + 1 < |s| {
      n := i + 2;
      if s[i + 1] in KEPT {
        w := j + 2;
      }
    }
    assert s[i..][n - i..] == s[n..];
    assert want[w - 1] == u[w - 1 - j] && want[w..] == u[w - j..];
  }

  lemma UnescapeEmpty()
    ensures Unescape("") == ""
  {
  }

  /** correct_backslash, in place over a copy of the buffer. */
  method CorrectBackslash(buf: string) returns (r: string)
    ensures r == Unescape(buf)
  {
    hide Unescape;
    assert buf[0..] == buf && Unescape("") == "" by { UnescapeEmpty(); }
    var ret := new char[|buf| + 1];
    var j, i, len := 0, 0, |buf|;
    ghost var want := Unescape(buf);
    while i < len
      invariant 0 <= j <= i <= len && j <= |want|
      invariant forall k | 0 <= k < j :: ret[k] == want[k]
      invariant want[j..] == Unescape(buf[i..])
    {
      ghost var n, w := UnescapeStep(buf, i, want, j);
      if buf[i] == '\\' && i < len - 1 {
        i := i + 1;
        if buf[i] in KEPT {
          ret[j] := '\\';
          j := j + 1;
        }
      }
      ret[j] := buf[i];
      j := j + 1;
      i := i + 1;
      assert i == n && j == w;
    }
    ret[j] := '\0';
    r := ret[..j];
  }
}
