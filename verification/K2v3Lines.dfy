/**
 Lines of a k2v3 text (src/k2v3.c:541-682): where a step of the parser can end, which texts
 leave it before the unescape pass, and that what is no array stays on its line.
 */
module K2v3Lines {
  import opened Text
  import opened Escape
  import opened K2v3
  import opened K2v3Parse

  // ----- texts that end in a bare key -----

  /** From `i` on there is one last line: a key and its `=`, and nothing else. */
  ghost predicate BareKeyAt(s: string, i: nat) {
    && i < |s| && (i == 0 || s[i - 1] == '\n')
    && IsKey(s[i..|s| - 1]) && s[|s| - 1] == '='
  }

  ghost predicate EndsInBareKey(s: string) {
    exists i: nat :: BareKeyAt(s, i)
  }

  /** A step stops at a newline, right behind one, or at an end of the text that is no `key=` of a later line. */
  ghost predicate StopsAt(s: string, jmp: nat) {
    && 0 < jmp <= |s|
    && (|| (jmp < |s| && s[jmp] == '\n')
        || s[jmp - 1] == '\n'
        || (jmp == |s| && (s[|s| - 1] != '=' || '\n' !in s)))
  }

  lemma SkipLineStops(s: string)
    requires s != ""
    ensures StopsAt(s, SkipLine(s))
  {
  }

  lemma EndOfValueStops(s: string, v: Value)
    requires 0 < v.jmp <= |s| && s[0] != '\n' && s[v.jmp - 1] != '='
    ensures StopsAt(s, EndOfValue(s, v).jmp)
  {
    SkipLineStops(s);
    var j := SkipAll(s, {' '}, v.jmp, |s|);
    if j == |s| && v.jmp < j {
      assert s[j - 1] in {' '};
    }
  }

  lemma ValueStops(s: string)
    requires s != ""
    ensures StopsAt(s, ValueOf(s).jmp)
  {
    hide EndOfValue, StopsAt, FirstBare, ReadElements, SkipLine, Find, Escaped;
    SkipLineStops(s);
    forall v: Value | 0 < v.jmp <= |s| && s[0] != '\n' && s[v.jmp - 1] != '='
      ensures StopsAt(s, EndOfValue(s, v).jmp)
    {
      EndOfValueStops(s, v);
    }
  }

  lemma StopsBehind(s: string, n: nat, jmp: nat)
    requires n <= |s| && StopsAt(s[n..], jmp) && '\n' !in s[..n]
    ensures StopsAt(s, n + jmp)
  {
    var t := s[n..];
    assert |t| == |s| - n && t[|t| - 1] == s[|s| - 1] && t[jmp - 1] == s[n + jmp - 1];
    assert jmp < |t| ==> t[jmp] == s[n + jmp];
    assert s == s[..n] + t;
  }

  lemma KeyHasNoNewline(s: string)
    ensures var n := KeySpan(s, 0); KeyAt(s, n) ==> '\n' !in s[..n + 1]
  {
    var n := KeySpan(s, 0);
    if KeyAt(s, n) {
      assert forall k | 0 <= k < n :: s[..n][k] == s[k];
    }
  }

  lemma LineStops(s: string)
    requires s != "" && !LineAt(s).BareKey?
    ensures StopsAt(s, LineAt(s).jmp)
  {
    hide ValueOf, IsKey, KeySpan, StopsAt, SkipLine;
    SkipLineStops(s);
    var n := KeySpan(s, 0);
    if s[0] == '\n' {
      NewlineStops(s);
    } else if LineAt(s).Entry? {
      ValueStops(s[n + 1..]);
      KeyHasNoNewline(s);
      StopsBehind(s, n + 1, ValueOf(s[n + 1..]).jmp);
    }
  }

  lemma NewlineStops(s: string)
    requires s != "" && s[0] == '\n'
    ensures StopsAt(s, 1)
  {
  }

  /** No newline inside the last line, and no text before it is read as that line. */
  lemma BareKeyParts(s: string, i: nat)
    requires BareKeyAt(s, i)
    ensures i + 1 < |s| && forall k | i <= k < |s| :: s[k] != '\n'
    ensures i == 0 ==> LineAt(s).BareKey?
  {
    var key := s[i..|s| - 1];
    assert forall k | i <= k < |s| - 1 :: s[k] == key[k - i];
    if i == 0 {
      KeyIsSpan(s, |s| - 1);
    }
  }

  /** The last line is not in what the step read. */
  lemma BareKeyBehind(s: string, i: nat, jmp: nat)
    requires BareKeyAt(s, i) && StopsAt(s, jmp) && i > 0
    ensures jmp <= i && BareKeyAt(s[jmp..], i - jmp)
  {
    hide IsKey;
    BareKeyParts(s, i);
    assert s[i - 1] == '\n';
    assert jmp <= i;
    var t := s[jmp..];
    assert |t| == |s| - jmp && t[|t| - 1] == s[|s| - 1];
    assert t[i - jmp..|t| - 1] == s[i..|s| - 1];
  }

  lemma BareKeyThere(s: string, i: nat, jmp: nat)
    requires StopsAt(s, jmp) && BareKeyAt(s[jmp..], i)
    ensures BareKeyAt(s, jmp + i)
  {
    hide IsKey;
    var t := s[jmp..];
    BareKeyParts(t, i);
    assert t[i] == s[jmp + i];
    assert t[i..|t| - 1] == s[jmp + i..|s| - 1];
  }

  /** A step does not change whether the text ends in a bare key. */
  lemma BareStep(s: string)
    requires s != "" && !LineAt(s).BareKey?
    ensures EndsInBareKey(s) <==> EndsInBareKey(s[LineAt(s).jmp..])
  {
    hide LineAt, IsKey, BareKeyAt, StopsAt;
    var jmp := LineAt(s).jmp;
    LineStops(s);
    if EndsInBareKey(s) {
      var i: nat :| BareKeyAt(s, i);
      BareKeyParts(s, i);
      BareKeyBehind(s, i, jmp);
    }
    if EndsInBareKey(s[jmp..]) {
      var i: nat :| BareKeyAt(s[jmp..], i);
      BareKeyThere(s, i, jmp);
    }
  }

  /**
   The parser leaves early, before its unescape pass, exactly on the texts whose last line is
   a key and its `=` with nothing behind it, not even a newline.
   */
  lemma {:induction false} BareExactly(s: string)
    ensures Entries(s).bare <==> EndsInBareKey(s)
    decreases |s|
  {
    hide LineAt, IsKey;
    if s != "" {
      if LineAt(s).BareKey? {
        BareNow(s);
      } else {
        BareStep(s);
        BareExactly(s[LineAt(s).jmp..]);
      }
    }
  }

  lemma BareNow(s: string)
    requires s != "" && LineAt(s).BareKey?
    ensures EndsInBareKey(s)
  {
    var n := KeySpan(s, 0);
    assert s[0..|s| - 1] == s[..n];
    assert BareKeyAt(s, 0);
  }

  // ----- one line -----

  /** A scan that stops inside a prefix does not see what follows it. */
  lemma {:induction false} FirstBareInside(s: string, t: string, c: char, from: nat, i: nat)
    requires |s| <= |t| && t[..|s|] == s && from <= i <= |s|
    ensures var r := FirstBare(s, c, from, i);
            if r < |s| then FirstBare(t, c, from, i) == r else FirstBare(t, c, from, i) >= |s|
    decreases |s| - i
  {
    if i < |s| {
      assert s[from..i] == t[from..i] && s[i] == t[i];
      FirstBareInside(s, t, c, from, i + 1);
    }
  }

  lemma RecoverOnLine(conf: string, rest: string)
    requires '\n' !in conf
    ensures Recover(conf + "\n" + rest) == Recover(conf + "\n") && Recover(conf + "\n").jmp == |conf| + 1
  {
    FindIs(conf + "\n", '\n', 0, |conf|);
    FindIs(conf + "\n" + rest, '\n', 0, |conf|);
  }

  lemma ScalarOnLine(conf: string, rest: string)
    requires '\n' !in conf && conf != "" && conf[0] == '"'
    ensures var v := ScalarValue(conf + "\n"); ScalarValue(conf + "\n" + rest) == v && |conf| <= v.jmp <= |conf| + 1
  {
    hide Escaped, SkipAll, EndOfValue, Recover, FirstBare;
    var s, t := conf + "\n", conf + "\n" + rest;
    RecoverOnLine(conf, rest);
    FindIs(s, '\n', 0, |conf|);
    FindIs(t, '\n', 0, |conf|);
    FirstBareInside(s, t, '"', 1, 1);
    var i := FirstBare(s, '"', 1, 1);
    if i < |conf| {
      assert s[1..i] == t[1..i];
      EndOnLine(conf, rest, Value(Scalar, Text(s[1..i]), false, i + 1, false));
    }
  }

  /** Everything get_value does with a value that is no array stays on its line. */
  lemma ValueOnLine(conf: string, rest: string)
    requires '\n' !in conf && (conf == "" || conf[0] != '[')
    ensures var v := ValueOf(conf + "\n"); ValueOf(conf + "\n" + rest) == v && |conf| <= v.jmp <= |conf| + 1
  {
    hide ScalarValue, ArrayValue, EndOfValue, Recover, SkipAll;
    RecoverOnLine(conf, rest);
    if conf != "" && conf[0] == '"' {
      ScalarOnLine(conf, rest);
      if |conf| > 1 {
        EndOnLine(conf, rest, Value(Scalar, Null, true, 2, false));
      }
    }
  }

  lemma EndOnLine(conf: string, rest: string, v: Value)
    requires '\n' !in conf && 0 < v.jmp <= |conf|
    ensures var r := EndOfValue(conf + "\n", v);
            EndOfValue(conf + "\n" + rest, v) == r && |conf| <= r.jmp <= |conf| + 1
  {
    var s, t := conf + "\n", conf + "\n" + rest;
    FindIs(s, '\n', 0, |conf|);
    FindIs(t, '\n', 0, |conf|);
    SkipInside(s, t, v.jmp);
  }

  lemma {:induction false} SkipInside(s: string, t: string, i: nat)
    requires |s| <= |t| && t[..|s|] == s && i < |s| && s[|s| - 1] == '\n'
    ensures SkipAll(s, {' '}, i, |s|) == SkipAll(t, {' '}, i, |t|) < |s|
    decreases |s| - i
  {
    assert s[i] == t[i];
    if s[i] == ' ' {
      SkipInside(s, t, i + 1);
    }
  }

  lemma SkipOnLine(l: string, rest: string)
    requires '\n' !in l
    ensures SkipLine(l + "\n") == SkipLine(l + "\n" + rest) == |l| + 1
  {
    FindIs(l + "\n", '\n', 0, |l|);
    FindIs(l + "\n" + rest, '\n', 0, |l|);
  }

  lemma {:induction false} SpanInside(l: string, rest: string, i: nat)
    requires '\n' !in l && i <= |l|
    ensures KeySpan(l + "\n" + rest, i) == KeySpan(l + "\n", i) <= |l|
    decreases |l| - i
  {
    var s, t := l + "\n", l + "\n" + rest;
    assert s[i] == t[i];
    if i < |l| && KeyChar(l[i]) {
      SpanInside(l, rest, i + 1);
    }
  }

  /** At the line's newline or right behind it, the rest of the text comes next. */
  lemma BehindLine(l: string, rest: string, jmp: nat)
    requires |l| <= jmp <= |l| + 1
    ensures Entries((l + "\n" + rest)[jmp..]) == Entries(rest)
  {
    var t := l + "\n" + rest;
    if jmp == |l| {
      assert t[jmp..] == "\n" + rest && ("\n" + rest)[1..] == rest;
      var p := Entries(rest);
      assert [] + p.nodes == p.nodes;
    } else {
      assert t[jmp..] == rest;
    }
  }
}
