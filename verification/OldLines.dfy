/**
 Which lines the older k2v reader takes (src/k2v.c:485-840), whoever wrote them: blanks around
 key and value, and an exact account of the lints that does not follow their loops.
 */
module OldLines {
  import opened Text
  import opened Escape
  import opened OldLint
  import opened OldGet
  import opened PlainText

  function Blanks(n: nat): (s: string)
    ensures |s| == n && forall i | 0 <= i < n :: s[i] == ' '
  {
    seq(n, i => ' ')
  }

  // ----- what stands bare in a text -----

  /** The places of these characters that no backslash covers. */
  ghost function BareAt(s: string, cs: set<char>): set<nat> {
    set i: nat | i < |s| && s[i] in cs && !Escaped(s[..i])
  }

  /** Outside quotes: an even number of bare ones came before. */
  ghost predicate Outside(s: string) {
    |BareAt(s, {'"'})| % 2 == 0
  }

  ghost function BareCommas(s: string): set<nat> {
    set i: nat | i < |s| && s[i] == ',' && !Escaped(s[..i]) && Outside(s[..i])
  }

  lemma BareSnoc(t: string, c: char, cs: set<char>)
    ensures |BareAt(t + [c], cs)| == |BareAt(t, cs)| + (if c in cs && !Escaped(t) then 1 else 0)
  {
    hide Escaped;
    var s, m := t + [c], |t|;
    assert s[..m] == t;
    forall i: nat | i < m ensures s[i] == t[i] && s[..i] == t[..i] {
    }
    if c in cs && !Escaped(t) {
      assert BareAt(s, cs) == BareAt(t, cs) + {m};
    } else {
      assert BareAt(s, cs) == BareAt(t, cs);
    }
  }

  lemma CommasSnoc(t: string, c: char)
    ensures |BareCommas(t + [c])| == |BareCommas(t)| + (if c == ',' && !Escaped(t) && Outside(t) then 1 else 0)
  {
    hide Escaped, Outside;
    var s, m := t + [c], |t|;
    assert s[..m] == t;
    forall i: nat | i < m ensures s[i] == t[i] && s[..i] == t[..i] {
    }
    if c == ',' && !Escaped(t) && Outside(t) {
      assert BareCommas(s) == BareCommas(t) + {m};
    } else {
      assert BareCommas(s) == BareCommas(t);
    }
  }

  /** One more character is seen unless it is escaped or escapes. */
  lemma VisibleSnoc(t: string, c: char)
    ensures Visible(t + [c]) == if Escaped(t) || c == '\\' then Visible(t) else Visible(t) + [c]
  {
    hide Visible;
    OneVisibleChar(c);
    if Escaped(t) {
      var u := t[..|t| - 1];
      assert t == u + "\\" && t + [c] == u + ("\\" + [c]);
      VisibleAppend(u, "\\");
      VisibleAppend(u, "\\" + [c]);
    } else {
      VisibleAppend(t, [c]);
      assert Visible(t) + "" == Visible(t);
    }
  }

  lemma OneVisibleChar(c: char)
    ensures Visible([c]) == (if c == '\\' then "" else [c]) && Visible("\\" + [c]) == "" && Visible("\\") == ""
  {
    assert [c][1..] == "" && ("\\" + [c])[2..] == "";
  }

  /** The counting loops count what stands bare. */
  lemma {:induction false} CountsBare(s: string, cs: set<char>)
    requires '\\' !in cs
    ensures Count(Visible(s), cs) == |BareAt(s, cs)|
  {
    hide Visible, Escaped;
    if s == "" {
      NothingBare();
    } else {
      var t, c := s[..|s| - 1], s[|s| - 1];
      assert s == t + [c];
      CountsBare(t, cs);
      BareSnoc(t, c, cs);
      VisibleSnoc(t, c);
      CountAppend(Visible(t), [c], cs);
      CountFirst(c, cs);
    }
  }

  lemma NothingBare()
    ensures Visible("") == "" && BareCommas("") == {} && forall cs :: BareAt("", cs) == {} && Count("", cs) == 0
  {
  }

  lemma {:induction false} CommasAppend(a: string, c: char, q: bool)
    ensures Commas(a + [c], q) ==
            Commas(a, q) + (if c == ',' && (Count(a, {'"'}) % 2 == (if q then 1 else 0)) then 1 else 0)
  {
    if a == "" {
      assert a + [c] == [c] && [c][1..] == "";
    } else {
      assert (a + [c])[1..] == a[1..] + [c];
      CommasAppend(a[1..], c, if a[0] == '"' then !q else q);
    }
  }

  lemma {:induction false} CommasBare(s: string)
    ensures Commas(Visible(s), false) == |BareCommas(s)|
  {
    hide Visible, Escaped;
    if s == "" {
      NothingBare();
      assert Commas("", false) == 0;
    } else {
      var t, c := s[..|s| - 1], s[|s| - 1];
      assert s == t + [c];
      CommasBare(t);
      CommasSnoc(t, c);
      VisibleSnoc(t, c);
      CommasAppend(Visible(t), c, false);
      CountsBare(t, {'"'});
    }
  }

  // ----- empty elements -----

  /** Position `j` is where the check has its last opening quote, or the start of the text. */
  ghost predicate OpenedAt(p: string, j: int)
    requires j < |p|
  {
    j == 0 || (j > 0 && p[j] == '"' && !Escaped(p[..j]) && Outside(p[..j]))
  }

  /** A character outside quotes right behind that. */
  ghost predicate NullAt(p: string, i: nat)
    requires i < |p|
  {
    i > 0 && p[i] != '\\' && !Escaped(p[..i]) && Outside(p[..i + 1]) && OpenedAt(p, i - 1)
  }

  lemma QuoteTurns(p: string, i: nat)
    requires i < |p| && !Escaped(p[..i])
    ensures Outside(p[..i + 1]) == if p[i] == '"' then !Outside(p[..i]) else Outside(p[..i])
    ensures p[i] == '\\' && i + 1 < |p| ==> Outside(p[..i + 2]) == Outside(p[..i])
  {
    hide Escaped;
    SkipPair(p, i);
    assert p[..i + 1] == p[..i] + [p[i]];
    BareSnoc(p[..i], p[i], {'"'});
    if i + 1 < |p| {
      assert p[..i + 2] == p[..i + 1] + [p[i + 1]];
      BareSnoc(p[..i + 1], p[i + 1], {'"'});
    }
  }

  lemma {:induction false} NoNullFrom(p: string, i: nat, q: bool, last: nat)
    requires i <= |p| && !Escaped(p[..i]) && q == !Outside(p[..i]) && (i > 0 ==> last < i) && (i == 0 ==> last == 0)
    requires i > 0 ==> (last == i - 1 <==> OpenedAt(p, i - 1))
    ensures NoNull(p[i..], i, q, last) <==> forall k | i <= k < |p| :: !NullAt(p, k)
    decreases |p| - i
  {
    hide Escaped, Outside;
    if i < |p| {
      SkipPair(p, i);
      QuoteTurns(p, i);
      assert p[i..][1..] == p[i + 1..];
      if p[i] == '\\' {
        if i + 1 < |p| {
          assert p[i..][2..] == p[i + 2..];
          NoNullFrom(p, i + 2, q, last);
          assert !NullAt(p, i) && !NullAt(p, i + 1);
        } else {
          assert !NullAt(p, i);
        }
      } else {
        var r := if p[i] == '"' then !q else q;
        var l := if p[i] == '"' && r then i else last;
        assert l == i <==> OpenedAt(p, i);
        NoNullFrom(p, i + 1, r, l);
        assert NullAt(p, i) <==> !(r || l + 1 != i);
      }
    }
  }

  /** No element is empty, and nothing stands between the bracket and the first element. */
  ghost predicate NullFree(p: string) {
    && (|p| > 1 ==> p[1] in {'"', '\\'})
    && forall i: nat | 1 <= i && i + 1 < |p| && p[i] == '"' && p[i + 1] == '"' && !Escaped(p[..i]) :: !Outside(p[..i])
  }

  lemma NullBehind(p: string, k: nat)
    requires p != "" && p[0] == '[' && 1 <= k < |p|
    ensures NullAt(p, k) <==>
            if k == 1 then p[1] !in {'"', '\\'}
            else p[k] == '"' && p[k - 1] == '"' && !Escaped(p[..k - 1]) && Outside(p[..k - 1])
  {
    hide Escaped, Outside;
    NothingOpen(p);
    if k == 1 {
      QuoteTurns(p, 1);
    } else if p[k - 1] == '"' && !Escaped(p[..k - 1]) {
      SkipPair(p, k - 1);
      QuoteTurns(p, k - 1);
      QuoteTurns(p, k);
    }
  }

  lemma NothingOpen(p: string)
    requires p != "" && p[0] == '['
    ensures !Escaped(p[..0]) && Outside(p[..0]) && !Escaped(p[..1]) && Outside(p[..1])
  {
    assert BareAt(p[..0], {'"'}) == {};
    QuoteTurns(p, 0);
  }

  lemma NullFreeExactly(p: string)
    requires p != "" && p[0] == '['
    ensures NoNull(p, 0, false, 0) <==> NullFree(p)
  {
    hide Escaped, Outside, NullAt;
    NothingOpen(p);
    assert p[0..] == p;
    NoNullFrom(p, 0, false, 0);
    NothingBefore(p);
    if NullFree(p) {
      forall k: nat | k < |p| ensures !NullAt(p, k) {
        FreeHere(p, k);
      }
    }
    if forall k: nat | k < |p| :: !NullAt(p, k) {
      if |p| > 1 {
        NullBehind(p, 1);
        assert !NullAt(p, 1);
      }
      forall i: nat | 1 <= i && i + 1 < |p| && p[i] == '"' && p[i + 1] == '"' && !Escaped(p[..i])
        ensures !Outside(p[..i])
      {
        assert !NullAt(p, i + 1);
        NullBehind(p, i + 1);
      }
    }
  }

  lemma FreeHere(p: string, k: nat)
    requires p != "" && p[0] == '[' && NullFree(p) && k < |p|
    ensures !NullAt(p, k)
  {
    hide Escaped, Outside, NullAt;
    NothingBefore(p);
    if k > 0 {
      NullBehind(p, k);
      if k > 1 && p[k] == '"' {
        var i: nat := k - 1;
        assert p[i + 1] == '"';
      }
    }
  }

  lemma NothingBefore(p: string)
    requires p != ""
    ensures !NullAt(p, 0)
  {
  }

  // ----- the parts of a line -----

  /** What may stand in front of the `=`. */
  ghost predicate KeyPart(k: string) {
    k != "" && k[0] != ' ' && NoBare(k, '=') && NoBare(k, '"') && !Escaped(k)
  }

  /** Blanks, a key, its `=`, blanks, and a value. */
  ghost predicate LineIs(line: string, a: nat, k: string, c: nat, p: string) {
    line == Blanks(a) + (k + "=" + (Blanks(c) + p)) && KeyPart(k) && p != "" && p[0] != ' '
  }

  /** Blanks aside, `c` is the last character. */
  ghost predicate Ends(p: string, c: char) {
    exists j: nat :: j < |p| && p[j] == c && forall i | j < i < |p| :: p[i] == ' '
  }

  ghost predicate ScalarPart(p: string) {
    p != "" && p[0] == '"' && Ends(p, '"') && |BareAt(p, {'"'})| == 2
  }

  ghost predicate ArrayPart(p: string) {
    && p != "" && p[0] == '[' && Ends(p, ']') && |BareAt(p, {'[', ']'})| == 2
    && var quotes := |BareAt(p, {'"'})|;
       && quotes % 2 == 0 && |BareCommas(p)| == (if quotes == 0 then 0 else quotes / 2 - 1)
       && (quotes <= 2 || NullFree(p))
  }

  lemma LeadIs(a: nat, t: string)
    requires t != "" && t[0] != ' '
    ensures SkipLead(Blanks(a) + t) == t
  {
    var s := Blanks(a) + t;
    assert s[a] == t[0];
    assert SkipAll(s, {' '}, 0, |s|) == a;
    assert s[a..] == t;
  }

  /** A line that starts with its key. */
  lemma KeyFound(k: string, r: string)
    requires KeyPart(k)
    ensures var l := k + "=" + r;
            Eq(l) == |k| < FirstBare(l, '"', 0, 0) && l != "" && l[0] == k[0] && l[|k| + 1..] == r && l[..|k|] == k
  {
    hide FirstBare, Escaped;
    var l := k + "=" + r;
    assert l[0..|k|] == k && l[..|k|] == k;
    FirstBareIs(l, '=', 0, k);
    assert l[..0] == k[..0] == "" && !Escaped("") by { NothingIsEscaped(); }
    var q := FirstBare(l, '"', 0, 0);
    if q < |l| {
      NoQuoteInKey(k, l, q);
    }
  }

  lemma NoQuoteInKey(k: string, l: string, q: nat)
    requires NoBare(k, '"') && |k| < |l| && l[..|k|] == k && l[|k|] == '='
    requires q < |l| && l[q] == '"' && !Escaped(l[0..q])
    ensures q > |k|
  {
    hide Escaped;
    forall i: nat | i < |k| ensures l[0..i] == k[..i] && l[i] == k[i] {
      assert l[..|k|][i] == k[i];
    }
  }

  lemma NothingIsEscaped()
    ensures !Escaped("")
  {
  }

  lemma KeyIsNoEq(k: string)
    requires KeyPart(k)
    ensures k[0] != '='
  {
    assert k[..0] == "";
  }

  /** What the lints look at in such a line. */
  lemma PartsAre(line: string, a: nat, k: string, c: nat, p: string)
    requires LineIs(line, a, k, c, p)
    ensures var l := SkipLead(line);
            l == k + "=" + (Blanks(c) + p) && Eq(l) == |k| && l[..|k|] == k && SkipLead(l[|k| + 1..]) == p
    ensures ValueOfLine(line) == p && SkipLead(AfterEq(line)) == p && (IsArray(line) <==> p[0] == '[')
    ensures BasicLint(line) <==> (p[0] == '"' && EndsIn(p, '"')) || (p[0] == '[' && EndsIn(p, ']'))
  {
    hide FirstBare, Escaped, SkipLead, EndsIn, Eq, NoBare, SkipAll;
    var r := Blanks(c) + p;
    LeadIs(a, k + "=" + r);
    KeyFound(k, r);
    KeyIsNoEq(k);
    LeadIs(c, p);
    LeadSkipped(line);
    InkIs(AfterEq(line));
  }

  lemma InkIs(q: string)
    requires SkipLead(q) != "" && SkipLead(q)[0] != ' '
    ensures var i := SkipAll(q, {' '}, 0, |q|); i < |q| && q[i] == SkipLead(q)[0]
  {
  }

  // ----- the lints, exactly -----

  lemma InkEnds(p: string, c: char)
    requires p != "" && p[0] != ' ' && c != ' '
    ensures Ends(p, c) <==> p[LastInk(p, |p| - 1)] == c
  {
    var k := LastInk(p, |p| - 1);
    assert p[k] != ' ';
    if j: nat :| j < |p| && p[j] == c && forall m | j < m < |p| :: p[m] == ' ' {
      assert j == k;
    }
  }

  /** The end of a value, as the lint looks at it: a lone first character passes for want of anything else. */
  lemma EndsInIs(p: string, c: char)
    requires p != "" && p[0] != ' ' && c != ' '
    ensures EndsIn(p, c) <==> Ends(p, c) || LastInk(p, |p| - 1) == 0
    ensures p[0] == c ==> (EndsIn(p, c) <==> Ends(p, c))
  {
    InkEnds(p, c);
  }

  /** A lone bracket does not pass the count of brackets. */
  lemma LoneBracket(p: string)
    requires p != "" && p[0] == '[' && LastInk(p, |p| - 1) == 0
    ensures |BareAt(p, {'[', ']'})| <= 1
  {
    var b := BareAt(p, {'[', ']'});
    forall i | i in b ensures i == 0 {
    }
    AtMostOne(b);
  }

  lemma AtMostOne(b: set<nat>)
    requires forall i | i in b :: i == 0
    ensures |b| <= 1
  {
    if b != {} {
      assert b == {0};
    }
  }

  /** A line that has the parts is taken exactly when its value is well formed. */
  lemma LintOfParts(line: string, a: nat, k: string, c: nat, p: string)
    requires LineIs(line, a, k, c, p)
    ensures LintOk(line) <==> ScalarPart(p) || ArrayPart(p)
  {
    hide LineIs, SkipLead, AfterEq, ValueOfLine, Visible, Count, Commas, NoNull, BareAt, BareCommas, NullFree, Eq, Ends,
         EndsIn, IsArray, BasicLint;
    PartsAre(line, a, k, c, p);
    ValueThere(line, a, k, c, p);
    CountsBare(p, {'"'});
    CountsBare(p, {'[', ']'});
    CommasBare(p);
    EndsInIs(p, '"');
    EndsInIs(p, ']');
    if p[0] == '[' {
      NullFreeExactly(p);
      if LastInk(p, |p| - 1) == 0 {
        LoneBracket(p);
      }
    }
  }

  lemma ValueThere(line: string, a: nat, k: string, c: nat, p: string)
    requires LineIs(line, a, k, c, p)
    ensures p != "" && p[0] != ' '
  {
  }

  /** Every line that gets through the first lint has the parts. */
  lemma PartsOf(line: string) returns (a: nat, k: string, c: nat, p: string)
    requires BasicLint(line)
    ensures LineIs(line, a, k, c, p)
  {
    hide Escaped, EndsIn, Eq, SkipAll, Blanks, KeyPart, FirstBare, SkipLead;
    var l := SkipLead(line);
    var e := Eq(l);
    k := l[..e];
    var r := l[e + 1..];
    p := SkipLead(r);
    a, c := SkipAll(line, {' '}, 0, |line|), SkipAll(r, {' '}, 0, |r|);
    LeadIsInk(line);
    KeyPartOf(l);
    LeadBack(r);
    LeadBack(line);
    EqChar(l);
    SkipLeadIsThere(r);
    assert l == k + "=" + r;
  }

  lemma LeadIsInk(line: string)
    requires BasicLint(line)
    ensures line != "" && SkipLead(line)[0] != ' '
  {
    hide EndsIn;
    var l := SkipLead(line);
    EqChar(l);
  }

  lemma EqChar(l: string)
    requires Eq(l) < |l|
    ensures l[Eq(l)] == '='
  {
  }

  lemma LeadBack(s: string)
    requires s != "" && SkipLead(s)[0] != ' '
    ensures var n := SkipAll(s, {' '}, 0, |s|); s == Blanks(n) + SkipLead(s)
  {
    hide SkipAll, Blanks;
    var n := SkipAll(s, {' '}, 0, |s|);
    BlanksAre(s[..n]);
    assert s == s[..n] + s[n..];
  }

  lemma BlanksAre(b: string)
    requires forall i | 0 <= i < |b| :: b[i] == ' '
    ensures b == Blanks(|b|)
  {
  }

  lemma KeyPartOf(l: string)
    requires Eq(l) < |l| && l[0] != '=' && l[0] != ' ' && Eq(l) < FirstBare(l, '"', 0, 0)
    ensures KeyPart(l[..Eq(l)])
  {
    hide Escaped;
    var e, k := Eq(l), l[..Eq(l)];
    FirstBareLeast(l, '=', 0, 0);
    FirstBareLeast(l, '"', 0, 0);
    EqChar(l);
    assert l[0..e] == k;
    forall j: nat | j < e ensures l[0..j] == k[..j] && l[j] == k[j] {
    }
  }

  /**
   A line is taken if and only if it is blanks, a key, its `=`, blanks and a value, where the value
   is either a text with exactly two bare quotes, its first and its last character, or an array:
   two bare brackets, around an even number of bare quotes, one comma outside quotes between any
   two elements, and, from two elements on, no empty one and nothing in front of the first.
   */
  lemma LintExactly(line: string)
    ensures LintOk(line) <==>
            exists a: nat, k: string, c: nat, p: string :: LineIs(line, a, k, c, p) && (ScalarPart(p) || ArrayPart(p))
  {
    hide LineIs, ScalarPart, ArrayPart, LintOk;
    if LintOk(line) {
      LintIsBasic(line);
      var a, k, c, p := PartsOf(line);
      LintOfParts(line, a, k, c, p);
    }
    if a: nat, k: string, c: nat, p: string :| LineIs(line, a, k, c, p) && (ScalarPart(p) || ArrayPart(p)) {
      LintOfParts(line, a, k, c, p);
    }
  }

  // ----- key and value of such a line -----

  lemma InkBefore(t: string, n: nat, i: nat)
    requires t != "" && |t| - 1 <= i < |t| + n && (t[|t| - 1] != ' ' || |t| == 1)
    ensures LastInk(t + Blanks(n), i) == |t| - 1
    decreases i
  {
    var s := t + Blanks(n);
    if i >= |t| {
      assert s[i] == ' ';
      InkBefore(t, n, i - 1);
    } else {
      assert s[i] == t[i];
    }
  }

  /** Blanks behind a text are taken off, unless it has one character only. */
  lemma TrimIs(t: string, n: nat)
    requires t != "" && t[|t| - 1] != ' '
    ensures TrimEnd(t + Blanks(n)) == if |t| > 1 then t else t + Blanks(n)
  {
    hide LastInk, Blanks;
    var s := t + Blanks(n);
    InkBefore(t, n, |s| - 1);
    assert s[..|t|] == t;
  }

  /**
   The key of a line is what stands before the `=` without the blanks around it, but a key of one
   character keeps the blanks behind it.
   */
  lemma LeftIs(line: string, a: nat, k: string, b: nat, c: nat, p: string)
    requires LineIs(line, a, k + Blanks(b), c, p) && k != "" && k[|k| - 1] != ' '
    ensures LineLeft(line) == if |k| > 1 || b == 0 then k else k + Blanks(b)
  {
    hide LineIs, SkipLead, AfterEq, ValueOfLine, Eq, TrimEnd, Blanks, BasicLint;
    PartsAre(line, a, k + Blanks(b), c, p);
    TrimIs(k, b);
    assert k + Blanks(0) == k;
  }

  /** The value of a line is what stands behind the `=`, without the blanks around it and unescaped. */
  lemma RightIs(line: string, a: nat, k: string, c: nat, p: string, d: nat)
    requires LineIs(line, a, k, c, p + Blanks(d)) && |p| > 1 && p[|p| - 1] != ' '
    ensures LineRight(line) == Unescape(p)
  {
    hide LineIs, SkipLead, AfterEq, ValueOfLine, Eq, TrimEnd, Blanks, Unescape, BasicLint;
    PartsAre(line, a, k, c, p + Blanks(d));
    TrimIs(p, d);
  }
}
