/**
 The line lints of the older k2v reader, and the key and the value of a line that
 passed them (src/k2v.c:485-797).
 */
module OldLint {
  import opened Text
  import opened Escape

  // ----- pieces of a line -----

  /** Without leading spaces; a text of spaces only stays as it is. */
  function SkipLead(s: string): string {
    var k := SkipAll(s, {' '}, 0, |s|);
    if k < |s| then s[k..] else s
  }

  /** The last position in 1..i without a space, or 0: position 0 is not looked at. */
  function LastInk(s: string, i: nat): (k: nat)
    requires i < |s|
    ensures k <= i && (k > 0 ==> s[k] != ' ')
    ensures forall j | k < j <= i :: s[j] == ' '
  {
    if i > 0 && s[i] == ' ' then LastInk(s, i - 1) else i
  }

  /** Without trailing spaces, except that the loop gives up before position 0. */
  function TrimEnd(s: string): string
    requires s != ""
  {
    var k := LastInk(s, |s| - 1);
    if k > 0 then s[..k + 1] else s
  }

  /** The position of the `=` between key and value. */
  function Eq(s: string): (e: nat)
    ensures e <= |s|
  {
    FirstBare(s, '=', 0, 0)
  }

  /** What the loops that skip a backslash and the character after it get to see. */
  function Visible(s: string): string {
    if s == "" then ""
    else if s[0] == '\\' then (if |s| > 1 then Visible(s[2..]) else "")
    else [s[0]] + Visible(s[1..])
  }

  function Count(s: string, cs: set<char>): nat {
    if s == "" then 0 else (if s[0] in cs then 1 else 0) + Count(s[1..], cs)
  }

  /** Commas outside quotes. */
  function Commas(s: string, inQuote: bool): nat {
    if s == "" then 0 else
    var q := if s[0] == '"' then !inQuote else inQuote;
    (if s[0] == ',' && !q then 1 else 0) + Commas(s[1..], q)
  }

  /** No position outside quotes comes right after the last opening quote. */
  predicate NoNull(s: string, i: nat, inQuote: bool, last: nat)
    decreases |s|
  {
    if s == "" then true
    else if s[0] == '\\' then NoNull(if |s| > 1 then s[2..] else "", i + 2, inQuote, last)
    else
      var q := if s[0] == '"' then !inQuote else inQuote;
      var l := if s[0] == '"' && q then i else last;
      (q || l + 1 != i) && NoNull(s[1..], i + 1, q, l)
  }

  // ----- the lints -----

  /** The value ends, spaces aside, in `c`; a lone first character is not looked at. */
  predicate EndsIn(p: string, c: char)
    requires p != ""
  {
    var k := LastInk(p, |p| - 1);
    k > 0 ==> p[k] == c
  }

  predicate BasicLint(line: string) {
    var l := SkipLead(line);
    var e := Eq(l);
    && e + 1 < |l|
    && l[0] != '='
    && e < FirstBare(l, '"', 0, 0)
    && var p := SkipLead(l[e + 1..]);
       (p[0] == '"' && EndsIn(p, '"')) || (p[0] == '[' && EndsIn(p, ']'))
  }

  /** After the `=`; the whole line when there is none. */
  function AfterEq(line: string): string {
    if Eq(line) < |line| then line[Eq(line) + 1..] else line
  }

  predicate IsArray(line: string) {
    var p := AfterEq(line);
    var k := SkipAll(p, {' '}, 0, |p|);
    k < |p| && p[k] == '['
  }

  predicate ScalarLint(line: string) {
    Count(Visible(SkipLead(AfterEq(line))), {'"'}) == 2
  }

  predicate ArrayLint(line: string) {
    var p := SkipLead(AfterEq(line));
    var v := Visible(p);
    var quotes := Count(v, {'"'});
    && Count(v, {'[', ']'}) == 2
    && quotes % 2 == 0
    && Commas(v, false) == (if quotes == 0 then 0 else quotes / 2 - 1)
    && (quotes <= 2 || NoNull(p, 0, false, 0))
  }

  predicate LintOk(line: string) {
    BasicLint(line) && if IsArray(line) then ArrayLint(line) else ScalarLint(line)
  }

  /** line_get_left. */
  function LineLeft(line: string): string {
    var l := SkipLead(line);
    if Eq(l) == 0 then "" else TrimEnd(l[..Eq(l)])
  }

  lemma LeftIsThere(l: string)
    requires l != "" && l[0] != '='
    ensures Eq(l) > 0
  {
  }

  /** The text after the `=` and its spaces. */
  function ValueOfLine(line: string): string {
    var l := SkipLead(line);
    SkipLead(if Eq(l) < |l| then l[Eq(l) + 1..] else "")
  }

  /** line_get_right. */
  function LineRight(line: string): string {
    var v := ValueOfLine(line);
    if v == "" then "" else Unescape(TrimEnd(v))
  }

  // ----- the loops -----

  method SkipSpaces(line: string) returns (r: string)
    ensures r == SkipLead(line)
  {
    var i := 0;
    while i < |line|
      invariant i <= |line|
      invariant SkipAll(line, {' '}, 0, |line|) == SkipAll(line, {' '}, i, |line|)
    {
      if line[i] == ' ' {
        i := i + 1;
        continue;
      }
      return line[i..];
    }
    r := line;
  }

  method TrimSpaces(s: string) returns (r: string)
    requires s != ""
    ensures r == TrimEnd(s)
  {
    var i := |s| - 1;
    while i > 0
      invariant 0 <= i < |s|
      invariant LastInk(s, |s| - 1) == LastInk(s, i)
    {
      if s[i] == ' ' {
        i := i - 1;
        continue;
      }
      return s[..i + 1];
    }
    r := s;
  }

  /** Pairing at the two steps the skipping loops take. */
  lemma SkipPair(s: string, i: nat)
    requires i < |s| && !Escaped(s[..i])
    ensures s[i] != '\\' ==> !Escaped(s[..i + 1])
    ensures s[i] == '\\' ==> Escaped(s[..i + 1]) && (i + 1 < |s| ==> !Escaped(s[..i + 2]))
  {
    assert s[..i + 1][..i] == s[..i];
    if i + 1 < |s| {
      assert s[..i + 2][..i + 1] == s[..i + 1];
    }
  }

  /** The loop over a key: it stops at the first of two characters that is not escaped. */
  method FindEither(line: string, c: char, d: char) returns (i: nat)
    requires c != '\\' && d != '\\'
    ensures var a, b := FirstBare(line, c, 0, 0), FirstBare(line, d, 0, 0); i == if a <= b then a else b
  {
    i := 0;
    while i < |line|
      invariant i <= |line| && !Escaped(line[..i])
      invariant FirstBare(line, c, 0, 0) == FirstBare(line, c, 0, i)
      invariant FirstBare(line, d, 0, 0) == FirstBare(line, d, 0, i)
    {
      assert line[0..i] == line[..i];
      SkipPair(line, i);
      if line[i] == '\\' {
        if i + 1 == |line| {
          return |line|;
        }
        assert line[0..i + 1] == line[..i + 1];
        i := i + 2;
        continue;
      }
      if line[i] == c || line[i] == d {
        break;
      }
      i := i + 1;
    }
  }

  lemma VisibleStep(s: string, i: nat)
    requires i < |s|
    ensures s[i] != '\\' ==> Visible(s[i..]) == [s[i]] + Visible(s[i + 1..])
    ensures s[i] == '\\' ==> Visible(s[i..]) == if i + 1 < |s| then Visible(s[i + 2..]) else ""
  {
    assert s[i..][1..] == s[i + 1..];
    if i + 1 < |s| {
      assert s[i..][2..] == s[i + 2..];
    }
  }

  method CountVisible(p: string, cs: set<char>) returns (n: nat)
    ensures n == Count(Visible(p), cs)
  {
    hide Visible;
    VisibleEmpty();
    n := 0;
    var i := 0;
    assert p[0..] == p;
    while i < |p|
      invariant i <= |p|
      invariant n + Count(Visible(p[i..]), cs) == Count(Visible(p), cs)
    {
      VisibleStep(p, i);
      if p[i] == '\\' {
        if i + 1 == |p| {
          return;
        }
        i := i + 2;
        continue;
      }
      if p[i] in cs {
        n := n + 1;
      }
      i := i + 1;
    }
    assert p[i..] == "";
  }

  lemma VisibleEmpty()
    ensures Visible("") == ""
  {
  }

  method CountCommas(p: string) returns (count: nat)
    ensures count == Commas(Visible(p), false)
  {
    hide Visible;
    VisibleEmpty();
    count := 0;
    var i, inQuote := 0, false;
    assert p[0..] == p;
    while i < |p|
      invariant i <= |p|
      invariant count + Commas(Visible(p[i..]), inQuote) == Commas(Visible(p), false)
    {
      VisibleStep(p, i);
      if p[i] == '\\' {
        if i + 1 == |p| {
          return;
        }
        i := i + 2;
        continue;
      }
      if p[i] == '"' {
        inQuote := !inQuote;
      }
      if p[i] == ',' && !inQuote {
        count := count + 1;
      }
      i := i + 1;
    }
    assert p[i..] == "";
  }

  method CheckNull(p: string) returns (ok: bool)
    ensures ok == NoNull(p, 0, false, 0)
  {
    var i, inQuote, last := 0, false, 0;
    assert p[0..] == p;
    while i < |p|
      invariant i <= |p| && 0 <= last
      invariant NoNull(p, 0, false, 0) == NoNull(p[i..], i, inQuote, last)
    {
      assert p[i..][1..] == p[i + 1..];
      if p[i] == '\\' {
        if i + 1 == |p| {
          return true;
        }
        assert p[i..][2..] == p[i + 2..];
        i := i + 2;
        continue;
      }
      if p[i] == '"' {
        inQuote := !inQuote;
        if inQuote {
          last := i;
        }
      }
      if !inQuote && last == i - 1 {
        return false;
      }
      i := i + 1;
    }
    ok := true;
  }

  // ----- the checks of a line -----

  method CheckEnd(p: string, c: char) returns (ok: bool)
    requires p != ""
    ensures ok == EndsIn(p, c)
  {
    var i := |p| - 1;
    while i > 0
      invariant 0 <= i < |p|
      invariant LastInk(p, |p| - 1) == LastInk(p, i)
    {
      if p[i] == ' ' {
        i := i - 1;
        continue;
      }
      return p[i] == c;
    }
    ok := true;
  }

  lemma SkipLeadIsThere(s: string)
    requires s != ""
    ensures SkipLead(s) != ""
  {
  }

  /** __k2v_basic_lint. */
  method CheckBasic(line: string) returns (ok: bool)
    ensures ok == BasicLint(line)
  {
    hide FirstBare, SkipLead, EndsIn;
    var l := SkipSpaces(line);
    if '=' !in l || l[0] == '=' {
      EqIsThere(l);
      return false;
    }
    var k := FindEither(l, '=', '"');
    var e := FindEither(l, '=', '=');
    if k < |l| && l[k] == '"' {
      return false;
    }
    if e == |l| || e + 1 == |l| {
      return false;
    }
    SkipLeadIsThere(l[e + 1..]);
    var p := SkipSpaces(l[e + 1..]);
    if p[0] == '"' {
      ok := CheckEnd(p, '"');
    } else if p[0] == '[' {
      ok := CheckEnd(p, ']');
    } else {
      ok := false;
    }
  }

  lemma EqIsThere(l: string)
    ensures Eq(l) < |l| ==> '=' in l
  {
    if Eq(l) < |l| {
      assert l[Eq(l)] == '=';
    }
  }

  /** The value part of a line. */
  method ValuePart(line: string) returns (p: string)
    ensures p == AfterEq(line)
  {
    var e := FindEither(line, '=', '=');
    p := if e < |line| then line[e + 1..] else line;
  }

  /** __k2v_is_array. */
  method CheckIsArray(line: string) returns (r: bool)
    ensures r == IsArray(line)
  {
    hide FirstBare, AfterEq;
    var p := ValuePart(line);
    var i := 0;
    while i < |p|
      invariant i <= |p|
      invariant SkipAll(p, {' '}, 0, |p|) == SkipAll(p, {' '}, i, |p|)
    {
      if p[i] == ' ' {
        i := i + 1;
        continue;
      }
      return p[i] == '[';
    }
    r := false;
  }

  /** __k2v_array_lint. */
  method CheckArray(line: string) returns (ok: bool)
    ensures ok == ArrayLint(line)
  {
    hide AfterEq, SkipLead, Visible, Count, Commas, NoNull;
    var v := ValuePart(line);
    var p := SkipSpaces(v);
    var bracket := CountVisible(p, {'[', ']'});
    if bracket != 2 {
      return false;
    }
    var quote := CountVisible(p, {'"'});
    if quote % 2 != 0 {
      return false;
    }
    if quote == 0 {
      quote := 2;
    }
    var count := CountCommas(p);
    if count != quote / 2 - 1 {
      return false;
    }
    if quote == 2 {
      return true;
    }
    ok := CheckNull(p);
  }

  /** __k2v_scalar_lint. */
  method CheckScalar(line: string) returns (ok: bool)
    ensures ok == ScalarLint(line)
  {
    var v := ValuePart(line);
    var p := SkipSpaces(v);
    var quote := CountVisible(p, {'"'});
    ok := quote == 2;
  }

  method CheckLine(line: string) returns (ok: bool)
    ensures ok == LintOk(line)
  {
    ok := CheckBasic(line);
    if ok {
      var isArray := CheckIsArray(line);
      if isArray {
        ok := CheckArray(line);
      } else {
        ok := CheckScalar(line);
      }
    }
  }

  method GetLeft(line: string) returns (left: string)
    requires BasicLint(line)
    ensures left == LineLeft(line)
  {
    hide FirstBare, Escaped, SkipLead, EndsIn, TrimEnd, Eq;
    var l := SkipSpaces(line);
    LeftIsThere(l);
    var ret, i := "", 0;
    NothingEscaped(l);
    while true
      invariant i <= Eq(l) && !Escaped(l[..i]) && ret == l[..i]
      decreases Eq(l) - i
    {
      SkipPair(l, i);
      BeforeEq(l, i);
      if l[i] == '\\' {
        ret := ret + [l[i]];
        i := i + 1;
        ret := ret + [l[i]];
        i := i + 1;
        continue;
      }
      if l[i] == '=' {
        break;
      }
      ret := ret + [l[i]];
      i := i + 1;
    }
    left := TrimSpaces(ret);
  }

  lemma NothingEscaped(l: string)
    ensures l[..0] == "" && !Escaped(l[..0])
  {
  }

  /** Before the separating `=` a backslash always has a character to escape, two places before the end. */
  lemma BeforeEq(l: string, i: nat)
    requires Eq(l) + 1 < |l| && i <= Eq(l) && !Escaped(l[..i])
    ensures l[i] == '\\' ==> i + 2 <= Eq(l)
    ensures l[i] == '=' <==> i == Eq(l)
  {
    var e := Eq(l);
    FirstBareLeast(l, '=', 0, 0);
    assert l[0..i] == l[..i] && l[0..e] == l[..e];
    SkipPair(l, i);
    assert e == i + 1 ==> l[..e] == l[..i + 1];
  }

  method GetRight(line: string) returns (right: string)
    requires BasicLint(line)
    ensures right == LineRight(line)
  {
    var l := SkipSpaces(line);
    var e := FindEither(l, '=', '=');
    SkipLeadIsThere(l[e + 1..]);
    var v := SkipSpaces(l[e + 1..]);
    var t := TrimSpaces(v);
    right := CorrectBackslash(t);
  }
}
