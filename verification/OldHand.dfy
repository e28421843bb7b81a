/**
 Files written by hand, as the older k2v reader reads them (src/k2v.c:485-1349): blanks around
 keys and values, indented comments, blank lines.
 */
module OldHand {
  import opened Text
  import opened Escape
  import opened Number
  import opened K2v3Emit
  import opened RoundTrip
  import opened OldK2v
  import opened OldLint
  import opened OldGet
  import opened PlainText
  import opened ReadersAgree
  import opened OldLines
  import opened OldArrays
  import opened OldExact

  /** A line of such a file, with its numbers of blanks. */
  datatype Hand =
    | Setting(a: nat, key: string, b: nat, c: nat, written: Written, d: nat)
    | Remark(n: nat, text: string)
    | Blank(n: nat)

  /** What the reader can tell from the rest of the line: no blank at either end, and no comment. */
  ghost predicate KeyText(k: string) {
    && k != "" && k[0] !in {' ', '#'} && k[|k| - 1] != ' '
    && forall i | 0 <= i < |k| :: k[i] !in {'=', '\\', '"', '\n'}
  }

  ghost predicate HandOk(h: Hand) {
    match h
    case Setting(_, key, _, _, w, _) => KeyText(key) && PlainWritten(w)
    case Remark(_, text) => '\n' !in text
    case Blank(_) => true
  }

  function HandLine(h: Hand): string {
    match h
    case Setting(a, key, b, c, w, d) => Blanks(a) + (key + Blanks(b) + "=" + (Blanks(c) + (Rhs(w) + Blanks(d))))
    case Remark(n, text) => Blanks(n) + ("#" + text)
    case Blank(n) => Blanks(n)
  }

  function HandText(hs: seq<Hand>): string {
    if hs == [] then "" else HandLine(hs[0]) + "\n" + HandText(hs[1..])
  }

  // ----- values with blanks behind them -----

  lemma {:induction false} BareBlanks(p: string, d: nat, cs: set<char>)
    requires ' ' !in cs
    ensures |BareAt(p + Blanks(d), cs)| == |BareAt(p, cs)| && |BareCommas(p + Blanks(d))| == |BareCommas(p)|
  {
    hide Blanks, BareAt, BareCommas;
    if d == 0 {
      assert p + Blanks(0) == p;
    } else {
      BareBlanks(p, d - 1, cs);
      assert p + Blanks(d) == p + Blanks(d - 1) + [' '];
      BareSnoc(p + Blanks(d - 1), ' ', cs);
      CommasSnoc(p + Blanks(d - 1), ' ');
    }
  }

  lemma NullBlanks(p: string, d: nat)
    requires |p| > 1 && NullFree(p)
    ensures NullFree(p + Blanks(d))
  {
    hide Blanks, Outside, Escaped;
    var s := p + Blanks(d);
    forall i: nat | 1 <= i && i + 1 < |s| && s[i] == '"' && s[i + 1] == '"' && !Escaped(s[..i])
      ensures !Outside(s[..i])
    {
      assert s[i + 1] == p[i + 1] && s[i] == p[i] && s[..i] == p[..i];
    }
  }

  lemma EndsBlanks(p: string, d: nat, c: char)
    requires p != "" && p[|p| - 1] == c
    ensures Ends(p + Blanks(d), c)
  {
    var s, j := p + Blanks(d), |p| - 1;
    assert s[j] == c;
  }

  lemma ScalarIsPart(v: string, d: nat)
    requires CanonicalScalar(v)
    ensures ScalarPart(Quoted(v) + Blanks(d))
  {
    hide Blanks, BareAt, Ends, CanonicalScalar, Visible, Count;
    ScalarCounts(v);
    CountsBare(Quoted(v), {'"'});
    BareBlanks(Quoted(v), d, {'"'});
    EndsBlanks(Quoted(v), d, '"');
  }

  lemma ArrayIsPart(vals: seq<string>, d: nat)
    requires PlainElements(vals)
    ensures ArrayPart("[" + Join(vals) + "]" + Blanks(d))
  {
    hide Blanks, BareAt, BareCommas, Ends, Plain, Visible, Count, Commas, NoNull, NullFree, Join;
    var r := "[" + Join(vals) + "]";
    ArrayCounts(vals);
    CountsBare(r, {'"'});
    CountsBare(r, {'[', ']'});
    CommasBare(r);
    NullFreeExactly(r);
    BareBlanks(r, d, {'"'});
    BareBlanks(r, d, {'[', ']'});
    EndsBlanks(r, d, ']');
    if vals != [] {
      NullBlanks(r, d);
    }
  }

  lemma ValueIsPart(w: Written, d: nat)
    requires PlainWritten(w)
    ensures ScalarPart(Rhs(w) + Blanks(d)) || ArrayPart(Rhs(w) + Blanks(d))
    ensures |Rhs(w)| > 1 && Rhs(w)[0] != ' ' && Rhs(w)[|Rhs(w)| - 1] != ' ' && '\n' !in Rhs(w) && Stable(Rhs(w))
  {
    hide Blanks, ScalarPart, ArrayPart, PlainItem, PlainWritten, Stable, ScalarText, ElementTexts, CanonicalScalar,
         PlainElements;
    UnderSomeKey(w);
    RhsIsWrapped("k", w);
    PlainTexts("k", w);
    if IsScalar(w) {
      ScalarIsPart(ScalarText(w), d);
    } else {
      ArrayIsPart(ElementTexts(w), d);
    }
  }

  // ----- one line -----

  lemma KeyTextIsPart(k: string, b: nat)
    requires KeyText(k)
    ensures KeyPart(k + Blanks(b))
  {
    hide Escaped;
    var s := k + Blanks(b);
    assert '\\' !in s;
    NoEscapes(s, |s|);
    assert s[..|s|] == s;
  }

  /** Every setting is taken, under its key and with its value. */
  lemma SettingIsRead(h: Hand)
    requires h.Setting? && HandOk(h)
    ensures LintOk(HandLine(h)) && LineRight(HandLine(h)) == Rhs(h.written)
    ensures LineLeft(HandLine(h)) == FoundUnder(h)
  {
    hide Blanks, PlainWritten, ScalarPart, ArrayPart, LintOk, LineRight, LineLeft, Rhs, Unescape, Stable;
    var r, p := Rhs(h.written), Rhs(h.written) + Blanks(h.d);
    ValueIsPart(h.written, h.d);
    KeyTextIsPart(h.key, h.b);
    assert LineIs(HandLine(h), h.a, h.key + Blanks(h.b), h.c, p);
    LintOfParts(HandLine(h), h.a, h.key + Blanks(h.b), h.c, p);
    LeftIs(HandLine(h), h.a, h.key, h.b, h.c, p);
    RightIs(HandLine(h), h.a, h.key + Blanks(h.b), h.c, r, h.d);
    UnescapeFixed(r);
  }

  /** The key that finds a setting: its own, but a key of one letter keeps the blanks behind it. */
  function FoundUnder(h: Hand): string
    requires h.Setting?
  {
    if |h.key| > 1 || h.b == 0 then h.key else h.key + Blanks(h.b)
  }

  /** Blanks and then a character. */
  lemma InkAt(a: nat, t: string)
    requires t != "" && t[0] != ' '
    ensures var s := Blanks(a) + t; SkipAll(s, {' '}, 0, |s|) == a && s[a] == t[0]
  {
    var s := Blanks(a) + t;
    assert s[a] == t[0];
  }

  lemma NotAComment(h: Hand)
    requires h.Setting? && HandOk(h)
    ensures !IsComment(HandLine(h)) && '\n' !in HandLine(h)
  {
    hide Blanks, PlainWritten, Rhs, Stable, ScalarPart, ArrayPart;
    ValueIsPart(h.written, h.d);
    var t := h.key + Blanks(h.b) + "=" + (Blanks(h.c) + (Rhs(h.written) + Blanks(h.d)));
    assert t[0] == h.key[0];
    InkAt(h.a, t);
    NoBreak(h.key);
    BlanksNoBreak(h.a);
    BlanksNoBreak(h.b);
    BlanksNoBreak(h.c);
    BlanksNoBreak(h.d);
  }

  lemma NoBreak(k: string)
    requires KeyText(k)
    ensures '\n' !in k
  {
  }

  lemma BlanksNoBreak(n: nat)
    ensures '\n' !in Blanks(n)
  {
  }

  /** Indented comments and blank lines are left out, whether as comments or by the lint. */
  lemma OthersAreDropped(h: Hand)
    requires !h.Setting? && HandOk(h)
    ensures '\n' !in HandLine(h) && (IsComment(HandLine(h)) || !LintOk(HandLine(h)))
  {
    match h {
      case Remark(n, text) =>
        InkAt(n, "#" + text);
        BlanksNoBreak(n);
      case Blank(n) =>
        BlanksNoBreak(n);
        NoLintForBlanks(n);
    }
  }

  lemma NoLintForBlanks(n: nat)
    ensures !LintOk(Blanks(n))
  {
    hide Blanks, LintOk;
    var s := Blanks(n);
    if LintOk(s) {
      LintIsBasic(s);
      InkInLine(s);
    }
  }

  lemma InkInLine(line: string)
    requires BasicLint(line)
    ensures exists i :: 0 <= i < |line| && line[i] != ' '
  {
    var a, k, c, p := PartsOf(line);
    assert line[a] == k[0];
  }

  // ----- a file -----

  function SettingLines(hs: seq<Hand>): seq<string> {
    if hs == [] then [] else (if hs[0].Setting? then [HandLine(hs[0])] else []) + SettingLines(hs[1..])
  }

  lemma {:induction false} HandTidy(hs: seq<Hand>)
    requires forall h | h in hs :: HandOk(h)
    ensures TidyLines(HandText(hs)) == SettingLines(hs)
  {
    hide LintOk, HandOk, HandLine, IsComment, FirstLine, RestLines;
    if hs == [] {
      CommentsEnds();
    } else {
      var l, more := HandLine(hs[0]), HandText(hs[1..]);
      HandTidy(hs[1..]);
      if hs[0].Setting? {
        SettingIsRead(hs[0]);
        NotAComment(hs[0]);
      } else {
        OthersAreDropped(hs[0]);
      }
      LineInFront(l, more);
      DropComments1(l, Lines(more));
      assert l + "\n" + more != "" && [] + NotComments(more) == NotComments(more);
      if !IsComment(l) {
        KeepOk1([l] + NotComments(more));
        assert ([l] + NotComments(more))[1..] == NotComments(more);
        assert [] + TidyLines(more) == TidyLines(more);
      }
    }
  }

  /** The first setting that this key finds. */
  function FirstHand(hs: seq<Hand>, key: string): (r: Option<Hand>)
    ensures r.Some? ==> r.value in hs && r.value.Setting? && FoundUnder(r.value) == key
  {
    if hs == [] then None
    else if hs[0].Setting? && FoundUnder(hs[0]) == key then Some(hs[0])
    else FirstHand(hs[1..], key)
  }

  lemma {:induction false} HandFinds(hs: seq<Hand>, key: string)
    requires forall h | h in hs :: HandOk(h)
    ensures FirstKey(SettingLines(hs), key) ==
            match FirstHand(hs, key) case None => None case Some(h) => Some(HandLine(h))
  {
    hide HandOk, HandLine, LineLeft, FoundUnder;
    if hs != [] {
      HandFinds(hs[1..], key);
      if hs[0].Setting? {
        assert hs[0] in hs;
        SettingIsRead(hs[0]);
        var l := HandLine(hs[0]);
        assert ([l] + SettingLines(hs[1..]))[1..] == SettingLines(hs[1..]);
      } else {
        assert [] + SettingLines(hs[1..]) == SettingLines(hs[1..]);
      }
    }
  }

  /**
   Blanks make no difference: in any such file the first setting of a key is found and its value
   given back, except that a key of one letter is not found when blanks stand behind it.
   */
  lemma HandReads(hs: seq<Hand>, key: string, limit: nat)
    requires forall h | h in hs :: HandOk(h)
    ensures OldHaveKey(key, HandText(hs)) <==> FirstHand(hs, key).Some?
    ensures FirstHand(hs, key).Some? ==> OldGives(HandText(hs), key, FirstHand(hs, key).value.written, limit)
  {
    hide HandOk, HandLine, TidyLines, OldGives, FoundUnder, LineRight, HandText, KeyLine, Rhs, LintOk, LineLeft,
         PlainWritten;
    HandLookup(hs, key);
    var found := FirstHand(hs, key);
    if found.Some? {
      var h := found.value;
      SettingIsRead(h);
      SettingIsPlain(h);
      OldGivesBack(HandText(hs), key, HandLine(h), h.written, limit);
    }
  }

  /** The line that the older getters work on. */
  lemma HandLookup(hs: seq<Hand>, key: string)
    requires forall h | h in hs :: HandOk(h)
    ensures KeyLine(key, HandText(hs)) ==
            match FirstHand(hs, key) case None => None case Some(h) => Some(HandLine(h))
  {
    hide HandOk, HandLine, TidyLines, FoundUnder;
    HandTidy(hs);
    HandFinds(hs, key);
    var found := FirstHand(hs, key);
    if found.Some? {
      KeyThere(found.value);
    }
  }

  lemma SettingIsPlain(h: Hand)
    requires h.Setting? && HandOk(h)
    ensures PlainWritten(h.written)
  {
  }

  lemma KeyThere(h: Hand)
    requires h.Setting? && HandOk(h)
    ensures FoundUnder(h) != ""
  {
  }

  /** A setting alone in its file: its key finds it unless the key is one letter with blanks behind it. */
  lemma OneSetting(h: Hand)
    requires h.Setting? && HandOk(h)
    ensures OldHaveKey(h.key, HandText([h])) <==> |h.key| > 1 || h.b == 0
  {
    hide HandOk, HandLine, HandText;
    HandReads([h], h.key, 0);
    assert [h][1..] == [] && FirstHand([], h.key) == None;
  }

  // ----- arrays with blanks in them -----

  ghost predicate HandElements(vals: seq<string>) {
    forall v | v in vals :: Plain(v) && v != "" && v[0] != ' ' && ',' !in v
  }

  lemma HandIsSimple(vals: seq<string>)
    requires HandElements(vals)
    ensures SimpleElements(vals) && PlainElements(vals)
  {
    forall v | v in vals ensures Element(v) {
      PlainElementIsCanonical(v);
    }
  }

  lemma {:induction false} BlanksCount(n: nat, rest: string, cs: set<char>)
    requires ' ' !in cs
    ensures Count(Blanks(n) + rest, cs) == Count(rest, cs) && Commas(Blanks(n) + rest, false) == Commas(rest, false)
  {
    hide Blanks;
    if n == 0 {
      assert Blanks(0) + rest == rest;
    } else {
      BlanksCount(n - 1, rest, cs);
      assert (Blanks(n) + rest)[0] == ' ' && (Blanks(n) + rest)[1..] == Blanks(n - 1) + rest;
    }
  }

  lemma {:induction false} BlanksNull(n: nat, rest: string, i: nat, last: nat)
    requires n > 0 ==> last < i
    ensures NoNull(Blanks(n) + rest, i, false, last) <==> (n == 0 || last + 1 < i) && NoNull(rest, i + n, false, last)
  {
    hide Blanks;
    if n == 0 {
      assert Blanks(0) + rest == rest;
    } else {
      var s := Blanks(n) + rest;
      assert s[0] == ' ' && s[1..] == Blanks(n - 1) + rest;
      BlanksNull(n - 1, rest, i + 1, last);
    }
  }

  lemma CommaCount(rest: string)
    ensures Count("," + rest, {'"'}) == Count(rest, {'"'}) && Count("," + rest, {'[', ']'}) == Count(rest, {'[', ']'})
    ensures Commas("," + rest, false) == 1 + Commas(rest, false)
    ensures Count("]", {'"'}) == 0 && Count("]", {'[', ']'}) == 1 && Commas("]", false) == 0
  {
    assert ("," + rest)[1..] == rest && "]"[1..] == "";
  }

  lemma QuotedCount(v: string, rest: string)
    requires Plain(v)
    ensures Count(Quoted(v) + rest, {'"'}) == 2 + Count(rest, {'"'})
    ensures Count(Quoted(v) + rest, {'[', ']'}) == Count(rest, {'[', ']'})
    ensures Commas(Quoted(v) + rest, false) == Commas(rest, false)
  {
    hide Plain, Quoted, Count, Commas;
    CountQuoted(v, {});
    CountAppend(Quoted(v), rest, {'"'});
    CountAppend(Quoted(v), rest, {'[', ']'});
    CommasQuoted(v, rest);
  }

  lemma {:induction false} SpacedCounts(vals: seq<string>, before: seq<nat>, behind: seq<nat>)
    requires |vals| == |before| == |behind| && vals != [] && HandElements(vals)
    ensures var s := Spaced(vals, before, behind);
            && Count(s, {'"'}) == 2 * |vals| && Count(s, {'[', ']'}) == 1 && Commas(s, false) == |vals| - 1
    decreases |vals|
  {
    hide Blanks, Quoted, Count, Commas, Plain, Spaced;
    assert vals[0] in vals;
    SpacedCons(vals, before, behind);
    var more := if |vals| == 1 then "]" else "," + Spaced(vals[1..], before[1..], behind[1..]);
    var rest := Blanks(behind[0]) + more;
    if |vals| == 1 {
      CommaCount("");
    } else {
      assert forall v | v in vals[1..] :: v in vals;
      SpacedCounts(vals[1..], before[1..], behind[1..]);
      CommaCount(Spaced(vals[1..], before[1..], behind[1..]));
    }
    BlanksCount(behind[0], more, {'"'});
    BlanksCount(behind[0], more, {'[', ']'});
    QuotedCount(vals[0], rest);
    BlanksCount(before[0], Quoted(vals[0]) + rest, {'"'});
    BlanksCount(before[0], Quoted(vals[0]) + rest, {'[', ']'});
  }

  lemma OneMoreNull(c: char, rest: string, i: nat, last: nat)
    requires c !in {'"', '\\'} && last + 1 < i
    ensures NoNull([c] + rest, i, false, last) == NoNull(rest, i + 1, false, last)
  {
    assert ([c] + rest)[1..] == rest;
  }

  /** Blanks in front of the first element are the only thing that the check for empty elements minds. */
  lemma {:induction false} SpacedNull(vals: seq<string>, before: seq<nat>, behind: seq<nat>, i: nat, last: nat)
    requires |vals| == |before| == |behind| && vals != [] && HandElements(vals) && last < i
    ensures NoNull(Spaced(vals, before, behind), i, false, last) <==> before[0] == 0 || last + 1 < i
    decreases |vals|
  {
    hide Blanks, Quoted, NoNull, Plain, Spaced;
    var v := vals[0];
    assert v in vals;
    SpacedCons(vals, before, behind);
    var more := if |vals| == 1 then "]" else "," + Spaced(vals[1..], before[1..], behind[1..]);
    var j := i + before[0];
    var k := j + |v| + 2;
    BlanksNull(before[0], Quoted(v) + (Blanks(behind[0]) + more), i, last);
    NoNullQuoted(v, Blanks(behind[0]) + more, j, last);
    BlanksNull(behind[0], more, k, j);
    if |vals| == 1 {
      OneMoreNull(']', "", k + behind[0], j);
      assert NoNull("", k + behind[0] + 1, false, j) by { NothingNull(k + behind[0] + 1, j); }
      assert [']'] + "" == "]";
    } else {
      var s := Spaced(vals[1..], before[1..], behind[1..]);
      OneMoreNull(',', s, k + behind[0], j);
      assert [','] + s == "," + s;
      assert forall e | e in vals[1..] :: e in vals;
      SpacedNull(vals[1..], before[1..], behind[1..], k + behind[0] + 1, j);
    }
  }

  lemma NothingNull(i: nat, last: nat)
    ensures NoNull("", i, false, last)
  {
  }

  lemma {:induction false} SpacedIsPlain(vals: seq<string>, before: seq<nat>, behind: seq<nat>)
    requires |vals| == |before| == |behind| && vals != [] && HandElements(vals)
    ensures var s := Spaced(vals, before, behind);
            '\\' !in s && '\n' !in s && |s| > 2 + |vals[0]| && s[|s| - 1] == ']'
    decreases |vals|
  {
    hide Blanks, Spaced;
    assert vals[0] in vals;
    SpacedCons(vals, before, behind);
    BlanksOnly(before[0]);
    BlanksOnly(behind[0]);
    if |vals| > 1 {
      assert forall v | v in vals[1..] :: v in vals;
      SpacedIsPlain(vals[1..], before[1..], behind[1..]);
    }
  }

  lemma BlanksOnly(n: nat)
    ensures '\\' !in Blanks(n) && '\n' !in Blanks(n)
  {
  }

  lemma NullFreeBlanks(p: string, d: nat)
    requires |p| > 1
    ensures NullFree(p + Blanks(d)) <==> NullFree(p)
  {
    hide Blanks, Outside, Escaped;
    var s := p + Blanks(d);
    if NullFree(p) {
      NullBlanks(p, d);
    }
    if NullFree(s) {
      forall i: nat | 1 <= i && i + 1 < |p| && p[i] == '"' && p[i + 1] == '"' && !Escaped(p[..i])
        ensures !Outside(p[..i])
      {
        assert s[i] == '"' && s[i + 1] == '"' && s[..i] == p[..i];
      }
    }
  }

  /** The value of such an array passes the lint unless blanks stand in front of the first of several elements. */
  lemma SpacedIsPart(vals: seq<string>, before: seq<nat>, behind: seq<nat>, d: nat)
    requires |vals| == |before| == |behind| && vals != [] && HandElements(vals)
    ensures var r := "[" + Spaced(vals, before, behind);
            ScalarPart(r + Blanks(d)) || ArrayPart(r + Blanks(d)) <==> |vals| == 1 || before[0] == 0
  {
    hide Blanks, BareAt, BareCommas, Ends, Visible, Count, Commas, NoNull, NullFree, Spaced, HandElements;
    var s := Spaced(vals, before, behind);
    var r := "[" + s;
    SpacedIsPlain(vals, before, behind);
    SpacedCounts(vals, before, behind);
    SpacedNull(vals, before, behind, 1, 0);
    AllVisible(r);
    CountFirst('[', {'[', ']'});
    CountFirst('[', {'"'});
    CountAppend("[", s, {'[', ']'});
    CountAppend("[", s, {'"'});
    CommasStep(s);
    NoNullStep(r);
    assert r[1..] == s;
    CountsBare(r, {'"'});
    CountsBare(r, {'[', ']'});
    CommasBare(r);
    NullFreeExactly(r);
    BareBlanks(r, d, {'"'});
    BareBlanks(r, d, {'[', ']'});
    NullFreeBlanks(r, d);
    EndsBlanks(r, d, ']');
  }

  /** A line with such an array. */
  function ArrayLine(a: nat, key: string, b: nat, c: nat, array_: string, d: nat): string {
    Blanks(a) + (key + Blanks(b) + "=" + (Blanks(c) + ("[" + array_ + Blanks(d))))
  }

  lemma ArrayLineIs(a: nat, key: string, b: nat, c: nat, t: string, d: nat)
    requires KeyText(key) && (|key| > 1 || b == 0) && t != "" && t[|t| - 1] == ']' && '\\' !in t && '\n' !in t
    ensures var line := ArrayLine(a, key, b, c, t, d);
            && line != "" && '\n' !in line && !IsComment(line) && LineLeft(line) == key && LineRight(line) == "[" + t
            && LineIs(line, a, key + Blanks(b), c, "[" + t + Blanks(d))
  {
    hide Blanks, LineRight, LineLeft, Unescape, Stable, KeyPart;
    var line, p := ArrayLine(a, key, b, c, t, d), "[" + t;
    KeyTextIsPart(key, b);
    LeftIs(line, a, key, b, c, p + Blanks(d));
    RightIs(line, a, key + Blanks(b), c, p, d);
    PlainIsStable(p);
    var rest := key + Blanks(b) + "=" + (Blanks(c) + (p + Blanks(d)));
    assert rest[0] == key[0];
    InkAt(a, rest);
    NoBreak(key);
    BlanksOnly(a);
    BlanksOnly(b);
    BlanksOnly(c);
    BlanksOnly(d);
  }

  lemma SpacedStrings(vals: seq<string>, before: seq<nat>, behind: seq<nat>)
    requires |vals| == |before| == |behind| && vals != [] && HandElements(vals)
    ensures ArrayStrings("[" + Spaced(vals, before, behind)) == Taken(vals, before)
  {
    hide Vals, Spaced, Taken, Blanks;
    HandIsSimple(vals);
    ValsOfSpaced(vals, before, behind);
    SpacedIsPlain(vals, before, behind);
    assert vals[0] in vals;
    assert ("[" + Spaced(vals, before, behind))[1..] == Spaced(vals, before, behind);
  }

  /**
   An array written by hand: blanks around key and value and behind the elements make no
   difference, but with blanks in front of the first of several elements the line is refused, and
   an element behind a comma and a blank is lost.
   */
  lemma HandArray(a: nat, key: string, b: nat, c: nat, vals: seq<string>, before: seq<nat>, behind: seq<nat>, d: nat,
      limit: nat)
    requires KeyText(key) && (|key| > 1 || b == 0)
    requires |vals| == |before| == |behind| && vals != [] && HandElements(vals)
    ensures var text := ArrayLine(a, key, b, c, Spaced(vals, before, behind), d) + "\n";
            OldArray(key, text, limit) == if |vals| == 1 || before[0] == 0 then Cut(Taken(vals, before), limit) else []
  {
    hide Blanks, LineRight, LineLeft, LintOk, IsComment, LineIs, Spaced, Taken, HandElements, ArrayStrings, OldArray,
         KeyLine, ArrayLine, ScalarPart, ArrayPart;
    var s := Spaced(vals, before, behind);
    var line := ArrayLine(a, key, b, c, s, d);
    SpacedIsPlain(vals, before, behind);
    ArrayLineIs(a, key, b, c, s, d);
    SpacedIsPart(vals, before, behind, d);
    LintOfParts(line, a, key + Blanks(b), c, "[" + s + Blanks(d));
    OneLineLookup(key, line);
    SpacedStrings(vals, before, behind);
    if LintOk(line) {
      OldArrayIs(line + "\n", key, line, limit);
    } else {
      NothingOld(key, line + "\n", limit);
    }
  }

  /** So it comes back whole exactly if it has one element, or no blank stands in front of any. */
  lemma HandArrayExactly(a: nat, key: string, b: nat, c: nat, vals: seq<string>, before: seq<nat>, behind: seq<nat>,
      d: nat, limit: nat)
    requires KeyText(key) && (|key| > 1 || b == 0) && |vals| <= limit
    requires |vals| == |before| == |behind| && vals != [] && HandElements(vals)
    ensures var text := ArrayLine(a, key, b, c, Spaced(vals, before, behind), d) + "\n";
            OldArray(key, text, limit) == vals <==> |vals| == 1 || forall k | 0 <= k < |vals| :: before[k] == 0
  {
    hide OldArray, ArrayLine, Spaced, Taken;
    HandIsSimple(vals);
    HandArray(a, key, b, c, vals, before, behind, d, limit);
    TakenIsWhole(vals, before);
    forall v | v in vals ensures '\\' !in v {
      assert Plain(v);
    }
  }

  /** An array without elements, or with one empty one, is no array at all. */
  lemma EmptyArrays(a: nat, key: string, b: nat, c: nat, t: string, d: nat, limit: nat)
    requires KeyText(key) && (|key| > 1 || b == 0) && (t == "]" || t == "\"\"]")
    ensures OldArray(key, ArrayLine(a, key, b, c, t, d) + "\n", limit) == []
  {
    hide Blanks, LineRight, LineLeft, LintOk, IsComment, LineIs, OldArray, KeyLine, ArrayLine;
    var line := ArrayLine(a, key, b, c, t, d);
    ArrayLineIs(a, key, b, c, t, d);
    OneLineLookup(key, line);
    if LintOk(line) {
      OldArrayIs(line + "\n", key, line, limit);
    } else {
      NothingOld(key, line + "\n", limit);
    }
  }

  /** A text asked for as a number or as a bool: whatever is not "true" is false, and there is no error. */
  lemma HandScalar(hs: seq<Hand>, key: string, v: string)
    requires (forall h | h in hs :: HandOk(h)) && FirstHand(hs, key).Some?
    requires FirstHand(hs, key).value.written == OfChar(Some(v))
    ensures var text := HandText(hs);
            && OldBool(key, text) == (v == "true")
            && OldLong(key, text) == ToLong(v).value && OldInt(key, text) == Atoi(v)
  {
    hide HandOk, HandLine, FoundUnder, LineRight, HandText, KeyLine, Rhs, LintOk, LineLeft, Inside, ToLong;
    HandLookup(hs, key);
    var h := FirstHand(hs, key).value;
    SettingIsRead(h);
    InsideOfLine(HandLine(h), h.written);
  }
}
