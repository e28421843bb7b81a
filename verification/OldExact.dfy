/**
 Which printed arrays the older k2v reader reads like the k2v3 reader: exactly those whose
 elements have no backslash, no opening bracket and no newline.
 */
module OldExact {
  import opened Text
  import opened Escape
  import opened K2v3
  import opened K2v3Parse
  import opened K2v3Get
  import opened K2v3Emit
  import opened RoundTrip
  import opened OldK2v
  import opened OldLint
  import opened OldGet
  import opened PlainText
  import opened ReadersAgree

  // ----- backslashes: the copy loop loses a character of every pair -----

  lemma {:induction false} CopyIsShort(w: string, rest: string, done: string, tail: string, len: nat)
    requires NoBare(w, '"') && !Escaped(w)
    ensures var r := CopyVal(w + "\"" + rest, done, tail, len);
            |r| <= |done| + |w| && ('\\' in w ==> |r| < |done| + |w|)
    decreases |w|
  {
    hide NoBare, Escaped;
    var q := w + "\"" + rest;
    if w == "" {
      assert q[0] == '"';
    } else {
      FrontIsPaired(w);
      NoQuoteFirst(w);
      var n := if w[0] == '\\' then 2 else 1;
      BehindFront(w, n, '"');
      assert q[n..] == w[n..] + "\"" + rest && q[0] == w[0];
      if n == 2 {
        CopyIsShort(w[2..], rest, done + "\\", q[1..2], len);
      } else {
        CopyIsShort(w[1..], rest, done + [w[0]], "", len);
        assert w == [w[0]] + w[1..];
      }
    }
  }

  lemma NoQuoteFirst(w: string)
    requires w != "" && NoBare(w, '"')
    ensures w[0] != '"'
  {
    assert w[..0] == "" && !Escaped("");
  }

  lemma LiteralElement(v: string)
    requires CanonicalElement(v) && '\\' !in v
    ensures Literal(v)
  {
    hide Stable;
    forall j | 0 <= j < |v| ensures v[j] != '"' {
      NoEscapes(v, j);
    }
  }

  /** __current_val gives an element back if and only if it has no backslash. */
  lemma CurrentExact(v: string, rest: string)
    requires CanonicalElement(v)
    ensures CurrentVal(Quoted(v) + rest) == Some(v) <==> '\\' !in v
  {
    hide Stable, NoBare, Escaped, CopyVal;
    if '\\' !in v {
      LiteralElement(v);
      CurrentPlain(v, rest);
    } else {
      var p := Quoted(v) + rest;
      assert Find(p, '"', 0) == 0;
      assert p[1..] == v + "\"" + rest;
      CopyIsShort(v, rest, "", "", |p| - 1);
    }
  }

  /** If the values of a printed array start with its elements, none of those has a backslash. */
  lemma {:induction false} ValsGiveBack(vals: seq<string>)
    requires vals != [] && (forall e | e in vals :: CanonicalElement(e)) && vals <= Vals(Join(vals) + "]")
    ensures forall e | e in vals :: '\\' !in e
    decreases |vals|
  {
    hide CurrentVal, NextVal, Vals, CanonicalElement, Quoted;
    var v, p := vals[0], Join(vals) + "]";
    assert v in vals;
    ValsStep(p);
    if |vals| == 1 {
      CurrentExact(v, "]");
    } else {
      var rest := Join(vals[1..]) + "]";
      JoinCons(vals, "]");
      JoinShape(vals[1..]);
      assert Vals(p)[0] == v;
      CurrentExact(v, "," + rest);
      LiteralElement(v);
      NextPlain(v, rest);
      BehindQuoted(v, rest);
      assert Vals(p)[1..] == Vals(rest) && vals[1..] <= Vals(rest);
      ValsGiveBack(vals[1..]);
    }
  }

  // ----- newlines: no value of a line has one -----

  lemma {:induction false} UnescapeOneLine(s: string)
    requires '\n' !in s
    ensures '\n' !in Unescape(s)
    decreases |s|
  {
    if s != "" {
      UnescapeOneLine(if s[0] == '\\' && |s| > 1 then s[2..] else s[1..]);
    }
  }

  lemma {:induction false} CopyOneLine(q: string, done: string, tail: string, len: nat)
    requires '\n' !in q && '\n' !in done && '\n' !in tail
    ensures '\n' !in CopyVal(q, done, tail, len)
    decreases |q|
  {
    if q != "" && q[0] == '\\' {
      if |q| > 2 || len < 2 {
        CopyOneLine(if |q| > 1 then q[2..] else "", done + "\\", q[1..if |q| > 1 then 2 else 1], len);
      }
    } else if q != "" && q[0] != '"' {
      CopyOneLine(q[1..], done + [q[0]], "", len);
    }
  }

  lemma {:induction false} ValsOneLine(p: string)
    requires '\n' !in p
    ensures forall e | e in Vals(p) :: '\n' !in e
    decreases |p|
  {
    hide CopyVal, NextVal;
    if CurrentVal(p).Some? {
      var n := Find(p, '"', 0);
      CopyOneLine(p[n + 1..], "", "", |p| - n - 1);
      if NextVal(p).Some? {
        ValsOneLine(p[NextVal(p).value..]);
      }
    }
  }

  lemma RightOneLine(line: string)
    requires '\n' !in line
    ensures '\n' !in LineRight(line)
  {
    hide Eq, SkipAll, LastInk, Unescape;
    var v := ValueOfLine(line);
    if v != "" {
      UnescapeOneLine(TrimEnd(v));
    }
  }

  lemma OldElementsAreLines(key: string, text: string, limit: nat)
    ensures forall e | e in OldArray(key, text, limit) :: '\n' !in e
  {
    hide LineRight, Vals, LintOk, FirstKey, TidyLines;
    var line := KeyLine(key, text);
    if line.Some? {
      TidyAreLines(text);
      RightOneLine(line.value);
      var a := LineRight(line.value);
      if a != "" {
        ValsOneLine(a[1..]);
      }
    }
  }

  // ----- brackets: the lint counts them -----

  lemma {:induction false} NoneCounted(s: string, cs: set<char>)
    requires Count(s, cs) == 0
    ensures forall c | c in s :: c !in cs
  {
    if s != "" {
      NoneCounted(s[1..], cs);
    }
  }

  lemma {:induction false} InJoin(vals: seq<string>, e: string)
    requires e in vals
    ensures forall c | c in e :: c in Join(vals)
  {
    if |vals| > 1 && e != vals[0] {
      InJoin(vals[1..], e);
    }
  }

  lemma NoBracketCounted(vals: seq<string>)
    requires '\\' !in Join(vals)
    requires var r := "[" + Join(vals) + "]"; Count(Visible(r), {'[', ']'}) == 2
    ensures forall e | e in vals :: '[' !in e
  {
    hide Join, Count, Visible;
    var j := Join(vals);
    AllVisible("[" + j + "]");
    CountAppend("[" + j, "]", {'[', ']'});
    CountAppend("[", j, {'[', ']'});
    CountFirst('[', {'[', ']'});
    CountFirst(']', {'[', ']'});
    NoneCounted(j, {'[', ']'});
    forall e | e in vals ensures '[' !in e {
      InJoin(vals, e);
    }
  }

  // ----- the line of a canonical array -----

  lemma {:induction false} JoinIsStable(vals: seq<string>)
    requires vals != [] && forall e | e in vals :: CanonicalElement(e)
    ensures Stable(Join(vals)) && !Escaped(Join(vals))
    ensures (forall e | e in vals :: '\n' !in e) ==> '\n' !in Join(vals)
    ensures (forall e | e in vals :: '\\' !in e) ==> '\\' !in Join(vals)
  {
    hide Stable, NoBare, Escaped;
    var v := vals[0];
    assert v in vals;
    ElementIsStable(v);
    if |vals| > 1 {
      JoinIsStable(vals[1..]);
      var t := "," + Join(vals[1..]);
      PlainIsStable(",");
      StableAppend(",", Join(vals[1..]));
      EscapedAppend(",", Join(vals[1..]));
      StableAppend(Quoted(v), t);
      EscapedAppend(Quoted(v), t);
      assert Join(vals) == Quoted(v) + t;
    }
  }

  lemma ElementIsStable(v: string)
    requires CanonicalElement(v)
    ensures Stable(Quoted(v)) && !Escaped(Quoted(v))
  {
    hide NoBare;
    var q := "\"";
    PlainIsStable(q);
    EscapedAppend(q, v);
    StableAppend(q, v);
    StableAppend(q + v, q);
    EscapedAppend(q + v, q);
    assert Quoted(v) == q + v + q;
  }

  lemma ArrayIsWrapped(vals: seq<string>)
    requires vals != [] && (forall e | e in vals :: CanonicalElement(e)) && forall e | e in vals :: '\n' !in e
    ensures Wrapped("[" + Join(vals) + "]")
  {
    hide Stable, Escaped, CanonicalElement, Join;
    JoinIsStable(vals);
    var j := Join(vals);
    PlainIsStable("[");
    PlainIsStable("]");
    StableAppend(j, "]");
    EscapedAppend(j, "]");
    StableAppend("[", j + "]");
    assert "[" + j + "]" == "[" + (j + "]");
  }

  /** A text of one line, as the older reader tidies it. */
  lemma OneTidyLine(line: string)
    requires line != "" && '\n' !in line && !IsComment(line)
    ensures TidyLines(line + "\n") == if LintOk(line) then [line] else []
  {
    hide IsComment, LintOk, FirstLine, RestLines;
    var text := line + "\n";
    assert text + "" == text && text != "";
    LineInFront(line, "");
    CommentsEnds();
    DropComments1(line, []);
    assert [line] + [] == [line] && Lines("") == [];
    KeepOk1([line]);
    TidyEnds();
  }

  // ----- the exact condition -----

  ghost predicate OldReadable(vals: seq<string>) {
    forall e | e in vals :: '\\' !in e && '[' !in e && '\n' !in e
  }

  lemma OldReadableIsPlain(vals: seq<string>)
    requires (forall e | e in vals :: CanonicalElement(e)) && OldReadable(vals)
    ensures PlainElements(vals)
  {
    hide Stable, NoBare;
    forall e | e in vals ensures Plain(e) && e != "" {
      LiteralElement(e);
    }
  }

  lemma OneLineLookup(key: string, line: string)
    requires key != "" && line != "" && '\n' !in line && !IsComment(line) && LineLeft(line) == key
    ensures KeyLine(key, line + "\n") == if LintOk(line) then Some(line) else None
  {
    hide IsComment, TidyLines, LineLeft, LintOk;
    OneTidyLine(line);
    assert [line][1..] == [];
  }

  lemma LineOfArray(key: string, vals: seq<string>)
    requires IsKey(key) && vals != []
    requires (forall e | e in vals :: CanonicalElement(e)) && forall e | e in vals :: '\n' !in e
    ensures var line, r := LineOf(key, OfChars(vals)), "[" + Join(vals) + "]";
            && line != "" && '\n' !in line && !IsComment(line) && LineLeft(line) == key && LineRight(line) == r
            && AfterEq(line) == r
  {
    hide CanonicalElement, Join, Wrapped, IsComment, LineRight, LineLeft, BasicLint, AfterEq;
    ArrayIsWrapped(vals);
    RhsOfArray(OfChars(vals));
    LineParts(key, "[" + Join(vals) + "]");
    LineBasics(key, "[" + Join(vals) + "]");
  }

  lemma NothingOld(key: string, text: string, limit: nat)
    requires KeyLine(key, text).None?
    ensures OldArray(key, text, limit) == []
  {
    hide KeyLine;
  }

  /** The single line whose value the older reader would have to find. */
  lemma LineIsFound(key: string, vals: seq<string>, limit: nat)
    requires IsKey(key) && vals != [] && |vals| <= limit
    requires (forall e | e in vals :: CanonicalElement(e)) && forall e | e in vals :: '\n' !in e
    requires OldArray(key, LineOf(key, OfChars(vals)) + "\n", limit) == vals
    ensures LintOk(LineOf(key, OfChars(vals))) && vals <= ArrayStrings("[" + Join(vals) + "]")
  {
    hide CanonicalElement, LintOk, ArrayStrings, Join, IsComment, LineRight, LineLeft, OldArray, KeyLine, LineOf;
    hide AfterEq;
    var line := LineOf(key, OfChars(vals));
    LineOfArray(key, vals);
    OneLineLookup(key, line);
    if LintOk(line) {
      OldArrayIs(line + "\n", key, line, limit);
    } else {
      NothingOld(key, line + "\n", limit);
    }
  }

  /**
   Both readers return the same for a printed array within the limit if and only if no element
   has a backslash, an opening bracket or a newline; the k2v3 reader always returns the array.
   */
  lemma OldArrayExact(key: string, vals: seq<string>, limit: nat)
    requires IsKey(key) && vals != [] && |vals| <= limit && forall e | e in vals :: CanonicalElement(e)
    ensures var text := PrintAll([Config(key, OfChars(vals))]);
            && ArrayOf(ParsedCache(text), key, limit).value == vals
            && (OldArray(key, text, limit) == vals <==> OldReadable(vals))
  {
    hide CanonicalElement, Entries, ParsedCache, OldArray, ArrayOf, LintOk, NodesOf, NodeFor, Lookup;
    var item := Config(key, OfChars(vals));
    var text := PrintAll([item]);
    OneItem(item);
    NewArrayBack(key, vals, limit);
    if OldReadable(vals) {
      OldReadableIsPlain(vals);
      ReadersAgreeOn([item], key, limit);
    }
    if OldArray(key, text, limit) == vals {
      OldElementsAreLines(key, text, limit);
      LineIsFound(key, vals, limit);
      FoundIsReadable(key, vals);
    }
  }

  lemma OneItem(item: Item)
    ensures PrintAll([item]) == Print(item)
    ensures item.Config? ==> Print(item) == LineOf(item.key, item.written) + "\n"
  {
    hide Rhs;
    assert [item][1..] == [];
  }

  lemma NewArrayBack(key: string, vals: seq<string>, limit: nat)
    requires IsKey(key) && |vals| <= limit && forall e | e in vals :: CanonicalElement(e)
    ensures ArrayOf(ParsedCache(PrintAll([Config(key, OfChars(vals))])), key, limit).value == vals
  {
    hide CanonicalElement, ParsedCache, ArrayOf, Entries, Lookup, NodeFor;
    var items := [Config(key, OfChars(vals))];
    NewLookup(items, key);
    GetBack(ParsedCache(PrintAll(items)), key, OfChars(vals), limit);
  }

  lemma FoundIsReadable(key: string, vals: seq<string>)
    requires IsKey(key) && vals != [] && (forall e | e in vals :: CanonicalElement(e))
    requires forall e | e in vals :: '\n' !in e
    requires LintOk(LineOf(key, OfChars(vals))) && vals <= ArrayStrings("[" + Join(vals) + "]")
    ensures OldReadable(vals)
  {
    hide CanonicalElement, Join, Vals, Wrapped, Count, Visible, Commas, NoNull, BasicLint, SkipLead, Eq;
    var r := "[" + Join(vals) + "]";
    assert vals[0] in vals;
    ElementIsThere(vals[0]);
    NotShort(vals);
    ValsGiveBack(vals);
    JoinIsStable(vals);
    LineOfArray(key, vals);
    InkFirst(r);
    NoBracketCounted(vals);
  }

  lemma ElementIsThere(e: string)
    requires CanonicalElement(e)
    ensures e != ""
  {
  }

  /** An array that the k2v3 reader reads back and the older one does not: one element, a backslash and an n. */
  lemma EscapeInArray(key: string)
    requires IsKey(key)
    ensures var vals := ["\\n"]; var text := PrintAll([Config(key, OfChars(vals))]);
            ArrayOf(ParsedCache(text), key, 1).value == vals && OldArray(key, text, 1) != vals
  {
    hide ParsedCache, ArrayOf, OldArray, PrintAll;
    var v := "\\n";
    assert v[..1] == "\\" && v[..0] == "";
    assert CanonicalElement(v);
    assert v in [v];
    OldArrayExact(key, [v], 1);
  }
}
