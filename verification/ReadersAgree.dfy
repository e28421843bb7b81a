/**
 The two independent readers of the same format: on printed documents with canonical scalars
 and plain array elements, the older k2v getters and the k2v3 getters answer alike.
 */
module ReadersAgree {
  import opened Text
  import opened Escape
  import opened Number
  import opened K2v3
  import opened K2v3Parse
  import opened K2v3Get
  import opened K2v3Emit
  import opened K2v3Laws
  import opened RoundTrip
  import opened OldK2v
  import opened OldLint
  import opened OldGet
  import opened PlainText

  ghost predicate PlainItem(item: Item) {
    match item
    case Comment(text) => '\n' !in text
    case Newline => true
    case Config(key, w) => IsKey(key) && PlainWritten(w)
  }

  ghost predicate PlainWritten(w: Written) {
    && InRange(w)
    && (w.OfChar? && w.val.Some? ==> CanonicalScalar(w.val.value))
    && (w.OfChars? ==> PlainElements(w.vals))
  }

  /** A value is plain whatever the key. */
  lemma UnderSomeKey(w: Written)
    requires PlainWritten(w)
    ensures PlainItem(Config("k", w))
  {
    assert KeyChar('k');
  }

  lemma PlainElementIsCanonical(e: string)
    requires Plain(e) && e != ""
    ensures CanonicalElement(e)
  {
    PlainIsStable(e);
    assert forall j | 0 <= j < |e| :: e[j] in e;
  }

  lemma PlainIsCanonical(item: Item)
    requires PlainItem(item)
    ensures CanonicalItem(item)
  {
    hide CanonicalElement, CanonicalScalar, Plain;
    if item.Config? && item.written.OfChars? {
      forall e | e in item.written.vals ensures CanonicalElement(e) {
        PlainElementIsCanonical(e);
      }
    }
  }

  lemma DigitsArePlain(n: int)
    ensures Plain(Dec(n)) && Dec(n) != ""
  {
  }

  /** The texts that a plain item prints between quotes. */
  lemma PlainTexts(key: string, w: Written)
    requires PlainItem(Config(key, w))
    ensures if IsScalar(w) then CanonicalScalar(ScalarText(w)) else PlainElements(ElementTexts(w))
  {
    hide CanonicalScalar, Plain, Dec;
    PlainIsCanonical(Config(key, w));
    CanonicalIsRaw(key, w);
    match w {
      case OfInts(ns) =>
        forall i | 0 <= i < |ns| ensures Plain(Dec(ns[i])) && Dec(ns[i]) != "" {
          DigitsArePlain(ns[i]);
        }
      case _ =>
    }
  }

  // ----- one printed line, as the older reader sees it -----

  function LineOf(key: string, w: Written): string {
    key + "=" + Rhs(w)
  }

  /** The shape all printed right-hand sides share. */
  ghost predicate Wrapped(r: string) {
    && |r| >= 2 && '\n' !in r && Stable(r)
    && ((r[0] == '"' && r[|r| - 1] == '"') || (r[0] == '[' && r[|r| - 1] == ']'))
  }

  lemma QuotedIsStable(v: string)
    requires CanonicalScalar(v)
    ensures Stable(Quoted(v)) && !Escaped(Quoted(v)) && '\n' !in Quoted(v)
  {
    hide NoBare;
    var q := "\"";
    PlainIsStable(q);
    EscapedAppend(q, v);
    StableAppend(q, v);
    StableAppend(q + v, q);
    assert Quoted(v) == q + v + q;
    EscapedAppend(q + v, q);
  }

  lemma RhsIsWrapped(key: string, w: Written)
    requires PlainItem(Config(key, w))
    ensures Wrapped(Rhs(w))
    ensures Rhs(w)[0] == '"' <==> IsScalar(w)
  {
    hide PlainItem, Join, Count, Commas, NoNull, ScalarText, ElementTexts, Stable, Escaped, CanonicalScalar;
    JoinEnds();
    PlainTexts(key, w);
    if IsScalar(w) {
      QuotedIsStable(ScalarText(w));
    } else {
      if ElementTexts(w) != [] {
        JoinLints(ElementTexts(w), 0, 0);
      }
      PlainIsStable("[" + Join(ElementTexts(w)) + "]");
    }
  }

  /** Key and value of such a line. */
  lemma LineParts(key: string, r: string)
    requires IsKey(key) && Wrapped(r)
    ensures var l := key + "=" + r;
            && SkipLead(l) == l && Eq(l) == |key| && AfterEq(l) == r && SkipLead(r) == r
            && '\n' !in l && !IsComment(l)
  {
    hide FirstBare, Find, SkipAll, Stable;
    var l := key + "=" + r;
    KeyInFront(key, r);
    KeyIsPlain(key);
    assert l[0..|key|] == key;
    FirstBareIs(l, '=', 0, key);
    InkFirst(l);
    InkFirst(r);
    assert l[|key| + 1..] == r;
  }

  lemma KeyIsPlain(key: string)
    requires IsKey(key)
    ensures NoBare(key, '=') && !Escaped(key)
  {
    assert KeyChar(key[|key| - 1]);
  }

  lemma KeyInFront(key: string, r: string)
    requires IsKey(key) && Wrapped(r)
    ensures var l := key + "=" + r;
            && (forall i | 0 <= i < |key| :: l[i] == key[i] && KeyChar(l[i])) && l[|key|] == '='
            && '\n' !in l && l[0] !in {' ', '#', '='}
  {
    hide Stable;
    var l := key + "=" + r;
    assert l[0] == key[0] && KeyChar(l[0]);
  }

  lemma InkFirst(s: string)
    requires s != "" && s[0] != ' '
    ensures SkipAll(s, {' '}, 0, |s|) == 0 && SkipLead(s) == s
  {
  }

  lemma LineBasics(key: string, r: string)
    requires IsKey(key) && Wrapped(r)
    ensures var l := key + "=" + r; BasicLint(l) && LineLeft(l) == key && LineRight(l) == r
  {
    hide Find, FirstBare, Unescape, SkipAll, SkipLead, Eq, AfterEq, TrimEnd, EndsIn, IsComment, Wrapped, Stable;
    var l := key + "=" + r;
    LineParts(key, r);
    RightEnd(r);
    UnescapeFixed(r);
    assert l[..|key|] == key;
    KeyEnd(key);
    KeyBeforeQuote(key, r);
    assert l[|key| + 1..] == r;
  }

  lemma RightEnd(r: string)
    requires Wrapped(r)
    ensures r != "" && Stable(r) && TrimEnd(r) == r
    ensures (r[0] == '"' && EndsIn(r, '"')) || (r[0] == '[' && EndsIn(r, ']'))
  {
    assert r[..|r|] == r;
  }

  lemma KeyBeforeQuote(key: string, r: string)
    requires IsKey(key) && Wrapped(r)
    ensures var l := key + "=" + r; |key| < FirstBare(l, '"', 0, 0) && key != "" && l[0] != '=' && |key| + 1 < |l|
  {
    hide FirstBare, Find, Stable;
    KeyInFront(key, r);
    var l := key + "=" + r;
    var q := FirstBare(l, '"', 0, 0);
    assert q < |key| ==> KeyChar(l[q]);
  }

  lemma KeyEnd(key: string)
    requires IsKey(key)
    ensures TrimEnd(key) == key
  {
    assert KeyChar(key[|key| - 1]);
    assert key[..|key|] == key;
  }

  /** The lints, on a line whose value needs no skipping. */
  lemma LintByCounts(l: string, r: string)
    requires BasicLint(l) && AfterEq(l) == r && r != "" && r[0] != ' '
    requires var v := Visible(r);
             if r[0] != '[' then Count(v, {'"'}) == 2
             else
               var quotes := Count(v, {'"'});
               && Count(v, {'[', ']'}) == 2 && quotes % 2 == 0
               && Commas(v, false) == (if quotes == 0 then 0 else quotes / 2 - 1)
               && (quotes <= 2 || NoNull(r, 0, false, 0))
    ensures LintOk(l)
  {
    hide BasicLint, AfterEq, Visible, Count, Commas, NoNull, SkipLead, SkipAll;
    InkFirst(r);
  }

  /** What the counts need to know about a printed line. */
  lemma LineShape(key: string, w: Written)
    requires PlainItem(Config(key, w))
    ensures var l, r := LineOf(key, w), Rhs(w);
            && BasicLint(l) && AfterEq(l) == r && r != "" && r[0] != ' '
            && (r[0] == '[' <==> !IsScalar(w))
  {
    hide BasicLint, PlainItem, Rhs, SkipLead, AfterEq, Eq, IsComment, Stable;
    var r := Rhs(w);
    KeyOfItem(key, w);
    RhsIsWrapped(key, w);
    RightEnd(r);
    LineParts(key, r);
    LineBasics(key, r);
  }

  /** Every printed line passes the older lint. */
  lemma LineLints(key: string, w: Written)
    requires PlainItem(Config(key, w))
    ensures LintOk(LineOf(key, w))
  {
    hide BasicLint, PlainItem, Visible, Count, Commas, NoNull, Rhs, AfterEq, LintOk, LineOf, ScalarText, ElementTexts,
         Plain, PlainElements, CanonicalScalar;
    var r := Rhs(w);
    LineShape(key, w);
    PlainTexts(key, w);
    if IsScalar(w) {
      ScalarCounts(ScalarText(w));
      RhsOfScalar(w);
    } else {
      RhsOfArray(w);
      ArrayCounts(ElementTexts(w));
    }
    LintByCounts(LineOf(key, w), r);
  }

  lemma KeyOfItem(key: string, w: Written)
    requires PlainItem(Config(key, w))
    ensures IsKey(key)
  {
  }

  lemma RhsOfScalar(w: Written)
    requires IsScalar(w)
    ensures Rhs(w) == Quoted(ScalarText(w))
  {
  }

  lemma RhsOfArray(w: Written)
    requires !IsScalar(w)
    ensures Rhs(w) == "[" + Join(ElementTexts(w)) + "]"
  {
  }

  lemma ScalarCounts(v: string)
    requires CanonicalScalar(v)
    ensures Count(Visible(Quoted(v)), {'"'}) == 2
  {
    hide Visible, Count, NoBare, Stable, Escaped;
    var q := "\"";
    assert Quoted(v) == q + (v + q);
    AllVisible(q);
    NothingEscapes();
    VisibleAppend(q, v + q);
    VisibleAppend(v, q);
    BareIsUnseen(v, '"');
    CountAppend(q, Visible(v) + q, {'"'});
    CountAppend(Visible(v), q, {'"'});
    CountFirst('"', {'"'});
  }

  lemma NothingEscapes()
    ensures !Escaped("\"")
  {
  }

  lemma CountEnds()
    ensures Count("", {'"'}) == 0 && Count("", {'[', ']'}) == 0 && Commas("]", false) == 0
  {
    assert "]"[1..] == "";
  }

  lemma CommasStep(t: string)
    ensures Commas("[" + t, false) == Commas(t, false)
  {
    assert ("[" + t)[1..] == t;
  }

  lemma NoNullStep(r: string)
    requires r != "" && r[0] == '['
    ensures NoNull(r, 0, false, 0) == NoNull(r[1..], 1, false, 0)
  {
  }

  lemma ArrayCounts(vals: seq<string>)
    requires PlainElements(vals)
    ensures var r := "[" + Join(vals) + "]";
            Visible(r) == r && Count(r, {'[', ']'}) == 2 && Count(r, {'"'}) == 2 * |vals|
            && Commas(r, false) == (if vals == [] then 0 else |vals| - 1)
            && (vals != [] ==> NoNull(r, 0, false, 0))
  {
    hide Join, Count, Commas, NoNull, PlainElements, Visible;
    JoinEnds();
    CountEnds();
    var j := Join(vals);
    var r := "[" + j + "]";
    assert r == "[" + (j + "]") && r[1..] == j + "]";
    if vals == [] {
      assert j == "" && j + "]" == "]";
    } else {
      JoinLints(vals, 1, 0);
    }
    AllVisible(r);
    CountFirst('[', {'[', ']'});
    CountFirst('[', {'"'});
    CountFirst(']', {'[', ']'});
    CountFirst(']', {'"'});
    CountAppend("[" + j, "]", {'[', ']'});
    CountAppend("[" + j, "]", {'"'});
    CountAppend("[", j, {'[', ']'});
    CountAppend("[", j, {'"'});
    CommasStep(j + "]");
    NoNullStep(r);
  }

  // ----- a printed document, as the older reader sees it -----

  function ConfigLines(items: seq<Item>): seq<string> {
    if items == [] then []
    else (if items[0].Config? then [LineOf(items[0].key, items[0].written)] else []) + ConfigLines(items[1..])
  }

  lemma ItemLine(item: Item, rest: string)
    requires PlainItem(item)
    ensures NotComments(Print(item) + rest) ==
            (if item.Config? then [LineOf(item.key, item.written)] else []) + NotComments(rest)
  {
    hide IsComment, Rhs, FirstLine, RestLines, InRange;
    var line := match item case Comment(text) => "# " + text case Newline => "" case Config(key, w) => LineOf(key, w);
    assert Print(item) + rest == line + "\n" + rest;
    LineKind(item, line);
    LineInFront(line, rest);
    assert line + "\n" + rest != "";
    DropComments1(line, Lines(rest));
  }

  lemma LineKind(item: Item, line: string)
    requires PlainItem(item)
    requires line == match item case Comment(text) => "# " + text case Newline => ""
            case Config(key, w) => LineOf(key, w)
    ensures '\n' !in line && (IsComment(line) <==> !item.Config?)
  {
    if item.Config? {
      RhsIsWrapped(item.key, item.written);
      LineParts(item.key, Rhs(item.written));
    }
  }

  lemma {:induction false} DocumentLines(items: seq<Item>)
    requires forall item | item in items :: PlainItem(item)
    ensures TidyLines(PrintAll(items)) == ConfigLines(items)
  {
    hide LintOk, PlainItem, NotComments, LineOf;
    if items == [] {
      CommentsEnds();
    } else {
      DocumentLines(items[1..]);
      ItemLine(items[0], PrintAll(items[1..]));
      if items[0].Config? {
        var l := LineOf(items[0].key, items[0].written);
        LineLints(items[0].key, items[0].written);
        KeepOk1([l] + NotComments(PrintAll(items[1..])));
        assert ([l] + NotComments(PrintAll(items[1..])))[1..] == NotComments(PrintAll(items[1..]));
      } else {
        assert [] + NotComments(PrintAll(items[1..])) == NotComments(PrintAll(items[1..]));
      }
    }
  }

  // ----- lookups -----

  /** The first value written under a key. */
  function FirstWritten(items: seq<Item>, key: string): Option<Written> {
    if items == [] then None
    else if items[0].Config? && items[0].key == key then Some(items[0].written)
    else FirstWritten(items[1..], key)
  }

  lemma {:induction false} FirstWrittenIsThere(items: seq<Item>, key: string)
    requires FirstWritten(items, key).Some?
    ensures Config(key, FirstWritten(items, key).value) in items
  {
    if !(items[0].Config? && items[0].key == key) {
      FirstWrittenIsThere(items[1..], key);
    }
  }

  lemma {:induction false} NewFinds(items: seq<Item>, key: string)
    ensures Lookup(NodesOf(items), key) ==
            match FirstWritten(items, key) case None => None case Some(w) => Some(NodeFor(key, w))
  {
    hide NodeFor;
    if items != [] {
      NewFinds(items[1..], key);
      if items[0].Config? {
        var n := NodeFor(items[0].key, items[0].written);
        NodeKey(items[0].key, items[0].written);
        assert ([n] + NodesOf(items[1..]))[1..] == NodesOf(items[1..]);
      } else {
        assert [] + NodesOf(items[1..]) == NodesOf(items[1..]);
      }
    }
  }

  lemma {:induction false} OldFinds(items: seq<Item>, key: string)
    requires forall item | item in items :: PlainItem(item)
    ensures FirstKey(ConfigLines(items), key) ==
            match FirstWritten(items, key) case None => None case Some(w) => Some(LineOf(key, w))
  {
    hide LineLeft, LineOf, PlainItem;
    if items != [] {
      OldFinds(items[1..], key);
      if items[0].Config? {
        assert items[0] in items;
        var l := LineOf(items[0].key, items[0].written);
        LeftOfLine(items[0].key, items[0].written);
        assert ([l] + ConfigLines(items[1..]))[1..] == ConfigLines(items[1..]);
      } else {
        assert [] + ConfigLines(items[1..]) == ConfigLines(items[1..]);
      }
    }
  }

  lemma LeftOfLine(key: string, w: Written)
    requires PlainItem(Config(key, w))
    ensures LineLeft(LineOf(key, w)) == key && LineRight(LineOf(key, w)) == Rhs(w)
  {
    RhsIsWrapped(key, w);
    LineBasics(key, Rhs(w));
  }

  /** The line the older getters work on. */
  lemma OldLookup(items: seq<Item>, key: string)
    requires forall item | item in items :: PlainItem(item)
    ensures KeyLine(key, PrintAll(items)) ==
            match FirstWritten(items, key) case None => None case Some(w) => Some(LineOf(key, w))
  {
    DocumentLines(items);
    OldFinds(items, key);
    var w := FirstWritten(items, key);
    if w.Some? {
      FirstWrittenIsThere(items, key);
      KeyOfItem(key, w.value);
    }
  }

  /** The node the k2v3 getters work on, duplicates or not. */
  lemma NewLookup(items: seq<Item>, key: string)
    requires forall item | item in items :: CanonicalItem(item)
    ensures Lookup(ParsedCache(PrintAll(items)), key) ==
            match FirstWritten(items, key) case None => None case Some(w) => Some(NodeFor(key, w))
  {
    hide NodeFor, CanonicalItem, FirstWins, Entries, ParsedCache;
    EntriesReadBack(items);
    CacheIsFirstWins(PrintAll(items), key);
    NewFinds(items, key);
    var w := FirstWritten(items, key);
    if w.Some? {
      FirstWrittenIsThere(items, key);
      NodeIsStable(key, w.value);
    }
  }

  // ----- the agreement -----

  /**
   Both readers give the same answer to the getter that belongs to `w`; over the limit the older
   one returns the front of an array and the other one nothing.
   */
  ghost predicate SameAnswer(text: string, key: string, w: Written, limit: nat) {
    var cache := ParsedCache(text);
    match w
    case OfChar(_) => OldChar(key, text) == GetChar(cache, key).value
    case OfInt(_) => OldInt(key, text) == GetInt(cache, key).value
    case OfLong(_) => OldLong(key, text) == GetLong(cache, key).value
    case OfBool(_) => OldBool(key, text) == GetBool(cache, key).value
    case OfChars(vals) =>
      OldArray(key, text, limit) == ArrayOf(cache, key, limit).value <==> |vals| <= limit || limit == 0
    case OfInts(ns) =>
      OldIntArray(key, text, limit) == GetIntArray(cache, key, limit).value <==> |ns| <= limit || limit == 0
  }

  lemma ArrayStringsBack(vals: seq<string>)
    requires forall e | e in vals :: Literal(e) && e != ""
    ensures ArrayStrings("[" + Join(vals) + "]") == vals
  {
    hide Join, Vals, Literal;
    JoinEnds();
    if vals != [] {
      assert vals[0] in vals;
      NotShort(vals);
      ValsOfJoin(vals);
    }
  }

  /** A printed array with elements is none of those that array_to_str_array returns early on. */
  lemma NotShort(vals: seq<string>)
    requires vals != [] && vals[0] != ""
    ensures var a := "[" + Join(vals) + "]"; ArrayStrings(a) == Vals(Join(vals) + "]")
  {
    hide Join, Vals;
    var a := "[" + Join(vals) + "]";
    LongJoin(vals);
    assert a[1..] == Join(vals) + "]";
  }

  lemma LongJoin(vals: seq<string>)
    requires vals != [] && vals[0] != ""
    ensures |Join(vals)| >= 3
  {
  }

  lemma PlainIsLiteral(vals: seq<string>)
    requires PlainElements(vals)
    ensures forall e | e in vals :: Literal(e) && e != ""
  {
  }

  /** The inside of a line with a printed scalar. */
  lemma InsideOfLine(line: string, w: Written)
    requires IsScalar(w) && LineRight(line) == Rhs(w)
    ensures Inside(line) == ScalarText(w)
  {
    hide LineRight, Rhs, ScalarText;
    RhsOfScalar(w);
    var t := ScalarText(w);
    assert Quoted(t)[1..|t| + 1] == t;
  }

  /** The elements of a line with a printed array. */
  lemma ElementsOfLine(line: string, w: Written)
    requires PlainWritten(w) && !IsScalar(w) && LineRight(line) == Rhs(w)
    ensures ArrayStrings(LineRight(line)) == ElementTexts(w)
  {
    hide LineRight, Rhs, ElementTexts, PlainItem, PlainWritten, ArrayStrings, Join;
    UnderSomeKey(w);
    RhsOfArray(w);
    PlainTexts("k", w);
    PlainIsLiteral(ElementTexts(w));
    ArrayStringsBack(ElementTexts(w));
  }

  /** The older array getters cut at the limit. */
  function Cut<T>(s: seq<T>, limit: nat): seq<T> {
    if |s| <= limit then s else s[..limit]
  }

  lemma OldArrayIs(text: string, key: string, line: string, limit: nat)
    requires KeyLine(key, text) == Some(line)
    ensures OldArray(key, text, limit) == Cut(ArrayStrings(LineRight(line)), limit)
  {
    hide KeyLine, LineRight, ArrayStrings;
  }

  lemma OldIntsAre(text: string, key: string, ns: seq<int>, limit: nat)
    requires OldArray(key, text, limit) == Cut(ElementTexts(OfInts(ns)), limit) && InRange(OfInts(ns))
    ensures OldIntArray(key, text, limit) == Cut(ns, limit)
  {
    hide Atoi, Dec, OldArray;
    var texts, r := ElementTexts(OfInts(ns)), OldIntArray(key, text, limit);
    forall i | 0 <= i < |r| ensures r[i] == Cut(ns, limit)[i] {
      assert OldArray(key, text, limit)[i] == texts[i] && ns[i] in ns;
      AtoiBack(ns[i]);
    }
  }

  /** The older getter that belongs to a value gives it back, up to the limit. */
  ghost predicate OldGives(text: string, key: string, w: Written, limit: nat) {
    match w
    case OfChar(val) => OldChar(key, text) == if val == Some("") then None else val
    case OfInt(n) => OldInt(key, text) == n
    case OfLong(l) => OldLong(key, text) == l
    case OfBool(b) => OldBool(key, text) == b
    case OfChars(vals) => OldArray(key, text, limit) == Cut(vals, limit)
    case OfInts(ns) => OldIntArray(key, text, limit) == Cut(ns, limit)
  }

  /** What the older reader makes of a line with a written value. */
  lemma OldGivesBack(text: string, key: string, line: string, w: Written, limit: nat)
    requires PlainWritten(w) && KeyLine(key, text) == Some(line) && LineRight(line) == Rhs(w)
    ensures OldGives(text, key, w, limit)
  {
    hide LineRight, KeyLine, Atoi, ToLong, ArrayStrings, Dec, Inside, OldArray, OldIntArray, Rhs;
    hide ElementTexts;
    if IsScalar(w) {
      InsideOfLine(line, w);
      match w {
        case OfInt(n) => AtoiBack(n);
        case OfLong(l) => WholeNumber(l);
        case _ =>
      }
    } else {
      ElementsOfLine(line, w);
      OldArrayIs(text, key, line, limit);
      match w {
        case OfInts(ns) => OldIntsAre(text, key, ns, limit);
        case OfChars(vals) => TextsOfChars(vals);
      }
    }
  }

  lemma TextsOfChars(vals: seq<string>)
    ensures ElementTexts(OfChars(vals)) == vals
  {
  }

  /** What the k2v3 getters make of an array over the limit. */
  lemma NewArrayOver(cache: seq<Node>, key: string, w: Written, limit: nat)
    requires !IsScalar(w) && Lookup(cache, key) == Some(NodeFor(key, w)) && |ElementTexts(w)| > limit
    ensures ArrayOf(cache, key, limit).value == [] && GetIntArray(cache, key, limit).value == []
  {
    hide ElementInt;
    assert |ElementTexts(w)| > 0;
  }

  lemma IntTextCount(ns: seq<int>)
    ensures |ElementTexts(OfInts(ns))| == |ns|
  {
  }

  lemma AnswersAgree(items: seq<Item>, key: string, w: Written, limit: nat)
    requires PlainItem(Config(key, w)) && InRange(w)
    requires KeyLine(key, PrintAll(items)) == Some(LineOf(key, w))
    requires Lookup(ParsedCache(PrintAll(items)), key) == Some(NodeFor(key, w))
    ensures SameAnswer(PrintAll(items), key, w, limit)
  {
    hide KeyLine, ParsedCache, NodeFor, PlainWritten, LineOf, PrintAll, LineRight, LineLeft, Rhs, ElementTexts,
         OldGives, GivesBack, SameAnswer, ArrayOf, GetIntArray;
    var text := PrintAll(items);
    LeftOfLine(key, w);
    OldGivesBack(text, key, LineOf(key, w), w, limit);
    GetBack(ParsedCache(text), key, w, limit);
    if !IsScalar(w) && |ElementTexts(w)| > limit {
      NewArrayOver(ParsedCache(text), key, w, limit);
    }
    AnswersMeet(text, key, w, limit);
  }

  /** What the two readers give back, compared. */
  lemma AnswersMeet(text: string, key: string, w: Written, limit: nat)
    requires OldGives(text, key, w, limit) && GivesBack(ParsedCache(text), key, w, limit)
    requires !IsScalar(w) && |ElementTexts(w)| > limit ==>
               ArrayOf(ParsedCache(text), key, limit).value == []
               && GetIntArray(ParsedCache(text), key, limit).value == []
    ensures SameAnswer(text, key, w, limit)
  {
    hide ParsedCache, OldArray, OldIntArray, ArrayOf, GetIntArray, GetChar, GetInt, GetLong, GetBool, OldChar, OldInt,
         OldLong, OldBool, ElementTexts;
    match w {
      case OfChars(vals) => TextsOfChars(vals);
      case OfInts(ns) => IntTextCount(ns);
      case _ =>
    }
  }

  /**
   On every printed plain document, duplicate keys included, both readers know the same
   keys, and answer alike for every key asked at its written type.
   */
  lemma ReadersAgreeOn(items: seq<Item>, key: string, limit: nat)
    requires forall item | item in items :: PlainItem(item)
    ensures OldHaveKey(key, PrintAll(items)) <==> HaveKey(ParsedCache(PrintAll(items)), key, AnyKind) == 0
    ensures OldHaveKey(key, PrintAll(items)) <==> FirstWritten(items, key).Some?
    ensures FirstWritten(items, key).Some? ==>
              SameAnswer(PrintAll(items), key, FirstWritten(items, key).value, limit)
  {
    hide KeyLine, ParsedCache, NodeFor, PlainItem, CanonicalItem, LineOf;
    forall item | item in items ensures CanonicalItem(item) {
      PlainIsCanonical(item);
    }
    OldLookup(items, key);
    NewLookup(items, key);
    var found := FirstWritten(items, key);
    if found.Some? {
      FirstWrittenIsThere(items, key);
      RangeOfItem(key, found.value);
      AnswersAgree(items, key, found.value, limit);
    }
  }

  lemma RangeOfItem(key: string, w: Written)
    requires PlainItem(Config(key, w))
    ensures InRange(w)
  {
  }

  /** A key that was never written: every getter of either reader gives its default. */
  lemma ReadersAgreeOnMissing(items: seq<Item>, key: string, limit: nat)
    requires forall item | item in items :: PlainItem(item)
    requires FirstWritten(items, key).None?
    ensures var text := PrintAll(items); var cache := ParsedCache(text);
            && OldChar(key, text) == GetChar(cache, key).value == None
            && OldInt(key, text) == GetInt(cache, key).value == 0
            && OldLong(key, text) == GetLong(cache, key).value == 0
            && OldBool(key, text) == GetBool(cache, key).value == false
            && OldArray(key, text, limit) == ArrayOf(cache, key, limit).value == []
            && OldIntArray(key, text, limit) == GetIntArray(cache, key, limit).value == []
  {
    hide KeyLine, ParsedCache, PlainItem, CanonicalItem;
    forall item | item in items ensures CanonicalItem(item) {
      PlainIsCanonical(item);
    }
    OldLookup(items, key);
    NewLookup(items, key);
  }
}
