/**
 Printing with the k2v3 emitters and parsing again (src/k2v3.c).
 */
module RoundTrip {
  import opened Text
  import opened Escape
  import opened Number
  import opened K2v3
  import opened K2v3Parse
  import opened K2v3Get
  import opened K2v3Emit

  // ----- which values survive -----

  /** Between quotes on one line this text is read back as it is, before unescaping. */
  ghost predicate RawScalar(v: string) {
    '\n' !in v && NoBare(v, '"') && !Escaped(v)
  }

  ghost predicate RawElement(e: string) {
    e != "" && ']' !in e && NoBare(e, '"') && !Escaped(e)
  }

  ghost predicate CanonicalScalar(v: string) {
    RawScalar(v) && Stable(v)
  }

  ghost predicate CanonicalElement(e: string) {
    RawElement(e) && Stable(e)
  }

  ghost predicate InRange(w: Written) {
    match w
    case OfInt(n) => INT_MIN <= n <= INT_MAX
    case OfLong(l) => LONG_MIN <= l <= LONG_MAX
    case OfInts(ns) => forall n | n in ns :: INT_MIN <= n <= INT_MAX
    case _ => true
  }

  /** What the caller of an emitter has to respect for the line to be read back. */
  ghost predicate CanonicalItem(item: Item) {
    match item
    case Comment(text) => '\n' !in text
    case Newline => true
    case Config(key, w) =>
      && IsKey(key)
      && InRange(w)
      && (w.OfChar? && w.val.Some? ==> CanonicalScalar(w.val.value))
      && (w.OfChars? ==> forall e | e in w.vals :: CanonicalElement(e))
  }

  // ----- one value -----

  /** The node that a written value parses to. */
  function NodeFor(key: string, w: Written): Node {
    if IsScalar(w) then
      if ScalarText(w) == "" then Node(key, Scalar, Null, true) else Node(key, Scalar, Text(ScalarText(w)), false)
    else if ElementTexts(w) == [] then Node(key, Array, Null, true)
    else Node(key, Array, List(ElementTexts(w)), false)
  }

  lemma ScalarReadBack(v: string, rest: string)
    requires RawScalar(v)
    ensures ValueOf(Quoted(v) + "\n" + rest) ==
            if v == "" then Value(Scalar, Null, true, 2, false) else Value(Scalar, Text(v), false, |v| + 2, false)
  {
    var s := Quoted(v) + "\n" + rest;
    assert s[1..1 + |v|] == v && s[|v| + 1] == '"' && s[|v| + 2] == '\n';
    FindIs(s, '\n', 0, |v| + 2);
    FirstBareIs(s, '"', 1, v);
    if v != "" {
      assert v[0] == '"' ==> Escaped(v[..0]);
    }
  }

  lemma {:induction false} JoinShape(vals: seq<string>)
    requires vals != []
    ensures Join(vals)[0] == '"' && Join(vals)[|Join(vals)| - 1] == '"' && |Join(vals)| >= 2
    ensures (forall e | e in vals :: ']' !in e) ==> ']' !in Join(vals)
  {
    if |vals| > 1 {
      JoinShape(vals[1..]);
    }
  }

  lemma QuotedSlice(s: string, j: nat, v: string)
    requires j + |v| + 2 <= |s| && s[j..j + |v| + 2] == Quoted(v)
    ensures QuotedAt(s, j, v)
  {
    var q := s[j..j + |v| + 2];
    assert s[j] == q[0] && s[j + 1 + |v|] == q[|v| + 1];
    assert q[1..|v| + 1] == v;
    SubSlice(s, j, j + |v| + 2, 1, |v| + 1);
  }

  /** One element of a printed array, with what follows it. */
  lemma TurnReadBack(s: string, j: nat, v: string, i: nat)
    requires RawElement(v) && j + |v| + 2 <= i < |s| && s[i] == ']'
    requires QuotedAt(s, j, v)
    requires j + |v| + 2 == i || (j + |v| + 3 < i && s[j + |v| + 2] == ',' && s[j + |v| + 3] == '"')
    ensures TurnAt(s, j, i) == Turn(v, if j + |v| + 2 == i then i else j + |v| + 3)
  {
    hide NoBare, Escaped, FirstBare, SkipAll;
    FirstBareIs(s, '"', j + 1, v);
  }

  /** The first element of a printed array, and what stands behind it. */
  lemma FirstElement(s: string, j: nat, vals: seq<string>, i: nat)
    requires vals != [] && j + |Join(vals)| == i < |s| && s[j..i] == Join(vals)
    ensures var n := j + |vals[0]| + 2;
            && QuotedAt(s, j, vals[0])
            && if |vals| == 1 then n == i
               else n + 1 + |Join(vals[1..])| == i && n + 1 < i && s[n] == ',' && s[n + 1] == '"'
                       && s[n + 1..i] == Join(vals[1..])
  {
    hide QuotedAt;
    var v, t := vals[0], s[j..i];
    assert s[j..j + |v| + 2] == t[..|v| + 2] == Quoted(v);
    QuotedSlice(s, j, v);
    if |vals| > 1 {
      var next := j + |v| + 3;
      JoinShape(vals[1..]);
      assert s[next..i] == t[|v| + 3..] == Join(vals[1..]);
      assert s[j + |v| + 2] == t[|v| + 2] == ',';
      assert s[next] == s[next..i][0];
    }
  }

  lemma {:induction false} ElementsReadBack(s: string, j: nat, vals: seq<string>, i: nat)
    requires vals != [] && (forall e | e in vals :: RawElement(e))
    requires j + |Join(vals)| == i < |s| && s[i] == ']' && s[j..i] == Join(vals)
    ensures ReadElements(s, j, i) == Elements(vals)
    decreases |vals|
  {
    hide TurnAt, RawElement, SkipAll, QuotedAt, Join;
    var v := vals[0];
    FirstElement(s, j, vals, i);
    assert v in vals;
    TurnReadBack(s, j, v, i);
    if |vals| == 1 {
      assert vals == [v] + [];
    } else {
      ElementsReadBack(s, j + |v| + 3, vals[1..], i);
      assert vals == [v] + vals[1..];
    }
  }

  lemma NoBracket(vals: seq<string>)
    requires vals != [] && forall e | e in vals :: RawElement(e)
    ensures NoBare(Join(vals), ']') && !Escaped(Join(vals))
  {
    JoinShape(vals);
  }

  /** A value right in front of a newline ends there. */
  lemma EndsHere(s: string, v: Value)
    requires 0 < v.jmp < |s| && s[v.jmp] == '\n' && s[0] != '\n'
    ensures EndOfValue(s, v) == v
  {
  }

  lemma ElementsInside(s: string, vals: seq<string>, i: nat)
    requires vals != [] && forall e | e in vals :: RawElement(e)
    requires i < |s| && i == 1 + |Join(vals)| && s[1..i] == Join(vals) && s[i] == ']'
    ensures FirstBare(s, ']', 1, 1) == i && ReadElements(s, 1, i) == Elements(vals) && s[1] == '"' && 1 < i
  {
    hide Join, RawElement, ReadElements, NoBare, FirstBare, Escaped, SkipAll;
    JoinShape(vals);
    assert s[1] == Join(vals)[0];
    NoBracket(vals);
    FirstBareIs(s, ']', 1, Join(vals));
    ElementsReadBack(s, 1, vals, i);
  }

  lemma ArrayReadBack(vals: seq<string>, rest: string)
    requires forall e | e in vals :: RawElement(e)
    ensures ValueOf("[" + Join(vals) + "]" + "\n" + rest) ==
            if vals == [] then Value(Array, Null, true, 2, false)
            else Value(Array, List(vals), false, |Join(vals)| + 2, false)
  {
    hide Join, RawElement, ReadElements, NoBare, FirstBare, Escaped, EndOfValue, Recover;
    JoinEnds();
    var s, i := "[" + Join(vals) + "]" + "\n" + rest, 1 + |Join(vals)|;
    assert s[0] == '[' && s[i] == ']' && s[i + 1] == '\n';
    if vals == [] {
      EndsHere(s, Value(Array, Null, true, 2, false));
    } else {
      assert s[1..i] == Join(vals);
      ElementsInside(s, vals, i);
      EndsHere(s, Value(Array, List(vals), false, i + 1, false));
    }
  }

  // ----- one item -----

  /** The raw text of every written value can be read back; printed numbers always can. */
  lemma CanonicalIsRaw(key: string, w: Written)
    requires CanonicalItem(Config(key, w))
    ensures if IsScalar(w) then CanonicalScalar(ScalarText(w))
            else forall e | e in ElementTexts(w) :: CanonicalElement(e)
  {
    hide CanonicalScalar, CanonicalElement, Dec;
    match w {
      case OfChar(val) => EmptyIsCanonical();
      case OfInt(n) => NumberIsCanonical(n);
      case OfLong(l) => NumberIsCanonical(l);
      case OfBool(b) => BoolIsCanonical();
      case OfChars(vals) =>
      case OfInts(ns) => NumbersAreCanonical(ns);
    }
  }

  lemma EmptyIsCanonical()
    ensures CanonicalScalar("")
  {
  }

  lemma BoolIsCanonical()
    ensures CanonicalScalar("true") && CanonicalScalar("false")
  {
    PlainIsStable("true");
    PlainIsStable("false");
  }

  lemma NumbersAreCanonical(ns: seq<int>)
    ensures forall e | e in ElementTexts(OfInts(ns)) :: CanonicalElement(e)
  {
    hide CanonicalElement, Dec;
    forall e | e in ElementTexts(OfInts(ns)) ensures CanonicalElement(e) {
      var k :| 0 <= k < |ns| && e == Dec(ns[k]);
      NumberIsCanonical(ns[k]);
    }
  }

  lemma NumberIsCanonical(n: int)
    ensures CanonicalScalar(Dec(n)) && CanonicalElement(Dec(n))
  {
    PlainIsStable(Dec(n));
  }

  /** A key in front of a value. */
  lemma KeyReadBack(key: string, conf: string)
    requires IsKey(key) && conf != ""
    ensures var v := ValueOf(conf);
            LineAt(key + "=" + conf) == Entry(NodeOf(key, v), |key| + 1 + v.jmp, v.warned)
  {
    hide ValueOf, KeySpan;
    var s, n := key + "=" + conf, |key|;
    assert s[..n] == key && s[n] == '=' && KeyAt(s, n);
    assert s[0] == key[0] && KeyChar(s[0]);
    assert s[n + 1..] == conf;
    KeyIsSpan(s, n);
  }

  /** What get_value makes of a printed right-hand side. */
  lemma RhsReadBack(key: string, w: Written, rest: string)
    requires CanonicalItem(Config(key, w))
    ensures var v := ValueOf(Rhs(w) + "\n" + rest);
            NodeOf(key, v) == NodeFor(key, w) && v.jmp == |Rhs(w)| && !v.warned
  {
    hide ValueOf, Stable, Escaped, NoBare, Join, CanonicalItem, ScalarText, ElementTexts;
    JoinEnds();
    CanonicalIsRaw(key, w);
    if IsScalar(w) {
      ScalarReadBack(ScalarText(w), rest);
    } else {
      ArrayReadBack(ElementTexts(w), rest);
    }
  }

  function NodesOf(items: seq<Item>): seq<Node> {
    if items == [] then []
    else (if items[0].Config? then [NodeFor(items[0].key, items[0].written)] else []) + NodesOf(items[1..])
  }

  /** A printed item in front of any text adds its node to what that text says. */
  lemma ItemReadBack(item: Item, rest: string)
    requires CanonicalItem(item)
    ensures Entries(Print(item) + rest) == After(NodesOf([item]), false, Entries(rest))
  {
    hide LineAt, Entries, Rhs, InRange, NodeFor, Stable, NoBare, Escaped;
    match item {
      case Comment(text) => CommentReadBack(text, rest);
      case Newline => NewlineReadBack(rest);
      case Config(key, w) =>
        ConfigReadBack(key, w, rest);
        assert NodesOf([item]) == [NodeFor(key, w)] + [];
    }
  }

  lemma ConfigReadBack(key: string, w: Written, rest: string)
    requires CanonicalItem(Config(key, w))
    ensures Entries(Print(Config(key, w)) + rest) == After([NodeFor(key, w)], false, Entries(rest))
  {
    hide ValueOf, Rhs, KeySpan, NodeFor, KeyAt, InRange, Stable, Escaped, NoBare;
    var conf, end := Rhs(w) + "\n" + rest, |key| + 1 + |Rhs(w)|;
    var s := key + "=" + conf;
    assert Print(Config(key, w)) + rest == s;
    KeyReadBack(key, conf);
    RhsReadBack(key, w, rest);
    assert s[end..] == "\n" + rest && ("\n" + rest)[1..] == rest;
    var p := Entries(rest);
    assert [] + p.nodes == p.nodes;
  }

  lemma NewlineReadBack(rest: string)
    ensures Entries("\n" + rest) == After([], false, Entries(rest))
  {
    hide ValueOf, KeySpan, KeyAt;
    assert ("\n" + rest)[1..] == rest;
  }

  lemma CommentReadBack(text: string, rest: string)
    requires CanonicalItem(Comment(text))
    ensures Entries(Print(Comment(text)) + rest) == After([], false, Entries(rest))
  {
    var s := Print(Comment(text)) + rest;
    var nl := |text| + 2;
    forall j | 0 <= j < nl ensures s[j] != '\n' {
      assert j >= 2 ==> s[j] == text[j - 2];
    }
    FindIs(s, '\n', 0, nl);
    assert s[nl + 1..] == rest;
  }

  // ----- a document -----

  lemma {:induction false} EntriesReadBack(items: seq<Item>)
    requires forall item | item in items :: CanonicalItem(item)
    ensures Entries(PrintAll(items)) == Parsed(NodesOf(items), false, false)
  {
    hide Print, LineAt, NodeFor, CanonicalItem;
    if items != [] {
      EntriesReadBack(items[1..]);
      ItemReadBack(items[0], PrintAll(items[1..]));
    }
  }

  /** The nodes of canonical items are left alone by the unescape pass. */
  lemma {:induction false} NodesAreStable(items: seq<Item>)
    requires forall item | item in items :: CanonicalItem(item)
    ensures UnescapeNodes(NodesOf(items)) == NodesOf(items)
    ensures forall n | n in NodesOf(items) :: UnescapePayload(n.payload) == n.payload
  {
    if items != [] {
      NodesAreStable(items[1..]);
      if items[0].Config? {
        NodeIsStable(items[0].key, items[0].written);
      }
    }
  }

  lemma NodeIsStable(key: string, w: Written)
    requires CanonicalItem(Config(key, w))
    ensures UnescapePayload(NodeFor(key, w).payload) == NodeFor(key, w).payload
  {
    CanonicalIsRaw(key, w);
    if IsScalar(w) {
      UnescapeFixed(ScalarText(w));
    } else {
      forall e | e in ElementTexts(w) ensures Unescape(e) == e {
        UnescapeFixed(e);
      }
    }
  }

  /** Without duplicates the first-wins rule keeps everything. */
  lemma {:induction false} DistinctAllWin(entries: seq<Node>)
    requires Distinct(entries)
    ensures FirstWins(entries) == entries
  {
    if entries != [] {
      var m := |entries| - 1;
      DistinctAllWin(entries[..m]);
      assert entries[..m] + [entries[m]] == entries;
      FirstWinsStep(entries[..m], entries[m]);
    }
  }

  /**
   The document round trip: whatever is emitted canonically and under distinct keys is
   parsed without a warning into exactly its nodes, in order and with their types.
   */
  lemma DocumentRoundTrip(items: seq<Item>)
    requires forall item | item in items :: CanonicalItem(item)
    requires Distinct(NodesOf(items))
    ensures !ParseWarns(PrintAll(items)) && !Entries(PrintAll(items)).bare
    ensures ParsedCache(PrintAll(items)) == NodesOf(items)
  {
    EntriesReadBack(items);
    DistinctAllWin(NodesOf(items));
    NodesAreStable(items);
  }

  // ----- and the getters -----

  /** Nodes with other keys in front do not change a lookup. */
  lemma LookupSkip(n: Node, rest: seq<Node>, key: string)
    requires Distinct([n] + rest) && Lookup(rest, key).Some?
    ensures Lookup([n] + rest, key) == Lookup(rest, key)
  {
    var nodes, found := [n] + rest, Lookup(rest, key).value;
    assert nodes[1..] == rest;
    var k :| 0 <= k < |rest| && rest[k] == found;
    assert nodes[0].key != nodes[k + 1].key;
  }

  lemma {:induction false} LookupItem(items: seq<Item>, i: nat)
    requires i < |items| && items[i].Config? && Distinct(NodesOf(items))
    ensures Lookup(NodesOf(items), items[i].key) == Some(NodeFor(items[i].key, items[i].written))
  {
    hide NodeFor, Lookup;
    var rest := NodesOf(items[1..]);
    var n := if items[0].Config? then [NodeFor(items[0].key, items[0].written)] else [];
    assert NodesOf(items) == n + rest;
    if i == 0 {
      LookupFirst(n[0], rest);
      NodeKey(items[0].key, items[0].written);
    } else {
      DistinctTail(n, rest);
      LookupItem(items[1..], i - 1);
      if items[0].Config? {
        LookupSkip(n[0], rest, items[i].key);
      } else {
        assert n + rest == rest;
      }
    }
  }

  lemma NodeKey(key: string, w: Written)
    ensures NodeFor(key, w).key == key
  {
  }

  lemma LookupFirst(n: Node, rest: seq<Node>)
    ensures Lookup([n] + rest, n.key) == Some(n)
  {
  }

  lemma DistinctTail(front: seq<Node>, rest: seq<Node>)
    requires Distinct(front + rest)
    ensures Distinct(rest)
  {
    assert forall k | 0 <= k < |rest| :: (front + rest)[|front| + k] == rest[k];
  }

  /** The getter that belongs to a written value gives it back, and does not warn. */
  ghost predicate GivesBack(cache: seq<Node>, key: string, w: Written, limit: nat) {
    match w
    case OfChar(val) => GetChar(cache, key) == Got(if val == Some("") then None else val, false)
    case OfInt(n) => GetInt(cache, key) == Got(n, false)
    case OfLong(l) => GetLong(cache, key) == Got(l, false)
    case OfBool(b) => GetBool(cache, key) == Got(b, false)
    case OfChars(vals) => |vals| <= limit ==> ArrayOf(cache, key, limit) == Got(vals, false)
    case OfInts(ns) => |ns| <= limit ==> GetIntArray(cache, key, limit) == Got(ns, false)
  }

  lemma WholeNumber(n: int)
    requires LONG_MIN <= n <= LONG_MAX
    ensures ToLong(Dec(n)) == Strtol(n, |Dec(n)|)
  {
    ReadBack(n, "");
    assert Dec(n) + "" == Dec(n);
  }

  lemma GetBack(cache: seq<Node>, key: string, w: Written, limit: nat)
    requires InRange(w) && Lookup(cache, key) == Some(NodeFor(key, w))
    ensures GivesBack(cache, key, w, limit)
  {
    hide ToLong, Dec;
    match w {
      case OfChar(val) =>
      case OfInt(n) => WholeNumber(n);
      case OfLong(l) => WholeNumber(l);
      case OfBool(b) =>
      case OfChars(vals) =>
      case OfInts(ns) =>
        forall i | 0 <= i < |ns| ensures ElementInt(ElementTexts(w)[i]) == Got(ns[i], false) {
          assert ns[i] in ns;
          WholeNumber(ns[i]);
        }
        if |ns| <= limit {
          assert GetIntArray(cache, key, limit).value == ns;
        }
    }
  }

  /** Every value written comes back through its getter, from the parsed text of the whole document. */
  lemma ValueRoundTrip(items: seq<Item>, i: nat, limit: nat)
    requires forall item | item in items :: CanonicalItem(item)
    requires Distinct(NodesOf(items))
    requires i < |items| && items[i].Config?
    ensures GivesBack(ParsedCache(PrintAll(items)), items[i].key, items[i].written, limit)
  {
    DocumentRoundTrip(items);
    LookupItem(items, i);
    assert items[i] in items;
    GetBack(NodesOf(items), items[i].key, items[i].written, limit);
  }
}
