/**
 What k2v3_parse guarantees on arbitrary text.
 */
module K2v3Laws {
  import opened Text
  import opened Escape
  import opened K2v3
  import opened K2v3Parse
  import opened K2v3Lines

  /** A raw text between two quotes the scanner found: nonempty, well paired, no quote of its own. */
  ghost predicate RawText(s: string) {
    s != "" && !Escaped(s) && NoBare(s, '"')
  }

  ghost predicate RawPayload(kind: Kind, p: Payload) {
    match p
    case Null => true
    case Text(s) => kind == Scalar && RawText(s) && '\n' !in s
    case List(es) => kind == Array && es != [] && forall e | e in es :: RawText(e)
  }

  lemma SliceIsRaw(s: string, from: nat, k: nat)
    requires from < k < |s| && k == FirstBare(s, '"', from, from)
    ensures RawText(s[from..k])
  {
    FirstBareLeast(s, '"', from, from);
    forall j | 0 <= j < k - from && s[from..k][j] == '"'
      ensures Escaped(s[from..k][..j])
    {
      assert s[from..k][..j] == s[from..from + j];
      assert s[from + j] == '"';
    }
  }

  lemma TurnIsRaw(s: string, j: nat, i: nat)
    requires j < i < |s| && s[i] == ']'
    ensures TurnAt(s, j, i).Turn? ==> RawText(TurnAt(s, j, i).elem)
  {
    var q := SkipAll(s, BLANKS, j, i);
    if TurnAt(s, j, i).Turn? {
      SliceIsRaw(s, q + 1, FirstBare(s, '"', q + 1, q + 1));
    }
  }

  lemma {:induction false} ElementsAreRaw(s: string, j: nat, i: nat)
    requires j <= i < |s| && s[i] == ']'
    ensures var r := ReadElements(s, j, i);
            r.Elements? ==> (j < i ==> r.elems != []) && forall e | e in r.elems :: RawText(e)
    decreases i - j
  {
    hide TurnAt, RawText;
    if j < i {
      var t := TurnAt(s, j, i);
      if t.Turn? {
        TurnIsRaw(s, j, i);
        ElementsAreRaw(s, t.next, i);
      }
    }
  }

  /**
   Every value get_value extracts is well paired and free of unescaped quotes, so
   k2v3_parse's "failed to parse value" exit, which needs a value that is neither empty
   nor there, is never taken.
   */
  lemma RawValues(s: string)
    requires s != ""
    ensures var v := ValueOf(s); (v.empty <==> v.payload.Null?) && RawPayload(v.kind, v.payload)
  {
    hide Escaped, NoBare;
    if s[0] == '"' && !(|s| >= 2 && s[1] == '"') {
      var i := FirstBare(s, '"', 1, 1);
      if i < Find(s, '\n', 0) {
        assert 1 < i;
        SliceIsRaw(s, 1, i);
      }
    } else if s[0] == '[' {
      var p := SkipAll(s, BLANKS, 1, |s|);
      var i := FirstBare(s, ']', 1, 1);
      if i < |s| && !(p < |s| && s[p] == ']') {
        assert 1 < i;
        ElementsAreRaw(s, 1, i);
      }
    }
  }

  /** The same for a whole text, up to the unescape pass. */
  lemma {:induction false} RawEntries(s: string)
    ensures forall n | n in Entries(s).nodes ::
              IsKey(n.key) && (n.empty <==> n.payload.Null?) && RawPayload(n.kind, n.payload)
    decreases |s|
  {
    hide ValueOf, RawPayload;
    if s != "" {
      match LineAt(s) {
        case Skip(jmp, w) => RawEntries(s[jmp..]);
        case BareKey =>
        case Entry(node, jmp, w) =>
          RawEntries(s[jmp..]);
          RawValues(s[KeySpan(s, 0) + 1..]);
      }
    }
  }

  // ----- which texts are accepted -----

  /** From `from` on there is nothing but spaces up to the end of the line, the text, or a comment. */
  ghost predicate LineIsOver(s: string, from: nat)
    requires from <= |s|
  {
    var j := SkipAll(s, {' '}, from, |s|);
    j == |s| || s[j] == '\n' || s[j] == '#'
  }

  /** The text starts with `v` in quotes that close right there, on one line that is over after them. */
  ghost predicate ScalarAt(s: string, v: string) {
    && |v| + 2 <= |s| && s[0] == '"' && s[1..|v| + 1] == v && s[|v| + 1] == '"'
    && RawText(v) && '\n' !in v && LineIsOver(s, |v| + 2)
  }

  lemma QuoteFound(s: string, v: string)
    requires |v| + 2 <= |s| && s[0] == '"' && s[1..|v| + 1] == v && s[|v| + 1] == '"' && RawText(v) && '\n' !in v
    ensures FirstBare(s, '"', 1, 1) == |v| + 1 < Find(s, '\n', 0)
    ensures s[1] != '"'
  {
    FirstBareIs(s, '"', 1, v);
    forall j | 0 <= j <= |v| + 1 ensures s[j] != '\n' {
      assert 1 <= j <= |v| ==> s[j] == v[j - 1];
    }
    assert s[1] == v[0] && v[..0] == "" && !Escaped("");
  }

  lemma NextLineBreak(s: string, from: nat)
    requires from <= |s| && from <= Find(s, '\n', 0) && LineIsOver(s, from) && from > 0 && s[0] != '\n'
    ensures forall v: Value :: v.jmp == from ==> EndOfValue(s, v) == v.(jmp := Find(s, '\n', 0))
  {
    var j := SkipAll(s, {' '}, from, |s|);
    if j < |s| && s[j] == '\n' {
      assert forall k | 0 <= k < j :: s[k] != '\n';
      FindIs(s, '\n', 0, j);
    }
  }

  /**
   get_value returns the scalar `v` exactly when the text starts with it, quoted and alone on
   its line; it then stops exactly at the end of that line, and does not warn.
   */
  lemma ScalarAccepted(s: string, v: string)
    requires s != ""
    ensures ValueOf(s).payload == Text(v) <==> ScalarAt(s, v)
    ensures ScalarAt(s, v) ==> ValueOf(s) == Value(Scalar, Text(v), false, Find(s, '\n', 0), false)
  {
    hide SkipAll, Escaped, NoBare;
    if ScalarAt(s, v) {
      QuoteFound(s, v);
      NextLineBreak(s, |v| + 2);
    }
    if ValueOf(s).payload == Text(v) {
      RawValues(s);
      var i := FirstBare(s, '"', 1, 1);
      assert v == s[1..i];
    }
  }

  /** A text that ends in a newline never ends in a bare `key=`: its cache is always unescaped. */
  lemma NewlineIsNotBare(s: string)
    requires s == "" || s[|s| - 1] == '\n'
    ensures !Entries(s).bare
  {
    BareExactly(s);
  }

  // ----- the cache -----

  /** The positions whose key did not occur before. */
  function FirstPositions(entries: seq<Node>): (ps: seq<nat>)
    ensures forall t | 0 <= t < |ps| :: ps[t] < |entries|
  {
    if entries == [] then [] else
    var m := |entries| - 1;
    FirstPositions(entries[..m]) + (if Lookup(entries[..m], entries[m].key).None? then [m] else [])
  }

  lemma NotFound(nodes: seq<Node>, key: string)
    ensures Lookup(nodes, key).None? <==> forall q | 0 <= q < |nodes| :: nodes[q].key != key
  {
    assert forall q | 0 <= q < |nodes| :: nodes[q] in nodes;
  }

  /** No entry before position `p` has its key. */
  ghost predicate IsFirst(entries: seq<Node>, p: nat) {
    p < |entries| && forall q | 0 <= q < p :: entries[q].key != entries[p].key
  }

  /** They are exactly the first occurrences. */
  lemma {:induction false} FirstPositionsAre(entries: seq<Node>, p: nat)
    ensures p in FirstPositions(entries) <==> IsFirst(entries, p)
  {
    if entries != [] {
      var m := |entries| - 1;
      FirstPositionsAre(entries[..m], p);
      NotFound(entries[..m], entries[m].key);
      assert IsFirst(entries[..m], p) <==> p < m && IsFirst(entries, p);
      assert p in FirstPositions(entries) <==>
          p in FirstPositions(entries[..m]) || (p == m && Lookup(entries[..m], entries[m].key).None?);
    }
  }

  /** They are in order. */
  lemma {:induction false} FirstPositionsAscend(entries: seq<Node>, t: nat, u: nat)
    requires t < u < |FirstPositions(entries)|
    ensures FirstPositions(entries)[t] < FirstPositions(entries)[u]
  {
    var m := |entries| - 1;
    if u < |FirstPositions(entries[..m])| {
      FirstPositionsAscend(entries[..m], t, u);
    }
  }

  /** The cache lists the entries at those positions. */
  lemma {:induction false} FirstWinsSelects(entries: seq<Node>)
    ensures |FirstWins(entries)| == |FirstPositions(entries)|
    ensures forall t | 0 <= t < |FirstWins(entries)| :: FirstWins(entries)[t] == entries[FirstPositions(entries)[t]]
  {
    if entries != [] {
      var m := |entries| - 1;
      FirstWinsSelects(entries[..m]);
      LookupFirstWins(entries[..m], entries[m].key);
    }
  }

  /** Entries whose keys are all taken already change nothing. */
  lemma {:induction false} DuplicatesChangeNothing(entries: seq<Node>, later: seq<Node>)
    requires forall n | n in later :: Lookup(entries, n.key).Some?
    ensures FirstWins(entries + later) == FirstWins(entries)
    decreases |later|
  {
    if later == [] {
      assert entries + later == entries;
    } else {
      var m := |later| - 1;
      assert entries + later == entries + later[..m] + [later[m]];
      assert later[m] in later && forall n | n in later[..m] :: n in later;
      FirstWinsStep(entries + later[..m], later[m]);
      DuplicatesChangeNothing(entries, later[..m]);
      LookupFirstWins(entries, later[m].key);
    }
  }

  lemma {:induction false} LookupUnescaped(nodes: seq<Node>, key: string)
    ensures var r, u := Lookup(nodes, key), Lookup(UnescapeNodes(nodes), key);
            u == if r.None? then None else Some(r.value.(payload := UnescapePayload(r.value.payload)))
  {
    if nodes != [] {
      assert UnescapeNodes(nodes)[1..] == UnescapeNodes(nodes[1..]);
      LookupUnescaped(nodes[1..], key);
    }
  }

  /** Pairwise distinct keys. */
  lemma FirstWinsDistinct(entries: seq<Node>)
    ensures Distinct(FirstWins(entries))
  {
    FirstWinsSelects(entries);
    var ps := FirstPositions(entries);
    forall t, u | 0 <= t < u < |ps|
      ensures FirstWins(entries)[t].key != FirstWins(entries)[u].key
    {
      FirstPositionsAscend(entries, t, u);
      FirstPositionsAre(entries, ps[u]);
    }
  }

  /**
   After any parse: keys are pairwise distinct, the nodes are the first occurrences in
   order, and a lookup finds what the first entry with that key said, unescaped unless the
   text ends in a bare key.
   */
  lemma CacheIsFirstWins(buf: string, key: string)
    ensures Distinct(ParsedCache(buf))
    ensures |ParsedCache(buf)| == |FirstPositions(Entries(buf).nodes)|
    ensures forall t | 0 <= t < |ParsedCache(buf)| ::
              ParsedCache(buf)[t].key == Entries(buf).nodes[FirstPositions(Entries(buf).nodes)[t]].key
    ensures var r := Lookup(Entries(buf).nodes, key);
            Lookup(ParsedCache(buf), key) ==
              if r.None? || EndsInBareKey(buf) then r
              else Some(r.value.(payload := UnescapePayload(r.value.payload)))
  {
    hide Entries, FirstWins, FirstPositions, Lookup, EndsInBareKey;
    var es := Entries(buf).nodes;
    BareExactly(buf);
    FirstWinsDistinct(es);
    FirstWinsSelects(es);
    LookupFirstWins(es, key);
    LookupUnescaped(FirstWins(es), key);
  }

  // ----- the skipped unescape pass -----

  ghost predicate StablePayload(p: Payload) {
    match p
    case Null => true
    case Text(s) => Stable(s)
    case List(elems) => forall e | e in elems :: Stable(e)
  }

  lemma PayloadFixed(p: Payload)
    ensures UnescapePayload(p) == p <==> StablePayload(p)
  {
    hide Unescape, Stable;
    match p {
      case Null =>
      case Text(s) => UnescapeFixed(s);
      case List(elems) =>
        forall i | 0 <= i < |elems| ensures Unescape(elems[i]) == elems[i] <==> Stable(elems[i]) {
          UnescapeFixed(elems[i]);
        }
        var u := UnescapePayload(p).elems;
        assert forall i | 0 <= i < |elems| :: u[i] == Unescape(elems[i]);
        if StablePayload(p) {
          assert forall i | 0 <= i < |elems| :: elems[i] in elems;
          assert u == elems;
        }
    }
  }

  /**
   The cache is the unescaped one if and only if the text does not end in a bare key, or every
   kept value is one that the pass would not have changed.
   */
  lemma SkippedPassShows(buf: string)
    ensures var nodes := FirstWins(Entries(buf).nodes);
            ParsedCache(buf) == UnescapeNodes(nodes) <==>
            !EndsInBareKey(buf) || forall n | n in nodes :: StablePayload(n.payload)
  {
    hide Entries, FirstWins, EndsInBareKey, UnescapePayload, StablePayload;
    BareExactly(buf);
    var nodes := FirstWins(Entries(buf).nodes);
    var u := UnescapeNodes(nodes);
    forall i | 0 <= i < |nodes| ensures u[i] == nodes[i] <==> StablePayload(nodes[i].payload) {
      PayloadFixed(nodes[i].payload);
    }
    if u == nodes {
      assert forall n | n in nodes :: StablePayload(n.payload);
    }
    if forall n | n in nodes :: StablePayload(n.payload) {
      assert forall i | 0 <= i < |nodes| :: nodes[i] in nodes;
      assert u == nodes;
    }
  }

  const LATE_KEY := "a=\"\\x\"\nb="

  lemma BackslashIsRaw()
    ensures RawText("\\x") && '\n' !in "\\x"
  {
    var v := "\\x";
    assert |v| == 2 && v[1] == 'x';
  }

  lemma LateKeyValue(conf: string)
    requires conf == "\"\\x\"\nb="
    ensures ValueOf(conf) == Value(Scalar, Text("\\x"), false, 4, false)
  {
    hide RawText, ValueOf;
    BackslashIsRaw();
    assert conf[1..3] == "\\x" && conf[4] == '\n';
    FindIs(conf, '\n', 0, 4);
    ScalarAccepted(conf, "\\x");
  }

  lemma LateKeyLine()
    ensures LineAt(LATE_KEY) == Entry(Node("a", Scalar, Text("\\x"), false), 6, false)
    ensures LATE_KEY[6..] == "\nb="
  {
    hide ValueOf;
    var s := LATE_KEY;
    assert s[..1] == "a" && KeyAt(s, 1);
    KeyIsSpan(s, 1);
    LateKeyValue(s[2..]);
  }

  /** A text on which it does: the backslash stays that a newline at the end would have removed. */
  lemma LateKeyKeepsBackslash()
    ensures Lookup(ParsedCache(LATE_KEY), "a") == Some(Node("a", Scalar, Text("\\x"), false))
    ensures Unescape("\\x") == "x" && EndsInBareKey(LATE_KEY)
  {
    hide LineAt;
    LateKeyLine();
    var n := Node("a", Scalar, Text("\\x"), false);
    BareTail();
    assert Entries(LATE_KEY) == Parsed([n], false, true);
    FirstWinsStep([], n);
    assert [] + [n] == [n] && FirstWins([]) == [];
    BareExactly(LATE_KEY);
    var x := "\\x";
    assert x[2..] == "" && Unescape("") == "";
  }

  lemma BareTail()
    ensures Entries("\nb=") == Parsed([], false, true)
  {
    hide ValueOf;
    var s := "b=";
    assert "\nb="[1..] == s && s[..1] == "b" && KeyAt(s, 1);
    KeyIsSpan(s, 1);
  }
}
