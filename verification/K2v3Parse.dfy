/**
 k2v3_parse (src/k2v3.c:541-682): the loop over lines, the cache and its first-wins rule,
 and the unescape pass.
 */
module K2v3Parse {
  import opened Text
  import opened Escape
  import opened K2v3
  import opened K2v3Scan

  // ----- what a text says, line by line -----

  /** Every entry of a text in order, duplicates included, with values still escaped. */
  datatype Parsed = Parsed(nodes: seq<Node>, warned: bool, bare: bool)

  function NodeOf(key: string, v: Value): Node {
    if v.empty then Node(key, v.kind, Null, true) else Node(key, v.kind, v.payload, false)
  }

  /** What the parser finds at the start of a line, and how far it goes on from there. */
  datatype Line = Skip(jmp: nat, warned: bool) | BareKey | Entry(node: Node, jmp: nat, warned: bool)

  function LineAt(s: string): (r: Line)
    requires s != ""
    ensures !r.BareKey? ==> 0 < r.jmp <= |s|
  {
    if s[0] == '\n' then Skip(1, false)
    else if s[0] == '#' then Skip(SkipLine(s), false)
    else
      var n := KeySpan(s, 0);
      if s[0] == ' ' || !KeyAt(s, n) then Skip(SkipLine(s), true)
      else if n + 1 == |s| then BareKey
      else
        var v := ValueOf(s[n + 1..]);
        Entry(NodeOf(s[..n], v), n + 1 + v.jmp, v.warned)
  }

  /** Entries and warnings found earlier, in front of a parse of the rest. */
  function After(nodes: seq<Node>, warned: bool, p: Parsed): Parsed {
    Parsed(nodes + p.nodes, warned || p.warned, p.bare)
  }

  /** `bare` says the text ended in `key=` with nothing after it. */
  function Entries(s: string): Parsed
    decreases |s|
  {
    if s == "" then Parsed([], false, false) else
    match LineAt(s)
    case Skip(jmp, w) => After([], w, Entries(s[jmp..]))
    case BareKey => Parsed([], false, true)
    case Entry(node, jmp, w) => After([node], w, Entries(s[jmp..]))
  }

  /** The parser's loop has come to offset `str`, with these entries and warnings behind it. */
  ghost predicate Reached(buf: string, str: nat, seen: seq<Node>, bad: bool) {
    str <= |buf| && Entries(buf) == After(seen, bad, Entries(buf[str..]))
  }

  lemma ReachedStart(buf: string)
    ensures Reached(buf, 0, [], false)
    ensures FirstWins([]) == []
  {
    assert buf[0..] == buf;
    assert [] + Entries(buf).nodes == Entries(buf).nodes;
  }

  /** One turn of the loop that does not end it. */
  lemma ReachedNext(buf: string, str: nat, seen: seq<Node>, bad: bool)
    requires Reached(buf, str, seen, bad) && str < |buf|
    ensures match LineAt(buf[str..])
            case Skip(jmp, w) => str + jmp <= |buf| && Reached(buf, str + jmp, seen, bad || w)
            case BareKey => true
            case Entry(n, jmp, w) => str + jmp <= |buf| && Reached(buf, str + jmp, seen + [n], bad || w)
  {
    hide LineAt;
    match LineAt(buf[str..]) {
      case Skip(jmp, w) =>
        assert buf[str..][jmp..] == buf[str + jmp..];
        var rest := Entries(buf[str + jmp..]);
        assert seen + ([] + rest.nodes) == seen + rest.nodes;
      case BareKey =>
      case Entry(n, jmp, w) =>
        assert buf[str..][jmp..] == buf[str + jmp..];
        var rest := Entries(buf[str + jmp..]);
        assert seen + ([n] + rest.nodes) == seen + [n] + rest.nodes;
    }
  }

  lemma ReachedEnd(buf: string, str: nat, seen: seq<Node>, bad: bool)
    requires Reached(buf, str, seen, bad) && (str == |buf| || LineAt(buf[str..]).BareKey?)
    ensures Entries(buf) == Parsed(seen, bad, str < |buf|)
  {
    assert seen + [] == seen;
    if str == |buf| {
      assert buf[str..] == "";
    }
  }

  // ----- the cache -----

  /** The first node with this key. */
  function Lookup(nodes: seq<Node>, key: string): (r: Option<Node>)
    ensures r.Some? ==> r.value in nodes && r.value.key == key
    ensures r.None? ==> forall n | n in nodes :: n.key != key
  {
    if nodes == [] then None
    else if nodes[0].key == key then Some(nodes[0])
    else Lookup(nodes[1..], key)
  }

  function AddNode(nodes: seq<Node>, n: Node): seq<Node> {
    if Lookup(nodes, n.key).Some? then nodes else nodes + [n]
  }

  /** The entries left when a key's later occurrences are dropped. */
  function FirstWins(entries: seq<Node>): seq<Node> {
    if entries == [] then [] else AddNode(FirstWins(entries[..|entries| - 1]), entries[|entries| - 1])
  }

  /** No key occurs twice. */
  ghost predicate Distinct(nodes: seq<Node>) {
    forall i, j | 0 <= i < j < |nodes| :: nodes[i].key != nodes[j].key
  }

  /** Dropping later duplicates loses no key. */
  lemma {:induction false} LookupFirstWins(entries: seq<Node>, key: string)
    ensures Lookup(FirstWins(entries), key) == Lookup(entries, key)
  {
    if entries != [] {
      var m := |entries| - 1;
      LookupFirstWins(entries[..m], key);
      LookupAppend(entries[..m], entries[m], key);
      assert entries[..m] + [entries[m]] == entries;
      LookupAppend(FirstWins(entries[..m]), entries[m], key);
    }
  }

  lemma {:induction false} LookupAppend(nodes: seq<Node>, n: Node, key: string)
    ensures Lookup(nodes + [n], key) ==
            if Lookup(nodes, key).Some? then Lookup(nodes, key) else if n.key == key then Some(n) else None
  {
    if nodes == [] {
      assert nodes + [n] == [n];
    } else {
      assert (nodes + [n])[1..] == nodes[1..] + [n];
      LookupAppend(nodes[1..], n, key);
    }
  }

  lemma FirstWinsStep(entries: seq<Node>, n: Node)
    ensures FirstWins(entries + [n]) == AddNode(FirstWins(entries), n)
    ensures Distinct(entries + [n]) <==> Distinct(entries) && Lookup(FirstWins(entries), n.key).None?
  {
    var all := entries + [n];
    assert all[..|entries|] == entries;
    LookupFirstWins(entries, n.key);
    if Distinct(all) {
      assert forall i | 0 <= i < |entries| :: all[i].key != all[|entries|].key;
      assert forall i, j | 0 <= i < j < |entries| :: all[i].key != all[j].key;
    }
    if Distinct(entries) && Lookup(entries, n.key).None? {
      assert forall i | 0 <= i < |entries| :: entries[i] in entries;
    }
  }

  function UnescapePayload(p: Payload): Payload {
    match p
    case Null => Null
    case Text(s) => Text(Unescape(s))
    case List(elems) => List(seq(|elems|, i requires 0 <= i < |elems| => Unescape(elems[i])))
  }

  function UnescapeNodes(nodes: seq<Node>): (r: seq<Node>)
    ensures |r| == |nodes|
    ensures forall i | 0 <= i < |r| :: r[i] == nodes[i].(payload := UnescapePayload(nodes[i].payload))
  {
    seq(|nodes|, i requires 0 <= i < |nodes| => nodes[i].(payload := UnescapePayload(nodes[i].payload)))
  }

  /** The cache k2v3_parse returns; after a final bare key the unescape pass does not happen. */
  function ParsedCache(s: string): seq<Node> {
    var p := Entries(s);
    if p.bare then FirstWins(p.nodes) else UnescapeNodes(FirstWins(p.nodes))
  }

  /** Whether k2v3_parse warned about anything. */
  ghost predicate ParseWarns(s: string) {
    Entries(s).warned || !Distinct(Entries(s).nodes)
  }

  method UnescapeElements(elems: seq<string>) returns (es: seq<string>)
    ensures List(es) == UnescapePayload(List(elems))
  {
    es := elems;
    for i := 0 to |elems|
      invariant |es| == |elems| && es[i..] == elems[i..]
      invariant forall k | 0 <= k < i :: es[k] == Unescape(elems[k])
    {
      var t := CorrectBackslash(es[i]);
      es := es[i := t];
    }
  }

  /** The linked list of nodes. */
  class Cache {
    var nodes: seq<Node>

    constructor ()
      ensures nodes == []
    {
      nodes := [];
    }

    /** Append unless the key is there already. */
    method Append(node: Node) returns (duplicate: bool)
      modifies this
      ensures nodes == AddNode(old(nodes), node)
      ensures duplicate == Lookup(old(nodes), node.key).Some?
    {
      var cur := 0;
      while cur < |nodes|
        invariant cur <= |nodes| && nodes == old(nodes)
        invariant Lookup(nodes, node.key) == Lookup(nodes[cur..], node.key)
      {
        if nodes[cur].key == node.key {
          return true;
        }
        assert nodes[cur..][1..] == nodes[cur + 1..];
        cur := cur + 1;
      }
      nodes := nodes + [node];
      duplicate := false;
    }

    /** The pass over the finished list that corrects backslashes in place. */
    method UnescapeAll()
      modifies this
      ensures nodes == UnescapeNodes(old(nodes))
    {
      var tmp := 0;
      while tmp < |nodes|
        invariant tmp <= |nodes| == |old(nodes)|
        invariant forall i | 0 <= i < tmp :: nodes[i] == UnescapeNodes(old(nodes))[i]
        invariant forall i | tmp <= i < |nodes| :: nodes[i] == old(nodes)[i]
      {
        match nodes[tmp].payload {
          case Null =>
          case Text(s) =>
            var t := CorrectBackslash(s);
            nodes := nodes[tmp := nodes[tmp].(payload := Text(t))];
          case List(elems) =>
            var es := UnescapeElements(elems);
            nodes := nodes[tmp := nodes[tmp].(payload := List(es))];
        }
        tmp := tmp + 1;
      }
    }
  }

  /** What one turn of the parser's loop reads, up to the point where it would touch the cache. */
  method ReadLine(conf: string) returns (line: Line)
    requires conf != ""
    ensures line == LineAt(conf)
  {
    if conf[0] == ' ' {
      return Skip(SkipLine(conf), true);
    }
    if conf[0] == '\n' {
      return Skip(1, false);
    }
    if conf[0] == '#' {
      return Skip(SkipLine(conf), false);
    }
    var key, jmp := GetKey(conf);
    if key.None? {
      return Skip(SkipLine(conf), true);
    }
    KeyIsSpan(conf, jmp - 1);
    if jmp == |conf| {
      return BareKey;
    }
    var value := GetValue(conf[jmp..]);
    line := Entry(NodeOf(key.value, value), jmp + value.jmp, value.warned);
  }

  /** k2v3_parse. */
  method Parse(buf: string) returns (ret: Cache, warned: bool)
    ensures fresh(ret) && ret.nodes == ParsedCache(buf)
    ensures warned == ParseWarns(buf)
  {
    hide Entries, FirstWins, Reached, LineAt, UnescapeNodes;
    ret := new Cache();
    warned := false;
    var str: nat, len: nat := 0, |buf|;
    ghost var seen: seq<Node>, bad := [], false;
    ReachedStart(buf);
    while len > 0
      invariant str + len == |buf|
      invariant ret.nodes == FirstWins(seen) && fresh(ret)
      invariant Reached(buf, str, seen, bad)
      invariant warned == (bad || !Distinct(seen))
      decreases len
    {
      var line := ReadLine(buf[str..]);
      match line {
        case Skip(jmp, w) =>
          ReachedNext(buf, str, seen, bad);
          warned, bad := warned || w, bad || w;
          str, len := str + jmp, len - jmp;
        case BareKey =>
          ReachedEnd(buf, str, seen, bad);
          return;
        case Entry(node, jmp, w) =>
          ReachedNext(buf, str, seen, bad);
          FirstWinsStep(seen, node);
          str, len := str + jmp, len - jmp;
          var duplicate := ret.Append(node);
          warned := warned || duplicate || w;
          seen, bad := seen + [node], bad || w;
      }
    }
    ReachedEnd(buf, str, seen, bad);
    ret.UnescapeAll();
  }
}
