/**
 The k2v3 getters (src/k2v3.c:766-998): typed lookups on a parsed cache.
 `warned` is where the strict mode would exit.
 */
module K2v3Get {
  import opened Text
  import opened K2v3
  import opened K2v3Parse
  import opened Number

  datatype Wanted = Exactly(kind: Kind) | AnyKind

  /** k2v3_have_key: 0 when the key is there with the wanted kind, 1 with another kind, -1 when it is not. */
  function HaveKey(cache: seq<Node>, key: string, wanted: Wanted): int {
    match Lookup(cache, key)
    case None => -1
    case Some(n) => if wanted.AnyKind? || n.kind == wanted.kind then 0 else 1
  }

  /** get_key_cache: the first node with the key, when it has the wanted kind. */
  function KeyCache(cache: seq<Node>, key: string, kind: Kind): Option<Node> {
    var n := Lookup(cache, key);
    if n.Some? && n.value.kind == kind then n else None
  }

  /** What a getter returns, and whether it warned. */
  datatype Got<+T> = Got(value: T, warned: bool)

  function GetChar(cache: seq<Node>, key: string): Got<Option<string>> {
    match KeyCache(cache, key, Scalar)
    case None => Got(None, true)
    case Some(n) => Got(if n.payload.Text? then Some(n.payload.s) else None, false)
  }

  /** An int out of a text: 0 when the text is not a whole number, and 0 with a warning when it is out of range. */
  function IntOf(s: string): Got<int> {
    var r := ToLong(s);
    if r.end != |s| then Got(0, false)
    else if r.value < INT_MIN || r.value > INT_MAX then Got(0, true)
    else Got(r.value, false)
  }

  function GetInt(cache: seq<Node>, key: string): Got<int> {
    match KeyCache(cache, key, Scalar)
    case None => Got(0, true)
    case Some(n) => if n.payload.Text? then IntOf(n.payload.s) else Got(0, false)
  }

  function GetLong(cache: seq<Node>, key: string): Got<int> {
    match KeyCache(cache, key, Scalar)
    case None => Got(0, true)
    case Some(n) =>
      if !n.payload.Text? then Got(0, false) else
      var r := ToLong(n.payload.s);
      if r.end != |n.payload.s| then Got(0, true) else Got(r.value, false)
  }

  function GetBool(cache: seq<Node>, key: string): Got<bool> {
    match KeyCache(cache, key, Scalar)
    case None => Got(false, true)
    case Some(n) =>
      if !n.payload.Text? then Got(false, true)
      else if n.payload.s == "true" then Got(true, false)
      else if n.payload.s == "false" then Got(false, false)
      else Got(false, true)
  }

  /** The elements an array getter starts from: none when the key is missing, empty or over the limit. */
  function ArrayOf(cache: seq<Node>, key: string, limit: nat): Got<seq<string>> {
    match KeyCache(cache, key, Array)
    case None => Got([], true)
    case Some(n) =>
      if !n.payload.List? then Got([], false)
      else if |n.payload.elems| > limit then Got([], true)
      else Got(n.payload.elems, false)
  }

  /** One element as an int: anything that is not an int in range is a warning and 0. */
  function ElementInt(s: string): Got<int> {
    var r := ToLong(s);
    if r.end != |s| || r.value < INT_MIN || r.value > INT_MAX then Got(0, true) else Got(r.value, false)
  }

  function GetIntArray(cache: seq<Node>, key: string, limit: nat): (r: Got<seq<int>>)
    ensures |r.value| == |ArrayOf(cache, key, limit).value|
    ensures forall i | 0 <= i < |r.value| :: r.value[i] == ElementInt(ArrayOf(cache, key, limit).value[i]).value
    ensures r.warned <==> ArrayOf(cache, key, limit).warned ||
                          exists i :: 0 <= i < |r.value| && ElementInt(ArrayOf(cache, key, limit).value[i]).warned
  {
    var a := ArrayOf(cache, key, limit);
    Got(seq(|a.value|, i requires 0 <= i < |a.value| => ElementInt(a.value[i]).value),
        a.warned || exists i :: 0 <= i < |a.value| && ElementInt(a.value[i]).warned)
  }

  /** The walk along the list that every getter starts with. */
  method FindNode(cache: Cache, key: string, kind: Kind) returns (n: Option<Node>)
    ensures n == KeyCache(cache.nodes, key, kind)
  {
    var cur := 0;
    while cur < |cache.nodes|
      invariant cur <= |cache.nodes|
      invariant Lookup(cache.nodes, key) == Lookup(cache.nodes[cur..], key)
    {
      if cache.nodes[cur].key == key {
        if cache.nodes[cur].kind != kind {
          return None;
        }
        return Some(cache.nodes[cur]);
      }
      assert cache.nodes[cur..][1..] == cache.nodes[cur + 1..];
      cur := cur + 1;
    }
    n := None;
  }

  /** k2v3_get_char_array, filling the caller's array. */
  method CharArray(key: string, cache: Cache, dest: array<string>, limit: nat) returns (count: nat, warned: bool)
    requires limit <= dest.Length
    modifies dest
    ensures count <= limit && Got(dest[..count], warned) == ArrayOf(cache.nodes, key, limit)
    ensures dest[count..] == old(dest[count..])
  {
    count := 0;
    assert dest[..0] == [];
    var node := FindNode(cache, key, Array);
    if node.None? {
      return 0, true;
    }
    if !node.value.payload.List? {
      return 0, false;
    }
    var elems := node.value.payload.elems;
    if |elems| > limit {
      return 0, true;
    }
    for i := 0 to |elems|
      invariant count == i && dest[..i] == elems[..i]
      invariant dest[i..] == old(dest[i..])
    {
      dest[count] := elems[i];
      count := count + 1;
    }
    assert dest[..count] == elems;
    warned := false;
  }

  /** k2v3_get_int_array, filling the caller's array. */
  method IntArray(key: string, cache: Cache, dest: array<int>, limit: nat) returns (count: nat, warned: bool)
    requires limit <= dest.Length
    modifies dest
    ensures count <= limit && Got(dest[..count], warned) == GetIntArray(cache.nodes, key, limit)
    ensures dest[count..] == old(dest[count..])
  {
    count := 0;
    assert dest[..0] == [];
    var node := FindNode(cache, key, Array);
    if node.None? {
      return 0, true;
    }
    if !node.value.payload.List? {
      return 0, false;
    }
    var elems := node.value.payload.elems;
    if |elems| > limit {
      return 0, true;
    }
    warned := false;
    for i := 0 to |elems|
      invariant count == i
      invariant forall k | 0 <= k < i :: dest[k] == ElementInt(elems[k]).value
      invariant warned <==> exists k :: 0 <= k < i && ElementInt(elems[k]).warned
      invariant dest[i..] == old(dest[i..])
    {
      var e := ElementInt(elems[i]);
      warned := warned || e.warned;
      dest[count] := e.value;
      count := count + 1;
    }
    assert dest[..count] == GetIntArray(cache.nodes, key, limit).value;
  }
}
