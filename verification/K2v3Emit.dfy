/**
 The k2v3 emitters (src/k2v3.c:1005-1284): comments, blank lines and `key=value` lines.
 Nothing is escaped on the way out.
 */
module K2v3Emit {
  import opened Text
  import opened Number

  /** The value handed to one of the *_to_k2v3 emitters. */
  datatype Written =
    | OfChar(val: Option<string>)
    | OfInt(n: int)
    | OfLong(l: int)
    | OfBool(b: bool)
    | OfChars(vals: seq<string>)
    | OfInts(ns: seq<int>)

  /** One call of k2v3_add_comment, k2v3_add_newline or k2v3_add_config. */
  datatype Item = Comment(text: string) | Newline | Config(key: string, written: Written)

  function Quoted(s: string): string {
    "\"" + s + "\""
  }

  /** The elements in quotes, separated by commas. */
  function Join(vals: seq<string>): string {
    if vals == [] then ""
    else if |vals| == 1 then Quoted(vals[0])
    else Quoted(vals[0]) + "," + Join(vals[1..])
  }

  predicate IsScalar(w: Written) {
    !w.OfChars? && !w.OfInts?
  }

  /** The text a scalar emitter puts between the quotes. */
  function ScalarText(w: Written): string
    requires IsScalar(w)
  {
    match w
    case OfChar(val) => if val.Some? then val.value else ""
    case OfInt(n) => Dec(n)
    case OfLong(l) => Dec(l)
    case OfBool(b) => if b then "true" else "false"
  }

  /** The texts an array emitter puts between quotes. */
  function ElementTexts(w: Written): seq<string>
    requires !IsScalar(w)
  {
    match w
    case OfChars(vals) => vals
    case OfInts(ns) => seq(|ns|, i requires 0 <= i < |ns| => Dec(ns[i]))
  }

  /** What follows the `=`. */
  function Rhs(w: Written): string {
    if IsScalar(w) then Quoted(ScalarText(w)) else "[" + Join(ElementTexts(w)) + "]"
  }

  function Print(item: Item): string {
    match item
    case Comment(text) => "# " + text + "\n"
    case Newline => "\n"
    case Config(key, w) => key + "=" + Rhs(w) + "\n"
  }

  /** The buffer after a series of calls that each append to it. */
  function PrintAll(items: seq<Item>): string {
    if items == [] then "" else Print(items[0]) + PrintAll(items[1..])
  }

  /** Joining is one element at a time from either end. */
  lemma {:induction false} JoinSnoc(vals: seq<string>, v: string)
    ensures Join(vals + [v]) == if vals == [] then Quoted(v) else Join(vals) + "," + Quoted(v)
  {
    if vals == [] {
      assert vals + [v] == [v];
    } else {
      var rest := vals[1..];
      assert (vals + [v])[1..] == rest + [v];
      JoinSnoc(rest, v);
      if rest != [] {
        assert Quoted(vals[0]) + "," + (Join(rest) + "," + Quoted(v)) == Quoted(vals[0]) + "," + Join(rest) + ","
                + Quoted(v);
      }
    }
  }

  /** char_array_to_k2v3. */
  method CharArrayToK2v3(key: string, vals: seq<string>) returns (buf: string)
    ensures buf == Print(Config(key, OfChars(vals)))
  {
    hide Join;
    JoinEnds();
    if |vals| == 0 {
      return key + "=[]\n";
    }
    var start := key + "=[";
    buf := start;
    ghost var joined := "";
    for i := 0 to |vals|
      invariant buf == start + joined
      invariant joined == if i == 0 then "" else if i == |vals| then Join(vals[..i]) else Join(vals[..i]) + ","
    {
      JoinNext(vals, i, joined);
      buf := buf + ("\"" + vals[i] + "\"");
      joined := joined + Quoted(vals[i]);
      if i != |vals| - 1 {
        buf := buf + ",";
        joined := joined + ",";
      }
    }
    assert vals[..|vals|] == vals;
    buf := buf + "]" + "\n";
  }

  /** One more printed element, and the comma unless it was the last. */
  lemma JoinNext(vals: seq<string>, i: nat, joined: string)
    requires i < |vals|
    requires joined == if i == 0 then "" else Join(vals[..i]) + ","
    ensures Join(vals[..i + 1]) == joined + Quoted(vals[i])
  {
    JoinSnoc(vals[..i], vals[i]);
    assert vals[..i + 1] == vals[..i] + [vals[i]];
  }

  lemma JoinEnds()
    ensures Join([]) == ""
  {
  }

  lemma IntTexts(ns: seq<int>)
    ensures var vals := ElementTexts(OfInts(ns));
            |vals| == |ns| && (ns == [] ==> vals == []) && forall i | 0 <= i < |ns| :: vals[i] == Dec(ns[i])
  {
  }

  lemma QuotedIs(v: string)
    ensures Quoted(v) == "\"" + v + "\""
  {
  }

  lemma IntsPrinted(key: string, ns: seq<int>)
    ensures Print(Config(key, OfInts(ns))) == key + "=[" + Join(ElementTexts(OfInts(ns))) + "]" + "\n"
  {
    hide Join, ElementTexts;
    var j := Join(ElementTexts(OfInts(ns)));
    assert key + "=" + ("[" + j + "]") + "\n" == key + "=[" + j + "]" + "\n";
  }

  /** int_array_to_k2v3. */
  method IntArrayToK2v3(key: string, ns: seq<int>) returns (buf: string)
    ensures buf == Print(Config(key, OfInts(ns)))
  {
    hide Join, Dec, ElementTexts, Quoted, Print;
    JoinEnds();
    IntTexts(ns);
    ghost var vals := ElementTexts(OfInts(ns));
    IntsPrinted(key, ns);
    if |ns| == 0 {
      assert key + "=[" + "" + "]" + "\n" == key + "=[]\n";
      return key + "=[]\n";
    }
    var start := key + "=[";
    buf := start;
    ghost var joined := "";
    for i := 0 to |ns|
      invariant buf == start + joined
      invariant joined == if i == 0 then "" else if i == |ns| then Join(vals[..i]) else Join(vals[..i]) + ","
    {
      JoinNext(vals, i, joined);
      QuotedIs(vals[i]);
      buf := buf + ("\"" + Dec(ns[i]) + "\"");
      joined := joined + Quoted(vals[i]);
      if i != |ns| - 1 {
        buf := buf + ",";
        joined := joined + ",";
      }
    }
    assert vals[..|ns|] == vals;
    buf := buf + "]" + "\n";
  }
}
