/**
 Keys and values of a k2v3 text (src/k2v3.c): what get_key and get_value return.

 Text is a `string` without its terminating NUL.  Warnings are lenient (the parser
 goes on); `warned` records that there was one, which is where the strict mode exits.
 */
module K2v3 {
  import opened Text
  import opened Escape

  datatype Kind = Scalar | Array

  /** scalar_val / array_val: at most one of the two pointers is not NULL. */
  datatype Payload = Null | Text(s: string) | List(elems: seq<string>)

  /** struct K2V3_VALUE, and whether get_value warned. */
  datatype Value = Value(kind: Kind, payload: Payload, empty: bool, jmp: nat, warned: bool)

  /** One struct K2V3_BUF of the cache. */
  datatype Node = Node(key: string, kind: Kind, payload: Payload, empty: bool)

  // ----- keys -----

  predicate KeyChar(c: char) {
    '0' <= c <= '9' || 'a' <= c <= 'z' || 'A' <= c <= 'Z' || c == '_'
  }

  predicate IsKey(k: string) {
    k != "" && forall i | 0 <= i < |k| :: KeyChar(k[i])
  }

  /** The text starts with a key of length `n` and its `=`. */
  predicate KeyAt(s: string, n: nat) {
    n < |s| && s[n] == '=' && IsKey(s[..n])
  }

  /** How many key characters follow from `i` on. */
  function KeySpan(s: string, i: nat): (n: nat)
    requires i <= |s|
    ensures i <= n <= |s|
    ensures n < |s| ==> !KeyChar(s[n])
    ensures forall j | i <= j < n :: KeyChar(s[j])
    decreases |s| - i
  {
    if i < |s| && KeyChar(s[i]) then KeySpan(s, i + 1) else i
  }

  /** A text starts with at most one key: all its leading key characters. */
  lemma KeyIsSpan(s: string, n: nat)
    requires KeyAt(s, n)
    ensures n == KeySpan(s, 0)
  {
    var m := KeySpan(s, 0);
    assert s[n] == '=' && !KeyChar('=');
    assert forall j | 0 <= j < n :: s[..n][j] == s[j];
  }

  // ----- values -----

  /** Past the first newline, or the end of the text. */
  function SkipLine(s: string): (r: nat)
    ensures r <= |s|
    ensures s != "" ==> 0 < r
  {
    var nl := Find(s, '\n', 0);
    if nl < |s| then nl + 1 else |s|
  }

  /** The recovery that every malformed value ends in: an empty scalar, and on to the next line. */
  function Recover(s: string): Value {
    Value(Scalar, Null, true, SkipLine(s), true)
  }

  const BLANKS := {' ', '\n'}

  /** The `end:` label: trailing spaces, a comment, and then the line has to be over. */
  function EndOfValue(s: string, v: Value): (r: Value)
    requires 0 < v.jmp <= |s| && s[0] != '\n'
    ensures 0 < r.jmp <= |s|
  {
    var j := SkipAll(s, {' '}, v.jmp, |s|);
    var e := if j < |s| && s[j] == '#' then Find(s, '\n', 0) else j;
    if e < |s| && s[e] != '\n' then Recover(s) else v.(jmp := e)
  }

  /** The text `v` in quotes at position `j`. */
  ghost predicate QuotedAt(s: string, j: nat, v: string) {
    j + |v| + 2 <= |s| && s[j] == '"' && s[j + 1..j + 1 + |v|] == v && s[j + 1 + |v|] == '"'
  }

  /** One turn of the element loop: an element and where the next turn starts, or why the array is refused. */
  datatype Turn = Turn(elem: string, next: nat) | Refused(trailing: bool)

  /** The turn that starts at conf.str[j], where conf.str[i] is the closing bracket. */
  function TurnAt(s: string, j: nat, i: nat): (t: Turn)
    requires j < i < |s| && s[i] == ']'
    ensures t.Turn? ==> j < t.next <= i
  {
    var q := SkipAll(s, BLANKS, j, i);
    if s[q] != '"' then Refused(false) else
    var k := FirstBare(s, '"', q + 1, q + 1);
    if k >= i || k == q + 1 then Refused(false) else
    AfterElement(s, s[q + 1..k], k + 1, i)
  }

  /** An element was read up to `from`: one separator with blanks around it, or the closing bracket. */
  function AfterElement(s: string, elem: string, from: nat, i: nat): (t: Turn)
    requires from <= i < |s| && s[i] == ']'
    ensures t.Turn? ==> from <= t.next <= i && t.elem == elem
  {
    var e := SkipAll(s, BLANKS, from, i);
    if s[e] == ',' || s[e] == ';' then
      var n := SkipAll(s, BLANKS, e + 1, i);
      if n == i then Refused(true) else Turn(elem, n)
    else if e < i then Refused(false)
    else Turn(elem, e)
  }

  /** What the element loop makes of conf.str[j..i]. */
  datatype Elements = Elements(elems: seq<string>) | BadElements(trailing: bool)

  function ReadElements(s: string, j: nat, i: nat): Elements
    requires j <= i < |s| && s[i] == ']'
    decreases i - j
  {
    if j == i then Elements([]) else
    var t := TurnAt(s, j, i);
    if t.Refused? then BadElements(t.trailing) else Prepend([t.elem], ReadElements(s, t.next, i))
  }

  /** Elements already read, put in front of what the rest of the loop makes. */
  function Prepend(done: seq<string>, r: Elements): Elements {
    if r.Elements? then Elements(done + r.elems) else r
  }

  function ScalarValue(s: string): (r: Value)
    requires s != "" && s[0] == '"'
    ensures 0 < r.jmp <= |s|
  {
    var i := FirstBare(s, '"', 1, 1);
    if i >= Find(s, '\n', 0) then Recover(s)
    else EndOfValue(s, Value(Scalar, Text(s[1..i]), false, i + 1, false))
  }

  function ArrayValue(s: string): (r: Value)
    requires s != "" && s[0] == '['
    ensures 0 < r.jmp <= |s|
  {
    var i := FirstBare(s, ']', 1, 1);
    if i == |s| then Recover(s) else
    match ReadElements(s, 1, i)
    case Elements(es) => EndOfValue(s, Value(Array, List(es), false, i + 1, false))
    case BadElements(trailing) => if trailing then EndOfValue(s, Value(Scalar, Null, true, i + 1, true)) else Recover(s)
  }

  /** What get_value returns.  A step never stays in place and never leaves the text. */
  function ValueOf(s: string): (r: Value)
    requires s != ""
    ensures 0 < r.jmp <= |s|
  {
    if |s| >= 2 && s[0] == '"' && s[1] == '"' then EndOfValue(s, Value(Scalar, Null, true, 2, false))
    else if s[0] == '[' && (var p := SkipAll(s, BLANKS, 1, |s|); p < |s| && s[p] == ']') then
      EndOfValue(s, Value(Array, Null, true, SkipAll(s, BLANKS, 1, |s|) + 1, false))
    else if s[0] == '"' then ScalarValue(s)
    else if s[0] == '[' then ArrayValue(s)
    else Recover(s)
  }
}
