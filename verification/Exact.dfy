/**
 The emitters do not escape, so a line is read back as it was written only for some
 values.  These are exactly the canonical ones.
 */
module Exact {
  import opened Text
  import opened Escape
  import opened K2v3
  import opened K2v3Parse
  import opened K2v3Emit
  import opened K2v3Laws
  import opened RoundTrip

  /** The parser reads this one printed line back without a warning. */
  ghost predicate Survives(key: string, w: Written) {
    var line := Print(Config(key, w));
    !ParseWarns(line) && ParsedCache(line) == [NodeFor(key, w)]
  }

  lemma OneLine(key: string, w: Written)
    ensures PrintAll([Config(key, w)]) == Print(Config(key, w))
    ensures NodesOf([Config(key, w)]) == [NodeFor(key, w)]
  {
    assert [Config(key, w)][1..] == [];
    assert Print(Config(key, w)) + "" == Print(Config(key, w));
    assert [NodeFor(key, w)] + [] == [NodeFor(key, w)];
  }

  lemma CanonicalSurvives(key: string, w: Written)
    requires CanonicalItem(Config(key, w))
    ensures Survives(key, w)
  {
    OneLine(key, w);
    DocumentRoundTrip([Config(key, w)]);
  }

  /** What the parser makes of the right-hand side of a line that survives. */
  lemma SurvivorValue(key: string, w: Written)
    requires IsKey(key) && Survives(key, w)
    ensures var v := ValueOf(Rhs(w) + "\n");
            !v.warned && UnescapePayload(NodeOf(key, v).payload) == NodeFor(key, w).payload
  {
    hide ValueOf, Rhs, FirstWins, NodeFor;
    var line, conf := Print(Config(key, w)), Rhs(w) + "\n";
    assert line == key + "=" + conf;
    KeyReadBack(key, conf);
    NewlineIsNotBare(line);
    var es := Entries(line).nodes;
    DistinctAllWin(es);
    assert |es| == 1;
    assert es[0] == NodeOf(key, ValueOf(conf));
  }

  // ----- scalars -----

  lemma SurvivorScalar(v: string)
    requires v != "" && !ValueOf(Quoted(v) + "\n").warned
    requires var p := ValueOf(Quoted(v) + "\n").payload; p.Text? && |p.s| >= |v|
    ensures RawScalar(v) && ValueOf(Quoted(v) + "\n").payload == Text(v)
  {
    var s := Quoted(v) + "\n";
    assert s[|v| + 2] == '\n' && s[1..|v| + 1] == v;
    var i := FirstBare(s, '"', 1, 1);
    assert i == |v| + 1;
    FirstBareLeast(s, '"', 1, 1);
    assert forall j | 0 <= j < |v| :: v[j] == s[j + 1] && v[..j] == s[1..j + 1];
  }

  /** A scalar is read back as written exactly when it is canonical. */
  lemma ScalarExact(key: string, v: string)
    requires IsKey(key)
    ensures Survives(key, OfChar(Some(v))) <==> CanonicalScalar(v)
  {
    var w := OfChar(Some(v));
    if CanonicalScalar(v) {
      CanonicalSurvives(key, w);
    }
    if Survives(key, w) && v != "" {
      SurvivorValue(key, w);
      SurvivorScalar(v);
      ScalarReadBack(v, "");
      UnescapeFixed(v);
    }
  }

  // ----- arrays -----

  lemma EmptyIsPaired()
    ensures !Escaped("")
  {
  }

  /** What the pass does with that front. */
  lemma UnescapeFront(a: string)
    requires a != "" && (a[0] == '\\' ==> |a| > 1)
    ensures var n := if a[0] == '\\' then 2 else 1;
            Unescape(a) == (if n == 2 && a[1] !in KEPT then a[1..2] else a[..n]) + Unescape(a[n..])
  {
  }

  /** The unescape pass works piece by piece where no backslash is pending. */
  lemma {:induction false} UnescapeAppend(a: string, b: string)
    requires !Escaped(a)
    ensures Unescape(a + b) == Unescape(a) + Unescape(b)
    decreases |a|
  {
    hide Unescape, Escaped;
    UnescapeEmpty();
    EmptyIsPaired();
    if a == "" {
      assert a + b == b;
    } else {
      var n := if a[0] == '\\' then 2 else 1;
      FrontIsPaired(a);
      assert a == a[..n] + a[n..];
      EscapedAppend(a[..n], a[n..]);
      UnescapeAppend(a[n..], b);
      UnescapeFront(a);
      assert (a + b)[n..] == a[n..] + b;
      assert (a + b)[0] == a[0] && (n == 2 ==> (a + b)[1] == a[1]);
      UnescapeFront(a + b);
    }
  }

  /** A closing quote that was taken for an escaped one ends up in the element, with a comma behind it. */
  lemma SwallowedQuote(v: string)
    requires Escaped(v)
    ensures Unescape(v + "\",") != v
  {
    var n := |v| - 1;
    assert v == v[..n] + "\\";
    var pair := "\\\"";
    assert v + "\"," == v[..n] + pair + ",";
    assert pair[..1] == "\\" && pair[..1][..0] == "";
    EscapedAppend(v[..n], pair);
    UnescapeAppend(v[..n] + pair, ",");
    assert Unescape(",") == "," + Unescape("");
  }

  /** The scan of an element of a printed array, when what it yields unescapes to `v`. */
  lemma SurvivorElement(s: string, j: nat, v: string, last: bool)
    requires j + |v| + 3 < |s| && s[j..j + |v| + 2] == Quoted(v)
    requires if last then s[j + |v| + 2..] == "]\n" else s[j + |v| + 2] == ',' && s[j + |v| + 3] == '"'
    requires var k := FirstBare(s, '"', j + 1, j + 1); k < |s| && Unescape(s[j + 1..k]) == v
    ensures FirstBare(s, '"', j + 1, j + 1) == j + |v| + 1 && s[j + 1..j + |v| + 1] == v
    ensures NoBare(v, '"') && !Escaped(v) && Stable(v)
  {
    hide Unescape, Stable, FirstBare;
    var from, k := j + 1, FirstBare(s, '"', j + 1, j + 1);
    var end := from + |v|;
    QuotedSlice(s, j, v);
    FirstBareLeast(s, '"', from, from);
    assert k >= end;
    if Escaped(v) {
      assert k > end;
      assert s[from..end + 1] == v + "\"";
      EscapedPair(v);
      if !last {
        SwallowsComma(s, from, v);
        SwallowedQuote(v);
      }
      assert false;
    }
    assert s[from..end] == v;
    assert k == end;
    forall p | 0 <= p < |v| && v[p] == '"' ensures Escaped(v[..p]) {
      assert v[..p] == s[from..from + p] && s[from + p] == '"';
    }
    UnescapeFixed(v);
  }

  lemma EscapedPair(v: string)
    requires Escaped(v)
    ensures !Escaped(v + "\"")
  {
  }

  lemma SwallowsComma(s: string, from: nat, v: string)
    requires from + |v| + 2 < |s| && s[from..from + |v|] == v && s[from + |v|] == '"'
    requires s[from + |v| + 1] == ',' && s[from + |v| + 2] == '"'
    requires FirstBare(s, '"', from, from) > from + |v|
    ensures s[from..FirstBare(s, '"', from, from)] == v + "\","
  {
    var k, p := FirstBare(s, '"', from, from), from + |v|;
    assert s[from..p + 2] == v + "\",";
    FirstBareLeast(s, '"', from, from);
    assert !Escaped(s[from..p + 2]);
    assert k <= p + 2;
    assert k != p + 1;
  }

  /** No `]` in an element: a bare one would have ended the array, and an escaped one loses its backslash. */
  lemma NoBracketInside(s: string, j: nat, v: string, i: nat)
    requires 1 <= j && j + |v| + 1 < i <= |s| && i == FirstBare(s, ']', 1, 1)
    requires s[j + 1..j + 1 + |v|] == v && !Escaped(s[1..j + 1]) && Stable(v)
    ensures ']' !in v
  {
    FirstBareLeast(s, ']', 1, 1);
    forall p | 0 <= p < |v| ensures v[p] == ']' ==> Escaped(v[..p]) {
      assert s[1..j + 1 + p] == s[1..j + 1] + v[..p];
      EscapedAppend(s[1..j + 1], v[..p]);
      assert s[j + 1 + p] == v[p];
    }
    forall p | 0 < p < |v| ensures Escaped(v[..p]) ==> v[p] in KEPT {
      assert v[..p][..p - 1] == v[..p - 1];
    }
  }

  /** A printed array starts with its first element. */
  lemma FrontOfJoin(t: string, vals: seq<string>)
    requires vals != [] && t == Join(vals) + "]\n"
    ensures var n := |vals[0]| + 2;
            && n + 1 < |t| && t[0] == '"' && t[..n] == Quoted(vals[0])
            && (if |vals| == 1 then t[n..] == "]\n" else t[n] == ',' && t[n + 1] == '"')
  {
    if |vals| > 1 {
      JoinShape(vals[1..]);
    }
  }

  lemma FirstOfJoin(s: string, j: nat, vals: seq<string>)
    requires vals != [] && j <= |s| && s[j..] == Join(vals) + "]\n"
    ensures var v := vals[0];
            && j + |v| + 3 < |s| && s[j] == '"' && s[j..j + |v| + 2] == Quoted(v)
            && (if |vals| == 1 then s[j + |v| + 2..] == "]\n" else s[j + |v| + 2] == ',' && s[j + |v| + 3] == '"')
  {
    hide Join, Quoted;
    var n, tail := |vals[0]| + 2, s[j..];
    FrontOfJoin(tail, vals);
    assert s[j..j + n] == tail[..n] && s[j + n..] == tail[n..];
    assert s[j] == tail[0] && s[j + n] == tail[n] && s[j + n + 1] == tail[n + 1];
  }

  lemma RestOfJoin(s: string, j: nat, vals: seq<string>)
    requires |vals| > 1 && j <= |s| && s[j..] == Join(vals) + "]\n"
    ensures var next := j + |vals[0]| + 3; next <= |s| && s[next..] == Join(vals[1..]) + "]\n"
  {
    var tail, n := s[j..], |vals[0]| + 3;
    assert s[j + n..] == tail[n..];
  }

  lemma TurnBounds(s: string, j: nat, i: nat)
    requires j < i < |s| && s[i] == ']' && s[j] == '"' && TurnAt(s, j, i).Turn?
    ensures var k := FirstBare(s, '"', j + 1, j + 1); j + 1 < k < i && TurnAt(s, j, i).elem == s[j + 1..k]
  {
  }

  /** The turn that read the first element of a printed array. */
  lemma SurvivorTurn(s: string, j: nat, vals: seq<string>, i: nat)
    requires 1 <= j < i < |s| && i == FirstBare(s, ']', 1, 1) && !Escaped(s[1..j])
    requires vals != [] && s[j..] == Join(vals) + "]\n"
    requires var t := TurnAt(s, j, i); t.Turn? && Unescape(t.elem) == vals[0]
    ensures CanonicalElement(vals[0])
    ensures |vals| > 1 ==> TurnAt(s, j, i).next == j + |vals[0]| + 3
  {
    hide FirstBare, NoBare, Stable, Escaped, Unescape, Join, TurnAt;
    var v, last := vals[0], |vals| == 1;
    FirstOfJoin(s, j, vals);
    TurnBounds(s, j, i);
    SurvivorElement(s, j, v, last);
    QuoteIsNotEscape(s, j + 1);
    NoBracketInside(s, j, v, i);
    assert CanonicalElement(v);
    if !last {
      assert s[i] == ']' && i > j + |v| + 1;
      assert i != j + |v| + 2 && i != j + |v| + 3;
      QuotedSlice(s, j, v);
      TurnReadBack(s, j, v, i);
    }
  }

  lemma {:induction false} SurvivorElements(s: string, j: nat, vals: seq<string>, i: nat)
    requires 1 <= j < i < |s| && i == FirstBare(s, ']', 1, 1) && !Escaped(s[1..j])
    requires vals != [] && s[j..] == Join(vals) + "]\n"
    requires var r := ReadElements(s, j, i);
             r.Elements? && UnescapePayload(List(r.elems)) == List(vals)
    ensures forall e | e in vals :: CanonicalElement(e)
    decreases |vals|
  {
    hide TurnAt, CanonicalElement, Unescape, Escaped, FirstBare, Join;
    var r, t := ReadElements(s, j, i), TurnAt(s, j, i);
    assert r.elems[0] == t.elem && r.elems[1..] == ReadElements(s, t.next, i).elems;
    SurvivorTurn(s, j, vals, i);
    assert vals == [vals[0]] + vals[1..];
    if |vals| > 1 {
      FirstOfJoin(s, j, vals);
      RestOfJoin(s, j, vals);
      QuoteIsNotEscape(s, t.next);
      assert UnescapePayload(List(r.elems[1..])) == List(vals[1..]);
      SurvivorElements(s, t.next, vals[1..], i);
    }
  }

  /** Nothing is pending right after a character that is not a backslash. */
  lemma QuoteIsNotEscape(s: string, k: nat)
    requires 1 < k <= |s| && s[k - 1] != '\\'
    ensures !Escaped(s[1..k])
  {
  }

  lemma SurvivorArray(vals: seq<string>)
    requires vals != []
    requires var v := ValueOf("[" + Join(vals) + "]\n");
             !v.warned && UnescapePayload(v.payload) == List(vals)
    ensures forall e | e in vals :: CanonicalElement(e)
  {
    hide Join, ReadElements, FirstBare, CanonicalElement, Unescape;
    var s := "[" + Join(vals) + "]\n";
    JoinShape(vals);
    assert s[1..] == Join(vals) + "]\n" && s[1] == '"';
    var i := FirstBare(s, ']', 1, 1);
    assert i < |s|;
    assert s[1..1] == "";
    assert i != 1;
    SurvivorElements(s, 1, vals, i);
  }

  /** An array is read back as written exactly when all its elements are canonical. */
  lemma ArrayExact(key: string, vals: seq<string>)
    requires IsKey(key)
    ensures Survives(key, OfChars(vals)) <==> forall e | e in vals :: CanonicalElement(e)
  {
    hide ValueOf, CanonicalElement;
    var w := OfChars(vals);
    if forall e | e in vals :: CanonicalElement(e) {
      CanonicalSurvives(key, w);
    }
    if Survives(key, w) && vals != [] {
      SurvivorValue(key, w);
      assert Rhs(w) + "\n" == "[" + Join(vals) + "]\n";
      SurvivorArray(vals);
    }
  }
}
