/**
 When the k2v3 parser warns, which is where the strict mode exits (src/k2v3.c:168-682): what
 get_value makes of any text, and which lines and which texts are accepted as a whole.
 */
module K2v3Warns {
  import opened Text
  import opened Escape
  import opened K2v3
  import opened K2v3Parse
  import opened K2v3Lines
  import opened K2v3Laws
  import opened K2v3Arrays
  import opened K2v3Local

  // ----- values -----

  /** Two quotes and nothing else on the line. */
  ghost predicate EmptyScalarAt(s: string) {
    |s| >= 2 && s[0] == '"' && s[1] == '"' && LineIsOver(s, 2)
  }

  /** Brackets with blanks between them and nothing else on the line. */
  ghost predicate EmptyArrayAt(s: string, i: nat) {
    && 1 <= i < |s| && s[0] == '[' && s[i] == ']' && LineIsOver(s, i + 1)
    && forall k | 1 <= k < i :: s[k] == ' ' || s[k] == '\n'
  }

  ghost predicate GoodValue(s: string) {
    || EmptyScalarAt(s) || (exists i: nat :: EmptyArrayAt(s, i))
    || (exists v: string :: ScalarAt(s, v)) || exists i: nat, vals: seq<string> :: ArrayAt(s, i, vals)
  }

  /** From `j` on there are elements, a separator at `e`, and only blanks between that and `i`. */
  ghost predicate TrailFrom(s: string, j: nat, i: nat, e: nat, vals: seq<string>)
    requires i <= |s|
  {
    && j <= e < i && ElementsAt(s, j, e, vals) && (s[e] == ',' || s[e] == ';')
    && forall k | e < k < i :: s[k] in BLANKS
  }

  /** An array that ends in a separator, with its bracket at `i` and nothing else on the line. */
  ghost predicate TrailingAt(s: string, i: nat) {
    && 1 < i < |s| && s[0] == '[' && s[i] == ']' && NoBare(s[1..i], ']') && LineIsOver(s, i + 1)
    && exists e: nat, vals: seq<string> :: TrailFrom(s, 1, i, e, vals)
  }

  /** A stretch of blanks that ends before two bounds ends at the same place for both. */
  lemma SkipBound(s: string, j: nat, e: nat, i: nat)
    requires j <= e <= i <= |s|
    ensures SkipAll(s, BLANKS, j, e) < e ==> SkipAll(s, BLANKS, j, i) == SkipAll(s, BLANKS, j, e)
    ensures SkipAll(s, BLANKS, j, i) <= e ==> SkipAll(s, BLANKS, j, e) == SkipAll(s, BLANKS, j, i)
    ensures e < i && s[e] !in BLANKS && SkipAll(s, BLANKS, j, e) == e ==> SkipAll(s, BLANKS, j, i) == e
  {
    var q := SkipAll(s, BLANKS, j, e);
    if q < e || (e < i && s[e] !in BLANKS) {
      SkipTo(s, BLANKS, j, q, i);
    }
    var r := SkipAll(s, BLANKS, j, i);
    if r <= e {
      SkipTo(s, BLANKS, j, r, e);
    }
  }

  /** A first element with more behind it is one within either bound. */
  lemma HeadBound(s: string, j: nat, e: nat, i: nat, v: string, next: nat)
    requires j <= e <= i <= |s| && next < e
    ensures HeadAt(s, j, e, v, next) <==> HeadAt(s, j, i, v, next)
  {
    hide SkipAll, RawText, QuotedAt;
    SkipBound(s, j, e, i);
    if HeadAt(s, j, e, v, next) {
      var close := SkipAll(s, BLANKS, j, e) + |v| + 2;
      SkipBound(s, close, e, i);
      SkipBound(s, SkipAll(s, BLANKS, close, e) + 1, e, i);
    }
    if HeadAt(s, j, i, v, next) {
      var close := SkipAll(s, BLANKS, j, i) + |v| + 2;
      SkipBound(s, SkipAll(s, BLANKS, close, i) + 1, e, i);
      SkipBound(s, close, e, i);
    }
  }

  /** The last element before a separator with nothing behind it, within either bound. */
  lemma LastHead(s: string, j: nat, i: nat, e: nat, v: string)
    requires j <= e < i < |s| && s[i] == ']' && (s[e] == ',' || s[e] == ';')
    ensures ElementsAt(s, j, e, [v]) && (forall k | e < k < i :: s[k] in BLANKS) ==> TurnAt(s, j, i) == Refused(true)
  {
    hide SkipAll, RawText, QuotedAt, FirstBare, AfterElement;
    if ElementsAt(s, j, e, [v]) && (forall k | e < k < i :: s[k] in BLANKS) {
      var q := SkipAll(s, BLANKS, j, e);
      var close := q + |v| + 2;
      SkipBound(s, j, e, i);
      SkipBound(s, close, e, i);
      QuoteCloses(s, q, v);
      SkipTo(s, BLANKS, e + 1, i, i);
      QuoteThere(s, q, v);
      TurnIs(s, j, i, q, close - 1);
      TrailingTurn(s, v, close, i, e);
    }
  }

  lemma QuoteThere(s: string, q: nat, v: string)
    requires QuotedAt(s, q, v) && RawText(v)
    ensures q + |v| + 1 < |s| && s[q] == '"' && s[q + 1..q + |v| + 1] == v && v != ""
  {
  }

  lemma TrailingTurn(s: string, v: string, from: nat, i: nat, e: nat)
    requires from <= e < i < |s| && s[i] == ']' && (s[e] == ',' || s[e] == ';')
    requires SkipAll(s, BLANKS, from, i) == e && SkipAll(s, BLANKS, e + 1, i) == i
    ensures AfterElement(s, v, from, i) == Refused(true)
  {
    hide SkipAll;
  }

  /** What a turn that finds nothing behind a separator has read. */
  lemma HeadOfTrailing(s: string, j: nat, i: nat) returns (e: nat, v: string)
    requires j < i < |s| && s[i] == ']' && TurnAt(s, j, i) == Refused(true)
    ensures TrailFrom(s, j, i, e, [v])
  {
    hide SkipAll, RawText, Escaped;
    var q := SkipAll(s, BLANKS, j, i);
    var k := FirstBare(s, '"', q + 1, q + 1);
    v := s[q + 1..k];
    SliceIsRaw(s, q + 1, k);
    e := SkipAll(s, BLANKS, k + 1, i);
    SkipBound(s, j, e, i);
    SkipBound(s, k + 1, e, i);
    assert |v| == k - q - 1;
    BlanksUpTo(s, e + 1, i);
  }

  lemma BlanksUpTo(s: string, j: nat, i: nat)
    requires j <= i <= |s| && SkipAll(s, BLANKS, j, i) == i
    ensures forall k | j <= k < i :: s[k] in BLANKS
  {
  }

  lemma {:induction false} TrailingIsRefused(s: string, j: nat, i: nat, e: nat, vals: seq<string>)
    requires j < i < |s| && s[i] == ']' && TrailFrom(s, j, i, e, vals)
    ensures ReadElements(s, j, i) == BadElements(true)
    decreases |vals|
  {
    hide TurnAt, HeadAt, ElementsAt, SkipAll;
    NotNone(s, j, e, vals);
    if |vals| == 1 {
      assert vals == [vals[0]];
      LastHead(s, j, i, e, vals[0]);
    } else {
      var next := HeadOfElements(s, j, e, vals);
      assert vals == [vals[0]] + vals[1..];
      ElementsFromHead(s, j, e, vals[0], next, vals[1..]);
      HeadBound(s, j, e, i, vals[0], next);
      TurnOfHead(s, j, i, vals[0], next);
      TrailingIsRefused(s, next, i, e, vals[1..]);
    }
  }

  lemma {:induction false} RefusedIsTrailing(s: string, j: nat, i: nat) returns (e: nat, vals: seq<string>)
    requires j < i < |s| && s[i] == ']' && ReadElements(s, j, i) == BadElements(true)
    ensures TrailFrom(s, j, i, e, vals)
    decreases i - j
  {
    hide TurnAt, HeadAt, ElementsAt, SkipAll;
    var t := TurnAt(s, j, i);
    if t.Refused? {
      var v;
      e, v := HeadOfTrailing(s, j, i);
      vals := [v];
    } else {
      HeadOfTurn(s, j, i);
      var rest;
      e, rest := RefusedIsTrailing(s, t.next, i);
      ElementsStart(s, t.next, e, rest);
      HeadBound(s, j, e, i, t.elem, t.next);
      ElementsFromHead(s, j, e, t.elem, t.next, rest);
      vals := [t.elem] + rest;
    }
  }

  /** The element loop stops at a separator without an element exactly when there is one. */
  lemma TrailingExactly(s: string, j: nat, i: nat)
    requires j < i < |s| && s[i] == ']'
    ensures ReadElements(s, j, i) == BadElements(true) <==>
            exists e: nat, vals: seq<string> :: TrailFrom(s, j, i, e, vals)
  {
    hide ReadElements, TrailFrom;
    if ReadElements(s, j, i) == BadElements(true) {
      var e, vals := RefusedIsTrailing(s, j, i);
    }
    if e: nat, vals: seq<string> :| TrailFrom(s, j, i, e, vals) {
      TrailingIsRefused(s, j, i, e, vals);
    }
  }

  /** Right behind the first newline, or at the end of a text without one. */
  ghost predicate BehindFirstLine(s: string, jmp: nat) {
    jmp <= |s| && if jmp > 0 && s[jmp - 1] == '\n' then '\n' !in s[..jmp - 1] else jmp == |s| && '\n' !in s
  }

  lemma RecoverIs(s: string)
    requires s != ""
    ensures var v := Recover(s);
            v.kind == Scalar && v.payload == Null && v.empty && v.warned && 0 < v.jmp && BehindFirstLine(s, v.jmp)
  {
    var nl := Find(s, '\n', 0);
    if nl < |s| {
      assert '\n' !in s[..nl];
    }
  }

  /** The end of get_value either accepts what was found, because the line is over, or recovers. */
  lemma EndCases(s: string, v: Value)
    requires 0 < v.jmp <= |s| && s[0] != '\n'
    ensures if LineIsOver(s, v.jmp) then EndOfValue(s, v) == v.(jmp := EndOfValue(s, v).jmp)
            else EndOfValue(s, v) == Recover(s)
    ensures LineIsOver(s, v.jmp) ==>
              var j := SkipAll(s, {' '}, v.jmp, |s|);
              EndOfValue(s, v).jmp == if j < |s| && s[j] == '#' then Find(s, '\n', 0) else j
  {
    hide SkipAll, Find;
  }

  lemma TwoQuotes(s: string)
    requires |s| >= 2 && s[0] == '"' && s[1] == '"'
    ensures forall v: string :: !ScalarAt(s, v)
  {
    hide SkipAll, Find, FirstBare;
    forall v: string ensures !ScalarAt(s, v) {
      if ScalarAt(s, v) {
        QuoteFound(s, v);
      }
    }
  }

  lemma QuoteWarns(s: string)
    requires s != "" && s[0] == '"'
    ensures var v := ValueOf(s);
            && (!v.warned <==> EmptyScalarAt(s) || exists t: string :: ScalarAt(s, t))
            && (v.warned ==> v == Recover(s))
            && (EmptyScalarAt(s) ==> v == Value(Scalar, Null, true, Find(s, '\n', 0), false))
  {
    hide SkipAll, Find, FirstBare, Escaped, EndOfValue, ScalarAt, LineIsOver, Recover;
    if |s| >= 2 && s[1] == '"' {
      TwoQuotes(s);
      EndCases(s, Value(Scalar, Null, true, 2, false));
      RecoverIs(s);
      if EmptyScalarAt(s) {
        assert 2 <= Find(s, '\n', 0);
        NextLineBreak(s, 2);
      }
    } else {
      OneQuote(s);
      var v := ValueOf(s);
      if !v.warned {
        ScalarAccepted(s, v.payload.s);
      }
      if t: string :| ScalarAt(s, t) {
        ScalarAccepted(s, t);
      }
    }
  }

  lemma OneQuote(s: string)
    requires s != "" && s[0] == '"' && !(|s| >= 2 && s[1] == '"')
    ensures var v := ValueOf(s); if v.warned then v == Recover(s) else v.payload.Text?
  {
    hide SkipAll, Find, FirstBare, Escaped, LineIsOver, Recover, EndOfValue;
    RecoverIs(s);
    var i := FirstBare(s, '"', 1, 1);
    if i < Find(s, '\n', 0) {
      EndCases(s, Value(Scalar, Text(s[1..i]), false, i + 1, false));
    }
  }

  /** At most one of the array shapes is there, with its bracket where the scan stops. */
  lemma EmptyArrayStops(s: string, i: nat)
    requires EmptyArrayAt(s, i)
    ensures SkipAll(s, BLANKS, 1, |s|) == i
  {
    SkipTo(s, BLANKS, 1, i, |s|);
  }

  lemma ElementsNotEmpty(s: string, e: nat, vals: seq<string>)
    requires 1 <= e <= |s| && ElementsAt(s, 1, e, vals)
    ensures var p := SkipAll(s, BLANKS, 1, |s|); p < e && s[p] == '"'
  {
    hide SkipAll, RawText;
    ElementsStart(s, 1, e, vals);
    SkipBound(s, 1, e, |s|);
  }

  lemma TrailingStops(s: string, i: nat)
    requires TrailingAt(s, i)
    ensures FirstBare(s, ']', 1, 1) == i < |s| && ReadElements(s, 1, i) == BadElements(true)
    ensures var p := SkipAll(s, BLANKS, 1, |s|); p < |s| && s[p] == '"'
  {
    hide SkipAll, FirstBare, Escaped, ElementsAt, ReadElements, LineIsOver, NoBare;
    var e: nat, vals: seq<string> :| TrailFrom(s, 1, i, e, vals);
    ElementsNotEmpty(s, e, vals);
    NothingPending(s, i);
    FirstBareIs(s, ']', 1, s[1..i]);
    TrailingExactly(s, 1, i);
  }

  ghost predicate ArrayIsGood(s: string) {
    (exists i: nat :: EmptyArrayAt(s, i)) || exists i: nat, vals: seq<string> :: ArrayAt(s, i, vals)
  }

  /** The value of an array that a separator stands at the end of. */
  ghost predicate RefusedBehind(s: string, i: nat, v: Value)
    requires i < |s|
  {
    v == Value(Scalar, Null, true, if JumpsBack(s, i) then Find(s, '\n', 0) else Find(s, '\n', i + 1), true)
  }

  lemma EmptyBrackets(s: string)
    requires s != "" && s[0] == '['
    requires var p := SkipAll(s, BLANKS, 1, |s|); p < |s| && s[p] == ']'
    ensures !ValueOf(s).warned <==> ArrayIsGood(s)
    ensures ValueOf(s).warned ==> ValueOf(s) == Recover(s)
    ensures forall i: nat :: !TrailingAt(s, i)
    ensures ArrayIsGood(s) ==> ValueOf(s).kind == Array && ValueOf(s).payload == Null
  {
    hide FirstBare, Escaped, EndOfValue, LineIsOver, Recover, ArrayAt, TrailingAt;
    var p := SkipAll(s, BLANKS, 1, |s|);
    EndCases(s, Value(Array, Null, true, p + 1, false));
    RecoverIs(s);
    forall i: nat ensures !TrailingAt(s, i) {
      if TrailingAt(s, i) {
        TrailingStops(s, i);
      }
    }
    forall i: nat, vals: seq<string> ensures !ArrayAt(s, i, vals) {
      if ArrayAt(s, i, vals) {
        NotEmptyArray(s, i, vals);
      }
    }
    if i: nat :| EmptyArrayAt(s, i) {
      EmptyArrayStops(s, i);
    }
    if LineIsOver(s, p + 1) {
      assert EmptyArrayAt(s, p);
    }
  }

  lemma NoEmptyBrackets(s: string)
    requires s != "" && s[0] == '[' && !(var p := SkipAll(s, BLANKS, 1, |s|); p < |s| && s[p] == ']')
    ensures forall i: nat :: !EmptyArrayAt(s, i)
    ensures ValueOf(s) == ArrayValue(s)
    ensures FirstBare(s, ']', 1, 1) < |s| ==> FirstBare(s, ']', 1, 1) > 1
  {
    hide FirstBare, Escaped, ArrayValue;
    forall i: nat ensures !EmptyArrayAt(s, i) {
      if EmptyArrayAt(s, i) {
        EmptyArrayStops(s, i);
      }
    }
    BracketRightAway(s);
  }

  /** Without a bracket that closes it, and where the elements are refused. */
  lemma RefusedArray(s: string)
    requires s != "" && s[0] == '[' && !(var p := SkipAll(s, BLANKS, 1, |s|); p < |s| && s[p] == ']')
    requires var i := FirstBare(s, ']', 1, 1); i == |s| || ReadElements(s, 1, i) == BadElements(false)
    ensures ValueOf(s) == Recover(s) && !ArrayIsGood(s) && forall i: nat :: !TrailingAt(s, i)
  {
    hide FirstBare, Escaped, EndOfValue, LineIsOver, Recover, TrailingAt, SkipAll, ReadElements, ArrayAt, ValueOf;
    NoEmptyBrackets(s);
    forall i: nat ensures !TrailingAt(s, i) {
      if TrailingAt(s, i) {
        TrailingStops(s, i);
      }
    }
    forall i: nat, vals: seq<string> ensures !ArrayAt(s, i, vals) {
      if ArrayAt(s, i, vals) {
        ArrayIsRead(s, i, vals);
        RecoverIs(s);
      }
    }
  }

  lemma TrailingArray(s: string)
    requires s != "" && s[0] == '[' && !(var p := SkipAll(s, BLANKS, 1, |s|); p < |s| && s[p] == ']')
    requires var i := FirstBare(s, ']', 1, 1); i < |s| && ReadElements(s, 1, i) == BadElements(true)
    ensures ValueOf(s).warned && !ArrayIsGood(s)
    ensures var i := FirstBare(s, ']', 1, 1);
            if TrailingAt(s, i) then RefusedBehind(s, i, ValueOf(s)) else ValueOf(s) == Recover(s)
    ensures forall i: nat :: TrailingAt(s, i) ==> i == FirstBare(s, ']', 1, 1)
  {
    hide FirstBare, Escaped, EndOfValue, Recover, TrailingAt, SkipAll, ReadElements, ArrayAt, ValueOf, TrailFrom, Find;
    hide LineIsOver;
    NoEmptyBrackets(s);
    RecoverIs(s);
    var i := FirstBare(s, ']', 1, 1);
    EndCases(s, Value(Scalar, Null, true, i + 1, true));
    forall k: nat, vals: seq<string> ensures !ArrayAt(s, k, vals) {
      if ArrayAt(s, k, vals) {
        ArrayIsRead(s, k, vals);
      }
    }
    forall k: nat ensures TrailingAt(s, k) ==> k == i {
      if TrailingAt(s, k) {
        TrailingStops(s, k);
      }
    }
    TrailingIs(s, i);
    if LineIsOver(s, i + 1) {
      LineBreakBehind(s, i);
    }
  }

  lemma TrailingIs(s: string, i: nat)
    requires s != "" && s[0] == '[' && i == FirstBare(s, ']', 1, 1) && 1 < i < |s|
    requires ReadElements(s, 1, i) == BadElements(true)
    ensures TrailingAt(s, i) <==> LineIsOver(s, i + 1)
  {
    hide FirstBare, Escaped, NoBare, SkipAll, ReadElements, TrailFrom;
    BeforeBracket(s);
    TrailingExactly(s, 1, i);
  }

  lemma ReadArray(s: string)
    requires s != "" && s[0] == '[' && !(var p := SkipAll(s, BLANKS, 1, |s|); p < |s| && s[p] == ']')
    requires var i := FirstBare(s, ']', 1, 1); i < |s| && ReadElements(s, 1, i).Elements?
    ensures !ValueOf(s).warned <==> ArrayIsGood(s)
    ensures ValueOf(s).warned ==> ValueOf(s) == Recover(s)
    ensures forall i: nat :: !TrailingAt(s, i)
  {
    hide FirstBare, Escaped, EndOfValue, LineIsOver, Recover, TrailingAt, SkipAll, ReadElements, ArrayAt, ValueOf;
    NoEmptyBrackets(s);
    RecoverIs(s);
    var i := FirstBare(s, ']', 1, 1);
    var es := ReadElements(s, 1, i).elems;
    EndCases(s, Value(Array, List(es), false, i + 1, false));
    if !ValueOf(s).warned {
      ArrayAccepted(s, es);
    }
    forall k: nat, vals: seq<string> | ArrayAt(s, k, vals) ensures !ValueOf(s).warned {
      ArrayIsRead(s, k, vals);
    }
    forall k: nat ensures !TrailingAt(s, k) {
      if TrailingAt(s, k) {
        TrailingStops(s, k);
      }
    }
  }

  lemma ArrayWarns(s: string)
    requires s != "" && s[0] == '['
    ensures var v := ValueOf(s);
            && (!v.warned <==> ArrayIsGood(s))
            && (v.warned ==> v == Recover(s) || exists i: nat :: TrailingAt(s, i))
            && (forall i: nat :: TrailingAt(s, i) ==> i < |s| && RefusedBehind(s, i, v))
            && ((exists i: nat :: EmptyArrayAt(s, i)) ==> v == Value(Array, Null, true, v.jmp, false))
  {
    hide FirstBare, Escaped, EndOfValue, Recover, SkipAll, ReadElements, ArrayAt, LineIsOver, ValueOf, TrailingAt,
         ArrayIsGood;
    var p, i := SkipAll(s, BLANKS, 1, |s|), FirstBare(s, ']', 1, 1);
    if p < |s| && s[p] == ']' {
      EmptyBrackets(s);
      EmptyIsEmpty(s);
    } else {
      NoEmptyBrackets(s);
      if i == |s| || ReadElements(s, 1, i) == BadElements(false) {
        RefusedArray(s);
        RecoverIs(s);
      } else if ReadElements(s, 1, i) == BadElements(true) {
        TrailingArray(s);
      } else {
        ReadArray(s);
      }
    }
  }

  lemma EmptyIsEmpty(s: string)
    requires s != "" && s[0] == '['
    ensures (exists i: nat :: EmptyArrayAt(s, i)) ==>
              ValueOf(s) == Value(Array, Null, true, ValueOf(s).jmp, false) && ArrayIsGood(s)
  {
    hide FirstBare, Escaped, EndOfValue, Recover, ReadElements, ArrayAt, ArrayValue, ScalarValue;
    if i: nat :| EmptyArrayAt(s, i) {
      EmptyArrayStops(s, i);
      EndCases(s, Value(Array, Null, true, i + 1, false));
    }
  }

  lemma OtherWarns(s: string)
    requires s != "" && s[0] != '"' && s[0] != '['
    ensures ValueOf(s) == Recover(s) && !GoodValue(s) && forall i: nat :: !TrailingAt(s, i)
  {
    hide FirstBare, Recover, LineIsOver, ElementsAt, RawText, NoBare, TrailFrom;
  }

  /**
   All that get_value does with any text.  It accepts exactly the good values; `ScalarAccepted`,
   `ArrayAccepted` and `ArrayEnds` say what it returns for those.  Everything else is a warning
   and an empty scalar.  The parser goes on with the next line then, except behind an array whose
   bracket comes right after a separator: there it goes on behind that bracket.
   */
  lemma ValueExactly(s: string)
    requires s != ""
    ensures !ValueOf(s).warned <==> GoodValue(s)
    ensures EmptyScalarAt(s) ==> ValueOf(s) == Value(Scalar, Null, true, Find(s, '\n', 0), false)
    ensures (exists i: nat :: EmptyArrayAt(s, i)) ==> ValueOf(s) == Value(Array, Null, true, ValueOf(s).jmp, false)
    ensures ValueOf(s).warned ==> ValueOf(s) == Value(Scalar, Null, true, ValueOf(s).jmp, true)
    ensures ValueOf(s).warned && (forall i: nat :: !TrailingAt(s, i)) ==> BehindFirstLine(s, ValueOf(s).jmp)
    ensures forall i: nat :: TrailingAt(s, i) ==> i < |s| && RefusedBehind(s, i, ValueOf(s))
  {
    hide Recover, ValueOf, LineIsOver, ElementsAt, RawText, NoBare, TrailFrom, BehindFirstLine;
    RecoverIs(s);
    if s[0] == '"' {
      QuoteWarns(s);
    } else if s[0] == '[' {
      ArrayWarns(s);
    } else {
      OtherWarns(s);
    }
  }

  // ----- lines -----

  /** Blank, a comment, or a key and a value that is accepted. */
  ghost predicate GoodLine(l: string) {
    l == "" || l[0] == '#' || exists n: nat :: KeyAt(l, n) && GoodValue(l[n + 1..])
  }

  /** A step of the parser, at any place of any text: it warns unless what stands there is good, or ends the text. */
  lemma LineExactly(s: string)
    requires s != ""
    ensures LineAt(s).BareKey? <==> KeyAt(s, |s| - 1)
    ensures LineAt(s).Entry? <==> exists n: nat :: n + 1 < |s| && KeyAt(s, n)
    ensures forall n: nat :: n + 1 < |s| && KeyAt(s, n) ==>
              var v := ValueOf(s[n + 1..]); LineAt(s) == Entry(NodeOf(s[..n], v), n + 1 + v.jmp, !GoodValue(s[n + 1..]))
    ensures LineAt(s).Skip? ==> BehindFirstLine(s, LineAt(s).jmp) && (LineAt(s).warned <==> s[0] !in {'\n', '#'})
  {
    hide GoodValue, ValueOf, IsKey;
    RecoverIs(s);
    FirstCharKeyed(s);
    forall n: nat | KeyAt(s, n) ensures n == KeySpan(s, 0) {
      KeyIsSpan(s, n);
    }
    var n := KeySpan(s, 0);
    if KeyAt(s, n) && n + 1 < |s| {
      ValueExactly(s[n + 1..]);
    }
  }

  lemma FirstCharKeyed(s: string)
    ensures forall n: nat | KeyAt(s, n) :: s[0] !in {'\n', '#', ' '}
  {
    forall n: nat | KeyAt(s, n) ensures s[0] !in {'\n', '#', ' '} {
      KeyStart(s, n);
    }
  }

  /** The newline that ends a line makes no difference to whether it is over. */
  lemma OverWithNewline(conf: string, from: nat)
    requires '\n' !in conf && from <= |conf|
    ensures LineIsOver(conf + "\n", from) <==> LineIsOver(conf, from)
  {
    var s, q := conf + "\n", SkipAll(conf, {' '}, from, |conf|);
    assert forall k | 0 <= k < |conf| :: s[k] == conf[k];
    SkipTo(s, {' '}, from, q, |s|);
    assert q < |conf| ==> conf[q] in conf;
  }

  lemma ScalarWithNewline(conf: string, v: string)
    requires '\n' !in conf
    ensures ScalarAt(conf + "\n", v) <==> ScalarAt(conf, v)
  {
    hide RawText, LineIsOver;
    var s, n := conf + "\n", |v| + 2;
    if n <= |conf| {
      OverWithNewline(conf, n);
      assert s[1..|v| + 1] == conf[1..|v| + 1];
    }
  }

  lemma EmptyWithNewline(conf: string, i: nat)
    requires '\n' !in conf
    ensures EmptyScalarAt(conf + "\n") <==> EmptyScalarAt(conf)
    ensures EmptyArrayAt(conf + "\n", i) <==> EmptyArrayAt(conf, i)
  {
    hide LineIsOver;
    var s := conf + "\n";
    if |conf| >= 2 {
      OverWithNewline(conf, 2);
    }
    assert forall k | 0 <= k < |conf| :: s[k] == conf[k];
    if i < |conf| {
      OverWithNewline(conf, i + 1);
    }
  }

  lemma ArrayWithNewline(conf: string, i: nat, vals: seq<string>)
    requires '\n' !in conf
    ensures ArrayAt(conf + "\n", i, vals) <==> ArrayAt(conf, i, vals)
  {
    hide LineIsOver, ElementsAt, NoBare, ReadElements;
    var s := conf + "\n";
    if 1 < i < |conf| && conf[i] == ']' {
      OverWithNewline(conf, i + 1);
      assert s[1..i] == conf[1..i] && s[..i + 1] == conf[..i + 1];
      ElementsSame(conf, s, 1, i);
      ElementsExact(conf, 1, i, vals);
      ElementsExact(s, 1, i, vals);
    }
  }

  lemma GoodWithNewline(conf: string)
    requires '\n' !in conf
    ensures GoodValue(conf + "\n") <==> GoodValue(conf)
  {
    hide EmptyScalarAt, EmptyArrayAt, ScalarAt, ArrayAt;
    EmptyWithNewline(conf, 0);
    forall i: nat ensures EmptyArrayAt(conf + "\n", i) <==> EmptyArrayAt(conf, i) {
      EmptyWithNewline(conf, i);
    }
    forall v: string ensures ScalarAt(conf + "\n", v) <==> ScalarAt(conf, v) {
      ScalarWithNewline(conf, v);
    }
    forall i: nat, vals: seq<string> ensures ArrayAt(conf + "\n", i, vals) <==> ArrayAt(conf, i, vals) {
      ArrayWithNewline(conf, i, vals);
    }
  }

  /** What stands in front of the newline is a key exactly if it is one with it. */
  lemma KeyWithNewline(l: string, n: nat)
    ensures KeyAt(l + "\n", n) <==> KeyAt(l, n)
    ensures KeyAt(l, n) ==> (l + "\n")[..n] == l[..n] && (l + "\n")[n + 1..] == l[n + 1..] + "\n"
  {
    if n < |l| {
      assert (l + "\n")[..n] == l[..n];
    }
  }

  /** The nodes that the line says on its own: one if it has a key. */
  ghost predicate SaysKey(l: string, nodes: seq<Node>) {
    if exists n: nat :: KeyAt(l, n) then |nodes| == 1 && (nodes[0].key + "=") <= l && IsKey(nodes[0].key)
    else nodes == []
  }

  /** A line by itself is read without a warning exactly if it is good. */
  lemma OneLine(l: string)
    requires '\n' !in l && !ArrayLeftOpen(l)
    ensures Entries(l + "\n").warned <==> !GoodLine(l)
    ensures SaysKey(l, Entries(l + "\n").nodes)
  {
    hide GoodValue, LineAt, IsKey, ArrayLeftOpen;
    var s := l + "\n";
    LineLocal(l, "");
    assert s + "" == s;
    var e := LineAt(s);
    assert s[e.jmp..] == if e.jmp == |l| then "\n" else "";
    NothingFollows();
    LineExactly(s);
    forall n: nat ensures KeyAt(s, n) <==> KeyAt(l, n) {
      KeyWithNewline(l, n);
    }
    if n: nat :| KeyAt(l, n) {
      KeyWithNewline(l, n);
      KeyedLine(l, n);
    } else {
      assert e.Skip? by {
        assert !e.Entry? && !e.BareKey?;
      }
    }
  }

  lemma NothingFollows()
    ensures Entries("") == Parsed([], false, false) && Entries("\n") == Parsed([], false, false)
  {
    assert "\n"[1..] == "";
  }

  lemma KeyedLine(l: string, n: nat)
    requires '\n' !in l && !ArrayLeftOpen(l) && KeyAt(l, n)
    ensures var e := LineAt(l + "\n"); e.Entry? && e.node.key == l[..n] && (e.warned <==> !GoodLine(l))
    ensures (l[..n] + "=") <= l && IsKey(l[..n])
  {
    hide GoodValue, LineAt, IsKey, ArrayLeftOpen, ValueOf;
    var s := l + "\n";
    KeyWithNewline(l, n);
    LineExactly(s);
    assert '\n' !in l[n + 1..];
    GoodWithNewline(l[n + 1..]);
    KeyIsSpan(l, n);
    forall m: nat | KeyAt(l, m) ensures m == n {
      KeyIsSpan(l, m);
    }
    FirstCharKeyed(l);
    assert l[..n] + "=" == l[..n + 1];
  }

  // ----- texts made of lines -----

  /** Every line with its newline. */
  function TextOf(ls: seq<string>): string {
    if ls == [] then "" else ls[0] + "\n" + TextOf(ls[1..])
  }

  /** Both lines start with the same key and its `=`. */
  ghost predicate SameKey(l: string, m: string) {
    exists n: nat :: KeyAt(l, n) && KeyAt(m, n) && l[..n] == m[..n]
  }

  ghost predicate Keyed(l: string) {
    exists n: nat :: KeyAt(l, n)
  }

  /** The keys of the nodes are those of the lines that have one. */
  ghost predicate KeysOf(ls: seq<string>, nodes: seq<Node>) {
    && (forall l | l in ls && Keyed(l) :: exists n | n in nodes :: (n.key + "=") <= l)
    && (forall n | n in nodes :: IsKey(n.key) && exists l | l in ls :: (n.key + "=") <= l)
  }

  lemma KeyInLine(key: string, l: string)
    requires IsKey(key) && (key + "=") <= l
    ensures KeyAt(l, |key|) && l[..|key|] == key
  {
    assert l[..|key| + 1] == key + "=";
    assert l[..|key|] == (key + "=")[..|key|] == key;
    assert l[|key|] == (key + "=")[|key|];
  }

  lemma SameKeyIs(key: string, l: string, m: string)
    requires IsKey(key) && (key + "=") <= l
    ensures SameKey(l, m) <==> (key + "=") <= m
  {
    hide IsKey;
    KeyInLine(key, l);
    if (key + "=") <= m {
      KeyInLine(key, m);
    }
    if n: nat :| KeyAt(l, n) && KeyAt(m, n) && l[..n] == m[..n] {
      KeyIsSpan(l, n);
      KeyIsSpan(l, |key|);
      assert m[..n + 1] == key + "=";
    }
  }

  /** The lines before this one do not have its key. */
  lemma KeyIsNew(n: Node, ls: seq<string>, nodes: seq<Node>, l: string)
    requires IsKey(n.key) && (n.key + "=") <= l && KeysOf(ls, nodes)
    ensures (exists m | m in nodes :: m.key == n.key) <==> exists m | m in ls :: SameKey(l, m)
  {
    hide IsKey, SameKey;
    if m :| m in nodes && m.key == n.key {
      var k :| k in ls && (m.key + "=") <= k;
      SameKeyIs(n.key, l, k);
    }
    if k :| k in ls && SameKey(l, k) {
      SameKeyIs(n.key, l, k);
      KeyInLine(n.key, k);
      var m :| m in nodes && (m.key + "=") <= k;
      KeyInLine(m.key, k);
      KeyIsSpan(k, |m.key|);
      KeyIsSpan(k, |n.key|);
    }
  }

  lemma DistinctCons(n: Node, nodes: seq<Node>)
    ensures Distinct([n] + nodes) <==> Distinct(nodes) && forall m | m in nodes :: m.key != n.key
  {
    var all := [n] + nodes;
    assert forall k | 0 <= k < |nodes| :: all[k + 1] == nodes[k];
    if Distinct(all) {
      forall m | m in nodes ensures m.key != n.key {
        var k :| 0 <= k < |nodes| && nodes[k] == m;
        assert all[0].key != all[k + 1].key;
      }
      forall i, j | 0 <= i < j < |nodes| ensures nodes[i].key != nodes[j].key {
        assert all[i + 1].key != all[j + 1].key;
      }
    }
    if Distinct(nodes) && forall m | m in nodes :: m.key != n.key {
      assert forall k | 0 <= k < |nodes| :: nodes[k] in nodes;
    }
  }

  ghost predicate NoSameKeys(ls: seq<string>) {
    forall i, j | 0 <= i < j < |ls| :: !SameKey(ls[i], ls[j])
  }

  lemma NoSameCons(l: string, ls: seq<string>)
    ensures NoSameKeys([l] + ls) <==> NoSameKeys(ls) && forall m | m in ls :: !SameKey(l, m)
  {
    hide SameKey;
    var all := [l] + ls;
    assert forall k | 0 <= k < |ls| :: all[k + 1] == ls[k];
    if NoSameKeys(all) {
      forall m | m in ls ensures !SameKey(l, m) {
        var k :| 0 <= k < |ls| && ls[k] == m;
        assert !SameKey(all[0], all[k + 1]);
      }
      forall i, j | 0 <= i < j < |ls| ensures !SameKey(ls[i], ls[j]) {
        assert !SameKey(all[i + 1], all[j + 1]);
      }
    }
    if NoSameKeys(ls) && forall m | m in ls :: !SameKey(l, m) {
      assert forall k | 0 <= k < |ls| :: ls[k] in ls;
    }
  }

  lemma KeysCons(l: string, own: seq<Node>, ls: seq<string>, nodes: seq<Node>)
    requires SaysKey(l, own) && KeysOf(ls, nodes)
    ensures KeysOf([l] + ls, own + nodes)
  {
    hide IsKey;
    var all, ns := [l] + ls, own + nodes;
    assert Keyed(l) ==> own == [own[0]] && own[0] in ns;
    forall k | k in all && Keyed(k) ensures exists n | n in ns :: (n.key + "=") <= k {
      if k in ls {
        var n :| n in nodes && (n.key + "=") <= k;
        assert n in ns;
      }
    }
    forall n | n in ns ensures IsKey(n.key) && exists k | k in all :: (n.key + "=") <= k {
      if n in nodes {
        var k :| k in ls && (n.key + "=") <= k;
        assert k in all;
      } else {
        assert l in all;
      }
    }
  }

  lemma DistinctLines(l: string, own: seq<Node>, ls: seq<string>, nodes: seq<Node>)
    requires SaysKey(l, own) && KeysOf(ls, nodes)
    ensures Distinct(own + nodes) <==> Distinct(nodes) && forall m | m in ls :: !SameKey(l, m)
  {
    hide Distinct, IsKey, KeysOf;
    if Keyed(l) {
      assert own == [own[0]];
      KeyIsNew(own[0], ls, nodes, l);
      DistinctCons(own[0], nodes);
    } else {
      assert own + nodes == nodes;
    }
  }

  lemma {:induction false} LinesWarn(ls: seq<string>)
    requires forall l | l in ls :: '\n' !in l && !ArrayLeftOpen(l)
    ensures var p := Entries(TextOf(ls));
            && (p.warned <==> exists l | l in ls :: !GoodLine(l))
            && KeysOf(ls, p.nodes) && (Distinct(p.nodes) <==> NoSameKeys(ls))
  {
    hide GoodLine, ArrayLeftOpen, Distinct, SaysKey, KeysOf, NoSameKeys, SameKey;
    if ls == [] {
      NoLines();
    } else {
      var l, rest := ls[0], ls[1..];
      assert l in ls && ls == [l] + rest;
      LinesWarn(rest);
      OneLine(l);
      LineByLine(l, TextOf(rest));
      var own := Entries(l + "\n").nodes;
      KeysCons(l, own, rest, Entries(TextOf(rest)).nodes);
      DistinctLines(l, own, rest, Entries(TextOf(rest)).nodes);
      NoSameCons(l, rest);
    }
  }

  lemma NoLines()
    ensures Entries(TextOf([])) == Parsed([], false, false)
    ensures KeysOf([], []) && Distinct([]) && NoSameKeys([])
  {
  }

  /**
   A text of lines that leave no array open is parsed without a warning if and only if every line
   is blank, a comment, or a key and a good value, and no two lines have the same key.
   */
  lemma WarnsExactly(ls: seq<string>)
    requires forall l | l in ls :: '\n' !in l && !ArrayLeftOpen(l)
    ensures ParseWarns(TextOf(ls)) <==>
            (exists l | l in ls :: !GoodLine(l)) || exists i, j | 0 <= i < j < |ls| :: SameKey(ls[i], ls[j])
  {
    hide GoodLine, ArrayLeftOpen, Distinct, SameKey, Entries, TextOf, KeysOf;
    LinesWarn(ls);
  }
}
