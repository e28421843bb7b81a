/**
 Arrays in a k2v3 text (src/k2v3.c:304-539): which texts get_value reads as an array of which
 elements, and where the parser goes on behind one.
 */
module K2v3Arrays {
  import opened Text
  import opened Escape
  import opened K2v3
  import opened K2v3Laws

  // ----- which texts are accepted -----

  /**
   s[j..i] is blanks, a quoted raw element, blanks, and then either nothing more or one
   separator and the same again for the other elements.
   */
  ghost predicate ElementsAt(s: string, j: nat, i: nat, vals: seq<string>)
    requires j <= i <= |s|
    decreases |vals|
  {
    vals != [] &&
    var v, q := vals[0], SkipAll(s, BLANKS, j, i);
    var close := q + |v| + 2;
    && close <= i && QuotedAt(s, q, v) && RawText(v)
    && var e := SkipAll(s, BLANKS, close, i);
       if |vals| == 1 then e == i
       else e < i && (s[e] == ',' || s[e] == ';') && ElementsAt(s, e + 1, i, vals[1..])
  }

  /** The text is `[`, such elements up to the `]` at `i`, and the line is over behind it. */
  ghost predicate ArrayAt(s: string, i: nat, vals: seq<string>) {
    && 1 < i < |s| && s[0] == '[' && s[i] == ']' && NoBare(s[1..i], ']')
    && ElementsAt(s, 1, i, vals) && LineIsOver(s, i + 1)
  }

  lemma SkipTwice(s: string, j: nat, i: nat)
    requires j <= i <= |s|
    ensures var n := SkipAll(s, BLANKS, j, i); SkipAll(s, BLANKS, n, i) == n
  {
  }

  /** Blanks, the quoted raw element `v`, blanks, and the end, or a separator with more behind it from `next` on. */
  ghost predicate HeadAt(s: string, j: nat, i: nat, v: string, next: nat)
    requires j <= i <= |s|
  {
    var q := SkipAll(s, BLANKS, j, i);
    var close := q + |v| + 2;
    && close <= i && QuotedAt(s, q, v) && RawText(v)
    && var e := SkipAll(s, BLANKS, close, i);
       if e == i then next == i
       else (s[e] == ',' || s[e] == ';') && next == SkipAll(s, BLANKS, e + 1, i) < i
  }

  /** Blanks in front of the elements make no difference. */
  lemma ElementsSkip(s: string, j: nat, i: nat, vals: seq<string>)
    requires j <= i <= |s|
    ensures ElementsAt(s, SkipAll(s, BLANKS, j, i), i, vals) <==> ElementsAt(s, j, i, vals)
  {
    hide SkipAll, RawText, QuotedAt;
    SkipTwice(s, j, i);
  }

  /** Elements start behind the blanks, and not at the end. */
  lemma ElementsStart(s: string, j: nat, i: nat, vals: seq<string>)
    requires j <= i <= |s| && ElementsAt(s, j, i, vals)
    ensures SkipAll(s, BLANKS, j, i) < i
  {
    hide SkipAll, RawText;
  }

  lemma HeadOfElements(s: string, j: nat, i: nat, vals: seq<string>) returns (next: nat)
    requires j <= i <= |s| && ElementsAt(s, j, i, vals)
    ensures HeadAt(s, j, i, vals[0], next)
  {
    hide SkipAll, RawText, QuotedAt;
    var e := SkipAll(s, BLANKS, SkipAll(s, BLANKS, j, i) + |vals[0]| + 2, i);
    if |vals| > 1 {
      ElementsStart(s, e + 1, i, vals[1..]);
      next := SkipAll(s, BLANKS, e + 1, i);
    } else {
      next := i;
    }
  }

  /** Elements unfolded once, for a first element whose place is known. */
  lemma ElementsUnfold(s: string, j: nat, i: nat, vals: seq<string>, e: nat)
    requires j <= i <= |s| && vals != [] && SkipAll(s, BLANKS, j, i) + |vals[0]| + 2 <= i
    requires e == SkipAll(s, BLANKS, SkipAll(s, BLANKS, j, i) + |vals[0]| + 2, i)
    requires QuotedAt(s, SkipAll(s, BLANKS, j, i), vals[0]) && RawText(vals[0])
    ensures ElementsAt(s, j, i, vals) <==>
            if |vals| == 1 then e == i
            else e < i && (s[e] == ',' || s[e] == ';') && ElementsAt(s, e + 1, i, vals[1..])
  {
    hide SkipAll, RawText, QuotedAt;
  }

  lemma ElementsFromHead(s: string, j: nat, i: nat, v: string, next: nat, rest: seq<string>)
    requires j <= i <= |s| && HeadAt(s, j, i, v, next)
    ensures next <= i
    ensures ElementsAt(s, j, i, [v] + rest) <==> if next == i then rest == [] else ElementsAt(s, next, i, rest)
  {
    hide SkipAll, RawText, QuotedAt, ElementsAt;
    var vals := [v] + rest;
    assert vals[1..] == rest && vals[0] == v && (|vals| == 1 <==> rest == []);
    var e := SkipAll(s, BLANKS, SkipAll(s, BLANKS, j, i) + |v| + 2, i);
    ElementsUnfold(s, j, i, vals, e);
    if e < i {
      ElementsSkip(s, e + 1, i, rest);
      NoneNowhere(s, next, i);
    }
  }

  lemma NoneNowhere(s: string, j: nat, i: nat)
    requires j <= i <= |s|
    ensures !ElementsAt(s, j, i, [])
  {
  }

  /** The turn of the loop that reads an element. */
  lemma TurnOfHead(s: string, j: nat, i: nat, v: string, next: nat)
    requires j < i < |s| && s[i] == ']' && HeadAt(s, j, i, v, next)
    ensures TurnAt(s, j, i) == Turn(v, next)
  {
    hide SkipAll, Escaped, NoBare, FirstBare;
    var q := SkipAll(s, BLANKS, j, i);
    QuoteCloses(s, q, v);
    assert v == s[q + 1..q + 1 + |v|];
  }

  lemma QuoteCloses(s: string, q: nat, v: string)
    requires QuotedAt(s, q, v) && RawText(v)
    ensures FirstBare(s, '"', q + 1, q + 1) == q + |v| + 1
  {
    FirstBareIs(s, '"', q + 1, v);
  }

  /** What a turn has read. */
  lemma HeadOfTurn(s: string, j: nat, i: nat)
    requires j < i < |s| && s[i] == ']' && TurnAt(s, j, i).Turn?
    ensures HeadAt(s, j, i, TurnAt(s, j, i).elem, TurnAt(s, j, i).next)
  {
    hide SkipAll, Escaped, NoBare, RawText;
    TurnIsRaw(s, j, i);
    var q := SkipAll(s, BLANKS, j, i);
    var k := FirstBare(s, '"', q + 1, q + 1);
    assert |s[q + 1..k]| == k - q - 1;
  }

  lemma {:induction false} ElementsAreRead(s: string, j: nat, i: nat, vals: seq<string>)
    requires j < i < |s| && s[i] == ']' && ElementsAt(s, j, i, vals)
    ensures ReadElements(s, j, i) == Elements(vals)
    decreases i - j
  {
    hide TurnAt, HeadAt, ElementsAt, SkipAll;
    NotNone(s, j, i, vals);
    var next := HeadOfElements(s, j, i, vals);
    TurnOfHead(s, j, i, vals[0], next);
    assert vals == [vals[0]] + vals[1..];
    ElementsFromHead(s, j, i, vals[0], next, vals[1..]);
    if next < i {
      ElementsAreRead(s, next, i, vals[1..]);
    }
  }

  lemma NotNone(s: string, j: nat, i: nat, vals: seq<string>)
    requires j <= i <= |s| && ElementsAt(s, j, i, vals)
    ensures vals != []
  {
  }

  lemma {:induction false} ReadAreElements(s: string, j: nat, i: nat, vals: seq<string>)
    requires j < i < |s| && s[i] == ']' && ReadElements(s, j, i) == Elements(vals)
    ensures ElementsAt(s, j, i, vals)
    decreases i - j
  {
    hide TurnAt, HeadAt, ElementsAt, SkipAll;
    var t := TurnAt(s, j, i);
    HeadOfTurn(s, j, i);
    var rest := ReadElements(s, t.next, i).elems;
    assert vals == [t.elem] + rest;
    if t.next < i {
      ReadAreElements(s, t.next, i, rest);
    }
    ElementsFromHead(s, j, i, t.elem, t.next, rest);
  }

  /** The element loop yields exactly the elements that are there. */
  lemma ElementsExact(s: string, j: nat, i: nat, vals: seq<string>)
    requires j < i < |s| && s[i] == ']'
    ensures ReadElements(s, j, i) == Elements(vals) <==> ElementsAt(s, j, i, vals)
  {
    hide ReadElements, ElementsAt;
    if ElementsAt(s, j, i, vals) {
      ElementsAreRead(s, j, i, vals);
    }
    if ReadElements(s, j, i) == Elements(vals) {
      ReadAreElements(s, j, i, vals);
    }
  }

  lemma HeadEnd(s: string, j: nat, i: nat, v: string)
    requires j <= i <= |s| && HeadAt(s, j, i, v, i)
    ensures 0 < i && s[i - 1] != '\\'
  {
    hide RawText;
    var close := SkipAll(s, BLANKS, j, i) + |v| + 2;
    if close < i {
      assert s[i - 1] in BLANKS;
    }
  }

  /** Elements end in a quote or a blank, so no backslash is pending behind them. */
  lemma {:induction false} ElementsEnd(s: string, j: nat, i: nat, vals: seq<string>)
    requires j <= i <= |s| && ElementsAt(s, j, i, vals)
    ensures 0 < i && s[i - 1] != '\\'
    decreases |vals|
  {
    hide HeadAt, ElementsAt;
    NotNone(s, j, i, vals);
    var next := HeadOfElements(s, j, i, vals);
    assert vals == [vals[0]] + vals[1..];
    ElementsFromHead(s, j, i, vals[0], next, vals[1..]);
    if next == i {
      HeadEnd(s, j, i, vals[0]);
    } else {
      ElementsEnd(s, next, i, vals[1..]);
    }
  }

  lemma NothingPending(s: string, i: nat)
    requires 1 < i <= |s| && s[i - 1] != '\\'
    ensures !Escaped(s[1..i])
  {
    assert s[1..i][|s[1..i]| - 1] == s[i - 1];
  }

  /** A text with elements is not read as an empty array. */
  lemma NotEmptyArray(s: string, i: nat, vals: seq<string>)
    requires ArrayAt(s, i, vals)
    ensures var p := SkipAll(s, BLANKS, 1, |s|); p < |s| && s[p] == '"'
  {
    var q, p := SkipAll(s, BLANKS, 1, i), SkipAll(s, BLANKS, 1, |s|);
    assert s[q] == '"';
  }

  /**
   get_value returns the array `vals` exactly when the text is a bracket, the elements quoted
   and raw, with blanks and one comma or semicolon between them, the closing bracket, and
   nothing else on the line.
   */
  lemma ArrayAccepted(s: string, vals: seq<string>)
    requires s != ""
    ensures ValueOf(s).payload == List(vals) <==> exists i: nat :: ArrayAt(s, i, vals)
  {
    if i: nat :| ArrayAt(s, i, vals) {
      ArrayIsRead(s, i, vals);
    }
    if ValueOf(s).payload == List(vals) {
      ReadIsArray(s, vals);
    }
  }

  lemma ArrayIsRead(s: string, i: nat, vals: seq<string>)
    requires ArrayAt(s, i, vals)
    ensures FirstBare(s, ']', 1, 1) == i
    ensures var v := ValueOf(s); v == Value(Array, List(vals), false, v.jmp, false)
  {
    hide ElementsAt, ReadElements, SkipAll, FirstBare, NoBare, Escaped, ScalarValue, Find;
    NotEmptyArray(s, i, vals);
    ElementsEnd(s, 1, i, vals);
    NothingPending(s, i);
    FirstBareIs(s, ']', 1, s[1..i]);
    ElementsExact(s, 1, i, vals);
  }

  lemma ReadIsArray(s: string, vals: seq<string>)
    requires s != "" && ValueOf(s).payload == List(vals)
    ensures exists i: nat :: ArrayAt(s, i, vals)
  {
    hide ElementsAt, ReadElements, SkipAll, FirstBare, Escaped, RawPayload;
    RawValues(s);
    var i := FirstBare(s, ']', 1, 1);
    BeforeBracket(s);
    SomethingInside(s, vals, i);
    ArrayEnds(s);
    ElementsExact(s, 1, i, vals);
    assert ArrayAt(s, i, vals);
  }

  lemma BracketRightAway(s: string)
    requires s != ""
    ensures |s| > 1 && s[1] == ']' ==> SkipAll(s, BLANKS, 1, |s|) == 1
  {
  }

  lemma SomethingInside(s: string, vals: seq<string>, i: nat)
    requires s != "" && ValueOf(s).payload == List(vals) && i == FirstBare(s, ']', 1, 1)
    ensures 1 < i < |s| && ReadElements(s, 1, i) == Elements(vals)
  {
    hide ReadElements, Escaped, FirstBare, Find;
    BracketRightAway(s);
  }

  /** Nothing before the bracket that closes the array is a bare bracket. */
  lemma BeforeBracket(s: string)
    requires s != ""
    ensures NoBare(s[1..FirstBare(s, ']', 1, 1)], ']')
  {
    var i := FirstBare(s, ']', 1, 1);
    FirstBareLeast(s, ']', 1, 1);
    forall j | 0 <= j < i - 1 && s[1..i][j] == ']' ensures Escaped(s[1..i][..j]) {
      assert s[1..i][..j] == s[1..1 + j] && s[1 + j] == ']';
    }
  }

  // ----- where the parser goes on -----

  /** The closing bracket of an empty array is the first bare one as well. */
  lemma EmptyCloses(s: string)
    requires s != "" && s[0] == '['
    ensures var p := SkipAll(s, BLANKS, 1, |s|); p < |s| && s[p] == ']' ==> FirstBare(s, ']', 1, 1) == p
  {
    var p := SkipAll(s, BLANKS, 1, |s|);
    if p < |s| && s[p] == ']' {
      var v := s[1..p];
      assert forall k | 0 <= k < |v| :: v[k] == s[1 + k] && s[1 + k] in BLANKS;
      FirstBareIs(s, ']', 1, v);
    }
  }

  lemma LineBreakBehind(s: string, i: nat)
    requires i < |s| && s[i] != '\n' && LineIsOver(s, i + 1)
    ensures var j := SkipAll(s, {' '}, i + 1, |s|);
            !(j < |s| && s[j] == '#') ==> Find(s, '\n', i + 1) == j
    ensures Find(s, '\n', 0) > i ==> Find(s, '\n', 0) == Find(s, '\n', i + 1)
    ensures Find(s, '\n', 0) != i
  {
    var j := SkipAll(s, {' '}, i + 1, |s|);
    if j < |s| && s[j] == '\n' {
      FindIs(s, '\n', i + 1, j);
    }
    var nl := Find(s, '\n', 0);
    if i < nl < |s| {
      FindIs(s, '\n', i + 1, nl);
    }
  }

  /** A comment follows the array, and a newline came before its closing bracket. */
  ghost predicate JumpsBack(s: string, i: nat)
    requires i < |s|
  {
    var j := SkipAll(s, {' '}, i + 1, |s|);
    j < |s| && s[j] == '#' && Find(s, '\n', 0) < i
  }

  /** An accepted array has got through the end of get_value from its closing bracket on. */
  lemma ArrayIsEnded(s: string)
    requires s != "" && ValueOf(s).kind == Array
    ensures var i, v := FirstBare(s, ']', 1, 1), ValueOf(s);
            i < |s| && s[0] == '[' && EndOfValue(s, v.(jmp := i + 1)) == v
  {
    hide FirstBare, ReadElements, Escaped, SkipAll, Find, ScalarValue, SkipLine;
    if s[0] == '"' {
      ScalarIsNoArray(s);
    } else if s[0] == '[' {
      EmptyCloses(s);
    }
  }

  lemma EndOfArray(s: string, i: nat, v: Value)
    requires i < |s| && s[i] == ']' && s[0] == '[' && v.jmp == i + 1 && v.kind == Array
    requires EndOfValue(s, v).kind == Array
    ensures LineIsOver(s, i + 1)
    ensures var j := SkipAll(s, {' '}, i + 1, |s|);
            EndOfValue(s, v).jmp == if j < |s| && s[j] == '#' then Find(s, '\n', 0) else j
  {
    hide SkipAll, Find;
  }

  /**
   Behind an accepted array, empty or not, the parser goes on at the end of the line of the
   closing bracket, unless a comment follows there and the array has a newline in it: then it
   goes back to that newline.
   */
  lemma ArrayEnds(s: string)
    requires s != "" && ValueOf(s).kind == Array
    ensures var i, v := FirstBare(s, ']', 1, 1), ValueOf(s);
            && i < |s| && LineIsOver(s, i + 1)
            && (v.jmp == Find(s, '\n', i + 1) <==> !JumpsBack(s, i))
            && (JumpsBack(s, i) ==> v.jmp == Find(s, '\n', 0) < i)
  {
    hide FirstBare, ValueOf, SkipAll, Find, EndOfValue, LineIsOver;
    ArrayIsEnded(s);
    var i := FirstBare(s, ']', 1, 1);
    EndOfArray(s, i, ValueOf(s).(jmp := i + 1));
    LineBreakBehind(s, i);
  }

  lemma ScalarIsNoArray(s: string)
    requires s != "" && s[0] == '"'
    ensures ScalarValue(s).kind == Scalar
  {
  }

  // ----- an example -----

  lemma SkipIs(s: string, j: nat, q: nat, i: nat)
    requires j <= q <= i <= |s| && (forall k | j <= k < q :: s[k] in BLANKS) && (q < i ==> s[q] !in BLANKS)
    ensures SkipAll(s, BLANKS, j, i) == q
  {
  }

  lemma LetterIsRaw(c: char)
    requires c != '\\' && c != '"'
    ensures RawText([c])
  {
  }

  /** A quoted letter at `q`, blanks before it, and the end of the elements right behind it. */
  lemma LastLetter(s: string, j: nat, q: nat, c: char)
    requires j <= q && q + 3 <= |s| && (forall k | j <= k < q :: s[k] in BLANKS)
    requires s[q] == '"' && s[q + 1] == c && s[q + 2] == '"' && c != '\\' && c != '"'
    ensures ElementsAt(s, j, q + 3, [[c]])
  {
    hide SkipAll, RawText;
    LetterIsRaw(c);
    SkipIs(s, j, q, q + 3);
    SkipIs(s, q + 3, q + 3, q + 3);
    assert s[q + 1..q + 2] == [c];
  }

  /** A quoted letter, a comma, and more elements. */
  lemma LetterInFront(s: string, q: nat, i: nat, c: char, vals: seq<string>)
    requires q + 4 <= i <= |s| && s[q] == '"' && s[q + 1] == c && s[q + 2] == '"' && s[q + 3] == ','
    requires c != '\\' && c != '"' && ElementsAt(s, q + 4, i, vals)
    ensures ElementsAt(s, q, i, [[c]] + vals)
  {
    hide SkipAll, RawText;
    LetterIsRaw(c);
    SkipIs(s, q, q, i);
    SkipIs(s, q + 3, q + 3, i);
    assert s[q + 1..q + 2] == [c] && ([[c]] + vals)[1..] == vals;
  }

  const TWO_LINES := "[\"a\",\n\"b\"]#\n"

  lemma TwoLinesAreArray()
    ensures ArrayAt(TWO_LINES, 9, ["a", "b"])
  {
    hide SkipAll, ElementsAt;
    var s := TWO_LINES;
    LastLetter(s, 5, 6, 'b');
    LetterInFront(s, 1, 9, 'a', ["b"]);
    assert [['a']] + ["b"] == ["a", "b"];
    assert ']' !in s[1..9];
    CommentBehind(s, 10);
  }

  lemma CommentBehind(s: string, i: nat)
    requires i < |s| && s[i] == '#'
    ensures SkipAll(s, {' '}, i, |s|) == i && LineIsOver(s, i)
  {
  }

  /** A comment behind an array of two lines: the parser comes out inside the array. */
  lemma CommentAfterTwoLines()
    ensures ValueOf(TWO_LINES) == Value(Array, List(["a", "b"]), false, 5, false) && JumpsBack(TWO_LINES, 9)
  {
    hide ValueOf, ArrayAt;
    var s := TWO_LINES;
    TwoLinesAreArray();
    ArrayIsRead(s, 9, ["a", "b"]);
    CommentBehind(s, 10);
    FindIs(s, '\n', 0, 5);
    ArrayEnds(s);
  }

  /** The same behind an empty array. */
  lemma CommentAfterEmptyArray()
    ensures ValueOf("[\n]#\n") == Value(Array, Null, true, 1, false)
  {
    var s := "[\n]#\n";
    SkipIs(s, 1, 2, |s|);
    CommentBehind(s, 3);
    FindIs(s, '\n', 0, 1);
  }
}
