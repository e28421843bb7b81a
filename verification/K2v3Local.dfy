/**
 How far a line of a k2v3 text reaches (src/k2v3.c:541-682): every line, well formed or not,
 says the same with any text behind it and leaves that text alone, unless it leaves an array
 open that could still be closed.
 */
module K2v3Local {
  import opened Text
  import opened Escape
  import opened K2v3
  import opened K2v3Parse
  import opened K2v3Lines
  import K2v3Laws
  import opened K2v3Arrays

  // ----- arrays that close on their line -----

  lemma SkipTo(s: string, skip: set<char>, j: nat, q: nat, end: nat)
    requires j <= q <= end <= |s| && (forall k | j <= k < q :: s[k] in skip) && (q < end ==> s[q] !in skip)
    ensures SkipAll(s, skip, j, end) == q
  {
  }

  /** Blanks that end inside a common front end at the same place. */
  lemma SkipSame(s: string, t: string, j: nat, m: nat, n: nat)
    requires j <= m <= |s| <= |t| && t[..|s|] == s && m <= n <= |t|
    ensures var q := SkipAll(s, BLANKS, j, m); q < m ==> SkipAll(t, BLANKS, j, n) == q
  {
    var q := SkipAll(s, BLANKS, j, m);
    if q < m {
      assert forall k | j <= k <= q :: s[k] == t[k];
      SkipTo(t, BLANKS, j, q, n);
    }
  }

  lemma SkipBoth(s: string, t: string, j: nat, i: nat)
    requires j <= i <= |s| && i <= |t| && s[..i] == t[..i]
    ensures SkipAll(s, BLANKS, j, i) == SkipAll(t, BLANKS, j, i)
  {
    var q := SkipAll(s, BLANKS, j, i);
    assert forall k | 0 <= k < i :: s[k] == s[..i][k] == t[..i][k] == t[k];
    SkipTo(t, BLANKS, j, q, i);
  }

  lemma SameChars(s: string, t: string, n: nat)
    requires n <= |s| && n <= |t| && s[..n] == t[..n]
    ensures forall k | 0 <= k < n :: s[k] == t[k]
  {
    assert forall k | 0 <= k < n :: s[k] == s[..n][k] == t[..n][k] == t[k];
  }

  lemma AfterSame(s: string, t: string, elem: string, from: nat, i: nat)
    requires from <= i < |s| && i < |t| && s[..i + 1] == t[..i + 1] && s[i] == ']' && t[i] == ']'
    ensures AfterElement(s, elem, from, i) == AfterElement(t, elem, from, i)
  {
    hide SkipAll;
    SameChars(s, t, i + 1);
    assert s[..i] == t[..i];
    SkipBoth(s, t, from, i);
    var e := SkipAll(s, BLANKS, from, i);
    if e < i {
      SkipBoth(s, t, e + 1, i);
    }
  }

  lemma QuoteSame(s: string, t: string, from: nat, i: nat)
    requires from <= i < |s| && i < |t| && s[..i + 1] == t[..i + 1]
    ensures var k, m := FirstBare(s, '"', from, from), FirstBare(t, '"', from, from);
            if k <= i then m == k && s[from..k] == t[from..k] else m > i
  {
    hide FirstBare, Escaped;
    var front := s[..i + 1];
    assert s[..|front|] == front && t[..|front|] == front;
    FirstBareInside(front, s, '"', from, from);
    FirstBareInside(front, t, '"', from, from);
    var k := FirstBare(s, '"', from, from);
    if k <= i {
      SubSlice(s, 0, i + 1, from, k);
      SubSlice(t, 0, i + 1, from, k);
    }
  }

  /** The element loop looks at nothing behind the closing bracket. */
  lemma TurnSame(s: string, t: string, j: nat, i: nat)
    requires j < i < |s| && i < |t| && s[..i + 1] == t[..i + 1] && s[i] == ']'
    ensures t[i] == ']' && TurnAt(s, j, i) == TurnAt(t, j, i)
  {
    hide SkipAll, Escaped, FirstBare, AfterElement;
    SameChars(s, t, i + 1);
    assert s[..i] == t[..i];
    SkipBoth(s, t, j, i);
    var q := SkipAll(s, BLANKS, j, i);
    if s[q] == '"' && q < i {
      QuoteSame(s, t, q + 1, i);
      var k := FirstBare(s, '"', q + 1, q + 1);
      if k < i {
        AfterSame(s, t, s[q + 1..k], k + 1, i);
      }
    }
  }

  lemma {:induction false} ElementsSame(s: string, t: string, j: nat, i: nat)
    requires j <= i < |s| && i < |t| && s[..i + 1] == t[..i + 1] && s[i] == ']'
    ensures t[i] == ']' && ReadElements(s, j, i) == ReadElements(t, j, i)
    decreases i - j
  {
    hide TurnAt;
    assert s[i] == s[..i + 1][i] == t[..i + 1][i] == t[i];
    if j < i {
      TurnSame(s, t, j, i);
      if TurnAt(s, j, i).Turn? {
        ElementsSame(s, t, TurnAt(s, j, i).next, i);
      }
    }
  }

  /** Where an array closes on its line. */
  ghost predicate ClosesOnLine(conf: string) {
    conf != "" && conf[0] == '[' && FirstBare(conf, ']', 1, 1) < |conf|
  }

  lemma BracketsSame(conf: string, rest: string)
    requires '\n' !in conf && ClosesOnLine(conf)
    ensures var s, t, i := conf + "\n", conf + "\n" + rest, FirstBare(conf, ']', 1, 1);
            && FirstBare(s, ']', 1, 1) == FirstBare(t, ']', 1, 1) == i
            && SkipAll(s, BLANKS, 1, |s|) == SkipAll(t, BLANKS, 1, |t|) <= i
            && ReadElements(s, 1, i) == ReadElements(t, 1, i)
  {
    hide Escaped, SkipAll, ReadElements, FirstBare;
    var s, t, i := conf + "\n", conf + "\n" + rest, FirstBare(conf, ']', 1, 1);
    assert s[..|conf|] == conf && t[..|conf|] == conf && t[..|s|] == s;
    FirstBareInside(conf, s, ']', 1, 1);
    FirstBareInside(conf, t, ']', 1, 1);
    BlanksStop(s, i);
    SkipSame(s, t, 1, |s|, |t|);
    assert s[..i + 1] == t[..i + 1];
    ElementsSame(s, t, 1, i);
  }

  lemma BlanksStop(s: string, i: nat)
    requires 1 <= i < |s| && s[i] == ']'
    ensures SkipAll(s, BLANKS, 1, |s|) <= i
  {
    assert s[i] !in BLANKS;
  }

  lemma ArrayOnLine(conf: string, rest: string)
    requires '\n' !in conf && ClosesOnLine(conf)
    ensures var v := ValueOf(conf + "\n"); ValueOf(conf + "\n" + rest) == v && |conf| <= v.jmp <= |conf| + 1
  {
    hide FirstBare, SkipAll, ReadElements, EndOfValue, Recover;
    var s, t, i := conf + "\n", conf + "\n" + rest, FirstBare(conf, ']', 1, 1);
    BracketsSame(conf, rest);
    RecoverOnLine(conf, rest);
    var p := SkipAll(s, BLANKS, 1, |s|);
    assert s[p] == t[p];
    EndOnLine(conf, rest, Value(Array, Null, true, p + 1, false));
    EndOnLine(conf, rest, Value(Scalar, Null, true, i + 1, true));
    var r := ReadElements(s, 1, i);
    if r.Elements? {
      EndOnLine(conf, rest, Value(Array, List(r.elems), false, i + 1, false));
    }
  }

  // ----- arrays that are left open -----

  /**
   From `j` on the text ends somewhere in blanks, quoted raw elements and separators: nothing
   so far refuses the array, and it could still be closed.
   */
  ghost predicate OpenAt(s: string, j: nat)
    requires j <= |s|
    decreases |s| - j
  {
    var q := SkipAll(s, BLANKS, j, |s|);
    q == |s| ||
    (s[q] == '"' &&
     var k := FirstBare(s, '"', q + 1, q + 1);
     k == |s| ||
     (k > q + 1 &&
      var e := SkipAll(s, BLANKS, k + 1, |s|);
      e == |s| || ((s[e] == ',' || s[e] == ';') && OpenAt(s, e + 1))))
  }

  lemma OpenSkip(s: string, j: nat)
    requires j <= |s|
    ensures OpenAt(s, SkipAll(s, BLANKS, j, |s|)) <==> OpenAt(s, j)
  {
    hide SkipAll, FirstBare;
    SkipTwice(s, j, |s|);
  }

  /** `t` goes on where `s` ends, and has the closing bracket at `i` behind it. */
  ghost predicate Continues(s: string, t: string, i: nat) {
    |s| <= i < |t| && t[..|s|] == s && t[i] == ']'
  }

  lemma SameInside(s: string, t: string, i: nat)
    requires Continues(s, t, i)
    ensures forall k | 0 <= k < |s| :: t[k] == s[k]
  {
    assert forall k | 0 <= k < |s| :: t[k] == t[..|s|][k] == s[k];
  }

  /** Behind an element, as long as there is something but blanks in `s`. */
  lemma AfterInside(s: string, t: string, elem: string, from: nat, i: nat)
    requires Continues(s, t, i) && from <= |s| && SkipAll(s, BLANKS, from, |s|) < |s|
    ensures var e := SkipAll(s, BLANKS, from, |s|);
            var n := SkipAll(t, BLANKS, e + 1, i);
            AfterElement(t, elem, from, i) ==
              if !(s[e] == ',' || s[e] == ';') then Refused(false)
              else if n == i then Refused(true) else Turn(elem, n)
  {
    hide SkipAll;
    SameInside(s, t, i);
    SkipSame(s, t, from, |s|, i);
  }

  /** A turn, for a quote and its closing quote whose places are known. */
  lemma TurnIs(t: string, j: nat, i: nat, q: nat, k: nat)
    requires j < i < |t| && t[i] == ']' && q == SkipAll(t, BLANKS, j, i) && q < i && t[q] == '"'
    requires k == FirstBare(t, '"', q + 1, q + 1) && k < i
    ensures TurnAt(t, j, i) == if k == q + 1 then Refused(false) else AfterElement(t, t[q + 1..k], k + 1, i)
  {
    hide SkipAll, Escaped, FirstBare, AfterElement;
  }

  lemma SliceInside(s: string, t: string, i: nat, from: nat, to: nat)
    requires Continues(s, t, i) && from <= to <= |s|
    ensures t[from..to] == s[from..to]
  {
    SubSlice(t, 0, |s|, from, to);
    assert t[0..|s|] == t[..|s|];
  }

  /** The quote and its closing quote stand in `t` where they stand in `s`. */
  lemma QuoteInside(s: string, t: string, j: nat, i: nat)
    requires Continues(s, t, i) && j <= |s|
    requires var q := SkipAll(s, BLANKS, j, |s|); q < |s| && s[q] == '"' && FirstBare(s, '"', q + 1, q + 1) < |s|
    ensures var q := SkipAll(s, BLANKS, j, |s|);
            j <= q && |s| <= i < |t| && t[i] == ']' && q == SkipAll(t, BLANKS, j, i) && t[q] == '"'
            && FirstBare(t, '"', q + 1, q + 1) == FirstBare(s, '"', q + 1, q + 1)
  {
    hide SkipAll, Escaped, FirstBare;
    SameInside(s, t, i);
    SkipSame(s, t, j, |s|, i);
    var q := SkipAll(s, BLANKS, j, |s|);
    FirstBareInside(s, t, '"', q + 1, q + 1);
  }

  /** A turn whose element is all inside `s`. */
  lemma TurnInside(s: string, t: string, j: nat, i: nat)
    requires Continues(s, t, i) && j <= |s|
    requires var q := SkipAll(s, BLANKS, j, |s|); q < |s| && s[q] == '"' && FirstBare(s, '"', q + 1, q + 1) < |s|
    ensures var q := SkipAll(s, BLANKS, j, |s|);
            var k := FirstBare(s, '"', q + 1, q + 1);
            j < i && TurnAt(t, j, i) == if k == q + 1 then Refused(false) else AfterElement(t, s[q + 1..k], k + 1, i)
  {
    hide SkipAll, Escaped, FirstBare, AfterElement, TurnAt, Continues;
    var q := SkipAll(s, BLANKS, j, |s|);
    var k := FirstBare(s, '"', q + 1, q + 1);
    QuoteInside(s, t, j, i);
    SliceInside(s, t, i, q + 1, k);
    TurnIs(t, j, i, q, k);
  }

  lemma NoQuote(s: string, t: string, j: nat, i: nat)
    requires Continues(s, t, i) && j <= |s|
    requires var q := SkipAll(s, BLANKS, j, |s|); q < |s| && s[q] != '"'
    ensures j < i && TurnAt(t, j, i) == Refused(false)
  {
    hide SkipAll, FirstBare, AfterElement;
    SameInside(s, t, i);
    SkipSame(s, t, j, |s|, i);
  }

  lemma RefusedLoop(t: string, j: nat, i: nat)
    requires j < i < |t| && t[i] == ']'
    ensures TurnAt(t, j, i) == Refused(false) ==> ReadElements(t, j, i) == BadElements(false)
    ensures TurnAt(t, j, i).Turn? && ReadElements(t, TurnAt(t, j, i).next, i) == BadElements(false)
            ==> ReadElements(t, j, i) == BadElements(false)
    ensures TurnAt(t, j, i).Turn? && ReadElements(t, TurnAt(t, j, i).next, i).Elements?
            ==> ReadElements(t, j, i).Elements?
  {
    hide TurnAt;
  }

  /** An element inside `s`, with its separator at `e`. */
  ghost predicate ElementBefore(s: string, j: nat, e: nat)
    requires j <= |s|
  {
    var q := SkipAll(s, BLANKS, j, |s|);
    && q < |s| && s[q] == '"'
    && var k := FirstBare(s, '"', q + 1, q + 1);
       q + 1 < k < |s| && SkipAll(s, BLANKS, k + 1, |s|) == e < |s| && (s[e] == ',' || s[e] == ';')
  }

  /** The turn that reads it. */
  lemma TurnBefore(s: string, t: string, j: nat, i: nat, e: nat)
    requires Continues(s, t, i) && j <= |s| && ElementBefore(s, j, e)
    ensures var n := SkipAll(t, BLANKS, e + 1, i);
            j < i && n <= i && if n == i then TurnAt(t, j, i) == Refused(true)
                               else TurnAt(t, j, i).Turn? && TurnAt(t, j, i).next == n
  {
    hide SkipAll, FirstBare, TurnAt, AfterElement, Escaped;
    TurnInside(s, t, j, i);
    var q := SkipAll(s, BLANKS, j, |s|);
    var k := FirstBare(s, '"', q + 1, q + 1);
    AfterInside(s, t, s[q + 1..k], k + 1, i);
  }

  /** What is not open is refused here, or goes on behind an element that is not open. */
  lemma RefusedCases(s: string, t: string, j: nat, i: nat) returns (e: nat)
    requires Continues(s, t, i) && j <= |s| && !OpenAt(s, j)
    ensures j < i && (TurnAt(t, j, i) == Refused(false) || (ElementBefore(s, j, e) && !OpenAt(s, e + 1)))
  {
    hide SkipAll, FirstBare, TurnAt, AfterElement, Escaped, Continues;
    e := 0;
    var q := SkipAll(s, BLANKS, j, |s|);
    if s[q] != '"' {
      NoQuote(s, t, j, i);
    } else {
      TurnInside(s, t, j, i);
      var k := FirstBare(s, '"', q + 1, q + 1);
      if k > q + 1 {
        AfterInside(s, t, s[q + 1..k], k + 1, i);
        e := SkipAll(s, BLANKS, k + 1, |s|);
      }
    }
  }

  /** What is refused so far stays refused, whatever closes the array. */
  lemma {:induction false} RefusedStays(s: string, t: string, j: nat, i: nat)
    requires Continues(s, t, i) && j <= |s| && !OpenAt(s, j)
    ensures j < i && ReadElements(t, j, i) == BadElements(false)
    decreases |s| - j
  {
    hide SkipAll, FirstBare, TurnAt, AfterElement, ReadElements, Continues, OpenAt, ElementBefore;
    var e := RefusedCases(s, t, j, i);
    ContinuesAt(s, t, i);
    if TurnAt(t, j, i) != Refused(false) {
      BehindElement(s, j, e);
      TurnBefore(s, t, j, i, e);
      RefusedNext(s, t, e + 1, i);
      RefusedStays(s, t, SkipAll(s, BLANKS, e + 1, |s|), i);
    }
    RefusedLoop(t, j, i);
  }

  lemma BehindElement(s: string, j: nat, e: nat)
    requires j <= |s| && ElementBefore(s, j, e)
    ensures j < e < |s|
  {
    hide SkipAll, FirstBare;
  }

  lemma ContinuesAt(s: string, t: string, i: nat)
    requires Continues(s, t, i)
    ensures |s| <= i < |t| && t[i] == ']'
  {
  }

  lemma RefusedNext(s: string, t: string, j: nat, i: nat)
    requires Continues(s, t, i) && j <= |s| && !OpenAt(s, j)
    ensures var n := SkipAll(s, BLANKS, j, |s|); n < |s| && SkipAll(t, BLANKS, j, i) == n && !OpenAt(s, n)
  {
    hide SkipAll, FirstBare, OpenAt;
    StillRefused(s, j);
    OpenSkip(s, j);
    SkipSame(s, t, j, |s|, i);
  }

  /** An open array, unfolded once. */
  lemma OpenCases(s: string, j: nat)
    requires j <= |s| && OpenAt(s, j)
    ensures var q := SkipAll(s, BLANKS, j, |s|);
            q < |s| ==>
              && s[q] == '"'
              && var k := FirstBare(s, '"', q + 1, q + 1);
                 k < |s| ==>
                   && q + 1 < k
                   && var e := SkipAll(s, BLANKS, k + 1, |s|);
                      e < |s| ==> (s[e] == ',' || s[e] == ';') && OpenAt(s, e + 1)
  {
    hide SkipAll, FirstBare;
  }

  lemma StillRefused(s: string, j: nat)
    requires j <= |s| && !OpenAt(s, j)
    ensures SkipAll(s, BLANKS, j, |s|) < |s|
  {
    hide SkipAll, FirstBare;
  }

  // ----- and could still be closed -----

  /** What closes an array: behind an element, in place of one, or inside one. */
  const CLOSERS := ["]", "\"x\"]", "x\"]"]

  /** The text with its array closed by one of them. */
  function Closed(s: string, c: nat): (t: string)
    requires c < 3
    ensures |t| == |s| + |CLOSERS[c]| + 1 && t[..|s|] == s
  {
    assert (s + CLOSERS[c] + "\n")[..|s|] == s;
    s + CLOSERS[c] + "\n"
  }

  lemma ClosedChars(s: string, c: nat)
    requires c < 3
    ensures var t, n := Closed(s, c), |s|;
            && t[|t| - 2] == ']' && t[|t| - 1] == '\n'
            && (c == 0 ==> |t| == n + 2)
            && (c == 1 ==> |t| == n + 5 && t[n] == '"' && t[n + 1] == 'x' && t[n + 2] == '"')
            && (c == 2 ==> |t| == n + 4 && t[n] == 'x' && t[n + 1] == '"')
  {
  }

  /** One quoted letter and the end. */
  lemma LetterTurn(s: string, j: nat)
    requires j <= |s| && SkipAll(s, BLANKS, j, |s|) == |s|
    ensures var t := Closed(s, 1); ReadElements(t, j, |t| - 2) == Elements(["x"])
  {
    hide SkipAll, Closed;
    ClosedChars(s, 1);
    var t, n := Closed(s, 1), |s|;
    assert forall k | 0 <= k < n :: t[k] == t[..n][k];
    LastLetter(t, j, n, 'x');
    ElementsExact(t, j, n + 3, ["x"]);
  }

  /** The unfinished element gets one more letter and its quote. */
  lemma ElementTurn(s: string, j: nat)
    requires j <= |s| && s != "" && s[|s| - 1] != '\\'
    requires var q := SkipAll(s, BLANKS, j, |s|); q < |s| && s[q] == '"' && FirstBare(s, '"', q + 1, q + 1) == |s|
    ensures var t := Closed(s, 2); ReadElements(t, j, |t| - 2).Elements?
  {
    hide SkipAll, Escaped, FirstBare, Closed;
    ClosedChars(s, 2);
    var t, n := Closed(s, 2), |s|;
    var q, i := SkipAll(s, BLANKS, j, n), n + 2;
    SkipSame(s, t, j, n, i);
    assert s[q] == t[q] by { assert t[..n][q] == t[q]; }
    QuoteComes(s, t, q + 1);
    SkipTo(t, BLANKS, i, i, i);
    assert TurnAt(t, j, i) == Turn(t[q + 1..n + 1], i);
  }

  /** A quote of a text without a bare quote stays the second half of a pair behind it. */
  lemma PairedInside(s: string, t: string, from: nat, j: nat)
    requires from <= j < |s| <= |t| && t[..|s|] == s && FirstBare(s, '"', from, from) == |s| && t[j] == '"'
    ensures Escaped(t[from..j])
  {
    hide FirstBare, Escaped;
    FirstBareLeast(s, '"', from, from);
    SubSlice(t, 0, |s|, from, j);
    assert t[0..|s|] == t[..|s|];
    assert t[..|s|][j] == s[j];
  }

  lemma QuoteComes(s: string, t: string, from: nat)
    requires from <= |s| && |s| + 1 < |t| && t[..|s|] == s && t[|s|] == 'x' && t[|s| + 1] == '"'
    requires FirstBare(s, '"', from, from) == |s|
    ensures FirstBare(t, '"', from, from) == |s| + 1
  {
    hide FirstBare, Escaped;
    var v := t[from..|s| + 1];
    forall j | 0 <= j < |v| && v[j] == '"' ensures Escaped(v[..j]) {
      assert v[..j] == t[from..from + j];
      PairedInside(s, t, from, from + j);
    }
    EndsUnescaped(v);
    FirstBareIs(t, '"', from, v);
  }

  lemma EndsUnescaped(v: string)
    requires v != "" && v[|v| - 1] != '\\'
    ensures !Escaped(v)
  {
  }

  /** The finished element gets its bracket. */
  lemma BracketTurn(s: string, j: nat)
    requires j <= |s|
    requires var q := SkipAll(s, BLANKS, j, |s|);
             && q < |s| && s[q] == '"'
             && var k := FirstBare(s, '"', q + 1, q + 1); q + 1 < k < |s| && SkipAll(s, BLANKS, k + 1, |s|) == |s|
    ensures var t := Closed(s, 0); ReadElements(t, j, |t| - 2).Elements?
  {
    hide SkipAll, Escaped, FirstBare, Closed, TurnAt, Continues;
    ClosedChars(s, 0);
    ClosedContinues(s, 0);
    var t, n := Closed(s, 0), |s|;
    var q := SkipAll(s, BLANKS, j, n);
    TurnInside(s, t, j, n);
    var k := FirstBare(s, '"', q + 1, q + 1);
    SameInside(s, t, n);
    SkipTo(t, BLANKS, k + 1, n, n);
  }

  /** An open array is accepted once it is closed in one of the three ways. */
  lemma {:induction false} OpenCloses(s: string, j: nat) returns (c: nat)
    requires j <= |s| && s != "" && s[|s| - 1] == '\n' && OpenAt(s, j)
    ensures c < 3 && (SkipAll(s, BLANKS, j, |s|) == |s| ==> c == 1)
    ensures var t := Closed(s, c); Continues(s, t, |t| - 2) && ReadElements(t, j, |t| - 2).Elements?
    decreases |s| - j
  {
    hide SkipAll, FirstBare, TurnAt, Closed, ReadElements, Continues, AfterElement, OpenAt, Escaped;
    OpenCases(s, j);
    var q := SkipAll(s, BLANKS, j, |s|);
    if q == |s| {
      c := 1;
      LetterTurn(s, j);
    } else {
      var k := FirstBare(s, '"', q + 1, q + 1);
      if k == |s| {
        c := 2;
        ElementTurn(s, j);
      } else {
        var e := SkipAll(s, BLANKS, k + 1, |s|);
        if e == |s| {
          c := 0;
          BracketTurn(s, j);
        } else {
          OpenNext(s, e + 1);
          c := OpenCloses(s, SkipAll(s, BLANKS, e + 1, |s|));
          ClosedTurn(s, c, j, e);
        }
      }
    }
    ClosedContinues(s, c);
  }

  lemma ClosedContinues(s: string, c: nat)
    requires c < 3
    ensures var t := Closed(s, c); Continues(s, t, |t| - 2)
  {
    hide Closed;
    ClosedChars(s, c);
  }

  lemma OpenNext(s: string, j: nat)
    requires j <= |s| && OpenAt(s, j)
    ensures var n := SkipAll(s, BLANKS, j, |s|); OpenAt(s, n) && SkipAll(s, BLANKS, n, |s|) == n
  {
    hide SkipAll, FirstBare, OpenAt;
    OpenSkip(s, j);
    SkipTwice(s, j, |s|);
  }

  /** A turn inside `s` in front of an array that is closed and accepted. */
  lemma ClosedTurn(s: string, c: nat, j: nat, e: nat)
    requires c < 3 && j <= |s| && ElementBefore(s, j, e)
    requires SkipAll(s, BLANKS, e + 1, |s|) == |s| ==> c == 1
    requires var t := Closed(s, c); ReadElements(t, SkipAll(s, BLANKS, e + 1, |s|), |t| - 2).Elements?
    ensures var t := Closed(s, c); ReadElements(t, j, |t| - 2).Elements?
  {
    hide SkipAll, FirstBare, TurnAt, Closed, ReadElements, Continues, ElementBefore;
    var t := Closed(s, c);
    ClosedContinues(s, c);
    BehindElement(s, j, e);
    NextInside(s, c, e + 1);
    TurnBefore(s, t, j, |t| - 2, e);
    ContinuesAt(s, t, |t| - 2);
    RefusedLoop(t, j, |t| - 2);
  }

  /** Where the next turn starts, inside the text or right behind it. */
  lemma NextInside(s: string, c: nat, j: nat)
    requires c < 3 && j <= |s| && (SkipAll(s, BLANKS, j, |s|) == |s| ==> c == 1)
    ensures var t := Closed(s, c);
            SkipAll(t, BLANKS, j, |t| - 2) == SkipAll(s, BLANKS, j, |s|) < |t| - 2
  {
    hide SkipAll, Closed;
    ClosedChars(s, c);
    var t, n := Closed(s, c), SkipAll(s, BLANKS, j, |s|);
    if n < |s| {
      SkipSame(s, t, j, |s|, |t| - 2);
    } else {
      assert forall m | 0 <= m < |s| :: t[m] == t[..|s|][m] == s[m];
      SkipTo(t, BLANKS, j, n, |t| - 2);
    }
  }

  // ----- values -----

  /** An array starts here, is not closed on this line, and nothing in it is refused yet. */
  ghost predicate LeftOpen(conf: string) {
    conf != "" && conf[0] == '[' && FirstBare(conf, ']', 1, 1) == |conf| && OpenAt(conf + "\n", 1)
  }

  lemma NoBracketYet(conf: string)
    requires conf != "" && conf[0] == '[' && FirstBare(conf, ']', 1, 1) == |conf|
    ensures FirstBare(conf + "\n", ']', 1, 1) == |conf| + 1
  {
    hide FirstBare, Escaped;
    var s := conf + "\n";
    assert s[..|conf|] == conf;
    FirstBareInside(conf, s, ']', 1, 1);
    assert s[|conf|] == '\n';
  }

  /** The closing bracket is the first bare one. */
  lemma BracketComes(s: string, c: nat)
    requires c < 3 && |s| >= 2 && s[|s| - 1] == '\n' && FirstBare(s, ']', 1, 1) == |s|
    ensures var t := Closed(s, c); FirstBare(t, ']', 1, 1) == |t| - 2
  {
    hide FirstBare, Closed;
    ClosedChars(s, c);
    var t := Closed(s, c);
    var i := |t| - 2;
    var v := t[1..i];
    FirstBareLeast(s, ']', 1, 1);
    SameChars(s, t, |s|);
    forall j | 0 <= j < |v| && v[j] == ']' ensures Escaped(v[..j]) {
      assert v[j] == t[1 + j] && v[..j] == t[1..1 + j];
      assert 1 + j < |s|;
      SubSlice(t, 0, |s|, 1, 1 + j);
    }
    assert v[|v| - 1] == t[i - 1] && t[i - 1] != '\\';
    FirstBareIs(t, ']', 1, v);
  }

  /** Left open and then closed: an array. */
  lemma OpenIsAccepted(conf: string) returns (c: nat)
    requires LeftOpen(conf)
    ensures c < 3 && ValueOf(Closed(conf + "\n", c)).payload.List?
  {
    hide FirstBare, Closed, OpenAt, ReadElements, SkipAll, Escaped, Recover;
    var s := conf + "\n";
    c := OpenCloses(s, 1);
    ClosedChars(s, c);
    var t := Closed(s, c);
    NoBracketYet(conf);
    BracketComes(s, c);
    SameChars(s, t, |s|);
    OpenCases(s, 1);
    QuoteFirst(s, c);
    LineEndsThere(t, |t| - 1);
  }

  lemma QuoteFirst(s: string, c: nat)
    requires c < 3 && s != "" && (SkipAll(s, BLANKS, 1, |s|) == |s| ==> c == 1)
    requires var q := SkipAll(s, BLANKS, 1, |s|); q < |s| ==> s[q] == '"'
    ensures var t := Closed(s, c); var p := SkipAll(t, BLANKS, 1, |t|); p < |t| && t[p] == '"'
  {
    hide SkipAll, Closed;
    ClosedChars(s, c);
    var t, n := Closed(s, c), SkipAll(s, BLANKS, 1, |s|);
    SameChars(s, t, |s|);
    if n < |s| {
      SkipSame(s, t, 1, |s|, |t|);
    } else {
      SkipTo(t, BLANKS, 1, n, |t|);
    }
  }

  lemma LineEndsThere(s: string, j: nat)
    requires 0 < j < |s| && s[j] == '\n'
    ensures forall v: Value :: v.jmp == j && s[0] != '\n' ==> EndOfValue(s, v) == v
  {
  }

  /** Refused: recovery on the line, whatever follows. */
  lemma RefusedRecovers(conf: string, rest: string)
    requires conf != "" && conf[0] == '[' && FirstBare(conf, ']', 1, 1) == |conf| && !OpenAt(conf + "\n", 1)
    ensures var t := conf + "\n" + rest; ValueOf(t) == Recover(t)
  {
    hide FirstBare, OpenAt, ReadElements, SkipAll, Escaped, Recover;
    var s, t := conf + "\n", conf + "\n" + rest;
    assert t[..|s|] == s && t[0] == '[';
    NoBracketYet(conf);
    FirstBareInside(s, t, ']', 1, 1);
    StillRefused(s, 1);
    SkipSame(s, t, 1, |s|, |t|);
    EmptyCloses(t);
    var i := FirstBare(t, ']', 1, 1);
    if i < |t| {
      RefusedStays(s, t, 1, i);
    }
  }

  lemma ValueLocal(conf: string, rest: string)
    requires '\n' !in conf && !LeftOpen(conf)
    ensures var v := ValueOf(conf + "\n"); ValueOf(conf + "\n" + rest) == v && |conf| <= v.jmp <= |conf| + 1
  {
    hide ValueOf, FirstBare, OpenAt, Recover;
    if conf == "" || conf[0] != '[' {
      ValueOnLine(conf, rest);
    } else if FirstBare(conf, ']', 1, 1) < |conf| {
      ArrayOnLine(conf, rest);
    } else {
      RefusedRecovers(conf, rest);
      RefusedRecovers(conf, "");
      assert conf + "\n" + "" == conf + "\n";
      RecoverOnLine(conf, rest);
    }
  }

  // ----- lines -----

  /** The line has a key, and leaves an array open behind it. */
  ghost predicate ArrayLeftOpen(l: string) {
    exists n: nat :: KeyAt(l, n) && LeftOpen(l[n + 1..])
  }

  /** The line says the same in front of this text as on its own, and leaves the text alone. */
  ghost predicate LocalBefore(l: string, rest: string) {
    var own := Entries(l + "\n");
    Entries(l + "\n" + rest) == After(own.nodes, own.warned, Entries(rest))
  }

  lemma LineLocal(l: string, rest: string)
    requires '\n' !in l && !ArrayLeftOpen(l)
    ensures var e := LineAt(l + "\n"); LineAt(l + "\n" + rest) == e && !e.BareKey? && |l| <= e.jmp <= |l| + 1
  {
    hide ValueOf, KeySpan, SkipLine, ArrayLeftOpen, LeftOpen, IsKey;
    var s, t := l + "\n", l + "\n" + rest;
    SkipOnLine(l, rest);
    assert s[0] == t[0];
    SpanInside(l, rest, 0);
    var n := KeySpan(s, 0);
    assert s[..n] == t[..n] == l[..n] && s[n] == t[n];
    if KeyAt(s, n) {
      assert n < |l| && KeyAt(l, n);
      NotOpenAt(l, n);
      var conf := l[n + 1..];
      assert s[n + 1..] == conf + "\n" && t[n + 1..] == conf + "\n" + rest;
      ValueLocal(conf, rest);
    }
  }

  lemma NotOpenAt(l: string, n: nat)
    requires KeyAt(l, n) && !ArrayLeftOpen(l)
    ensures !LeftOpen(l[n + 1..])
  {
    hide LeftOpen;
  }

  /**
   Recovery works line by line: whatever a line is, well formed or not, unless it leaves an
   array open it says the same with any text behind it, and leaves that text alone.
   */
  lemma LineByLine(l: string, rest: string)
    requires '\n' !in l && !ArrayLeftOpen(l)
    ensures LocalBefore(l, rest)
    ensures !Entries(l + "\n").bare && |Entries(l + "\n").nodes| <= 1
  {
    hide LineAt, ArrayLeftOpen;
    var s, t := l + "\n", l + "\n" + rest;
    LineLocal(l, rest);
    var e := LineAt(s);
    BehindLine(l, rest, e.jmp);
    BehindLine(l, "", e.jmp);
    assert s + "" == s;
  }

  /** The entry of a key line, with its value. */
  lemma FirstEntry(l: string, n: nat, more: string)
    requires KeyAt(l, n) && n + 1 < |l + more|
    ensures var s := l + more;
            Entries(s).nodes != [] && Entries(s).nodes[0].payload == NodeOf(l[..n], ValueOf(s[n + 1..])).payload
  {
    hide ValueOf, KeySpan, IsKey;
    var s := l + more;
    assert s[..n] == l[..n] && s[n] == l[n];
    assert KeyAt(s, n);
    KeyIsSpan(s, n);
    KeyStart(s, n);
  }

  lemma KeyStart(s: string, n: nat)
    requires KeyAt(s, n)
    ensures n > 0 && s[0] != '\n' && s[0] != '#' && s[0] != ' '
  {
    assert s[..n][0] == s[0];
  }

  /** A line that leaves an array open does depend on what follows: the array can be closed. */
  lemma OpenIsNotLocal(l: string) returns (rest: string)
    requires '\n' !in l && ArrayLeftOpen(l)
    ensures !LocalBefore(l, rest)
  {
    hide ValueOf, LeftOpen, Entries, Closed, IsKey;
    var n: nat :| KeyAt(l, n) && LeftOpen(l[n + 1..]);
    var conf := l[n + 1..];
    var c := OpenIsAccepted(conf);
    rest := CLOSERS[c] + "\n";
    FirstEntry(l, n, "\n");
    FirstEntry(l, n, "\n" + rest);
    assert l + ("\n" + rest) == l + "\n" + rest;
    ClosedIs(conf, c);
    assert (l + "\n" + rest)[n + 1..] == Closed(conf + "\n", c);
    assert (l + "\n")[n + 1..] == conf + "\n";
    Unclosed(conf);
    ListIsThere(l[..n], Closed(conf + "\n", c));
  }

  lemma ClosedIs(conf: string, c: nat)
    requires c < 3
    ensures Closed(conf + "\n", c) == conf + "\n" + (CLOSERS[c] + "\n")
  {
    assert conf + "\n" + (CLOSERS[c] + "\n") == conf + "\n" + CLOSERS[c] + "\n";
  }

  lemma ListIsThere(key: string, t: string)
    requires t != "" && ValueOf(t).payload.List?
    ensures NodeOf(key, ValueOf(t)).payload.List?
  {
    hide ValueOf, K2v3Laws.RawPayload;
    K2v3Laws.RawValues(t);
  }

  /** On its own an open array is unterminated. */
  lemma Unclosed(conf: string)
    requires LeftOpen(conf)
    ensures ValueOf(conf + "\n") == Recover(conf + "\n")
  {
    hide FirstBare, OpenAt, SkipAll, ReadElements, Recover;
    NoBracketYet(conf);
    EmptyCloses(conf + "\n");
  }

  /** Exactly the lines that leave no array open are local. */
  lemma LocalExactly(l: string)
    requires '\n' !in l
    ensures (forall rest: string :: LocalBefore(l, rest)) <==> !ArrayLeftOpen(l)
  {
    hide LocalBefore, ArrayLeftOpen;
    if ArrayLeftOpen(l) {
      var rest := OpenIsNotLocal(l);
    } else {
      forall rest: string ensures LocalBefore(l, rest) {
        LineByLine(l, rest);
      }
    }
  }
}
