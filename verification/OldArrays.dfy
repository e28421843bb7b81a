/**
 Arrays as the older k2v reader takes them apart (src/k2v.c:1156-1273), escapes and blanks
 included: which characters and which elements get lost on the way.
 */
module OldArrays {
  import opened Text
  import opened Escape
  import opened K2v3Emit
  import opened RoundTrip
  import opened OldLint
  import opened OldGet
  import opened PlainText
  import opened OldLines

  // ----- escapes -----

  /** The characters of a text that no backslash covers. */
  function Bared(v: string): (r: string)
    ensures |r| <= |v|
  {
    if v == "" then "" else
    var front := v[..|v| - 1];
    Bared(front) + (if Escaped(front) then "" else [v[|v| - 1]])
  }

  lemma {:induction false} BaredAppend(a: string, b: string)
    requires !Escaped(a)
    ensures Bared(a + b) == Bared(a) + Bared(b)
    decreases |b|
  {
    hide Escaped;
    if b == "" {
      assert a + b == a;
    } else {
      var m := |b| - 1;
      assert (a + b)[..|a| + m] == a + b[..m];
      BaredAppend(a, b[..m]);
      EscapedAppend(a, b[..m]);
    }
  }

  /** The first pair or character of a text. */
  lemma BaredFront(v: string)
    requires v != "" && !Escaped(v)
    ensures var n := if v[0] == '\\' then 2 else 1; n <= |v| && Bared(v) == [v[0]] + Bared(v[n..])
  {
    hide Bared;
    FrontIsPaired(v);
    var n := if v[0] == '\\' then 2 else 1;
    assert v == v[..n] + v[n..];
    BaredAppend(v[..n], v[n..]);
    BaredPair(v[..n]);
  }

  lemma BaredPair(p: string)
    requires |p| == 1 || (|p| == 2 && p[0] == '\\')
    ensures Bared(p) == [p[0]]
  {
    var f := p[..|p| - 1];
    if |p| == 1 {
      assert f == "" && p == [p[0]];
    } else {
      assert f == ['\\'] && f[..0] == "" && Escaped(f);
    }
  }

  /** The copy loop drops exactly the second character of every pair. */
  lemma {:induction false} CopyIs(w: string, rest: string, done: string, tail: string, len: nat)
    requires NoBare(w, '"') && !Escaped(w)
    ensures CopyVal(w + "\"" + rest, done, tail, len) == done + Bared(w)
    decreases |w|
  {
    hide NoBare, Escaped, Bared;
    var q := w + "\"" + rest;
    if w == "" {
      assert q[0] == '"';
      BaredNothing();
    } else {
      FrontIsPaired(w);
      QuoteNotFirst(w);
      BaredFront(w);
      var n := if w[0] == '\\' then 2 else 1;
      BehindFront(w, n, '"');
      assert q[n..] == w[n..] + "\"" + rest && q[0] == w[0];
      CopyIs(w[n..], rest, done + [w[0]], if n == 2 then q[1..2] else "", len);
      assert done + [w[0]] + Bared(w[n..]) == done + ([w[0]] + Bared(w[n..]));
    }
  }

  lemma BaredNothing()
    ensures Bared("") == ""
  {
  }

  lemma QuoteNotFirst(w: string)
    requires w != "" && NoBare(w, '"')
    ensures w[0] != '"'
  {
    assert w[..0] == "" && !Escaped("");
  }

  /** What may stand between quotes, for both readers. */
  ghost predicate Element(v: string) {
    v != "" && !Escaped(v) && NoBare(v, '"') && v[0] !in {' ', ']'}
  }

  /** __current_val returns an element without the characters that a backslash covers. */
  lemma CurrentIs(n: nat, v: string, rest: string)
    requires v != "" && !Escaped(v) && NoBare(v, '"')
    ensures CurrentVal(Blanks(n) + (Quoted(v) + rest)) == if v[0] == ']' then None else Some(Bared(v))
  {
    hide NoBare, Escaped, CopyVal, Bared, Blanks;
    var p := Blanks(n) + (Quoted(v) + rest);
    assert p[n] == '"';
    assert Find(p, '"', 0) == n;
    assert p[n + 1..] == v + "\"" + rest;
    CopyIs(v, rest, "", "", |p| - n - 1);
    BaredFront(v);
    assert "" + Bared(v) == Bared(v);
  }

  // ----- the next value -----

  /** The bracket check skips blanks two at a time: it comes out at the quote or behind it. */
  lemma {:induction false} NotAtBracket(p: string, i: nat, n: nat)
    requires i <= n + 1 < |p| && (forall j | i <= j < n :: p[j] == ' ') && p[n] == '"' && p[n + 1] !in {' ', ']'}
    ensures !AtBracket(p, i)
    decreases n + 2 - i
  {
    if i < n {
      NotAtBracket(p, i + 2, n);
    }
  }

  lemma {:induction false} CommaBlanks(p: string, i: nat, n: nat)
    requires i <= n <= |p| && forall j | i <= j < n :: p[j] == ' '
    ensures NextComma(p, i, 0, None) == NextComma(p, n, 0, None)
    decreases n - i
  {
    if i < n {
      CommaBlanks(p, i + 1, n);
    }
  }

  /** Past the text of an element, escapes included. */
  lemma {:induction false} CommaPaired(p: string, i: nat, w: string)
    requires i + |w| <= |p| && p[i..i + |w|] == w && NoBare(w, '"') && !Escaped(w)
    ensures NextComma(p, i, 1, None) == NextComma(p, i + |w|, 1, None)
    decreases |w|
  {
    hide NoBare, Escaped;
    if w != "" {
      FrontIsPaired(w);
      QuoteNotFirst(w);
      var n := if w[0] == '\\' then 2 else 1;
      BehindFront(w, n, '"');
      assert p[i] == w[0];
      SubSlice(p, i, i + |w|, n, |w|);
      assert w[n..] == w[n..|w|];
      CommaPaired(p, i + n, w[n..]);
    }
  }

  /** Between two quotes: each place takes the next comma again. */
  lemma {:induction false} CommaAgain(p: string, i: nat, n: nat, c: nat, ret: Option<nat>)
    requires i < n < |p| && (forall j | i <= j < n :: p[j] !in {'"', '\\'}) && p[n] == '"'
    requires n - 1 <= c < |p| && Find(p, ',', n - 1) == c && (forall j | i <= j < n - 1 :: p[j] != ',')
    requires ret.Some? ==> 0 < ret.value <= |p|
    ensures NextComma(p, i, 2, ret) == Some(c + 1)
    decreases n - i
  {
    SameComma(p, i, n - 1);
    if i + 1 < n {
      CommaAgain(p, i + 1, n, c, Some(c + 1));
    } else {
      CommaSettled(p, n + 1, 3, Some(c + 1));
      assert NextComma(p, n, 2, Some(c + 1)) == Some(c + 1);
    }
  }

  lemma SameComma(p: string, i: nat, n: nat)
    requires i <= n <= |p| && forall j | i <= j < n :: p[j] != ','
    ensures Find(p, ',', i) == Find(p, ',', n)
  {
    var c := Find(p, ',', n);
    if c < |p| {
      FindIs(p, ',', i, c);
    }
  }

  /** From the closing quote up to the comma behind it. */
  lemma {:induction false} CommaUpTo(p: string, i: nat, c: nat, ret: Option<nat>)
    requires i <= c < |p| && p[c] == ',' && (forall j | i <= j < c :: p[j] !in {'"', '\\', ','})
    requires ret.Some? ==> 0 < ret.value <= |p|
    ensures NextComma(p, i, 2, ret) == NextComma(p, c + 1, 2, Some(c + 1))
    decreases c - i
  {
    FindIs(p, ',', i, c);
    if i < c {
      CommaUpTo(p, i + 1, c, Some(c + 1));
    }
  }

  /** Behind that comma: a quote right away settles it, blanks make the loop look for the next comma. */
  lemma CommaBehind(p: string, c: nat, n: nat)
    requires c < n < |p| && p[c] == ',' && (forall j | c < j < n :: p[j] == ' ') && p[n] == '"'
    ensures var d := Find(p, ',', n);
            NextComma(p, c + 1, 2, Some(c + 1)) ==
              if n == c + 1 then Some(c + 1) else if d == |p| then None else Some(d + 1)
  {
    if n == c + 1 {
      CommaSettled(p, n + 1, 3, Some(c + 1));
    } else {
      var d := Find(p, ',', n);
      SameComma(p, c + 1, n);
      if d < |p| {
        SameComma(p, n - 1, n);
        CommaAgain(p, c + 1, n, d, Some(c + 1));
      }
    }
  }

  /** The front of an array from an element on: blanks, the element in quotes, and the rest. */
  lemma ElementPlaces(x: nat, v: string, rest: string)
    ensures var p, e := Blanks(x) + (Quoted(v) + rest), x + |v| + 1;
            && e < |p| && p[x] == '"' && p[x + 1..x + 1 + |v|] == v && p[e] == '"' && p[e + 1..] == rest
            && (forall j | 0 <= j < x :: p[j] == ' ') && (v != "" ==> p[x + 1] == v[0])
  {
    hide Blanks;
    var p := Blanks(x) + (Quoted(v) + rest);
    var q := Quoted(v) + rest;
    assert p[x..] == q;
    assert q[1..|v| + 1] == v && q[|v| + 2..] == rest;
    assert p[x + 1..x + 1 + |v|] == p[x..][1..|v| + 1];
    DropDrop(p, x, |v| + 2);
  }

  lemma ToCloseQuote(x: nat, v: string, rest: string)
    requires Element(v)
    ensures var p, e := Blanks(x) + (Quoted(v) + rest), x + |v| + 1;
            && e < |p| && p[e] == '"' && p[e + 1..] == rest
            && NextVal(p) == (if Find(p, ',', e) == |p| then None
                              else NextComma(p, e + 1, 2, Some(Find(p, ',', e) + 1)))
  {
    hide Blanks, Quoted;
    ElementPlaces(x, v, rest);
    FromOpenQuote(Blanks(x) + (Quoted(v) + rest), x, v);
  }

  lemma FromOpenQuote(p: string, x: nat, v: string)
    requires Element(v) && x + |v| + 1 < |p| && (forall j | 0 <= j < x :: p[j] == ' ')
    requires p[x] == '"' && p[x + 1..x + 1 + |v|] == v && p[x + |v| + 1] == '"' && p[x + 1] == v[0]
    ensures var e := x + |v| + 1;
            NextVal(p) == (if Find(p, ',', e) == |p| then None
                           else NextComma(p, e + 1, 2, Some(Find(p, ',', e) + 1)))
  {
    hide NoBare, Escaped;
    NotAtBracket(p, 0, x);
    CommaBlanks(p, 0, x);
    CommaPaired(p, x + 1, v);
  }

  /** Every other place up to the bracket at `n` is blank. */
  ghost predicate EvenBlanks(p: string, i: nat, n: nat) {
    i <= n < |p| && (n - i) % 2 == 0 && p[n] == ']' && forall j | i <= j < n && (j - i) % 2 == 0 :: p[j] == ' '
  }

  /** The bracket check looks at every other place only, so that it can take blanks inside quotes for the end. */
  lemma {:induction false} BracketExactly(p: string, i: nat)
    ensures AtBracket(p, i) <==> exists n: nat :: EvenBlanks(p, i, n)
    ensures i == 0 && (exists n: nat :: EvenBlanks(p, i, n)) ==> NextVal(p) == None
    decreases |p| + 2 - i
  {
    hide EvenBlanks;
    if i < |p| {
      if p[i] == ' ' {
        var k := i + 2;
        BracketExactly(p, k);
        forall n: nat ensures EvenBlanks(p, i, n) <==> EvenBlanks(p, k, n) {
          TwoOn(p, i, n);
        }
        if n: nat :| EvenBlanks(p, k, n) {
          assert EvenBlanks(p, i, n);
          TwoOn(p, i, n);
        }
      } else {
        NoneBefore(p, i);
      }
    } else {
      NoneBefore(p, i);
    }
  }

  lemma TwoOn(p: string, i: nat, n: nat)
    requires i < |p| && p[i] == ' '
    ensures EvenBlanks(p, i, n) <==> EvenBlanks(p, i + 2, n)
    ensures EvenBlanks(p, i, n) ==> i + 2 <= |p|
  {
    if EvenBlanks(p, i, n) {
      assert n != i;
      forall j | i + 2 <= j < n && (j - (i + 2)) % 2 == 0 ensures p[j] == ' ' {
        assert (j - i) % 2 == 0;
      }
    }
    if EvenBlanks(p, i + 2, n) {
      forall j | i <= j < n && (j - i) % 2 == 0 ensures p[j] == ' ' {
        assert j > i ==> j >= i + 2 && (j - (i + 2)) % 2 == 0;
      }
    }
  }

  lemma NoneBefore(p: string, i: nat)
    requires i < |p| ==> p[i] != ' '
    ensures (exists n: nat :: EvenBlanks(p, i, n)) <==> i < |p| && p[i] == ']'
  {
    if i < |p| && p[i] == ']' {
      assert EvenBlanks(p, i, i);
    }
    if n: nat :| EvenBlanks(p, i, n) {
      assert n > i ==> (i - i) % 2 == 0;
    }
  }

  // ----- whole arrays -----

  /** The elements with these blanks before and behind each, and the closing bracket. */
  function Spaced(vals: seq<string>, before: seq<nat>, behind: seq<nat>): (s: string)
    requires |vals| == |before| == |behind| && vals != []
    decreases |vals|
  {
    Blanks(before[0]) + (Quoted(vals[0]) + (Blanks(behind[0]) + RestOf(vals, before, behind)))
  }

  function RestOf(vals: seq<string>, before: seq<nat>, behind: seq<nat>): (s: string)
    requires |vals| == |before| == |behind| && vals != []
    decreases |vals|, 0
  {
    if |vals| == 1 then "]" else "," + Spaced(vals[1..], before[1..], behind[1..])
  }

  ghost predicate SimpleElements(vals: seq<string>) {
    forall v | v in vals :: Element(v) && ',' !in v
  }

  /** The element behind a comma and a blank is skipped. */
  function Taken(vals: seq<string>, before: seq<nat>): (r: seq<string>)
    requires |vals| == |before| && vals != []
    decreases |vals|
  {
    [Bared(vals[0])] +
    (if |vals| == 1 then []
     else if before[1] == 0 then Taken(vals[1..], before[1..])
     else if |vals| == 2 then []
     else Taken(vals[2..], before[2..]))
  }

  lemma LastHere(x: nat, v: string, y: nat)
    requires Element(v)
    ensures NextVal(Blanks(x) + (Quoted(v) + (Blanks(y) + "]"))) == None
  {
    hide Blanks, Element, NextComma, AtBracket;
    var rest := Blanks(y) + "]";
    var p, e := Blanks(x) + (Quoted(v) + rest), x + |v| + 1;
    ToCloseQuote(x, v, rest);
    assert forall j | e < j < |p| :: p[j] == rest[j - e - 1];
    assert Find(p, ',', e) == |p|;
  }

  lemma MoreIs(y: nat, t: string)
    ensures var more := Blanks(y) + ("," + t); more[..y] == Blanks(y) && more[y] == ',' && more[y + 1..] == t
  {
    hide Blanks;
  }

  /** An element, its separator, and where the search for the next value stands behind it. */
  lemma SeparatorHere(x: nat, v: string, y: nat, t: string)
    requires Element(v)
    ensures var p, c := Blanks(x) + (Quoted(v) + (Blanks(y) + ("," + t))), x + |v| + 2 + y;
            && c < |p| && p[c] == ',' && p[c + 1..] == t && NextVal(p) == NextComma(p, c + 1, 2, Some(c + 1))
  {
    hide Blanks, NextComma, AtBracket, Escaped, NoBare, Quoted, Find;
    var more := Blanks(y) + ("," + t);
    var p, e, c := Blanks(x) + (Quoted(v) + more), x + |v| + 1, x + |v| + 2 + y;
    ToCloseQuote(x, v, more);
    MoreIs(y, t);
    PlaceIs(p, e, more, y);
    DropDrop(p, e + 1, y + 1);
    FindIs(p, ',', e, c);
    CommaUpTo(p, e + 1, c, Some(c + 1));
  }

  /** An element with more behind it. */
  lemma NextHere(x: nat, v: string, y: nat, z: nat, w: string, rest: string)
    requires Element(v) && Element(w) && ',' !in w
    ensures var t := Blanks(z) + (Quoted(w) + rest);
            var p, c := Blanks(x) + (Quoted(v) + (Blanks(y) + ("," + t))), x + |v| + 2 + y;
            c + 1 <= |p| && p[c + 1..] == t && GoesTo(NextVal(p), c, z, w, rest)
  {
    hide *;
    var t := Blanks(z) + (Quoted(w) + rest);
    var p, c := Blanks(x) + (Quoted(v) + (Blanks(y) + ("," + t))), x + |v| + 2 + y;
    SeparatorHere(x, v, y, t);
    NextFrom(p, c, z, w, rest);
  }

  /** The next element, but behind blanks the one after it, if there is one. */
  ghost predicate GoesTo(next: Option<nat>, c: nat, z: nat, w: string, rest: string) {
    next == if z == 0 then Some(c + 1)
            else if ',' !in rest then None else Some(c + 1 + z + |w| + 2 + Find(rest, ',', 0) + 1)
  }

  lemma NextFrom(p: string, c: nat, z: nat, w: string, rest: string)
    requires c < |p| && p[c] == ',' && p[c + 1..] == Blanks(z) + (Quoted(w) + rest) && ',' !in w
    ensures GoesTo(NextComma(p, c + 1, 2, Some(c + 1)), c, z, w, rest)
  {
    hide Blanks, NextComma, Find;
    var t := Blanks(z) + (Quoted(w) + rest);
    QuoteAfter(p, c, z, t);
    CommaBehind(p, c, c + 1 + z);
    CommaIn(p, c, z, w, rest);
    CommaThere(rest);
  }

  lemma CommaThere(rest: string)
    ensures ',' in rest <==> Find(rest, ',', 0) < |rest|
  {
  }

  lemma QuoteAfter(p: string, c: nat, z: nat, t: string)
    requires c < |p| && p[c + 1..] == t && z < |t| && t[..z] == Blanks(z) && t[z] == '"'
    ensures c + 1 + z < |p| && p[c + 1 + z] == '"' && forall j | c < j < c + 1 + z :: p[j] == ' '
  {
    hide Blanks;
    forall j | c < j < c + 1 + z ensures p[j] == ' ' {
      assert p[j] == t[j - c - 1] == t[..z][j - c - 1];
    }
  }

  lemma PlaceIs(p: string, e: nat, more: string, y: nat)
    requires e < |p| && p[e + 1..] == more && y < |more| && more[..y] == Blanks(y)
    ensures e + 1 + y < |p| && p[e + 1 + y] == more[y] && forall j | e < j < e + 1 + y :: p[j] == ' '
  {
    forall j | e < j < e + 1 + y ensures p[j] == ' ' {
      assert p[j] == more[j - e - 1] == more[..y][j - e - 1];
    }
  }

  /** The next comma behind an element without one. */
  lemma CommaIn(p: string, c: nat, z: nat, w: string, rest: string)
    requires c < |p| && p[c + 1..] == Blanks(z) + (Quoted(w) + rest) && ',' !in w
    ensures var n, d := c + 1 + z, Find(p, ',', c + 1 + z);
            if ',' !in rest then d == |p| else d == n + |w| + 2 + Find(rest, ',', 0)
  {
    hide Blanks;
    var n, f := c + 1 + z, Find(rest, ',', 0);
    var t := Blanks(z) + (Quoted(w) + rest);
    var b := n + |w| + 2;
    assert |p| == b + |rest|;
    forall j | n <= j < b ensures p[j] != ',' {
      assert p[j] == t[j - c - 1] == Quoted(w)[j - n];
    }
    forall j | b <= j < |p| ensures p[j] == rest[j - b] {
      assert p[j] == t[j - c - 1];
    }
    if f < |rest| {
      FindIs(p, ',', n, b + f);
    } else {
      assert Find(p, ',', n) == |p|;
    }
  }

  /** The comma behind some blanks. */
  lemma CommaAt(y: nat, t: string)
    ensures var rest := Blanks(y) + ("," + t); Find(rest, ',', 0) == y && ',' in rest && rest[y + 1..] == t
    ensures ',' !in Blanks(y) + "]"
  {
    hide Blanks;
    var rest := Blanks(y) + ("," + t);
    assert rest[y] == ',';
    FindIs(rest, ',', 0, y);
  }

  /** Past an element, its blanks and its comma. */
  lemma PastElement(z: nat, w: string, y: nat, t: string)
    ensures var s := Blanks(z) + (Quoted(w) + (Blanks(y) + ("," + t)));
            z + |w| + 2 + y + 1 <= |s| && s[z + |w| + 2 + y + 1..] == t
  {
    hide Blanks, Quoted;
    var rest := Blanks(y) + ("," + t);
    var s := Blanks(z) + (Quoted(w) + rest);
    ElementPlaces(z, w, rest);
    CommaAt(y, t);
    DropDrop(s, z + |w| + 2, y + 1);
  }

  /** Three elements in sight: on to the second, or past it. */
  lemma NextOfThree(x: nat, v: string, y: nat, z: nat, w: string, h: nat, t2: string)
    requires Element(v) && Element(w) && ',' !in w
    ensures var t := Blanks(z) + (Quoted(w) + (Blanks(h) + ("," + t2)));
            var p := Blanks(x) + (Quoted(v) + (Blanks(y) + ("," + t)));
            NextVal(p).Some? && p[NextVal(p).value..] == if z == 0 then t else t2
  {
    hide Blanks, Quoted, NextVal, Element, Find;
    var rest := Blanks(h) + ("," + t2);
    var t := Blanks(z) + (Quoted(w) + rest);
    var p, c := Blanks(x) + (Quoted(v) + (Blanks(y) + ("," + t))), x + |v| + 2 + y;
    NextHere(x, v, y, z, w, rest);
    CommaAt(h, t2);
    PastElement(z, w, h, t2);
    DropDrop(p, c + 1, z + |w| + 2 + h + 1);
  }

  /** Two elements left. */
  lemma NextOfTwo(x: nat, v: string, y: nat, z: nat, w: string, h: nat)
    requires Element(v) && Element(w) && ',' !in w
    ensures var t := Blanks(z) + (Quoted(w) + (Blanks(h) + "]"));
            var p := Blanks(x) + (Quoted(v) + (Blanks(y) + ("," + t)));
            if z == 0 then NextVal(p).Some? && p[NextVal(p).value..] == t else NextVal(p) == None
  {
    hide Blanks, Quoted, NextVal, Element, Find;
    NextHere(x, v, y, z, w, Blanks(h) + "]");
    CommaAt(h, "");
  }

  lemma SpacedCons(vals: seq<string>, before: seq<nat>, behind: seq<nat>)
    requires |vals| == |before| == |behind| && vals != []
    ensures Spaced(vals, before, behind) ==
            Blanks(before[0]) + (Quoted(vals[0]) + (Blanks(behind[0]) +
              (if |vals| == 1 then "]" else "," + Spaced(vals[1..], before[1..], behind[1..]))))
  {
    hide Blanks, Quoted;
  }

  /** Where the array goes on behind its first element. */
  lemma NextOfSpaced(vals: seq<string>, before: seq<nat>, behind: seq<nat>)
    requires |vals| == |before| == |behind| && vals != [] && SimpleElements(vals)
    ensures var p, next := Spaced(vals, before, behind), NextVal(Spaced(vals, before, behind));
            if |vals| == 1 then next == None
            else if before[1] == 0 then
              next.Some? && p[next.value..] == Spaced(vals[1..], before[1..], behind[1..])
            else if |vals| == 2 then next == None
            else next.Some? && p[next.value..] == Spaced(vals[2..], before[2..], behind[2..])
  {
    hide Blanks, Quoted, NextVal, Element, Find, Spaced;
    var x, y := before[0], behind[0];
    assert vals[0] in vals;
    SpacedCons(vals, before, behind);
    if |vals| == 1 {
      LastHere(x, vals[0], y);
    } else {
      assert vals[1] in vals;
      SpacedCons(vals[1..], before[1..], behind[1..]);
      if |vals| == 2 {
        NextOfTwo(x, vals[0], y, before[1], vals[1], behind[1]);
      } else {
        assert vals[1..][1..] == vals[2..] && before[1..][1..] == before[2..] && behind[1..][1..] == behind[2..];
        NextOfThree(x, vals[0], y, before[1], vals[1], behind[1], Spaced(vals[2..], before[2..], behind[2..]));
      }
    }
  }

  /**
   The older reader takes an array apart into its elements without their escaped characters, but
   the element behind a comma and a blank is lost.
   */
  lemma {:induction false} ValsOfSpaced(vals: seq<string>, before: seq<nat>, behind: seq<nat>)
    requires |vals| == |before| == |behind| && vals != [] && SimpleElements(vals)
    ensures Vals(Spaced(vals, before, behind)) == Taken(vals, before)
    decreases |vals|
  {
    hide CurrentVal, NextVal, Vals, Bared, Element, Blanks, Quoted, RestOf;
    var p, v := Spaced(vals, before, behind), vals[0];
    assert v in vals;
    ElementIsThere(v);
    CurrentIs(before[0], v, Blanks(behind[0]) + RestOf(vals, before, behind));
    NextOfSpaced(vals, before, behind);
    ValsStep(p);
    if |vals| > 1 && before[1] == 0 {
      ValsOfSpaced(vals[1..], before[1..], behind[1..]);
    } else if |vals| > 2 {
      ValsOfSpaced(vals[2..], before[2..], behind[2..]);
    }
  }

  lemma ElementIsThere(v: string)
    requires Element(v)
    ensures v != "" && !Escaped(v) && NoBare(v, '"') && v[0] != ']'
  {
  }

  // ----- which arrays come back whole -----

  lemma {:induction false} BaredIs(v: string)
    requires !Escaped(v)
    ensures Bared(v) == v <==> '\\' !in v
  {
    if '\\' !in v {
      NothingCovered(v);
    }
    if Bared(v) == v {
      AllBare(v);
    }
  }

  lemma {:induction false} NothingCovered(v: string)
    requires '\\' !in v
    ensures Bared(v) == v
  {
    if v != "" {
      var f := v[..|v| - 1];
      NothingCovered(f);
      NoEscapes(v, |f|);
      assert v == f + [v[|v| - 1]];
    }
  }

  lemma {:induction false} AllBare(v: string)
    requires |Bared(v)| == |v| && !Escaped(v)
    ensures '\\' !in v
  {
    if v != "" {
      var f := v[..|v| - 1];
      AllBare(f);
      assert v == f + [v[|v| - 1]];
    }
  }

  lemma {:induction false} TakenIsWhole(vals: seq<string>, before: seq<nat>)
    requires |vals| == |before| && vals != [] && SimpleElements(vals)
    ensures |Taken(vals, before)| <= |vals|
    ensures Taken(vals, before) == vals <==>
            (forall k | 1 <= k < |vals| :: before[k] == 0) && forall v | v in vals :: '\\' !in v
    decreases |vals|
  {
    hide Bared, Element, Escaped;
    var v := vals[0];
    assert v in vals;
    ElementIsThere(v);
    BaredIs(v);
    assert vals == [v] + vals[1..];
    if |vals| > 1 {
      if before[1] == 0 {
        TakenIsWhole(vals[1..], before[1..]);
        assert forall k | 1 <= k < |vals| - 1 :: before[1..][k] == before[k + 1];
        assert Taken(vals, before) == [Bared(v)] + Taken(vals[1..], before[1..]);
        BlanksCons(before);
      } else if |vals| > 2 {
        TakenIsWhole(vals[2..], before[2..]);
      }
    }
  }

  lemma BlanksCons(before: seq<nat>)
    requires |before| > 1 && before[1] == 0
    ensures (forall k | 1 <= k < |before| :: before[k] == 0) <==>
            forall k | 1 <= k < |before| - 1 :: before[1..][k] == 0
  {
    if forall k | 1 <= k < |before| - 1 :: before[1..][k] == 0 {
      forall k | 1 <= k < |before| ensures before[k] == 0 {
        assert k > 1 ==> before[1..][k - 1] == 0;
      }
    }
  }

  /** An array comes back as it was written exactly if no blank follows a comma and nothing is escaped. */
  lemma WholeExactly(vals: seq<string>, before: seq<nat>, behind: seq<nat>)
    requires |vals| == |before| == |behind| && vals != [] && SimpleElements(vals)
    ensures Vals(Spaced(vals, before, behind)) == vals <==>
            (forall k | 1 <= k < |vals| :: before[k] == 0) && forall v | v in vals :: '\\' !in v
  {
    hide Vals, Spaced, Taken;
    ValsOfSpaced(vals, before, behind);
    TakenIsWhole(vals, before);
  }
}
