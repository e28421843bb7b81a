/**
 How the loops of the older k2v reader run over text that needs no escape.
 */
module PlainText {
  import opened Text
  import opened Escape
  import opened K2v3Emit
  import opened RoundTrip
  import opened OldLint
  import opened OldGet

  /** Nothing that either reader treats specially inside quotes. */
  ghost predicate Plain(s: string) {
    forall c | c in s :: c !in {'\\', '"', '[', ']', '\n'}
  }

  /** No escape, and none that would be needed inside an array. */
  ghost predicate Literal(s: string) {
    '\\' !in s && '"' !in s && ']' !in s
  }

  // ----- scanning plain text -----

  lemma {:induction false} NoEscapes(s: string, i: nat)
    requires '\\' !in s && i <= |s|
    ensures !Escaped(s[..i])
  {
    if i > 0 {
      assert s[i - 1] in s;
      assert s[..i][i - 1] == s[i - 1];
    }
  }

  lemma {:induction false} BareIsFind(s: string, c: char, i: nat)
    requires '\\' !in s && i <= |s|
    ensures FirstBare(s, c, 0, i) == Find(s, c, i)
    decreases |s| - i
  {
    NoEscapes(s, i);
    assert s[0..i] == s[..i];
    if i < |s| {
      BareIsFind(s, c, i + 1);
    }
  }

  lemma {:induction false} AllVisible(s: string)
    requires '\\' !in s
    ensures Visible(s) == s
  {
    if s != "" {
      assert s[0] in s;
      AllVisible(s[1..]);
    }
  }

  lemma NothingVisible()
    ensures Visible("") == "" && Count("", {'"'}) == 0
  {
  }

  lemma VisibleFront(a: string)
    requires a != "" && (a[0] == '\\' ==> |a| > 1)
    ensures var n := if a[0] == '\\' then 2 else 1;
            Visible(a) == (if n == 2 then "" else [a[0]]) + Visible(a[n..])
  {
    if a[0] == '\\' {
      assert "" + Visible(a[2..]) == Visible(a[2..]);
    }
  }

  /** What can be seen is seen piece by piece where no backslash is pending. */
  lemma {:induction false} VisibleAppend(a: string, b: string)
    requires !Escaped(a)
    ensures Visible(a + b) == Visible(a) + Visible(b)
    decreases |a|
  {
    hide Visible, Escaped, NoBare;
    if a == "" {
      NothingVisible();
      assert a + b == b;
    } else {
      FrontIsPaired(a);
      var n := if a[0] == '\\' then 2 else 1;
      BehindFront(a, n, ' ');
      assert (a + b)[n..] == a[n..] + b && (a + b)[0] == a[0];
      VisibleFront(a);
      VisibleFront(a + b);
      VisibleAppend(a[n..], b);
      var front := if n == 2 then "" else [a[0]];
      assert front + (Visible(a[n..]) + Visible(b)) == front + Visible(a[n..]) + Visible(b);
    }
  }

  /** Without a bare occurrence a character is not seen. */
  lemma {:induction false} BareIsUnseen(a: string, c: char)
    requires !Escaped(a) && NoBare(a, c)
    ensures Count(Visible(a), {c}) == 0
    decreases |a|
  {
    if a != "" {
      FrontIsPaired(a);
      var n := if a[0] == '\\' then 2 else 1;
      BehindFront(a, n, c);
      VisibleFront(a);
      BareIsUnseen(a[n..], c);
      assert a[..0] == "" && !Escaped("");
      CountAppend(if n == 2 then "" else [a[0]], Visible(a[n..]), {c});
      CountFirst(a[0], {c});
    }
  }

  lemma CountFirst(c: char, cs: set<char>)
    ensures Count([c], cs) == (if c in cs then 1 else 0) && Count("", cs) == 0
  {
    assert [c][1..] == "";
  }

  lemma {:induction false} CountAppend(a: string, b: string, cs: set<char>)
    ensures Count(a + b, cs) == Count(a, cs) + Count(b, cs)
  {
    if a == "" {
      assert a + b == b;
    } else {
      assert (a + b)[1..] == a[1..] + b;
      CountAppend(a[1..], b, cs);
    }
  }

  lemma {:induction false} CountNone(s: string, cs: set<char>)
    requires forall c | c in s :: c !in cs
    ensures Count(s, cs) == 0
  {
    if s != "" {
      CountNone(s[1..], cs);
    }
  }

  lemma CountQuoted(v: string, cs: set<char>)
    requires Plain(v)
    ensures Count(Quoted(v), {'"'}) == 2 && Count(Quoted(v), {'[', ']'}) == 0
  {
    CountNone(v, {'"'});
    CountNone(v, {'[', ']'});
    CountAppend("\"", v, {'"'});
    CountAppend("\"", v, {'[', ']'});
    CountAppend("\"" + v, "\"", {'"'});
    CountAppend("\"" + v, "\"", {'[', ']'});
  }

  lemma {:induction false} CommasInside(v: string, rest: string)
    requires Plain(v)
    ensures Commas(v + rest, true) == Commas(rest, true)
  {
    if v == "" {
      assert v + rest == rest;
    } else {
      assert v[0] in v && forall c | c in v[1..] :: c in v;
      assert (v + rest)[1..] == v[1..] + rest;
      CommasInside(v[1..], rest);
    }
  }

  lemma CommasQuoted(v: string, rest: string)
    requires Plain(v)
    ensures Commas(Quoted(v) + rest, false) == Commas(rest, false)
  {
    var s := Quoted(v) + rest;
    assert s[1..] == v + ("\"" + rest);
    CommasInside(v, "\"" + rest);
    assert ("\"" + rest)[1..] == rest;
  }

  lemma {:induction false} NoNullInside(v: string, rest: string, i: nat, last: nat)
    requires Plain(v)
    ensures NoNull(v + rest, i, true, last) == NoNull(rest, i + |v|, true, last)
  {
    if v == "" {
      assert v + rest == rest;
    } else {
      assert v[0] in v && forall c | c in v[1..] :: c in v;
      assert (v + rest)[1..] == v[1..] + rest;
      NoNullInside(v[1..], rest, i + 1, last);
    }
  }

  lemma NoNullQuoted(v: string, rest: string, i: nat, last: nat)
    requires Plain(v) && v != ""
    ensures NoNull(Quoted(v) + rest, i, false, last) == NoNull(rest, i + |v| + 2, false, i)
  {
    var s := Quoted(v) + rest;
    assert s[1..] == v + ("\"" + rest);
    NoNullInside(v, "\"" + rest, i + 1, i);
    assert ("\"" + rest)[1..] == rest;
  }

  // ----- printed arrays -----

  ghost predicate PlainElements(vals: seq<string>) {
    forall e | e in vals :: Plain(e) && e != ""
  }

  lemma JoinCons(vals: seq<string>, rest: string)
    requires |vals| > 1
    ensures Join(vals) + rest == Quoted(vals[0]) + ("," + (Join(vals[1..]) + rest))
  {
    hide Join, Quoted;
    JoinUnfold(vals);
    Regroup(Quoted(vals[0]), ",", Join(vals[1..]), rest);
  }

  lemma Regroup(a: string, b: string, c: string, d: string)
    ensures a + b + c + d == a + (b + (c + d))
  {
  }

  lemma JoinUnfold(vals: seq<string>)
    requires |vals| > 1
    ensures Join(vals) == Quoted(vals[0]) + "," + Join(vals[1..])
  {
  }

  lemma {:induction false} JoinCounts(vals: seq<string>)
    requires vals != [] && PlainElements(vals)
    ensures Count(Join(vals), {'"'}) == 2 * |vals| && Count(Join(vals), {'[', ']'}) == 0
  {
    hide Plain, Quoted, Count;
    var v := vals[0];
    assert v in vals;
    CountQuoted(v, {});
    if |vals| > 1 {
      JoinCounts(vals[1..]);
      CountJoin(v, Join(vals[1..]), {'"'});
      CountJoin(v, Join(vals[1..]), {'[', ']'});
    }
  }

  lemma {:induction false} JoinCommas(vals: seq<string>)
    requires vals != [] && PlainElements(vals)
    ensures Commas(Join(vals) + "]", false) == |vals| - 1
  {
    hide Plain;
    var v := vals[0];
    assert v in vals;
    if |vals| == 1 {
      CommasQuoted(v, "]");
    } else {
      JoinCommas(vals[1..]);
      var rest := Join(vals[1..]) + "]";
      JoinCons(vals, "]");
      CommasQuoted(v, "," + rest);
      assert ("," + rest)[1..] == rest;
    }
  }

  lemma {:induction false} JoinNoNull(vals: seq<string>, i: nat, last: nat)
    requires vals != [] && PlainElements(vals)
    ensures NoNull(Join(vals) + "]", i, false, last)
    decreases |vals|
  {
    hide Plain;
    var v := vals[0];
    assert v in vals;
    if |vals| == 1 {
      NoNullQuoted(v, "]", i, last);
    } else {
      JoinNoNull(vals[1..], i + |v| + 3, i);
      var rest := Join(vals[1..]) + "]";
      JoinCons(vals, "]");
      NoNullQuoted(v, "," + rest, i, last);
      assert ("," + rest)[1..] == rest;
    }
  }

  lemma {:induction false} JoinIsLine(vals: seq<string>)
    requires vals != [] && PlainElements(vals)
    ensures '\\' !in Join(vals) && '\n' !in Join(vals)
  {
    assert vals[0] in vals;
    if |vals| > 1 {
      JoinIsLine(vals[1..]);
    }
  }

  /** What the older lint counts in a printed array. */
  lemma JoinLints(vals: seq<string>, i: nat, last: nat)
    requires vals != [] && PlainElements(vals)
    ensures Count(Join(vals), {'"'}) == 2 * |vals| && Count(Join(vals), {'[', ']'}) == 0
    ensures Commas(Join(vals) + "]", false) == |vals| - 1
    ensures NoNull(Join(vals) + "]", i, false, last)
    ensures '\\' !in Join(vals) && '\n' !in Join(vals)
  {
    hide Join, Count, Commas, NoNull, PlainElements;
    JoinCounts(vals);
    JoinCommas(vals);
    JoinNoNull(vals, i, last);
    JoinIsLine(vals);
  }

  lemma CountJoin(v: string, rest: string, cs: set<char>)
    requires ',' !in cs
    ensures Count(Quoted(v) + "," + rest, cs) == Count(Quoted(v), cs) + Count(rest, cs)
  {
    CountAppend(Quoted(v), ",", cs);
    CountAppend(Quoted(v) + ",", rest, cs);
    assert ","[1..] == "";
  }

  lemma {:induction false} CopyPlain(v: string, rest: string, done: string, len: nat)
    requires Literal(v)
    ensures CopyVal(v + "\"" + rest, done, "", len) == done + v
    decreases |v|
  {
    var q := v + "\"" + rest;
    if v == "" {
      assert q[0] == '"';
      assert done + v == done;
    } else {
      assert v[0] in v && forall c | c in v[1..] :: c in v;
      assert q[1..] == v[1..] + "\"" + rest;
      CopyPlain(v[1..], rest, done + [v[0]], len);
      assert done + [v[0]] + v[1..] == done + v;
    }
  }

  lemma CurrentPlain(v: string, rest: string)
    requires Literal(v)
    ensures CurrentVal(Quoted(v) + rest) == Some(v)
  {
    var p := Quoted(v) + rest;
    assert Find(p, '"', 0) == 0;
    assert p[1..] == v + "\"" + rest;
    CopyPlain(v, rest, "", |p| - 1);
    assert "" + v == v;
    assert v != "" ==> v[0] in v;
  }

  /** Past the second quote's stretch nothing changes any more. */
  lemma {:induction false} CommaSettled(p: string, i: nat, quote: nat, ret: Option<nat>)
    requires quote > 2 && (ret.Some? ==> 0 < ret.value <= |p|)
    ensures NextComma(p, i, quote, ret) == ret
    decreases |p| - i
  {
    if i < |p| {
      if p[i] == '\\' {
        if i + 2 <= |p| {
          CommaSettled(p, i + 2, quote, ret);
        }
      } else {
        CommaSettled(p, i + 1, if p[i] == '"' then quote + 1 else quote, ret);
      }
    }
  }

  lemma {:induction false} CommaInside(p: string, i: nat, end: nat)
    requires i <= end <= |p| && forall j | i <= j < end :: p[j] !in {'"', '\\'}
    ensures NextComma(p, i, 1, None) == NextComma(p, end, 1, None)
    decreases end - i
  {
    if i < end {
      CommaInside(p, i + 1, end);
    }
  }

  lemma NextPlain(v: string, rest: string)
    requires Literal(v) && rest != "" && rest[0] == '"'
    ensures NextVal(Quoted(v) + ("," + rest)) == Some(|v| + 3)
  {
    var p, e := Quoted(v) + ("," + rest), |v| + 1;
    assert forall j | 1 <= j < e :: p[j] == v[j - 1] && v[j - 1] in v;
    CommaInside(p, 1, e);
    assert p[0] == p[e] == '"' && p[e + 1] == ',' && p[e + 2] == rest[0];
    assert Find(p, ',', e) == e + 1 && Find(p, ',', e + 1) == e + 1;
    CommaSettled(p, e + 3, 3, Some(e + 2));
    assert NextComma(p, e + 2, 2, Some(e + 2)) == Some(e + 2);
    assert NextComma(p, e + 1, 2, Some(e + 2)) == Some(e + 2);
  }

  lemma NextLast(v: string)
    requires Literal(v)
    ensures NextVal(Quoted(v) + "]") == None
  {
    var p, e := Quoted(v) + "]", |v| + 1;
    assert forall j | 1 <= j < e :: p[j] == v[j - 1] && v[j - 1] in v;
    CommaInside(p, 1, e);
    assert p[0] == p[e] == '"' && p[e + 1] == ']';
    assert Find(p, ',', e) == |p|;
  }

  lemma BehindQuoted(v: string, rest: string)
    ensures var p := Quoted(v) + ("," + rest); |v| + 3 <= |p| && p[|v| + 3..] == rest
  {
    var p := Quoted(v) + ("," + rest);
    assert p[|v| + 3..] == rest;
  }

  /** The older reader takes a printed array apart into the elements that were put in. */
  lemma {:induction false} ValsOfJoin(vals: seq<string>)
    requires vals != [] && forall e | e in vals :: Literal(e)
    ensures Vals(Join(vals) + "]") == vals
    decreases |vals|
  {
    hide NextVal, CurrentVal, Literal, Quoted;
    var v := vals[0];
    assert v in vals;
    if |vals| == 1 {
      CurrentPlain(v, "]");
      NextLast(v);
      assert vals == [v];
    } else {
      var rest := Join(vals[1..]) + "]";
      JoinCons(vals, "]");
      JoinShape(vals[1..]);
      CurrentPlain(v, "," + rest);
      NextPlain(v, rest);
      BehindQuoted(v, rest);
      ValsOfJoin(vals[1..]);
      assert vals == [v] + vals[1..];
    }
  }
}
