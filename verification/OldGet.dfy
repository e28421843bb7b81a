/**
 The getters of the older k2v reader (src/k2v.c:555-642, src/k2v.c:841-1413): tidy the
 text, find the key's line, take its value apart.
 */
module OldGet {
  import opened Text
  import opened Escape
  import opened Number
  import opened OldK2v
  import opened OldLint

  // ----- tidy lines -----

  function KeepOk(ls: seq<string>): (r: seq<string>)
    ensures forall l | l in r :: l in ls && LintOk(l)
  {
    if ls == [] then [] else (if LintOk(ls[0]) then [ls[0]] else []) + KeepOk(ls[1..])
  }

  /** The lines that are neither comments nor refused by a lint. */
  function TidyLines(buf: string): seq<string> {
    KeepOk(NotComments(buf))
  }

  /** Lines that survive a round of Unlines and Lines. */
  lemma NotCommentsAreLines(buf: string)
    ensures forall l | l in NotComments(buf) :: IsLine(l)
  {
  }

  lemma KeepOkStep(kept: seq<string>, ls: seq<string>)
    requires ls != []
    ensures kept + KeepOk(ls) == (if LintOk(ls[0]) then kept + [ls[0]] else kept) + KeepOk(ls[1..])
  {
    hide LintOk, KeepOk;
    var front, rest := if LintOk(ls[0]) then [ls[0]] else [], KeepOk(ls[1..]);
    KeepOk1(ls);
    assert kept + (front + rest) == kept + front + rest;
    assert kept + [] == kept;
  }

  lemma KeepOk1(ls: seq<string>)
    requires ls != []
    ensures KeepOk(ls) == (if LintOk(ls[0]) then [ls[0]] else []) + KeepOk(ls[1..])
  {
  }

  /** k2v_auto_tidy. */
  method AutoTidy(buf: string) returns (r: Option<string>)
    ensures r == if TidyLines(buf) == [] then None else Some(Unlines(TidyLines(buf)))
  {
    hide KeepOk, LintOk, NotComments, Lines, Unlines, FirstLine, RestLines;
    r := None;
    var p := RemoveComment(buf);
    ghost var kept: seq<string>, rest := [], NotComments(buf);
    NotCommentsAreLines(buf);
    TidyEnds();
    assert [] + KeepOk(rest) == KeepOk(rest);
    while p.Some?
      invariant p == if rest == [] then None else Some(Unlines(rest))
      invariant forall l | l in rest :: IsLine(l)
      invariant TidyLines(buf) == kept + KeepOk(rest)
      invariant r == if kept == [] then None else Some(Unlines(kept))
      decreases |rest|
    {
      LinesOfUnlines(rest);
      FirstOfUnlines(rest);
      var line := CurrentLine(p.value);
      KeepOkStep(kept, rest);
      var ok := CheckLine(line);
      if ok {
        UnlinesSnoc(kept, line);
        r := Some(if r.None? then line else r.value + "\n" + line);
        kept := kept + [line];
      }
      p := NextLine(p.value);
      rest := rest[1..];
    }
    assert kept + [] == kept;
  }

  lemma TidyEnds()
    ensures KeepOk([]) == [] && Unlines([]) == ""
  {
  }

  lemma FirstOfUnlines(ls: seq<string>)
    requires ls != [] && forall l | l in ls :: IsLine(l)
    ensures FirstLine(Unlines(ls)) == ls[0] && RestLines(Unlines(ls)) == Unlines(ls[1..])
    ensures Unlines(ls[1..]) == "" <==> ls[1..] == []
  {
    assert ls[0] in ls;
    LineInFront(ls[0], Unlines(ls[1..]));
    LinesOfUnlines(ls[1..]);
  }

  // ----- the line of a key -----

  function FirstKey(ls: seq<string>, key: string): (r: Option<string>)
    ensures r.Some? ==> r.value in ls && LineLeft(r.value) == key
    ensures r.None? ==> forall l | l in ls :: LineLeft(l) != key
  {
    if ls == [] then None
    else if LineLeft(ls[0]) == key then Some(ls[0])
    else FirstKey(ls[1..], key)
  }

  /** The line a getter reads, after its early returns on an empty key or text. */
  function KeyLine(key: string, buf: string): (r: Option<string>)
    ensures r.Some? ==> LintOk(r.value)
  {
    if key == "" || buf == "" then None else FirstKey(TidyLines(buf), key)
  }

  /** key_get_line, on the tidied text. */
  method KeyGetLine(key: string, text: Option<string>, ghost ls: seq<string>) returns (r: Option<string>)
    requires forall l | l in ls :: IsLine(l) && LintOk(l)
    requires text == if ls == [] then None else Some(Unlines(ls))
    ensures r == FirstKey(ls, key)
  {
    hide LintOk, BasicLint, LineLeft, Unlines, FirstLine, RestLines, IsLine;
    ghost var rest := ls;
    var p := text;
    while p.Some?
      invariant forall l | l in rest :: IsLine(l) && LintOk(l)
      invariant p == if rest == [] then None else Some(Unlines(rest))
      invariant FirstKey(ls, key) == FirstKey(rest, key)
      decreases |rest|
    {
      FirstOfUnlines(rest);
      var line := CurrentLine(p.value);
      assert line == rest[0] && line in rest;
      LintIsBasic(line);
      var left := GetLeft(line);
      if left == key {
        return Some(line);
      }
      p := NextLine(p.value);
      rest := rest[1..];
    }
    r := None;
  }

  lemma LintIsBasic(line: string)
    ensures LintOk(line) ==> BasicLint(line)
  {
  }

  method FindLine(key: string, buf: string) returns (r: Option<string>)
    ensures r == KeyLine(key, buf)
  {
    hide LintOk, KeepOk, NotComments, Lines, Unlines, FirstKey;
    if key == "" || buf == "" {
      return None;
    }
    var text := AutoTidy(buf);
    TidyAreLines(buf);
    r := KeyGetLine(key, text, TidyLines(buf));
  }

  lemma TidyAreLines(buf: string)
    ensures forall l | l in TidyLines(buf) :: IsLine(l) && LintOk(l)
  {
    NotCommentsAreLines(buf);
  }

  // ----- scalars -----

  lemma OneVisible(p: string, cs: set<char>)
    requires |p| == 1
    ensures Count(Visible(p), cs) <= 1
  {
    if p[0] != '\\' {
      assert p[1..] == "" && Visible(p) == [p[0]] + "";
    }
  }

  /** A value that passed a lint has something around its inside. */
  lemma RightIsWrapped(line: string)
    ensures LintOk(line) ==> |LineRight(line)| >= 2
  {
    hide Visible, Count, Commas, NoNull, FirstBare, Eq;
    if LintOk(line) {
      var p := ValueOfLine(line);
      AfterEqSkipsLead(line);
      if |p| == 1 {
        OneVisible(p, {'"'});
        OneVisible(p, {'[', ']'});
      }
      TrimKeeps(p);
      UnescapeKeeps(TrimEnd(p));
    }
  }

  lemma TrimKeeps(p: string)
    requires |p| >= 2
    ensures |TrimEnd(p)| >= 2 && TrimEnd(p)[0] == p[0]
  {
  }

  lemma UnescapeKeeps(t: string)
    requires |t| >= 2 && t[0] != '\\'
    ensures |Unescape(t)| >= 2
  {
    assert Unescape(t) == [t[0]] + Unescape(t[1..]);
  }

  lemma EqOfRest(line: string, k: nat)
    requires k < |line| && forall j | 0 <= j < k :: line[j] == ' '
    ensures Eq(line) == k + Eq(line[k..])
  {
    SpacesInFront(line, k, 0);
    FirstBareFrom(line, k, 0);
  }

  lemma LeadSkipped(line: string)
    ensures var l := SkipLead(line);
            if Eq(l) < |l| then Eq(line) < |line| && line[Eq(line) + 1..] == l[Eq(l) + 1..] else Eq(line) == |line|
  {
    hide FirstBare, Escaped, Eq, SkipAll;
    var k := SkipAll(line, {' '}, 0, |line|);
    if k < |line| {
      var l := line[k..];
      EqOfRest(line, k);
      if Eq(l) < |l| {
        DropDrop(line, k, Eq(l) + 1);
      }
    }
  }

  lemma BasicValue(line: string)
    requires BasicLint(line)
    ensures var l := SkipLead(line); Eq(l) + 1 < |l| && SkipLead(l[Eq(l) + 1..]) != ""
  {
    hide FirstBare, EndsIn, Escaped, Eq, SkipAll;
  }

  /** Skipping leading spaces first makes no difference to the value. */
  lemma AfterEqSkipsLead(line: string)
    requires BasicLint(line)
    ensures SkipLead(AfterEq(line)) == ValueOfLine(line) != ""
  {
    hide BasicLint, Eq, SkipLead;
    LeadSkipped(line);
    BasicValue(line);
  }

  lemma {:induction false} SpacesInFront(line: string, k: nat, i: nat)
    requires i <= k <= |line| && forall j | 0 <= j < k :: line[j] == ' '
    ensures FirstBare(line, '=', 0, i) == FirstBare(line, '=', 0, k)
    decreases k - i
  {
    if i < k {
      SpacesInFront(line, k, i + 1);
    }
  }

  lemma {:induction false} FirstBareFrom(line: string, k: nat, i: nat)
    requires k + i <= |line| && forall j | 0 <= j < k :: line[j] == ' '
    ensures FirstBare(line, '=', 0, k + i) == k + FirstBare(line[k..], '=', 0, i)
    decreases |line| - k - i
  {
    assert !Escaped(line[..k]);
    assert line[0..k + i] == line[..k] + line[k..][..i];
    EscapedAppend(line[..k], line[k..][..i]);
    assert line[k..][0..i] == line[k..][..i];
    if k + i < |line| {
      assert line[k..][i] == line[k + i];
      FirstBareFrom(line, k, i + 1);
    }
  }

  /** What is left of a value without its first and last character. */
  function Inside(line: string): string {
    var r := LineRight(line);
    if |r| >= 2 then r[1..|r| - 1] else ""
  }

  function OldChar(key: string, buf: string): Option<string> {
    match KeyLine(key, buf)
    case None => None
    case Some(line) => if Inside(line) == "" then None else Some(Inside(line))
  }

  function OldInt(key: string, buf: string): int {
    match KeyLine(key, buf)
    case None => 0
    case Some(line) => Atoi(Inside(line))
  }

  function OldLong(key: string, buf: string): int {
    match KeyLine(key, buf)
    case None => 0
    case Some(line) => ToLong(Inside(line)).value
  }

  function OldBool(key: string, buf: string): bool {
    match KeyLine(key, buf)
    case None => false
    case Some(line) => Inside(line) == "true"
  }

  function OldHaveKey(key: string, buf: string): bool {
    KeyLine(key, buf).Some?
  }

  /** The text between the first and the last character of a key's value. */
  method GetInside(key: string, buf: string) returns (r: Option<string>)
    ensures r == match KeyLine(key, buf) case None => None case Some(line) => Some(Inside(line))
  {
    hide LintOk, KeyLine, LineRight;
    var line := FindLine(key, buf);
    if line.None? {
      return None;
    }
    LintIsBasic(line.value);
    RightIsWrapped(line.value);
    var tmp := GetRight(line.value);
    var p := tmp[1..];
    assert p[..|p| - 1] == tmp[1..|tmp| - 1];
    r := Some(p[..|p| - 1]);
  }

  /** key_get_char. */
  method KeyGetChar(key: string, buf: string) returns (r: Option<string>)
    ensures r == OldChar(key, buf)
  {
    r := GetInside(key, buf);
    if r.Some? && |r.value| == 0 {
      assert r.value == "";
      return None;
    }
  }

  // ----- arrays -----

  /**
   The copy loop of __current_val over what follows the opening quote.  After an escaped
   pair the index moves on by one only, so `tail`, the pair's second character, is
   overwritten by whatever comes next.
   */
  function CopyVal(q: string, done: string, tail: string, len: nat): string
    decreases |q|
  {
    if q == "" then done + tail
    else if q[0] == '\\' then
      if |q| > 2 || len < 2 then CopyVal(if |q| > 1 then q[2..] else "", done + "\\", q[1..if |q| > 1 then 2
              else 1], len)
      else done + "\\"
    else if q[0] == '"' then done
    else CopyVal(q[1..], done + [q[0]], "", len)
  }

  /** __current_val. */
  function CurrentVal(p: string): Option<string> {
    var n := Find(p, '"', 0);
    if n == |p| then None else
    var r := CopyVal(p[n + 1..], "", "", |p| - n - 1);
    if r != "" && r[0] == ']' then None else Some(r)
  }

  /** The first loop of __goto_next_val: it takes spaces two characters at a time. */
  predicate AtBracket(p: string, i: nat)
    decreases |p| - i
  {
    i < |p| && (if p[i] == ' ' then i + 2 <= |p| && AtBracket(p, i + 2) else p[i] == ']')
  }

  /** The second loop: while exactly two quotes have passed, the next value starts after the next comma. */
  function NextComma(p: string, i: nat, quote: nat, ret: Option<nat>): (r: Option<nat>)
    requires ret.Some? ==> 0 < ret.value <= |p|
    ensures r.Some? ==> 0 < r.value <= |p|
    decreases |p| - i
  {
    if i >= |p| then ret
    else if p[i] == '\\' then (if i + 2 <= |p| then NextComma(p, i + 2, quote, ret) else ret)
    else
      var q := if p[i] == '"' then quote + 1 else quote;
      if q != 2 then NextComma(p, i + 1, q, ret) else
      var c := Find(p, ',', i);
      if c == |p| then None else NextComma(p, i + 1, q, Some(c + 1))
  }

  function NextVal(p: string): (r: Option<nat>)
    ensures r.Some? ==> 0 < r.value <= |p|
  {
    if AtBracket(p, 0) then None else NextComma(p, 0, 0, None)
  }

  function Vals(p: string): seq<string>
    decreases |p|
  {
    match CurrentVal(p)
    case None => []
    case Some(v) =>
      match NextVal(p)
      case None => [v]
      case Some(n) => [v] + Vals(p[n..])
  }

  /** array_to_str_array. */
  function ArrayStrings(a: string): seq<string> {
    if a == "[]" || a == "[\"\"]" || a == "" || a[0] != '[' then [] else Vals(a[1..])
  }

  function OldArray(key: string, buf: string, limit: nat): (r: seq<string>)
    ensures |r| <= limit
  {
    match KeyLine(key, buf)
    case None => []
    case Some(line) =>
      var vals := ArrayStrings(LineRight(line));
      if |vals| <= limit then vals else vals[..limit]
  }

  function AllAtoi(texts: seq<string>): (r: seq<int>)
    ensures |r| == |texts| && forall k | 0 <= k < |r| :: r[k] == Atoi(texts[k])
  {
    if texts == [] then [] else [Atoi(texts[0])] + AllAtoi(texts[1..])
  }

  /** key_get_int_array. */
  function OldIntArray(key: string, buf: string, limit: nat): seq<int> {
    AllAtoi(OldArray(key, buf, limit))
  }

  /** One turn of the copy loop: an escaped pair, a plain character, or one of its two ends. */
  lemma CopyStep(q: string, i: nat, done: string, tail: string, len: nat)
    requires i < |q|
    ensures q[i] == '\\' && !(|q| - i > 2 || len < 2) ==> CopyVal(q[i..], done, tail, len) == done + "\\"
    ensures q[i] == '\\' && (|q| - i > 2 || len < 2) ==>
              var n := if i + 1 < |q| then i + 2 else |q|;
              CopyVal(q[i..], done, tail, len) == CopyVal(q[n..], done + "\\", q[i + 1..n], len)
    ensures q[i] == '"' ==> CopyVal(q[i..], done, tail, len) == done
    ensures q[i] != '\\' && q[i] != '"' ==>
              CopyVal(q[i..], done, tail, len) == CopyVal(q[i + 1..], done + [q[i]], "", len)
  {
    var t := q[i..];
    assert t[1..] == q[i + 1..];
    if i + 1 < |q| {
      assert t[2..] == q[i + 2..] && t[1..2] == q[i + 1..i + 2];
    } else {
      assert t[1..1] == q[i + 1..|q|] && q[|q|..] == "";
    }
  }

  lemma CopyEnd(done: string, tail: string, len: nat)
    ensures CopyVal("", done, tail, len) == done + tail
  {
  }

  method GetCurrentVal(p: string) returns (r: Option<string>)
    ensures r == CurrentVal(p)
  {
    hide CopyVal;
    var n := Find(p, '"', 0);
    if n == |p| {
      return None;
    }
    var q := p[n + 1..];
    var done, tail, i, stop := "", "", 0, false;
    assert q[0..] == q;
    while i < |q| && !stop
      invariant i <= |q| && (stop ==> tail == "")
      invariant CopyVal(q, "", "", |q|) == if stop then done else CopyVal(q[i..], done, tail, |q|)
      decreases |q| - i, !stop
    {
      CopyStep(q, i, done, tail, |q|);
      if q[i] == '\\' {
        done := done + "\\";
        if i < |q| - 2 || |q| < 2 {
          var next := if i + 1 < |q| then i + 2 else |q|;
          tail := q[i + 1..next];
          i := next;
        } else {
          tail, stop := "", true;
        }
        continue;
      }
      if q[i] == '"' {
        tail, stop := "", true;
      } else {
        done, tail, i := done + [q[i]], "", i + 1;
      }
    }
    CopyEnd(done, tail, |q|);
    assert !stop ==> q[i..] == "";
    assert stop ==> done + tail == done;
    var ret := done + tail;
    r := if ret != "" && ret[0] == ']' then None else Some(ret);
  }

  method GetNextVal(p: string) returns (r: Option<nat>)
    ensures r == NextVal(p)
  {
    var i := 0;
    while i < |p|
      invariant 0 <= i
      invariant AtBracket(p, 0) == (i <= |p| && AtBracket(p, i))
    {
      if p[i] == ' ' {
        i := i + 2;
        continue;
      }
      if p[i] == ']' {
        return None;
      }
      break;
    }
    assert !AtBracket(p, 0);
    var quote := 0;
    i, r := 0, None;
    while i < |p|
      invariant 0 <= i && 0 <= quote && (r.Some? ==> 0 < r.value <= |p|)
      invariant NextComma(p, 0, 0, None) == NextComma(p, i, quote, r)
    {
      if p[i] == '\\' {
        i := i + 2;
        continue;
      }
      if p[i] == '"' {
        quote := quote + 1;
      }
      if quote == 2 {
        var c := Find(p, ',', i);
        if c == |p| {
          return None;
        }
        r := Some(c + 1);
      }
      i := i + 1;
    }
  }

  lemma ValsStep(p: string)
    ensures Vals(p) == if CurrentVal(p).None? then []
                       else [CurrentVal(p).value] + (if NextVal(p).None? then [] else Vals(p[NextVal(p).value..]))
  {
    hide CurrentVal, NextVal;
  }

  method ArrayToStrArray(a: string) returns (ret: seq<string>)
    ensures ret == ArrayStrings(a)
  {
    hide CurrentVal, NextVal, Vals;
    ret := [];
    if a == "[]" || a == "[\"\"]" || a == "" || a[0] != '[' {
      return;
    }
    var p := Some(a[1..]);
    ghost var rest := Vals(a[1..]);
    assert ret + rest == rest;
    while p.Some?
      invariant ArrayStrings(a) == ret + rest
      invariant rest == if p.Some? then Vals(p.value) else []
      decreases if p.Some? then |p.value| + 1 else 0
    {
      ValsStep(p.value);
      var val := GetCurrentVal(p.value);
      if val.None? {
        assert ret + [] == ret;
        return;
      }
      var n := GetNextVal(p.value);
      p := if n.None? then None else Some(p.value[n.value..]);
      rest := if p.Some? then Vals(p.value) else [];
      assert ret + ([val.value] + rest) == ret + [val.value] + rest;
      ret := ret + [val.value];
    }
    assert ret + [] == ret;
  }

  /** The array getters got as far as looking for the key, and did not find it: they clear the first slot. */
  predicate Clears(key: string, buf: string, limit: nat) {
    limit > 0 && key != "" && buf != "" && KeyLine(key, buf).None?
  }

  lemma NoneIsNone(key: string, buf: string, limit: nat)
    requires KeyLine(key, buf).None?
    ensures OldArray(key, buf, limit) == [] && OldIntArray(key, buf, limit) == []
  {
  }

  /** What the array getters return for a line that was found. */
  lemma Found(key: string, buf: string, line: string, limit: nat)
    requires KeyLine(key, buf) == Some(line)
    ensures var vals, a, n := ArrayStrings(LineRight(line)), OldArray(key, buf, limit), OldIntArray(key, buf, limit);
            && |a| == |n| == (if |vals| <= limit then |vals| else limit)
            && forall k | 0 <= k < |a| :: a[k] == vals[k] && n[k] == Atoi(vals[k])
  {
    hide KeyLine, LineRight, ArrayStrings, Atoi;
  }

  /** The elements of an array line that was found, up to the limit. */
  method ElementsOf(line: string) returns (strArray: seq<string>)
    requires BasicLint(line)
    ensures strArray == ArrayStrings(LineRight(line))
  {
    hide LineRight, ArrayStrings;
    var tmp := GetRight(line);
    strArray := ArrayToStrArray(tmp);
  }

  /** The loops that fill the caller's array, up to the limit. */
  method CopyStrings(strArray: seq<string>, dest: array<Option<string>>, limit: nat) returns (ret: nat)
    requires limit <= dest.Length
    modifies dest
    ensures ret == if |strArray| <= limit then |strArray| else limit
    ensures forall k | 0 <= k < ret :: dest[k] == Some(strArray[k])
    ensures forall k | ret <= k < dest.Length :: dest[k] == old(dest[k])
  {
    ret := 0;
    while ret < limit && ret < |strArray|
      invariant ret <= limit && ret <= |strArray|
      invariant forall k | 0 <= k < ret :: dest[k].Some? && dest[k].value == strArray[k]
      invariant forall k | ret <= k < dest.Length :: dest[k] == old(dest[k])
    {
      dest[ret] := Some(strArray[ret]);
      ret := ret + 1;
    }
  }

  method CopyInts(strArray: seq<string>, dest: array<int>, limit: nat) returns (ret: nat)
    requires limit <= dest.Length
    modifies dest
    ensures ret == if |strArray| <= limit then |strArray| else limit
    ensures forall k | 0 <= k < ret :: dest[k] == Atoi(strArray[k])
    ensures forall k | ret <= k < dest.Length :: dest[k] == old(dest[k])
  {
    hide Atoi;
    ret := 0;
    while ret < limit && ret < |strArray|
      invariant ret <= limit && ret <= |strArray|
      invariant forall k | 0 <= k < ret :: dest[k] == Atoi(strArray[k])
      invariant forall k | ret <= k < dest.Length :: dest[k] == old(dest[k])
    {
      dest[ret] := Atoi(strArray[ret]);
      ret := ret + 1;
    }
  }

  /** key_get_char_array, filling the caller's array; a slot of None is a NULL pointer. */
  method KeyGetCharArray(key: string, buf: string, dest: array<Option<string>>, limit: nat) returns (ret: nat)
    requires limit <= dest.Length
    modifies dest
    ensures ret == |OldArray(key, buf, limit)|
    ensures forall k | 0 <= k < ret :: dest[k] == Some(OldArray(key, buf, limit)[k])
    ensures Clears(key, buf, limit) ==> dest[0] == None
    ensures forall k | (if Clears(key, buf, limit) then 1 else ret) <= k < dest.Length :: dest[k] == old(dest[k])
  {
    hide LintOk, KeyLine, LineRight, ArrayStrings, OldArray, OldIntArray, Atoi;
    ret := 0;
    if limit == 0 || key == "" || buf == "" {
      EarlyOut(key, buf, limit);
      return;
    }
    var line := FindLine(key, buf);
    if line.None? {
      NoneIsNone(key, buf, limit);
      dest[0] := None;
      return;
    }
    LintIsBasic(line.value);
    var strArray := ElementsOf(line.value);
    ret := CopyStrings(strArray, dest, limit);
    Found(key, buf, line.value, limit);
  }

  lemma EarlyOut(key: string, buf: string, limit: nat)
    requires limit == 0 || key == "" || buf == ""
    ensures OldArray(key, buf, limit) == [] && OldIntArray(key, buf, limit) == [] && !Clears(key, buf, limit)
  {
    hide LintOk, LineRight, ArrayStrings, FirstKey;
  }

  /** key_get_int_array, filling the caller's array. */
  method KeyGetIntArray(key: string, buf: string, dest: array<int>, limit: nat) returns (ret: nat)
    requires limit <= dest.Length
    modifies dest
    ensures ret == |OldIntArray(key, buf, limit)|
    ensures forall k | 0 <= k < ret :: dest[k] == OldIntArray(key, buf, limit)[k]
    ensures Clears(key, buf, limit) ==> dest[0] == 0
    ensures forall k | (if Clears(key, buf, limit) then 1 else ret) <= k < dest.Length :: dest[k] == old(dest[k])
  {
    hide LintOk, KeyLine, LineRight, ArrayStrings, OldArray, OldIntArray, Atoi;
    ret := 0;
    if limit == 0 || key == "" || buf == "" {
      EarlyOut(key, buf, limit);
      return;
    }
    var line := FindLine(key, buf);
    if line.None? {
      NoneIsNone(key, buf, limit);
      dest[0] := 0;
      return;
    }
    LintIsBasic(line.value);
    var strArray := ElementsOf(line.value);
    ret := CopyInts(strArray, dest, limit);
    Found(key, buf, line.value, limit);
  }
}
