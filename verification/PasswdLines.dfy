/**
 What the walks of src/passwd.c make of any text, malformed lines included: a line is split at its
 colons, and what is missing from it decides what it counts for.
 */
module PasswdLines {
  import opened Text
  import opened Number
  import opened Passwd
  import opened PasswdFiles

  // ----- the fields of any line -----

  /** What follows the k-th separator. */
  function Behind(s: string, c: char, k: nat): (r: string)
    requires k < |Pieces(s, c)|
    ensures |r| <= |s|
    decreases k
  {
    if k == 0 then s else Behind(s[Find(s, c, 0) + 1..], c, k - 1)
  }

  lemma {:induction false} BehindIs(s: string, c: char, k: nat)
    requires k < |Pieces(s, c)|
    ensures Pieces(Behind(s, c, k), c) == Pieces(s, c)[k..]
    ensures '\n' !in s ==> '\n' !in Behind(s, c, k)
    decreases k
  {
    hide Pieces, Find;
    if k == 0 {
      assert Pieces(s, c)[0..] == Pieces(s, c);
    } else {
      var t := s[Find(s, c, 0) + 1..];
      PiecesCons(s, c);
      BehindIs(t, c, k - 1);
      assert Pieces(t, c)[k - 1..] == Pieces(s, c)[k..];
    }
  }

  /** The front of a line up to its first colon. */
  lemma FirstColon(l: string, more: string)
    requires '\n' !in l
    ensures var p, i := l + "\n" + more, Find(l, ':', 0);
            && (HasField(p) <==> i < |l|)
            && (i < |l| ==> Find(p, ':', 0) == i && p[..i] == l[..i] && AfterColon(p) == l[i + 1..] + "\n" + more)
  {
    hide Find, NextLine;
    var i := Find(l, ':', 0);
    BreakIs(l, more);
    ColonInLine(l, more);
    if i < |l| {
      SliceBehind(l, more, i);
    }
  }

  lemma BreakIs(l: string, more: string)
    requires '\n' !in l
    ensures Find(l + "\n" + more, '\n', 0) == |l| < |l + "\n" + more|
  {
    hide NextLine;
    LineEnd(l, more);
  }

  lemma SliceBehind(l: string, more: string, i: nat)
    requires i < |l|
    ensures var p := l + "\n" + more; p[..i] == l[..i] && p[i + 1..] == l[i + 1..] + "\n" + more
  {
    var p, t := l + "\n" + more, "\n" + more;
    assert p == l + t;
    assert p[..i] == l[..i];
    assert p[i + 1..] == l[i + 1..] + t;
    assert l[i + 1..] + t == l[i + 1..] + "\n" + more;
  }

  lemma ColonInLine(l: string, more: string)
    ensures var p, i := l + "\n" + more, Find(l, ':', 0);
            if i < |l| then Find(p, ':', 0) == i else Find(p, ':', 0) > |l|
  {
    hide Find;
    var p, i := l + "\n" + more, Find(l, ':', 0);
    assert p[|l|] == '\n' && forall j | 0 <= j < |l| :: p[j] == l[j];
    if i < |l| {
      FindIs(p, ':', 0, i);
    }
  }

  /** Skipping fields never leaves the line, and fails exactly where it has too few. */
  lemma {:induction false} SkipLineFields(l: string, more: string, k: nat)
    requires '\n' !in l
    ensures SkipFields(l + "\n" + more, k) ==
            if k < |Pieces(l, ':')| then Some(Behind(l, ':', k) + "\n" + more) else None
    decreases k
  {
    hide HasField, AfterColon, Pieces, Find;
    PiecesCons(l, ':');
    if k > 0 {
      FirstColon(l, more);
      var i := Find(l, ':', 0);
      if i < |l| {
        SkipLineFields(l[i + 1..], more, k - 1);
      }
    }
  }

  // ----- what a line says -----

  /** The name, of at most 512 characters; none on a line without a colon. */
  function LineName(l: string): string {
    var fs := Pieces(l, ':');
    if |fs| == 1 then "" else if |fs[0]| <= 512 then fs[0] else fs[0][..512]
  }

  /** The number in the field after `k` colons, if a colon ends it, and 0 if not. */
  function LineNumber(l: string, k: nat): nat {
    var fs := Pieces(l, ':');
    if k + 1 < |fs| then Accumulate(fs[k]) else 0
  }

  /** The gid of a group: the third field, of digits only and ended by a colon. */
  function LineGid(l: string): Option<nat> {
    var fs := Pieces(l, ':');
    if |fs| > 3 && AllDigits(fs[2]) then Some(Val(fs[2]) % 0x1_0000_0000) else None
  }

  /** The user is one of the pieces between commas behind the third colon. */
  predicate LineLists(l: string, name: string) {
    |Pieces(l, ':')| > 3 && name != "" && name in Pieces(Behind(l, ':', 3), ',')
  }

  lemma NameOfLine(l: string, more: string)
    requires '\n' !in l
    ensures UserName(l + "\n" + more) == LineName(l)
  {
    hide HasField;
    FirstColon(l, more);
  }

  lemma NumberOfLine(l: string, more: string, k: nat)
    requires '\n' !in l
    ensures NumberAt(l + "\n" + more, k) == LineNumber(l, k)
  {
    hide HasField, Accumulate, Pieces, SkipFields;
    SkipLineFields(l, more, k);
    var fs := Pieces(l, ':');
    if k < |fs| {
      BehindIs(l, ':', k);
      FirstColon(Behind(l, ':', k), more);
      FirstPiece(Behind(l, ':', k), ':');
    }
  }

  lemma FirstPiece(s: string, c: char)
    ensures Pieces(s, c)[0] == s[..Find(s, c, 0)]
    ensures |Pieces(s, c)| == 1 <==> Find(s, c, 0) == |s|
  {
  }

  /** Digits up to a colon, as the loop over a gid takes them. */
  lemma DigitsOfField(q: string, more: string)
    requires '\n' !in q
    ensures var s, e := q + "\n" + more, DigitsEnd(q + "\n" + more, 0); var i := Find(q, ':', 0);
            && (e < |s| && s[e] == ':' <==> i < |q| && AllDigits(q[..i]))
            && (i < |q| && AllDigits(q[..i]) ==> e == i && s[..e] == q[..i])
  {
    var s, i := q + "\n" + more, Find(q, ':', 0);
    var e := DigitsEnd(s, 0);
    assert forall j | 0 <= j < |q| :: s[j] == q[j];
    assert s[|q|] == '\n';
    assert e <= |q| by { assert |q| < e ==> IsDigit(s[0..e][|q|]); }
    if i < |q| && AllDigits(q[..i]) {
      assert s[0..i] == q[..i] && s[i] == ':';
      DigitsEndIs(s, 0, i);
      assert s[..i] == q[..i];
    }
    if e < |s| && s[e] == ':' {
      assert forall j | 0 <= j < e :: q[j] != ':' by {
        assert forall j | 0 <= j < e :: IsDigit(s[0..e][j]);
      }
      FindIs(q, ':', 0, e);
      assert q[..e] == s[0..e];
    }
  }

  lemma GidOfLine(l: string, more: string)
    requires '\n' !in l
    ensures GroupGid(l + "\n" + more) == LineGid(l)
  {
    hide HasField, Accumulate, Val, Pieces, SkipFields, DigitsEnd, AllDigits;
    SkipLineFields(l, more, 2);
    if 2 < |Pieces(l, ':')| {
      var q := Behind(l, ':', 2);
      BehindIs(l, ':', 2);
      FirstPiece(q, ':');
      DigitsOfField(q, more);
      if q[..Find(q, ':', 0)] == Pieces(l, ':')[2] && AllDigits(Pieces(l, ':')[2]) {
        AccumulateDigits(Pieces(l, ':')[2]);
      }
    }
  }

  /** strtok leaves out the empty pieces. */
  lemma {:induction false} TokensAre(s: string, name: string)
    ensures name in Tokens(s) <==> name != "" && name in Pieces(s, ',')
    decreases |s|
  {
    hide Pieces, Find;
    PiecesCons(s, ',');
    if s != "" {
      var c := Find(s, ',', 0);
      if c < |s| {
        TokensAre(s[c + 1..], name);
        assert name in Pieces(s, ',') <==> name == s[..c] || name in Pieces(s[c + 1..], ',');
        assert (s[..c] == "" <==> c == 0) && (name == s[..c] ==> |name| == c);
        assert name in Tokens(s) <==> (c > 0 && name == s[..c]) || name in Tokens(s[c + 1..]);
      } else {
        assert s[..c] == s;
      }
    }
  }

  lemma UserOfLine(l: string, more: string, name: string)
    requires '\n' !in l
    ensures HasUser(l + "\n" + more, name) <==> LineLists(l, name)
  {
    hide HasField, Pieces, SkipFields, Tokens;
    SkipLineFields(l, more, 3);
    if 3 < |Pieces(l, ':')| {
      var q := Behind(l, ':', 3);
      BehindIs(l, ':', 3);
      LineEnd(q, more);
      TokensAre(q, name);
    }
  }

  /** line_get_uid_count: whatever stands behind the second colon. */
  function LineCount(l: string): nat {
    if |Pieces(l, ':')| > 2 then Accumulate(Behind(l, ':', 2)) else 0
  }

  lemma CountOfLine(l: string, more: string)
    requires '\n' !in l
    ensures CountAt(l + "\n" + more) == LineCount(l)
  {
    hide HasField, Accumulate, Pieces, SkipFields;
    SkipLineFields(l, more, 2);
    if 2 < |Pieces(l, ':')| {
      BehindIs(l, ':', 2);
      LineEnd(Behind(l, ':', 2), more);
    }
  }

  // ----- any file -----

  /** Lines with their newlines, and a rest without one. */
  function Lines(ls: seq<string>, tail: string): string {
    if ls == [] then tail else ls[0] + "\n" + Lines(ls[1..], tail)
  }

  ghost predicate AreLines(ls: seq<string>, tail: string) {
    '\n' !in tail && forall l | l in ls :: '\n' !in l
  }

  lemma NoMoreLines(ls: seq<string>, tail: string)
    ensures Lines(ls, tail) == "" <==> ls == [] && tail == ""
  {
  }

  /** A rest without a newline has no fields. */
  lemma TailIs(tail: string, k: nat)
    requires '\n' !in tail
    ensures UserName(tail) == "" && NumberAt(tail, k) == 0 && CountAt(tail) == 0 && GroupGid(tail) == None
    ensures NextLine(tail) == None
  {
    NoFieldInTail(tail);
    assert Find(tail, '\n', 0) == |tail|;
  }

  lemma NoFieldInTail(tail: string)
    requires '\n' !in tail
    ensures !HasField(tail)
  {
  }

  /** The first line with this uid; a rest or an empty file counts as one with uid 0 and no name. */
  function FirstUid(ls: seq<string>, rest: bool, uid: nat): Option<string> {
    if ls == [] then (if rest && uid == 0 then Some("") else None)
    else if LineNumber(ls[0], 2) == uid then Some(LineName(ls[0]))
    else FirstUid(ls[1..], rest, uid)
  }

  /** The first line with this name, and its number behind `k` colons. */
  function FirstName(ls: seq<string>, rest: bool, name: string, k: nat): Option<nat> {
    if ls == [] then (if rest && name == "" then Some(0) else None)
    else if LineName(ls[0]) == name then Some(LineNumber(ls[0], k))
    else FirstName(ls[1..], rest, name, k)
  }

  lemma FirstLine(ls: seq<string>, tail: string)
    requires AreLines(ls, tail) && ls != []
    ensures var p, more := Lines(ls, tail), Lines(ls[1..], tail);
            && p == ls[0] + "\n" + more && '\n' !in ls[0] && AreLines(ls[1..], tail)
            && NextLine(p) == (if ls[1..] == [] && tail == "" then None else Some(more))
  {
    hide NextLine;
    var more := Lines(ls[1..], tail);
    LineEnd(ls[0], more);
    NoMoreLines(ls[1..], tail);
  }

  /** The walks over /etc/passwd, on any text. */
  lemma {:induction false} AnyPasswd(ls: seq<string>, tail: string, rest: bool, uid: nat, name: string, k: nat)
    requires AreLines(ls, tail) && (ls == [] ==> rest) && (ls != [] ==> rest == (tail != ""))
    ensures NameOfUid(Lines(ls, tail), uid) == FirstUid(ls, rest, uid)
    ensures NumberOfName(Lines(ls, tail), name, k) == FirstName(ls, rest, name, k)
    decreases |ls|
  {
    hide NumberAt, UserName, NextLine, LineNumber, LineName, AreLines;
    var p := Lines(ls, tail);
    if ls == [] {
      AreLinesTail(ls, tail);
      TailIs(tail, k);
      TailIs(tail, 2);
    } else {
      FirstLine(ls, tail);
      var more := Lines(ls[1..], tail);
      NameOfLine(ls[0], more);
      NumberOfLine(ls[0], more, 2);
      NumberOfLine(ls[0], more, k);
      if !(ls[1..] == [] && tail == "") {
        AnyPasswd(ls[1..], tail, rest, uid, name, k);
      } else {
        assert FirstUid(ls[1..], false, uid) == None && FirstName(ls[1..], false, name, k) == None;
      }
    }
  }

  lemma AreLinesTail(ls: seq<string>, tail: string)
    requires AreLines(ls, tail)
    ensures '\n' !in tail
  {
  }

  // ----- /etc/group -----

  /** The gids of the lines that list the user, in order. */
  function Listing(ls: seq<string>, name: string): (r: seq<nat>) {
    if ls == [] then [] else
    var g := LineGid(ls[0]);
    (if g.Some? && LineLists(ls[0], name) then [g.value] else []) + Listing(ls[1..], name)
  }

  /** A line without a gid, or a rest, or nothing at all, at this place. */
  predicate BadAt(ls: seq<string>, rest: bool, b: nat) {
    if b < |ls| then LineGid(ls[b]).None? else b == |ls| && rest
  }

  lemma {:induction false} ListingGrows(ls: seq<string>, name: string, b: nat)
    requires b <= |ls|
    ensures |Listing(ls[..b], name)| <= |Listing(ls, name)|
  {
    hide LineGid, LineLists;
    if b > 0 {
      assert ls[..b][0] == ls[0] && ls[..b][1..] == ls[1..][..b - 1];
      ListingGrows(ls[1..], name, b - 1);
    }
  }

  /** The front of a list that starts with this line. */
  lemma ListingCons(ls: seq<string>, name: string, b: nat)
    requires ls != [] && 0 < b <= |ls|
    ensures var own := if LineGid(ls[0]).Some? && LineLists(ls[0], name) then [LineGid(ls[0]).value] else [];
            Listing(ls, name) == own + Listing(ls[1..], name)
            && Listing(ls[..b], name) == own + Listing(ls[1..][..b - 1], name)
  {
    hide LineGid, LineLists;
    assert ls[..b][0] == ls[0] && ls[..b][1..] == ls[1..][..b - 1];
  }

  /** The walk meets a bad line before it has as many groups as it may return. */
  ghost predicate MeetsBad(ls: seq<string>, rest: bool, name: string, before: nat) {
    exists b: nat :: b <= |ls| && BadAt(ls, rest, b) && before + |Listing(ls[..b], name)| < NGROUPS_MAX - 1
  }

  lemma MeetsCons(ls: seq<string>, rest: bool, name: string, before: nat)
    requires ls != [] && LineGid(ls[0]).Some?
    ensures MeetsBad(ls, rest, name, before) <==>
            MeetsBad(ls[1..], rest, name, before + if LineLists(ls[0], name) then 1 else 0)
  {
    hide LineGid, LineLists, Listing;
    var own := if LineLists(ls[0], name) then 1 else 0;
    if b: nat :| b <= |ls| && BadAt(ls, rest, b) && before + |Listing(ls[..b], name)| < NGROUPS_MAX - 1 {
      ListingCons(ls, name, b);
      assert BadAt(ls[1..], rest, b - 1);
    }
    if b: nat :| b <= |ls| - 1 && BadAt(ls[1..], rest, b)
                 && before + own + |Listing(ls[1..][..b], name)| < NGROUPS_MAX - 1 {
      ListingCons(ls, name, b + 1);
      assert BadAt(ls, rest, b + 1);
    }
  }

  lemma MeetsNow(ls: seq<string>, rest: bool, name: string, before: nat)
    ensures before >= NGROUPS_MAX - 1 ==> !MeetsBad(ls, rest, name, before)
    ensures before < NGROUPS_MAX - 1 && BadAt(ls, rest, 0) ==> MeetsBad(ls, rest, name, before)
    ensures ls == [] && !rest ==> !MeetsBad(ls, rest, name, before)
  {
    hide LineGid, LineLists;
    assert ls[..0] == [];
  }

  lemma ListingNow(ls: seq<string>, name: string, before: seq<nat>, now: seq<nat>)
    requires ls != [] && LineGid(ls[0]).Some?
    requires now == if LineLists(ls[0], name) then before + [LineGid(ls[0]).value] else before
    ensures before + Listing(ls, name) == now + Listing(ls[1..], name)
  {
    hide LineGid, LineLists;
    var more := Listing(ls[1..], name);
    if LineLists(ls[0], name) {
      assert before + ([LineGid(ls[0]).value] + more) == now + more;
    } else {
      assert [] + more == more;
    }
  }

  lemma NothingListed(name: string, tail: string)
    ensures Listing([], name) == [] && Lines([], tail) == tail
  {
  }

  lemma BadFirst(ls: seq<string>, rest: bool)
    ensures BadAt(ls, rest, 0) <==> if ls == [] then rest else LineGid(ls[0]).None?
  {
    hide LineGid;
  }

  /**
   The loop over /etc/group on any text: one line without a gid is an error of the whole list, if
   the walk comes to it; otherwise the gids of the listing lines, cut at NGROUPS_MAX - 1.
   */
  lemma {:induction false} AnyGroup(ls: seq<string>, tail: string, rest: bool, name: string, before: seq<nat>)
    requires AreLines(ls, tail) && (ls == [] ==> rest) && (ls != [] ==> rest == (tail != ""))
    requires |before| < NGROUPS_MAX - 1
    ensures CollectGroups(Lines(ls, tail), name, before) ==
            if MeetsBad(ls, rest, name, |before|) then None
            else Some(AtMost(before + Listing(ls, name), NGROUPS_MAX - 1))
    decreases |ls|
  {
    hide GroupGid, HasUser, NextLine, LineGid, LineLists, AreLines, MeetsBad, AtMost, Listing, Lines, BadAt;
    MeetsNow(ls, rest, name, |before|);
    NothingListed(name, tail);
    BadFirst(ls, rest);
    if ls == [] {
      AreLinesTail(ls, tail);
      TailIs(tail, 0);
    } else {
      FirstLine(ls, tail);
      var l, more := ls[0], Lines(ls[1..], tail);
      GidOfLine(l, more);
      UserOfLine(l, more, name);
      if LineGid(l).Some? {
        var now := if LineLists(l, name) then before + [LineGid(l).value] else before;
        MeetsCons(ls, rest, name, |before|);
        MeetsNow(ls[1..], rest, name, |now|);
        ListingNow(ls, name, before, now);
        if |now| >= NGROUPS_MAX - 1 {
          AtMostFull(now, Listing(ls[1..], name));
        } else if ls[1..] == [] && tail == "" {
          AtMostAll(now, []);
        } else {
          AnyGroup(ls[1..], tail, rest, name, now);
        }
      }
    }
  }

  // ----- /etc/subuid and /etc/subgid -----

  /** The range on the first line that starts with this name and a colon. */
  function FirstRange(ls: seq<string>, user: string): (nat, nat) {
    if ls == [] then (0, 0)
    else if (user + ":") <= ls[0] then (LineNumber(ls[0], 1), LineCount(ls[0]))
    else FirstRange(ls[1..], user)
  }

  lemma KeyInFront(l: string, more: string, key: string)
    requires '\n' !in key && '\n' !in l
    ensures StartsWith(l + "\n" + more, key) <==> key <= l
  {
    var p := l + "\n" + more;
    assert p[..|l|] == l && p[|l|] == '\n';
    assert forall k | 0 <= k < |key| :: key[k] != '\n';
    if StartsWith(p, key) {
      assert forall k | 0 <= k < |key| :: p[k] == p[..|key|][k];
    }
  }

  lemma {:induction false} AnySubId(ls: seq<string>, tail: string, user: string)
    requires AreLines(ls, tail) && IsField(user)
    ensures var p := FirstLineWith(Lines(ls, tail), user + ":");
            FirstRange(ls, user) == match p case None => (0, 0) case Some(q) => (NumberAt(q, 1), CountAt(q))
  {
    hide NumberAt, CountAt, StartsWith, LineNumber, LineCount, AreLines, NextLine;
    if ls == [] {
      AreLinesTail(ls, tail);
      TailIs(tail, 1);
      assert Find(tail, '\n', 0) == |tail|;
    } else {
      FirstLine(ls, tail);
      var l, more := ls[0], Lines(ls[1..], tail);
      KeyInFront(l, more, user + ":");
      NumberOfLine(l, more, 1);
      CountOfLine(l, more);
      LineEnd(l, more);
      AnySubId(ls[1..], tail, user);
    }
  }

  /** The search over /etc/subuid and /etc/subgid, on any text. */
  lemma AnyIdMap(ls: seq<string>, tail: string, user: string)
    requires AreLines(ls, tail) && IsField(user)
    ensures IdMap(Lines(ls, tail), user) == FirstRange(ls, user)
  {
    hide NumberAt, CountAt, SearchLine, FirstLineWith;
    SearchFindsLine(Lines(ls, tail), user + ":");
    AnySubId(ls, tail, user);
  }

  // ----- fields that are not all digits -----

  /** Every character counts for the distance of its code from that of 0, in decimal places. */
  function Weight(s: string): int {
    if s == "" then 0 else Weight(s[..|s| - 1]) * 10 + (s[|s| - 1] as int - 48)
  }

  lemma RestIs(x: int, k: int, r: int)
    requires x == 0x1_0000_0000 * k + r && 0 <= r < 0x1_0000_0000
    ensures x % 0x1_0000_0000 == r
  {
  }

  lemma WeightStep(v: int, d: int)
    ensures ((v % 0x1_0000_0000) * 10 + d) % 0x1_0000_0000 == (v * 10 + d) % 0x1_0000_0000
  {
    var q, r := v / 0x1_0000_0000, v % 0x1_0000_0000;
    var a := r * 10 + d;
    RestIs(v * 10 + d, a / 0x1_0000_0000 + q * 10, a % 0x1_0000_0000);
  }

  /** The digit loop on any field, in 32-bit arithmetic. */
  lemma {:induction false} AccumulateExactly(s: string)
    ensures Accumulate(s) == Weight(s) % 0x1_0000_0000
  {
    if s != "" {
      var m := |s| - 1;
      AccumulateExactly(s[..m]);
      WeightStep(Weight(s[..m]), s[m] as int - 48);
    }
  }
}
