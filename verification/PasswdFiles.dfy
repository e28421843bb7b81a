/**
 What the walks of src/passwd.c find in well-formed, newline-terminated files.
 */
module PasswdFiles {
  import opened Text
  import opened Number
  import opened Passwd

  /** A field: no colon, no newline. */
  ghost predicate IsField(f: string) {
    ':' !in f && '\n' !in f
  }

  ghost predicate AreFields(fields: seq<string>) {
    forall k | 0 <= k < |fields| :: IsField(fields[k])
  }

  /** A line: fields, each with its colon, and what is left of the line. */
  function Joined(fields: seq<string>, rest: string): string {
    if fields == [] then rest else fields[0] + ":" + Joined(fields[1..], rest)
  }

  /** What the digits of a field stand for in a 32-bit word. */
  function NumberOf(digits: string): nat {
    if AllDigits(digits) then Val(digits) % WORD else 0
  }

  lemma DigitsAreField(d: string)
    requires AllDigits(d)
    ensures IsField(d)
  {
  }

  lemma {:induction false} JoinedAppend(fields: seq<string>, rest: string, t: string)
    ensures Joined(fields, rest) + t == Joined(fields, rest + t)
  {
    if fields != [] {
      JoinedAppend(fields[1..], rest, t);
      assert Joined(fields, rest) + t == fields[0] + ":" + (Joined(fields[1..], rest) + t);
    }
  }

  lemma {:induction false} NewlineInJoined(fields: seq<string>, rest: string)
    requires AreFields(fields)
    ensures '\n' in Joined(fields, rest) <==> '\n' in rest
  {
    if fields != [] {
      NewlineInJoined(fields[1..], rest);
      assert IsField(fields[0]);
    }
  }

  /** A field and its colon in front of a text with a newline in it. */
  lemma FieldInFront(f: string, q: string)
    requires IsField(f) && '\n' in q
    ensures var p := f + ":" + q; HasField(p) && Find(p, ':', 0) == |f| && p[..|f|] == f && AfterColon(p) == q
  {
    var p := f + ":" + q;
    assert forall j | 0 <= j < |f| :: p[j] == f[j] && f[j] in f;
    FindIs(p, ':', 0, |f|);
    var k :| 0 <= k < |q| && q[k] == '\n';
    assert p[|f| + 1 + k] == '\n';
    assert Find(p, '\n', 0) > |f|;
    assert p[|f| + 1..] == q;
  }

  /** Skipping fields. */
  lemma {:induction false} SkipJoined(fields: seq<string>, rest: string, k: nat)
    requires AreFields(fields) && '\n' in rest && k <= |fields|
    ensures SkipFields(Joined(fields, rest), k) == Some(Joined(fields[k..], rest))
  {
    hide HasField;
    if k == 0 {
      assert fields[0..] == fields;
    } else {
      NewlineInJoined(fields[1..], rest);
      assert IsField(fields[0]);
      FieldInFront(fields[0], Joined(fields[1..], rest));
      SkipJoined(fields[1..], rest, k - 1);
      assert fields[1..][k - 1..] == fields[k..];
    }
  }

  /** The walks that read the number in the field after `k` colons. */
  lemma NumberJoined(fields: seq<string>, rest: string, k: nat)
    requires AreFields(fields) && '\n' in rest && k < |fields| && AllDigits(fields[k])
    ensures NumberAt(Joined(fields, rest), k) == NumberOf(fields[k])
  {
    hide HasField, SkipFields, Accumulate, Val;
    SkipJoined(fields, rest, k);
    NewlineInJoined(fields[k + 1..], rest);
    assert fields[k..][1..] == fields[k + 1..];
    FieldInFront(fields[k], Joined(fields[k + 1..], rest));
    AccumulateDigits(fields[k]);
  }

  /** A line in front of more lines. */
  lemma LineEnd(line: string, more: string)
    requires '\n' !in line
    ensures var p := line + "\n" + more;
            Find(p, '\n', 0) == |line| && p[..|line|] == line && p[|line| + 1..] == more &&
            NextLine(p) == if more == "" then None else Some(more)
    ensures '\n' in line + "\n" + more
  {
    var p := line + "\n" + more;
    assert forall j | 0 <= j < |line| :: p[j] == line[j] && line[j] in line;
    FindIs(p, '\n', 0, |line|);
    assert p[|line| + 1..] == more;
    assert p[|line|] == '\n';
  }

  /** A joined line in front of more lines is joined itself, and the next line is found behind it. */
  lemma JoinedLine(fields: seq<string>, rest: string, more: string)
    requires AreFields(fields) && '\n' !in rest
    ensures var p := Joined(fields, rest) + "\n" + more;
            p == Joined(fields, rest + "\n" + more) && '\n' in rest + "\n" + more &&
            Find(p, '\n', 0) == |Joined(fields, rest)| && p[Find(p, '\n', 0) + 1..] == more &&
            NextLine(p) == if more == "" then None else Some(more)
  {
    hide Joined, AreFields;
    var p := Joined(fields, rest) + "\n" + more;
    assert p == Joined(fields, rest) + ("\n" + more) && rest + "\n" + more == rest + ("\n" + more);
    JoinedAppend(fields, rest, "\n" + more);
    NewlineInJoined(fields, rest);
    LineEnd(rest, more);
    LineEnd(Joined(fields, rest), more);
  }

  // ----- /etc/passwd -----

  /** uid and gid are the digits in the file; `rest` is comment, home directory and shell. */
  datatype User = User(name: string, password: string, uid: string, gid: string, rest: string) {

    ghost predicate Valid() {
      && IsField(name) && IsField(password) && AllDigits(uid) && AllDigits(gid) && '\n' !in rest
      && 0 < |name| <= NAME_LIMIT
    }

    function Line(): string {
      Joined([name, password, uid, gid], rest)
    }
  }

  function UserFile(us: seq<User>): string {
    if us == [] then "" else us[0].Line() + "\n" + UserFile(us[1..])
  }

  /** The parts of a user's line, with more lines behind it. */
  lemma UserParts(u: User, more: string)
    requires u.Valid()
    ensures var p := u.Line() + "\n" + more;
            && UserName(p) == u.name && NumberAt(p, 2) == NumberOf(u.uid) && NumberAt(p, 3) == NumberOf(u.gid)
            && NextLine(p) == if more == "" then None else Some(more)
  {
    hide NumberAt, NumberOf, HasField, AllDigits, IsField;
    DigitsAreField(u.uid);
    DigitsAreField(u.gid);
    var fields := [u.name, u.password, u.uid, u.gid];
    JoinedLine(fields, u.rest, more);
    var rest := u.rest + "\n" + more;
    NumberJoined(fields, rest, 2);
    NumberJoined(fields, rest, 3);
    NewlineInJoined(fields[1..], rest);
    FieldInFront(u.name, Joined(fields[1..], rest));
  }

  /** The simple list lookups. */
  function WithUid(us: seq<User>, uid: nat): Option<User> {
    if us == [] then None else if NumberOf(us[0].uid) == uid then Some(us[0]) else WithUid(us[1..], uid)
  }

  function WithName(us: seq<User>, name: string): Option<User> {
    if us == [] then None else if us[0].name == name then Some(us[0]) else WithName(us[1..], name)
  }

  lemma NonEmptyUserFile(us: seq<User>)
    requires us != []
    ensures UserFile(us) != ""
  {
  }

  /** get_username: an empty file has the uid 0, with an empty name. */
  function NameFound(us: seq<User>, uid: nat): Option<string> {
    if us == [] then (if uid == 0 then Some("") else None) else
    match WithUid(us, uid)
    case None => None
    case Some(u) => Some(u.name)
  }

  lemma EmptyUserFile(uid: nat, name: string, k: nat)
    ensures NameOfUid("", uid) == if uid == 0 then Some("") else None
    ensures NumberOfName("", name, k) == if name == "" then Some(0) else None
  {
    NoFields(2);
    NoFields(k);
  }

  lemma NoFields(k: nat)
    ensures NumberAt("", k) == 0
  {
  }

  /** get_username, ruri_get_user_uid and ruri_get_user_gid are the list lookups, but for an empty file. */
  lemma {:induction false} LookupsAgree(us: seq<User>, uid: nat, name: string)
    requires forall u | u in us :: u.Valid()
    ensures NameOfUid(UserFile(us), uid) == NameFound(us, uid)
    ensures NumberOfName(UserFile(us), name, 2) ==
            if us == [] && name == "" then Some(0) else
            match WithName(us, name) case None => None case Some(u) => Some(NumberOf(u.uid))
    ensures NumberOfName(UserFile(us), name, 3) ==
            if us == [] && name == "" then Some(0) else
            match WithName(us, name) case None => None case Some(u) => Some(NumberOf(u.gid))
    decreases |us|
  {
    hide NumberAt, UserName, NextLine, NumberOf, Joined;
    if us == [] {
      EmptyUserFile(uid, name, 2);
      EmptyUserFile(uid, name, 3);
    } else {
      assert us[0] in us;
      UserParts(us[0], UserFile(us[1..]));
      if |us| > 1 {
        LookupsAgree(us[1..], uid, name);
        NonEmptyUserFile(us[1..]);
      } else {
        assert us[1..] == [] && WithUid(us[1..], uid) == None && WithName(us[1..], name) == None;
      }
    }
  }

  // ----- /etc/group -----

  datatype Group = Group(name: string, password: string, gid: string, members: seq<string>) {

    ghost predicate Valid() {
      IsField(name) && IsField(password) && AllDigits(gid) && forall m | m in members :: IsMember(m)
    }

    function Line(): string {
      Joined([name, password, gid], Members(members))
    }
  }

  ghost predicate IsMember(m: string) {
    m != "" && ',' !in m && '\n' !in m
  }

  function Members(ms: seq<string>): string {
    if ms == [] then "" else if |ms| == 1 then ms[0] else ms[0] + "," + Members(ms[1..])
  }

  function GroupFile(gs: seq<Group>): string {
    if gs == [] then "" else gs[0].Line() + "\n" + GroupFile(gs[1..])
  }

  /** strtok gives the members back. */
  lemma {:induction false} TokensOfMembers(ms: seq<string>)
    requires forall m | m in ms :: IsMember(m)
    ensures Tokens(Members(ms)) == ms && '\n' !in Members(ms)
  {
    if ms != [] {
      var m := ms[0];
      assert IsMember(m);
      if |ms| == 1 {
        LastToken(m);
        assert ms == [m];
      } else {
        var more := Members(ms[1..]);
        assert forall x | x in ms[1..] :: x in ms;
        TokensOfMembers(ms[1..]);
        TokenInFront(m, more);
        assert ms == [m] + ms[1..];
      }
    }
  }

  lemma LastToken(m: string)
    requires IsMember(m)
    ensures Tokens(m) == [m]
  {
    assert Find(m, ',', 0) == |m|;
    assert m[..|m|] == m && [m] + [] == [m];
  }

  lemma TokenInFront(m: string, more: string)
    requires IsMember(m)
    ensures Tokens(m + "," + more) == [m] + Tokens(more)
  {
    var s := m + "," + more;
    assert forall j | 0 <= j < |m| :: s[j] == m[j] && m[j] in m;
    FindIs(s, ',', 0, |m|);
    assert s[..|m|] == m && s[|m| + 1..] == more;
  }

  /** The gid field, which only digits may fill. */
  lemma GidField(d: string, rest: string)
    requires AllDigits(d)
    ensures DigitsEnd(d + ":" + rest, 0) == |d|
  {
    var q := d + ":" + rest;
    assert q[0..|d|] == d && q[|d|] == ':';
    DigitsEndIs(q, 0, |d|);
  }

  /** The parts of a group's line, with more lines behind it. */
  lemma GroupParts(g: Group, more: string, user: string)
    requires g.Valid()
    ensures var p := g.Line() + "\n" + more;
            && GroupGid(p) == Some(NumberOf(g.gid)) && (HasUser(p, user) <==> user in g.members)
            && NextLine(p) == if more == "" then None else Some(more)
  {
    hide SkipFields, HasField, Tokens, Members, AllDigits, IsField, IsMember, NextLine;
    DigitsAreField(g.gid);
    TokensOfMembers(g.members);
    var fields, ms := [g.name, g.password, g.gid], Members(g.members);
    JoinedLine(fields, ms, more);
    var rest := ms + "\n" + more;
    SkipJoined(fields, rest, 3);
    assert fields[3..] == [];
    LineEnd(ms, more);
    SkipJoined(fields, rest, 2);
    GroupNumber(fields, g.gid, rest);
  }

  lemma GroupNumber(fields: seq<string>, gid: string, rest: string)
    requires |fields| == 3 && fields[2] == gid && AllDigits(gid)
    ensures var q := Joined(fields[2..], rest);
            q == gid + ":" + rest && DigitsEnd(q, 0) == |gid| && Accumulate(q[..|gid|]) == NumberOf(gid)
  {
    hide Val, Accumulate;
    var q := Joined(fields[2..], rest);
    assert fields[2..] == [gid] && [gid][1..] == [];
    assert Joined([gid], rest) == gid + ":" + Joined([], rest);
    assert q[..|gid|] == gid;
    GidField(gid, rest);
    AccumulateDigits(gid);
  }

  /** The gids of exactly the groups that list the user, in file order. */
  function GidsWith(gs: seq<Group>, user: string): seq<nat> {
    if gs == [] then []
    else (if user in gs[0].members then [NumberOf(gs[0].gid)] else []) + GidsWith(gs[1..], user)
  }

  function AtMost(s: seq<nat>, n: nat): seq<nat> {
    if |s| <= n then s else s[..n]
  }

  lemma NonEmptyGroupFile(gs: seq<Group>)
    requires gs != []
    ensures GroupFile(gs) != ""
  {
  }

  /** The loop of ruri_get_groups, from any point of it on. */
  lemma {:induction false} CollectAgrees(gs: seq<Group>, user: string, before: seq<nat>)
    requires gs != [] && (forall g | g in gs :: g.Valid()) && |before| < NGROUPS_MAX - 1
    ensures CollectGroups(GroupFile(gs), user, before) ==
            Some(AtMost(before + GidsWith(gs, user), NGROUPS_MAX - 1))
    decreases |gs|
  {
    hide GroupGid, HasUser, NextLine, NumberOf, Joined, AtMost;
    var g, rest := gs[0], GidsWith(gs[1..], user);
    assert g in gs;
    GroupParts(g, GroupFile(gs[1..]), user);
    var now := if user in g.members then before + [NumberOf(g.gid)] else before;
    assert before + GidsWith(gs, user) == now + rest;
    if |now| >= NGROUPS_MAX - 1 {
      AtMostFull(now, rest);
    } else if |gs| > 1 {
      NonEmptyGroupFile(gs[1..]);
      CollectAgrees(gs[1..], user, now);
    } else {
      AtMostAll(now, rest);
    }
  }

  lemma AtMostFull(now: seq<nat>, rest: seq<nat>)
    ensures AtMost(now + rest, |now|) == now
  {
  }

  lemma AtMostAll(now: seq<nat>, rest: seq<nat>)
    requires rest == [] && |now| < NGROUPS_MAX - 1
    ensures AtMost(now + rest, NGROUPS_MAX - 1) == now
  {
    assert now + rest == now;
  }

  /** The primary gid of the user's name, then the gids of exactly the groups that list the whole name. */
  function Expected(us: seq<User>, gs: seq<Group>, u: User): seq<nat> {
    var first := WithName(us, u.name);
    AtMost((if first.Some? then [NumberOf(first.value.gid)] else []) + GidsWith(gs, u.name), NGROUPS_MAX - 1)
  }

  /** An empty /etc/group does not parse, so that not even the primary group is reported. */
  lemma EmptyGroupFile(name: string, before: seq<nat>)
    ensures CollectGroups("", name, before) == None
  {
  }

  /**
   ruri_get_groups, for a uid that is there: the primary gid first, then the listing groups in
   file order, at most NGROUPS_MAX - 1 in all.  A missing /etc/group leaves the primary gid, an
   empty one leaves nothing.
   */
  lemma GroupsAgree(us: seq<User>, gs: seq<Group>, uid: nat)
    requires (forall u | u in us :: u.Valid()) && (forall g | g in gs :: g.Valid()) && WithUid(us, uid).Some?
    ensures var u := WithUid(us, uid).value;
            && WithName(us, u.name).Some?
            && GroupsOf(UserFile(us), Some(GroupFile(gs)), uid) == (if gs == [] then [] else Expected(us, gs, u))
            && GroupsOf(UserFile(us), None, uid) == [NumberOf(WithName(us, u.name).value.gid)]
  {
    hide NameOfUid, NumberOfName, CollectGroups, UserFile, AtMost, GidsWith, NumberOf, WithUid, WithName;
    SomeUser(us, uid);
    var u := WithUid(us, uid).value;
    UidUserIsNamed(us, uid);
    LookupsAgree(us, uid, u.name);
    var gid := NumberOf(WithName(us, u.name).value.gid);
    if gs == [] {
      EmptyGroupFile(u.name, [gid]);
    } else {
      CollectAgrees(gs, u.name, [gid]);
    }
  }

  /** So the groups are the expected ones exactly when the file has a group in it. */
  lemma GroupsExactly(us: seq<User>, gs: seq<Group>, uid: nat)
    requires (forall u | u in us :: u.Valid()) && (forall g | g in gs :: g.Valid()) && WithUid(us, uid).Some?
    ensures GroupsOf(UserFile(us), Some(GroupFile(gs)), uid) == Expected(us, gs, WithUid(us, uid).value) <==> gs != []
  {
    hide GroupsOf, WithName, WithUid, NumberOf, UserFile, GroupFile;
    GroupsAgree(us, gs, uid);
  }

  /** For a uid that is not there no group is reported, but an empty /etc/passwd has the uid 0 with the gid 0. */
  lemma GroupsOfNobody(us: seq<User>, gs: seq<Group>, uid: nat)
    requires (forall u | u in us :: u.Valid()) && (forall g | g in gs :: g.Valid()) && WithUid(us, uid).None?
    ensures GroupsOf(UserFile(us), Some(GroupFile(gs)), uid) ==
            if us == [] && uid == 0 && gs != [] then [0] else []
  {
    hide NameOfUid, NumberOfName, CollectGroups, UserFile, AtMost, NumberOf, WithUid, WithName;
    LookupsAgree(us, uid, "");
    if us == [] && uid == 0 {
      if gs == [] {
        EmptyGroupFile("", [0]);
      } else {
        CollectAgrees(gs, "", [0]);
        NobodyWithoutName(gs);
        AtMostAll([0], []);
      }
    }
  }

  lemma {:induction false} NobodyWithoutName(gs: seq<Group>)
    requires forall g | g in gs :: g.Valid()
    ensures GidsWith(gs, "") == []
  {
    if gs != [] {
      assert gs[0] in gs;
      assert !IsMember("");
      NobodyWithoutName(gs[1..]);
    }
  }

  lemma SomeUser(us: seq<User>, uid: nat)
    requires WithUid(us, uid).Some?
    ensures us != []
  {
  }

  lemma {:induction false} UidUserIsNamed(us: seq<User>, uid: nat)
    requires WithUid(us, uid).Some?
    ensures WithName(us, WithUid(us, uid).value.name).Some?
  {
    if NumberOf(us[0].uid) != uid {
      UidUserIsNamed(us[1..], uid);
    }
  }

  // ----- /etc/subuid and /etc/subgid -----

  datatype SubId = SubId(name: string, lower: string, count: string) {

    ghost predicate Valid() {
      IsField(name) && AllDigits(lower) && AllDigits(count)
    }

    function Line(): string {
      Joined([name, lower], count)
    }
  }

  function SubIdFile(es: seq<SubId>): string {
    if es == [] then "" else es[0].Line() + "\n" + SubIdFile(es[1..])
  }

  /** The range of the first entry with exactly this name; twice 0 when there is none. */
  function RangeOf(es: seq<SubId>, user: string): (nat, nat) {
    if es == [] then (0, 0)
    else if es[0].name == user then (NumberOf(es[0].lower), NumberOf(es[0].count))
    else RangeOf(es[1..], user)
  }

  /** A line begins with "user:" exactly when that is its name. */
  lemma NameAtFront(name: string, user: string, q: string)
    requires IsField(name) && IsField(user)
    ensures StartsWith(name + ":" + q, user + ":") <==> name == user
  {
    var p, key := name + ":" + q, user + ":";
    if name == user {
      assert p[..|key|] == key;
    }
    if StartsWith(p, key) {
      assert forall j | 0 <= j < |key| :: p[j] == p[..|key|][j];
      ColonAfter(p, name);
      ColonAfter(p, user);
      assert name == p[..|name|] && user == p[..|user|];
    }
  }

  lemma ColonAfter(p: string, f: string)
    requires IsField(f) && |f| < |p| && p[..|f|] == f && p[|f|] == ':'
    ensures Find(p, ':', 0) == |f|
  {
    assert forall j | 0 <= j < |f| :: p[j] == f[j] && f[j] in f;
    FindIs(p, ':', 0, |f|);
  }

  /** The parts of an entry, with more lines behind it. */
  lemma SubIdParts(e: SubId, more: string, user: string)
    requires e.Valid() && IsField(user)
    ensures var p := e.Line() + "\n" + more;
            && NumberAt(p, 1) == NumberOf(e.lower) && CountAt(p) == NumberOf(e.count)
            && (StartsWith(p, user + ":") <==> e.name == user)
            && Find(p, '\n', 0) == |e.Line()| && p[Find(p, '\n', 0) + 1..] == more
  {
    hide NumberAt, SkipFields, HasField, StartsWith, Accumulate, Val, AllDigits, IsField;
    DigitsAreField(e.lower);
    CountIsLine(e.count);
    var fields := [e.name, e.lower];
    JoinedLine(fields, e.count, more);
    var rest := e.count + "\n" + more;
    NumberJoined(fields, rest, 1);
    SkipJoined(fields, rest, 2);
    assert fields[2..] == [];
    LineEnd(e.count, more);
    AccumulateDigits(e.count);
    NameAtFront(e.name, user, Joined(fields[1..], rest));
  }

  lemma CountIsLine(d: string)
    requires AllDigits(d)
    ensures '\n' !in d
  {
  }

  lemma {:induction false} FirstLineAgrees(es: seq<SubId>, user: string)
    requires (forall e | e in es :: e.Valid()) && IsField(user)
    ensures var p := FirstLineWith(SubIdFile(es), user + ":");
            RangeOf(es, user) == match p case None => (0, 0) case Some(q) => (NumberAt(q, 1), CountAt(q))
  {
    hide NumberAt, CountAt, StartsWith, Joined, NumberOf, IsField;
    if es == [] {
      NothingStarts(user + ":");
    } else {
      assert es[0] in es;
      SubIdParts(es[0], SubIdFile(es[1..]), user);
      FirstLineAgrees(es[1..], user);
    }
  }

  lemma NothingStarts(key: string)
    requires key != ""
    ensures !StartsWith("", key)
  {
  }

  /**
   The search of get_uid_map and get_gid_map returns the range of the first entry with
   exactly this name, and never one whose name only ends in it.
   */
  lemma IdMapAgrees(es: seq<SubId>, user: string)
    requires (forall e | e in es :: e.Valid()) && IsField(user)
    ensures IdMap(SubIdFile(es), user) == RangeOf(es, user)
  {
    hide NumberAt, CountAt, SearchLine, FirstLineWith;
    SearchFindsLine(SubIdFile(es), user + ":");
    FirstLineAgrees(es, user);
  }
}
