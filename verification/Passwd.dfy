/**
 /etc/passwd, /etc/group, /etc/subuid and /etc/subgid (src/passwd.c): pointers that walk
 over the text, field by field and line by line.
 */
module Passwd {
  import opened Text
  import opened Number

  const WORD := 0x1_0000_0000       // uid_t and gid_t are 32 bits wide
  const NAME_LIMIT := 512           // LOGIN_NAME_MAX * 2
  const NGROUPS_MAX := 65536

  // ----- fields of a line -----

  /** There is a colon, and it comes before the line's newline, which has to be there. */
  predicate HasField(p: string) {
    var c, n := Find(p, ':', 0), Find(p, '\n', 0);
    c < n < |p|
  }

  /** Past the next colon. */
  function AfterColon(p: string): (r: string)
    requires HasField(p)
    ensures |r| < |p| && r != ""
  {
    p[Find(p, ':', 0) + 1..]
  }

  /** Past `k` colons of the line. */
  function SkipFields(p: string, k: nat): Option<string> {
    if k == 0 then Some(p)
    else if !HasField(p) then None
    else SkipFields(AfterColon(p), k - 1)
  }

  /** ret = ret * 10 + (c - '0'), in 32-bit arithmetic, over all characters. */
  function Accumulate(s: string): (v: nat)
    ensures v < WORD
  {
    if s == "" then 0 else (Accumulate(s[..|s| - 1]) * 10 + (s[|s| - 1] as int - '0' as int)) % WORD
  }

  lemma {:induction false} AccumulateDigits(s: string)
    requires AllDigits(s)
    ensures Accumulate(s) == Val(s) % WORD
  {
    if s != "" {
      var m := |s| - 1;
      AccumulateDigits(s[..m]);
      var d := DigitValue(s[m]);
      ModStep(Val(s[..m]), d);
    }
  }

  lemma ModStep(v: nat, d: nat)
    ensures ((v % WORD) * 10 + d) % WORD == (v * 10 + d) % WORD
  {
    var q, r := v / WORD, v % WORD;
    var a := r * 10 + d;
    ModIs(v * 10 + d, a / WORD + q * 10, a % WORD);
  }

  lemma ModIs(x: nat, k: nat, r: nat)
    requires x == WORD * k + r && r < WORD
    ensures x % WORD == r
  {
  }

  /** The loops that read a number up to a stop character that is known to be there. */
  method ReadNumber(p: string, stop: char) returns (ret: nat)
    requires Find(p, stop, 0) < |p|
    ensures ret == Accumulate(p[..Find(p, stop, 0)])
  {
    ret := 0;
    var i := 0;
    assert p[..0] == "";
    while p[i] != stop
      invariant i <= Find(p, stop, 0) && ret == Accumulate(p[..i])
      decreases |p| - i
    {
      assert p[..i + 1][..i] == p[..i];
      ret := (ret * 10 + (p[i] as int - '0' as int)) % WORD;
      i := i + 1;
    }
  }

  method Skip(p: string, k: nat) returns (r: Option<string>)
    ensures r == SkipFields(p, k)
  {
    var q := p;
    for i := 0 to k
      invariant SkipFields(p, k) == SkipFields(q, k - i)
    {
      if !HasField(q) {
        return None;
      }
      q := q[Find(q, ':', 0) + 1..];
    }
    r := Some(q);
  }

  // ----- one line of /etc/passwd -----

  function UserName(p: string): string {
    if !HasField(p) then "" else
    var c := Find(p, ':', 0);
    p[..if c < NAME_LIMIT then c else NAME_LIMIT]
  }

  /** The number in the field after `k` colons, which another colon has to end; 0 when the line is malformed. */
  function NumberAt(p: string, k: nat): nat {
    match SkipFields(p, k)
    case None => 0
    case Some(q) => if HasField(q) then Accumulate(q[..Find(q, ':', 0)]) else 0
  }

  /** line_get_username. */
  method LineGetUsername(p: string) returns (ret: string)
    ensures ret == UserName(p)
  {
    ret := "";
    if !HasField(p) {
      return;
    }
    var i := 0;
    while i < |p| && i < NAME_LIMIT && p[i] != ':'
      invariant i <= |p| && i <= NAME_LIMIT && i <= Find(p, ':', 0) && ret == p[..i]
    {
      ret := ret + [p[i]];
      i := i + 1;
    }
  }

  /** line_get_uid with k = 2, line_get_gid with k = 3, line_get_uid_lower with k = 1. */
  method LineGetNumber(p: string, k: nat) returns (ret: nat)
    ensures ret == NumberAt(p, k)
  {
    var q := Skip(p, k);
    if q.None? || !HasField(q.value) {
      return 0;
    }
    ret := ReadNumber(q.value, ':');
  }

  // ----- looking a user up -----

  /** The next line, when there is more than the newline that ends this one. */
  function NextLine(p: string): (r: Option<string>)
    ensures r.Some? ==> |r.value| < |p| && r.value != ""
  {
    var n := Find(p, '\n', 0);
    if n + 1 < |p| then Some(p[n + 1..]) else None
  }

  /** get_username: the name on the first line with this uid. */
  function NameOfUid(text: string, uid: nat): Option<string>
    decreases |text|
  {
    if NumberAt(text, 2) == uid then Some(UserName(text)) else
    match NextLine(text)
    case None => None
    case Some(rest) => NameOfUid(rest, uid)
  }

  /** ruri_get_user_uid with k = 2 and ruri_get_user_gid with k = 3: None is the error flag. */
  function NumberOfName(text: string, name: string, k: nat): Option<nat>
    decreases |text|
  {
    if UserName(text) == name then Some(NumberAt(text, k)) else
    match NextLine(text)
    case None => None
    case Some(rest) => NumberOfName(rest, name, k)
  }

  method GetUsername(text: string, uid: nat) returns (r: Option<string>)
    ensures r == NameOfUid(text, uid)
  {
    hide NumberAt, UserName;
    var p := text;
    while true
      invariant NameOfUid(text, uid) == NameOfUid(p, uid)
      decreases |p|
    {
      var name := LineGetUsername(p);
      var id := LineGetNumber(p, 2);
      if id == uid {
        return Some(name);
      }
      var next := NextLine(p);
      if next.None? {
        return None;
      }
      p := next.value;
    }
  }

  method GetUserNumber(text: string, name: string, k: nat) returns (r: Option<nat>)
    ensures r == NumberOfName(text, name, k)
  {
    hide NumberAt, UserName;
    var p := text;
    while true
      invariant NumberOfName(text, name, k) == NumberOfName(p, name, k)
      decreases |p|
    {
      var user := LineGetUsername(p);
      var id := LineGetNumber(p, k);
      if user == name {
        return Some(id);
      }
      var next := NextLine(p);
      if next.None? {
        return None;
      }
      p := next.value;
    }
  }

  // ----- one line of /etc/group -----

  /** line_get_group_gid: None is the error flag. */
  function GroupGid(p: string): Option<nat> {
    match SkipFields(p, 2)
    case None => None
    case Some(q) =>
      var e := DigitsEnd(q, 0);
      if e < |q| && q[e] == ':' then Some(Accumulate(q[..e])) else None
  }

  /** strtok by commas: the nonempty pieces. */
  function Tokens(s: string): seq<string>
    decreases |s|
  {
    if s == "" then [] else
    var c := Find(s, ',', 0);
    (if c == 0 then [] else [s[..c]]) + (if c == |s| then [] else Tokens(s[c + 1..]))
  }

  /** groups_line_have_user. */
  predicate HasUser(p: string, name: string) {
    match SkipFields(p, 3)
    case None => false
    case Some(q) => name in Tokens(q[..Find(q, '\n', 0)])
  }

  method LineGetGroupGid(p: string) returns (r: Option<nat>)
    ensures r == GroupGid(p)
  {
    hide HasField;
    var q := Skip(p, 2);
    if q.None? {
      return None;
    }
    var s, ret, i := q.value, 0, 0;
    assert s[..0] == "";
    while i < |s|
      invariant i <= |s| && ret == Accumulate(s[..i]) && DigitsEnd(s, 0) == DigitsEnd(s, i)
    {
      if s[i] == ':' {
        return Some(ret);
      }
      if s[i] < '0' || s[i] > '9' {
        return None;
      }
      assert s[..i + 1][..i] == s[..i];
      ret := (ret * 10 + (s[i] as int - '0' as int)) % WORD;
      i := i + 1;
    }
    r := None;
  }

  method GroupsLineHaveUser(p: string, name: string) returns (r: bool)
    ensures r == HasUser(p, name)
  {
    hide HasField;
    var q := Skip(p, 3);
    if q.None? {
      return false;
    }
    var users := q.value[..Find(q.value, '\n', 0)];
    ghost var all := users;
    while users != ""
      invariant name in Tokens(all) <==> name in Tokens(users)
      decreases |users|
    {
      var c := Find(users, ',', 0);
      if c > 0 && users[..c] == name {
        return true;
      }
      users := if c < |users| then users[c + 1..] else "";
    }
    r := false;
  }

  // ----- ruri_get_groups -----

  /** The loop over /etc/group: None when a line does not parse. */
  function CollectGroups(p: string, name: string, groups: seq<nat>): Option<seq<nat>>
    decreases |p|
  {
    match GroupGid(p)
    case None => None
    case Some(gid) =>
      var more := if HasUser(p, name) then groups + [gid] else groups;
      if |more| >= NGROUPS_MAX - 1 then Some(more) else
      match NextLine(p)
      case None => Some(more)
      case Some(rest) => CollectGroups(rest, name, more)
  }

  /**
   The groups of a uid, from the contents of /etc/passwd and of /etc/group, where None is a file
   that cannot be opened; empty on an error.
   */
  function GroupsOf(passwd: string, group: Option<string>, uid: nat): seq<nat> {
    match NameOfUid(passwd, uid)
    case None => []
    case Some(name) =>
      match NumberOfName(passwd, name, 3)
      case None => []
      case Some(gid) =>
        if group.None? then [gid] else
        match CollectGroups(group.value, name, [gid])
        case None => []
        case Some(all) => all
  }

  /** ruri_get_groups, filling the caller's array of NGROUPS_MAX entries. */
  method GetGroups(passwd: string, group: Option<string>, uid: nat, groups: array<nat>) returns (ret: nat)
    requires groups.Length >= NGROUPS_MAX
    modifies groups
    ensures ret <= NGROUPS_MAX && groups[..ret] == GroupsOf(passwd, group, uid)
  {
    hide GroupGid, HasUser, NumberAt, UserName, NameOfUid, NumberOfName;
    ret := 0;
    assert groups[..0] == [];
    var name := GetUsername(passwd, uid);
    if name.None? {
      return;
    }
    var gid := GetUserNumber(passwd, name.value, 3);
    if gid.None? {
      return;
    }
    groups[0] := gid.value;
    ret := 1;
    assert groups[..1] == [gid.value];
    if group.None? {
      return;
    }
    var p := group.value;
    while true
      invariant 1 <= ret < NGROUPS_MAX - 1
      invariant CollectGroups(group.value, name.value, [gid.value]) == CollectGroups(p, name.value, groups[..ret])
      decreases |p|
    {
      var tmpgid := LineGetGroupGid(p);
      if tmpgid.None? {
        ret := 0;
        return;
      }
      var have := GroupsLineHaveUser(p, name.value);
      if have {
        ghost var before := groups[..ret];
        groups[ret] := tmpgid.value;
        ret := ret + 1;
        assert groups[..ret] == before + [tmpgid.value];
      }
      if ret >= NGROUPS_MAX - 1 {
        return;
      }
      var next := NextLine(p);
      if next.None? {
        return;
      }
      p := next.value;
    }
  }

  // ----- /etc/subuid and /etc/subgid -----

  /** strstr: the first position of `t` at or after `i`; None when there is none. */
  function StrStr(s: string, t: string, i: nat): (r: Option<nat>)
    requires i <= |s|
    ensures r.Some? ==> i <= r.value <= |s| && StartsWith(s[r.value..], t)
    ensures r.Some? ==> forall j | i <= j < r.value :: !StartsWith(s[j..], t)
    ensures r.None? ==> forall j | i <= j <= |s| :: !StartsWith(s[j..], t)
    decreases |s| - i
  {
    if StartsWith(s[i..], t) then Some(i)
    else if i == |s| then None
    else StrStr(s, t, i + 1)
  }

  /** The text from the line on that the search settles for. */
  function SearchLine(buf: string, key: string): Option<string>
    decreases |buf|
  {
    match StrStr(buf, key, 0)
    case None => None
    case Some(k) =>
      if k == 0 || buf[k - 1] == '\n' then Some(buf[k..]) else
      var nl := Find(buf, '\n', 0);
      if nl == |buf| then None else SearchLine(buf[nl + 1..], key)
  }

  /** line_get_uid_count: after two colons up to the newline. */
  function CountAt(p: string): nat {
    match SkipFields(p, 2)
    case None => 0
    case Some(q) => if Find(q, '\n', 0) < |q| then Accumulate(q[..Find(q, '\n', 0)]) else 0
  }

  /** get_uid_map and get_gid_map: lower bound and count, or twice 0. */
  function IdMap(text: string, user: string): (nat, nat) {
    match SearchLine(text, user + ":")
    case None => (0, 0)
    case Some(p) => (NumberAt(p, 1), CountAt(p))
  }

  method GetIdMap(text: string, user: string) returns (lower: nat, count: nat)
    ensures (lower, count) == IdMap(text, user)
  {
    hide NumberAt, CountAt, StrStr;
    var buf, key := text, user + ":";
    while true
      invariant SearchLine(text, key) == SearchLine(buf, key)
      decreases |buf|
    {
      var map_ := StrStr(buf, key, 0);
      if map_.None? {
        return 0, 0;
      }
      var k := map_.value;
      if k == 0 || buf[k - 1] == '\n' {
        lower := LineGetNumber(buf[k..], 1);
        count := LineGetCount(buf[k..]);
        return;
      }
      var nl := Find(buf, '\n', 0);
      if nl == |buf| {
        return 0, 0;
      }
      buf := buf[nl + 1..];
    }
  }

  method LineGetCount(p: string) returns (ret: nat)
    ensures ret == CountAt(p)
  {
    var q := Skip(p, 2);
    if q.None? || Find(q.value, '\n', 0) == |q.value| {
      return 0;
    }
    ret := ReadNumber(q.value, '\n');
  }

  /** The text from the first line on that begins with `key`. */
  function FirstLineWith(text: string, key: string): Option<string>
    decreases |text|
  {
    if StartsWith(text, key) then Some(text) else
    var nl := Find(text, '\n', 0);
    if nl == |text| then None else FirstLineWith(text[nl + 1..], key)
  }

  /**
   Dropping one line and searching again finds exactly the first line that begins with the
   key, never a line that has the key further in.
   */
  lemma {:induction false} SearchFindsLine(buf: string, key: string)
    requires key != "" && '\n' !in key
    ensures SearchLine(buf, key) == FirstLineWith(buf, key)
    decreases |buf|
  {
    hide StartsWith;
    var k, nl := StrStr(buf, key, 0), Find(buf, '\n', 0);
    assert buf[0..] == buf;
    if !StartsWith(buf, key) && nl < |buf| {
      SearchFindsLine(buf[nl + 1..], key);
      if k.None? {
        NoOccurrence(buf, key, nl);
      } else if buf[k.value - 1] == '\n' {
        assert nl < k.value;
        SameOccurrence(buf, key, nl);
      }
    }
  }

  /** Without an occurrence in the text there is none in the rest of its lines. */
  lemma NoOccurrence(buf: string, key: string, nl: nat)
    requires nl < |buf| && StrStr(buf, key, 0).None?
    ensures StrStr(buf[nl + 1..], key, 0).None?
  {
    hide StartsWith;
    var r := StrStr(buf[nl + 1..], key, 0);
    if r.Some? {
      DropDrop(buf, nl + 1, r.value);
    }
  }

  /** The first occurrence behind the first line is an occurrence in the rest of the lines. */
  lemma SameOccurrence(buf: string, key: string, nl: nat)
    requires nl < |buf| && StrStr(buf, key, 0).Some? && nl < StrStr(buf, key, 0).value
    ensures StrStr(buf[nl + 1..], key, 0) == Some(StrStr(buf, key, 0).value - nl - 1)
  {
    hide StartsWith;
    var rest, k := buf[nl + 1..], StrStr(buf, key, 0).value;
    forall j: nat | j <= |rest| ensures rest[j..] == buf[nl + 1 + j..] {
      DropDrop(buf, nl + 1, j);
    }
    var r := StrStr(rest, key, 0);
    assert StartsWith(rest[k - nl - 1..], key);
    assert r.Some?;
    assert StartsWith(buf[nl + 1 + r.value..], key);
  }
}
