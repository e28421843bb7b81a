/**
 What ruri_read_info makes of any file (src/rurienv.c:289-486), whoever wrote it: when the process
 exits, and what the fields are when it does not.
 */
module RuntimeExact {
  import opened Text
  import opened Number
  import opened K2v3
  import opened K2v3Parse
  import opened K2v3Get
  import opened K2v3Laws
  import opened K2v3Typed
  import opened RuntimeInfo
  import opened RuntimeRead

  // ----- values in the cache -----

  ghost predicate BoolIn(cache: seq<Node>, key: string, b: bool) {
    Holds(cache, key, Scalar, Text(if b then "true" else "false"))
  }

  /** An int in range; an empty value or a text that is no number counts as 0. */
  ghost predicate IntIn(cache: seq<Node>, key: string, n: int) {
    || (Holds(cache, key, Scalar, Null) && n == 0)
    || exists s: string :: Holds(cache, key, Scalar, Text(s)) && TextIsInt(s, n)
  }

  ghost predicate TextIsInt(s: string, n: int) {
    if exists v :: Whole(s, v) then Whole(s, n) && -0x8000_0000 <= n <= 0x7fff_ffff else n == 0
  }

  ghost predicate CharIn(cache: seq<Node>, key: string, val: Option<string>) {
    Holds(cache, key, Scalar, if val.None? then Null else Text(val.value))
  }

  /** No more strings than the reader takes. */
  ghost predicate ListIn(cache: seq<Node>, key: string, vals: seq<string>, limit: nat) {
    |vals| <= limit && (Holds(cache, key, Array, List(vals)) || (vals == [] && Holds(cache, key, Array, Null)))
  }

  /** Kinds and payloads go together, as they do in every parsed text. */
  ghost predicate Sound(cache: seq<Node>) {
    forall n | n in cache :: !(n.kind == Scalar && n.payload.List?) && !(n.kind == Array && n.payload.Text?)
  }

  lemma BoolGot(cache: seq<Node>, key: string, b: bool)
    ensures GetBool(cache, key) == Got(b, false) <==> BoolIn(cache, key, b)
  {
  }

  lemma IntGot(cache: seq<Node>, key: string, n: int)
    requires Sound(cache)
    ensures GetInt(cache, key) == Got(n, false) <==> IntIn(cache, key, n)
  {
    hide IntOf, Whole, Sound;
    SoundHere(cache, key);
    var node := Lookup(cache, key);
    if node.Some? && node.value.payload.Text? {
      TextGot(node.value.payload.s, n);
    }
  }

  lemma SoundHere(cache: seq<Node>, key: string)
    requires Sound(cache)
    ensures var n := Lookup(cache, key);
            n.Some? ==> !(n.value.kind == Scalar && n.value.payload.List?)
                        && !(n.value.kind == Array && n.value.payload.Text?)
  {
  }

  lemma TextGot(s: string, n: int)
    ensures IntOf(s) == Got(n, false) <==> TextIsInt(s, n)
  {
    hide IntOf, Whole;
    IntExactly(s);
    if v :| Whole(s, v) {
      assert IntOf(s).warned || IntOf(s).value == v;
    }
  }

  lemma CharGot(cache: seq<Node>, key: string, val: Option<string>)
    requires Sound(cache)
    ensures GetChar(cache, key) == Got(val, false) <==> CharIn(cache, key, val)
  {
    hide Sound;
    SoundHere(cache, key);
  }

  lemma ListGot(cache: seq<Node>, key: string, vals: seq<string>, limit: nat)
    requires Sound(cache)
    ensures ArrayOf(cache, key, limit) == Got(vals, false) <==> ListIn(cache, key, vals, limit)
  {
    hide Sound;
    SoundHere(cache, key);
  }

  lemma SoundPayload(p: Payload)
    ensures UnescapePayload(p).List? == p.List? && UnescapePayload(p).Text? == p.Text?
  {
  }

  /** Every parsed text is sound. */
  lemma ParsedIsSound(s: string)
    ensures Sound(ParsedCache(s))
  {
    hide Entries, FirstWins, FirstPositions, RawText, UnescapePayload;
    var es, ns := Entries(s).nodes, FirstWins(Entries(s).nodes);
    RawEntries(s);
    FirstWinsSelects(es);
    forall k | 0 <= k < |ns| ensures ns[k] in es {
      assert ns[k] == es[FirstPositions(es)[k]];
    }
    forall n | n in ParsedCache(s)
      ensures !(n.kind == Scalar && n.payload.List?) && !(n.kind == Array && n.payload.Text?)
    {
      var k :| 0 <= k < |ParsedCache(s)| && ParsedCache(s)[k] == n;
      assert ns[k] in es;
      SoundPayload(ns[k].payload);
    }
  }

  // ----- the main branch -----

  ghost predicate SecurityIn(cache: seq<Node>, naming: Naming, i: Info) {
    && (exists texts: seq<string> :: ListIn(cache, "drop_caplist", texts, 114)
                                     && ReadCaps(texts, naming) == Some(i.dropCaps))
    && BoolIn(cache, "no_new_privs", i.noNewPrivs) && BoolIn(cache, "enable_seccomp", i.defaultSeccomp)
    && BoolIn(cache, "enable_seccomp_whitelist", i.whitelistSeccomp) && BoolIn(cache, "skip_setgroups", i.skipSetgroups)
    && ListIn(cache, "deny_syscall", i.denied, 2048)
  }

  /** A work directory and a user that are set already are kept, and not even looked for. */
  ghost predicate KeptOrIn(cache: seq<Node>, key: string, now: Option<string>, val: Option<string>) {
    if now.Some? then val == now else CharIn(cache, key, val)
  }

  ghost predicate IdentityIn(cache: seq<Node>, now: Info, i: Info) {
    && IntIn(cache, "ns_pid", i.nsPid) && IntIn(cache, "container_id", i.containerId)
    && KeptOrIn(cache, "work_dir", now.workDir, i.workDir) && BoolIn(cache, "no_warnings", i.noWarnings)
    && KeptOrIn(cache, "user", now.user, i.user) && BoolIn(cache, "no_network", i.noNetwork)
    && IntIn(cache, "oom_score_adj", i.oomScoreAdj) && ListIn(cache, "env", i.env, 1024)
    && BoolIn(cache, "systemd_mode", i.systemdMode)
  }

  /** The file says exactly these values of the stored fields; the mountpoints and the rootless flag stay. */
  ghost predicate MainSays(cache: seq<Node>, naming: Naming, now: Info, i: Info) {
    && SecurityIn(cache, naming, i) && IdentityIn(cache, now, i)
    && i.mounts == now.mounts && i.roMounts == now.roMounts && i.rootless == now.rootless
  }

  lemma DropCapsExactly(now: Info, cache: seq<Node>, naming: Naming, r: Info)
    requires Sound(cache)
    ensures ReadDropCaps(now, cache, naming) == Some(r) <==>
            && r == now.(dropCaps := r.dropCaps)
            && exists texts: seq<string> :: ListIn(cache, "drop_caplist", texts, 114)
                                            && ReadCaps(texts, naming) == Some(r.dropCaps)
  {
    hide ArrayOf, ReadCaps, ListIn, Sound;
    forall texts: seq<string>
      ensures ArrayOf(cache, "drop_caplist", 114) == Got(texts, false) <==> ListIn(cache, "drop_caplist", texts, 114)
    {
      ListGot(cache, "drop_caplist", texts, 114);
    }
    var a := ArrayOf(cache, "drop_caplist", 114);
    assert a == Got(a.value, a.warned);
  }

  lemma SeccompExactly(now: Info, cache: seq<Node>, r: Info)
    ensures ReadSeccomp(now, cache) == Some(r) <==>
            && r == now.(noNewPrivs := r.noNewPrivs, defaultSeccomp := r.defaultSeccomp,
                         whitelistSeccomp := r.whitelistSeccomp)
            && BoolIn(cache, "no_new_privs", r.noNewPrivs) && BoolIn(cache, "enable_seccomp", r.defaultSeccomp)
            && BoolIn(cache, "enable_seccomp_whitelist", r.whitelistSeccomp)
  {
    hide GetBool, BoolIn;
    BoolGot(cache, "no_new_privs", r.noNewPrivs);
    BoolGot(cache, "enable_seccomp", r.defaultSeccomp);
    BoolGot(cache, "enable_seccomp_whitelist", r.whitelistSeccomp);
  }

  lemma DeniedExactly(now: Info, cache: seq<Node>, r: Info)
    requires Sound(cache)
    ensures ReadDenied(now, cache) == Some(r) <==>
            && r == now.(skipSetgroups := r.skipSetgroups, denied := r.denied)
            && BoolIn(cache, "skip_setgroups", r.skipSetgroups) && ListIn(cache, "deny_syscall", r.denied, 2048)
  {
    hide GetBool, BoolIn, ArrayOf, ListIn, Sound;
    BoolGot(cache, "skip_setgroups", r.skipSetgroups);
    ListGot(cache, "deny_syscall", r.denied, 2048);
  }

  lemma PidsExactly(now: Info, cache: seq<Node>, r: Info)
    requires Sound(cache)
    ensures ReadPids(now, cache) == Some(r) <==>
            && r == now.(nsPid := r.nsPid, containerId := r.containerId)
            && IntIn(cache, "ns_pid", r.nsPid) && IntIn(cache, "container_id", r.containerId)
  {
    hide GetInt, IntIn, Sound;
    IntGot(cache, "ns_pid", r.nsPid);
    IntGot(cache, "container_id", r.containerId);
  }

  lemma KeptExactly(cache: seq<Node>, key: string, now: Option<string>, val: Option<string>)
    requires Sound(cache)
    ensures KeptOrIn(cache, key, now, val) <==>
            var c := GetChar(cache, key); !(now.None? && c.warned) && val == if now.None? then c.value else now
  {
    hide GetChar, CharIn, Sound;
    CharGot(cache, key, val);
    var c := GetChar(cache, key);
    assert c == Got(c.value, c.warned);
  }

  lemma WorkDirExactly(now: Info, cache: seq<Node>, r: Info)
    requires Sound(cache)
    ensures ReadWorkDir(now, cache) == Some(r) <==>
            && r == now.(workDir := r.workDir, noWarnings := r.noWarnings)
            && KeptOrIn(cache, "work_dir", now.workDir, r.workDir) && BoolIn(cache, "no_warnings", r.noWarnings)
  {
    hide GetChar, GetBool, KeptOrIn, BoolIn, Sound;
    KeptExactly(cache, "work_dir", now.workDir, r.workDir);
    BoolGot(cache, "no_warnings", r.noWarnings);
    var b := GetBool(cache, "no_warnings");
    assert b == Got(b.value, b.warned);
  }

  lemma UserExactly(now: Info, cache: seq<Node>, r: Info)
    requires Sound(cache)
    ensures ReadUser(now, cache) == Some(r) <==>
            && r == now.(user := r.user, noNetwork := r.noNetwork)
            && KeptOrIn(cache, "user", now.user, r.user) && BoolIn(cache, "no_network", r.noNetwork)
  {
    hide GetChar, GetBool, KeptOrIn, BoolIn, Sound;
    KeptExactly(cache, "user", now.user, r.user);
    BoolGot(cache, "no_network", r.noNetwork);
    var b := GetBool(cache, "no_network");
    assert b == Got(b.value, b.warned);
  }

  lemma EnvExactly(now: Info, cache: seq<Node>, r: Info)
    requires Sound(cache)
    ensures ReadEnv(now, cache) == Some(r) <==>
            && r == now.(oomScoreAdj := r.oomScoreAdj, env := r.env, systemdMode := r.systemdMode)
            && IntIn(cache, "oom_score_adj", r.oomScoreAdj) && ListIn(cache, "env", r.env, 1024)
            && BoolIn(cache, "systemd_mode", r.systemdMode)
  {
    hide GetInt, GetBool, ArrayOf, IntIn, ListIn, BoolIn, Sound;
    IntGot(cache, "oom_score_adj", r.oomScoreAdj);
    ListGot(cache, "env", r.env, 1024);
    BoolGot(cache, "systemd_mode", r.systemdMode);
  }

  /** The seven steps one after the other. */
  ghost predicate Chain(now: Info, cache: seq<Node>, naming: Naming, steps: seq<Info>, last: Info) {
    && |steps| == 7 && steps[6] == last
    && ReadDropCaps(now, cache, naming) == Some(steps[0]) && ReadSeccomp(steps[0], cache) == Some(steps[1])
    && ReadDenied(steps[1], cache) == Some(steps[2]) && ReadPids(steps[2], cache) == Some(steps[3])
    && ReadWorkDir(steps[3], cache) == Some(steps[4]) && ReadUser(steps[4], cache) == Some(steps[5])
    && ReadEnv(steps[5], cache) == Some(steps[6])
  }

  lemma ChainIs(now: Info, cache: seq<Node>, naming: Naming, i: Info)
    ensures MainRead(now, cache, naming) == Some(i) <==> exists steps :: Chain(now, cache, naming, steps, i)
  {
    hide ReadDropCaps, ReadSeccomp, ReadDenied, ReadPids, ReadWorkDir, ReadUser, ReadEnv;
    if MainRead(now, cache, naming) == Some(i) {
      var a := ReadDropCaps(now, cache, naming).value;
      var b := ReadSeccomp(a, cache).value;
      var c := ReadDenied(b, cache).value;
      var d := ReadPids(c, cache).value;
      var e := ReadWorkDir(d, cache).value;
      var f := ReadUser(e, cache).value;
      var steps := [a, b, c, d, e, f, i];
      assert Chain(now, cache, naming, steps, i);
    }
  }

  /** What the steps of a chain have read. */
  lemma ChainSays(now: Info, cache: seq<Node>, naming: Naming, s: seq<Info>, last: Info)
    requires Sound(cache) && Chain(now, cache, naming, s, last)
    ensures MainSays(cache, naming, now, last)
  {
    hide BoolIn, IntIn, ListIn, KeptOrIn, Sound, ReadDropCaps, ReadSeccomp, ReadDenied, ReadPids, ReadWorkDir, ReadUser,
         ReadEnv, ReadCaps;
    DropCapsExactly(now, cache, naming, s[0]);
    SeccompExactly(s[0], cache, s[1]);
    DeniedExactly(s[1], cache, s[2]);
    PidsExactly(s[2], cache, s[3]);
    WorkDirExactly(s[3], cache, s[4]);
    UserExactly(s[4], cache, s[5]);
    EnvExactly(s[5], cache, s[6]);
  }

  lemma SaysChain(now: Info, cache: seq<Node>, naming: Naming, i: Info) returns (s: seq<Info>)
    requires Sound(cache) && MainSays(cache, naming, now, i)
    ensures Chain(now, cache, naming, s, i)
  {
    hide BoolIn, IntIn, ListIn, KeptOrIn, Sound, ReadDropCaps, ReadSeccomp, ReadDenied, ReadPids, ReadWorkDir, ReadUser,
         ReadEnv, ReadCaps;
    var a := now.(dropCaps := i.dropCaps);
    var b := a.(noNewPrivs := i.noNewPrivs, defaultSeccomp := i.defaultSeccomp, whitelistSeccomp := i.whitelistSeccomp);
    var c := b.(skipSetgroups := i.skipSetgroups, denied := i.denied);
    var d := c.(nsPid := i.nsPid, containerId := i.containerId);
    var e := d.(workDir := i.workDir, noWarnings := i.noWarnings);
    var f := e.(user := i.user, noNetwork := i.noNetwork);
    DropCapsExactly(now, cache, naming, a);
    SeccompExactly(a, cache, b);
    DeniedExactly(b, cache, c);
    PidsExactly(c, cache, d);
    WorkDirExactly(d, cache, e);
    UserExactly(e, cache, f);
    EnvExactly(f, cache, i);
    s := [a, b, c, d, e, f, i];
  }

  /** The main branch ends with these values exactly if the file says them; if it says none, the process exits. */
  lemma MainExactly(now: Info, cache: seq<Node>, naming: Naming, i: Info)
    requires Sound(cache)
    ensures MainRead(now, cache, naming) == Some(i) <==> MainSays(cache, naming, now, i)
  {
    hide Chain, MainSays, MainRead, Sound;
    ChainIs(now, cache, naming, i);
    if MainRead(now, cache, naming) == Some(i) {
      var s :| Chain(now, cache, naming, s, i);
      ChainSays(now, cache, naming, s, i);
    }
    if MainSays(cache, naming, now, i) {
      var s := SaysChain(now, cache, naming, i);
    }
  }

  // ----- the other branches -----

  /** A rootless container: the pid, and the two strings it does not have yet. */
  ghost predicate RootlessSays(cache: seq<Node>, now: Info, i: Info) {
    && i == now.(nsPid := i.nsPid, workDir := i.workDir, user := i.user)
    && IntIn(cache, "ns_pid", i.nsPid)
    && KeptOrIn(cache, "work_dir", now.workDir, i.workDir) && KeptOrIn(cache, "user", now.user, i.user)
  }

  lemma RootlessExactly(now: Info, cache: seq<Node>, i: Info)
    requires Sound(cache)
    ensures RootlessRead(now, cache) == Some(i) <==> RootlessSays(cache, now, i)
  {
    hide GetInt, GetChar, IntIn, KeptOrIn, Sound;
    IntGot(cache, "ns_pid", i.nsPid);
    KeptExactly(cache, "work_dir", now.workDir, i.workDir);
    KeptExactly(cache, "user", now.user, i.user);
  }

  /** The umount path: the ids only of a live container, and `container_id` not even looked for otherwise. */
  ghost predicate UmountSays(cache: seq<Node>, alive: set<int>, u: UmountInfo) {
    && ListIn(cache, "extra_mountpoint", u.mounts, 1024) && ListIn(cache, "extra_ro_mountpoint", u.roMounts, 1024)
    && BoolIn(cache, "rootless", u.rootless)
    && exists pid :: IntIn(cache, "ns_pid", pid)
                     && if pid in alive then u.nsPid == pid && IntIn(cache, "container_id", u.containerId)
                        else u.nsPid == -114 && u.containerId == -114
  }

  lemma UmountExactly(cache: seq<Node>, alive: set<int>, u: UmountInfo)
    requires Sound(cache)
    ensures UmountRead(cache, alive) == Some(u) <==> UmountSays(cache, alive, u)
  {
    hide GetInt, GetBool, ArrayOf, IntIn, ListIn, BoolIn, Sound;
    ListGot(cache, "extra_mountpoint", u.mounts, 1024);
    ListGot(cache, "extra_ro_mountpoint", u.roMounts, 1024);
    BoolGot(cache, "rootless", u.rootless);
    var pid, id, flag := GetInt(cache, "ns_pid"), GetInt(cache, "container_id"), GetBool(cache, "rootless");
    var ms, rs := ArrayOf(cache, "extra_mountpoint", 1024), ArrayOf(cache, "extra_ro_mountpoint", 1024);
    assert pid == Got(pid.value, pid.warned) && id == Got(id.value, id.warned) && flag == Got(flag.value, flag.warned);
    assert ms == Got(ms.value, ms.warned) && rs == Got(rs.value, rs.warned);
    IntGot(cache, "container_id", u.containerId);
    forall n ensures pid == Got(n, false) <==> IntIn(cache, "ns_pid", n) {
      IntGot(cache, "ns_pid", n);
    }
    assert !pid.warned ==> IntIn(cache, "ns_pid", pid.value);
    assert pid.warned ==> forall n :: !IntIn(cache, "ns_pid", n);
  }

  /** The file says that the container of this pid is not running. */
  ghost predicate DeadIn(cache: seq<Node>, alive: set<int>) {
    exists pid :: IntIn(cache, "ns_pid", pid) && pid !in alive
  }

  ghost predicate LiveIn(cache: seq<Node>, alive: set<int>) {
    exists pid :: IntIn(cache, "ns_pid", pid) && pid in alive
  }

  /**
   ruri_read_info on any file.  Without a file, or for a dead container, nothing changes.  A file
   of more than 64 KiB, one that the parser would warn about, or one without the values that are
   asked for ends the process.
   */
  lemma ReadExactly(now: Info, unshare: bool, file: Option<string>, naming: Naming, alive: set<int>, r: Info)
    ensures ReadInfo(now, unshare, file, naming, alive) == Some(r) <==>
            if file.None? || file.value == "" then r == now
            else
              var cache := ParsedCache(file.value);
              && |file.value| <= 65536 && !ParseWarns(file.value)
              && if !unshare && !now.rootless then MainSays(cache, naming, now, r)
                 else
                   || (DeadIn(cache, alive) && r == now)
                   || (LiveIn(cache, alive)
                       && if now.rootless then RootlessSays(cache, now, r) else MainSays(cache, naming, now, r))
  {
    hide ParsedCache, ParseWarns, MainRead, RootlessRead, MainSays, RootlessSays, GetInt, IntIn, Sound;
    if file.Some? && file.value != "" {
      var cache := ParsedCache(file.value);
      ParsedIsSound(file.value);
      MainExactly(now, cache, naming, r);
      RootlessExactly(now, cache, r);
      var pid := GetInt(cache, "ns_pid");
      assert pid == Got(pid.value, pid.warned);
      forall n ensures pid == Got(n, false) <==> IntIn(cache, "ns_pid", n) {
        IntGot(cache, "ns_pid", n);
      }
      assert !pid.warned ==> IntIn(cache, "ns_pid", pid.value);
    }
  }

  // ----- capabilities -----

  /** A capability is the positive number that the text begins with, or else a name. */
  lemma CapExactly(text: string, naming: Naming)
    ensures forall e: nat, v: int | IsNumber(text, e, v) && 0 < v <= 0x7fff_ffff :: ReadCap(text, naming) == Some(v)
    ensures forall e: nat, v: int | IsNumber(text, e, v) && -0x8000_0000 <= v <= 0 ::
              ReadCap(text, naming) == FromName(text, naming)
    ensures (forall e: nat, v: int :: !IsNumber(text, e, v)) ==> ReadCap(text, naming) == FromName(text, naming)
  {
    hide ToLong, IsNumber, FromName;
    NoNumber(text);
    forall e: nat, v: int | IsNumber(text, e, v) && -0x8000_0000 <= v <= 0x7fff_ffff ensures Atoi(text) == v {
      LongExactly(text, e, v);
    }
  }

  /** Lowering touches the 26 letters and nothing else. */
  lemma {:induction false} LowerExactly(s: string)
    ensures forall i | 0 <= i < |s| ::
              Lower(s)[i] as int == s[i] as int + if 65 <= s[i] as int <= 90 then 32 else 0
  {
    if s != "" {
      LowerExactly(s[..|s| - 1]);
    }
  }
}
