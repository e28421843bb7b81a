/**
 The round trip of the runtime state: what comes back from .rurienv, and when nothing does.
 */
module RuntimeRoundTrip {
  import opened Text
  import opened Escape
  import opened K2v3
  import opened K2v3Parse
  import opened K2v3Get
  import opened K2v3Emit
  import opened RoundTrip
  import opened RuntimeInfo
  import opened RuntimeRead

  /** The section's value is what the cache has under its key. */
  ghost predicate Back(cache: seq<Node>, s: Section) {
    Lookup(cache, s.key) == Some(NodeFor(s.key, s.written)) && InRange(s.written)
  }

  lemma AllBack(i: Info, naming: Naming)
    requires Storable(i) && Faithful(naming)
    ensures !ParseWarns(FileText(i, naming)) && FileText(i, naming) != ""
    ensures forall s | s in Sections(i, naming) :: Back(ParsedCache(FileText(i, naming)), s)
  {
    hide Storable, Faithful, Sections, CanonicalSection, DistinctKeys, ParseWarns, ParsedCache, PrintAll, AllItems,
         Lookup, NodeFor;
    var ss := Sections(i, naming);
    SectionsAreFine(i, naming);
    forall s | s in ss ensures Back(ParsedCache(FileText(i, naming)), s) {
      SectionBack(ss, s);
      CanonicalInRange(s);
    }
    SectionsExist(i, naming);
    SectionBack(ss, ss[0]);
    if FileText(i, naming) == "" {
      NothingInNothing(ss[0].key);
    }
  }

  lemma CanonicalInRange(s: Section)
    requires CanonicalSection(s)
    ensures InRange(s.written)
  {
  }

  lemma SectionsExist(i: Info, naming: Naming)
    ensures Sections(i, naming) != []
  {
    hide CapTexts;
  }

  lemma NothingInNothing(key: string)
    ensures Lookup(ParsedCache(""), key) == None
  {
  }

  // ----- the getters on what was written -----

  lemma BoolBack(cache: seq<Node>, s: Section, b: bool)
    requires Back(cache, s) && s.written == OfBool(b)
    ensures GetBool(cache, s.key) == Got(b, false)
  {
    GetBack(cache, s.key, s.written, 0);
  }

  lemma IntBack(cache: seq<Node>, s: Section, n: int)
    requires Back(cache, s) && s.written == OfInt(n)
    ensures GetInt(cache, s.key) == Got(n, false)
  {
    hide GetInt;
    GetBack(cache, s.key, s.written, 0);
  }

  /** An empty string is written like no string and comes back as none. */
  function NonEmpty(val: Option<string>): Option<string> {
    if val == Some("") then None else val
  }

  lemma CharBack(cache: seq<Node>, s: Section, val: Option<string>)
    requires Back(cache, s) && s.written == OfChar(val)
    ensures GetChar(cache, s.key) == Got(NonEmpty(val), false)
  {
    GetBack(cache, s.key, s.written, 0);
  }

  lemma ListBack(cache: seq<Node>, s: Section, vals: seq<string>, limit: nat)
    requires Back(cache, s) && s.written == OfChars(vals)
    ensures ArrayOf(cache, s.key, limit) == if |vals| <= limit then Got(vals, false) else Got([], true)
  {
  }

  // ----- the three steps of the main branch -----

  ghost predicate SecurityThere(cache: seq<Node>, i: Info, naming: Naming) {
    && Back(cache, DropCaplist(CapTexts(i.dropCaps, naming))) && Back(cache, NoNewPrivs(i.noNewPrivs))
    && Back(cache, EnableSeccomp(i.defaultSeccomp)) && Back(cache, SeccompWhitelist(i.whitelistSeccomp))
    && Back(cache, SkipSetgroups(i.skipSetgroups)) && Back(cache, DenySyscall(i.denied))
  }

  ghost predicate IdentityThere(cache: seq<Node>, i: Info) {
    && Back(cache, NsPid(i.nsPid)) && Back(cache, ContainerId(i.containerId))
    && Back(cache, WorkDir(i.workDir)) && Back(cache, NoWarnings(i.noWarnings))
  }

  ghost predicate RestThere(cache: seq<Node>, i: Info) {
    && Back(cache, UserName(i.user)) && Back(cache, NoNetwork(i.noNetwork)) && Back(cache, OomScoreAdj(i.oomScoreAdj))
    && Back(cache, Env(i.env)) && Back(cache, SystemdMode(i.systemdMode))
  }

  ghost predicate MountsThere(cache: seq<Node>, i: Info) {
    && Back(cache, ExtraMountpoint(i.mounts)) && Back(cache, ExtraRoMountpoint(i.roMounts))
    && Back(cache, Rootless(i.rootless))
  }

  lemma SecurityIsThere(cache: seq<Node>, i: Info, naming: Naming)
    requires forall s | s in Sections(i, naming) :: Back(cache, s)
    ensures SecurityThere(cache, i, naming)
  {
    hide Back, CapTexts, DropCaplist, NoNewPrivs, EnableSeccomp, SeccompWhitelist, DenySyscall, NsPid, ContainerId,
         WorkDir, NoWarnings, NoNetwork, Rootless, UserName, OomScoreAdj, ExtraMountpoint, ExtraRoMountpoint, Env,
         SkipSetgroups, SystemdMode;
  }

  lemma IdentityIsThere(cache: seq<Node>, i: Info, naming: Naming)
    requires forall s | s in Sections(i, naming) :: Back(cache, s)
    ensures IdentityThere(cache, i)
  {
    hide Back, CapTexts, DropCaplist, NoNewPrivs, EnableSeccomp, SeccompWhitelist, DenySyscall, NsPid, ContainerId,
         WorkDir, NoWarnings, NoNetwork, Rootless, UserName, OomScoreAdj, ExtraMountpoint, ExtraRoMountpoint, Env,
         SkipSetgroups, SystemdMode;
  }

  lemma RestIsThere(cache: seq<Node>, i: Info, naming: Naming)
    requires forall s | s in Sections(i, naming) :: Back(cache, s)
    ensures RestThere(cache, i)
  {
    hide Back, CapTexts, DropCaplist, NoNewPrivs, EnableSeccomp, SeccompWhitelist, DenySyscall, NsPid, ContainerId,
         WorkDir, NoWarnings, NoNetwork, Rootless, UserName, OomScoreAdj, ExtraMountpoint, ExtraRoMountpoint, Env,
         SkipSetgroups, SystemdMode;
  }

  lemma MountsAreThere(cache: seq<Node>, i: Info, naming: Naming)
    requires forall s | s in Sections(i, naming) :: Back(cache, s)
    ensures MountsThere(cache, i)
  {
    hide Back, CapTexts, DropCaplist, NoNewPrivs, EnableSeccomp, SeccompWhitelist, DenySyscall, NsPid, ContainerId,
         WorkDir, NoWarnings, NoNetwork, Rootless, UserName, OomScoreAdj, ExtraMountpoint, ExtraRoMountpoint, Env,
         SkipSetgroups, SystemdMode;
  }

  lemma EverythingThere(i: Info, naming: Naming)
    requires Storable(i) && Faithful(naming)
    ensures var cache := ParsedCache(FileText(i, naming));
            SecurityThere(cache, i, naming) && IdentityThere(cache, i) && RestThere(cache, i) && MountsThere(cache, i)
  {
    hide Storable, Faithful, ParsedCache, FileText, Back, Sections, SecurityThere, IdentityThere, RestThere,
         MountsThere;
    AllBack(i, naming);
    var cache := ParsedCache(FileText(i, naming));
    SecurityIsThere(cache, i, naming);
    IdentityIsThere(cache, i, naming);
    RestIsThere(cache, i, naming);
    MountsAreThere(cache, i, naming);
  }

  lemma DropCapsBack(now: Info, i: Info, naming: Naming, cache: seq<Node>)
    requires Storable(i) && Faithful(naming) && Back(cache, DropCaplist(CapTexts(i.dropCaps, naming)))
    ensures ReadDropCaps(now, cache, naming) ==
            if |i.dropCaps| > LAST_CAP then None else Some(now.(dropCaps := i.dropCaps))
  {
    hide Storable, Faithful, ArrayOf, ReadCaps, CapTexts, Back, CanonicalSection, CanonicalElement;
    StorableCaps(i, naming);
    ListBack(cache, DropCaplist(CapTexts(i.dropCaps, naming)), CapTexts(i.dropCaps, naming), LAST_CAP);
  }

  lemma SeccompBack(now: Info, i: Info, cache: seq<Node>)
    requires Back(cache, NoNewPrivs(i.noNewPrivs)) && Back(cache, EnableSeccomp(i.defaultSeccomp))
    requires Back(cache, SeccompWhitelist(i.whitelistSeccomp))
    ensures ReadSeccomp(now, cache) ==
            Some(now.(noNewPrivs := i.noNewPrivs, defaultSeccomp := i.defaultSeccomp,
                      whitelistSeccomp := i.whitelistSeccomp))
  {
    hide GetBool, Back, CanonicalSection;
    BoolBack(cache, NoNewPrivs(i.noNewPrivs), i.noNewPrivs);
    BoolBack(cache, EnableSeccomp(i.defaultSeccomp), i.defaultSeccomp);
    BoolBack(cache, SeccompWhitelist(i.whitelistSeccomp), i.whitelistSeccomp);
  }

  lemma DeniedBack(now: Info, i: Info, cache: seq<Node>)
    requires Back(cache, SkipSetgroups(i.skipSetgroups)) && Back(cache, DenySyscall(i.denied))
    ensures ReadDenied(now, cache) ==
            if |i.denied| > MAX_DENIED then None
            else Some(now.(skipSetgroups := i.skipSetgroups, denied := i.denied))
  {
    hide GetBool, ArrayOf, Back, CanonicalSection, CanonicalElement;
    BoolBack(cache, SkipSetgroups(i.skipSetgroups), i.skipSetgroups);
    ListBack(cache, DenySyscall(i.denied), i.denied, MAX_DENIED);
  }

  lemma IdentityBack(now: Info, i: Info, cache: seq<Node>)
    requires IdentityThere(cache, i)
    ensures ReadIdentity(now, cache) ==
            Some(now.(nsPid := i.nsPid, containerId := i.containerId,
                      workDir := if now.workDir.None? then NonEmpty(i.workDir) else now.workDir,
                      noWarnings := i.noWarnings))
  {
    hide GetBool, GetInt, GetChar, ArrayOf, Back, NonEmpty, CanonicalSection, CanonicalElement, CanonicalScalar;
    IntBack(cache, NsPid(i.nsPid), i.nsPid);
    IntBack(cache, ContainerId(i.containerId), i.containerId);
    CharBack(cache, WorkDir(i.workDir), i.workDir);
    BoolBack(cache, NoWarnings(i.noWarnings), i.noWarnings);
  }

  lemma RestBack(now: Info, i: Info, cache: seq<Node>)
    requires RestThere(cache, i)
    ensures ReadRest(now, cache) ==
            if |i.env| > MAX_ENVS then None
            else Some(now.(user := if now.user.None? then NonEmpty(i.user) else now.user, noNetwork := i.noNetwork,
                           oomScoreAdj := i.oomScoreAdj, env := i.env, systemdMode := i.systemdMode))
  {
    hide GetBool, GetInt, GetChar, ArrayOf, Back, NonEmpty, CanonicalSection, CanonicalElement, CanonicalScalar;
    CharBack(cache, UserName(i.user), i.user);
    BoolBack(cache, NoNetwork(i.noNetwork), i.noNetwork);
    IntBack(cache, OomScoreAdj(i.oomScoreAdj), i.oomScoreAdj);
    ListBack(cache, Env(i.env), i.env, MAX_ENVS);
    BoolBack(cache, SystemdMode(i.systemdMode), i.systemdMode);
  }

  // ----- the round trip -----

  /** The state after reading what was stored for `i` into the container `now`. */
  function Restored(now: Info, i: Info): Info {
    i.(workDir := if now.workDir.None? then NonEmpty(i.workDir) else now.workDir,
       user := if now.user.None? then NonEmpty(i.user) else now.user,
       rootless := now.rootless, mounts := now.mounts, roMounts := now.roMounts)
  }

  /** The file and its lists are within the reader's limits. */
  predicate Readable(i: Info, naming: Naming) {
    |FileText(i, naming)| <= FILE_LIMIT && |i.dropCaps| <= LAST_CAP && |i.denied| <= MAX_DENIED && |i.env| <= MAX_ENVS
  }

  lemma OthersBack(now: Info, i: Info, naming: Naming)
    requires Storable(i) && Faithful(naming)
    ensures ReadOthers(now, ParsedCache(FileText(i, naming))) ==
            if |i.denied| > MAX_DENIED || |i.env| > MAX_ENVS then None
            else Some(Restored(now, i).(dropCaps := now.dropCaps))
  {
    hide Storable, Faithful, ParsedCache, FileText, IdentityThere, RestThere, MountsThere, Back, CapTexts, NonEmpty,
         ReadSeccomp, ReadDenied, ReadIdentity, ReadRest, DropCaplist, NoNewPrivs, EnableSeccomp, SeccompWhitelist,
         SkipSetgroups, DenySyscall;
    EverythingThere(i, naming);
    var cache := ParsedCache(FileText(i, naming));
    SeccompBack(now, i, cache);
    var a := ReadSeccomp(now, cache).value;
    DeniedBack(a, i, cache);
    var b := ReadDenied(a, cache);
    if b.Some? {
      IdentityBack(b.value, i, cache);
      RestBack(ReadIdentity(b.value, cache).value, i, cache);
    }
  }

  lemma MainBack(now: Info, i: Info, naming: Naming)
    requires Storable(i) && Faithful(naming)
    ensures MainRead(now, ParsedCache(FileText(i, naming)), naming) ==
            if |i.dropCaps| > LAST_CAP || |i.denied| > MAX_DENIED || |i.env| > MAX_ENVS then None
            else Some(Restored(now, i))
  {
    hide Storable, Faithful, ParsedCache, FileText, IdentityThere, RestThere, MountsThere, Back, CapTexts, NonEmpty,
         ReadDropCaps, ReadOthers, DropCaplist, NoNewPrivs, EnableSeccomp, SeccompWhitelist, SkipSetgroups, DenySyscall;
    EverythingThere(i, naming);
    var cache := ParsedCache(FileText(i, naming));
    DropCapsBack(now, i, naming, cache);
    var a := ReadDropCaps(now, cache, naming);
    if a.Some? {
      OthersBack(a.value, i, naming);
    }
  }

  lemma PidBack(i: Info, naming: Naming)
    requires Storable(i) && Faithful(naming)
    ensures GetInt(ParsedCache(FileText(i, naming)), "ns_pid") == Got(i.nsPid, false)
  {
    hide Storable, Faithful, ParsedCache, FileText, SecurityThere, RestThere, MountsThere, GetInt, Back,
         CanonicalSection;
    EverythingThere(i, naming);
    IntBack(ParsedCache(FileText(i, naming)), NsPid(i.nsPid), i.nsPid);
  }

  /**
   Reading into a container that is not rootless what was stored for another state restores
   every stored field but the mountpoints, the rootless flag, and a work directory and user
   that are already set; it does so exactly when the file and its lists can be read at all,
   and otherwise the process exits.
   */
  lemma StoreThenRead(now: Info, i: Info, unshare: bool, naming: Naming, alive: set<int>)
    requires Storable(i) && Faithful(naming) && !now.rootless && (unshare ==> i.nsPid in alive)
    ensures ReadInfo(now, unshare, Some(FileText(i, naming)), naming, alive) ==
            if Readable(i, naming) then Some(Restored(now, i)) else None
  {
    hide Storable, Faithful, ParsedCache, FileText, ParseWarns, MainRead, GetInt, NonEmpty;
    AllBack(i, naming);
    PidBack(i, naming);
    MainBack(now, i, naming);
  }

  /** A container whose process is gone is left as it is. */
  lemma StoreThenReadDead(now: Info, i: Info, unshare: bool, naming: Naming, alive: set<int>)
    requires Storable(i) && Faithful(naming) && (unshare || now.rootless) && i.nsPid !in alive
    ensures ReadInfo(now, unshare, Some(FileText(i, naming)), naming, alive) ==
            if |FileText(i, naming)| <= FILE_LIMIT then Some(now) else None
  {
    hide Storable, Faithful, ParsedCache, FileText, ParseWarns, MainRead, RootlessRead, GetInt;
    AllBack(i, naming);
    PidBack(i, naming);
  }

  /** A rootless container takes the pid, and the work directory and user that it does not have. */
  lemma StoreThenReadRootless(now: Info, i: Info, unshare: bool, naming: Naming, alive: set<int>)
    requires Storable(i) && Faithful(naming) && now.rootless && i.nsPid in alive
    ensures ReadInfo(now, unshare, Some(FileText(i, naming)), naming, alive) ==
            if |FileText(i, naming)| > FILE_LIMIT then None
            else Some(now.(nsPid := i.nsPid, workDir := Restored(now, i).workDir, user := Restored(now, i).user))
  {
    hide Storable, Faithful, ParsedCache, FileText, ParseWarns, MainRead, GetInt, GetChar, NonEmpty;
    AllBack(i, naming);
    PidBack(i, naming);
    StringsBack(i, naming);
  }

  lemma StringsBack(i: Info, naming: Naming)
    requires Storable(i) && Faithful(naming)
    ensures var cache := ParsedCache(FileText(i, naming));
            GetChar(cache, "work_dir") == Got(NonEmpty(i.workDir), false)
                    && GetChar(cache, "user") == Got(NonEmpty(i.user), false)
  {
    hide Storable, Faithful, ParsedCache, FileText, SecurityThere, MountsThere, GetChar, Back, NonEmpty,
         CanonicalSection;
    EverythingThere(i, naming);
    CharBack(ParsedCache(FileText(i, naming)), WorkDir(i.workDir), i.workDir);
    CharBack(ParsedCache(FileText(i, naming)), UserName(i.user), i.user);
  }

  /** Storing the restored state and reading it again changes nothing. */
  lemma SecondTimeChangesNothing(now: Info, i: Info, unshare: bool, naming: Naming, alive: set<int>)
    requires Storable(i) && Storable(now) && Faithful(naming) && !now.rootless && (unshare ==> i.nsPid in alive)
    ensures var r := Restored(now, i);
            ReadInfo(r, unshare, Some(FileText(r, naming)), naming, alive) ==
              if Readable(r, naming) then Some(r) else None
  {
    hide Faithful, FileText, ReadInfo;
    var r := Restored(now, i);
    StoreThenRead(r, r, unshare, naming, alive);
  }

  /** What ruri_umount_container gets: the mountpoints and the rootless flag always, the pids of a live container. */
  lemma StoreThenUmount(i: Info, naming: Naming, alive: set<int>)
    requires Storable(i) && Faithful(naming)
    ensures UmountRead(ParsedCache(FileText(i, naming)), alive) ==
            if |i.mounts| > MAX_MOUNTPOINTS || |i.roMounts| > MAX_MOUNTPOINTS then None
            else if i.nsPid in alive then Some(UmountInfo(i.mounts, i.roMounts, i.nsPid, i.containerId, i.rootless))
            else Some(UmountInfo(i.mounts, i.roMounts, INIT_VALUE, INIT_VALUE, i.rootless))
  {
    hide Storable, Faithful, ParsedCache, FileText, SecurityThere, RestThere, GetInt, GetBool, ArrayOf, Back,
         CanonicalSection, CanonicalElement;
    EverythingThere(i, naming);
    var cache := ParsedCache(FileText(i, naming));
    ListBack(cache, ExtraMountpoint(i.mounts), i.mounts, MAX_MOUNTPOINTS);
    ListBack(cache, ExtraRoMountpoint(i.roMounts), i.roMounts, MAX_MOUNTPOINTS);
    IntBack(cache, NsPid(i.nsPid), i.nsPid);
    IntBack(cache, ContainerId(i.containerId), i.containerId);
    BoolBack(cache, Rootless(i.rootless), i.rootless);
  }

  // ----- states that fit their arrays and still cannot be read back -----

  function Total(vals: seq<string>): nat {
    if vals == [] then 0 else |vals[0]| + Total(vals[1..])
  }

  lemma {:induction false} JoinIsLonger(vals: seq<string>)
    ensures |Join(vals)| >= Total(vals)
  {
    if |vals| == 1 {
      assert vals[1..] == [];
    } else if vals != [] {
      JoinIsLonger(vals[1..]);
    }
  }

  lemma {:induction false} PrintedIsLonger(items: seq<Item>, item: Item)
    requires item in items
    ensures |PrintAll(items)| >= |Print(item)|
  {
    hide Print;
    if item != items[0] {
      PrintedIsLonger(items[1..], item);
    }
  }

  /**
   Nothing bounds the length of the environment on the way out: with more than 64 KiB of it
   the stored file is refused on the way back in, whatever it is read into.
   */
  lemma TooMuchEnvironment(i: Info, naming: Naming, now: Info, unshare: bool, alive: set<int>)
    requires Storable(i) && Faithful(naming) && Total(i.env) > FILE_LIMIT
    ensures !Readable(i, naming)
    ensures ReadInfo(now, unshare, Some(FileText(i, naming)), naming, alive) == None
  {
    hide Storable, Faithful, AllItems, PrintAll, CanonicalSection, CanonicalElement, Total, Join, NodesOf, NodeFor,
         CanonicalItem, MainRead, RootlessRead, ParseWarns, ParsedCache;
    var ss, s := Sections(i, naming), Env(i.env);
    EnvIsStored(i, naming);
    SectionsAreFine(i, naming);
    AllNodes(ss);
    PrintedIsLonger(AllItems(ss), Config(s.key, s.written));
    JoinIsLonger(i.env);
  }

  function Copies(e: string, n: nat): (r: seq<string>)
    ensures |r| == n && forall t | t in r :: t == e
  {
    if n == 0 then [] else [e] + Copies(e, n - 1)
  }

  lemma {:induction false} TotalOfCopies(e: string, n: nat)
    ensures Total(Copies(e, n)) == n * |e|
  {
    if n > 0 {
      TotalOfCopies(e, n - 1);
      assert Copies(e, n)[1..] == Copies(e, n - 1);
    }
  }

  lemma PlainElement(e: string)
    requires e != "" && forall c | c in e :: c !in {'\\', '"', ']'}
    ensures CanonicalElement(e)
  {
    PlainIsStable(e);
    assert forall k | 0 <= k < |e| :: e[k] in e;
  }

  const CHOWN := "cap_chown"

  lemma ChownIsName()
    ensures Faithful(Naming(map[0 := CHOWN], map[CHOWN := 0]))
  {
    hide CanonicalElement;
    PlainElement(CHOWN);
    assert CHOWN[..4] == "cap_";
  }

  /** There are such states with no more variables than the reader's limit: 1024 of 65 characters. */
  lemma SomeEnvironmentIsTooMuch() returns (i: Info, naming: Naming)
    ensures Storable(i) && Faithful(naming)
    ensures |i.env| <= MAX_ENVS && i.dropCaps == [] && i.denied == [] && Total(i.env) > FILE_LIMIT
  {
    hide CanonicalElement, CanonicalScalar, Faithful, Total;
    var e := seq(65, _ => 'a');
    PlainElement(e);
    TotalOfCopies(e, MAX_ENVS);
    ChownIsName();
    naming := Naming(map[0 := CHOWN], map[CHOWN := 0]);
    i := Info([], false, false, false, [], 0, 0, None, false, false, false, None, 0, [], [], Copies(e, MAX_ENVS),
              false, false);
  }

  lemma EnvIsStored(i: Info, naming: Naming)
    ensures Env(i.env) in Sections(i, naming)
  {
    hide CapTexts, DropCaplist, NoNewPrivs, EnableSeccomp, SeccompWhitelist, DenySyscall, NsPid, ContainerId, WorkDir,
         NoWarnings, NoNetwork, Rootless, UserName, OomScoreAdj, ExtraMountpoint, ExtraRoMountpoint, Env,
         SkipSetgroups, SystemdMode;
  }
}
