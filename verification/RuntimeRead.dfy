/**
 Storing the runtime state and reading it back (src/rurienv.c): ruri_read_info restores what
 build_container_info wrote, as far as the file and its lists are not too long to be read.
 */
module RuntimeRead {
  import opened Text
  import opened K2v3Parse
  import opened K2v3Get
  import opened K2v3Emit
  import opened K2v3
  import opened RuntimeInfo

  // ----- what ruri_read_info does, in strict mode -----

  /**
   The reads of the main branch, step by step.  None is an exit of the process: a warning of a
   getter, or a text that is no capability.
   */
  function ReadDropCaps(now: Info, cache: seq<Node>, naming: Naming): Option<Info> {
    var caps := ArrayOf(cache, "drop_caplist", LAST_CAP);
    var numbers := ReadCaps(caps.value, naming);
    if caps.warned || numbers.None? then None else Some(now.(dropCaps := numbers.value))
  }

  function ReadSeccomp(now: Info, cache: seq<Node>): Option<Info> {
    var privs, seccomp := GetBool(cache, "no_new_privs"), GetBool(cache, "enable_seccomp");
    var whitelist := GetBool(cache, "enable_seccomp_whitelist");
    if privs.warned || seccomp.warned || whitelist.warned then None
    else Some(now.(noNewPrivs := privs.value, defaultSeccomp := seccomp.value, whitelistSeccomp := whitelist.value))
  }

  function ReadDenied(now: Info, cache: seq<Node>): Option<Info> {
    var groups, syscalls := GetBool(cache, "skip_setgroups"), ArrayOf(cache, "deny_syscall", MAX_DENIED);
    if groups.warned || syscalls.warned then None
    else Some(now.(skipSetgroups := groups.value, denied := syscalls.value))
  }

  function ReadPids(now: Info, cache: seq<Node>): Option<Info> {
    var pid, id := GetInt(cache, "ns_pid"), GetInt(cache, "container_id");
    if pid.warned || id.warned then None else Some(now.(nsPid := pid.value, containerId := id.value))
  }

  /** A work directory of the command line wins over the one in the file. */
  function ReadWorkDir(now: Info, cache: seq<Node>): Option<Info> {
    var dir, warnings := GetChar(cache, "work_dir"), GetBool(cache, "no_warnings");
    if (now.workDir.None? && dir.warned) || warnings.warned then None
    else Some(now.(workDir := if now.workDir.None? then dir.value else now.workDir, noWarnings := warnings.value))
  }

  /** So does a user. */
  function ReadUser(now: Info, cache: seq<Node>): Option<Info> {
    var user, network := GetChar(cache, "user"), GetBool(cache, "no_network");
    if (now.user.None? && user.warned) || network.warned then None
    else Some(now.(user := if now.user.None? then user.value else now.user, noNetwork := network.value))
  }

  function ReadEnv(now: Info, cache: seq<Node>): Option<Info> {
    var oom, env := GetInt(cache, "oom_score_adj"), ArrayOf(cache, "env", MAX_ENVS);
    var systemd := GetBool(cache, "systemd_mode");
    if oom.warned || env.warned || systemd.warned then None
    else Some(now.(oomScoreAdj := oom.value, env := env.value, systemdMode := systemd.value))
  }

  function ReadIdentity(now: Info, cache: seq<Node>): Option<Info> {
    var a := ReadPids(now, cache);
    if a.None? then None else ReadWorkDir(a.value, cache)
  }

  function ReadRest(now: Info, cache: seq<Node>): Option<Info> {
    var a := ReadUser(now, cache);
    if a.None? then None else ReadEnv(a.value, cache)
  }

  /** Everything behind the capabilities. */
  function ReadOthers(now: Info, cache: seq<Node>): Option<Info> {
    var a := ReadSeccomp(now, cache);
    var b := if a.None? then None else ReadDenied(a.value, cache);
    var c := if b.None? then None else ReadIdentity(b.value, cache);
    if c.None? then None else ReadRest(c.value, cache)
  }

  function MainRead(now: Info, cache: seq<Node>, naming: Naming): Option<Info> {
    var a := ReadDropCaps(now, cache, naming);
    if a.None? then None else ReadOthers(a.value, cache)
  }

  /** A rootless container only takes the pid, the work directory and the user. */
  function RootlessRead(now: Info, cache: seq<Node>): Option<Info> {
    var pid, dir, user := GetInt(cache, "ns_pid"), GetChar(cache, "work_dir"), GetChar(cache, "user");
    if pid.warned || (now.workDir.None? && dir.warned) || (now.user.None? && user.warned) then None
    else Some(now.(nsPid := pid.value,
                   workDir := if now.workDir.None? then dir.value else now.workDir,
                   user := if now.user.None? then user.value else now.user))
  }

  /** `file` is None when there is no file; `alive` are the pids of ruri processes. */
  ghost function ReadInfo(now: Info, unshare: bool, file: Option<string>, naming: Naming,
          alive: set<int>): Option<Info> {
    if file.None? || file.value == "" then Some(now)
    else if |file.value| > FILE_LIMIT || ParseWarns(file.value) then None
    else
      var cache := ParsedCache(file.value);
      var pid := GetInt(cache, "ns_pid");
      if (unshare || now.rootless) && pid.warned then None
      else if (unshare || now.rootless) && pid.value !in alive then Some(now)
      else if now.rootless then RootlessRead(now, cache)
      else MainRead(now, cache, naming)
  }

  /** The part that ruri_umount_container and ruri_container_ps get, without a container of their own. */
  datatype UmountInfo = UmountInfo(mounts: seq<string>, roMounts: seq<string>, nsPid: int, containerId: int,
          rootless: bool)

  function UmountRead(cache: seq<Node>, alive: set<int>): Option<UmountInfo> {
    var mounts := ArrayOf(cache, "extra_mountpoint", MAX_MOUNTPOINTS);
    var roMounts := ArrayOf(cache, "extra_ro_mountpoint", MAX_MOUNTPOINTS);
    var pid, id, rootless := GetInt(cache, "ns_pid"), GetInt(cache, "container_id"), GetBool(cache, "rootless");
    var up := pid.value in alive;
    if mounts.warned || roMounts.warned || pid.warned || (up && id.warned) || rootless.warned then None
    else Some(UmountInfo(mounts.value, roMounts.value, if up then pid.value else INIT_VALUE,
                         if up then id.value else INIT_VALUE, rootless.value))
  }

  // ----- the container itself -----

  class Container {
    var dropCaps: seq<int>
    var noNewPrivs: bool
    var defaultSeccomp: bool
    var whitelistSeccomp: bool
    var denied: seq<string>
    var nsPid: int
    var containerId: int
    var workDir: Option<string>
    var noWarnings: bool
    var noNetwork: bool
    var rootless: bool
    var user: Option<string>
    var oomScoreAdj: int
    var mounts: seq<string>
    var roMounts: seq<string>
    var env: seq<string>
    var skipSetgroups: bool
    var systemdMode: bool

    function Stored(): Info
      reads this
    {
      Info(dropCaps, noNewPrivs, defaultSeccomp, whitelistSeccomp, denied, nsPid, containerId, workDir, noWarnings,
           noNetwork, rootless, user, oomScoreAdj, mounts, roMounts, env, skipSetgroups, systemdMode)
    }

    /** build_container_info. */
    method Build(naming: Naming) returns (ret: string)
      ensures ret == FileText(Stored(), naming)
    {
      hide PrintAll, AllItems, DropCaplist, NoNewPrivs, EnableSeccomp, SeccompWhitelist, DenySyscall, NsPid,
           ContainerId, WorkDir, NoWarnings,
           NoNetwork, Rootless, UserName, OomScoreAdj, ExtraMountpoint, ExtraRoMountpoint, Env, SkipSetgroups,
                   SystemdMode;
      var caps: seq<string> := [];
      for i := 0 to |dropCaps|
        invariant caps == CapTexts(dropCaps[..i], naming)
      {
        assert dropCaps[..i + 1][..i] == dropCaps[..i];
        caps := caps + [CapText(dropCaps[i], naming)];
      }
      assert dropCaps[..|dropCaps|] == dropCaps;
      NothingPrinted();
      ghost var ss := [];
      ret, ss := Add("", DropCaplist(caps), ss);
      ret, ss := Add(ret, NoNewPrivs(noNewPrivs), ss);
      ret, ss := Add(ret, EnableSeccomp(defaultSeccomp), ss);
      ret, ss := Add(ret, SeccompWhitelist(whitelistSeccomp), ss);
      ret, ss := Add(ret, DenySyscall(denied), ss);
      ret, ss := Add(ret, NsPid(nsPid), ss);
      ret, ss := Add(ret, ContainerId(containerId), ss);
      ret, ss := Add(ret, WorkDir(workDir), ss);
      ret, ss := Add(ret, NoWarnings(noWarnings), ss);
      ret, ss := Add(ret, NoNetwork(noNetwork), ss);
      ret, ss := Add(ret, Rootless(rootless), ss);
      ret, ss := Add(ret, UserName(user), ss);
      ret, ss := Add(ret, OomScoreAdj(oomScoreAdj), ss);
      ret, ss := Add(ret, ExtraMountpoint(mounts), ss);
      ret, ss := Add(ret, ExtraRoMountpoint(roMounts), ss);
      ret, ss := Add(ret, Env(env), ss);
      ret, ss := Add(ret, SkipSetgroups(skipSetgroups), ss);
      ret, ss := Add(ret, SystemdMode(systemdMode), ss);
    }

    /** ruri_read_info on a container; `ok` is false when the process exits. */
    method Read(unshare: bool, file: Option<string>, naming: Naming, alive: set<int>) returns (ok: bool)
      modifies this
      ensures ok <==> ReadInfo(old(Stored()), unshare, file, naming, alive).Some?
      ensures ok ==> Stored() == ReadInfo(old(Stored()), unshare, file, naming, alive).value
    {
      hide GetBool, GetInt, GetChar, ArrayOf, ReadCaps, ParseWarns, ParsedCache;
      if file.None? || file.value == "" {
        return true;
      }
      if |file.value| > FILE_LIMIT {
        return false;
      }
      var cache, bad := Parse(file.value);
      if bad {
        return false;
      }
      var nodes := cache.nodes;
      if unshare || rootless {
        var pid := GetInt(nodes, "ns_pid");
        if pid.warned {
          return false;
        }
        if pid.value !in alive {
          return true;
        }
      }
      if rootless {
        ok := ReadRootless(nodes);
      } else {
        ok := ReadMain(nodes, naming);
      }
    }

    method ReadRootless(nodes: seq<Node>) returns (ok: bool)
      modifies this
      ensures ok <==> RootlessRead(old(Stored()), nodes).Some?
      ensures ok ==> Stored() == RootlessRead(old(Stored()), nodes).value
    {
      hide GetInt, GetChar;
      var pid := GetInt(nodes, "ns_pid");
      if pid.warned {
        return false;
      }
      nsPid := pid.value;
      if workDir.None? {
        var dir := GetChar(nodes, "work_dir");
        if dir.warned {
          return false;
        }
        workDir := dir.value;
      }
      if user.None? {
        var name := GetChar(nodes, "user");
        if name.warned {
          return false;
        }
        user := name.value;
      }
      ok := true;
    }

    /** The main branch: the capabilities, with their loop, and then one getter after the other. */
    method ReadMain(nodes: seq<Node>, naming: Naming) returns (ok: bool)
      modifies this
      ensures ok <==> MainRead(old(Stored()), nodes, naming).Some?
      ensures ok ==> Stored() == MainRead(old(Stored()), nodes, naming).value
    {
      hide ArrayOf, ReadCaps, ReadCap, ReadOthers;
      var caps := ArrayOf(nodes, "drop_caplist", LAST_CAP);
      if caps.warned {
        return false;
      }
      var numbers := CapNumbers(caps.value, naming);
      if numbers.None? {
        return false;
      }
      dropCaps := numbers.value;
      var others := ReadOthers(Stored(), nodes);
      if others.None? {
        return false;
      }
      Store(others.value);
      ok := true;
    }

    /** The fields that were read; the others are the same in `i`. */
    method Store(i: Info)
      modifies this
      ensures Stored() == i
    {
      StoreFront(i);
      StoreBack(i);
    }

    method StoreFront(i: Info)
      modifies this`dropCaps, this`noNewPrivs, this`defaultSeccomp, this`whitelistSeccomp,
               this`denied, this`nsPid, this`containerId, this`workDir, this`noWarnings
      ensures dropCaps == i.dropCaps && noNewPrivs == i.noNewPrivs && defaultSeccomp == i.defaultSeccomp
      ensures whitelistSeccomp == i.whitelistSeccomp && denied == i.denied && nsPid == i.nsPid
      ensures containerId == i.containerId && workDir == i.workDir && noWarnings == i.noWarnings
    {
      dropCaps, noNewPrivs, defaultSeccomp := i.dropCaps, i.noNewPrivs, i.defaultSeccomp;
      whitelistSeccomp, denied, nsPid := i.whitelistSeccomp, i.denied, i.nsPid;
      containerId, workDir, noWarnings := i.containerId, i.workDir, i.noWarnings;
    }

    method StoreBack(i: Info)
      modifies this`noNetwork, this`rootless, this`user, this`oomScoreAdj,
               this`mounts, this`roMounts, this`env, this`skipSetgroups, this`systemdMode
      ensures noNetwork == i.noNetwork && rootless == i.rootless && user == i.user
      ensures oomScoreAdj == i.oomScoreAdj && mounts == i.mounts && roMounts == i.roMounts
      ensures env == i.env && skipSetgroups == i.skipSetgroups && systemdMode == i.systemdMode
    {
      noNetwork, rootless, user := i.noNetwork, i.rootless, i.user;
      oomScoreAdj, mounts, roMounts := i.oomScoreAdj, i.mounts, i.roMounts;
      env, skipSetgroups, systemdMode := i.env, i.skipSetgroups, i.systemdMode;
    }
  }

  /** The loop over the texts of drop_caplist. */
  method CapNumbers(texts: seq<string>, naming: Naming) returns (caps: Option<seq<int>>)
    ensures caps == ReadCaps(texts, naming)
  {
    hide ReadCap;
    var done: seq<int> := [];
    for i := 0 to |texts|
      invariant ReadCaps(texts[..i], naming) == Some(done)
    {
      assert texts[..i + 1][..i] == texts[..i];
      var cap := ReadCap(texts[i], naming);
      if cap.None? {
        NoCaps(texts, i, naming);
        return None;
      }
      done := done + [cap.value];
    }
    assert texts[..|texts|] == texts;
    caps := Some(done);
  }

  lemma {:induction false} NoCaps(texts: seq<string>, i: nat, naming: Naming)
    requires i < |texts| && ReadCap(texts[i], naming).None?
    ensures ReadCaps(texts, naming).None?
  {
    hide ReadCap;
    if i < |texts| - 1 {
      NoCaps(texts[..|texts| - 1], i, naming);
    }
  }

  // ----- appending one section to the buffer -----

  lemma NothingPrinted()
    ensures PrintAll(AllItems([])) == ""
  {
  }

  lemma {:induction false} PrintAppend(a: seq<Item>, b: seq<Item>)
    ensures PrintAll(a + b) == PrintAll(a) + PrintAll(b)
  {
    hide Print;
    if a == [] {
      assert a + b == b;
    } else {
      assert (a + b)[1..] == a[1..] + b;
      PrintAppend(a[1..], b);
      assert Print(a[0]) + (PrintAll(a[1..]) + PrintAll(b)) == Print(a[0]) + PrintAll(a[1..]) + PrintAll(b);
    }
  }

  lemma {:induction false} ItemsAppend(ss: seq<Section>, s: Section)
    ensures AllItems(ss + [s]) == AllItems(ss) + s.Items()
  {
    hide Section.Items;
    if ss == [] {
      assert ss + [s] == [s] && AllItems([]) == [];
    } else {
      assert (ss + [s])[1..] == ss[1..] + [s];
      ItemsAppend(ss[1..], s);
    }
  }

  lemma {:induction false} PrintComments(comments: seq<string>, k: nat)
    requires k < |comments|
    ensures PrintAll(CommentItems(comments[..k + 1])) == PrintAll(CommentItems(comments[..k]))
            + Print(Comment(comments[k]))
  {
    hide Print;
    var c := Comment(comments[0]);
    var front := comments[1..][..if k == 0 then 0 else k - 1];
    if k == 0 {
      assert comments[..1] == [comments[0]] && [comments[0]][1..] == [];
      assert CommentItems(comments[..1]) == [c] + [];
      assert PrintAll([c]) == Print(c) + PrintAll([]);
    } else {
      assert comments[..k + 1][1..] == comments[1..][..k] && comments[..k][1..] == front;
      PrintComments(comments[1..], k - 1);
      FirstPrinted(c, CommentItems(comments[1..][..k]));
      FirstPrinted(c, CommentItems(front));
      assert Print(c) + (PrintAll(CommentItems(front)) + Print(Comment(comments[k]))) ==
             Print(c) + PrintAll(CommentItems(front)) + Print(Comment(comments[k]));
    }
  }

  lemma FirstPrinted(c: Item, rest: seq<Item>)
    ensures PrintAll([c] + rest) == Print(c) + PrintAll(rest)
  {
    assert ([c] + rest)[1..] == rest;
  }

  /** The calls of k2v3_add_comment, k2v3_add_config and k2v3_add_newline for one more section. */
  method Add(buf: string, s: Section, ghost ss: seq<Section>) returns (ret: string, ghost all: seq<Section>)
    requires buf == PrintAll(AllItems(ss))
    ensures all == ss + [s] && ret == PrintAll(AllItems(all))
  {
    hide Print, PrintAll, AllItems, CommentItems;
    ret := buf;
    ghost var added := "";
    NoComments();
    for i := 0 to |s.comments|
      invariant added == PrintAll(CommentItems(s.comments[..i])) && ret == buf + added
    {
      PrintComments(s.comments, i);
      ret := ret + Print(Comment(s.comments[i]));
      added := added + Print(Comment(s.comments[i]));
    }
    assert s.comments[..|s.comments|] == s.comments;
    ret := ret + Print(Config(s.key, s.written));
    if s.blank {
      ret := ret + Print(Newline);
    }
    SectionPrinted(s, added);
    assert ret == buf + PrintAll(s.Items());
    ItemsAppend(ss, s);
    PrintAppend(AllItems(ss), s.Items());
    all := ss + [s];
  }

  lemma NoComments()
    ensures PrintAll(CommentItems([])) == ""
  {
  }

  lemma SectionPrinted(s: Section, added: string)
    requires added == PrintAll(CommentItems(s.comments))
    ensures PrintAll(s.Items()) == if s.blank then added + Print(Config(s.key, s.written)) + Print(Newline)
                                   else added + Print(Config(s.key, s.written))
  {
    hide Print, CommentItems;
    var c, tail: seq<Item> := Config(s.key, s.written), if s.blank then [Newline] else [];
    PrintAppend(CommentItems(s.comments) + [c], tail);
    PrintAppend(CommentItems(s.comments), [c]);
    FirstPrinted(c, []);
    FirstPrinted(Newline, []);
    assert [c] + [] == [c] && [Item.Newline] + [] == [Item.Newline];
  }
}
