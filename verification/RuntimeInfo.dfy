/**
 The runtime state of a container and its file .rurienv (src/rurienv.c): what
 build_container_info writes and ruri_read_info reads back.
 */
module RuntimeInfo {
  import opened Text
  import opened Number
  import opened K2v3
  import opened K2v3Parse
  import opened K2v3Emit
  import opened RoundTrip

  const LAST_CAP := 114
  const MAX_DENIED := 2048
  const MAX_ENVS := 1024
  const MAX_MOUNTPOINTS := 1024
  const FILE_LIMIT := 65536
  const INIT_VALUE := -114

  // ----- capability names -----

  /** libcap's cap_to_name and cap_from_name. */
  datatype Naming = Naming(names: map<int, string>, numbers: map<string, int>)

  function LowerChar(c: char): char {
    if 'A' <= c <= 'Z' then (c as int + 32) as char else c
  }

  function Lower(s: string): (r: string)
    ensures |r| == |s|
  {
    if s == "" then "" else Lower(s[..|s| - 1]) + [LowerChar(s[|s| - 1])]
  }

  /** ruri_cap_from_name: lower case, and with the prefix that users leave out. */
  function FromName(text: string, naming: Naming): Option<int> {
    var low := Lower(text);
    var name := if |low| > 4 && !StartsWith(low, "cap_") then "cap_" + low else low;
    if name in naming.numbers then Some(naming.numbers[name]) else None
  }

  method CapFromName(text: string, naming: Naming) returns (cap: Option<int>)
    ensures cap == FromName(text, naming)
  {
    var buf := "";
    for i := 0 to |text|
      invariant buf == Lower(text[..i])
    {
      assert text[..i + 1][..i] == text[..i];
      buf := buf + [LowerChar(text[i])];
    }
    assert text[..|text|] == text;
    if |buf| > 4 && !StartsWith(buf, "cap_") {
      buf := "cap_" + buf;
    }
    cap := if buf in naming.numbers then Some(naming.numbers[buf]) else None;
  }

  lemma {:induction false} LowerAppend(a: string, b: string)
    ensures Lower(a + b) == Lower(a) + Lower(b)
    decreases |b|
  {
    if b == "" {
      assert a + b == a;
    } else {
      var m := |b| - 1;
      assert (a + b)[..|a + b| - 1] == a + b[..m];
      LowerAppend(a, b[..m]);
    }
  }

  lemma {:induction false} LowerTwice(s: string)
    ensures Lower(Lower(s)) == Lower(s)
  {
    if s != "" {
      var m := |s| - 1;
      LowerTwice(s[..m]);
      LowerAppend(Lower(s[..m]), [LowerChar(s[m])]);
      assert Lower([LowerChar(s[m])]) == [LowerChar(s[m])];
    }
  }

  /** The case of a name makes no difference. */
  lemma CaseMakesNoDifference(t: string, u: string, naming: Naming)
    requires Lower(t) == Lower(u)
    ensures FromName(t, naming) == FromName(u, naming) == FromName(Lower(t), naming)
  {
    LowerTwice(t);
  }

  lemma LowerPrefix()
    ensures Lower("cap_") == "cap_"
  {
    LowerFixed("cap_");
  }

  /**
   Where all names start with "cap_", leaving it out makes no difference to a name of more
   than four letters; a shorter one is not looked up with the prefix, and so not found.
   */
  lemma PrefixLeftOut(t: string, naming: Naming)
    requires !StartsWith(Lower(t), "cap_")
    requires forall n | n in naming.numbers :: StartsWith(n, "cap_")
    ensures FromName(t, naming) == if |t| > 4 then FromName("cap_" + t, naming) else None
  {
    hide Lower;
    LowerAppend("cap_", t);
    LowerPrefix();
    assert ("cap_" + Lower(t))[..4] == "cap_";
  }

  /** So the capability to kill processes needs its whole name. */
  lemma KillNeedsItsPrefix(naming: Naming)
    requires (forall n | n in naming.numbers :: StartsWith(n, "cap_")) && "cap_kill" in naming.numbers
    ensures FromName("KILL", naming) == None && FromName("CAP_KILL", naming) == Some(naming.numbers["cap_kill"])
  {
    hide Lower;
    Lowered("KILL", "kill");
    Lowered("CAP_KILL", "cap_kill");
    assert "cap_kill"[..4] == "cap_" && "kill"[..4][0] == 'k';
  }

  lemma {:induction false} Lowered(s: string, t: string)
    requires |s| == |t| && forall k | 0 <= k < |s| :: LowerChar(s[k]) == t[k]
    ensures Lower(s) == t
  {
    if s != "" {
      Lowered(s[..|s| - 1], t[..|t| - 1]);
    }
  }

  /** What is written for a capability. */
  function CapText(cap: int, naming: Naming): string {
    if cap in naming.names then naming.names[cap] else Dec(cap)
  }

  function CapTexts(caps: seq<int>, naming: Naming): seq<string> {
    if caps == [] then [] else CapTexts(caps[..|caps| - 1], naming) + [CapText(caps[|caps| - 1], naming)]
  }

  /** What is read for a text: a positive number, or else a name. */
  function ReadCap(text: string, naming: Naming): Option<int> {
    if Atoi(text) > 0 then Some(Atoi(text)) else FromName(text, naming)
  }

  /** One text that is no capability is an error of the whole list. */
  function ReadCaps(texts: seq<string>, naming: Naming): Option<seq<int>> {
    if texts == [] then Some([]) else
    var caps, cap := ReadCaps(texts[..|texts| - 1], naming), ReadCap(texts[|texts| - 1], naming);
    if caps.Some? && cap.Some? then Some(caps.value + [cap.value]) else None
  }

  ghost predicate IsName(n: string) {
    |n| > 4 && StartsWith(n, "cap_") && (forall c | c in n :: LowerChar(c) == c) && CanonicalElement(n)
  }

  /** The two directions of the naming belong together, and the capability 0 has a name. */
  ghost predicate Faithful(naming: Naming) {
    && 0 in naming.names
    && forall c | c in naming.names ::
         IsName(naming.names[c]) && naming.names[c] in naming.numbers && naming.numbers[naming.names[c]] == c
  }

  lemma {:induction false} LowerFixed(s: string)
    requires forall c | c in s :: LowerChar(c) == c
    ensures Lower(s) == s
  {
    if s != "" {
      LowerFixed(s[..|s| - 1]);
    }
  }

  lemma NameIsNoNumber(n: string)
    requires n != "" && n[0] == 'c'
    ensures Atoi(n) == 0
  {
  }

  lemma CapBack(cap: int, naming: Naming)
    requires Faithful(naming) && 0 <= cap <= INT_MAX
    ensures ReadCap(CapText(cap, naming), naming) == Some(cap) && CanonicalElement(CapText(cap, naming))
  {
    hide Atoi, Dec, Lower, CanonicalElement;
    if cap in naming.names {
      var n := naming.names[cap];
      LowerFixed(n);
      assert n[0] == n[..4][0];
      NameIsNoNumber(n);
    } else {
      AtoiBack(cap);
      NumberIsCanonical(cap);
    }
  }

  /** Written capabilities are read back, in order. */
  lemma {:induction false} CapsBack(caps: seq<int>, naming: Naming)
    requires Faithful(naming) && forall c | c in caps :: 0 <= c <= INT_MAX
    ensures ReadCaps(CapTexts(caps, naming), naming) == Some(caps)
    ensures |CapTexts(caps, naming)| == |caps| && forall t | t in CapTexts(caps, naming) :: CanonicalElement(t)
  {
    hide Faithful, CapText, CapTexts, ReadCap, ReadCaps, CanonicalElement;
    if caps == [] {
      NoCapTexts(naming);
    } else {
      var front, last := caps[..|caps| - 1], caps[|caps| - 1];
      assert last in caps && forall c | c in front :: c in caps;
      CapsBack(front, naming);
      CapBack(last, naming);
      assert caps == front + [last];
      CapsStep(caps, naming);
      ReadStep(CapTexts(front, naming), CapText(last, naming), naming);
    }
  }

  lemma NoCapTexts(naming: Naming)
    ensures CapTexts([], naming) == [] && ReadCaps([], naming) == Some([])
  {
  }

  lemma CapsStep(caps: seq<int>, naming: Naming)
    requires caps != []
    ensures CapTexts(caps, naming) == CapTexts(caps[..|caps| - 1], naming) + [CapText(caps[|caps| - 1], naming)]
  {
  }

  lemma ReadStep(texts: seq<string>, text: string, naming: Naming)
    ensures ReadCaps(texts + [text], naming) ==
            if ReadCaps(texts, naming).Some? && ReadCap(text, naming).Some?
            then Some(ReadCaps(texts, naming).value + [ReadCap(text, naming).value]) else None
  {
    hide ReadCap;
    assert (texts + [text])[..|texts|] == texts;
  }

  // ----- the state and its file -----

  /** The stored fields of a container; NULL- and sentinel-terminated arrays up to their end. */
  datatype Info = Info(
    dropCaps: seq<int>, noNewPrivs: bool, defaultSeccomp: bool, whitelistSeccomp: bool, denied: seq<string>,
    nsPid: int, containerId: int, workDir: Option<string>, noWarnings: bool, noNetwork: bool, rootless: bool,
    user: Option<string>, oomScoreAdj: int, mounts: seq<string>, roMounts: seq<string>, env: seq<string>,
    skipSetgroups: bool, systemdMode: bool)

  /** Some comments, one `key=value` line, and for some of them a blank line. */
  datatype Section = Section(comments: seq<string>, key: string, written: Written, blank: bool) {

    function Items(): seq<Item> {
      CommentItems(comments) + [Config(key, written)] + (if blank then [Newline] else [])
    }
  }

  function CommentItems(comments: seq<string>): seq<Item> {
    if comments == [] then [] else [Comment(comments[0])] + CommentItems(comments[1..])
  }

  function AllItems(ss: seq<Section>): seq<Item> {
    if ss == [] then [] else ss[0].Items() + AllItems(ss[1..])
  }

  // ----- the sections are canonical and have distinct keys -----

  ghost predicate CanonicalSection(s: Section) {
    (forall c | c in s.comments :: '\n' !in c) && CanonicalItem(Config(s.key, s.written))
  }

  ghost predicate DistinctKeys(ss: seq<Section>) {
    forall a, b | 0 <= a < b < |ss| :: ss[a].key != ss[b].key
  }

  lemma {:induction false} CommentsAreNoNodes(comments: seq<string>)
    requires forall c | c in comments :: '\n' !in c
    ensures NodesOf(CommentItems(comments)) == [] && forall t | t in CommentItems(comments) :: CanonicalItem(t)
  {
    if comments != [] {
      CommentsAreNoNodes(comments[1..]);
    }
  }

  lemma {:induction false} NodesOfAppend(a: seq<Item>, b: seq<Item>)
    ensures NodesOf(a + b) == NodesOf(a) + NodesOf(b)
  {
    hide NodeFor;
    if a == [] {
      assert a + b == b;
    } else {
      assert (a + b)[1..] == a[1..] + b;
      NodesOfAppend(a[1..], b);
    }
  }

  lemma SectionNodes(s: Section)
    requires CanonicalSection(s)
    ensures NodesOf(s.Items()) == [NodeFor(s.key, s.written)]
    ensures (forall t | t in s.Items() :: CanonicalItem(t)) && Config(s.key, s.written) in s.Items()
  {
    hide CanonicalItem, NodeFor;
    CommentsAreNoNodes(s.comments);
    var c, tail: seq<Item> := Config(s.key, s.written), if s.blank then [Newline] else [];
    NodesOfAppend(CommentItems(s.comments) + [c], tail);
    NodesOfAppend(CommentItems(s.comments), [c]);
    assert s.Items()[|CommentItems(s.comments)|] == c;
    NewlineIsCanonical();
  }

  lemma NewlineIsCanonical()
    ensures CanonicalItem(Newline)
  {
  }

  /** The nodes of a list of sections are those of its values, one for each section. */
  lemma {:induction false} AllNodes(ss: seq<Section>)
    requires forall s | s in ss :: CanonicalSection(s)
    ensures var items := AllItems(ss);
            && (forall t | t in items :: CanonicalItem(t))
            && |NodesOf(items)| == |ss|
            && (forall k | 0 <= k < |ss| :: NodesOf(items)[k] == NodeFor(ss[k].key, ss[k].written))
            && (forall s | s in ss :: Config(s.key, s.written) in items)
  {
    hide CanonicalItem, NodeFor, CanonicalSection;
    if ss != [] {
      AllNodes(ss[1..]);
      assert ss[0] in ss;
      SectionNodes(ss[0]);
      NodesOfAppend(ss[0].Items(), AllItems(ss[1..]));
      assert forall s | s in ss :: s == ss[0] || s in ss[1..];
    }
  }

  /** Every section's value is found under its key in the parsed text of all of them. */
  lemma SectionBack(ss: seq<Section>, s: Section)
    requires (forall x | x in ss :: CanonicalSection(x)) && DistinctKeys(ss) && s in ss
    ensures var text := PrintAll(AllItems(ss));
            !ParseWarns(text) && Lookup(ParsedCache(text), s.key) == Some(NodeFor(s.key, s.written))
  {
    hide CanonicalItem, NodeFor, CanonicalSection, Lookup, ParseWarns, ParsedCache, PrintAll, AllItems, NodesOf;
    var items := AllItems(ss);
    AllNodes(ss);
    forall a, b | 0 <= a < b < |ss| ensures NodesOf(items)[a].key != NodesOf(items)[b].key {
      NodeKey(ss[a].key, ss[a].written);
      NodeKey(ss[b].key, ss[b].written);
    }
    DocumentRoundTrip(items);
    var i :| 0 <= i < |items| && items[i] == Config(s.key, s.written);
    LookupItem(items, i);
  }

  // ----- the sections of the file -----

  /** A number that tells the keys of the file apart. */
  ghost function Rank(key: string): int {
    if |key| < 2 then 0 else |key| * 1000000 + key[0] as int * 1000 + key[1] as int
  }

  function DropCaplist(texts: seq<string>): (s: Section)
    ensures Rank(s.key) == 12100114 && ((forall t | t in texts :: CanonicalElement(t)) ==> CanonicalSection(s))
  {
    Section(["The capability to drop."], "drop_caplist", OfChars(texts), false)
  }

  function NoNewPrivs(b: bool): (s: Section)
    ensures Rank(s.key) == 12110111 && CanonicalSection(s)
  {
    Section(["Set NO_NEW_PRIVS bit."], "no_new_privs", OfBool(b), false)
  }

  function EnableSeccomp(b: bool): (s: Section)
    ensures Rank(s.key) == 14101110 && CanonicalSection(s)
  {
    Section(["Enable built-in seccomp profile."], "enable_seccomp", OfBool(b), false)
  }

  lemma WhitelistComments()
    ensures '\n' !in "Enable built-in whitelist seccomp profile." && '\n' !in "This will cover enable_seccomp."
  {
  }

  lemma WhitelistKey()
    ensures IsKey("enable_seccomp_whitelist") && Rank("enable_seccomp_whitelist") == 24101110
  {
  }

  function SeccompWhitelist(b: bool): (s: Section)
    ensures Rank(s.key) == 24101110 && CanonicalSection(s)
  {
    WhitelistComments();
    WhitelistKey();
    Section(["Enable built-in whitelist seccomp profile.", "This will cover enable_seccomp."],
            "enable_seccomp_whitelist", OfBool(b), false)
  }

  function DenySyscall(names: seq<string>): (s: Section)
    ensures Rank(s.key) == 12100101 && ((forall t | t in names :: CanonicalElement(t)) ==> CanonicalSection(s))
  {
    Section(["Denied syscalls, use seccomp."], "deny_syscall", OfChars(names), true)
  }

  function NsPid(n: int): (s: Section)
    ensures Rank(s.key) == 6110115 && (INT_MIN <= n <= INT_MAX ==> CanonicalSection(s))
  {
    Section(["PID owning unshare namespace."], "ns_pid", OfInt(n), false)
  }

  function ContainerId(n: int): (s: Section)
    ensures Rank(s.key) == 12099111 && (INT_MIN <= n <= INT_MAX ==> CanonicalSection(s))
  {
    Section(["Container ID."], "container_id", OfInt(n), false)
  }

  function WorkDir(val: Option<string>): (s: Section)
    ensures Rank(s.key) == 8119111 && ((val.Some? ==> CanonicalScalar(val.value)) ==> CanonicalSection(s))
  {
    Section(["Work directory."], "work_dir", OfChar(val), false)
  }

  function NoWarnings(b: bool): (s: Section)
    ensures Rank(s.key) == 11110111 && CanonicalSection(s)
  {
    Section(["Do not show warnings."], "no_warnings", OfBool(b), false)
  }

  function NoNetwork(b: bool): (s: Section)
    ensures Rank(s.key) == 10110111 && CanonicalSection(s)
  {
    Section(["Disable network."], "no_network", OfBool(b), false)
  }

  function Rootless(b: bool): (s: Section)
    ensures Rank(s.key) == 8114111 && CanonicalSection(s)
  {
    Section(["Run rootless container."], "rootless", OfBool(b), false)
  }

  function UserName(val: Option<string>): (s: Section)
    ensures Rank(s.key) == 4117115 && ((val.Some? ==> CanonicalScalar(val.value)) ==> CanonicalSection(s))
  {
    Section(["User to run command in the container."], "user", OfChar(val), false)
  }

  function OomScoreAdj(n: int): (s: Section)
    ensures Rank(s.key) == 13111111 && (INT_MIN <= n <= INT_MAX ==> CanonicalSection(s))
  {
    Section(["OOM score."], "oom_score_adj", OfInt(n), false)
  }

  function ExtraMountpoint(paths: seq<string>): (s: Section)
    ensures Rank(s.key) == 16101120 && ((forall t | t in paths :: CanonicalElement(t)) ==> CanonicalSection(s))
  {
    Section(["Extra mountpoint."], "extra_mountpoint", OfChars(paths), false)
  }

  function ExtraRoMountpoint(paths: seq<string>): (s: Section)
    ensures Rank(s.key) == 19101120 && ((forall t | t in paths :: CanonicalElement(t)) ==> CanonicalSection(s))
  {
    Section(["Extra read-only mountpoint."], "extra_ro_mountpoint", OfChars(paths), false)
  }

  function Env(vars: seq<string>): (s: Section)
    ensures Rank(s.key) == 3101110 && ((forall t | t in vars :: CanonicalElement(t)) ==> CanonicalSection(s))
  {
    Section(["Environment variable."], "env", OfChars(vars), true)
  }

  function SkipSetgroups(b: bool): (s: Section)
    ensures Rank(s.key) == 14115107 && CanonicalSection(s)
  {
    Section(["Skip setgroups() call."], "skip_setgroups", OfBool(b), false)
  }

  function SystemdMode(b: bool): (s: Section)
    ensures Rank(s.key) == 12115121 && CanonicalSection(s)
  {
    Section(["Systemd mode."], "systemd_mode", OfBool(b), false)
  }

  /** The lines of the file, in order. */
  function Sections(i: Info, naming: Naming): seq<Section> {
    [] + [DropCaplist(CapTexts(i.dropCaps, naming))] + [NoNewPrivs(i.noNewPrivs)] + [EnableSeccomp(i.defaultSeccomp)]
    + [SeccompWhitelist(i.whitelistSeccomp)] + [DenySyscall(i.denied)] + [NsPid(i.nsPid)]
    + [ContainerId(i.containerId)] + [WorkDir(i.workDir)] + [NoWarnings(i.noWarnings)]
    + [NoNetwork(i.noNetwork)] + [Rootless(i.rootless)] + [UserName(i.user)]
    + [OomScoreAdj(i.oomScoreAdj)] + [ExtraMountpoint(i.mounts)] + [ExtraRoMountpoint(i.roMounts)]
    + [Env(i.env)] + [SkipSetgroups(i.skipSetgroups)] + [SystemdMode(i.systemdMode)]
  }

  function FileText(i: Info, naming: Naming): string {
    PrintAll(AllItems(Sections(i, naming)))
  }

  /** The ranks of the keys, in the order of the file. */
  const RANKS: seq<int> := [
    12100114, 12110111, 14101110, 24101110, 12100101, 6110115,
    12099111, 8119111, 11110111, 10110111, 8114111, 4117115,
    13111111, 16101120, 19101120, 3101110, 14115107, 12115121
  ]

  /** `n` sections that are fine so far, with the keys of the first `n` ranks. */
  ghost predicate Fine(ss: seq<Section>, ranks: seq<int>) {
    (forall s | s in ss :: CanonicalSection(s) && Rank(s.key) in ranks) && DistinctKeys(ss)
  }

  lemma FineStart()
    ensures Fine([], RANKS[..0])
  {
  }

  lemma FineEnd(ss: seq<Section>, ranks: seq<int>)
    requires Fine(ss, ranks)
    ensures (forall s | s in ss :: CanonicalSection(s)) && DistinctKeys(ss)
  {
  }

  lemma FineSnoc(ss: seq<Section>, k: nat, s: Section)
    requires k < |RANKS| && Fine(ss, RANKS[..k]) && CanonicalSection(s) && Rank(s.key) == RANKS[k]
    ensures Fine(ss + [s], RANKS[..k + 1])
  {
    hide CanonicalSection, Rank;
    RanksDiffer(k);
    assert RANKS[..k + 1] == RANKS[..k] + [RANKS[k]];
    assert forall a | 0 <= a < |ss| :: ss[a] in ss;
  }

  lemma RanksDiffer(k: nat)
    requires k < |RANKS|
    ensures RANKS[k] !in RANKS[..k]
  {
  }

  /** A state whose strings the emitters can print, with numbers that fit their types. */
  ghost predicate Storable(i: Info) {
    && (forall c | c in i.dropCaps :: 0 <= c <= INT_MAX)
    && (forall t | t in i.denied :: CanonicalElement(t)) && (forall t | t in i.env :: CanonicalElement(t))
    && (forall t | t in i.mounts :: CanonicalElement(t)) && (forall t | t in i.roMounts :: CanonicalElement(t))
    && (i.workDir.Some? ==> CanonicalScalar(i.workDir.value)) && (i.user.Some? ==> CanonicalScalar(i.user.value))
    && INT_MIN <= i.nsPid <= INT_MAX && INT_MIN <= i.containerId <= INT_MAX && INT_MIN <= i.oomScoreAdj <= INT_MAX
  }

  lemma FineSecurity(ss: seq<Section>, i: Info, caps: seq<string>)
    requires Storable(i) && (forall t | t in caps :: CanonicalElement(t)) && Fine(ss, RANKS[..0])
    ensures Fine(ss + [DropCaplist(caps)] + [NoNewPrivs(i.noNewPrivs)] + [EnableSeccomp(i.defaultSeccomp)]
            + [SeccompWhitelist(i.whitelistSeccomp)] + [DenySyscall(i.denied)] + [NsPid(i.nsPid)], RANKS[..6])
  {
    hide Fine, CanonicalSection, Rank, CanonicalElement, CanonicalScalar,
         DropCaplist, NoNewPrivs, EnableSeccomp, SeccompWhitelist, DenySyscall, NsPid;
    var s0 := DropCaplist(caps);
    var s1 := NoNewPrivs(i.noNewPrivs);
    var s2 := EnableSeccomp(i.defaultSeccomp);
    var s3 := SeccompWhitelist(i.whitelistSeccomp);
    var s4 := DenySyscall(i.denied);
    var s5 := NsPid(i.nsPid);
    FineSnoc(ss, 0, s0);
    FineSnoc(ss + [s0], 1, s1);
    FineSnoc(ss + [s0] + [s1], 2, s2);
    FineSnoc(ss + [s0] + [s1] + [s2], 3, s3);
    FineSnoc(ss + [s0] + [s1] + [s2] + [s3], 4, s4);
    FineSnoc(ss + [s0] + [s1] + [s2] + [s3] + [s4], 5, s5);
  }

  lemma FineIdentity(ss: seq<Section>, i: Info)
    requires Storable(i) && Fine(ss, RANKS[..6])
    ensures Fine(ss + [ContainerId(i.containerId)] + [WorkDir(i.workDir)] + [NoWarnings(i.noWarnings)]
            + [NoNetwork(i.noNetwork)] + [Rootless(i.rootless)] + [UserName(i.user)], RANKS[..12])
  {
    hide Fine, CanonicalSection, Rank, CanonicalElement, CanonicalScalar, CapTexts, Faithful,
         ContainerId, WorkDir, NoWarnings, NoNetwork, Rootless, UserName;
    var s0 := ContainerId(i.containerId);
    var s1 := WorkDir(i.workDir);
    var s2 := NoWarnings(i.noWarnings);
    var s3 := NoNetwork(i.noNetwork);
    var s4 := Rootless(i.rootless);
    var s5 := UserName(i.user);
    FineSnoc(ss, 6, s0);
    FineSnoc(ss + [s0], 7, s1);
    FineSnoc(ss + [s0] + [s1], 8, s2);
    FineSnoc(ss + [s0] + [s1] + [s2], 9, s3);
    FineSnoc(ss + [s0] + [s1] + [s2] + [s3], 10, s4);
    FineSnoc(ss + [s0] + [s1] + [s2] + [s3] + [s4], 11, s5);
  }

  lemma FineRest(ss: seq<Section>, i: Info)
    requires Storable(i) && Fine(ss, RANKS[..12])
    ensures Fine(ss + [OomScoreAdj(i.oomScoreAdj)] + [ExtraMountpoint(i.mounts)] + [ExtraRoMountpoint(i.roMounts)]
            + [Env(i.env)] + [SkipSetgroups(i.skipSetgroups)] + [SystemdMode(i.systemdMode)], RANKS[..18])
  {
    hide Fine, CanonicalSection, Rank, CanonicalElement, CanonicalScalar, CapTexts, Faithful,
         OomScoreAdj, ExtraMountpoint, ExtraRoMountpoint, Env, SkipSetgroups, SystemdMode;
    var s0 := OomScoreAdj(i.oomScoreAdj);
    var s1 := ExtraMountpoint(i.mounts);
    var s2 := ExtraRoMountpoint(i.roMounts);
    var s3 := Env(i.env);
    var s4 := SkipSetgroups(i.skipSetgroups);
    var s5 := SystemdMode(i.systemdMode);
    FineSnoc(ss, 12, s0);
    FineSnoc(ss + [s0], 13, s1);
    FineSnoc(ss + [s0] + [s1], 14, s2);
    FineSnoc(ss + [s0] + [s1] + [s2], 15, s3);
    FineSnoc(ss + [s0] + [s1] + [s2] + [s3], 16, s4);
    FineSnoc(ss + [s0] + [s1] + [s2] + [s3] + [s4], 17, s5);
  }

  lemma StorableCaps(i: Info, naming: Naming)
    requires Storable(i) && Faithful(naming)
    ensures ReadCaps(CapTexts(i.dropCaps, naming), naming) == Some(i.dropCaps)
    ensures |CapTexts(i.dropCaps, naming)| == |i.dropCaps|
    ensures forall t | t in CapTexts(i.dropCaps, naming) :: CanonicalElement(t)
  {
    hide Faithful, CanonicalElement;
    CapsBack(i.dropCaps, naming);
  }

  lemma SectionsAreFine(i: Info, naming: Naming)
    requires Storable(i) && Faithful(naming)
    ensures (forall s | s in Sections(i, naming) :: CanonicalSection(s)) && DistinctKeys(Sections(i, naming))
  {
    hide Fine, CanonicalSection, DistinctKeys, Faithful, Storable, CapTexts, CanonicalElement,
         DropCaplist, NoNewPrivs, EnableSeccomp, SeccompWhitelist, DenySyscall, NsPid, ContainerId, WorkDir, NoWarnings,
         NoNetwork, Rootless, UserName, OomScoreAdj, ExtraMountpoint, ExtraRoMountpoint, Env, SkipSetgroups,
                 SystemdMode;
    FineStart();
    StorableCaps(i, naming);
    FineSecurity([], i, CapTexts(i.dropCaps, naming));
    var ss := [] + [DropCaplist(CapTexts(i.dropCaps, naming))] + [NoNewPrivs(i.noNewPrivs)]
            + [EnableSeccomp(i.defaultSeccomp)] + [SeccompWhitelist(i.whitelistSeccomp)] + [DenySyscall(i.denied)]
                    + [NsPid(i.nsPid)];
    FineIdentity(ss, i);
    var all := ss + [ContainerId(i.containerId)] + [WorkDir(i.workDir)] + [NoWarnings(i.noWarnings)]
            + [NoNetwork(i.noNetwork)] + [Rootless(i.rootless)] + [UserName(i.user)];
    FineRest(all, i);
    FineEnd(Sections(i, naming), RANKS[..18]);
  }
}
