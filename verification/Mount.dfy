/**
 Mount sources (src/mount.c): the flag prefixes of parse_mount_flags and the scanner over
 /proc/filesystems inside mount_device.
 */
module Mount {
  import opened Text

  // ----- flag prefixes -----

  datatype Prefix =
    | RdOnly | NoSuid | NoDev | NoExec | NoDirAtime | NoAtime | Synchronous | DirSync | MandLock
    | RelAtime | Slave | Shared | Private | Unbindable | Silent | PosixAcl | LazyTime

  function Name(p: Prefix): string {
    match p
    case RdOnly => "RDONLY:"
    case NoSuid => "NOSUID:"
    case NoDev => "NODEV:"
    case NoExec => "NOEXEC:"
    case NoDirAtime => "NODIRATIME:"
    case NoAtime => "NOATIME:"
    case Synchronous => "SYNCHRONOUS:"
    case DirSync => "DIRSYNC:"
    case MandLock => "MANDLOCK:"
    case RelAtime => "RELATIME:"
    case Slave => "SLAVE:"
    case Shared => "SHARED:"
    case Private => "PRIVATE:"
    case Unbindable => "UNBINDABLE:"
    case Silent => "SILENT:"
    case PosixAcl => "POSIXACL:"
    case LazyTime => "LAZYTIME:"
  }

  /** MS_RDONLY and so on, as the kernel numbers them. */
  function Flag(p: Prefix): bv32 {
    match p
    case RdOnly => 0x1
    case NoSuid => 0x2
    case NoDev => 0x4
    case NoExec => 0x8
    case NoDirAtime => 0x800
    case NoAtime => 0x400
    case Synchronous => 0x10
    case DirSync => 0x80
    case MandLock => 0x40
    case RelAtime => 0x20_0000
    case Slave => 0x8_0000
    case Shared => 0x10_0000
    case Private => 0x4_0000
    case Unbindable => 0x2_0000
    case Silent => 0x8000
    case PosixAcl => 0x1_0000
    case LazyTime => 0x200_0000
  }

  /** The chain of strncmp branches. */
  function Branch(s: string): Option<Prefix> {
    if StartsWith(s, "RDONLY:") then Some(RdOnly)
    else if StartsWith(s, "NOSUID:") then Some(NoSuid)
    else if StartsWith(s, "NODEV:") then Some(NoDev)
    else if StartsWith(s, "NOEXEC:") then Some(NoExec)
    else if StartsWith(s, "NODIRATIME:") then Some(NoDirAtime)
    else if StartsWith(s, "NOATIME:") then Some(NoAtime)
    else if StartsWith(s, "SYNCHRONOUS:") then Some(Synchronous)
    else if StartsWith(s, "DIRSYNC:") then Some(DirSync)
    else if StartsWith(s, "MANDLOCK:") then Some(MandLock)
    else if StartsWith(s, "RELATIME:") then Some(RelAtime)
    else if StartsWith(s, "SLAVE:") then Some(Slave)
    else if StartsWith(s, "SHARED:") then Some(Shared)
    else if StartsWith(s, "PRIVATE:") then Some(Private)
    else if StartsWith(s, "UNBINDABLE:") then Some(Unbindable)
    else if StartsWith(s, "SILENT:") then Some(Silent)
    else if StartsWith(s, "POSIXACL:") then Some(PosixAcl)
    else if StartsWith(s, "LAZYTIME:") then Some(LazyTime)
    else None
  }

  /** The branch taken is one whose prefix is there, and none is taken only if no prefix is. */
  lemma BranchIsPrefix(s: string)
    ensures Branch(s).Some? ==> StartsWith(s, Name(Branch(s).value))
    ensures Branch(s).None? ==> forall p :: !StartsWith(s, Name(p))
  {
    hide StartsWith;
  }

  /** Names end in their only colon. */
  lemma NameShape(p: Prefix)
    ensures Name(p) != "" && Find(Name(p), ':', 0) == |Name(p)| - 1
  {
    var n := Name(p);
    assert n[|n| - 1] == ':';
    assert forall j | 0 <= j < |n| - 1 :: n[j] != ':';
    FindIs(n, ':', 0, |n| - 1);
  }

  lemma NamesDiffer(p: Prefix, q: Prefix)
    requires Name(p) == Name(q)
    ensures p == q
  {
    var n, m := Name(p), Name(q);
    assert n[0] == m[0] && n[1] == m[1] && n[2] == m[2] && n[3] == m[3] && |n| == |m|;
  }

  /** A text starts with at most one of the names: the order of the branches does not matter. */
  lemma OnePrefix(s: string, p: Prefix, q: Prefix)
    requires StartsWith(s, Name(p)) && StartsWith(s, Name(q))
    ensures p == q
  {
    hide Name;
    NameShape(p);
    NameShape(q);
    var n, m := Name(p), Name(q);
    assert s[|n| - 1] == n[|n| - 1] && s[|m| - 1] == m[|m| - 1];
    assert forall j | 0 <= j < |n| :: s[j] == s[..|n|][j];
    assert forall j | 0 <= j < |m| :: s[j] == s[..|m|][j];
    FindIs(s, ':', 0, |n| - 1);
    FindIs(s, ':', 0, |m| - 1);
    NamesDiffer(p, q);
  }

  /** Known prefixes, and a rest that starts with none. */
  datatype Split = Split(prefixes: seq<Prefix>, rest: string)

  function SplitFlags(s: string): Split
    decreases |s|
  {
    match Branch(s)
    case None => Split([], s)
    case Some(p) =>
      BranchIsPrefix(s);
      NameShape(p);
      var t := SplitFlags(s[|Name(p)|..]);
      Split([p] + t.prefixes, t.rest)
  }

  function Names(ps: seq<Prefix>): string {
    if ps == [] then "" else Name(ps[0]) + Names(ps[1..])
  }

  function OrAll(ps: seq<Prefix>): bv32 {
    if ps == [] then 0 else Flag(ps[0]) | OrAll(ps[1..])
  }

  /** The flags after some prefixes. */
  ghost predicate FlagsAre(flags: bv32, start: bv32, done: seq<Prefix>) {
    flags == start | OrAll(done)
  }

  lemma OrStep(flags: bv32, start: bv32, done: seq<Prefix>, p: Prefix)
    requires FlagsAre(flags, start, done)
    ensures FlagsAre(flags | Flag(p), start, done + [p])
  {
    hide Flag, OrAll;
    OrSnoc(done, p);
    OrAssoc(start, OrAll(done), Flag(p));
  }

  lemma SplitStep(s: string, done: seq<Prefix>)
    requires Branch(s).Some?
    ensures var p := Branch(s).value;
            && |Name(p)| <= |s|
            && SplitFlags(s).rest == SplitFlags(s[|Name(p)|..]).rest
            && done + SplitFlags(s).prefixes == done + [p] + SplitFlags(s[|Name(p)|..]).prefixes
  {
    hide Branch, Name;
    BranchIsPrefix(s);
    var t := SplitFlags(s[|Name(Branch(s).value)|..]);
    assert done + ([Branch(s).value] + t.prefixes) == done + [Branch(s).value] + t.prefixes;
  }

  lemma SplitEnd(s: string, done: seq<Prefix>)
    requires Branch(s).None?
    ensures SplitFlags(s).rest == s && done + SplitFlags(s).prefixes == done
  {
  }

  /** parse_mount_flags. */
  method ParseMountFlags(source: string, mountflag: bv32) returns (rest: string, flags: bv32)
    ensures rest == SplitFlags(source).rest
    ensures FlagsAre(flags, mountflag, SplitFlags(source).prefixes)
  {
    hide Branch, Name, Flag, SplitFlags, FlagsAre;
    OrNothing(mountflag);
    rest, flags := source, mountflag;
    ghost var done: seq<Prefix> := [];
    while true
      invariant SplitFlags(source) == Split(done + SplitFlags(rest).prefixes, SplitFlags(rest).rest)
      invariant FlagsAre(flags, mountflag, done)
      decreases |rest|
    {
      var p := Branch(rest);
      if p.None? {
        SplitEnd(rest, done);
        break;
      }
      BranchIsPrefix(rest);
      NameShape(p.value);
      OrStep(flags, mountflag, done, p.value);
      SplitStep(rest, done);
      flags := flags | Flag(p.value);
      rest := rest[|Name(p.value)|..];
      done := done + [p.value];
    }
  }

  lemma OrNothing(a: bv32)
    ensures FlagsAre(a, a, [])
  {
  }

  lemma OrAssoc(a: bv32, b: bv32, c: bv32)
    ensures (a | b) | c == a | (b | c)
  {
  }

  lemma {:induction false} OrSnoc(ps: seq<Prefix>, p: Prefix)
    ensures OrAll(ps + [p]) == OrAll(ps) | Flag(p)
  {
    if ps == [] {
      assert ps + [p] == [p];
    } else {
      assert (ps + [p])[1..] == ps[1..] + [p];
      OrSnoc(ps[1..], p);
      OrAssoc(Flag(ps[0]), OrAll(ps[1..]), Flag(p));
    }
  }

  lemma PrefixInFront(s: string)
    ensures Branch(s).Some? ==> var n := Name(Branch(s).value); |n| <= |s| && s == n + s[|n|..]
  {
    hide Branch, Name;
    BranchIsPrefix(s);
  }

  /** The split puts the source together again, and its rest starts with no prefix. */
  lemma {:induction false} SplitIsWhole(s: string)
    ensures s == Names(SplitFlags(s).prefixes) + SplitFlags(s).rest
    ensures forall p :: !StartsWith(SplitFlags(s).rest, Name(p))
    decreases |s|
  {
    hide Branch, Name, StartsWith;
    BranchIsPrefix(s);
    PrefixInFront(s);
    var b := Branch(s);
    if b.Some? {
      var n := Name(b.value);
      NameShape(b.value);
      SplitIsWhole(s[|n|..]);
      var t := SplitFlags(s[|n|..]);
      assert ([b.value] + t.prefixes)[1..] == t.prefixes;
      assert n + (Names(t.prefixes) + t.rest) == n + Names(t.prefixes) + t.rest;
    }
  }

  /** And it is the only way to split the source. */
  lemma {:induction false} SplitIsUnique(ps: seq<Prefix>, rest: string)
    requires forall p :: !StartsWith(rest, Name(p))
    ensures SplitFlags(Names(ps) + rest) == Split(ps, rest)
    decreases |ps|
  {
    hide Branch, Name;
    var s := Names(ps) + rest;
    BranchIsPrefix(s);
    if ps == [] {
      assert s == rest;
    } else {
      var n := Name(ps[0]);
      assert s[..|n|] == n && s[|n|..] == Names(ps[1..]) + rest;
      OnePrefix(s, Branch(s).value, ps[0]);
      SplitIsUnique(ps[1..], rest);
      assert ps == [ps[0]] + ps[1..];
    }
  }

  lemma OrAbsorbs(a: bv32, b: bv32, c: bv32)
    ensures b | c == b ==> (a | b) | c == a | b
    ensures a | b | a == a | b
    ensures a | b == b | a
  {
  }

  lemma {:induction false} OrHas(ps: seq<Prefix>, p: Prefix)
    requires p in ps
    ensures OrAll(ps) | Flag(p) == OrAll(ps)
  {
    hide Flag;
    if ps[0] != p {
      OrHas(ps[1..], p);
    }
    OrAbsorbs(Flag(ps[0]), OrAll(ps[1..]), Flag(p));
  }

  lemma {:induction false} OrCovers(ps: seq<Prefix>, qs: seq<Prefix>)
    requires forall q | q in qs :: q in ps
    ensures OrAll(ps) | OrAll(qs) == OrAll(ps)
  {
    hide Flag;
    if qs != [] {
      OrCovers(ps, qs[1..]);
      OrHas(ps, qs[0]);
      OrAssoc(OrAll(ps), Flag(qs[0]), OrAll(qs[1..]));
    } else {
      OrZero(OrAll(ps));
    }
  }

  lemma OrZero(a: bv32)
    ensures a | 0 == a
  {
  }

  /** Reordering or repeating prefixes changes neither the flags nor the rest. */
  lemma OrderDoesNotMatter(ps: seq<Prefix>, qs: seq<Prefix>, rest: string)
    requires forall p :: p in ps <==> p in qs
    requires forall p :: !StartsWith(rest, Name(p))
    ensures var a, b := SplitFlags(Names(ps) + rest), SplitFlags(Names(qs) + rest);
            a.rest == b.rest == rest && OrAll(a.prefixes) == OrAll(b.prefixes)
  {
    hide Name, Flag;
    SplitIsUnique(ps, rest);
    SplitIsUnique(qs, rest);
    OrCovers(ps, qs);
    OrCovers(qs, ps);
    OrAbsorbs(OrAll(ps), OrAll(qs), 0);
  }

  // ----- the flags -----

  /** The values of MS_RDONLY and so on in the kernel's interface, by the prefixes that ask for them. */
  const TABLE: map<string, bv32> := map[
    "RDONLY:" := 1, "NOSUID:" := 2, "NODEV:" := 4, "NOEXEC:" := 8, "SYNCHRONOUS:" := 16, "MANDLOCK:" := 64,
    "DIRSYNC:" := 128, "NOATIME:" := 1024, "NODIRATIME:" := 2048, "SILENT:" := 32768, "POSIXACL:" := 65536,
    "UNBINDABLE:" := 131072, "PRIVATE:" := 262144, "SLAVE:" := 524288, "SHARED:" := 1048576,
    "RELATIME:" := 2097152, "LAZYTIME:" := 33554432
  ]

  lemma FlagInTable(p: Prefix)
    ensures TABLE[Name(p)] == Flag(p)
  {
  }

  ghost predicate Has(flags: bv32, bit: bv32) {
    flags & bit != 0
  }

  lemma OwnBit(p: Prefix, q: Prefix)
    ensures Has(Flag(p), Flag(q)) <==> p == q
  {
  }

  lemma AndOr(a: bv32, b: bv32, c: bv32)
    ensures (a | b) & c == (a & c) | (b & c)
  {
  }

  lemma NonZero(a: bv32, b: bv32)
    ensures a | b != 0 <==> a != 0 || b != 0
  {
  }

  lemma HasOr(a: bv32, b: bv32, bit: bv32)
    ensures Has(a | b, bit) <==> Has(a, bit) || Has(b, bit)
  {
    var x, y := a & bit, b & bit;
    AndOr(a, b, bit);
    NonZero(x, y);
  }

  lemma HasNone(bit: bv32)
    ensures !Has(0, bit)
  {
  }

  lemma OrFirst(ps: seq<Prefix>)
    ensures OrAll(ps) == if ps == [] then 0 else Flag(ps[0]) | OrAll(ps[1..])
  {
  }

  /** The flag of this prefix is set. */
  ghost predicate IsSet(flags: bv32, p: Prefix) {
    Has(flags, Flag(p))
  }

  lemma SetOr(flags: bv32, a: bv32, b: bv32, p: Prefix)
    requires flags == a | b
    ensures IsSet(flags, p) <==> IsSet(a, p) || IsSet(b, p)
  {
    hide Flag, Has;
    HasOr(a, b, Flag(p));
  }

  lemma SetCons(ps: seq<Prefix>, p: Prefix)
    ensures if ps == [] then !IsSet(OrAll(ps), p) else IsSet(OrAll(ps), p) <==> p == ps[0] || IsSet(OrAll(ps[1..]), p)
  {
    hide Flag, OrAll, IsSet;
    OrFirst(ps);
    if ps == [] {
      NothingSet(p);
    } else {
      OwnIsSet(ps[0], p);
      SetOr(OrAll(ps), Flag(ps[0]), OrAll(ps[1..]), p);
    }
  }

  lemma NothingSet(p: Prefix)
    ensures !IsSet(0, p)
  {
    hide Flag;
    HasNone(Flag(p));
  }

  lemma OwnIsSet(p: Prefix, q: Prefix)
    ensures IsSet(Flag(p), q) <==> p == q
  {
    hide Flag, Has;
    OwnBit(p, q);
  }

  /** No two prefixes share a bit, so each flag says exactly whether its prefix was there. */
  lemma {:induction false} FlagExactly(ps: seq<Prefix>, p: Prefix)
    ensures IsSet(OrAll(ps), p) <==> p in ps
  {
    hide OrAll, IsSet;
    SetCons(ps, p);
    if ps != [] {
      FlagExactly(ps[1..], p);
    }
  }

  /**
   The flags that a source with these prefixes comes back with: beside those that were set before,
   exactly theirs.
   */
  lemma FlagsExactly(flags: bv32, start: bv32, ps: seq<Prefix>, p: Prefix)
    requires FlagsAre(flags, start, ps)
    ensures IsSet(flags, p) <==> IsSet(start, p) || p in ps
  {
    hide OrAll, IsSet, FlagsAre;
    FlagExactly(ps, p);
    SetOfFlags(flags, start, ps, p);
  }

  lemma SetOfFlags(flags: bv32, start: bv32, ps: seq<Prefix>, p: Prefix)
    requires FlagsAre(flags, start, ps)
    ensures IsSet(flags, p) <==> IsSet(start, p) || IsSet(OrAll(ps), p)
  {
    hide OrAll, IsSet;
    SetOr(flags, start, OrAll(ps), p);
  }

  // ----- /proc/filesystems -----

  /** mount(2) for the t-th attempt with a filesystem type, and the remount after a success. */
  type Answers = (nat, string) -> int

  /** The scanner's variables; `out` points at type or label (`lbl`). */
  datatype Scanner = Scanner(lbl: string, typ: string, toType: bool, i: nat, nodev: bool,
                             tried: seq<string>, ret: int, mounted: bool)

  const START := Scanner("", "", false, 0, false, [], 0, false)

  /** out[i] = c and a NUL behind it. */
  function Put(out: string, i: nat, c: char): string {
    (if i <= |out| then out[..i] else out) + [c]
  }

  /** One character of the file. */
  function OnChar(s: Scanner, c: char, answers: Answers): Scanner {
    if s.mounted then s
    else if c == '\t' then s.(nodev := s.nodev || s.lbl == "nodev", toType := true, i := 0, lbl := "")
    else if c == '\n' then
      var t := s.(toType := false, i := 0, nodev := false);
      if s.nodev then t else
      var ret := answers(|s.tried|, s.typ);
      t.(tried := s.tried + [s.typ], ret := ret, mounted := ret == 0, typ := if ret == 0 then s.typ else "")
    else if s.toType then s.(typ := Put(s.typ, s.i, c), i := s.i + 1)
    else s.(lbl := Put(s.lbl, s.i, c), i := s.i + 1)
  }

  function OnText(s: Scanner, text: string, answers: Answers): Scanner
    decreases |text|
  {
    if text == "" then s else OnText(OnChar(s, text[0], answers), text[1..], answers)
  }

  /** mount_device on the text it has read: the types tried and what it returns. */
  method MountDevice(buf: string, answers: Answers, remount: int) returns (ret: int, tried: seq<string>)
    ensures var s := OnText(START, buf, answers);
            tried == s.tried && ret == if s.mounted then remount else s.ret
  {
    var typ, lbl, toType, i, nodev := "", "", false, 0, false;
    ret, tried := 0, [];
    assert buf[0..] == buf;
    for j := 0 to |buf|
      invariant 0 <= i
      invariant OnText(START, buf, answers) ==
                OnText(Scanner(lbl, typ, toType, i, nodev, tried, ret, false), buf[j..], answers)
    {
      assert buf[j..][1..] == buf[j + 1..];
      if buf[j] == '\t' {
        if lbl == "nodev" {
          nodev := true;
        }
        toType, i, lbl := true, 0, "";
      } else if buf[j] == '\n' {
        if !nodev {
          ret := answers(|tried|, typ);
          tried := tried + [typ];
          if ret == 0 {
            MountedStays(Scanner(lbl, typ, false, 0, false, tried, 0, true), buf[j + 1..], answers);
            return remount, tried;
          }
          typ := "";
        }
        toType, i, nodev := false, 0, false;
      } else {
        if toType {
          typ := Put(typ, i, buf[j]);
        } else {
          lbl := Put(lbl, i, buf[j]);
        }
        i := i + 1;
      }
    }
  }

  lemma {:induction false} MountedStays(s: Scanner, text: string, answers: Answers)
    requires s.mounted
    ensures OnText(s, text, answers) == s
    decreases |text|
  {
    if text != "" {
      MountedStays(s, text[1..], answers);
    }
  }

  // ----- what a well-formed file makes it do -----

  /** One line: an optional label, a tab and a filesystem name. */
  datatype FsLine = FsLine(lbl: string, name: string)

  ghost predicate WellFormed(l: FsLine) {
    && l.name != "" && '\t' !in l.name && '\n' !in l.name && '\t' !in l.lbl && '\n' !in l.lbl
  }

  function FileOf(ls: seq<FsLine>): string {
    if ls == [] then "" else ls[0].lbl + "\t" + ls[0].name + "\n" + FileOf(ls[1..])
  }

  /** The filesystems for devices, in file order. */
  function DeviceTypes(ls: seq<FsLine>): seq<string> {
    if ls == [] then []
    else (if ls[0].lbl == "nodev" then [] else [ls[0].name]) + DeviceTypes(ls[1..])
  }

  /** Try one type after the other up to the first success. */
  function TryTypes(types: seq<string>, tried: seq<string>, ret: int, answers: Answers): (seq<string>, int, bool) {
    if types == [] then (tried, ret, false) else
    var r := answers(|tried|, types[0]);
    if r == 0 then (tried + [types[0]], 0, true) else TryTypes(types[1..], tried + [types[0]], r, answers)
  }

  lemma {:induction false} OnTextAppend(s: Scanner, a: string, b: string, answers: Answers)
    ensures OnText(s, a + b, answers) == OnText(OnText(s, a, answers), b, answers)
    decreases |a|
  {
    if a == "" {
      assert a + b == b;
    } else {
      assert (a + b)[1..] == a[1..] + b;
      OnTextAppend(OnChar(s, a[0], answers), a[1..], b, answers);
    }
  }

  /** Plain characters end up in the buffer that `out` points at. */
  lemma {:induction false} OnWord(s: Scanner, w: string, answers: Answers)
    requires !s.mounted && '\t' !in w && '\n' !in w
    requires s.i <= if s.toType then |s.typ| else |s.lbl|
    ensures OnText(s, w, answers) ==
            if w == "" then s
            else if s.toType then s.(typ := s.typ[..s.i] + w, i := s.i + |w|)
            else s.(lbl := s.lbl[..s.i] + w, i := s.i + |w|)
    decreases |w|
  {
    if w != "" {
      assert w[0] in w && forall c | c in w[1..] :: c in w;
      OnWord(OnChar(s, w[0], answers), w[1..], answers);
      var out := if s.toType then s.typ else s.lbl;
      assert (out[..s.i] + [w[0]])[..s.i + 1] + w[1..] == out[..s.i] + w;
      assert w[1..] == "" ==> out[..s.i] + [w[0]] == out[..s.i] + w;
    }
  }

  /** At the start of a line only leftovers of earlier types may be around. */
  ghost predicate LineStart(s: Scanner) {
    s.lbl == "" && !s.toType && s.i == 0 && !s.nodev && !s.mounted
  }

  lemma OnLine(s: Scanner, l: FsLine, answers: Answers)
    requires LineStart(s) && WellFormed(l)
    ensures var t := OnText(s, l.lbl + "\t" + l.name + "\n", answers);
            if l.lbl == "nodev" then LineStart(t) && t.tried == s.tried && t.ret == s.ret
            else t.tried == s.tried + [l.name] && t.ret == answers(|s.tried|, l.name)
                 && (if t.ret == 0 then t.mounted else LineStart(t))
  {
    var s1 := OnText(s, l.lbl, answers);
    OnWord(s, l.lbl, answers);
    assert s1.lbl == l.lbl by {
      assert s.lbl[..0] + l.lbl == l.lbl;
    }
    var s2 := OnChar(s1, '\t', answers);
    OnWord(s2, l.name, answers);
    var s3 := OnText(s2, l.name, answers);
    assert s3.typ == l.name by {
      assert s2.typ[..0] + l.name == l.name;
    }
    OnTextAppend(s, l.lbl + "\t" + l.name, "\n", answers);
    OnTextAppend(s, l.lbl + "\t", l.name, answers);
    OnTextAppend(s, l.lbl, "\t", answers);
    assert "\n"[1..] == "" && "\t"[1..] == "";
    OneChar(s1, '\t', answers);
    OneChar(s3, '\n', answers);
  }

  lemma OneChar(s: Scanner, c: char, answers: Answers)
    ensures OnText(s, [c], answers) == OnChar(s, c, answers)
  {
    assert [c][1..] == "";
  }

  lemma {:induction false} OnFile(s: Scanner, ls: seq<FsLine>, answers: Answers)
    requires LineStart(s) && forall l | l in ls :: WellFormed(l)
    ensures var t := OnText(s, FileOf(ls), answers);
            (t.tried, t.ret, t.mounted) == TryTypes(DeviceTypes(ls), s.tried, s.ret, answers)
    decreases |ls|
  {
    hide OnText, OnChar, WellFormed;
    if ls == [] {
      OnNothing(s, answers);
    } else {
      var l := ls[0];
      var line := l.lbl + "\t" + l.name + "\n";
      assert FileOf(ls) == line + FileOf(ls[1..]);
      OnTextAppend(s, line, FileOf(ls[1..]), answers);
      OnLine(s, l, answers);
      var t := OnText(s, line, answers);
      if t.mounted {
        MountedStays(t, FileOf(ls[1..]), answers);
      } else {
        OnFile(t, ls[1..], answers);
      }
      TypesCons(l, DeviceTypes(ls[1..]));
    }
  }

  lemma TypesCons(l: FsLine, rest: seq<string>)
    ensures [] + rest == rest && ([l.name] + rest)[1..] == rest
  {
  }

  lemma OnNothing(s: Scanner, answers: Answers)
    ensures OnText(s, "", answers) == s
  {
  }

  /**
   On a well-formed file exactly the filesystems not labelled nodev are tried, in file
   order, up to the first one that mounts.
   */
  lemma TriesDeviceTypes(ls: seq<FsLine>, answers: Answers)
    requires forall l | l in ls :: WellFormed(l)
    ensures var s := OnText(START, FileOf(ls), answers);
            (s.tried, s.ret, s.mounted) == TryTypes(DeviceTypes(ls), [], 0, answers)
  {
    OnFile(START, ls, answers);
  }

  /** Those are a prefix of the device types, all of them when none succeeds. */
  lemma {:induction false} TryTypesStops(types: seq<string>, tried: seq<string>, ret: int, answers: Answers)
    ensures var (t, r, ok) := TryTypes(types, tried, ret, answers);
            && tried <= t <= tried + types
            && (forall k | |tried| <= k < |t| - 1 :: answers(k, t[k]) != 0)
            && (ok ==> |t| > |tried| && answers(|t| - 1, t[|t| - 1]) == 0)
            && (!ok ==> t == tried + types && (types != [] ==> r == answers(|t| - 1, t[|t| - 1]) && r != 0))
    decreases |types|
  {
    if types != [] && answers(|tried|, types[0]) != 0 {
      TryTypesStops(types[1..], tried + [types[0]], answers(|tried|, types[0]), answers);
      assert tried + [types[0]] + types[1..] == tried + types;
    }
  }

  /**
   The return value does not tell a mount from no attempt at all: it is 0 when a type was
   mounted, and also when the text lists no type for devices.
   */
  lemma ZeroExactly(ls: seq<FsLine>, answers: Answers)
    requires forall l | l in ls :: WellFormed(l)
    ensures var s := OnText(START, FileOf(ls), answers);
            s.ret == 0 <==> s.mounted || DeviceTypes(ls) == []
  {
    hide OnText, FileOf, DeviceTypes;
    var types := DeviceTypes(ls);
    TriesDeviceTypes(ls, answers);
    TryTypesStops(types, [], 0, answers);
    var (t, r, ok) := TryTypes(types, [], 0, answers);
    ReturnIsLast(types, [], 0, answers);
  }

  lemma {:induction false} ReturnIsLast(types: seq<string>, tried: seq<string>, ret: int, answers: Answers)
    ensures var (t, r, ok) := TryTypes(types, tried, ret, answers);
            (ok ==> r == 0) && (types == [] ==> !ok && r == ret)
    decreases |types|
  {
    if types != [] {
      var a := answers(|tried|, types[0]);
      if a != 0 {
        ReturnIsLast(types[1..], tried + [types[0]], a, answers);
      }
    }
  }
}
