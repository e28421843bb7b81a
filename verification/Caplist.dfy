/**
 Capability lists (src/caplist.c:94-214): arrays of RURI_CAP_LAST_CAP + 1 slots that end in
 RURI_INIT_VALUE and stand for sets.
 */
module Caplist {

  const INIT_VALUE := -114
  const LAST_CAP := 114

  /** The entries before the first sentinel. */
  function Caps(a: seq<int>): (s: seq<int>)
    ensures |s| <= |a| && INIT_VALUE !in s
  {
    if a == [] || a[0] == INIT_VALUE then [] else [a[0]] + Caps(a[1..])
  }

  /** The sentinel is there, inside the array's slots. */
  ghost predicate IsList(a: array<int>)
    reads a
  {
    a.Length >= LAST_CAP + 1 && |Caps(a[..])| <= LAST_CAP
  }

  /** Reading the entries off an array. */
  lemma {:induction false} CapsAre(a: seq<int>, n: nat)
    requires n < |a| && a[n] == INIT_VALUE && forall i | 0 <= i < n :: a[i] != INIT_VALUE
    ensures Caps(a) == a[..n]
  {
    if n > 0 {
      CapsAre(a[1..], n - 1);
      assert a[..n] == [a[0]] + a[1..][..n - 1];
    } else {
      assert a[..0] == [];
    }
  }

  lemma CapsCons(a: seq<int>)
    requires a != [] && a[0] != INIT_VALUE
    ensures Caps(a) == [a[0]] + Caps(a[1..])
  {
  }

  lemma {:induction false} CapsEnd(a: seq<int>)
    ensures var n := |Caps(a)|; Caps(a) == a[..n] && (n < |a| ==> a[n] == INIT_VALUE)
  {
    if a == [] || a[0] == INIT_VALUE {
      assert a[..0] == [];
    } else {
      hide Caps;
      CapsEnd(a[1..]);
      CapsCons(a);
      var n := |Caps(a)|;
      assert a[..n] == [a[0]] + a[1..][..n - 1];
    }
  }

  ghost predicate Distinct(s: seq<int>) {
    forall i, j | 0 <= i < j < |s| :: s[i] != s[j]
  }

  function Elements(s: seq<int>): set<int> {
    set c | c in s
  }

  /** The list without the first entry that equals `cap`. */
  function Without(s: seq<int>, cap: int): (r: seq<int>)
    ensures |r| <= |s|
  {
    if s == [] then [] else if s[0] == cap then s[1..] else [s[0]] + Without(s[1..], cap)
  }

  /** The list with a supported capability appended, unless it is in there or the array is full. */
  function With(s: seq<int>, cap: int, last: int): seq<int> {
    if cap > last || cap in s || |s| >= LAST_CAP then s else s + [cap]
  }

  // ----- lists as sets -----

  lemma {:induction false} WithoutIs(s: seq<int>, cap: int, k: nat)
    requires k <= |s| && forall i | 0 <= i < k :: s[i] != cap
    ensures Without(s, cap) == if k == |s| then s else if s[k] == cap then s[..k] + s[k + 1..] else Without(s, cap)
  {
    if k > 0 {
      WithoutIs(s[1..], cap, k - 1);
      if k < |s| && s[k] == cap {
        assert s[..k] + s[k + 1..] == [s[0]] + (s[1..][..k - 1] + s[1..][k..]);
      }
    } else if s != [] && s[0] == cap {
      assert s[..0] + s[1..] == s[1..];
    }
  }

  lemma HeadElements(c: int, rest: seq<int>)
    ensures Elements([c] + rest) == {c} + Elements(rest)
    ensures c !in rest && Distinct(rest) ==> Distinct([c] + rest)
  {
  }

  lemma {:induction false} WithoutRemoves(s: seq<int>, cap: int)
    requires Distinct(s)
    ensures Distinct(Without(s, cap)) && Elements(Without(s, cap)) == Elements(s) - {cap}
    ensures forall c | c in Without(s, cap) :: c in s
  {
    if s != [] {
      assert s == [s[0]] + s[1..];
      assert s[0] !in s[1..];
      if s[0] != cap {
        WithoutRemoves(s[1..], cap);
        HeadElements(s[0], s[1..]);
        HeadElements(s[0], Without(s[1..], cap));
      }
    }
  }

  lemma WithInserts(s: seq<int>, cap: int, last: int)
    requires Distinct(s) && |s| < LAST_CAP
    ensures Distinct(With(s, cap, last))
    ensures Elements(With(s, cap, last)) == Elements(s) + (if cap <= last then {cap} else {})
  {
  }

  /** Distinct supported capabilities always leave room for one more. */
  lemma {:induction false} RoomForOneMore(s: seq<int>, last: nat, cap: int)
    requires Distinct(s) && (forall c | c in s :: 0 <= c <= last) && 0 <= cap <= last && cap !in s
    ensures |s| <= last
    decreases last
  {
    var t := s + [cap];
    DistinctCount(t, last);
  }

  lemma MemberAt(s: seq<int>, k: nat)
    requires k < |s|
    ensures s[k] in Elements(s)
  {
  }

  lemma {:induction false} DistinctCount(s: seq<int>, last: nat)
    requires Distinct(s) && forall c | c in s :: 0 <= c <= last
    ensures |s| <= last + 1
    decreases last
  {
    var r := Without(s, last);
    WithoutRemoves(s, last);
    WithoutShrinks(s, last);
    if last == 0 {
      if |r| > 0 {
        MemberAt(r, 0);
      }
    } else {
      forall c | c in r ensures 0 <= c <= last - 1 {
        assert c in Elements(r);
      }
      DistinctCount(r, last - 1);
    }
  }

  lemma {:induction false} WithoutShrinks(s: seq<int>, cap: int)
    ensures |Without(s, cap)| >= |s| - 1
  {
    if s != [] && s[0] != cap {
      WithoutShrinks(s[1..], cap);
    }
  }

  // ----- the operations -----

  /** ruri_is_in_caplist. */
  method IsInCaplist(list: array<int>, cap: int) returns (r: bool)
    requires IsList(list) && cap != INIT_VALUE
    ensures r == (cap in Caps(list[..]))
  {
    ghost var s := Caps(list[..]);
    CapsEnd(list[..]);
    for i := 0 to LAST_CAP
      invariant i <= |s| && cap !in s[..i]
    {
      if list[i] == cap {
        assert i < |s| ==> s[i] == cap;
        return true;
      }
      if list[i] == INIT_VALUE {
        break;
      }
    }
    r := false;
  }

  /** ruri_add_to_caplist. */
  method AddToCaplist(list: array<int>, cap: int, last: int)
    requires IsList(list) && cap != INIT_VALUE
    modifies list
    ensures IsList(list) && Caps(list[..]) == With(old(Caps(list[..])), cap, last)
  {
    if cap > last {
      return;
    }
    var isIn := IsInCaplist(list, cap);
    if !isIn {
      ghost var s := Caps(list[..]);
      CapsEnd(list[..]);
      for k := 0 to LAST_CAP
        invariant k <= |s| && list[..] == old(list[..])
      {
        if list[k] == INIT_VALUE {
          assert k == |s|;
          list[k] := cap;
          list[k + 1] := INIT_VALUE;
          CapsAre(list[..], k + 1);
          assert list[..][..k + 1] == s + [cap];
          break;
        }
      }
    }
  }

  /** ruri_del_from_caplist. */
  method DelFromCaplist(list: array<int>, cap: int)
    requires IsList(list) && cap != INIT_VALUE
    modifies list
    ensures IsList(list) && Caps(list[..]) == Without(old(Caps(list[..])), cap)
  {
    ghost var s := Caps(list[..]);
    CapsEnd(list[..]);
    var i := 0;
    while i < LAST_CAP
      invariant i <= |s| && list[..] == old(list[..])
      invariant forall j | 0 <= j < i :: s[j] != cap
    {
      if list[i] == cap {
        ShiftOut(list, s, i);
        WithoutIs(s, cap, i);
        return;
      }
      if list[i] == INIT_VALUE {
        WithoutIs(s, cap, i);
        return;
      }
      i := i + 1;
    }
    WithoutIs(s, cap, i);
  }

  /** The inner loop of the deletion: every entry after `at` moves down by one, the sentinel too. */
  method ShiftOut(list: array<int>, ghost s: seq<int>, at: nat)
    requires IsList(list) && s == Caps(list[..]) && at < |s|
    modifies list
    ensures IsList(list) && Caps(list[..]) == s[..at] + s[at + 1..]
  {
    hide Caps;
    CapsEnd(list[..]);
    ghost var n := |s|;
    var i := at;
    while i < LAST_CAP && list[i] != INIT_VALUE
      invariant at <= i <= n
      invariant forall j | 0 <= j < at :: list[j] == s[j]
      invariant forall j | at <= j < i :: list[j] == if j + 1 < n then s[j + 1] else INIT_VALUE
      invariant forall j | i <= j < n :: list[j] == s[j]
      invariant list[n] == INIT_VALUE
    {
      list[i] := list[i + 1];
      i := i + 1;
    }
    list[i - 1] := INIT_VALUE;
    CapsAre(list[..], n - 1);
    assert list[..][..n - 1] == s[..at] + s[at + 1..];
  }

  // ----- building a list -----

  /** CAP_CHOWN, CAP_DAC_OVERRIDE, CAP_FSETID, CAP_FOWNER, CAP_SETGID, CAP_SETUID, CAP_SETFCAP, CAP_SETPCAP,
      CAP_NET_BIND_SERVICE, CAP_KILL, CAP_AUDIT_WRITE. */
  const COMMON := [0, 1, 4, 3, 6, 7, 31, 8, 10, 5, 29]

  /** Every list in this module's loops: distinct supported capabilities. */
  ghost predicate Supported(s: seq<int>, last: nat) {
    Distinct(s) && forall c | c in s :: 0 <= c <= last
  }

  /** The set a list of drops adds. */
  function Droppable(s: seq<int>, last: int): set<int> {
    set c | c in s && c <= last
  }

  /** The loop over drop_caplist_extra. */
  method AddAll(list: array<int>, extra: array<int>, last: nat)
    requires list != extra && IsList(list) && IsList(extra) && last < LAST_CAP
    requires Supported(Caps(list[..]), last)
    requires forall c | c in Caps(extra[..]) :: c >= 0
    modifies list
    ensures IsList(list) && Supported(Caps(list[..]), last)
    ensures Elements(Caps(list[..])) == old(Elements(Caps(list[..]))) + Droppable(old(Caps(extra[..])), last)
  {
    hide Caps, With;
    ghost var e, before := Caps(extra[..]), Elements(Caps(list[..]));
    CapsEnd(extra[..]);
    for i := 0 to LAST_CAP
      invariant i <= |e| && extra[..] == old(extra[..])
      invariant IsList(list) && Supported(Caps(list[..]), last)
      invariant Elements(Caps(list[..])) == before + Droppable(e[..i], last)
    {
      if extra[i] == INIT_VALUE {
        assert e[..i] == e;
        return;
      }
      ghost var s := Caps(list[..]);
      var cap := extra[i];
      assert cap == e[i] && cap in e;
      AddToCaplist(list, cap, last);
      AddStep(s, cap, last);
      assert Droppable(e[..i + 1], last) == Droppable(e[..i], last) + (if cap <= last then {cap} else {});
    }
    assert e[..LAST_CAP] == e;
  }

  lemma AddStep(s: seq<int>, cap: int, last: nat)
    requires Supported(s, last) && cap >= 0 && last < LAST_CAP
    ensures Supported(With(s, cap, last), last)
    ensures Elements(With(s, cap, last)) == Elements(s) + (if cap <= last then {cap} else {})
  {
    if cap <= last && cap !in s {
      RoomForOneMore(s, last, cap);
      WithInserts(s, cap, last);
    }
    DistinctCount(s, last);
  }

  /** The loops over keep_caplist_common and keep_caplist_extra. */
  method DelAll(list: array<int>, extra: array<int>, last: nat)
    requires list != extra && IsList(list) && INIT_VALUE in extra[..] && |Caps(extra[..])| <= LAST_CAP
    requires Supported(Caps(list[..]), last)
    modifies list
    ensures IsList(list) && Supported(Caps(list[..]), last)
    ensures Elements(Caps(list[..])) == old(Elements(Caps(list[..]))) - old(Elements(Caps(extra[..])))
  {
    hide Caps, Without;
    ghost var e, before := Caps(extra[..]), Elements(Caps(list[..]));
    CapsEnd(extra[..]);
    SentinelInside(extra[..]);
    var i := 0;
    while i < LAST_CAP
      invariant i <= |e| && extra[..] == old(extra[..])
      invariant IsList(list) && Supported(Caps(list[..]), last)
      invariant Elements(Caps(list[..])) == before - Elements(e[..i])
    {
      if extra[i] == INIT_VALUE {
        break;
      }
      ghost var s := Caps(list[..]);
      var cap := extra[i];
      assert cap == e[i] && cap in e;
      DelFromCaplist(list, cap);
      WithoutRemoves(s, cap);
      assert Elements(e[..i + 1]) == Elements(e[..i]) + {cap};
      i := i + 1;
    }
    assert e[..i] == e;
  }

  lemma {:induction false} SentinelInside(a: seq<int>)
    requires INIT_VALUE in a
    ensures |Caps(a)| < |a|
  {
    if a[0] != INIT_VALUE {
      SentinelInside(a[1..]);
    }
  }

  function Range(n: nat): (s: seq<int>)
    ensures |s| == n && forall i | 0 <= i < n :: s[i] == i
  {
    seq(n, i => i)
  }

  /** The loop that lists every capability of the kernel. */
  method FillAll(list: array<int>, last: nat)
    requires list.Length >= LAST_CAP + 1 && last < LAST_CAP && list[0] == INIT_VALUE
    modifies list
    ensures IsList(list) && Caps(list[..]) == Range(last + 1)
  {
    for i := 0 to last + 1
      invariant forall j | 0 <= j < i :: list[j] == j
      invariant list[i] == INIT_VALUE
    {
      list[i] := i;
      list[i + 1] := INIT_VALUE;
    }
    CapsAre(list[..], last + 1);
    assert list[..][..last + 1] == Range(last + 1);
  }

  /** What ruri_build_caplist is documented to leave, with `privileged` the way the code reads it. */
  function Wanted(privileged: bool, drop: seq<int>, keep: seq<int>, last: nat): set<int> {
    (if privileged then {} else Elements(Range(last + 1)) - Elements(COMMON)) + Droppable(drop, last) - Elements(keep)
  }

  /** ruri_build_caplist, with libcap. */
  method BuildCaplist(caplist: array<int>, privileged: bool, drop: array<int>, keep: array<int>, last: nat)
    requires caplist != drop && caplist != keep && caplist.Length >= LAST_CAP + 1 && last < LAST_CAP
    requires IsList(drop) && IsList(keep) && forall c | c in Caps(drop[..]) :: c >= 0
    modifies caplist
    ensures IsList(caplist) && Distinct(Caps(caplist[..]))
    ensures Elements(Caps(caplist[..])) == Wanted(privileged, old(Caps(drop[..])), old(Caps(keep[..])), last)
  {
    var keepCommon := new int[12] [0, 1, 4, 3, 6, 7, 31, 8, 10, 5, 29, INIT_VALUE];
    assert keepCommon[..] == COMMON + [INIT_VALUE];
    CapsAre(keepCommon[..], 11);
    assert keepCommon[..][..11] == COMMON;
    caplist[0] := INIT_VALUE;
    CapsAre(caplist[..], 0);
    assert Caps(caplist[..]) == [] && Supported([], last) && Elements([]) == {};
    if !privileged {
      FillAll(caplist, last);
      RangeElements(last);
      DelAll(caplist, keepCommon, last);
    }
    if drop[0] != INIT_VALUE {
      AddAll(caplist, drop, last);
    } else {
      assert Droppable(Caps(drop[..]), last) == {};
    }
    if keep[0] != INIT_VALUE {
      CapsEnd(keep[..]);
      DelAll(caplist, keep, last);
    } else {
      assert Elements(Caps(keep[..])) == {};
    }
  }

  lemma RangeElements(last: nat)
    ensures Supported(Range(last + 1), last)
  {
  }

  /**
   Which capabilities a container drops, number by number.  Without `privileged` it drops all but
   chown, dac_override, fowner, fsetid, kill, setgid, setuid, setpcap, net_bind_service,
   audit_write and setfcap; extra drops are added, and extra keeps win over everything.
   */
  lemma DropsExactly(privileged: bool, drop: seq<int>, keep: seq<int>, last: nat, c: int)
    ensures c in Wanted(privileged, drop, keep, last) <==>
            && c !in keep
            && (|| (c in drop && c <= last)
                || (!privileged && 0 <= c <= last && c !in {0, 1, 3, 4, 5, 6, 7, 8, 10, 29, 31}))
  {
    assert c in COMMON <==> c in {0, 1, 3, 4, 5, 6, 7, 8, 10, 29, 31};
    var r := Range(last + 1);
    assert c in r <==> 0 <= c <= last by {
      if 0 <= c <= last {
        assert r[c] == c;
      }
    }
  }
}
