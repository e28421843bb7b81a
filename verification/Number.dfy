/**
 Decimal printing (printf's %d and %lld) and reading (strtol, strtoll, atoi).
 */
module Number {
  import opened Text

  const INT_MIN := -0x8000_0000
  const INT_MAX := 0x7fff_ffff
  const LONG_MIN := -0x8000_0000_0000_0000
  const LONG_MAX := 0x7fff_ffff_ffff_ffff

  predicate IsDigit(c: char) {
    '0' <= c <= '9'
  }

  function DigitValue(c: char): (d: nat)
    requires IsDigit(c)
    ensures d < 10
  {
    c as int - '0' as int
  }

  function DigitChar(d: nat): (c: char)
    requires d < 10
    ensures IsDigit(c) && DigitValue(c) == d
  {
    ('0' as int + d) as char
  }

  predicate AllDigits(s: string) {
    forall i | 0 <= i < |s| :: IsDigit(s[i])
  }

  function Val(s: string): nat
    requires AllDigits(s)
  {
    if s == "" then 0 else Val(s[..|s| - 1]) * 10 + DigitValue(s[|s| - 1])
  }

  function DecNat(n: nat): (s: string)
    ensures s != "" && AllDigits(s) && Val(s) == n
  {
    if n < 10 then
      assert [DigitChar(n)][..0] == "";
      [DigitChar(n)]
    else
      var hi := DecNat(n / 10);
      assert (hi + [DigitChar(n % 10)])[..|hi|] == hi;
      hi + [DigitChar(n % 10)]
  }

  /** printf("%lld"). */
  function Dec(n: int): (s: string)
    ensures s != ""
    ensures n < 0 ==> s[0] == '-' && AllDigits(s[1..])
    ensures n >= 0 ==> AllDigits(s)
    ensures forall i | 0 <= i < |s| :: IsDigit(s[i]) || s[i] == '-'
  {
    if n < 0 then "-" + DecNat(-n) else DecNat(n)
  }

  const SPACES := {' ', '\t', '\n', '\r', 11 as char, 12 as char}

  /** The end of the digits from `i` on. */
  function DigitsEnd(s: string, i: nat): (e: nat)
    requires i <= |s|
    ensures i <= e <= |s| && AllDigits(s[i..e])
    ensures e < |s| ==> !IsDigit(s[e])
    decreases |s| - i
  {
    if i < |s| && IsDigit(s[i]) then
      var e := DigitsEnd(s, i + 1);
      assert forall j | 0 <= j < e - i :: s[i..e][j] == if j == 0 then s[i] else s[i + 1..e][j - 1];
      e
    else
      assert s[i..i] == "";
      i
  }

  /** The value strtol returns, and the offset of *endptr; nothing parsed leaves endptr at 0. */
  datatype Strtol = Strtol(value: int, end: nat)

  function Clamp(n: int): int {
    if n < LONG_MIN then LONG_MIN else if n > LONG_MAX then LONG_MAX else n
  }

  /** strtol(s, &endptr, 10) with a 64-bit long. */
  function ToLong(s: string): (r: Strtol)
    ensures r.end <= |s|
  {
    var i := SkipAll(s, SPACES, 0, |s|);
    var d := if i < |s| && (s[i] == '-' || s[i] == '+') then i + 1 else i;
    var e := DigitsEnd(s, d);
    if e == d then Strtol(0, 0)
    else
      var v: int := Val(s[d..e]);
      Strtol(Clamp(if s[i] == '-' then -v else v), e)
  }

  /** atoi: strtol cut down to a 32-bit int. */
  function Atoi(s: string): int {
    var u := ToLong(s).value % 0x1_0000_0000;
    if u > INT_MAX then u - 0x1_0000_0000 else u
  }

  lemma DigitsEndIs(s: string, i: nat, e: nat)
    requires i <= e <= |s| && AllDigits(s[i..e]) && (e < |s| ==> !IsDigit(s[e]))
    ensures DigitsEnd(s, i) == e
    decreases e - i
  {
    if i < e {
      assert s[i..e][0] == s[i];
      assert s[i + 1..e] == s[i..e][1..];
      DigitsEndIs(s, i + 1, e);
    }
  }

  /** Reading back a printed number, whatever non-digit follows it. */
  lemma ReadBack(n: int, rest: string)
    requires LONG_MIN <= n <= LONG_MAX
    requires rest != "" ==> !IsDigit(rest[0])
    ensures ToLong(Dec(n) + rest) == Strtol(n, |Dec(n)|)
  {
    var s := Dec(n) + rest;
    var d := if n < 0 then 1 else 0;
    var e := |Dec(n)|;
    assert s[0] == Dec(n)[0];
    assert s[d..e] == DecNat(if n < 0 then -n else n);
    DigitsEndIs(s, d, e);
  }

  /** A printed int read by atoi. */
  lemma AtoiBack(n: int)
    requires INT_MIN <= n <= INT_MAX
    ensures Atoi(Dec(n)) == n
  {
    hide Dec, ToLong;
    ReadBack(n, "");
    assert Dec(n) + "" == Dec(n);
  }

  // ----- which texts strtol takes -----

  /** s[..e] is white space, perhaps a sign, and digits, which end there; their number is `v`. */
  ghost predicate SignedAt(s: string, i: nat, d: nat, e: nat, v: int) {
    && i <= d < e <= |s| && (forall k | 0 <= k < i :: s[k] in {' ', '\t', '\n', '\r', 11 as char, 12 as char})
    && (d == i || (d == i + 1 && (s[i] == '-' || s[i] == '+')))
    && AllDigits(s[d..e]) && (e < |s| ==> !IsDigit(s[e]))
    && v == if d > i && s[i] == '-' then -(Val(s[d..e]) as int) else Val(s[d..e]) as int
  }

  /** The text begins with the number `v`, and `e` is where that ends. */
  ghost predicate IsNumber(s: string, e: nat, v: int) {
    exists i: nat, d: nat :: SignedAt(s, i, d, e, v)
  }

  /** strtol finds the number that the text begins with, cut down to 64 bits, and nothing else. */
  lemma LongExactly(s: string, e: nat, v: int)
    requires IsNumber(s, e, v)
    ensures ToLong(s) == Strtol(if v < -0x8000_0000_0000_0000 then -0x8000_0000_0000_0000
                                else if v > 0x7fff_ffff_ffff_ffff then 0x7fff_ffff_ffff_ffff else v, e)
  {
    var i: nat, d: nat :| SignedAt(s, i, d, e, v);
    assert s[d] == s[d..e][0];
    assert SkipAll(s, SPACES, 0, |s|) == i;
    DigitsEndIs(s, d, e);
  }

  lemma NoNumber(s: string)
    ensures ToLong(s).end > 0 <==> exists e: nat, v: int :: IsNumber(s, e, v)
    ensures ToLong(s).end == 0 ==> ToLong(s).value == 0
  {
    hide Val;
    if ToLong(s).end > 0 {
      var i := SkipAll(s, SPACES, 0, |s|);
      var d := if i < |s| && (s[i] == '-' || s[i] == '+') then i + 1 else i;
      var e := DigitsEnd(s, d);
      var v: int := if d > i && s[i] == '-' then -(Val(s[d..e]) as int) else Val(s[d..e]) as int;
      assert SignedAt(s, i, d, e, v);
      assert IsNumber(s, e, v);
    }
    if e: nat, v: int :| IsNumber(s, e, v) {
      LongExactly(s, e, v);
    }
  }

  /** atoi gives the int that agrees with the number on its last 32 bits. */
  lemma AtoiWraps(s: string)
    ensures INT_MIN <= Atoi(s) <= INT_MAX && exists k: int :: ToLong(s).value == Atoi(s) + 0x1_0000_0000 * k
  {
    hide ToLong;
    var n := ToLong(s).value;
    var k := n / 0x1_0000_0000;
    assert n == n % 0x1_0000_0000 + 0x1_0000_0000 * k;
    assert n == Atoi(s) + 0x1_0000_0000 * (if Atoi(s) < 0 then k + 1 else k);
  }
}
