/**
 What the typed getters of k2v3 make of any value (src/k2v3.c:766-951): which texts are numbers
 for them, what anything else gives, and when the strict mode would exit.
 */
module K2v3Typed {
  import opened Text
  import opened Number
  import opened K2v3
  import opened K2v3Parse
  import opened K2v3Get

  /** The text is the number `v` and nothing behind it. */
  ghost predicate Whole(s: string, v: int) {
    IsNumber(s, |s|, v)
  }

  lemma WholeIs(s: string)
    ensures forall v | Whole(s, v) :: ToLong(s) == Strtol(Clamp(v), |s|)
    ensures s != "" && (forall v :: !Whole(s, v)) ==> ToLong(s).end != |s|
    ensures s == "" ==> ToLong(s) == Strtol(0, 0) && forall v :: !Whole(s, v)
  {
    hide ToLong, IsNumber;
    forall v | Whole(s, v) ensures ToLong(s) == Strtol(Clamp(v), |s|) {
      LongExactly(s, |s|, v);
    }
    NoNumber(s);
    if s != "" && ToLong(s).end == |s| {
      var e: nat, v: int :| IsNumber(s, e, v);
      LongExactly(s, e, v);
      assert Whole(s, v);
    }
    NoNumberInNothing();
  }

  lemma NoNumberInNothing()
    ensures ToLong("") == Strtol(0, 0)
    ensures forall e: nat, v: int :: !IsNumber("", e, v)
  {
  }

  /** k2v3_get_int on a text: a number in range as it is, one out of range is a warning, anything else 0. */
  lemma IntExactly(s: string)
    ensures forall v | Whole(s, v) ::
              IntOf(s) == if -0x8000_0000 <= v <= 0x7fff_ffff then Got(v, false) else Got(0, true)
    ensures (forall v :: !Whole(s, v)) ==> IntOf(s) == Got(0, false)
  {
    hide ToLong, Whole;
    WholeIs(s);
  }

  /** An element of an int array: anything but a number in range is a warning and 0. */
  lemma ElementExactly(s: string)
    requires s != ""
    ensures !ElementInt(s).warned <==> exists v :: Whole(s, v) && -0x8000_0000 <= v <= 0x7fff_ffff
    ensures forall v | Whole(s, v) && -0x8000_0000 <= v <= 0x7fff_ffff :: ElementInt(s).value == v
    ensures ElementInt(s).warned ==> ElementInt(s).value == 0
  {
    hide ToLong, Whole;
    WholeIs(s);
    if !ElementInt(s).warned {
      var v :| Whole(s, v);
      assert -0x8000_0000 <= v <= 0x7fff_ffff;
    }
  }

  /** The node that a getter of this kind works on. */
  ghost predicate Holds(cache: seq<Node>, key: string, kind: Kind, p: Payload) {
    var n := Lookup(cache, key);
    n.Some? && n.value.kind == kind && n.value.payload == p
  }

  /** k2v3_get_long: a number that does not fit 64 bits comes back as the nearest one that does. */
  lemma LongValue(cache: seq<Node>, key: string, s: string)
    requires s != "" && Holds(cache, key, Scalar, Text(s))
    ensures forall v | Whole(s, v) ::
              GetLong(cache, key) == Got(if v < -0x8000_0000_0000_0000 then -0x8000_0000_0000_0000
                                         else if v > 0x7fff_ffff_ffff_ffff then 0x7fff_ffff_ffff_ffff else v, false)
    ensures (forall v :: !Whole(s, v)) ==> GetLong(cache, key) == Got(0, true)
  {
    hide ToLong, Whole;
    WholeIs(s);
  }

  /** A scalar with a text, as the other getters see it. */
  lemma TextValue(cache: seq<Node>, key: string, s: string, limit: nat)
    requires Holds(cache, key, Scalar, Text(s))
    ensures GetChar(cache, key) == Got(Some(s), false) && GetInt(cache, key) == IntOf(s)
    ensures GetBool(cache, key) == Got(s == "true", s != "true" && s != "false")
    ensures ArrayOf(cache, key, limit) == Got([], true)
    ensures HaveKey(cache, key, Exactly(Scalar)) == 0 && HaveKey(cache, key, Exactly(Array)) == 1
  {
  }

  lemma ListValue(cache: seq<Node>, key: string, es: seq<string>, limit: nat)
    requires Holds(cache, key, Array, List(es))
    ensures ArrayOf(cache, key, limit) == if |es| <= limit then Got(es, false) else Got([], true)
    ensures GetChar(cache, key) == Got(None, true) && GetInt(cache, key) == Got(0, true)
    ensures GetLong(cache, key) == Got(0, true) && GetBool(cache, key) == Got(false, true)
    ensures HaveKey(cache, key, Exactly(Array)) == 0 && HaveKey(cache, key, Exactly(Scalar)) == 1
  {
  }

  /** An empty value is no warning, unless a bool is asked for or the other kind. */
  lemma EmptyValue(cache: seq<Node>, key: string, kind: Kind, limit: nat)
    requires Holds(cache, key, kind, Null)
    ensures GetChar(cache, key) == Got(None, kind == Array) && GetInt(cache, key) == Got(0, kind == Array)
    ensures GetLong(cache, key) == Got(0, kind == Array) && GetBool(cache, key) == Got(false, true)
    ensures ArrayOf(cache, key, limit) == Got([], kind == Scalar)
  {
  }

  /** A key that is not there is a warning of every getter. */
  lemma MissingKey(cache: seq<Node>, key: string, limit: nat, wanted: Wanted)
    requires forall n | n in cache :: n.key != key
    ensures GetChar(cache, key) == Got(None, true) && GetInt(cache, key) == Got(0, true)
    ensures GetLong(cache, key) == Got(0, true) && GetBool(cache, key) == Got(false, true)
    ensures ArrayOf(cache, key, limit) == Got([], true) && GetIntArray(cache, key, limit) == Got([], true)
    ensures HaveKey(cache, key, wanted) == -1
  {
  }
}
