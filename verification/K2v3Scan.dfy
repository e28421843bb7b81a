/**
 The scanners get_key and get_value of the k2v3 parser (src/k2v3.c:171-540).
 */
module K2v3Scan {
  import opened Text
  import opened Escape
  import opened K2v3

  /** get_key returns a key exactly when the text starts with one. */
  method GetKey(conf: string) returns (key: Option<string>, jmp: nat)
    ensures key.Some? <==> exists n: nat :: KeyAt(conf, n)
    ensures key.Some? ==> 0 < jmp && KeyAt(conf, jmp - 1) && key.value == conf[..jmp - 1]
    ensures key.None? ==> jmp == 0
  {
    var i := 0;
    while i < |conf| && conf[i] != '=' && conf[i] != '\n'
      invariant i <= |conf| && KeySpan(conf, 0) == KeySpan(conf, i)
      invariant forall j | 0 <= j < i :: KeyChar(conf[j])
    {
      if conf[i] == ' ' || !KeyChar(conf[i]) {
        forall n: nat ensures KeyAt(conf, n) ==> n == i { if KeyAt(conf, n) { KeyIsSpan(conf, n); } }
        return None, 0;
      }
      i := i + 1;
    }
    forall n: nat ensures KeyAt(conf, n) ==> n == i { if KeyAt(conf, n) { KeyIsSpan(conf, n); } }
    if i == 0 {
      return None, 0;
    }
    if i < |conf| && conf[i] == '=' {
      assert KeyAt(conf, i);
      return Some(conf[..i]), i + 1;
    }
    return None, 0;
  }

  /** The body of the loop over array elements. */
  method GetTurn(s: string, from: nat, i: nat) returns (t: Turn)
    requires from < i < |s| && s[i] == ']'
    ensures t == TurnAt(s, from, i)
  {
    hide SkipAll, FirstBare, AfterElement, Escaped;
    var j := SkipBlanks(s, from, i);
    if s[j] != '"' {
      return Refused(false);
    }
    var k := GetElementEnd(s, j + 1, i);
    if k == i || k - j - 1 <= 0 {
      return Refused(false);
    }
    t := GetSeparator(s, s[j + 1..k], k + 1, i);
  }

  /** The second half of the loop body. */
  method GetSeparator(s: string, elem: string, from: nat, i: nat) returns (t: Turn)
    requires from <= i < |s| && s[i] == ']'
    ensures t == AfterElement(s, elem, from, i)
  {
    var j := SkipBlanks(s, from, i);
    if s[j] == ',' || s[j] == ';' {
      j := SkipBlanks(s, j + 1, i);
      if j == i {
        return Refused(true);
      }
    } else if j < i {
      return Refused(false);
    }
    t := Turn(elem, j);
  }

  /** The loop over array elements, with the `]` already located at `i`. */
  method GetElements(s: string, i: nat) returns (r: Elements)
    requires 1 <= i < |s| && s[i] == ']'
    ensures r == ReadElements(s, 1, i)
  {
    var arrayVal: seq<string> := [];
    var j := 1;
    while j < i
      invariant 1 <= j <= i
      invariant ReadElements(s, 1, i) == Prepend(arrayVal, ReadElements(s, j, i))
    {
      var t := GetTurn(s, j, i);
      if t.Refused? {
        return BadElements(t.trailing);
      }
      PrependTwice(arrayVal, [t.elem], ReadElements(s, t.next, i));
      arrayVal, j := arrayVal + [t.elem], t.next;
    }
    r := Elements(arrayVal);
  }

  lemma PrependTwice(a: seq<string>, b: seq<string>, r: Elements)
    ensures Prepend(a, Prepend(b, r)) == Prepend(a + b, r)
  {
    if r.Elements? {
      assert a + (b + r.elems) == a + b + r.elems;
    }
  }

  method SkipBlanks(s: string, from: nat, i: nat) returns (j: nat)
    requires from <= i <= |s|
    ensures j == SkipAll(s, BLANKS, from, i)
  {
    j := from;
    while j < i && (s[j] == ' ' || s[j] == '\n')
      invariant from <= j <= i
      invariant SkipAll(s, BLANKS, from, i) == SkipAll(s, BLANKS, j, i)
    {
      j := j + 1;
    }
  }

  /** The scan for an element's closing quote: its position, or `i` when the element is not terminated before `i`. */
  method GetElementEnd(s: string, from: nat, i: nat) returns (k: nat)
    requires from <= i < |s|
    ensures var b := FirstBare(s, '"', from, from); k == if b < i then b else i
  {
    var privBackslash := false;
    k := from;
    assert s[from..from] == "";
    while k < i
      invariant from <= k <= i
      invariant privBackslash == Escaped(s[from..k])
      invariant FirstBare(s, '"', from, from) == FirstBare(s, '"', from, k)
    {
      assert s[from..k + 1][..|s[from..k + 1]| - 1] == s[from..k];
      if privBackslash {
        privBackslash := false;
      } else if s[k] == '\\' {
        privBackslash := true;
      } else if s[k] == '"' {
        break;
      }
      if k >= i - 1 {
        return i;
      }
      k := k + 1;
    }
  }

  /** The scan for a scalar's closing quote, given up at the line's end: its position, or |s|. */
  method GetScalarEnd(s: string) returns (i: nat)
    requires s != "" && s[0] == '"'
    ensures var b := FirstBare(s, '"', 1, 1); i == if b < Find(s, '\n', 0) then b else |s|
  {
    var boundary := Find(s, '\n', 0);
    var privBackslash := false;
    i := 1;
    assert s[1..1] == "";
    while i < |s|
      invariant 1 <= i <= |s|
      invariant i == 1 || i - 1 < boundary
      invariant privBackslash == Escaped(s[1..i])
      invariant FirstBare(s, '"', 1, 1) == FirstBare(s, '"', 1, i)
    {
      assert s[1..i + 1][..|s[1..i + 1]| - 1] == s[1..i];
      if privBackslash {
        privBackslash := false;
      } else if s[i] == '\\' {
        privBackslash := true;
      } else if s[i] == '"' {
        break;
      }
      if i >= boundary {
        return |s|;
      }
      i := i + 1;
    }
  }

  /** The end of get_value: skip spaces and a comment, then insist on the end of the line. */
  method FinishValue(conf: string, v: Value) returns (ret: Value)
    requires 0 < v.jmp <= |conf| && conf[0] != '\n'
    ensures ret == EndOfValue(conf, v)
  {
    ret := v;
    while ret.jmp < |conf| && conf[ret.jmp] == ' '
      invariant v.jmp <= ret.jmp <= |conf| && ret == v.(jmp := ret.jmp)
      invariant SkipAll(conf, {' '}, v.jmp, |conf|) == SkipAll(conf, {' '}, ret.jmp, |conf|)
    {
      ret := ret.(jmp := ret.jmp + 1);
    }
    if ret.jmp < |conf| && conf[ret.jmp] == '#' {
      ret := ret.(jmp := Find(conf, '\n', 0));
    }
    if ret.jmp < |conf| && conf[ret.jmp] != '\n' {
      return Recover(conf);
    }
  }

  method GetValue(conf: string) returns (ret: Value)
    requires conf != ""
    ensures ret == ValueOf(conf)
  {
    if |conf| >= 2 {
      if conf[0] == '"' && conf[1] == '"' {
        ret := FinishValue(conf, Value(Scalar, Null, true, 2, false));
        return;
      }
      if conf[0] == '[' {
        var p := SkipBlanks(conf, 1, |conf|);
        if p < |conf| && conf[p] == ']' {
          ret := FinishValue(conf, Value(Array, Null, true, p + 1, false));
          return;
        }
      }
    }
    if conf[0] == '"' {
      var i := GetScalarEnd(conf);
      if i >= |conf| {
        return Recover(conf);
      }
      ret := FinishValue(conf, Value(Scalar, Text(conf[1..i]), false, i + 1, false));
    } else if conf[0] == '[' {
      var i := ScanBare(conf, ']', 1);
      if i >= |conf| {
        return Recover(conf);
      }
      var es := GetElements(conf, i);
      match es {
        case Elements(elems) => ret := FinishValue(conf, Value(Array, List(elems), false, i + 1, false));
        case BadElements(trailing) =>
          if trailing {
            ret := FinishValue(conf, Value(Scalar, Null, true, i + 1, true));
          } else {
            ret := Recover(conf);
          }
      }
    } else {
      ret := Recover(conf);
    }
  }
}
