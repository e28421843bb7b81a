/**
 What mount_device tries on any text, well formed or not (src/mount.c:102-144): the leftovers of
 one line in the buffers of the next included.
 */
module MountLines {
  import opened Text
  import opened Mount

  /** The last field with something in it overwrites the type. */
  function TypeOf(fields: seq<string>, typ: string): string {
    if fields == [] then typ else
    var f := fields[|fields| - 1];
    if f != "" then f else TypeOf(fields[..|fields| - 1], typ)
  }

  /** What the label buffer holds behind the first field. */
  function LabelOf(l: string, lbl: string): string {
    var f := Pieces(l, '\t')[0];
    if f == "" then lbl else f
  }

  /** The line says nodev: its first field, or without one the label that an earlier line without a tab has left. */
  predicate SaysNodev(l: string, lbl: string) {
    '\t' in l && LabelOf(l, lbl) == "nodev"
  }

  /** The types that the lines make it try, with these leftovers in the buffers. */
  function Tries(ls: seq<string>, lbl: string, typ: string): seq<string> {
    if ls == [] then [] else
    var t := TypeOf(Pieces(ls[0], '\t')[1..], typ);
    var left := if '\t' in ls[0] then "" else LabelOf(ls[0], lbl);
    if SaysNodev(ls[0], lbl) then Tries(ls[1..], left, t) else [t] + Tries(ls[1..], left, "")
  }

  function TextOf(ls: seq<string>, tail: string): string {
    if ls == [] then tail else ls[0] + "\n" + TextOf(ls[1..], tail)
  }

  lemma TypeCons(f: string, fields: seq<string>, typ: string)
    ensures TypeOf([f] + fields, typ) == TypeOf(fields, if f == "" then typ else f)
    decreases |fields|
  {
    var all := [f] + fields;
    if fields == [] {
      assert all[..0] == [];
    } else {
      var m := |fields| - 1;
      assert all[..|fields|] == [f] + fields[..m] && all[|fields|] == fields[m];
      TypeCons(f, fields[..m], typ);
    }
  }

  /** The first field of a line and the rest behind its tab. */
  lemma FirstField(l: string)
    requires '\n' !in l
    ensures var i := Find(l, '\t', 0); var f := l[..i];
            && '\t' !in f && '\n' !in f && Pieces(l, '\t')[0] == f
            && ('\t' in l <==> i < |l|)
            && (i == |l| ==> l == f && Pieces(l, '\t') == [f])
            && (i < |l| ==> l == f + "\t" + l[i + 1..] && '\n' !in l[i + 1..]
                            && Pieces(l, '\t') == [f] + Pieces(l[i + 1..], '\t'))
  {
    hide Pieces, Find;
    TabIs(l);
    var i := Find(l, '\t', 0);
    CutAt(l, i);
    if i == |l| {
      PiecesCons(l, '\t');
    } else {
      TabPieces(l);
    }
  }

  lemma TabPieces(l: string)
    requires Find(l, '\t', 0) < |l|
    ensures var i := Find(l, '\t', 0);
            l[i] == '\t' && Pieces(l, '\t') == [l[..i]] + Pieces(l[i + 1..], '\t') && Pieces(l, '\t')[0] == l[..i]
  {
    hide Pieces;
    PiecesCons(l, '\t');
  }

  lemma CutAt(l: string, i: nat)
    requires i <= |l| && '\n' !in l
    ensures '\n' !in l[..i] && (i == |l| ==> l[..i] == l)
    ensures i < |l| ==> l == l[..i] + [l[i]] + l[i + 1..] && '\n' !in l[i + 1..]
  {
    assert l == l[..i] + l[i..];
  }

  lemma TabIs(l: string)
    ensures var i := Find(l, '\t', 0); '\t' !in l[..i] && ('\t' in l <==> i < |l|)
  {
    hide Find;
    var i := Find(l, '\t', 0);
    assert forall j | 0 <= j < i :: l[..i][j] == l[j];
  }

  /** Behind the first tab of a line: every field goes to the type. */
  lemma {:induction false} OnFields(s: Scanner, l: string, answers: Answers)
    requires s.toType && s.i == 0 && s.lbl == "" && !s.mounted && '\n' !in l
    ensures var t := OnText(s, l, answers); t == s.(typ := TypeOf(Pieces(l, '\t'), s.typ), i := t.i)
    decreases |l|
  {
    hide OnText, OnChar, TypeOf, Pieces;
    var i := Find(l, '\t', 0);
    var f := l[..i];
    FirstField(l);
    OnWord(s, f, answers);
    assert s.typ[..0] + f == f;
    var u := OnText(s, f, answers);
    if i == |l| {
      TypeCons(f, [], s.typ);
      TypeNone(u.typ);
      assert [f] + [] == [f];
    } else {
      TabStep(s, f, l[i + 1..], answers);
      OnFields(u.(i := 0), l[i + 1..], answers);
      TypeCons(f, Pieces(l[i + 1..], '\t'), s.typ);
    }
  }

  lemma TypeNone(typ: string)
    ensures TypeOf([], typ) == typ
  {
  }

  /** A tab behind a field. */
  lemma TabStep(s: Scanner, f: string, rest: string, answers: Answers)
    requires !OnText(s, f, answers).mounted
    ensures var u := OnText(s, f, answers);
            OnText(s, f + "\t" + rest, answers) ==
              OnText(u.(nodev := u.nodev || u.lbl == "nodev", toType := true, i := 0, lbl := ""), rest, answers)
  {
    var u := OnText(s, f, answers);
    assert f + "\t" + rest == f + ("\t" + rest);
    OnTextAppend(s, f, "\t" + rest, answers);
    assert ("\t" + rest)[1..] == rest;
  }

  /** At the start of any line; the buffers may hold anything. */
  ghost predicate Ready(s: Scanner) {
    !s.toType && s.i == 0 && !s.nodev && !s.mounted
  }

  /** A line up to its newline. */
  lemma OnAnyLine(s: Scanner, l: string, answers: Answers)
    requires Ready(s) && '\n' !in l
    ensures var t := OnText(s, l, answers);
            && !t.mounted && t.tried == s.tried && t.ret == s.ret && t.nodev == SaysNodev(l, s.lbl)
            && t.lbl == (if '\t' in l then "" else LabelOf(l, s.lbl))
            && t.typ == TypeOf(Pieces(l, '\t')[1..], s.typ)
  {
    hide OnText, OnChar, TypeOf, Pieces;
    var i := Find(l, '\t', 0);
    var f := l[..i];
    FirstField(l);
    OnWord(s, f, answers);
    assert s.lbl[..0] + f == f;
    TypeNone(s.typ);
    if i < |l| {
      var u := OnText(s, f, answers);
      TabStep(s, f, l[i + 1..], answers);
      OnFields(u.(nodev := u.lbl == "nodev", toType := true, i := 0, lbl := ""), l[i + 1..], answers);
      assert Pieces(l, '\t')[1..] == Pieces(l[i + 1..], '\t');
    } else {
      assert Pieces(l, '\t')[1..] == [];
    }
  }

  /** Its newline: an attempt, unless the line says nodev. */
  lemma OnBreak(t: Scanner, answers: Answers)
    requires !t.mounted
    ensures var u := OnText(t, "\n", answers);
            if t.nodev then u == t.(toType := false, i := 0, nodev := false)
            else
              var r := answers(|t.tried|, t.typ);
              u == t.(toType := false, i := 0, nodev := false, tried := t.tried + [t.typ], ret := r, mounted := r == 0,
                      typ := if r == 0 then t.typ else "")
  {
    OneChar(t, '\n', answers);
  }

  /**
   On any text: the attempts are those that the lines call for, in order, up to the first that
   succeeds; what stands behind the last newline makes none.
   */
  lemma {:induction false} OnAnyText(s: Scanner, ls: seq<string>, tail: string, answers: Answers)
    requires Ready(s) && '\n' !in tail && forall l | l in ls :: '\n' !in l
    ensures var t := OnText(s, TextOf(ls, tail), answers);
            (t.tried, t.ret, t.mounted) == TryTypes(Tries(ls, s.lbl, s.typ), s.tried, s.ret, answers)
    decreases |ls|
  {
    hide OnText, OnChar, TypeOf, Pieces, SaysNodev, LabelOf;
    if ls == [] {
      OnAnyLine(s, tail, answers);
    } else {
      var l, more := ls[0], TextOf(ls[1..], tail);
      assert l in ls;
      var t := OnText(s, l, answers);
      OnAnyLine(s, l, answers);
      OnBreak(t, answers);
      OnTextAppend(s, l, "\n", answers);
      OnTextAppend(s, l + "\n", more, answers);
      var u := OnText(s, l + "\n", answers);
      if u.mounted {
        MountedStays(u, more, answers);
      } else {
        OnAnyText(u, ls[1..], tail, answers);
      }
      TriesCons(t.typ, Tries(ls[1..], t.lbl, ""));
    }
  }

  lemma TriesCons(t: string, rest: seq<string>)
    ensures ([t] + rest)[1..] == rest && ([t] + rest)[0] == t
  {
  }

  /** mount_device from its start. */
  lemma TriesExactly(ls: seq<string>, tail: string, answers: Answers)
    requires '\n' !in tail && forall l | l in ls :: '\n' !in l
    ensures var s := OnText(START, TextOf(ls, tail), answers);
            (s.tried, s.ret, s.mounted) == TryTypes(Tries(ls, "", ""), [], 0, answers)
  {
    hide OnText, Tries, TextOf;
    OnAnyText(START, ls, tail, answers);
  }
}
