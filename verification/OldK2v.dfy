/**
 The older k2v reader (src/k2v.c): comment removal, the line lints, key and value of a
 line, and the getters.  It shares no code with the k2v3 parser.
 */
module OldK2v {
  import opened Text

  // ----- lines -----

  /** Up to the first newline. */
  function FirstLine(s: string): (l: string)
    ensures |l| <= |s| && '\n' !in l
  {
    assert forall j | 0 <= j < Find(s, '\n', 0) :: s[..Find(s, '\n', 0)][j] == s[j];
    s[..Find(s, '\n', 0)]
  }

  /** Past the first newline; nothing when there is none. */
  function RestLines(s: string): (r: string)
    ensures s != "" ==> |r| < |s|
  {
    var nl := Find(s, '\n', 0);
    if nl < |s| then s[nl + 1..] else ""
  }

  /** The lines of a text, without their newlines. */
  function Lines(s: string): (ls: seq<string>)
    ensures forall l | l in ls :: '\n' !in l
    decreases |s|
  {
    if s == "" then [] else [FirstLine(s)] + Lines(RestLines(s))
  }

  /** Lines put together again with newlines between them. */
  function Unlines(ls: seq<string>): string {
    if ls == [] then "" else if |ls| == 1 then ls[0] else ls[0] + "\n" + Unlines(ls[1..])
  }

  ghost predicate IsLine(l: string) {
    l != "" && '\n' !in l
  }

  /** A line in front of a text. */
  lemma LineInFront(l: string, rest: string)
    requires '\n' !in l
    ensures FirstLine(l + "\n" + rest) == l && RestLines(l + "\n" + rest) == rest
    ensures FirstLine(l) == l && RestLines(l) == ""
  {
    var s := l + "\n" + rest;
    assert forall j | 0 <= j < |l| :: s[j] == l[j] && l[j] in l;
    FindIs(s, '\n', 0, |l|);
    assert Find(l, '\n', 0) == |l|;
  }

  lemma {:induction false} LinesOfUnlines(ls: seq<string>)
    requires forall l | l in ls :: IsLine(l)
    ensures Lines(Unlines(ls)) == ls
    ensures ls != [] ==> Unlines(ls) != ""
  {
    if ls != [] {
      assert ls[0] in ls && ls == [ls[0]] + ls[1..];
      LinesOfUnlines(ls[1..]);
      LineInFront(ls[0], Unlines(ls[1..]));
    }
  }

  /** get_current_line. */
  method CurrentLine(buf: string) returns (line: string)
    ensures line == FirstLine(buf)
  {
    line := buf[..Find(buf, '\n', 0)];
  }

  /** goto_next_line: None when nothing follows the first newline. */
  method NextLine(buf: string) returns (rest: Option<string>)
    ensures rest == if RestLines(buf) == "" then None else Some(RestLines(buf))
  {
    var nl := Find(buf, '\n', 0);
    if nl == |buf| || nl + 1 == |buf| {
      return None;
    }
    rest := Some(buf[nl + 1..]);
  }

  // ----- comments -----

  /** is_coment_line: empty, or `#` after spaces; a line of spaces only is not one. */
  predicate IsComment(l: string) {
    var k := SkipAll(l, {' '}, 0, |l|);
    l == "" || (k < |l| && l[k] == '#')
  }

  function DropComments(ls: seq<string>): (r: seq<string>)
    ensures forall l | l in r :: l in ls && !IsComment(l)
  {
    if ls == [] then [] else (if IsComment(ls[0]) then [] else [ls[0]]) + DropComments(ls[1..])
  }

  function NotComments(buf: string): seq<string> {
    DropComments(Lines(buf))
  }

  method IsCommentLine(buf: string) returns (r: bool)
    ensures r == IsComment(buf)
  {
    if |buf| == 0 {
      return true;
    }
    var i := 0;
    while i < |buf|
      invariant i <= |buf|
      invariant SkipAll(buf, {' '}, 0, |buf|) == SkipAll(buf, {' '}, i, |buf|)
    {
      if buf[i] == ' ' {
        i := i + 1;
        continue;
      }
      return buf[i] == '#';
    }
    r := false;
  }

  /** remove_comment: the other lines, or None when there are none. */
  method RemoveComment(buf: string) returns (r: Option<string>)
    ensures r == if NotComments(buf) == [] then None else Some(Unlines(NotComments(buf)))
  {
    hide Lines, DropComments, Unlines, IsComment, NotComments, FirstLine, RestLines;
    CommentsEnds();
    var ret, p := "", buf;
    ghost var kept: seq<string> := [];
    while p != ""
      invariant NotComments(buf) == kept + NotComments(p)
      invariant ret == Unlines(kept) && (ret == "" <==> kept == [])
      decreases |p|
    {
      var line := CurrentLine(p);
      var isComment := IsCommentLine(line);
      CommentsStep(kept, p);
      if !isComment {
        UnlinesSnoc(kept, line);
        if ret != "" {
          ret := ret + "\n";
        }
        ret := ret + line;
        kept := kept + [line];
      }
      p := Next(p);
    }
    assert kept + [] == kept;
    r := if ret != "" then Some(ret) else None;
  }

  /** `p = next ? next + 1 : NULL`, where the loop stops at NULL and at the end of the text alike. */
  method Next(p: string) returns (r: string)
    ensures r == RestLines(p)
  {
    var nl := Find(p, '\n', 0);
    r := if nl < |p| then p[nl + 1..] else "";
  }

  lemma CommentsEnds()
    ensures NotComments("") == [] && Unlines([]) == "" && IsComment("")
    ensures forall s :: s != "" ==> |RestLines(s)| < |s|
  {
  }

  /** One turn of the loop over lines. */
  lemma CommentsStep(kept: seq<string>, p: string)
    requires p != ""
    ensures kept + NotComments(p) ==
            (if IsComment(FirstLine(p)) then kept else kept + [FirstLine(p)]) + NotComments(RestLines(p))
  {
    hide IsComment, FirstLine, RestLines;
    DropComments1(FirstLine(p), Lines(RestLines(p)));
    var front, rest := if IsComment(FirstLine(p)) then [] else [FirstLine(p)], NotComments(RestLines(p));
    assert kept + (front + rest) == kept + front + rest;
    assert kept + [] == kept;
  }

  lemma DropComments1(l: string, ls: seq<string>)
    ensures DropComments([l] + ls) == (if IsComment(l) then [] else [l]) + DropComments(ls)
  {
    assert ([l] + ls)[1..] == ls;
  }

  lemma {:induction false} UnlinesSnoc(ls: seq<string>, l: string)
    ensures Unlines(ls + [l]) == if ls == [] then l else Unlines(ls) + "\n" + l
  {
    if |ls| == 0 {
      assert ls + [l] == [l];
    } else {
      assert (ls + [l])[1..] == ls[1..] + [l];
      UnlinesSnoc(ls[1..], l);
      if |ls| > 1 {
        assert ls[0] + "\n" + (Unlines(ls[1..]) + "\n" + l) == ls[0] + "\n" + Unlines(ls[1..]) + "\n" + l;
      }
    }
  }
}
