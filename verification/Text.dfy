/**
 C string searching, on `string` values without their terminating NUL.
 */
module Text {

  datatype Option<+T> = None | Some(value: T)

  /** memchr/strchr: the first position of `c` at or after `from`, or |s| when there is none. */
  function Find(s: string, c: char, from: nat): (r: nat)
    requires from <= |s|
    ensures from <= r <= |s|
    ensures r < |s| ==> s[r] == c
    ensures forall j | from <= j < r :: s[j] != c
    decreases |s| - from
  {
    if from == |s| || s[from] == c then from else Find(s, c, from + 1)
  }

  /** strncmp(s, p, strlen(p)) == 0. */
  predicate StartsWith(s: string, p: string) {
    |p| <= |s| && s[..|p|] == p
  }

  /** The first position in from..end that holds none of the characters in `skip`. */
  function SkipAll(s: string, skip: set<char>, from: nat, end: nat): (r: nat)
    requires from <= end <= |s|
    ensures from <= r <= end
    ensures r < end ==> s[r] !in skip
    ensures forall j | from <= j < r :: s[j] in skip
    decreases end - from
  {
    if from < end && s[from] in skip then SkipAll(s, skip, from + 1, end) else from
  }

  /** The position that Find is specified to return is the only one with those properties. */
  lemma FindIs(s: string, c: char, from: nat, r: nat)
    requires from <= r < |s| && s[r] == c
    requires forall j | from <= j < r :: s[j] != c
    ensures Find(s, c, from) == r
  {
    assert s[r] == c;
  }

  /** A slice of a slice. */
  lemma SubSlice(s: string, a: nat, b: nat, c: nat, d: nat)
    requires a <= b <= |s| && c <= d <= b - a
    ensures s[a..b][c..d] == s[a + c..a + d]
  {
    assert forall k | 0 <= k < d - c :: s[a..b][c..d][k] == s[a + c..a + d][k];
  }

  /** A suffix of a suffix. */
  lemma DropDrop(s: string, a: nat, b: nat)
    requires a + b <= |s|
    ensures s[a..][b..] == s[a + b..]
  {
    assert s[a..][b..] == s[a + b..];
  }

  /** The pieces between the separators. */
  function Pieces(s: string, c: char): (r: seq<string>)
    ensures r != [] && (|r| == 1 <==> c !in s)
    decreases |s|
  {
    var i := Find(s, c, 0);
    if i == |s| then [s] else
      assert s[i] == c;
      [s[..i]] + Pieces(s[i + 1..], c)
  }

  lemma PiecesCons(s: string, c: char)
    ensures var i := Find(s, c, 0);
            Pieces(s, c) == if i == |s| then [s] else [s[..i]] + Pieces(s[i + 1..], c)
  {
    hide Find;
  }
}
