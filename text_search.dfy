/** The std::string operations the corrector applies to annotated sequences:
    searches from a position (std::string::npos is written -1), character
    access, and substrings, with their failure cases. */
module TextSearch {
  import opened Common

  /** The first position at or after `from` holding c, or -1
      (find / find_first_of with a one-character set). */
  function IndexOf(s: string, c: char, from: nat): (i: int)
    ensures i == -1 || (from <= i < |s| && s[i] == c)
    ensures forall j :: from <= j < |s| && (i == -1 || j < i) ==> s[j] != c
    decreases |s| - from
  {
    if from >= |s| then -1
    else if s[from] == c then from
    else IndexOf(s, c, from + 1)
  }

  /** The first position at or after `from` not holding c, or -1
      (find_first_not_of with a one-character set). */
  function IndexNotOf(s: string, c: char, from: nat): (i: int)
    ensures i == -1 || (from <= i < |s| && s[i] != c)
    ensures forall j :: from <= j < |s| && (i == -1 || j < i) ==> s[j] == c
    decreases |s| - from
  {
    if from >= |s| then -1
    else if s[from] != c then from
    else IndexNotOf(s, c, from + 1)
  }

  /** The pattern occurs in s at position i. */
  predicate OccursAt(s: string, pat: string, i: int) {
    0 <= i && i + |pat| <= |s| && s[i..i + |pat|] == pat
  }

  /** The first occurrence of pat in s at or after `from`, or -1 (find with a
      string argument; an empty pattern is found where the search starts). */
  function Find(s: string, pat: string, from: nat): (i: int)
    ensures i == -1 || (from <= i && OccursAt(s, pat, i))
    ensures forall j :: from <= j && (i == -1 || j < i) ==> !OccursAt(s, pat, j)
    decreases |s| + 1 - from
  {
    if from + |pat| > |s| then -1
    else if s[from..from + |pat|] == pat then from
    else Find(s, pat, from + 1)
  }

  /** Character access: position |s| yields the terminating NUL; beyond that
      the access is undefined. */
  function CharAt(s: string, i: nat): (r: Result<char>)
    ensures i < |s| ==> r == Ok(s[i])
    ensures i == |s| ==> r == Ok('\0')
    ensures r.Fault? <==> i > |s|
  {
    if i < |s| then Ok(s[i]) else if i == |s| then Ok('\0') else Fault
  }

  /** substr(pos, n): at most n characters from pos; a start beyond the end
      (including a negative start, which converts to a huge unsigned value)
      throws. */
  function Substr(s: string, pos: int, n: nat): (r: Result<string>)
    ensures r.Fault? <==> pos < 0 || pos > |s|
    ensures r.Ok? ==>
      |r.value| <= n && r.value <= s[pos..] && (|r.value| == n || pos + |r.value| == |s|)
  {
    if pos < 0 || pos > |s| then Fault
    else if pos + n <= |s| then Ok(s[pos..pos + n])
    else Ok(s[pos..])
  }
}
