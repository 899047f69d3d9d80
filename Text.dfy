/** Small facts about strings used for the error messages and the `correct` attribute. */
module Text {

  /** `fragment` occurs somewhere inside `s` (what Python's `re.search` finds for a literal pattern). */
  ghost predicate Contains(s: string, fragment: string) {
    exists k :: OccursAt(s, fragment, k)
  }

  /** `fragment` starts at position `k` of `s`. */
  ghost predicate OccursAt(s: string, fragment: string, k: int) {
    0 <= k && k + |fragment| <= |s| && s[k..k + |fragment|] == fragment
  }

  lemma {:induction false} ContainsMiddle(x: string, fragment: string, y: string)
    ensures Contains(x + fragment + y, fragment)
  {
    assert (x + fragment + y)[|x|..|x| + |fragment|] == fragment;
    assert OccursAt(x + fragment + y, fragment, |x|);
  }

  /** ASCII lower-casing of one character, as Python's `str.lower` does for ASCII letters. */
  function LowerChar(c: char): (d: char)
    ensures 'A' <= c <= 'Z' ==> d as int == c as int + 32
    ensures !('A' <= c <= 'Z') ==> d == c
  {
    if 'A' <= c <= 'Z' then (c as int + 32) as char else c
  }

  function Lower(s: string): (r: string)
    ensures |r| == |s|
    ensures forall i :: 0 <= i < |s| ==> r[i] == LowerChar(s[i])
  {
    if s == [] then [] else [LowerChar(s[0])] + Lower(s[1..])
  }
}
