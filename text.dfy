/** The string operations the search filters use: `ToLower` (ASCII letters) and `Contains`. */
module Text {

  function LowerChar(c: char): (l: char)
    ensures 'A' <= c <= 'Z' ==> l as int == c as int + 32
    ensures !('A' <= c <= 'Z') ==> l == c
  {
    if 'A' <= c <= 'Z' then (c as int + 32) as char else c
  }

  /** `string.ToLower`, restricted to ASCII upper-case letters. */
  function ToLower(s: string): (r: string)
    ensures |r| == |s|
    ensures forall i :: 0 <= i < |s| ==> r[i] == LowerChar(s[i])
  {
    seq(|s|, i requires 0 <= i < |s| => LowerChar(s[i]))
  }

  predicate OccursAt(s: string, sub: string, i: nat) {
    i + |sub| <= |s| && s[i..i + |sub|] == sub
  }

  /** `string.Contains`: `sub` occurs in `s` as a contiguous substring. */
  predicate Contains(s: string, sub: string) {
    exists i: nat | i <= |s| :: OccursAt(s, sub, i)
  }

  /** `s.ToLower().Contains(query.ToLower())`, the match every name and description search uses. */
  predicate ContainsIgnoreCase(s: string, query: string) {
    Contains(ToLower(s), ToLower(query))
  }

  lemma {:induction false} ToLowerIdempotent(s: string)
    ensures ToLower(ToLower(s)) == ToLower(s)
  {
    var once := ToLower(s);
    var twice := ToLower(once);
    forall i | 0 <= i < |s|
      ensures twice[i] == once[i]
    {
      assert LowerChar(LowerChar(s[i])) == LowerChar(s[i]);
    }
    assert twice == once;
  }

  /** Lower-casing either side first does not change the outcome of a search. */
  lemma SearchIsCaseInsensitive(s: string, query: string)
    ensures ContainsIgnoreCase(ToLower(s), query) == ContainsIgnoreCase(s, query)
    ensures ContainsIgnoreCase(s, ToLower(query)) == ContainsIgnoreCase(s, query)
  {
    ToLowerIdempotent(s);
    ToLowerIdempotent(query);
  }

  /** The empty query matches every string, and every string matches itself. */
  lemma SearchMatchesEmptyAndSelf(s: string)
    ensures ContainsIgnoreCase(s, "")
    ensures ContainsIgnoreCase(s, s)
  {
    assert OccursAt(ToLower(s), ToLower(""), 0);
    assert OccursAt(ToLower(s), ToLower(s), 0);
  }

  /** A query longer than the searched string never matches. */
  lemma SearchLongerQueryFails(s: string, query: string)
    requires |query| > |s|
    ensures !ContainsIgnoreCase(s, query)
  {
  }
}
