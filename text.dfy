/** Substring search on strings, as Python's `in` and `str.index` perform it. */
module Text {
  import opened Wrappers

  /** `pat` occurs in `s` starting at position `i`. */
  predicate OccursAt(s: string, pat: string, i: int)
  {
    0 <= i && i + |pat| <= |s| && s[i..i + |pat|] == pat
  }

  /** The lowest position at or after `i` where `pat` occurs in `s`. */
  function IndexFrom(s: string, pat: string, i: nat): (r: Option<nat>)
    requires i <= |s|
    ensures r.Some? ==> i <= r.value && OccursAt(s, pat, r.value)
    ensures r.Some? ==> forall k :: i <= k < r.value ==> !OccursAt(s, pat, k)
    ensures r.None? ==> forall k :: i <= k ==> !OccursAt(s, pat, k)
    decreases |s| - i
  {
    if i + |pat| > |s| then None
    else if s[i..i + |pat|] == pat then Some(i)
    else IndexFrom(s, pat, i + 1)
  }

  /** `s.index(pat)`: the first occurrence, or None where Python raises ValueError. */
  function IndexOf(s: string, pat: string): Option<nat>
  {
    IndexFrom(s, pat, 0)
  }

  /** `pat in s`. */
  predicate Contains(s: string, pat: string)
  {
    IndexOf(s, pat).Some?
  }

  /** `pat in s` holds exactly when `pat` occurs somewhere in `s`. */
  lemma ContainsIff(s: string, pat: string)
    ensures Contains(s, pat) <==> exists i :: OccursAt(s, pat, i)
  {
  }

  /** An occurrence inside the prefix `s[..k]` is an occurrence in `s`
      that ends by `k`. */
  lemma OccursInPrefix(s: string, k: nat, pat: string, j: int)
    requires k <= |s|
    ensures OccursAt(s[..k], pat, j) ==> OccursAt(s, pat, j) && j + |pat| <= k
  {
    if OccursAt(s[..k], pat, j) {
      assert s[..k][j..j + |pat|] == s[j..j + |pat|];
    }
  }
}
