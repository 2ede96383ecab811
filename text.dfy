/**
 * The JavaScript string operations the YouTube helpers rely on, over
 * `string` (`seq<char>`): `startsWith`, `indexOf`, `includes`, `replace` with a
 * string pattern (first occurrence only) and `slice(k)`.
 */
module Text {
  import opened Wrappers

  /** `s.startsWith(prefix)`. */
  predicate StartsWith(s: string, prefix: string)
    ensures StartsWith(s, prefix) <==>
      |prefix| <= |s| && forall i | 0 <= i < |prefix| :: s[i] == prefix[i]
  {
    |prefix| <= |s| && s[..|prefix|] == prefix
  }

  /** `pat` occurs in `s` starting at position `i`. */
  predicate OccursAt(s: string, pat: string, i: nat)
  {
    i + |pat| <= |s| && s[i..i + |pat|] == pat
  }

  /** Occurrences in `s[1..]` are the occurrences in `s` shifted down by one. */
  lemma OccursInTail(s: string, pat: string, j: nat)
    requires |s| > 0
    ensures OccursAt(s, pat, j + 1) <==> OccursAt(s[1..], pat, j)
  {
  }

  /** `s.indexOf(pat)`: the first position where `pat` occurs, `None` for -1. */
  function IndexOf(s: string, pat: string): (r: Option<nat>)
    ensures r.Some? ==> OccursAt(s, pat, r.value)
    ensures r.Some? ==> forall j: nat | j < r.value :: !OccursAt(s, pat, j)
    ensures r.None? ==> forall j: nat :: !OccursAt(s, pat, j)
    decreases |s|
  {
    if StartsWith(s, pat) then Some(0)
    else if |s| == 0 then None
    else
      var rest := IndexOf(s[1..], pat);
      assert forall j: nat | 1 <= j :: OccursAt(s, pat, j) <==> OccursAt(s[1..], pat, j - 1) by {
        forall j: nat | 1 <= j ensures OccursAt(s, pat, j) <==> OccursAt(s[1..], pat, j - 1) {
          OccursInTail(s, pat, j - 1);
        }
      }
      match rest
      case None => None
      case Some(k) => Some(k + 1)
  }

  /** `s.includes(pat)`. */
  function Includes(s: string, pat: string): (b: bool)
    ensures b <==> exists i: nat :: OccursAt(s, pat, i)
  {
    IndexOf(s, pat).Some?
  }

  /**
   * `s.replace(pat, rep)` with a string pattern and a replacement containing no
   * `$` patterns (inserted literally): only the first occurrence is replaced.
   */
  function ReplaceFirst(s: string, pat: string, rep: string): (r: string)
    ensures !Includes(s, pat) ==> r == s
    ensures Includes(s, pat) ==>
      exists i: nat :: OccursAt(s, pat, i) && (forall j: nat | j < i :: !OccursAt(s, pat, j)) &&
        r == s[..i] + rep + s[i + |pat|..]
    ensures StartsWith(s, pat) ==> r == rep + s[|pat|..]
  {
    match IndexOf(s, pat)
    case None => s
    case Some(i) => s[..i] + rep + s[i + |pat|..]
  }

  /** `s.slice(k)` for a non-negative `k`: everything from position `k` on, or "" past the end. */
  function SliceFrom(s: string, k: nat): (r: string)
    ensures k <= |s| ==> s == s[..k] + r
    ensures k >= |s| ==> r == []
  {
    if k <= |s| then s[k..] else []
  }

  /** Removing a prefix with `replace` when the string starts with it leaves the rest. */
  lemma ReplacePrefix(prefix: string, rest: string)
    ensures ReplaceFirst(prefix + rest, prefix, []) == rest
  {
  }
}
