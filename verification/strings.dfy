/** The few `System.String` operations the cache engine relies on, with ordinal
    (code-unit by code-unit) comparison. */
module Strings {
  import opened Wrappers

  /** `pat` occurs in `s` starting at position `i`. */
  predicate OccursAt(s: string, pat: string, i: int)
  {
    0 <= i && i + |pat| <= |s| && s[i..i + |pat|] == pat
  }

  /** `String.EndsWith`: the last |suffix| characters of `s` are `suffix`
      (the empty suffix ends every string). */
  predicate EndsWith(s: string, suffix: string): (r: bool)
    ensures r <==> |suffix| <= |s| && forall i :: 0 <= i < |suffix| ==> s[|s| - |suffix| + i] == suffix[i]
  {
    |suffix| <= |s| && s[|s| - |suffix|..] == suffix
  }

  /** `s` ends with at least one of the names in `suffixes`. */
  predicate EndsWithAny(s: string, suffixes: seq<string>)
  {
    exists p :: p in suffixes && EndsWith(s, p)
  }

  /** First occurrence of `pat` in `s` at or after `from`. */
  function IndexOfFrom(s: string, pat: string, from: nat): (r: Option<nat>)
    decreases |s| - from
    ensures r.Some? ==> from <= r.value && OccursAt(s, pat, r.value)
    ensures r.Some? ==> forall j :: from <= j < r.value ==> !OccursAt(s, pat, j)
    ensures r.None? ==> forall j :: from <= j ==> !OccursAt(s, pat, j)
  {
    if from + |pat| > |s| then None
    else if s[from..from + |pat|] == pat then Some(from)
    else IndexOfFrom(s, pat, from + 1)
  }

  /** `String.IndexOf(pat)`: the position of the first occurrence of `pat`, or
      None where the C# method answers -1. */
  function IndexOf(s: string, pat: string): (r: Option<nat>)
    ensures r.Some? <==> exists j :: OccursAt(s, pat, j)
    ensures r.Some? ==> OccursAt(s, pat, r.value) && forall j :: 0 <= j < r.value ==> !OccursAt(s, pat, j)
  {
    IndexOfFrom(s, pat, 0)
  }

  /** `String.Remove(start, count)`: `s` without the `count` characters at `start`. */
  function Remove(s: string, start: nat, count: nat): (r: string)
    requires start + count <= |s|
    ensures |r| == |s| - count
    ensures r[..start] == s[..start] && r[start..] == s[start + count..]
  {
    s[..start] + s[start + count..]
  }
}
