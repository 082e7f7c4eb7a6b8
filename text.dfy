/**
 * The string and list primitives the patcher relies on: substring search
 * (`pat in s` on strings), first-index lookup (`list.index`), `str.endswith`
 * and the base-name split `name.split('.')[0]`.
 */
module Text {
  import opened Wrappers

  /** `pat` occurs in `s` starting at position `k`. */
  ghost predicate OccursAt(s: string, pat: string, k: int)
  {
    0 <= k && k + |pat| <= |s| && s[k..k + |pat|] == pat
  }

  /** Scans `s` from position `k` for an occurrence of `pat`. */
  function ContainsFrom(s: string, pat: string, k: nat): (r: bool)
    requires k <= |s|
    ensures r <==> exists j :: k <= j && OccursAt(s, pat, j)
    decreases |s| - k
  {
    if k + |pat| > |s| then false
    else if s[k..k + |pat|] == pat then assert OccursAt(s, pat, k); true
    else ContainsFrom(s, pat, k + 1)
  }

  /** Python's substring test `pat in s`. */
  function Contains(s: string, pat: string): (r: bool)
    ensures r <==> exists j :: OccursAt(s, pat, j)
  {
    ContainsFrom(s, pat, 0)
  }

  /** Python's `any(pat in line for line in lines[k:])`. */
  function AnyContainsFrom(lines: seq<string>, pat: string, k: nat): (r: bool)
    requires k <= |lines|
    ensures r <==> exists j :: k <= j < |lines| && Contains(lines[j], pat)
    decreases |lines| - k
  {
    if k == |lines| then false
    else Contains(lines[k], pat) || AnyContainsFrom(lines, pat, k + 1)
  }

  /** Python's `any(pat in line for line in lines)`. */
  function AnyContains(lines: seq<string>, pat: string): (r: bool)
    ensures r <==> exists j :: 0 <= j < |lines| && Contains(lines[j], pat)
  {
    AnyContainsFrom(lines, pat, 0)
  }

  /** Python's `lines.index(x)` from position `k` on, with `None` where it raises `ValueError`. */
  function IndexFrom(lines: seq<string>, x: string, k: nat): (r: Option<nat>)
    requires k <= |lines|
    ensures r.Some? ==> k <= r.value < |lines| && lines[r.value] == x
    decreases |lines| - k
  {
    if k == |lines| then None
    else if lines[k] == x then Some(k)
    else IndexFrom(lines, x, k + 1)
  }

  /** The index found is the first one from `k` on holding `x`, and `None` means there is none. */
  lemma {:induction false} IndexFromFirst(lines: seq<string>, x: string, k: nat)
    requires k <= |lines|
    ensures IndexFrom(lines, x, k).None? ==> forall j :: k <= j < |lines| ==> lines[j] != x
    ensures IndexFrom(lines, x, k).Some? ==> forall j :: k <= j < IndexFrom(lines, x, k).value ==> lines[j] != x
    decreases |lines| - k
  {
    if k < |lines| && lines[k] != x {
      IndexFromFirst(lines, x, k + 1);
    }
  }

  /** Python's `lines.index(x)`: the first index holding exactly `x`, if any. */
  function IndexOf(lines: seq<string>, x: string): (r: Option<nat>)
    ensures r.Some? ==> r.value < |lines| && lines[r.value] == x
  {
    IndexFrom(lines, x, 0)
  }

  /** `lines.index(x)` succeeds exactly when `x` is one of the lines, and finds its first occurrence. */
  lemma IndexOfFirst(lines: seq<string>, x: string)
    ensures IndexOf(lines, x).Some? <==> x in lines
    ensures IndexOf(lines, x).Some? ==> x !in lines[..IndexOf(lines, x).value]
    ensures IndexOf(lines, x).None? ==> forall j :: 0 <= j < |lines| ==> lines[j] != x
    ensures IndexOf(lines, x).Some? ==> forall j :: 0 <= j < IndexOf(lines, x).value ==> lines[j] != x
  {
    IndexFromFirst(lines, x, 0);
  }

  /** Python's `s.endswith(suffix)`. */
  predicate EndsWith(s: string, suffix: string): (r: bool)
    ensures r <==> |suffix| <= |s| && forall j :: 0 <= j < |suffix| ==> s[|s| - |suffix| + j] == suffix[j]
  {
    |suffix| <= |s| && s[|s| - |suffix|..] == suffix
  }

  /** Python's `file.split('.')[0]`: the text before the first '.', or all of it. */
  function BaseName(file: string): (r: string)
    ensures r <= file
    ensures '.' !in r
    ensures |r| < |file| ==> file[|r|] == '.'
  {
    if file == [] || file[0] == '.' then []
    else [file[0]] + BaseName(file[1..])
  }

  /** The base name of "<stem>.<extension>" is the stem, provided the stem holds no '.'. */
  lemma {:induction false} BaseNameOfStem(stem: string, extension: string)
    requires '.' !in stem
    ensures BaseName(stem + "." + extension) == stem
  {
    if stem != [] {
      assert (stem + "." + extension)[1..] == stem[1..] + "." + extension;
      BaseNameOfStem(stem[1..], extension);
    }
  }
}
