/** The two JavaScript string operations the tag scan relies on:
    `s.startsWith(p)` and `s.replace(p, '')` with a plain string pattern. */
module Strings {

  /** `s.startsWith(p)`: true for the empty prefix as well. */
  predicate StartsWith(s: string, p: string) {
    |p| <= |s| && s[..|p|] == p
  }

  /** `p` occurs in `s` starting at position `i`. */
  predicate OccursAt(s: string, p: string, i: nat) {
    i + |p| <= |s| && s[i..i + |p|] == p
  }

  /** `s.indexOf(p, from)` for `from <= |s|`: the first position at or after
      `from` where `p` occurs, or -1 when there is none. */
  function IndexOfFrom(s: string, p: string, from: nat): (r: int)
    requires from <= |s|
    decreases |s| - from
    ensures r == -1 || (from <= r && OccursAt(s, p, r))
    ensures r == -1 ==> forall i: nat :: from <= i ==> !OccursAt(s, p, i)
    ensures r != -1 ==> forall i: nat :: from <= i < r ==> !OccursAt(s, p, i)
  {
    if |s| < from + |p| then -1
    else if s[from..from + |p|] == p then from
    else IndexOfFrom(s, p, from + 1)
  }

  /** `s.replace(p, '')`: deletes the first occurrence of `p`, if any. */
  function RemoveFirst(s: string, p: string): (r: string)
    ensures IndexOfFrom(s, p, 0) == -1 ==> r == s
    ensures IndexOfFrom(s, p, 0) != -1 ==> |r| == |s| - |p|
    ensures StartsWith(s, p) ==> r == s[|p|..]
  {
    var i := IndexOfFrom(s, p, 0);
    if i == -1 then s else s[..i] + s[i + |p|..]
  }

  /** Removing the first occurrence of a prefix `s` starts with is the same
      as dropping that prefix, and putting it back gives `s` again. */
  lemma {:induction false} RemovePrefixRoundTrip(s: string, p: string)
    requires StartsWith(s, p)
    ensures p + RemoveFirst(s, p) == s
  {
    assert s == s[..|p|] + s[|p|..];
  }
}
