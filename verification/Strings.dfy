/** Searching in strings; a search that finds nothing returns the length of the string. */
module Strings {

  function Find(s: string, c: char, from: nat): (k: nat)
    requires from <= |s|
    ensures from <= k <= |s| && (k < |s| ==> s[k] == c)
    ensures forall i | from <= i < k :: s[i] != c
    decreases |s| - from
  {
    if from == |s| || s[from] == c then from else Find(s, c, from + 1)
  }

  predicate OccursAt(s: string, pattern: string, k: nat) {
    k + |pattern| <= |s| && s[k..k + |pattern|] == pattern
  }

  function FindPattern(s: string, pattern: string, from: nat): (k: nat)
    requires from <= |s|
    ensures from <= k <= |s| && (k < |s| ==> OccursAt(s, pattern, k))
    ensures forall i | from <= i < k :: !OccursAt(s, pattern, i)
    decreases |s| - from
  {
    if from == |s| || OccursAt(s, pattern, from) then from else FindPattern(s, pattern, from + 1)
  }

  predicate StartsWith(s: string, prefix: string) {
    |prefix| <= |s| && forall i | 0 <= i < |prefix| :: s[i] == prefix[i]
  }

  predicate EndsWith(s: string, c: char) {
    s != "" && s[|s| - 1] == c
  }

  /** The search for a character finds the end of the prefix that does not contain it. */
  lemma FindAfter(a: string, c: char, b: string)
    requires c !in a
    ensures Find(a + [c] + b, c, 0) == |a|
  {
    var s := a + [c] + b;
    assert s[|a|] == c && forall i | 0 <= i < |a| :: s[i] == a[i];
  }

  lemma FindNothing(s: string, c: char)
    requires c !in s
    ensures Find(s, c, 0) == |s|
  {}
}
