/** Well-nestedness read off the outline itself, without the running depth of the heading-level normaliser. */
module HeadingNesting {
  import opened Headings

  /** Some heading before n is at least this deep, and no h1 comes after it. */
  ghost predicate HasAbove(s: seq<int>, n: nat, level: int)
    requires n <= |s|
  {
    exists j :: 0 <= j < n && level <= s[j] && forall k | j < k < n :: s[k] != 1
  }

  lemma HasAboveStep(s: seq<int>, n: nat, level: int)
    requires n < |s| && AreLevels(s) && 1 <= level
    ensures HasAbove(s, n + 1, level) <==> level <= s[n] || (s[n] != 1 && HasAbove(s, n, level))
  {
    if s[n] != 1 && HasAbove(s, n, level) {
      var j :| 0 <= j < n && level <= s[j] && forall k | j < k < n :: s[k] != 1;
      assert forall k | j < k < n + 1 :: s[k] != 1;
    }
  }

  lemma {:induction false} DeepestIff(s: seq<int>, n: nat, level: int)
    requires n <= |s| && AreLevels(s) && 1 <= level
    ensures level <= Deepest(s, n) <==> HasAbove(s, n, level)
  {
    if n > 0 {
      DeepestIff(s, n - 1, level);
      HasAboveStep(s, n - 1, level);
    }
  }

  /**
    An outline is well nested exactly when each heading below h1 has one before it that is at most one level higher,
    with no h1 in between.
   */
  lemma {:induction false} WellNestedIff(s: seq<int>)
    requires AreLevels(s)
    ensures WellNested(s) <==> forall i | 0 <= i < |s| && 1 < s[i] :: HasAbove(s, i, s[i] - 1)
  {
    forall i | 0 <= i < |s| && 1 < s[i] ensures s[i] - 1 <= Deepest(s, i) <==> HasAbove(s, i, s[i] - 1) {
      DeepestIff(s, i, s[i] - 1);
    }
    forall i | 0 <= i < |s| ensures 0 <= Deepest(s, i) {
      SilentPrefix(s, i);
    }
  }
}
