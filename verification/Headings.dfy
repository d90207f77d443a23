/**
  The heading-level normaliser. The same loop is written three times
  (normalize_headings.py, epub_processor.py, preprocess_html.py); the first file
  also holds a read-only analyser. A document is the array of its heading
  levels, h1..h6 as 1..6, which the normaliser rewrites in place.
 */
module Headings {

  /** Levels as heading tags can carry them. */
  ghost predicate AreLevels(s: seq<int>) {
    forall i | 0 <= i < |s| :: 1 <= s[i] <= 6
  }

  function Max(a: int, b: int): int {
    if a < b then b else a
  }

  /** The deepest level after one more heading: an h1 starts over. */
  function Reached(deepest: int, level: int): int {
    if level == 1 then 1 else Max(deepest, level)
  }

  /** The deepest level since the last h1 among the first n headings, 0 when there is none. */
  function Deepest(s: seq<int>, n: nat): int
    requires n <= |s|
  {
    if n == 0 then 0 else Reached(Deepest(s, n - 1), s[n - 1])
  }

  /** No heading is more than one level below the deepest one since the last h1. */
  ghost predicate WellNested(s: seq<int>) {
    forall i | 0 <= i < |s| :: 1 <= s[i] <= Deepest(s, i) + 1
  }

  /** Pointwise order on outlines. */
  ghost predicate AtMost(s: seq<int>, t: seq<int>) {
    |s| == |t| && forall i | 0 <= i < |s| :: s[i] <= t[i]
  }

  /** What the normaliser is for: the closest well-nested outline that never makes a heading deeper. */
  ghost predicate IsGreatestWellNestedBelow(r: seq<int>, s: seq<int>) {
    && WellNested(r)
    && AtMost(r, s)
    && forall v | WellNested(v) && AtMost(v, s) :: AtMost(v, r)
  }

  /** A level, pulled up to one below the deepest level reached when it is deeper than that. */
  function Repaired(deepest: int, level: int): int {
    if level <= deepest + 1 then level else deepest + 1
  }

  /** The deepest level reached after repairing the first n headings. */
  function RepairedDepth(s: seq<int>, n: nat): int
    requires n <= |s|
  {
    if n == 0 then 0
    else
      var before := RepairedDepth(s, n - 1);
      Reached(before, Repaired(before, s[n - 1]))
  }

  /** The first n headings after repair. */
  function NormalizedUpTo(s: seq<int>, n: nat): (r: seq<int>)
    requires n <= |s|
    ensures |r| == n
  {
    if n == 0 then []
    else NormalizedUpTo(s, n - 1) + [Repaired(RepairedDepth(s, n - 1), s[n - 1])]
  }

  function Normalized(s: seq<int>): (r: seq<int>)
    ensures |r| == |s|
  {
    NormalizedUpTo(s, |s|)
  }

  /** How many of the first n headings differ between two equally long outlines. */
  function Differences(s: seq<int>, t: seq<int>, n: nat): nat
    requires |s| == |t| && n <= |s|
  {
    if n == 0 then 0 else Differences(s, t, n - 1) + if s[n - 1] != t[n - 1] then 1 else 0
  }

  /** The gaps the analyser reports: it follows the levels as written, not as repaired. */
  function Issues(s: seq<int>, n: nat): nat
    requires n <= |s|
  {
    if n == 0 then 0
    else
      var deepest := Deepest(s, n - 1);
      Issues(s, n - 1) + if 0 < deepest && deepest + 1 < s[n - 1] then 1 else 0
  }

  /** normalize_headings and its two copies: one pass, levels rewritten in place. */
  method NormalizeHeadings(levels: array<int>) returns (changesMade: nat)
    requires AreLevels(levels[..])
    modifies levels
    ensures levels[..] == Normalized(old(levels[..]))
    ensures IsGreatestWellNestedBelow(levels[..], old(levels[..]))
    ensures changesMade == Differences(old(levels[..]), levels[..], levels.Length)
  {
    ghost var was := levels[..];
    ghost var repaired := Normalized(was);
    var currentLevel := 0;
    changesMade := 0;
    var i := 0;
    while i < levels.Length
      invariant 0 <= i <= levels.Length
      invariant forall k | 0 <= k < i :: levels[k] == repaired[k]
      invariant forall k | i <= k < levels.Length :: levels[k] == was[k]
      invariant currentLevel == RepairedDepth(was, i)
      invariant changesMade == Differences(was, repaired, i)
    {
      RepairedDepthIsPositive(was, i);
      NormalizedAt(was, i);
      var originalLevel := levels[i];
      var newLevel;
      if originalLevel == 1 {
        newLevel := 1;
        currentLevel := 1;
      } else if originalLevel <= currentLevel + 1 {
        newLevel := originalLevel;
        currentLevel := Max(currentLevel, originalLevel);
      } else {
        newLevel := currentLevel + 1;
        currentLevel := newLevel;
      }
      if originalLevel != newLevel {
        levels[i] := newLevel;
        changesMade := changesMade + 1;
      }
      i := i + 1;
    }
    assert levels[..] == repaired;
    NormalizedIsGreatest(was);
  }

  /** analyze_headings: counts gaps and changes nothing. */
  method AnalyzeHeadings(levels: array<int>) returns (issues: nat)
    requires AreLevels(levels[..])
    ensures issues == Issues(levels[..], levels.Length)
  {
    var currentLevel := 0;
    issues := 0;
    var i := 0;
    while i < levels.Length
      invariant 0 <= i <= levels.Length
      invariant currentLevel == Deepest(levels[..], i)
      invariant issues == Issues(levels[..], i)
    {
      var level := levels[i];
      if level > currentLevel + 1 && currentLevel > 0 {
        issues := issues + 1;
      }
      currentLevel := if level != 1 then Max(currentLevel, level) else 1;
      i := i + 1;
    }
  }

  lemma {:induction false} RepairedDepthIsPositive(s: seq<int>, n: nat)
    requires AreLevels(s) && n <= |s|
    ensures 0 <= RepairedDepth(s, n) <= 6 && (0 < n ==> 1 <= RepairedDepth(s, n))
  {
    if n != 0 {
      RepairedDepthIsPositive(s, n - 1);
    }
  }

  lemma {:induction false} NormalizedUpToAt(s: seq<int>, n: nat, i: nat)
    requires i < n <= |s|
    ensures NormalizedUpTo(s, n)[i] == Repaired(RepairedDepth(s, i), s[i])
  {
    if i < n - 1 {
      NormalizedUpToAt(s, n - 1, i);
    }
  }

  lemma NormalizedAt(s: seq<int>, i: nat)
    requires i < |s|
    ensures Normalized(s)[i] == Repaired(RepairedDepth(s, i), s[i])
  {
    NormalizedUpToAt(s, |s|, i);
  }

  /** The depth the loop tracks is the depth of the outline it leaves behind. */
  lemma {:induction false} DepthOfNormalized(s: seq<int>, r: seq<int>, n: nat)
    requires |r| == |s| && n <= |s|
    requires forall i | 0 <= i < n :: r[i] == Repaired(RepairedDepth(s, i), s[i])
    ensures Deepest(r, n) == RepairedDepth(s, n)
  {
    if n != 0 {
      DepthOfNormalized(s, r, n - 1);
    }
  }

  /** The result is well nested and nowhere deeper than the input. */
  lemma NormalizedIsWellNested(s: seq<int>)
    requires AreLevels(s)
    ensures WellNested(Normalized(s)) && AtMost(Normalized(s), s) && AreLevels(Normalized(s))
  {
    var r := Normalized(s);
    forall i | 0 <= i < |s| ensures r[i] == Repaired(RepairedDepth(s, i), s[i]) {
      NormalizedAt(s, i);
    }
    forall i | 0 <= i < |s|
      ensures 1 <= r[i] <= Deepest(r, i) + 1 && r[i] <= s[i] && r[i] <= 6
    {
      DepthOfNormalized(s, r, i);
      RepairedDepthIsPositive(s, i);
    }
  }

  /** Any other well-nested outline below the input never reaches deeper than the result does. */
  lemma {:induction false} NormalizedDominates(s: seq<int>, v: seq<int>, n: nat)
    requires AreLevels(s) && WellNested(v) && AtMost(v, s) && n <= |s|
    ensures 0 <= Deepest(v, n) <= RepairedDepth(s, n)
  {
    if n != 0 {
      NormalizedDominates(s, v, n - 1);
      StepDominates(Deepest(v, n - 1), v[n - 1], RepairedDepth(s, n - 1), s[n - 1]);
    }
  }

  lemma StepDominates(dv: int, v: int, dr: int, level: int)
    requires 0 <= dv <= dr && 1 <= v <= dv + 1 && v <= level
    ensures v <= Repaired(dr, level) && Reached(dv, v) <= Reached(dr, Repaired(dr, level))
  {
  }

  lemma NormalizedIsGreatest(s: seq<int>)
    requires AreLevels(s)
    ensures IsGreatestWellNestedBelow(Normalized(s), s)
  {
    NormalizedIsWellNested(s);
    forall v | WellNested(v) && AtMost(v, s) ensures AtMost(v, Normalized(s)) {
      forall i | 0 <= i < |s| ensures v[i] <= Normalized(s)[i] {
        NormalizedAt(s, i);
        NormalizedDominates(s, v, i);
      }
    }
  }

  /** Nothing changes exactly when the outline was already well nested. */
  lemma UnchangedIffWellNested(s: seq<int>)
    requires AreLevels(s)
    ensures Normalized(s) == s <==> WellNested(s)
  {
    NormalizedIsGreatest(s);
    if WellNested(s) {
      assert AtMost(s, s);
      assert AtMost(s, Normalized(s));
      assert forall i | 0 <= i < |s| :: s[i] == Normalized(s)[i];
    }
  }

  lemma NormalizedIsIdempotent(s: seq<int>)
    requires AreLevels(s)
    ensures Normalized(Normalized(s)) == Normalized(s)
  {
    NormalizedIsWellNested(s);
    UnchangedIffWellNested(Normalized(s));
  }

  /** The first n headings are well nested exactly when they start with an h1 and the analyser is silent on them. */
  lemma {:induction false} SilentPrefix(s: seq<int>, n: nat)
    requires AreLevels(s) && n <= |s|
    ensures (forall i | 0 <= i < n :: s[i] <= Deepest(s, i) + 1) <==> Issues(s, n) == 0 && (0 < n ==> s[0] == 1)
    ensures 0 <= Deepest(s, n) && (0 < n ==> 1 <= Deepest(s, n))
  {
    if n != 0 {
      SilentPrefix(s, n - 1);
    }
  }

  /** The analyser agrees with the normaliser: silent with a leading h1 means, exactly, nothing to change. */
  lemma SilentIffUnchanged(s: seq<int>)
    requires AreLevels(s)
    ensures Issues(s, |s|) == 0 && (s != [] ==> s[0] == 1) <==> Normalized(s) == s
  {
    SilentPrefix(s, |s|);
    UnchangedIffWellNested(s);
  }

  /** After a normalising run the analyser has nothing to report. */
  lemma {:induction false} NormalizedIsSilent(s: seq<int>)
    requires AreLevels(s)
    ensures Issues(Normalized(s), |s|) == 0
  {
    NormalizedIsWellNested(s);
    SilentPrefix(Normalized(s), |s|);
  }

  /**
    The analyser never reports more gaps than the normaliser repairs. (It may report fewer:
    after a gap it takes the deeper level as reached.)
   */
  lemma {:induction false} IssuesAtMostChanges(s: seq<int>, n: nat)
    requires AreLevels(s) && n <= |s|
    ensures Issues(s, n) <= Differences(s, Normalized(s), n)
    ensures RepairedDepth(s, n) <= Deepest(s, n)
  {
    if n != 0 {
      IssuesAtMostChanges(s, n - 1);
      NormalizedAt(s, n - 1);
      RepairedDepthIsPositive(s, n - 1);
    }
  }

  /** The analyser reports a heading. */
  predicate Reported(s: seq<int>, i: nat)
    requires i < |s|
  {
    0 < Deepest(s, i) && Deepest(s, i) + 1 < s[i]
  }

  /** The normaliser changes a heading. */
  predicate Lifted(s: seq<int>, i: nat)
    requires i < |s|
  {
    RepairedDepth(s, i) + 1 < s[i]
  }

  /** As many gaps are reported as headings are repaired, exactly when every heading that is repaired is reported. */
  lemma {:induction false} CountsAgreeIff(s: seq<int>, n: nat)
    requires AreLevels(s) && n <= |s|
    ensures Issues(s, n) == Differences(s, Normalized(s), n)
      <==> (forall i | 0 <= i < n :: Lifted(s, i) ==> Reported(s, i))
  {
    if n != 0 {
      CountsAgreeIff(s, n - 1);
      IssuesAtMostChanges(s, n - 1);
      NormalizedAt(s, n - 1);
      RepairedDepthIsPositive(s, n - 1);
      assert s[n - 1] != Normalized(s)[n - 1] <==> Lifted(s, n - 1);
    }
  }

  /** h1, h4, h4: one reported gap, two repaired headings. */
  lemma AnalyserMayReportFewer()
    ensures Issues([1, 4, 4], 3) == 1 && Normalized([1, 4, 4]) == [1, 2, 3]
  {
    var s := [1, 4, 4];
    assert Deepest(s, 1) == 1 && Deepest(s, 2) == 4;
    assert Issues(s, 1) == 0 && Issues(s, 2) == 1;
    assert RepairedDepth(s, 1) == 1 && RepairedDepth(s, 2) == 2;
  }
}
