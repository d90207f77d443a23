/** The totals of a whole citation scan, from the entries it fetched to the counters it saves. */
module ScanConservation {
  import opened Common
  import opened ScanPool
  import opened ScanCounts
  import Decimal

  ghost predicate DistinctEntries(es: seq<Entry>) {
    forall i, j | 0 <= i < j < |es| :: es[i].id != es[j].id
  }

  /** No reference has the id generated for a sub-citation, which would put two entries under one key of the pool. */
  ghost predicate NoCollisions(es: seq<Entry>) {
    forall e | e in es :: forall k | 0 <= k < |e.subs| && e.subs[k] :: SubKey(e.id, k) !in IdsOf(es)
  }

  ghost predicate NoSubCitations(es: seq<Entry>) {
    forall e | e in es :: forall k | 0 <= k < |e.subs| :: !e.subs[k]
  }

  function IdsOf(es: seq<Entry>): set<string> {
    set e | e in es :: e.id
  }

  // The pool a scan starts from.

  lemma SubKeyIsInjective(a: string, j: nat, b: string, k: nat)
    requires SubKey(a, j) == SubKey(b, k)
    ensures a == b && j == k
  {
    var s := SubKey(a, j);
    MarkIsLast(a, j);
    MarkIsLast(b, k);
    assert |a| == |b|;
    assert s[..|a|] == a && s[..|b|] == b;
    assert s[|a| + 5..] == Decimal.Print(j + 1) && s[|b| + 5..] == Decimal.Print(k + 1);
    Decimal.PrintIsInjective(j + 1, k + 1);
  }

  /** The second colon of the mark is the last one in a sub-citation's id. */
  lemma MarkIsLast(id: string, k: nat)
    ensures var s := SubKey(id, k);
      |id| + 5 < |s| && s[|id| + 1] == ':' && forall i | |id| + 1 < i < |s| :: s[i] != ':'
  {
    var s, digits := SubKey(id, k), Decimal.Print(k + 1);
    forall i | |id| + 1 < i < |s| ensures s[i] != ':' {
      if i < |id| + 5 {
        assert s[i] == SUB_MARK[i - |id|];
      } else {
        assert s[i] == digits[i - |id| - 5] && digits[i - |id| - 5] in digits;
      }
    }
  }

  lemma SubKeyIsMarked(id: string, k: nat)
    ensures HasSubMark(SubKey(id, k))
  {
    assert SUB_MARK <= SubKey(id, k)[|id|..];
  }

  lemma {:induction false} ParentAt(needs: seq<Entry>, i: nat)
    requires i < |needs|
    ensures |Parents(needs)| == |needs| && Parents(needs)[i] == ItemOf(needs[i])
  {
    var n := |needs| - 1;
    if i < n {
      ParentAt(needs[..n], i);
    } else {
      ParentsLength(needs[..n]);
    }
  }

  lemma {:induction false} ParentsLength(needs: seq<Entry>)
    ensures |Parents(needs)| == |needs|
  {
    if needs != [] {
      ParentsLength(needs[..|needs| - 1]);
    }
  }

  lemma {:induction false} ParentMembers(needs: seq<Entry>)
    ensures forall it :: it in Parents(needs) <==> exists e :: e in needs && it == ItemOf(e)
  {
    if needs != [] {
      var n := |needs| - 1;
      assert needs == needs[..n] + [needs[n]];
      ParentMembers(needs[..n]);
    }
  }

  lemma ParentsDistinct(needs: seq<Entry>)
    requires DistinctEntries(needs)
    ensures DistinctItems(Parents(needs))
  {
    ParentsLength(needs);
    forall i, j | 0 <= i < j < |needs| ensures Parents(needs)[i].id != Parents(needs)[j].id {
      ParentAt(needs, i);
      ParentAt(needs, j);
    }
  }

  ghost predicate IsSubOf(it: Item, e: Entry, k: nat) {
    k < |e.subs| && e.subs[k] && it == Item(SubKey(e.id, k), e.sourceId != None, Some(e.id))
  }

  lemma {:induction false} SubOf(e: Entry, k: nat, it: Item) returns (j: nat)
    requires k <= |e.subs| && it in SubsOf(e, k)
    ensures j < k && IsSubOf(it, e, j)
  {
    if it in SubsOf(e, k - 1) {
      j := SubOf(e, k - 1, it);
    } else {
      j := k - 1;
    }
  }

  lemma {:induction false} SubIn(needs: seq<Entry>, it: Item) returns (e: Entry, j: nat)
    requires it in AllSubs(needs)
    ensures e in needs && IsSubOf(it, e, j)
  {
    var last := needs[|needs| - 1];
    if it in AllSubs(needs[..|needs| - 1]) {
      e, j := SubIn(needs[..|needs| - 1], it);
    } else {
      e := last;
      j := SubOf(last, |last.subs|, it);
    }
  }

  lemma {:induction false} SubsDistinct(e: Entry, k: nat)
    requires k <= |e.subs|
    ensures DistinctItems(SubsOf(e, k))
  {
    if k > 0 {
      SubsDistinct(e, k - 1);
      forall x | x in SubsOf(e, k - 1) ensures x.id != SubKey(e.id, k - 1) {
        var j := SubOf(e, k - 1, x);
        if x.id == SubKey(e.id, k - 1) {
          SubKeyIsInjective(e.id, j, e.id, k - 1);
        }
      }
    }
  }

  lemma {:induction false} AllSubsDistinct(needs: seq<Entry>)
    requires DistinctEntries(needs)
    ensures DistinctItems(AllSubs(needs))
  {
    if needs != [] {
      var n := |needs| - 1;
      var last := needs[n];
      AllSubsDistinct(needs[..n]);
      SubsDistinct(last, |last.subs|);
      forall x, y | x in AllSubs(needs[..n]) && y in SubsOf(last, |last.subs|) ensures x.id != y.id {
        var e, j := SubIn(needs[..n], x);
        var k := SubOf(last, |last.subs|, y);
        if x.id == y.id {
          SubKeyIsInjective(e.id, j, last.id, k);
        }
      }
    }
  }

  lemma SubIsNoReference(needs: seq<Entry>, it: Item)
    requires NoCollisions(needs) && it in AllSubs(needs)
    ensures it.id !in IdsOf(needs) && HasSubMark(it.id) && it.parent.Some?
    ensures it.Base() in IdsOf(needs) && exists p :: p in Parents(needs) && p.id == it.Base() && p.parent == None
  {
    var e, k := SubIn(needs, it);
    SubKeyIsMarked(e.id, k);
    ParentMembers(needs);
    assert ItemOf(e) in Parents(needs);
  }

  /** The pool's families are the entries to resolve, provided no reference has a generated id. */
  lemma PoolIsWellFormed(needs: seq<Entry>)
    requires DistinctEntries(needs) && NoCollisions(needs)
    ensures WellFormed(PoolOf(needs)) && SubsMarked(PoolOf(needs)) && AllBases(PoolOf(needs)) == IdsOf(needs)
  {
    var parents, subs, pool := Parents(needs), AllSubs(needs), PoolOf(needs);
    ParentMembers(needs);
    ParentsDistinct(needs);
    AllSubsDistinct(needs);
    forall it | it in subs
      ensures it.id !in IdsOf(needs) && HasSubMark(it.id) && it.parent.Some?
      ensures it.Base() in IdsOf(needs) && exists p :: p in parents && p.id == it.Base() && p.parent == None
    {
      SubIsNoReference(needs, it);
    }
    forall id | id in IdsOf(needs) ensures id in AllBases(pool) {
      var e :| e in needs && e.id == id;
      assert ItemOf(e) in pool;
    }
  }

  /** Ids without the mark cannot collide. */
  lemma UnmarkedDoNotCollide(es: seq<Entry>)
    requires forall e | e in es :: !HasSubMark(e.id)
    ensures NoCollisions(es)
  {
    forall e, k | e in es && 0 <= k < |e.subs| && e.subs[k] ensures SubKey(e.id, k) !in IdsOf(es) {
      SubKeyIsMarked(e.id, k);
    }
  }

  // The entries.

  /** The unresolved entries another treatment has taken out. */
  function TakenOut(entries: seq<Entry>, elsewhere: set<string>): nat {
    if entries == [] then 0
    else
      var last := entries[|entries| - 1];
      TakenOut(entries[..|entries| - 1], elsewhere) + if !Resolved(last) && last.id in elsewhere then 1 else 0
  }

  lemma {:induction false} EntriesSplit(entries: seq<Entry>, elsewhere: set<string>)
    ensures |LinkedOnes(entries)| + |ToResolve(entries, elsewhere)| + TakenOut(entries, elsewhere) == |entries|
  {
    if entries != [] {
      EntriesSplit(entries[..|entries| - 1], elsewhere);
    }
  }

  lemma {:induction false} ToResolveMembers(entries: seq<Entry>, elsewhere: set<string>)
    ensures forall e :: e in ToResolve(entries, elsewhere) <==> e in entries && !Resolved(e) && e.id !in elsewhere
    ensures DistinctEntries(entries) ==> DistinctEntries(ToResolve(entries, elsewhere))
  {
    if entries != [] {
      var n := |entries| - 1;
      ToResolveMembers(entries[..n], elsewhere);
      assert entries == entries[..n] + [entries[n]];
      if DistinctEntries(entries) {
        var before := ToResolve(entries[..n], elsewhere);
        assert forall i | 0 <= i < |before| :: before[i] in before;
      }
    }
  }

  lemma {:induction false} DistinctEntriesCount(es: seq<Entry>)
    requires DistinctEntries(es)
    ensures |IdsOf(es)| == |es|
  {
    if es == [] {
      assert IdsOf(es) == {};
    } else {
      var n := |es| - 1;
      DistinctEntriesCount(es[..n]);
      assert es == es[..n] + [es[n]];
      assert IdsOf(es) == IdsOf(es[..n]) + {es[n].id};
    }
  }

  lemma {:induction false} LinkedAreTallied(entries: seq<Entry>)
    ensures var rs := LinkedOnes(entries);
      && Count(rs, AlreadyLinked) == |rs| && Count(rs, NewlyResolved) == 0 && Count(rs, Enriched) == 0
      && Count(rs, Error) == 0 && Count(rs, NoMatch) == 0
  {
    if entries != [] {
      var n := |entries| - 1;
      LinkedAreTallied(entries[..n]);
      if Resolved(entries[n]) {
        var r := Result(Item(entries[n].id, true, None), AlreadyLinked);
      } else {
        assert LinkedOnes(entries) == LinkedOnes(entries[..n]);
      }
    }
  }

  lemma StartDrains(entries: seq<Entry>, elsewhere: set<string>)
    ensures var s := Start(entries, elsewhere);
      Draining(s, s.pool, |s.results|) && Once(s.results[|s.results|..])
  {
    var s := Start(entries, elsewhere);
    LinkedAreTallied(entries);
    assert s.results[|s.results|..] == [];
    assert BasesOf([]) == {};
    WhereAll(s.pool, (it: Item) => it.Base() !in BasesOf([]));
  }

  // The theorems.

  /** Each of these references has exactly one result in its family, and there are no other results. */
  ghost predicate OneResultEach(rs: seq<Result>, ids: set<string>) {
    Once(rs) && BasesOf(rs) == ids
  }

  /**
    A scan completes, and its counters add up to the entries it did not hand to another treatment and did not skip for
    the mark in their id, exactly when each walk over the pool matches each reference's family at most once. Then every
    such reference has exactly one result in its family.
   */
  lemma ScanConservesIff(entries: seq<Entry>, elsewhere: set<string>, waves: seq<Wave>)
    requires DistinctEntries(entries) && NoCollisions(ToResolve(entries, elsewhere))
    ensures var after, end := AfterWaves(Start(entries, elsewhere), waves), Scan(entries, elsewhere, waves);
      end.Some? && end.value.Sum() + |Skipped(after.value.pool)| + TakenOut(entries, elsewhere) == |entries|
      <==> EachWalkHitsOnce(Start(entries, elsewhere), waves)
    ensures EachWalkHitsOnce(Start(entries, elsewhere), waves) ==>
      var after, end := AfterWaves(Start(entries, elsewhere), waves), Scan(entries, elsewhere, waves);
      var k := |LinkedOnes(entries)|;
      && end.Some? && k <= |end.value.results|
      && OneResultEach(end.value.results[k..], IdsOf(ToResolve(entries, elsewhere)) - Skipped(after.value.pool))
  {
    var start := Start(entries, elsewhere);
    var needs := ToResolve(entries, elsewhere);
    var k := |start.results|;
    ToResolveMembers(entries, elsewhere);
    PoolIsWellFormed(needs);
    StartDrains(entries, elsewhere);
    WavesDrain(start, start.pool, k, waves);
    var after := AfterWaves(start, waves);
    if after.Some? {
      FinishSettlesTheRest(after.value, start.pool, k);
      SumIsTotal(entries, elsewhere, Finish(after.value), Skipped(after.value.pool));
    }
  }

  /** At the end the sum is right exactly when no family has two results. */
  lemma SumIsTotal(entries: seq<Entry>, elsewhere: set<string>, end: State, skipped: set<string>)
    requires DistinctEntries(entries) && Tallied(end) && |LinkedOnes(entries)| <= |end.results|
    requires skipped <= IdsOf(ToResolve(entries, elsewhere))
    requires BasesOf(end.results[|LinkedOnes(entries)|..]) == IdsOf(ToResolve(entries, elsewhere)) - skipped
    ensures Once(end.results[|LinkedOnes(entries)|..]) <==>
      end.Sum() + |skipped| + TakenOut(entries, elsewhere) == |entries|
  {
    ToResolveMembers(entries, elsewhere);
    DistinctEntriesCount(ToResolve(entries, elsewhere));
    OnceIffCounts(end.results[|LinkedOnes(entries)|..]);
    StatusesAddUp(end.results);
    EntriesSplit(entries, elsewhere);
  }

  lemma PoolOfOne(e: Entry, sub: Item)
    requires e.subs == [true] && sub == Item(SubKey(e.id, 0), e.sourceId != None, Some(e.id)) && !Resolved(e)
    ensures Start([e], {}) == State([ItemOf(e), sub], 0, 0, 0, 0, [])
  {
    assert [e][..0] == [];
    assert ToResolve([e], {}) == [e] && LinkedOnes([e]) == [];
    assert SubsOf(e, 0) == [] && SubsOf(e, 1) == [sub];
    assert Parents([e]) == [ItemOf(e)] && AllSubs([e]) == [sub];
  }

  lemma WalkOfTwo(s: State, a: Item, b: Item, verdicts: string -> Verdict)
    ensures AfterSnapshot(s, [a, b], verdicts) == Settle(Settle(s, a, verdicts(a.id)), b, verdicts(b.id))
  {
    assert [a, b][..1] == [a] && [a][..0] == [];
    assert AfterSnapshot(s, [a], verdicts) == Settle(s, a, verdicts(a.id));
  }

  lemma OneWave(s: State, wave: Wave)
    ensures AfterWaves(s, [wave]) == AfterWave(s, wave)
  {
    assert [wave][..0] == [];
    assert AfterWaves(s, []) == Some(s);
  }

  lemma HitIsNew(s: State, item: Item)
    requires !item.isLinked
    ensures Settle(s, item, Hit).newly == s.newly + 1
  {
  }

  /** One reference with one sub-citation, both matched by one walk, is counted as two newly resolved ones. */
  lemma SubCitationsMayCountTwice()
    ensures var end := Scan([Entry("r1", None, None, [true])], {}, [Snapshot(id => Hit)]);
      end.Some? && end.value.newly == 2
  {
    var e := Entry("r1", None, None, [true]);
    var sub := Item(SubKey("r1", 0), false, Some("r1"));
    var s := Start([e], {});
    PoolOfOne(e, sub);
    WalkOfTwo(s, ItemOf(e), sub, id => Hit);
    HitIsNew(s, ItemOf(e));
    HitIsNew(Settle(s, ItemOf(e), Hit), sub);
    OneWave(s, Snapshot(id => Hit));
  }

  // Without sub-citations.

  lemma {:induction false} NoSubsInPool(needs: seq<Entry>)
    requires NoSubCitations(needs)
    ensures AllSubs(needs) == []
  {
    if needs != [] {
      var n := |needs| - 1;
      assert needs[n] in needs && forall e | e in needs[..n] :: e in needs;
      NoSubsInPool(needs[..n]);
      NoSubsOf(needs[n], |needs[n].subs|);
    }
  }

  lemma {:induction false} NoSubsOf(e: Entry, k: nat)
    requires k <= |e.subs| && forall j | 0 <= j < |e.subs| :: !e.subs[j]
    ensures SubsOf(e, k) == []
  {
    if k > 0 {
      NoSubsOf(e, k - 1);
    }
  }

  /** A pool of references only, each a family of its own. */
  ghost predicate Flat(pool: seq<Item>) {
    DistinctItems(pool) && forall it | it in pool :: it.parent == None
  }

  lemma FlatHitsOnce(pool: seq<Item>, gone: set<string>, verdicts: string -> Verdict)
    requires Flat(pool)
    ensures HitsOnce(Left(pool, gone), verdicts)
  {
    var left := Left(pool, gone);
    WhereDistinct(pool, (it: Item) => it.Base() !in gone);
    WhereMembers(pool, (it: Item) => it.Base() !in gone);
    forall i, j | 0 <= i < j < |left| ensures left[i].Base() != left[j].Base() {
      assert left[i] in left && left[j] in left;
    }
  }

  lemma {:induction false} FlatWalks(s: State, pool: seq<Item>, k: nat, waves: seq<Wave>)
    requires Flat(pool) && Draining(s, pool, k) && Once(s.results[k..])
    ensures EachWalkHitsOnce(s, waves)
  {
    if waves != [] {
      var n := |waves| - 1;
      FlatWalks(s, pool, k, waves[..n]);
      WavesDrain(s, pool, k, waves[..n]);
      var t := AfterWaves(s, waves[..n]).value;
      if Walks(waves[n]) {
        FlatHitsOnce(pool, BasesOf(t.results[k..]), waves[n].verdicts);
      }
    }
  }

  function Marked(pool: seq<Item>): seq<Item> {
    Where(pool, (it: Item) => HasSubMark(it.id))
  }

  lemma {:induction false} NoMatchOrMarked(pool: seq<Item>)
    ensures |NoMatches(pool)| + |Marked(pool)| == |pool|
  {
    if pool != [] {
      NoMatchOrMarked(pool[..|pool| - 1]);
    }
  }

  lemma OneMoreShared(bases: set<string>, x: string, gone: set<string>)
    requires x !in bases
    ensures |(bases + {x}) * gone| == |bases * gone| + if x in gone then 1 else 0
  {
    assert (bases + {x}) * gone == bases * gone + (if x in gone then {x} else {});
  }

  lemma FlatSnoc(pool: seq<Item>)
    requires Flat(pool) && pool != []
    ensures var n := |pool| - 1;
      && Flat(pool[..n]) && AllBases(pool) == AllBases(pool[..n]) + {pool[n].id}
      && pool[n].id !in AllBases(pool[..n]) && pool[n].Base() == pool[n].id
  {
    var n := |pool| - 1;
    LastIsNew(pool);
    assert pool == pool[..n] + [pool[n]];
    assert pool[n] in pool && pool[n].Base() == pool[n].id;
    assert forall it | it in pool[..n] :: it in pool && it.Base() == it.id;
  }

  lemma {:induction false} FlatLeftCount(pool: seq<Item>, gone: set<string>)
    requires Flat(pool)
    ensures |Left(pool, gone)| + |AllBases(pool) * gone| == |pool|
  {
    if pool == [] {
      assert AllBases(pool) * gone == {};
    } else {
      var n := |pool| - 1;
      FlatSnoc(pool);
      FlatLeftCount(pool[..n], gone);
      OneMoreShared(AllBases(pool[..n]), pool[n].id, gone);
    }
  }

  /** The sum falls short by the references that end up skipped as if they were sub-citations. */
  lemma FlatSum(s: State, pool: seq<Item>, k: nat)
    requires Flat(pool) && Draining(s, pool, k) && Once(s.results[k..])
    ensures Finish(s).Sum() + |Marked(s.pool)| == k + |pool|
  {
    var settled := s.results[k..];
    FinishTallies(s);
    StatusesAddUp(Finish(s).results);
    NoMatchOrMarked(s.pool);
    FlatLeftCount(pool, BasesOf(settled));
    assert AllBases(pool) * BasesOf(settled) == BasesOf(settled);
    OnceIffCounts(settled);
  }

  lemma FlatLeft(pool: seq<Item>, gone: set<string>)
    requires Flat(pool)
    ensures Flat(Left(pool, gone))
  {
    WhereDistinct(pool, (it: Item) => it.Base() !in gone);
    WhereMembers(pool, (it: Item) => it.Base() !in gone);
  }

  lemma FlatStart(entries: seq<Entry>, elsewhere: set<string>)
    requires DistinctEntries(entries) && NoSubCitations(entries)
    ensures var s := Start(entries, elsewhere);
      && Flat(s.pool) && |s.pool| == |ToResolve(entries, elsewhere)| && NoCollisions(ToResolve(entries, elsewhere))
      && Draining(s, s.pool, |s.results|) && Once(s.results[|s.results|..])
  {
    var needs := ToResolve(entries, elsewhere);
    ToResolveMembers(entries, elsewhere);
    NoSubsInPool(needs);
    ParentsDistinct(needs);
    ParentsLength(needs);
    ParentMembers(needs);
    assert PoolOf(needs) == Parents(needs);
    StartDrains(entries, elsewhere);
  }

  lemma FlatWaves(s: State, pool: seq<Item>, k: nat, waves: seq<Wave>)
    requires Flat(pool) && Draining(s, pool, k) && Once(s.results[k..])
    ensures EachWalkHitsOnce(s, waves) && AfterWaves(s, waves).Some?
    ensures var t := AfterWaves(s, waves).value;
      Draining(t, pool, k) && Once(t.results[k..]) && Flat(t.pool)
  {
    FlatWalks(s, pool, k, waves);
    WavesDrain(s, pool, k, waves);
    FlatLeft(pool, BasesOf(AfterWaves(s, waves).value.results[k..]));
  }

  /**
    Without sub-citations, whatever the waves answer: the scan completes, no reference is settled twice, and the
    counters add up to the entries not handed to another treatment - less the unresolved ones whose own id contains
    the mark of a sub-citation, which get no result.
   */
  lemma ScanWithoutSubsConserves(entries: seq<Entry>, elsewhere: set<string>, waves: seq<Wave>)
    requires DistinctEntries(entries) && NoSubCitations(entries)
    ensures var start := Start(entries, elsewhere);
      var after, end := AfterWaves(start, waves), Scan(entries, elsewhere, waves);
      && after.Some? && end.Some? && |LinkedOnes(entries)| <= |after.value.results|
      && Once(after.value.results[|LinkedOnes(entries)|..])
      && end.value.Sum() + |Marked(after.value.pool)| + TakenOut(entries, elsewhere) == |entries|
  {
    var start := Start(entries, elsewhere);
    var k := |start.results|;
    FlatStart(entries, elsewhere);
    FlatWaves(start, start.pool, k, waves);
    FlatSum(AfterWaves(start, waves).value, start.pool, k);
    EntriesSplit(entries, elsewhere);
  }

  lemma {:induction false} NothingTakenOut(entries: seq<Entry>)
    ensures TakenOut(entries, {}) == 0
  {
    if entries != [] {
      NothingTakenOut(entries[..|entries| - 1]);
    }
  }

  lemma NothingSkippedIff(pool: seq<Item>)
    requires Flat(pool)
    ensures Skipped(pool) == {} <==> forall it | it in pool :: !HasSubMark(it.id)
  {
    if Skipped(pool) == {} {
      forall it | it in pool ensures !HasSubMark(it.id) {
        assert it.id !in Skipped(pool);
      }
    }
  }

  /**
    A bibliography scan, whatever the waves answer: the counters add up exactly when no reference with the mark in its
    id is left unresolved, and each open reference that is not has exactly one result.
   */
  lemma BibliographyScanConserves(entries: seq<Entry>, waves: seq<Wave>)
    requires DistinctEntries(entries) && NoSubCitations(entries)
    ensures var after, end := AfterWaves(Start(entries, {}), waves), Scan(entries, {}, waves);
      var k := |LinkedOnes(entries)|;
      && end.Some? && k <= |end.value.results|
      && (end.value.Sum() == |entries| <==> forall it | it in after.value.pool :: !HasSubMark(it.id))
      && OneResultEach(end.value.results[k..], IdsOf(ToResolve(entries, {})) - Skipped(after.value.pool))
  {
    var start := Start(entries, {});
    FlatStart(entries, {});
    FlatWaves(start, start.pool, |start.results|, waves);
    ScanConservesIff(entries, {}, waves);
    NothingTakenOut(entries);
    NothingSkippedIff(AfterWaves(start, waves).value.pool);
  }
}
