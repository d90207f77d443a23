/**
  Conservation in a citation scan: when the four counters add up to the number of references, each reference
  has exactly one result, and nothing leaves the pool twice.
 */
module ScanCounts {
  import opened Common
  import opened ScanPool

  // Filters.

  lemma {:induction false} WhereMembers(pool: seq<Item>, keep: Item -> bool)
    ensures forall it :: it in Where(pool, keep) <==> it in pool && keep(it)
  {
    if pool != [] {
      var n := |pool| - 1;
      WhereMembers(pool[..n], keep);
      assert pool == pool[..n] + [pool[n]];
    }
  }

  lemma {:induction false} WhereTwice(pool: seq<Item>, first: Item -> bool, second: Item -> bool, both: Item -> bool)
    requires forall it | it in pool :: both(it) <==> first(it) && second(it)
    ensures Where(Where(pool, first), second) == Where(pool, both)
  {
    if pool != [] {
      var n := |pool| - 1;
      var last := pool[n];
      assert last in pool && forall it | it in pool[..n] :: it in pool;
      WhereTwice(pool[..n], first, second, both);
      if first(last) {
        var before := Where(pool[..n], first);
        assert (before + [last])[..|before|] == before;
      } else {
        assert Where(pool, first) == Where(pool[..n], first);
      }
    }
  }

  lemma {:induction false} WhereAll(pool: seq<Item>, keep: Item -> bool)
    requires forall i | 0 <= i < |pool| :: keep(pool[i])
    ensures Where(pool, keep) == pool
  {
    if pool != [] {
      WhereAll(pool[..|pool| - 1], keep);
    }
  }

  // Families.

  ghost predicate DistinctItems(pool: seq<Item>) {
    forall i, j | 0 <= i < j < |pool| :: pool[i].id != pool[j].id
  }

  /** Every sub-citation's reference is in the pool and is not itself a sub-citation; ids are distinct. */
  ghost predicate WellFormed(pool: seq<Item>) {
    && DistinctItems(pool)
    && forall it | it in pool && it.parent.Some? :: exists p :: p in pool && p.id == it.Base() && p.parent == None
  }

  /** The pool without the families that have gone. */
  function Left(pool: seq<Item>, gone: set<string>): seq<Item> {
    Where(pool, (it: Item) => it.Base() !in gone)
  }

  lemma SameItem(pool: seq<Item>, a: Item, b: Item)
    requires DistinctItems(pool) && a in pool && b in pool && a.id == b.id
    ensures a == b
  {
  }

  /** With distinct ids an entry of the pool is found under its id. */
  lemma FindOwn(pool: seq<Item>, gone: set<string>, item: Item)
    requires DistinctItems(pool) && item in pool
    ensures Find(Left(pool, gone), item.id) == if item.Base() in gone then None else Some(item)
  {
    var left := Left(pool, gone);
    WhereMembers(pool, (it: Item) => it.Base() !in gone);
    var found := Find(left, item.id);
    if found.Some? {
      SameItem(pool, found.value, item);
    }
  }

  /** The entries related to a member of a family that is still there are its family. */
  lemma RelatedIffSameBase(pool: seq<Item>, item: Item, it: Item)
    requires WellFormed(pool) && item in pool && it in pool
    ensures Related(it, item.id, item.Base()) <==> it.Base() == item.Base()
  {
    if it.id == item.id {
      SameItem(pool, it, item);
    } else if it.parent != Some(item.Base()) && it.id == item.Base() {
      assert item.parent.Some?;
      var p :| p in pool && p.id == item.Base() && p.parent == None;
      SameItem(pool, p, it);
    }
  }

  /** A member of a family that has gone is related to nothing that is left. */
  lemma NothingRelatedIsLeft(pool: seq<Item>, gone: set<string>, item: Item, it: Item)
    requires WellFormed(pool) && item in pool && it in pool && item.Base() in gone && it.Base() !in gone
    ensures !Related(it, item.id, item.id)
  {
    if it.id == item.id {
      SameItem(pool, it, item);
    }
    if it.parent == Some(item.id) {
      var p :| p in pool && p.id == item.id && p.parent == None;
      SameItem(pool, p, item);
    }
  }

  /** Removing an entry's relatives takes out its family as a whole, or nothing if that has gone already. */
  lemma RemovalTakesTheFamily(pool: seq<Item>, gone: set<string>, item: Item)
    requires WellFormed(pool) && item in pool
    ensures RemoveRelated(Left(pool, gone), item.id) == Left(pool, gone + {item.Base()})
  {
    FindOwn(pool, gone, item);
    var base := BaseIn(Left(pool, gone), item.id);
    forall it | it in pool
      ensures it.Base() !in gone + {item.Base()} <==> it.Base() !in gone && !Related(it, item.id, base)
    {
      if it.Base() !in gone {
        if item.Base() in gone {
          NothingRelatedIsLeft(pool, gone, item, it);
        } else {
          RelatedIffSameBase(pool, item, it);
        }
      }
    }
    WhereTwice(pool, (it: Item) => it.Base() !in gone, (it: Item) => !Related(it, item.id, base),
               (it: Item) => it.Base() !in gone + {item.Base()});
  }

  // Results.

  function BasesOf(rs: seq<Result>): set<string> {
    set r | r in rs :: r.item.Base()
  }

  /** No two results are of the same family. */
  ghost predicate Once(rs: seq<Result>) {
    forall i, j | 0 <= i < j < |rs| :: rs[i].item.Base() != rs[j].item.Base()
  }

  lemma BasesSnoc(rs: seq<Result>, r: Result)
    ensures BasesOf(rs + [r]) == BasesOf(rs) + {r.item.Base()}
  {
    assert r in rs + [r] && forall x | x in rs :: x in rs + [r];
  }

  lemma OnceSnoc(rs: seq<Result>, r: Result)
    ensures Once(rs + [r]) <==> Once(rs) && r.item.Base() !in BasesOf(rs)
  {
    var all := rs + [r];
    if Once(all) {
      forall i | 0 <= i < |rs| ensures rs[i].item.Base() != r.item.Base() {
        assert all[i] == rs[i] && all[|rs|] == r;
      }
      forall i, j | 0 <= i < j < |rs| ensures rs[i].item.Base() != rs[j].item.Base() {
        assert all[i] == rs[i] && all[j] == rs[j];
      }
    }
    if r.item.Base() !in BasesOf(rs) {
      forall i | 0 <= i < |rs| ensures rs[i].item.Base() != r.item.Base() {
        assert rs[i] in rs;
      }
    }
  }

  /** As many results as families exactly when no family has two. */
  lemma {:induction false} OnceIffCounts(rs: seq<Result>)
    ensures |BasesOf(rs)| <= |rs|
    ensures Once(rs) <==> |BasesOf(rs)| == |rs|
  {
    if rs != [] {
      var n := |rs| - 1;
      assert rs == rs[..n] + [rs[n]];
      OnceIffCounts(rs[..n]);
      BasesSnoc(rs[..n], rs[n]);
      OnceSnoc(rs[..n], rs[n]);
    }
  }

  function Count(rs: seq<Result>, status: Status): nat {
    if rs == [] then 0
    else Count(rs[..|rs| - 1], status) + if rs[|rs| - 1].status == status then 1 else 0
  }

  lemma CountSnoc(rs: seq<Result>, r: Result, status: Status)
    ensures Count(rs + [r], status) == Count(rs, status) + if r.status == status then 1 else 0
  {
    assert (rs + [r])[..|rs|] == rs;
  }

  /** Each counter counts the results of its kind. */
  ghost predicate Tallied(s: State) {
    && s.already == Count(s.results, AlreadyLinked)
    && s.newly == Count(s.results, NewlyResolved)
    && s.enriched == Count(s.results, Enriched)
    && s.failed == Count(s.results, Error) + Count(s.results, NoMatch)
  }

  lemma {:induction false} StatusesAddUp(rs: seq<Result>)
    ensures Count(rs, AlreadyLinked) + Count(rs, NewlyResolved) + Count(rs, Enriched)
            + Count(rs, Error) + Count(rs, NoMatch) == |rs|
  {
    if rs != [] {
      StatusesAddUp(rs[..|rs| - 1]);
    }
  }

  // What every step of every wave keeps.

  /** s is on its way from a pool: its results after the first k are of pool entries, whose families have gone. */
  ghost predicate Draining(s: State, pool: seq<Item>, k: nat) {
    && k <= |s.results|
    && Tallied(s)
    && (forall r | r in s.results[k..] :: r.item in pool)
    && s.pool == Left(pool, BasesOf(s.results[k..]))
  }

  lemma TallySnoc(s: State, t: State, r: Result)
    requires Tallied(s) && t.results == s.results + [r] && t.already == s.already && r.status != AlreadyLinked
    requires t.newly == s.newly + if r.status == NewlyResolved then 1 else 0
    requires t.enriched == s.enriched + if r.status == Enriched then 1 else 0
    requires t.failed == s.failed + if r.status == Error || r.status == NoMatch then 1 else 0
    ensures Tallied(t)
  {
    CountSnoc(s.results, r, AlreadyLinked);
    CountSnoc(s.results, r, NewlyResolved);
    CountSnoc(s.results, r, Enriched);
    CountSnoc(s.results, r, Error);
    CountSnoc(s.results, r, NoMatch);
  }

  lemma SettleDrains(s: State, pool: seq<Item>, k: nat, item: Item, verdict: Verdict)
    requires WellFormed(pool) && Draining(s, pool, k) && item in pool
    ensures var t := Settle(s, item, verdict);
      && Draining(t, pool, k)
      && BasesOf(t.results[k..]) == BasesOf(s.results[k..]) + (if verdict == Miss then {} else {item.Base()})
      && (Once(t.results[k..])
          <==> Once(s.results[k..]) && (verdict == Miss || item.Base() !in BasesOf(s.results[k..])))
  {
    if verdict != Miss {
      var t := Settle(s, item, verdict);
      var r := Result(item, StatusFor(item, verdict));
      var settled := s.results[k..];
      assert t.results[k..] == settled + [r];
      TallySnoc(s, t, r);
      BasesSnoc(settled, r);
      OnceSnoc(settled, r);
      RemovalTakesTheFamily(pool, BasesOf(settled), item);
      assert t.pool == Left(pool, BasesOf(t.results[k..]));
    }
  }

  lemma InLeft(pool: seq<Item>, gone: set<string>, item: Item)
    ensures item in Left(pool, gone) <==> item in pool && item.Base() !in gone
  {
    WhereMembers(pool, (it: Item) => it.Base() !in gone);
  }

  /** A batch of answers settles no family twice, whatever the answers are. */
  lemma {:induction false} BatchDrains(s: State, pool: seq<Item>, k: nat, answers: seq<Answer>)
    requires WellFormed(pool) && Draining(s, pool, k)
    ensures var t := AfterBatch(s, answers);
      Draining(t, pool, k) && (Once(t.results[k..]) <==> Once(s.results[k..]))
  {
    if answers != [] {
      var n := |answers| - 1;
      var t := AfterBatch(s, answers[..n]);
      BatchDrains(s, pool, k, answers[..n]);
      match Find(t.pool, answers[n].id)
      case None =>
      case Some(item) =>
        InLeft(pool, BasesOf(t.results[k..]), item);
        SettleDrains(t, pool, k, item, answers[n].verdict);
    }
  }

  /** No two matches of a walk are of the same family. */
  ghost predicate HitsOnce(items: seq<Item>, verdicts: string -> Verdict) {
    forall i, j | 0 <= i < j < |items| && verdicts(items[i].id) != Miss && verdicts(items[j].id) != Miss ::
      items[i].Base() != items[j].Base()
  }

  function HitBases(items: seq<Item>, verdicts: string -> Verdict): set<string> {
    set it | it in items && verdicts(it.id) != Miss :: it.Base()
  }

  lemma HitsSnoc(items: seq<Item>, last: Item, verdicts: string -> Verdict)
    ensures HitBases(items + [last], verdicts)
            == HitBases(items, verdicts) + (if verdicts(last.id) == Miss then {} else {last.Base()})
    ensures HitsOnce(items + [last], verdicts) <==>
      HitsOnce(items, verdicts) && (verdicts(last.id) == Miss || last.Base() !in HitBases(items, verdicts))
  {
    var all := items + [last];
    assert last in all && forall it | it in items :: it in all;
    if HitsOnce(all, verdicts) {
      forall i, j | 0 <= i < j < |items| && verdicts(items[i].id) != Miss && verdicts(items[j].id) != Miss
        ensures items[i].Base() != items[j].Base()
      {
        assert all[i] == items[i] && all[j] == items[j];
      }
      forall i | 0 <= i < |items| && verdicts(items[i].id) != Miss && verdicts(last.id) != Miss
        ensures items[i].Base() != last.Base()
      {
        assert all[i] == items[i] && all[|items|] == last;
      }
    }
    if last.Base() !in HitBases(items, verdicts) {
      forall i | 0 <= i < |items| && verdicts(items[i].id) != Miss ensures items[i].Base() != last.Base() {
        assert items[i] in items;
      }
    }
  }

  /** t is s after a walk over these items. */
  ghost predicate Walked(s: State, t: State, pool: seq<Item>, k: nat, items: seq<Item>, verdicts: string -> Verdict)
    requires k <= |s.results|
  {
    && Draining(t, pool, k)
    && BasesOf(t.results[k..]) == BasesOf(s.results[k..]) + HitBases(items, verdicts)
    && (Once(t.results[k..]) <==> Once(s.results[k..]) && HitsOnce(items, verdicts))
  }

  lemma WalkOneMore(
    s: State, t: State, pool: seq<Item>, k: nat, items: seq<Item>, last: Item, verdicts: string -> Verdict)
    requires WellFormed(pool) && k <= |s.results| && Walked(s, t, pool, k, items, verdicts)
    requires last in pool && last.Base() !in BasesOf(s.results[k..])
    ensures Walked(s, Settle(t, last, verdicts(last.id)), pool, k, items + [last], verdicts)
  {
    SettleDrains(t, pool, k, last, verdicts(last.id));
    HitsSnoc(items, last, verdicts);
    assert last.Base() in BasesOf(t.results[k..]) <==> last.Base() in HitBases(items, verdicts);
  }

  lemma NoWalk(s: State, pool: seq<Item>, k: nat, verdicts: string -> Verdict)
    requires Draining(s, pool, k)
    ensures Walked(s, s, pool, k, [], verdicts)
  {
    assert HitBases([], verdicts) == {};
  }

  lemma StillThere(s: State, pool: seq<Item>, k: nat, item: Item)
    requires Draining(s, pool, k) && item in s.pool
    ensures item in pool && item.Base() !in BasesOf(s.results[k..])
  {
    InLeft(pool, BasesOf(s.results[k..]), item);
  }

  lemma SnapshotStep(
    s: State, pool: seq<Item>, k: nat, items: seq<Item>, init: seq<Item>, last: Item, verdicts: string -> Verdict)
    requires WellFormed(pool) && Draining(s, pool, k) && items == init + [last] && last in s.pool
    requires Walked(s, AfterSnapshot(s, init, verdicts), pool, k, init, verdicts)
    ensures Walked(s, AfterSnapshot(s, items, verdicts), pool, k, items, verdicts)
  {
    assert items[..|items| - 1] == init;
    StillThere(s, pool, k, last);
    WalkOneMore(s, AfterSnapshot(s, init, verdicts), pool, k, init, last, verdicts);
  }

  /** A snapshot walk settles a family twice exactly when two of its matches are of one family. */
  lemma {:induction false} SnapshotDrains(
    s: State, pool: seq<Item>, k: nat, items: seq<Item>, verdicts: string -> Verdict)
    requires WellFormed(pool) && Draining(s, pool, k)
    requires forall i | 0 <= i < |items| :: items[i] in s.pool
    ensures Walked(s, AfterSnapshot(s, items, verdicts), pool, k, items, verdicts)
  {
    if items == [] {
      NoWalk(s, pool, k, verdicts);
    } else {
      var init, last := items[..|items| - 1], items[|items| - 1];
      assert items == init + [last];
      SnapshotDrains(s, pool, k, init, verdicts);
      SnapshotStep(s, pool, k, items, init, last, verdicts);
    }
  }

  /** The re-scoring walk is the same as long as no family matches twice, and dies when one does. */
  lemma {:induction false} RescoreIsSnapshotOrDies(
    s: State, pool: seq<Item>, k: nat, items: seq<Item>, verdicts: string -> Verdict)
    requires WellFormed(pool) && Draining(s, pool, k)
    requires forall i | 0 <= i < |items| :: items[i] in s.pool
    ensures AfterRescore(s, items, verdicts)
            == if HitsOnce(items, verdicts) then Some(AfterSnapshot(s, items, verdicts)) else None
  {
    if items != [] {
      var n := |items| - 1;
      var last := items[n];
      assert items == items[..n] + [last];
      RescoreIsSnapshotOrDies(s, pool, k, items[..n], verdicts);
      SnapshotDrains(s, pool, k, items[..n], verdicts);
      InLeft(pool, BasesOf(s.results[k..]), last);
      HitsSnoc(items[..n], last, verdicts);
      var t := AfterSnapshot(s, items[..n], verdicts);
      FindOwn(pool, BasesOf(t.results[k..]), last);
    }
  }

  // Whole runs.

  predicate Walks(wave: Wave) {
    wave.Snapshot? || wave.Rescore?
  }

  /** In every walk of the pool as it is then, no two matches are of one family. */
  ghost predicate EachWalkHitsOnce(s: State, waves: seq<Wave>) {
    waves != [] ==>
      var n := |waves| - 1;
      && EachWalkHitsOnce(s, waves[..n])
      && var t := AfterWaves(s, waves[..n]);
         (t.Some? && Walks(waves[n]) ==> HitsOnce(t.value.pool, waves[n].verdicts))
  }

  lemma WaveDrains(s: State, pool: seq<Item>, k: nat, wave: Wave)
    requires WellFormed(pool) && Draining(s, pool, k)
    ensures AfterWave(s, wave) == None <==> wave.Rescore? && !HitsOnce(s.pool, wave.verdicts)
    ensures AfterWave(s, wave).Some? ==>
      var t := AfterWave(s, wave).value;
      && Draining(t, pool, k)
      && (Once(t.results[k..]) <==> Once(s.results[k..]) && (Walks(wave) ==> HitsOnce(s.pool, wave.verdicts)))
  {
    match wave
    case Batch(answers) => BatchDrains(s, pool, k, answers);
    case Snapshot(verdicts) => SnapshotDrains(s, pool, k, s.pool, verdicts);
    case Rescore(verdicts) =>
      RescoreIsSnapshotOrDies(s, pool, k, s.pool, verdicts);
      SnapshotDrains(s, pool, k, s.pool, verdicts);
  }

  /** A scan gets through its waves without settling any family twice exactly when each walk hits each family once. */
  lemma {:induction false} WavesDrain(s: State, pool: seq<Item>, k: nat, waves: seq<Wave>)
    requires WellFormed(pool) && Draining(s, pool, k) && Once(s.results[k..])
    ensures EachWalkHitsOnce(s, waves) ==> AfterWaves(s, waves).Some?
    ensures AfterWaves(s, waves).Some? ==>
      var t := AfterWaves(s, waves).value;
      Draining(t, pool, k) && (Once(t.results[k..]) <==> EachWalkHitsOnce(s, waves))
  {
    if waves != [] {
      var n := |waves| - 1;
      WavesDrain(s, pool, k, waves[..n]);
      var before := AfterWaves(s, waves[..n]);
      if before.Some? {
        WaveDrains(before.value, pool, k, waves[n]);
      }
    }
  }

  // The end.

  /** Every sub-citation's id has the mark. */
  ghost predicate SubsMarked(pool: seq<Item>) {
    forall it | it in pool && it.parent.Some? :: HasSubMark(it.id)
  }

  /** The references of a pool that are taken for sub-citations, because their own id has the mark. */
  function Skipped(pool: seq<Item>): set<string> {
    set it | it in pool && it.parent == None && HasSubMark(it.id) :: it.id
  }

  function AllBases(pool: seq<Item>): set<string> {
    set it | it in pool :: it.Base()
  }

  lemma {:induction false} NoMatchMembers(pool: seq<Item>)
    ensures forall r :: r in NoMatches(pool) <==> r.status == NoMatch && r.item in pool && !HasSubMark(r.item.id)
  {
    if pool != [] {
      var n := |pool| - 1;
      NoMatchMembers(pool[..n]);
      assert pool == pool[..n] + [pool[n]];
    }
  }

  lemma LastIsNew(pool: seq<Item>)
    requires DistinctItems(pool) && pool != []
    ensures DistinctItems(pool[..|pool| - 1])
    ensures forall it | it in pool[..|pool| - 1] :: it.id != pool[|pool| - 1].id
  {
  }

  lemma {:induction false} NoMatchesOnce(pool: seq<Item>)
    requires DistinctItems(pool) && forall it | it in pool && !HasSubMark(it.id) :: it.parent == None
    ensures Once(NoMatches(pool))
  {
    if pool != [] {
      var n := |pool| - 1;
      var last := pool[n];
      LastIsNew(pool);
      assert pool == pool[..n] + [last];
      NoMatchesOnce(pool[..n]);
      NoMatchMembers(pool[..n]);
      if !HasSubMark(last.id) {
        assert forall r | r in NoMatches(pool[..n]) :: r.item.Base() == r.item.id;
        OnceSnoc(NoMatches(pool[..n]), Result(last, NoMatch));
      }
    }
  }

  lemma {:induction false} WhereDistinct(pool: seq<Item>, keep: Item -> bool)
    requires DistinctItems(pool)
    ensures DistinctItems(Where(pool, keep))
  {
    if pool != [] {
      var n := |pool| - 1;
      var before := Where(pool[..n], keep);
      LastIsNew(pool);
      WhereDistinct(pool[..n], keep);
      WhereMembers(pool[..n], keep);
      assert forall i | 0 <= i < |before| :: before[i] in before;
    }
  }

  lemma OnceConcat(a: seq<Result>, b: seq<Result>)
    requires BasesOf(a) !! BasesOf(b) && Once(b)
    ensures Once(a + b) <==> Once(a)
    ensures BasesOf(a + b) == BasesOf(a) + BasesOf(b)
  {
    var all := a + b;
    forall i, j | 0 <= i < |a| && 0 <= j < |b| ensures a[i].item.Base() != b[j].item.Base() {
      assert a[i].item.Base() in BasesOf(a) && b[j].item.Base() in BasesOf(b);
    }
    if Once(all) {
      forall i, j | 0 <= i < j < |a| ensures a[i].item.Base() != a[j].item.Base() {
        assert all[i] == a[i] && all[j] == a[j];
      }
    }
  }

  lemma SkippedBase(pool: seq<Item>, gone: set<string>, it: Item)
    requires WellFormed(pool) && it in Left(pool, gone) && !HasSubMark(it.id) && it.parent == None
    ensures it.Base() in AllBases(pool) - gone - Skipped(Left(pool, gone))
  {
    InLeft(pool, gone, it);
  }

  /** The references left over are the families that have not gone, each once, less those taken for sub-citations. */
  lemma NoMatchesAreTheRest(pool: seq<Item>, gone: set<string>)
    requires WellFormed(pool) && SubsMarked(pool)
    ensures Once(NoMatches(Left(pool, gone)))
    ensures BasesOf(NoMatches(Left(pool, gone))) == AllBases(pool) - gone - Skipped(Left(pool, gone))
  {
    var left := Left(pool, gone);
    var rest := NoMatches(left);
    WhereDistinct(pool, (it: Item) => it.Base() !in gone);
    WhereMembers(pool, (it: Item) => it.Base() !in gone);
    NoMatchesOnce(left);
    NoMatchMembers(left);
    forall base | base in AllBases(pool) - gone - Skipped(left) ensures base in BasesOf(rest) {
      var it :| it in pool && it.Base() == base;
      var p :| p in pool && p.id == base && p.parent == None;
      assert Result(p, NoMatch) in rest;
    }
    forall r | r in rest ensures r.item.Base() in AllBases(pool) - gone - Skipped(left) {
      SkippedBase(pool, gone, r.item);
    }
  }

  lemma {:induction false} TallyRest(s: State, rest: seq<Result>)
    requires Tallied(s) && forall r | r in rest :: r.status == NoMatch
    ensures Tallied(s.(failed := s.failed + |rest|, results := s.results + rest))
  {
    if rest == [] {
      assert s.results + [] == s.results;
    } else {
      var n := |rest| - 1;
      assert rest[n] in rest && forall r | r in rest[..n] :: r in rest;
      TallyRest(s, rest[..n]);
      var before := s.(failed := s.failed + n, results := s.results + rest[..n]);
      var after := s.(failed := s.failed + |rest|, results := s.results + rest);
      assert after.results == before.results + [rest[n]];
      TallySnoc(before, after, rest[n]);
    }
  }

  lemma RestAdded(settled: seq<Result>, rest: seq<Result>, bases: set<string>, skipped: set<string>)
    requires BasesOf(settled) <= bases && BasesOf(settled) !! skipped && Once(rest)
    requires BasesOf(rest) == bases - BasesOf(settled) - skipped
    ensures BasesOf(settled + rest) == bases - skipped && (Once(settled + rest) <==> Once(settled))
  {
    OnceConcat(settled, rest);
  }

  lemma SkippedHaveNotGone(pool: seq<Item>, gone: set<string>)
    ensures Skipped(Left(pool, gone)) !! gone && Skipped(Left(pool, gone)) <= AllBases(pool)
  {
    WhereMembers(pool, (it: Item) => it.Base() !in gone);
  }

  lemma FinishTallies(s: State)
    requires Tallied(s)
    ensures Tallied(Finish(s))
  {
    NoMatchMembers(s.pool);
    TallyRest(s, NoMatches(s.pool));
  }

  lemma ResultsAfterFinish(s: State, k: nat)
    requires k <= |s.results|
    ensures k <= |Finish(s).results| && Finish(s).results[k..] == s.results[k..] + NoMatches(s.pool)
  {
  }

  lemma FinishSettlesTheRest(s: State, pool: seq<Item>, k: nat)
    requires WellFormed(pool) && SubsMarked(pool) && Draining(s, pool, k)
    ensures Tallied(Finish(s)) && k <= |Finish(s).results|
    ensures BasesOf(Finish(s).results[k..]) == AllBases(pool) - Skipped(s.pool) && Skipped(s.pool) <= AllBases(pool)
    ensures Once(Finish(s).results[k..]) <==> Once(s.results[k..])
  {
    var settled := s.results[k..];
    FinishTallies(s);
    ResultsAfterFinish(s, k);
    NoMatchesAreTheRest(pool, BasesOf(settled));
    SettledBases(s, pool, k);
    SkippedHaveNotGone(pool, BasesOf(settled));
    RestAdded(settled, NoMatches(Left(pool, BasesOf(settled))), AllBases(pool), Skipped(s.pool));
  }

  lemma SettledBases(s: State, pool: seq<Item>, k: nat)
    requires Draining(s, pool, k)
    ensures BasesOf(s.results[k..]) <= AllBases(pool)
  {
  }
}
