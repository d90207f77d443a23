/**
  The job itself (CitationScanBibliographyJob::handle): the pool, the counters and the results as its loops change them.
 */
module ScanJob {
  import opened Common
  import opened ScanPool

  class CitationScanBibliographyJob {
    var pool: seq<Item>
    var alreadyLinked: nat
    var newlyResolved: nat
    var enrichedExisting: nat
    var failedToResolve: nat
    var results: seq<Result>

    constructor ()
      ensures Now() == State([], 0, 0, 0, 0, [])
    {
      pool, results := [], [];
      alreadyLinked, newlyResolved, enrichedExisting, failedToResolve := 0, 0, 0, 0;
    }

    ghost function Now(): State
      reads this
    {
      State(pool, alreadyLinked, newlyResolved, enrichedExisting, failedToResolve, results)
    }

    /** One scan over the entries of a book; false when it dies in the re-scoring. */
    method Handle(entries: seq<Entry>, elsewhere: set<string>, waves: seq<Wave>) returns (completed: bool)
      requires Now() == State([], 0, 0, 0, 0, [])
      modifies this
      ensures completed <==> Scan(entries, elsewhere, waves).Some?
      ensures completed ==> Now() == Scan(entries, elsewhere, waves).value
    {
      var needsResolution := SeparateEntries(entries, elsewhere);
      if needsResolution == [] {
        EmptyPoolStays(Start(entries, elsewhere), waves);
        return true;
      }
      BuildPool(needsResolution);
      ghost var start := Now();
      var i := 0;
      while i < |waves|
        invariant 0 <= i <= |waves|
        invariant AfterWaves(start, waves[..i]) == Some(Now())
      {
        assert waves[..i + 1][..i] == waves[..i];
        var alive := RunWave(waves[i]);
        if !alive {
          DeadStaysDead(start, waves, i + 1);
          return false;
        }
        i := i + 1;
      }
      assert waves[..i] == waves;
      MarkRemaining();
      completed := true;
    }

    /** Already linked entries get their result at once; the others are to be resolved. */
    method SeparateEntries(entries: seq<Entry>, elsewhere: set<string>) returns (needs: seq<Entry>)
      requires alreadyLinked == 0 && results == []
      modifies this
      ensures needs == ToResolve(entries, elsewhere)
      ensures Now() == old(Now()).(already := |LinkedOnes(entries)|, results := LinkedOnes(entries))
    {
      needs := [];
      var i := 0;
      while i < |entries|
        invariant 0 <= i <= |entries|
        invariant needs == ToResolve(entries[..i], elsewhere)
        invariant Now() == old(Now()).(already := |LinkedOnes(entries[..i])|, results := LinkedOnes(entries[..i]))
      {
        assert entries[..i + 1][..i] == entries[..i];
        var entry := entries[i];
        if entry.sourceId != None && !Empty(entry.foundationSource) {
          results := results + [Result(Item(entry.id, true, None), AlreadyLinked)];
          alreadyLinked := alreadyLinked + 1;
        } else if entry.id !in elsewhere {
          needs := needs + [entry];
        }
        i := i + 1;
      }
      assert entries[..i] == entries;
    }

    /** References first, then the sub-citations of each, copied from it. */
    method BuildPool(needs: seq<Entry>)
      modifies this`pool
      ensures pool == PoolOf(needs)
    {
      pool := [];
      var i := 0;
      while i < |needs|
        invariant 0 <= i <= |needs|
        invariant pool == Parents(needs[..i])
      {
        assert needs[..i + 1][..i] == needs[..i];
        pool := pool + [Item(needs[i].id, needs[i].sourceId != None, None)];
        i := i + 1;
      }
      assert needs[..i] == needs;
      var subs := [];
      i := 0;
      while i < |needs|
        invariant 0 <= i <= |needs|
        invariant subs == AllSubs(needs[..i]) && pool == Parents(needs)
      {
        assert needs[..i + 1][..i] == needs[..i];
        var expanded := ExpandSubs(needs[i]);
        subs := subs + expanded;
        i := i + 1;
      }
      assert needs[..i] == needs;
      pool := pool + subs;
    }

    static method ExpandSubs(entry: Entry) returns (subs: seq<Item>)
      ensures subs == SubsOf(entry, |entry.subs|)
    {
      subs := [];
      var k := 0;
      while k < |entry.subs|
        invariant 0 <= k <= |entry.subs|
        invariant subs == SubsOf(entry, k)
      {
        if entry.subs[k] {
          subs := subs + [Item(SubKey(entry.id, k), entry.sourceId != None, Some(entry.id))];
        }
        k := k + 1;
      }
    }

    method RunWave(wave: Wave) returns (alive: bool)
      modifies this
      ensures alive <==> AfterWave(old(Now()), wave).Some?
      ensures alive ==> Now() == AfterWave(old(Now()), wave).value
    {
      alive := true;
      if wave.Batch? {
        RunBatch(wave.answers);
      } else if wave.Snapshot? {
        RunSnapshot(wave.verdicts);
      } else {
        alive := RunRescore(wave.verdicts);
      }
    }

    /** Answers by reference; one whose reference has left the pool is dropped. */
    method RunBatch(answers: seq<Answer>)
      modifies this
      ensures Now() == AfterBatch(old(Now()), answers)
    {
      var i := 0;
      while i < |answers|
        invariant 0 <= i <= |answers|
        invariant Now() == AfterBatch(old(Now()), answers[..i])
      {
        assert answers[..i + 1][..i] == answers[..i];
        var entry := Find(pool, answers[i].id);
        if entry.Some? {
          SettleEntry(entry.value, answers[i].verdict);
        }
        i := i + 1;
      }
      assert answers[..i] == answers;
    }

    /** A walk over the pool as it was at the start. */
    method RunSnapshot(verdicts: string -> Verdict)
      modifies this
      ensures Now() == AfterSnapshot(old(Now()), old(pool), verdicts)
    {
      var items := pool;
      var i := 0;
      while i < |items|
        invariant 0 <= i <= |items|
        invariant Now() == AfterSnapshot(old(Now()), items[..i], verdicts)
      {
        assert items[..i + 1][..i] == items[..i];
        SettleEntry(items[i], verdicts(items[i].id));
        i := i + 1;
      }
      assert items[..i] == items;
    }

    /** The same walk, but each match reads the pool again; a match that is not there any more ends the job. */
    method RunRescore(verdicts: string -> Verdict) returns (alive: bool)
      modifies this
      ensures alive <==> AfterRescore(old(Now()), old(pool), verdicts).Some?
      ensures alive ==> Now() == AfterRescore(old(Now()), old(pool), verdicts).value
    {
      var items := pool;
      var i := 0;
      while i < |items|
        invariant 0 <= i <= |items|
        invariant AfterRescore(old(Now()), items[..i], verdicts) == Some(Now())
      {
        assert items[..i + 1][..i] == items[..i];
        var verdict := verdicts(items[i].id);
        if verdict != Miss {
          var entry := Find(pool, items[i].id);
          if entry == None {
            LostWalkStaysLost(old(Now()), items, verdicts, i + 1);
            return false;
          }
          SettleEntry(entry.value, verdict);
        }
        i := i + 1;
      }
      assert items[..i] == items;
      alive := true;
    }

    /** What each wave does with a match: a result, a counter, and the family leaves the pool. */
    method SettleEntry(item: Item, verdict: Verdict)
      modifies this
      ensures Now() == Settle(old(Now()), item, verdict)
    {
      if verdict == Miss {
        return;
      }
      var status := if verdict == StubFailed then Error else if item.isLinked then Enriched else NewlyResolved;
      results := results + [Result(item, status)];
      if status == NewlyResolved {
        newlyResolved := newlyResolved + 1;
      } else if status == Enriched {
        enrichedExisting := enrichedExisting + 1;
      } else {
        failedToResolve := failedToResolve + 1;
      }
      RemoveRelatedPoolEntries(item.id);
    }

    method RemoveRelatedPoolEntries(resolvedRefId: string)
      modifies this`pool
      ensures pool == RemoveRelated(old(pool), resolvedRefId)
    {
      var entry := Find(pool, resolvedRefId);
      var base := if entry.Some? && entry.value.parent.Some? then entry.value.parent.value else resolvedRefId;
      assert base == BaseIn(pool, resolvedRefId);
      ghost var keep := (it: Item) => !Related(it, resolvedRefId, base);
      var kept := [];
      var i := 0;
      while i < |pool|
        invariant 0 <= i <= |pool| && pool == old(pool)
        invariant kept == Where(pool[..i], keep)
      {
        assert pool[..i + 1][..i] == pool[..i];
        if pool[i].id != resolvedRefId && pool[i].parent != Some(base) && pool[i].id != base {
          kept := kept + [pool[i]];
        }
        i := i + 1;
      }
      assert pool[..i] == pool;
      pool := kept;
    }

    /** Whatever is left is a no_match, except what is named like a sub-citation. */
    method MarkRemaining()
      modifies this
      ensures Now() == Finish(old(Now()))
    {
      var i := 0;
      while i < |pool|
        invariant 0 <= i <= |pool| && pool == old(pool)
        invariant Now() == old(Now()).(
          failed := old(failedToResolve) + |NoMatches(pool[..i])|, results := old(results) + NoMatches(pool[..i]))
      {
        assert pool[..i + 1][..i] == pool[..i];
        if !HasSubMark(pool[i].id) {
          results := results + [Result(pool[i], NoMatch)];
          failedToResolve := failedToResolve + 1;
        }
        i := i + 1;
      }
      assert pool[..i] == pool;
    }
  }

  lemma {:induction false} NoAnswerTaken(s: State, answers: seq<Answer>)
    requires s.pool == []
    ensures AfterBatch(s, answers) == s
  {
    if answers != [] {
      NoAnswerTaken(s, answers[..|answers| - 1]);
    }
  }

  lemma {:induction false} EmptyPoolStays(s: State, waves: seq<Wave>)
    requires s.pool == []
    ensures AfterWaves(s, waves) == Some(s) && Finish(s) == s
  {
    if waves != [] {
      var n := |waves| - 1;
      EmptyPoolStays(s, waves[..n]);
      if waves[n].Batch? {
        NoAnswerTaken(s, waves[n].answers);
      }
    } else {
      assert s.results + NoMatches([]) == s.results;
    }
  }

  lemma {:induction false} DeadStaysDead(s: State, waves: seq<Wave>, i: nat)
    requires i <= |waves| && AfterWaves(s, waves[..i]) == None
    ensures AfterWaves(s, waves) == None
    decreases |waves| - i
  {
    if i == |waves| {
      assert waves[..i] == waves;
    } else {
      assert waves[..i + 1][..i] == waves[..i];
      DeadStaysDead(s, waves, i + 1);
    }
  }

  lemma {:induction false} LostWalkStaysLost(s: State, items: seq<Item>, verdicts: string -> Verdict, i: nat)
    requires i <= |items| && AfterRescore(s, items[..i], verdicts) == None
    ensures AfterRescore(s, items, verdicts) == None
    decreases |items| - i
  {
    if i == |items| {
      assert items[..i] == items;
    } else {
      assert items[..i + 1][..i] == items[..i];
      LostWalkStaysLost(s, items, verdicts, i + 1);
    }
  }
}
