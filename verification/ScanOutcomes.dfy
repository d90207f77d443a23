/**
  What each result of a whole citation scan says of its reference, whatever the waves answer; and where each entry of
  the pool stands at the start.
 */
module ScanOutcomes {
  import opened Common
  import opened ScanPool
  import opened ScanCounts
  import opened ScanConservation
  import Decimal

  /** Resolved before the scan. */
  predicate IsLinked(e: Entry) {
    e.sourceId != None && e.foundationSource !in {None, Some(""), Some("0")}
  }

  predicate IsReference(it: Item, e: Entry) {
    it == Item(e.id, e.sourceId != None, None)
  }

  predicate IsSubCitation(it: Item, e: Entry, k: nat) {
    k < |e.subs| && e.subs[k] && it == Item(e.id + "::sub" + Decimal.Print(k + 1), e.sourceId != None, Some(e.id))
  }

  /** The pool's entry is this reference, or one of its titled sub-citations. */
  ghost predicate IsOf(it: Item, e: Entry) {
    IsReference(it, e) || exists k: nat :: IsSubCitation(it, e, k)
  }

  ghost predicate SaidIn(wave: Wave, id: string, verdict: Verdict) {
    match wave
    case Batch(answers) => Answer(id, verdict) in answers
    case Snapshot(verdicts) => verdicts(id) == verdict
    case Rescore(verdicts) => verdicts(id) == verdict
  }

  /** Some wave has this verdict on the pool entry of this id. */
  ghost predicate Said(waves: seq<Wave>, id: string, verdict: Verdict) {
    exists wave :: wave in waves && SaidIn(wave, id, verdict)
  }

  /** What a result says of the entry it was made from. */
  ghost predicate Explains(r: Result, e: Entry, waves: seq<Wave>) {
    match r.status
    case AlreadyLinked => IsLinked(e) && r.item == Item(e.id, true, None)
    case NewlyResolved => !IsLinked(e) && IsOf(r.item, e) && e.sourceId == None && Said(waves, r.item.id, Hit)
    case Enriched => !IsLinked(e) && IsOf(r.item, e) && e.sourceId != None && Said(waves, r.item.id, Hit)
    case Error => !IsLinked(e) && IsOf(r.item, e) && Said(waves, r.item.id, StubFailed)
    case NoMatch =>
      !IsLinked(e) && IsReference(r.item, e) && !Said(waves, e.id, Hit) && !Said(waves, e.id, StubFailed)
  }

  ghost predicate Explained(r: Result, entries: seq<Entry>, elsewhere: set<string>, waves: seq<Wave>) {
    exists e :: e in entries && (r.status != AlreadyLinked ==> e.id !in elsewhere) && Explains(r, e, waves)
  }

  // The pool at the start.

  lemma SubInSubs(e: Entry, k: nat, j: nat)
    requires j < k <= |e.subs| && e.subs[j]
    ensures Item(SubKey(e.id, j), e.sourceId != None, Some(e.id)) in SubsOf(e, k)
  {
    if j < k - 1 {
      SubInSubs(e, k - 1, j);
    }
  }

  lemma {:induction false} SubInAll(needs: seq<Entry>, e: Entry, j: nat)
    requires e in needs && j < |e.subs| && e.subs[j]
    ensures Item(SubKey(e.id, j), e.sourceId != None, Some(e.id)) in AllSubs(needs)
  {
    var n := |needs| - 1;
    if e == needs[n] {
      SubInSubs(e, |e.subs|, j);
    } else {
      SubInAll(needs[..n], e, j);
    }
  }

  /** The pool has the references to resolve and their titled sub-citations, and nothing else. */
  lemma {:induction false} PoolMembers(needs: seq<Entry>, it: Item)
    ensures it in PoolOf(needs) <==> exists e :: e in needs && IsOf(it, e)
  {
    ParentMembers(needs);
    if it in AllSubs(needs) {
      var e, k := SubIn(needs, it);
      assert IsSubCitation(it, e, k);
    } else if exists e :: e in needs && IsOf(it, e) {
      var e :| e in needs && IsOf(it, e);
      if !IsReference(it, e) {
        var k: nat :| IsSubCitation(it, e, k);
        SubInAll(needs, e, k);
      }
    }
  }

  /** The titled ones among the first k sub-citations. */
  function Titled(subs: seq<bool>, k: nat): nat
    requires k <= |subs|
  {
    if k == 0 then 0 else Titled(subs, k - 1) + if subs[k - 1] then 1 else 0
  }

  /** The titled sub-citations of the first n references. */
  function TitledBefore(needs: seq<Entry>, n: nat): nat
    requires n <= |needs|
  {
    if n == 0 then 0 else TitledBefore(needs, n - 1) + Titled(needs[n - 1].subs, |needs[n - 1].subs|)
  }

  lemma {:induction false} SubAt(e: Entry, n: nat, k: nat)
    requires n <= |e.subs|
    ensures |SubsOf(e, n)| == Titled(e.subs, n)
    ensures k < n && e.subs[k] ==>
      Titled(e.subs, k) < Titled(e.subs, n) && IsSubCitation(SubsOf(e, n)[Titled(e.subs, k)], e, k)
  {
    if n > 0 {
      SubAt(e, n - 1, k);
    }
  }

  lemma {:induction false} TitledBeforePrefix(needs: seq<Entry>, m: nat, n: nat)
    requires n <= m <= |needs|
    ensures TitledBefore(needs[..m], n) == TitledBefore(needs, n)
  {
    if n > 0 {
      TitledBeforePrefix(needs, m, n - 1);
    }
  }

  lemma {:induction false} AllSubsCount(needs: seq<Entry>)
    ensures |AllSubs(needs)| == TitledBefore(needs, |needs|)
  {
    if needs != [] {
      var n := |needs| - 1;
      AllSubsCount(needs[..n]);
      TitledBeforePrefix(needs, n, n);
      SubAt(needs[n], |needs[n].subs|, 0);
    }
  }

  lemma {:induction false} AllSubsAt(needs: seq<Entry>, i: nat, k: nat)
    requires i < |needs| && k < |needs[i].subs| && needs[i].subs[k]
    ensures TitledBefore(needs, i) + Titled(needs[i].subs, k) < |AllSubs(needs)|
    ensures IsSubCitation(AllSubs(needs)[TitledBefore(needs, i) + Titled(needs[i].subs, k)], needs[i], k)
  {
    var n := |needs| - 1;
    TitledBeforePrefix(needs, n, i);
    if i < n {
      AllSubsAt(needs[..n], i, k);
    } else {
      AllSubsCount(needs[..n]);
      SubAt(needs[n], |needs[n].subs|, k);
    }
  }

  /**
    Where each entry of the pool stands: the references in their order, and behind them the titled sub-citations, by
    reference and then in their own order.
   */
  lemma {:induction false} PoolInOrder(needs: seq<Entry>, i: nat, k: nat)
    requires i < |needs|
    ensures |PoolOf(needs)| == |needs| + TitledBefore(needs, |needs|)
    ensures IsReference(PoolOf(needs)[i], needs[i])
    ensures k < |needs[i].subs| && needs[i].subs[k] ==>
      var p := |needs| + TitledBefore(needs, i) + Titled(needs[i].subs, k);
      p < |PoolOf(needs)| && IsSubCitation(PoolOf(needs)[p], needs[i], k)
  {
    ParentAt(needs, i);
    AllSubsCount(needs);
    if k < |needs[i].subs| && needs[i].subs[k] {
      AllSubsAt(needs, i, k);
    }
  }

  // What a settled result says.

  /** A result of a wave, before the end. */
  ghost predicate FromWave(r: Result, open: seq<Entry>, waves: seq<Wave>) {
    exists e :: e in open && IsOf(r.item, e) && Outcome(r, e, waves)
  }

  ghost predicate Outcome(r: Result, e: Entry, waves: seq<Wave>) {
    match r.status
    case NewlyResolved => e.sourceId == None && Said(waves, r.item.id, Hit)
    case Enriched => e.sourceId != None && Said(waves, r.item.id, Hit)
    case Error => Said(waves, r.item.id, StubFailed)
    case _ => false
  }

  ghost predicate AreOf(pool: seq<Item>, open: seq<Entry>) {
    forall it | it in pool :: exists e :: e in open && IsOf(it, e)
  }

  /** All results so far were there at the start or come from a wave, and the pool is one of open references. */
  ghost predicate Traced(s: State, open: seq<Entry>, linked: seq<Result>, waves: seq<Wave>) {
    && AreOf(s.pool, open)
    && (forall r | r in s.results :: r in linked || FromWave(r, open, waves))
    && forall r | r in linked :: r in s.results
  }

  lemma RemovalKeeps(pool: seq<Item>, id: string)
    ensures forall it | it in RemoveRelated(pool, id) :: it in pool && it.id != id
  {
    var base := BaseIn(pool, id);
    WhereMembers(pool, (it: Item) => !Related(it, id, base));
  }

  lemma SettledResult(item: Item, open: seq<Entry>, waves: seq<Wave>, verdict: Verdict, e: Entry)
    requires e in open && IsOf(item, e) && verdict != Miss && Said(waves, item.id, verdict)
    ensures FromWave(Result(item, StatusFor(item, verdict)), open, waves)
  {
    var r := Result(item, StatusFor(item, verdict));
    assert Outcome(r, e, waves);
  }

  lemma SettleTraces(
    s: State, item: Item, verdict: Verdict, open: seq<Entry>, linked: seq<Result>, waves: seq<Wave>)
    requires Traced(s, open, linked, waves) && AreOf([item], open)
    requires verdict != Miss ==> Said(waves, item.id, verdict)
    ensures Traced(Settle(s, item, verdict), open, linked, waves)
  {
    if verdict != Miss {
      assert item in [item];
      var e :| e in open && IsOf(item, e);
      SettledResult(item, open, waves, verdict, e);
      RemovalKeeps(s.pool, item.id);
    }
  }

  lemma {:induction false} BatchTraces(
    s: State, answers: seq<Answer>, wave: Wave, open: seq<Entry>, linked: seq<Result>, waves: seq<Wave>)
    requires wave in waves && wave.Batch? && forall a | a in answers :: a in wave.answers
    requires Traced(s, open, linked, waves)
    ensures Traced(AfterBatch(s, answers), open, linked, waves)
  {
    if answers != [] {
      var n := |answers| - 1;
      var last := answers[n];
      assert last in answers && forall a | a in answers[..n] :: a in answers;
      BatchTraces(s, answers[..n], wave, open, linked, waves);
      var t := AfterBatch(s, answers[..n]);
      match Find(t.pool, last.id)
      case None =>
      case Some(item) =>
        assert SaidIn(wave, item.id, last.verdict);
        SettleTraces(t, item, last.verdict, open, linked, waves);
    }
  }

  lemma {:induction false} SnapshotTraces(
    s: State, items: seq<Item>, wave: Wave, open: seq<Entry>, linked: seq<Result>, waves: seq<Wave>)
    requires wave in waves && wave.Snapshot? && AreOf(items, open)
    requires Traced(s, open, linked, waves)
    ensures Traced(AfterSnapshot(s, items, wave.verdicts), open, linked, waves)
  {
    if items != [] {
      var n := |items| - 1;
      var last := items[n];
      assert last in items && forall it | it in items[..n] :: it in items;
      SnapshotTraces(s, items[..n], wave, open, linked, waves);
      assert SaidIn(wave, last.id, wave.verdicts(last.id));
      SettleTraces(AfterSnapshot(s, items[..n], wave.verdicts), last, wave.verdicts(last.id), open, linked, waves);
    }
  }

  lemma {:induction false} RescoreTraces(
    s: State, items: seq<Item>, wave: Wave, open: seq<Entry>, linked: seq<Result>, waves: seq<Wave>)
    requires wave in waves && wave.Rescore? && Traced(s, open, linked, waves)
    ensures AfterRescore(s, items, wave.verdicts).Some? ==>
      Traced(AfterRescore(s, items, wave.verdicts).value, open, linked, waves)
  {
    if items != [] && AfterRescore(s, items, wave.verdicts).Some? {
      var n := |items| - 1;
      var last := items[n];
      RescoreTraces(s, items[..n], wave, open, linked, waves);
      var t := AfterRescore(s, items[..n], wave.verdicts).value;
      if wave.verdicts(last.id) != Miss {
        var item := Find(t.pool, last.id).value;
        assert SaidIn(wave, item.id, wave.verdicts(last.id));
        SettleTraces(t, item, wave.verdicts(last.id), open, linked, waves);
      }
    }
  }

  lemma WaveTraces(s: State, wave: Wave, open: seq<Entry>, linked: seq<Result>, waves: seq<Wave>)
    requires wave in waves && Traced(s, open, linked, waves) && AfterWave(s, wave).Some?
    ensures Traced(AfterWave(s, wave).value, open, linked, waves)
  {
    match wave
    case Batch(answers) => BatchTraces(s, answers, wave, open, linked, waves);
    case Snapshot(verdicts) => SnapshotTraces(s, s.pool, wave, open, linked, waves);
    case Rescore(verdicts) => RescoreTraces(s, s.pool, wave, open, linked, waves);
  }

  lemma {:induction false} WavesTrace(
    s: State, done: seq<Wave>, open: seq<Entry>, linked: seq<Result>, waves: seq<Wave>)
    requires (forall wave | wave in done :: wave in waves) && Traced(s, open, linked, waves)
    ensures AfterWaves(s, done).Some? ==> Traced(AfterWaves(s, done).value, open, linked, waves)
  {
    if done != [] && AfterWaves(s, done).Some? {
      var n := |done| - 1;
      assert done[n] in done && forall wave | wave in done[..n] :: wave in done;
      WavesTrace(s, done[..n], open, linked, waves);
      WaveTraces(AfterWaves(s, done[..n]).value, done[n], open, linked, waves);
    }
  }

  // What is left was never matched.

  ghost predicate Within(pool: seq<Item>, all: seq<Item>) {
    forall it | it in pool :: it in all
  }

  ghost predicate Unmatched(pool: seq<Item>, wave: Wave) {
    forall it | it in pool :: !SaidIn(wave, it.id, Hit) && !SaidIn(wave, it.id, StubFailed)
  }

  lemma SettleLeaves(s: State, item: Item, verdict: Verdict)
    ensures Within(Settle(s, item, verdict).pool, s.pool)
    ensures verdict != Miss ==> forall it | it in Settle(s, item, verdict).pool :: it.id != item.id
  {
    RemovalKeeps(s.pool, item.id);
  }

  lemma {:induction false} BatchLeaves(s: State, answers: seq<Answer>)
    ensures Within(AfterBatch(s, answers).pool, s.pool)
    ensures forall it | it in AfterBatch(s, answers).pool ::
              Answer(it.id, Hit) !in answers && Answer(it.id, StubFailed) !in answers
  {
    if answers != [] {
      var n := |answers| - 1;
      var last := answers[n];
      assert answers == answers[..n] + [last];
      BatchLeaves(s, answers[..n]);
      var t := AfterBatch(s, answers[..n]);
      match Find(t.pool, last.id)
      case None =>
      case Some(item) => SettleLeaves(t, item, last.verdict);
    }
  }

  /** What is left of the items walked over had no match. */
  ghost predicate MissedAll(pool: seq<Item>, items: seq<Item>, verdicts: string -> Verdict) {
    forall it | it in pool && it in items :: verdicts(it.id) == Miss
  }

  lemma {:induction false} SnapshotLeaves(s: State, items: seq<Item>, verdicts: string -> Verdict)
    ensures Within(AfterSnapshot(s, items, verdicts).pool, s.pool)
    ensures MissedAll(AfterSnapshot(s, items, verdicts).pool, items, verdicts)
  {
    if items != [] {
      var n := |items| - 1;
      assert items == items[..n] + [items[n]];
      SnapshotLeaves(s, items[..n], verdicts);
      SettleLeaves(AfterSnapshot(s, items[..n], verdicts), items[n], verdicts(items[n].id));
    }
  }

  lemma {:induction false} RescoreLeaves(s: State, items: seq<Item>, verdicts: string -> Verdict)
    requires AfterRescore(s, items, verdicts).Some?
    ensures Within(AfterRescore(s, items, verdicts).value.pool, s.pool)
    ensures MissedAll(AfterRescore(s, items, verdicts).value.pool, items, verdicts)
  {
    if items != [] {
      var n := |items| - 1;
      var last := items[n];
      assert items == items[..n] + [last];
      RescoreLeaves(s, items[..n], verdicts);
      var t := AfterRescore(s, items[..n], verdicts).value;
      if verdicts(last.id) != Miss {
        SettleLeaves(t, Find(t.pool, last.id).value, verdicts(last.id));
      }
    }
  }

  lemma WaveLeaves(s: State, wave: Wave)
    requires AfterWave(s, wave).Some?
    ensures Within(AfterWave(s, wave).value.pool, s.pool) && Unmatched(AfterWave(s, wave).value.pool, wave)
  {
    match wave
    case Batch(answers) => BatchLeaves(s, answers);
    case Snapshot(verdicts) => SnapshotLeaves(s, s.pool, verdicts);
    case Rescore(verdicts) => RescoreLeaves(s, s.pool, verdicts);
  }

  lemma {:induction false} WavesLeave(s: State, waves: seq<Wave>)
    requires AfterWaves(s, waves).Some?
    ensures Within(AfterWaves(s, waves).value.pool, s.pool)
    ensures forall wave | wave in waves :: Unmatched(AfterWaves(s, waves).value.pool, wave)
  {
    if waves != [] {
      var n := |waves| - 1;
      assert waves == waves[..n] + [waves[n]];
      WavesLeave(s, waves[..n]);
      WaveLeaves(AfterWaves(s, waves[..n]).value, waves[n]);
    }
  }

  // The theorem.

  lemma {:induction false} LinkedOnesMembers(entries: seq<Entry>, r: Result)
    ensures r in LinkedOnes(entries) <==>
      exists e :: e in entries && IsLinked(e) && r == Result(Item(e.id, true, None), AlreadyLinked)
  {
    if entries != [] {
      var n := |entries| - 1;
      assert entries == entries[..n] + [entries[n]];
      LinkedOnesMembers(entries[..n], r);
    }
  }

  lemma NoMatchIsReference(needs: seq<Entry>, it: Item)
    requires it in PoolOf(needs) && !HasSubMark(it.id)
    ensures exists e :: e in needs && IsReference(it, e)
  {
    PoolMembers(needs, it);
    var e :| e in needs && IsOf(it, e);
    if !IsReference(it, e) {
      var k: nat :| IsSubCitation(it, e, k);
      SubKeyIsMarked(e.id, k);
    }
  }

  lemma WavesExplain(entries: seq<Entry>, elsewhere: set<string>, waves: seq<Wave>)
    requires AfterWaves(Start(entries, elsewhere), waves).Some?
    ensures var open := ToResolve(entries, elsewhere);
      var s := AfterWaves(Start(entries, elsewhere), waves).value;
      Traced(s, open, LinkedOnes(entries), waves) && Within(s.pool, PoolOf(open))
      && forall wave | wave in waves :: Unmatched(s.pool, wave)
  {
    var start, open := Start(entries, elsewhere), ToResolve(entries, elsewhere);
    forall it | it in start.pool ensures exists e :: e in open && IsOf(it, e) {
      PoolMembers(open, it);
    }
    WavesTrace(start, waves, open, LinkedOnes(entries), waves);
    WavesLeave(start, waves);
  }

  lemma FromWaveIsExplained(r: Result, entries: seq<Entry>, elsewhere: set<string>, waves: seq<Wave>)
    requires FromWave(r, ToResolve(entries, elsewhere), waves)
    ensures Explained(r, entries, elsewhere, waves)
  {
    ToResolveMembers(entries, elsewhere);
    var e :| e in ToResolve(entries, elsewhere) && IsOf(r.item, e) && Outcome(r, e, waves);
    assert Explains(r, e, waves);
  }

  lemma LinkedIsExplained(r: Result, entries: seq<Entry>, elsewhere: set<string>, waves: seq<Wave>)
    requires r in LinkedOnes(entries)
    ensures Explained(r, entries, elsewhere, waves)
  {
    LinkedOnesMembers(entries, r);
    var e :| e in entries && IsLinked(e) && r == Result(Item(e.id, true, None), AlreadyLinked);
    assert Explains(r, e, waves);
  }

  lemma NoMatchIsExplained(
    r: Result, entries: seq<Entry>, elsewhere: set<string>, waves: seq<Wave>, pool: seq<Item>)
    requires r in NoMatches(pool) && Within(pool, PoolOf(ToResolve(entries, elsewhere)))
    requires forall wave | wave in waves :: Unmatched(pool, wave)
    ensures Explained(r, entries, elsewhere, waves)
  {
    NoMatchMembers(pool);
    ToResolveMembers(entries, elsewhere);
    NoMatchIsReference(ToResolve(entries, elsewhere), r.item);
    var e :| e in ToResolve(entries, elsewhere) && IsReference(r.item, e);
    assert Explains(r, e, waves);
  }

  /**
    Every result of a completed scan, whatever the waves answered: already_linked is of a reference with a source id
    and a source; newly_resolved of one without a source id, and enriched of one with, each on a match; error on a
    failed stub; no_match of a reference no wave had either for.
   */
  lemma ResultsAreExplained(entries: seq<Entry>, elsewhere: set<string>, waves: seq<Wave>)
    requires Scan(entries, elsewhere, waves).Some?
    ensures forall r | r in Scan(entries, elsewhere, waves).value.results :: Explained(r, entries, elsewhere, waves)
  {
    WavesExplain(entries, elsewhere, waves);
    var s := AfterWaves(Start(entries, elsewhere), waves).value;
    forall r | r in Finish(s).results ensures Explained(r, entries, elsewhere, waves) {
      if r in NoMatches(s.pool) {
        NoMatchIsExplained(r, entries, elsewhere, waves, s.pool);
      } else if r in LinkedOnes(entries) {
        LinkedIsExplained(r, entries, elsewhere, waves);
      } else {
        FromWaveIsExplained(r, entries, elsewhere, waves);
      }
    }
  }

  /** A reference has the result already_linked exactly when it came with a source id and a source. */
  lemma AlreadyLinkedIff(entries: seq<Entry>, elsewhere: set<string>, waves: seq<Wave>, e: Entry)
    requires DistinctEntries(entries) && e in entries && Scan(entries, elsewhere, waves).Some?
    ensures Result(Item(e.id, true, None), AlreadyLinked) in Scan(entries, elsewhere, waves).value.results
      <==> e.sourceId != None && e.foundationSource !in {None, Some(""), Some("0")}
  {
    var r := Result(Item(e.id, true, None), AlreadyLinked);
    WavesExplain(entries, elsewhere, waves);
    LinkedOnesMembers(entries, r);
    NoMatchMembers(AfterWaves(Start(entries, elsewhere), waves).value.pool);
  }

  // The order of the answers.

  lemma {:induction false} BatchesInTurn(s: State, a: seq<Answer>, b: seq<Answer>)
    ensures AfterBatch(s, a + b) == AfterBatch(AfterBatch(s, a), b)
  {
    if b == [] {
      assert a + b == a;
    } else {
      var n := |b| - 1;
      assert (a + b)[..|a + b| - 1] == a + b[..n];
      BatchesInTurn(s, a, b[..n]);
    }
  }

  lemma {:induction false} ResultsStay(s: State, answers: seq<Answer>, r: Result)
    requires r in s.results
    ensures r in AfterBatch(s, answers).results
  {
    if answers != [] {
      ResultsStay(s, answers[..|answers| - 1], r);
    }
  }

  /**
    The first match for a family that is still in the pool decides its result, whatever the batch says of it later.
   */
  lemma {:induction false} FirstMatchDecides(
    s: State, pool: seq<Item>, k: nat, before: seq<Answer>, item: Item, verdict: Verdict, behind: seq<Answer>)
    requires WellFormed(pool) && Draining(s, pool, k) && item in AfterBatch(s, before).pool && verdict != Miss
    ensures var end := AfterBatch(s, before + [Answer(item.id, verdict)] + behind);
      var status := if verdict == StubFailed then Error else if item.isLinked then Enriched else NewlyResolved;
      Result(item, status) in end.results
  {
    var t, answer := AfterBatch(s, before), Answer(item.id, verdict);
    BatchDrains(s, pool, k, before);
    InLeft(pool, BasesOf(t.results[k..]), item);
    FindOwn(pool, BasesOf(t.results[k..]), item);
    BatchesInTurn(s, before + [answer], behind);
    BatchesInTurn(s, before, [answer]);
    assert [answer][..0] == [];
    assert AfterBatch(t, [answer]) == Settle(t, item, verdict);
    ResultsStay(Settle(t, item, verdict), behind, Result(item, StatusFor(item, verdict)));
  }
}
