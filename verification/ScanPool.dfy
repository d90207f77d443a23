/**
  The resolution waves of a citation scan (CitationScanBibliographyJob::handle): they drain a pool of unresolved
  references while keeping four counters and a list of results. Whatever a search service, a database lookup or a
  language model answers is a verdict.
 */
module ScanPool {
  import opened Common
  import Decimal

  /** A bibliography or footnotes row; subs says of each sub-citation whether it has a title to search for. */
  datatype Entry = Entry(id: string, sourceId: Option<string>, foundationSource: Option<string>, subs: seq<bool>)

  /** A pool entry; a sub-citation names the reference it belongs to. */
  datatype Item = Item(id: string, isLinked: bool, parent: Option<string>) {
    /** The reference all related entries share. */
    function Base(): string {
      match parent case Some(p) => p case None => id
    }
  }

  datatype Verdict = Hit | StubFailed | Miss

  datatype Answer = Answer(id: string, verdict: Verdict)

  /**
    Batch: answers arrive by reference and are dropped if it has left the pool (waves 2a, 2b, 4, 5, 7, 4b, 5b, 7b,
    6, 8). Snapshot: the pool as it was is walked, whatever leaves it meanwhile (3, 3.5). Rescore: the same walk,
    but it reads the pool again at each match (shortened titles).
   */
  datatype Wave =
    | Batch(answers: seq<Answer>)
    | Snapshot(verdicts: string -> Verdict)
    | Rescore(verdicts: string -> Verdict)

  datatype Status = AlreadyLinked | NewlyResolved | Enriched | Error | NoMatch

  /** A result with the pool entry it was made from. */
  datatype Result = Result(item: Item, status: Status)

  datatype State = State(
    pool: seq<Item>, already: nat, newly: nat, enriched: nat, failed: nat, results: seq<Result>)
  {
    function Sum(): nat {
      already + newly + enriched + failed
    }
  }

  const SUB_MARK := "::sub"

  predicate HasSubMark(id: string) {
    exists i | 0 <= i <= |id| :: SUB_MARK <= id[i..]
  }

  predicate Empty(s: Option<string>) {
    s == None || s.value == "" || s.value == "0"
  }

  predicate Resolved(e: Entry) {
    e.sourceId != None && !Empty(e.foundationSource)
  }

  // The pool.

  function Where(pool: seq<Item>, keep: Item -> bool): seq<Item> {
    if pool == [] then []
    else
      var last := pool[|pool| - 1];
      Where(pool[..|pool| - 1], keep) + if keep(last) then [last] else []
  }

  function Find(pool: seq<Item>, id: string): (r: Option<Item>)
    ensures r.Some? ==> r.value in pool && r.value.id == id
    ensures r == None ==> forall it | it in pool :: it.id != id
  {
    if pool == [] then None
    else
      var last := pool[|pool| - 1];
      if last.id == id then Some(last) else Find(pool[..|pool| - 1], id)
  }

  /** removeRelatedPoolEntries: the family is looked up in the pool as it is. */
  function BaseIn(pool: seq<Item>, id: string): string {
    match Find(pool, id) case Some(item) => item.Base() case None => id
  }

  predicate Related(item: Item, id: string, base: string) {
    item.id == id || item.parent == Some(base) || item.id == base
  }

  function RemoveRelated(pool: seq<Item>, id: string): seq<Item> {
    var base := BaseIn(pool, id);
    Where(pool, (it: Item) => !Related(it, id, base))
  }

  // The waves.

  function StatusFor(item: Item, verdict: Verdict): Status {
    if verdict == StubFailed then Error else if item.isLinked then Enriched else NewlyResolved
  }

  function Settle(s: State, item: Item, verdict: Verdict): State {
    if verdict == Miss then s
    else
      var status := StatusFor(item, verdict);
      State(
        RemoveRelated(s.pool, item.id), s.already,
        s.newly + if status == NewlyResolved then 1 else 0,
        s.enriched + if status == Enriched then 1 else 0,
        s.failed + if status == Error then 1 else 0,
        s.results + [Result(item, status)])
  }

  function AfterAnswer(s: State, answer: Answer): State {
    match Find(s.pool, answer.id)
    case None => s
    case Some(item) => Settle(s, item, answer.verdict)
  }

  function AfterBatch(s: State, answers: seq<Answer>): State {
    if answers == [] then s
    else AfterAnswer(AfterBatch(s, answers[..|answers| - 1]), answers[|answers| - 1])
  }

  function AfterSnapshot(s: State, items: seq<Item>, verdicts: string -> Verdict): State {
    if items == [] then s
    else
      var last := items[|items| - 1];
      Settle(AfterSnapshot(s, items[..|items| - 1], verdicts), last, verdicts(last.id))
  }

  /** None: the job dies on an entry that has left the pool. */
  function AfterRescore(s: State, items: seq<Item>, verdicts: string -> Verdict): Option<State> {
    if items == [] then Some(s)
    else
      var last := items[|items| - 1];
      match AfterRescore(s, items[..|items| - 1], verdicts)
      case None => None
      case Some(t) =>
        if verdicts(last.id) == Miss then Some(t)
        else match Find(t.pool, last.id)
          case None => None
          case Some(item) => Some(Settle(t, item, verdicts(last.id)))
  }

  function AfterWave(s: State, wave: Wave): Option<State> {
    match wave
    case Batch(answers) => Some(AfterBatch(s, answers))
    case Snapshot(verdicts) => Some(AfterSnapshot(s, s.pool, verdicts))
    case Rescore(verdicts) => AfterRescore(s, s.pool, verdicts)
  }

  function AfterWaves(s: State, waves: seq<Wave>): Option<State> {
    if waves == [] then Some(s)
    else
      match AfterWaves(s, waves[..|waves| - 1])
      case None => None
      case Some(t) => AfterWave(t, waves[|waves| - 1])
  }

  /** What is left is a no_match; sub-citations are skipped by their name. */
  function NoMatches(pool: seq<Item>): seq<Result> {
    if pool == [] then []
    else
      var last := pool[|pool| - 1];
      NoMatches(pool[..|pool| - 1]) + if HasSubMark(last.id) then [] else [Result(last, NoMatch)]
  }

  function Finish(s: State): State {
    s.(failed := s.failed + |NoMatches(s.pool)|, results := s.results + NoMatches(s.pool))
  }

  // The start.

  function LinkedOnes(entries: seq<Entry>): seq<Result> {
    if entries == [] then []
    else
      var last := entries[|entries| - 1];
      LinkedOnes(entries[..|entries| - 1])
      + if Resolved(last) then [Result(Item(last.id, true, None), AlreadyLinked)] else []
  }

  /** The entries to resolve: not linked yet, and not taken out for another treatment (footnote scans only). */
  function ToResolve(entries: seq<Entry>, elsewhere: set<string>): seq<Entry> {
    if entries == [] then []
    else
      var last := entries[|entries| - 1];
      ToResolve(entries[..|entries| - 1], elsewhere)
      + if Resolved(last) || last.id in elsewhere then [] else [last]
  }

  function ItemOf(e: Entry): Item {
    Item(e.id, e.sourceId != None, None)
  }

  function SubKey(id: string, k: nat): string {
    id + SUB_MARK + Decimal.Print(k + 1)
  }

  function Parents(needs: seq<Entry>): seq<Item> {
    if needs == [] then [] else Parents(needs[..|needs| - 1]) + [ItemOf(needs[|needs| - 1])]
  }

  /** The first k sub-citations of an entry, less those without a title. */
  function SubsOf(e: Entry, k: nat): seq<Item>
    requires k <= |e.subs|
  {
    if k == 0 then []
    else SubsOf(e, k - 1) + if e.subs[k - 1] then [Item(SubKey(e.id, k - 1), e.sourceId != None, Some(e.id))] else []
  }

  function AllSubs(needs: seq<Entry>): seq<Item> {
    if needs == [] then []
    else
      var last := needs[|needs| - 1];
      AllSubs(needs[..|needs| - 1]) + SubsOf(last, |last.subs|)
  }

  function PoolOf(needs: seq<Entry>): seq<Item> {
    Parents(needs) + AllSubs(needs)
  }

  function Start(entries: seq<Entry>, elsewhere: set<string>): State {
    var linked := LinkedOnes(entries);
    State(PoolOf(ToResolve(entries, elsewhere)), |linked|, 0, 0, 0, linked)
  }

  /** The whole scan; None if it dies in the re-scoring. */
  function Scan(entries: seq<Entry>, elsewhere: set<string>, waves: seq<Wave>): Option<State> {
    match AfterWaves(Start(entries, elsewhere), waves)
    case None => None
    case Some(s) => Some(Finish(s))
  }
}
