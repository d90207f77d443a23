/**
  Narrating a book in runs (GenerateBookAudioJob): a run prunes the store, lists the nodes whose
  stored hash is missing or stale, narrates them batch by batch until it is done, cancelled or out
  of time, charges for what it narrated and releases the credit hold. A run out of time is followed
  by another one on the same book.
 */
module AudioRun {
  import opened Common
  import opened AudioStore
  import B = Billing

  /** A speakable node in reading order; the text is what is narrated and hashed. */
  datatype Node = Node(nodeId: string, text: string)

  datatype Item = Item(nodeId: string, text: string, hash: string)

  /**
    What happens when batch k comes up: a cancel request, no time left, the provider's answers by node, or an exception
    out of the run after so many nodes of the batch.
   */
  datatype Decision =
    | Cancel
    | OutOfTime
    | Narrate(ok: map<string, string>)
    | Abort(ok: map<string, string>, handled: nat)

  type Plan = nat -> Decision

  datatype Stop = Running | Cancelled | Continuing | Aborted

  datatype Status = Done | Partial | CancelledRun | ContinuingRun | AbortedRun | Refused

  ghost predicate DistinctNodes(nodes: seq<Node>) {
    forall i, j | 0 <= i < j < |nodes| :: nodes[i].nodeId != nodes[j].nodeId
  }

  function NodeIdsOf(nodes: seq<Node>): set<string> {
    set n | n in nodes :: n.nodeId
  }

  predicate IsStale(rows: map<string, AudioRow>, node: Node, hash: string) {
    node.nodeId !in rows || rows[node.nodeId].sourceHash != hash
  }

  function StaleItem(node: Node, rows: map<string, AudioRow>, sha: string -> string): seq<Item> {
    var hash := sha(node.text);
    if IsStale(rows, node, hash) then [Item(node.nodeId, node.text, hash)] else []
  }

  /** The nodes a run has to narrate. */
  function Pending(nodes: seq<Node>, rows: map<string, AudioRow>, sha: string -> string): seq<Item> {
    if nodes == [] then []
    else
      Pending(nodes[..|nodes| - 1], rows, sha) + StaleItem(nodes[|nodes| - 1], rows, sha)
  }

  /** dropAlreadyNarrated. */
  function Outstanding(batch: seq<Item>, rows: map<string, AudioRow>): seq<Item> {
    if batch == [] then []
    else
      var last := batch[|batch| - 1];
      Outstanding(batch[..|batch| - 1], rows)
      + if last.nodeId in rows && rows[last.nodeId].sourceHash == last.hash then [] else [last]
  }

  function Narrated(batch: seq<Item>, ok: map<string, string>): seq<Item> {
    if batch == [] then []
    else
      var last := batch[|batch| - 1];
      Narrated(batch[..|batch| - 1], ok) + if last.nodeId in ok then [last] else []
  }

  function FailedIds(batch: seq<Item>, ok: map<string, string>): seq<string> {
    if batch == [] then []
    else
      var last := batch[|batch| - 1];
      FailedIds(batch[..|batch| - 1], ok) + if last.nodeId in ok then [] else [last.nodeId]
  }

  function PutOf(item: Item, bytes: string): Put {
    Put(item.nodeId, bytes, item.hash, |item.text|)
  }

  function AfterBatch(d: Disk, batch: seq<Item>, ok: map<string, string>): Disk {
    if batch == [] then d
    else
      var last := batch[|batch| - 1];
      var before := AfterBatch(d, batch[..|batch| - 1], ok);
      if last.nodeId in ok then AfterPut(before, PutOf(last, ok[last.nodeId])) else before
  }

  function CharsOf(items: seq<Item>): nat {
    if items == [] then 0 else CharsOf(items[..|items| - 1]) + |items[|items| - 1].text|
  }

  datatype Progress = Progress(disk: Disk, done: seq<Item>, failed: seq<string>, stop: Stop)

  /** The nodes of a batch that are handled: all of them, or those before an exception. */
  function Handled(batch: seq<Item>, decision: Decision): seq<Item> {
    match decision
    case Narrate(_) => batch
    case Abort(_, handled) => if handled <= |batch| then batch[..handled] else batch
    case _ => []
  }

  function AfterDecision(p: Progress, planned: seq<Item>, decision: Decision): Progress {
    if p.stop != Running then p
    else if decision == Cancel then p.(stop := Cancelled)
    else if decision == OutOfTime then p.(stop := Continuing)
    else
      var batch, ok := Handled(Outstanding(planned, p.disk.rows), decision), decision.ok;
      Progress(AfterBatch(p.disk, batch, ok), p.done + Narrated(batch, ok), p.failed + FailedIds(batch, ok),
               if decision.Abort? then Aborted else Running)
  }

  /** A run after its first k batches. */
  function AfterBatches(d: Disk, batches: seq<seq<Item>>, plan: Plan, k: nat): Progress
    requires k <= |batches|
  {
    if k == 0 then Progress(d, [], [], Running)
    else AfterDecision(AfterBatches(d, batches, plan, k - 1), batches[k - 1], plan(k - 1))
  }

  /** One run over the store. */
  function Run(d: Disk, nodes: seq<Node>, sha: string -> string, plan: Plan, concurrency: nat): Progress
    requires 0 < concurrency
  {
    var pruned := AfterPrune(d, NodeIdsOf(nodes));
    var batches := Chunks(Pending(nodes, pruned.rows, sha), concurrency);
    AfterBatches(pruned, batches, plan, |batches|)
  }

  function StatusOf(p: Progress): Status {
    match p.stop
    case Cancelled => CancelledRun
    case Continuing => ContinuingRun
    case Aborted => AbortedRun
    case Running => if p.failed == [] then Done else Partial
  }

  /** Dollars for narrated characters, before the tier multiplier. */
  function CostOf(chars: nat, rate: real): real {
    chars as real / 1000000.0 * rate
  }

  /** The characters a run is charged for: an exception skips the charge. */
  function BilledChars(p: Progress): nat {
    if p.stop == Aborted then 0 else CharsOf(p.done)
  }

  function AfterChargeFor(s: B.State, user: Option<string>, chars: nat, rate: real, rowId: string): B.State {
    if chars == 0 || user == None then s else B.AfterCharge(s, user.value, CostOf(chars, rate), "tts", rowId)
  }

  function AfterGiveBack(s: B.State, user: Option<string>, reservationId: Option<string>): B.State {
    if user == None then s else B.AfterRelease(s, user.value, reservationId)
  }

  class GenerateBookAudioJob {
    const bookId: string
    const user: Option<string>
    const reservationId: Option<string>
    const sha: string -> string
    const concurrency: nat
    const rate: real
    const store: BookAudioStore
    const billing: B.BillingService

    constructor (
      bookId: string, user: Option<string>, reservationId: Option<string>,
      sha: string -> string, concurrency: nat, rate: real, store: BookAudioStore, billing: B.BillingService)
      ensures this.bookId == bookId && this.user == user && this.reservationId == reservationId
      ensures this.sha == sha && this.rate == rate && this.store == store && this.billing == billing
      ensures this.concurrency == if concurrency == 0 then 1 else concurrency
    {
      this.bookId, this.user, this.reservationId := bookId, user, reservationId;
      this.sha, this.rate, this.store, this.billing := sha, rate, store, billing;
      this.concurrency := if concurrency == 0 then 1 else concurrency;
    }

    /** handle(): narrate, then give the hold back whatever happened, an exception included. */
    method Handle(nodes: seq<Node>, encrypted: bool, plan: Plan, rowId: string)
      returns (status: Status, doneChars: nat, continuation: bool)
      requires 0 < concurrency
      modifies store, billing
      ensures continuation <==> status == ContinuingRun
      ensures '/' in bookId || encrypted ==>
        && status == Refused && doneChars == 0
        && store.State() == old(store.State())
        && billing.Tables() == AfterGiveBack(old(billing.Tables()), user, reservationId)
      ensures !('/' in bookId || encrypted) ==>
        var p := Run(old(store.State()), nodes, sha, plan, concurrency);
        && status == StatusOf(p) && doneChars == CharsOf(p.done)
        && store.State() == p.disk
        && billing.Tables() == AfterGiveBack(
             AfterChargeFor(old(billing.Tables()), user, BilledChars(p), rate, rowId), user, reservationId)
    {
      status, doneChars := Generate(nodes, encrypted, plan, rowId);
      continuation := status == ContinuingRun;
      if user != None {
        var released := billing.ReleaseReservation(user.value, reservationId);
      }
    }

    method Generate(nodes: seq<Node>, encrypted: bool, plan: Plan, rowId: string)
      returns (status: Status, doneChars: nat)
      requires 0 < concurrency
      modifies store, billing
      ensures '/' in bookId || encrypted ==>
        && status == Refused && doneChars == 0
        && store.State() == old(store.State()) && billing.Tables() == old(billing.Tables())
      ensures !('/' in bookId || encrypted) ==>
        var p := Run(old(store.State()), nodes, sha, plan, concurrency);
        && status == StatusOf(p) && doneChars == CharsOf(p.done)
        && store.State() == p.disk
        && billing.Tables() == AfterChargeFor(old(billing.Tables()), user, BilledChars(p), rate, rowId)
    {
      if '/' in bookId || encrypted {
        return Refused, 0;
      }
      store.PruneToNodeIds(set n | n in nodes :: n.nodeId);
      var pending := ListPending(nodes);
      var doneNodes, failedNodes, stop;
      doneNodes, doneChars, failedNodes, stop := NarrateBatches(Chunks(pending, concurrency), plan);
      if stop == Aborted {
        return AbortedRun, doneChars;
      }
      if doneNodes > 0 && doneChars > 0 && user != None {
        var entry := billing.Charge(user.value, CostOf(doneChars, rate), "tts", rowId);
      }
      if stop == Continuing {
        return ContinuingRun, doneChars;
      }
      status := if stop == Cancelled then CancelledRun else if failedNodes == [] then Done else Partial;
    }

    /** The batch loop. */
    method NarrateBatches(batches: seq<seq<Item>>, plan: Plan)
      returns (doneNodes: nat, doneChars: nat, failedNodes: seq<string>, stop: Stop)
      modifies store
      ensures var p := AfterBatches(old(store.State()), batches, plan, |batches|);
        && store.State() == p.disk && failedNodes == p.failed && stop == p.stop
        && doneNodes == |p.done| && doneChars == CharsOf(p.done)
    {
      ghost var start := store.State();
      doneNodes, doneChars, failedNodes, stop := 0, 0, [], Running;
      var k := 0;
      while k < |batches| && stop == Running
        invariant 0 <= k <= |batches|
        invariant Counts(AfterBatches(start, batches, plan, k), store.State(), doneNodes, doneChars, failedNodes, stop)
        decreases |batches| - k
      {
        ghost var p := AfterBatches(start, batches, plan, k);
        var decision := plan(k);
        if decision == Cancel {
          StopCounts(p, batches[k], decision);
          stop := Cancelled;
        } else if decision == OutOfTime {
          StopCounts(p, batches[k], decision);
          stop := Continuing;
        } else {
          var nodesNow, charsNow, failedNow := NarrateBatch(batches[k], decision);
          BatchCounts(p, batches[k], decision);
          doneNodes := doneNodes + nodesNow;
          doneChars := doneChars + charsNow;
          failedNodes := failedNodes + failedNow;
          stop := if decision.Abort? then Aborted else Running;
        }
        k := k + 1;
      }
      StoppedStays(start, batches, plan, k);
    }

    /** One round of the batch loop: what is still outstanding is narrated, up to the exception if there is one. */
    method NarrateBatch(planned: seq<Item>, decision: Decision)
      returns (nodesNow: nat, charsNow: nat, failedNow: seq<string>)
      requires decision.Narrate? || decision.Abort?
      modifies store
      ensures var batch := Handled(Outstanding(planned, old(store.rows)), decision);
        && store.State() == AfterBatch(old(store.State()), batch, decision.ok)
        && nodesNow == |Narrated(batch, decision.ok)| && charsNow == CharsOf(Narrated(batch, decision.ok))
        && failedNow == FailedIds(batch, decision.ok)
    {
      var batch := DropAlreadyNarrated(planned);
      if decision.Abort? && decision.handled <= |batch| {
        batch := batch[..decision.handled];
      }
      nodesNow, charsNow, failedNow := StoreBatch(batch, decision.ok);
    }

    method ListPending(nodes: seq<Node>) returns (pending: seq<Item>)
      ensures pending == Pending(nodes, store.rows, sha)
    {
      var existing := store.ExistingHashes();
      pending := [];
      var i := 0;
      while i < |nodes|
        invariant 0 <= i <= |nodes|
        invariant pending == Pending(nodes[..i], store.rows, sha)
      {
        assert nodes[..i + 1][..i] == nodes[..i];
        var hash := sha(nodes[i].text);
        if nodes[i].nodeId !in existing || existing[nodes[i].nodeId] != hash {
          pending := pending + [Item(nodes[i].nodeId, nodes[i].text, hash)];
        }
        i := i + 1;
      }
      assert nodes[..i] == nodes;
    }

    method DropAlreadyNarrated(batch: seq<Item>) returns (outstanding: seq<Item>)
      ensures outstanding == Outstanding(batch, store.rows)
    {
      var hashes := store.ExistingHashes();
      outstanding := [];
      var i := 0;
      while i < |batch|
        invariant 0 <= i <= |batch|
        invariant outstanding == Outstanding(batch[..i], store.rows)
      {
        assert batch[..i + 1][..i] == batch[..i];
        if batch[i].nodeId !in hashes || hashes[batch[i].nodeId] != batch[i].hash {
          outstanding := outstanding + [batch[i]];
        }
        i := i + 1;
      }
      assert batch[..i] == batch;
    }

    /** The loop over one batch's results. */
    method StoreBatch(batch: seq<Item>, ok: map<string, string>)
      returns (doneNodes: nat, doneChars: nat, failed: seq<string>)
      modifies store
      ensures store.State() == AfterBatch(old(store.State()), batch, ok)
      ensures doneNodes == |Narrated(batch, ok)| && doneChars == CharsOf(Narrated(batch, ok))
      ensures failed == FailedIds(batch, ok)
    {
      doneNodes, doneChars, failed := 0, 0, [];
      var i := 0;
      while i < |batch|
        invariant 0 <= i <= |batch|
        invariant store.State() == AfterBatch(old(store.State()), batch[..i], ok)
        invariant doneNodes == |Narrated(batch[..i], ok)| && doneChars == CharsOf(Narrated(batch[..i], ok))
        invariant failed == FailedIds(batch[..i], ok)
      {
        assert batch[..i + 1][..i] == batch[..i];
        var item := batch[i];
        if item.nodeId !in ok {
          failed := failed + [item.nodeId];
          assert Narrated(batch[..i + 1], ok) == Narrated(batch[..i], ok);
        } else {
          assert FailedIds(batch[..i + 1], ok) == FailedIds(batch[..i], ok);
          var chars := |item.text|;
          var filename := store.PutNodeAudio(item.nodeId, ok[item.nodeId], item.hash, chars);
          CharsConcat(Narrated(batch[..i], ok), [item]);
          doneNodes := doneNodes + 1;
          doneChars := doneChars + chars;
        }
        i := i + 1;
      }
      assert batch[..i] == batch;
    }
  }

  /** The loop's counters say how far the run is. */
  ghost predicate Counts(
    p: Progress, disk: Disk, doneNodes: nat, doneChars: nat, failedNodes: seq<string>, stop: Stop)
  {
    && p.disk == disk && p.failed == failedNodes && p.stop == stop
    && |p.done| == doneNodes && CharsOf(p.done) == doneChars
  }

  lemma StopCounts(p: Progress, planned: seq<Item>, decision: Decision)
    requires p.stop == Running && (decision == Cancel || decision == OutOfTime)
    ensures Counts(AfterDecision(p, planned, decision), p.disk, |p.done|, CharsOf(p.done), p.failed,
                   if decision == Cancel then Cancelled else Continuing)
  {
  }

  lemma BatchCounts(p: Progress, planned: seq<Item>, decision: Decision)
    requires p.stop == Running && (decision.Narrate? || decision.Abort?)
    ensures var batch := Handled(Outstanding(planned, p.disk.rows), decision);
      Counts(AfterDecision(p, planned, decision), AfterBatch(p.disk, batch, decision.ok),
             |p.done| + |Narrated(batch, decision.ok)|, CharsOf(p.done) + CharsOf(Narrated(batch, decision.ok)),
             p.failed + FailedIds(batch, decision.ok), if decision.Abort? then Aborted else Running)
  {
    CharsConcat(p.done, Narrated(Handled(Outstanding(planned, p.disk.rows), decision), decision.ok));
  }

  lemma {:induction false} CharsConcat(a: seq<Item>, b: seq<Item>)
    ensures CharsOf(a + b) == CharsOf(a) + CharsOf(b)
  {
    if b == [] {
      assert a + b == a;
    } else {
      var n := |b| - 1;
      CharsConcat(a, b[..n]);
      assert (a + b)[..|a + b| - 1] == a + b[..n];
    }
  }

  lemma {:induction false} StoppedStays(d: Disk, batches: seq<seq<Item>>, plan: Plan, k: nat)
    requires k <= |batches| && (AfterBatches(d, batches, plan, k).stop != Running || k == |batches|)
    ensures AfterBatches(d, batches, plan, |batches|) == AfterBatches(d, batches, plan, k)
    decreases |batches| - k
  {
    if k < |batches| {
      StoppedStays(d, batches, plan, k + 1);
    }
  }
}
