/** Chains of narration runs on a fixed text: what is stored, what is charged, and when they end. */
module AudioChain {
  import opened Common
  import opened AudioStore
  import opened AudioRun

  ghost predicate DistinctItems(items: seq<Item>) {
    forall i, j | 0 <= i < j < |items| :: items[i].nodeId != items[j].nodeId
  }

  ghost function Ids(items: seq<Item>): set<string> {
    set x | x in items :: x.nodeId
  }

  /** The rows after storing these items, in order. */
  function Stored(rows: map<string, AudioRow>, done: seq<Item>): map<string, AudioRow> {
    if done == [] then rows
    else
      var last := done[|done| - 1];
      Stored(rows, done[..|done| - 1])[last.nodeId := PutOf(last, "").Row()]
  }

  lemma {:induction false} StoredConcat(rows: map<string, AudioRow>, a: seq<Item>, b: seq<Item>)
    ensures Stored(rows, a + b) == Stored(Stored(rows, a), b)
  {
    if b == [] {
      assert a + b == a;
    } else {
      var n := |b| - 1;
      StoredConcat(rows, a, b[..n]);
      assert (a + b)[..|a + b| - 1] == a + b[..n] && (a + b)[|a + b| - 1] == b[n];
      assert Stored(rows, a + b) == Stored(rows, a + b[..n])[b[n].nodeId := PutOf(b[n], "").Row()];
    }
  }

  lemma {:induction false} StoredElsewhere(rows: map<string, AudioRow>, done: seq<Item>, id: string)
    requires id !in Ids(done)
    ensures id in Stored(rows, done) <==> id in rows
    ensures id in rows ==> Stored(rows, done)[id] == rows[id]
  {
    if done != [] {
      var n := |done| - 1;
      assert done[n] in done && forall x | x in done[..n] :: x in done;
      StoredElsewhere(rows, done[..n], id);
    }
  }

  // The pieces of a batch.

  lemma {:induction false} NarratedWithin(batch: seq<Item>, ok: map<string, string>)
    ensures forall x | x in Narrated(batch, ok) :: x in batch
    ensures forall x | x in batch :: x in Narrated(batch, ok) || x.nodeId in FailedIds(batch, ok)
    ensures DistinctItems(batch) ==> DistinctItems(Narrated(batch, ok))
  {
    if batch != [] {
      var n := |batch| - 1;
      var init, last := batch[..n], batch[n];
      NarratedWithin(init, ok);
      assert batch == init + [last];
      if DistinctItems(batch) {
        assert DistinctItems(init);
        forall i | 0 <= i < |Narrated(init, ok)| ensures Narrated(init, ok)[i].nodeId != last.nodeId {
          assert Narrated(init, ok)[i] in init;
        }
      }
    }
  }

  ghost predicate AllStale(items: seq<Item>, rows: map<string, AudioRow>) {
    forall x | x in items :: x.nodeId !in rows || rows[x.nodeId].sourceHash != x.hash
  }

  /** The re-check before synthesis drops nothing when no other run is at work. */
  lemma {:induction false} NothingDropped(batch: seq<Item>, rows: map<string, AudioRow>)
    requires AllStale(batch, rows)
    ensures Outstanding(batch, rows) == batch
  {
    if batch != [] {
      var n := |batch| - 1;
      assert batch == batch[..n] + [batch[n]] && batch[n] in batch;
      NothingDropped(batch[..n], rows);
    }
  }

  lemma PutStoresRow(d: Disk, item: Item, bytes: string)
    ensures AfterPut(d, PutOf(item, bytes)).rows == d.rows[item.nodeId := PutOf(item, "").Row()]
  {
  }

  lemma StoredSnoc(rows: map<string, AudioRow>, done: seq<Item>, item: Item)
    ensures Stored(rows, done + [item]) == Stored(rows, done)[item.nodeId := PutOf(item, "").Row()]
  {
    assert (done + [item])[..|done|] == done;
  }

  lemma {:induction false} AfterBatchRows(d: Disk, batch: seq<Item>, ok: map<string, string>)
    ensures AfterBatch(d, batch, ok).rows == Stored(d.rows, Narrated(batch, ok))
  {
    if batch != [] {
      var n := |batch| - 1;
      AfterBatchRows(d, batch[..n], ok);
      var before := Narrated(batch[..n], ok);
      if batch[n].nodeId in ok {
        PutStoresRow(AfterBatch(d, batch[..n], ok), batch[n], ok[batch[n].nodeId]);
        StoredSnoc(d.rows, before, batch[n]);
      } else {
        assert Narrated(batch, ok) == before;
      }
    }
  }

  // One run.

  lemma LastIsNew(nodes: seq<Node>)
    requires DistinctNodes(nodes) && nodes != []
    ensures DistinctNodes(nodes[..|nodes| - 1])
    ensures nodes[|nodes| - 1].nodeId !in NodeIdsOf(nodes[..|nodes| - 1])
  {
  }

  lemma NodeIdsSnoc(nodes: seq<Node>, node: Node)
    ensures NodeIdsOf(nodes + [node]) == NodeIdsOf(nodes) + {node.nodeId}
  {
    assert node in nodes + [node] && forall m | m in nodes :: m in nodes + [node];
  }

  /** Pending items carry the id of a node, are stale, and are listed once each. */
  lemma {:induction false} PendingItems(nodes: seq<Node>, rows: map<string, AudioRow>, sha: string -> string)
    requires DistinctNodes(nodes)
    ensures DistinctItems(Pending(nodes, rows, sha))
    ensures Ids(Pending(nodes, rows, sha)) <= NodeIdsOf(nodes)
    ensures AllStale(Pending(nodes, rows, sha), rows)
  {
    if nodes != [] {
      var n := |nodes| - 1;
      LastIsNew(nodes);
      PendingItems(nodes[..n], rows, sha);
      assert nodes == nodes[..n] + [nodes[n]];
      NodeIdsSnoc(nodes[..n], nodes[n]);
      PendingWithLast(Pending(nodes[..n], rows, sha), nodes[n], NodeIdsOf(nodes[..n]), rows, sha);
    }
  }

  lemma PendingWithLast(
    before: seq<Item>, node: Node, ids: set<string>, rows: map<string, AudioRow>, sha: string -> string)
    requires DistinctItems(before) && Ids(before) <= ids && AllStale(before, rows) && node.nodeId !in ids
    ensures var all := before + StaleItem(node, rows, sha);
      DistinctItems(all) && Ids(all) <= ids + {node.nodeId} && AllStale(all, rows)
  {
    var own := StaleItem(node, rows, sha);
    if own == [] {
      assert before + own == before;
    } else {
      assert forall x | x in before :: x.nodeId in Ids(before);
      assert before + own == before + [own[0]];
    }
  }

  /** What holds after the first k batches of a run over these pending items. */
  ghost predicate RunInvariant(rows: map<string, AudioRow>, handled: seq<Item>, p: Progress) {
    && p.disk.rows == Stored(rows, p.done)
    && DistinctItems(p.done)
    && (forall x | x in p.done :: x in handled)
    && (p.stop == Running ==> forall x | x in handled :: x in p.done || x.nodeId in p.failed)
  }

  lemma {:induction false} BatchKeepsInvariant(
    rows: map<string, AudioRow>, handled: seq<Item>, batch: seq<Item>, p: Progress, ok: map<string, string>)
    requires RunInvariant(rows, handled, p) && p.stop == Running
    requires DistinctItems(handled + batch)
    requires AllStale(batch, rows)
    ensures Outstanding(batch, p.disk.rows) == batch
    ensures RunInvariant(rows, handled + batch,
      Progress(AfterBatch(p.disk, batch, ok), p.done + Narrated(batch, ok), p.failed + FailedIds(batch, ok), Running))
  {
    forall x, y | x in batch && y in handled ensures x.nodeId != y.nodeId {
      var i :| 0 <= i < |handled| && handled[i] == y;
      var j :| 0 <= j < |batch| && batch[j] == x;
      assert (handled + batch)[i].nodeId != (handled + batch)[|handled| + j].nodeId;
    }
    forall x | x in batch ensures x.nodeId !in p.disk.rows || p.disk.rows[x.nodeId].sourceHash != x.hash {
      assert x.nodeId !in Ids(p.done);
      StoredElsewhere(rows, p.done, x.nodeId);
    }
    NothingDropped(batch, p.disk.rows);
    AfterBatchRows(p.disk, batch, ok);
    StoredConcat(rows, p.done, Narrated(batch, ok));
    assert DistinctItems(batch) by {
      forall i, j | 0 <= i < j < |batch| ensures batch[i].nodeId != batch[j].nodeId {
        assert (handled + batch)[|handled| + i].nodeId != (handled + batch)[|handled| + j].nodeId;
      }
    }
    NarratedWithin(batch, ok);
  }

  lemma ConcatTake(batches: seq<seq<Item>>, k: nat)
    requires k < |batches|
    ensures Concat(batches[..k + 1]) == Concat(batches[..k]) + batches[k]
  {
    assert batches[..k + 1] == batches[..k] + [batches[k]];
    ConcatSnoc(batches[..k], batches[k]);
  }

  lemma {:induction false} ConcatPrefix(batches: seq<seq<Item>>, k: nat)
    requires k <= |batches|
    ensures Concat(batches[..k]) <= Concat(batches)
    decreases |batches| - k
  {
    if k == |batches| {
      assert batches[..k] == batches;
    } else {
      ConcatPrefix(batches, k + 1);
      ConcatTake(batches, k);
    }
  }

  lemma PrefixKeepsBoth(a: seq<Item>, b: seq<Item>, rows: map<string, AudioRow>)
    requires a <= b && DistinctItems(b) && AllStale(b, rows)
    ensures DistinctItems(a) && AllStale(a, rows)
  {
    assert forall i | 0 <= i < |a| :: a[i] == b[i];
  }

  lemma StopKeepsInvariant(rows: map<string, AudioRow>, handled: seq<Item>, batch: seq<Item>, p: Progress, q: Progress)
    requires RunInvariant(rows, handled, p)
    requires q.disk == p.disk && q.done == p.done && q.stop != Running
    ensures RunInvariant(rows, handled + batch, q)
  {
  }

  lemma NextProgress(p: Progress, batch: seq<Item>, decision: Decision, part: seq<Item>)
    requires p.stop == Running && (decision.Narrate? || decision.Abort?)
    requires Outstanding(batch, p.disk.rows) == batch && part == Handled(batch, decision)
    ensures AfterDecision(p, batch, decision)
      == Progress(AfterBatch(p.disk, part, decision.ok), p.done + Narrated(part, decision.ok),
                  p.failed + FailedIds(part, decision.ok), if decision.Abort? then Aborted else Running)
    ensures part <= batch && (decision.Narrate? ==> part == batch)
  {
  }

  lemma StepKeepsInvariant(
    rows: map<string, AudioRow>, handled: seq<Item>, batch: seq<Item>, p: Progress, decision: Decision)
    requires RunInvariant(rows, handled, p)
    requires DistinctItems(handled + batch) && AllStale(handled + batch, rows)
    ensures RunInvariant(rows, handled + batch, AfterDecision(p, batch, decision))
  {
    if p.stop != Running || decision == Cancel || decision == OutOfTime {
      StopKeepsInvariant(rows, handled, batch, p, AfterDecision(p, batch, decision));
    } else {
      BatchIsOutstanding(rows, handled, batch, p, decision.ok);
      NextProgress(p, batch, decision, Handled(batch, decision));
      if decision.Abort? {
        AbortKeepsInvariant(rows, handled, batch, Handled(batch, decision), p, decision.ok);
      }
    }
  }

  lemma BatchIsOutstanding(
    rows: map<string, AudioRow>, handled: seq<Item>, batch: seq<Item>, p: Progress, ok: map<string, string>)
    requires RunInvariant(rows, handled, p) && p.stop == Running
    requires DistinctItems(handled + batch) && AllStale(handled + batch, rows)
    ensures Outstanding(batch, p.disk.rows) == batch
    ensures RunInvariant(rows, handled + batch,
      Progress(AfterBatch(p.disk, batch, ok), p.done + Narrated(batch, ok), p.failed + FailedIds(batch, ok), Running))
  {
    assert forall x | x in batch :: x in handled + batch;
    BatchKeepsInvariant(rows, handled, batch, p, ok);
  }

  lemma {:induction false} AbortKeepsInvariant(
    rows: map<string, AudioRow>, handled: seq<Item>, batch: seq<Item>, part: seq<Item>, p: Progress, ok: map<string,
    string>)
    requires RunInvariant(rows, handled, p) && p.stop == Running && part <= batch
    requires DistinctItems(handled + batch) && AllStale(handled + batch, rows)
    ensures RunInvariant(rows, handled + batch,
      Progress(AfterBatch(p.disk, part, ok), p.done + Narrated(part, ok), p.failed + FailedIds(part, ok), Aborted))
  {
    PrefixKeepsBoth(handled + part, handled + batch, rows);
    assert forall x | x in part :: x in handled + part;
    BatchKeepsInvariant(rows, handled, part, p, ok);
    assert forall x | x in handled + part :: x in handled + batch;
  }

  lemma {:induction false} BatchesKeepInvariant(d: Disk, batches: seq<seq<Item>>, plan: Plan, k: nat)
    requires k <= |batches|
    requires DistinctItems(Concat(batches)) && AllStale(Concat(batches), d.rows)
    ensures RunInvariant(d.rows, Concat(batches[..k]), AfterBatches(d, batches, plan, k))
  {
    if k > 0 {
      var handled, batch := Concat(batches[..k - 1]), batches[k - 1];
      var p := AfterBatches(d, batches, plan, k - 1);
      BatchesKeepInvariant(d, batches, plan, k - 1);
      ConcatTake(batches, k - 1);
      ConcatPrefix(batches, k);
      PrefixKeepsBoth(handled + batch, Concat(batches), d.rows);
      StepKeepsInvariant(d.rows, handled, batch, p, plan(k - 1));
    }
  }

  /** What a run stores: some of the stale nodes, each once; all of them when its status is done. */
  lemma RunFacts(d: Disk, nodes: seq<Node>, sha: string -> string, plan: Plan, concurrency: nat)
    requires 0 < concurrency && DistinctNodes(nodes)
    ensures var rows := AfterPrune(d, NodeIdsOf(nodes)).rows;
      var p := Run(d, nodes, sha, plan, concurrency);
      && p.disk.rows == Stored(rows, p.done)
      && DistinctItems(p.done)
      && (forall x | x in p.done :: x in Pending(nodes, rows, sha))
      && (StatusOf(p) == Done ==> forall x | x in Pending(nodes, rows, sha) :: x in p.done)
  {
    var pruned := AfterPrune(d, NodeIdsOf(nodes));
    var pending := Pending(nodes, pruned.rows, sha);
    var batches := Chunks(pending, concurrency);
    PendingItems(nodes, pruned.rows, sha);
    ConcatChunks(pending, concurrency);
    BatchesKeepInvariant(pruned, batches, plan, |batches|);
    assert batches[..|batches|] == batches;
  }

  // Stale nodes as a measure.

  /** after is before less these items, in number, in characters and by node. */
  ghost predicate Without(after: seq<Item>, before: seq<Item>, items: seq<Item>) {
    && |after| + |items| == |before|
    && CharsOf(after) + CharsOf(items) == CharsOf(before)
    && (forall x :: x in after <==> x in before && x.nodeId !in Ids(items))
  }

  lemma WithoutBoth(after: seq<Item>, middle: seq<Item>, before: seq<Item>, items: seq<Item>, more: seq<Item>)
    requires Without(middle, before, items) && Without(after, middle, more)
    ensures Without(after, before, items + more)
  {
    CharsConcat(items, more);
    assert Ids(items + more) == Ids(items) + Ids(more);
  }

  lemma WithoutThenTail(after: seq<Item>, before: seq<Item>, item: Item, tail: seq<Item>)
    requires Without(after, before, [item])
    requires forall y | y in tail :: y.nodeId != item.nodeId
    ensures Without(after + tail, before + tail, [item])
  {
    CharsConcat(after, tail);
    CharsConcat(before, tail);
    assert Ids([item]) == {item.nodeId};
  }

  lemma WithoutLast(before: seq<Item>, item: Item)
    requires forall y | y in before :: y.nodeId != item.nodeId
    ensures Without(before, before + [item], [item])
  {
    CharsConcat(before, [item]);
    assert Ids([item]) == {item.nodeId};
  }

  lemma {:induction false} PendingUnaffected(
    nodes: seq<Node>, rows: map<string, AudioRow>, sha: string -> string, id: string, row: AudioRow)
    requires id !in NodeIdsOf(nodes)
    ensures Pending(nodes, rows[id := row], sha) == Pending(nodes, rows, sha)
  {
    if nodes != [] {
      var n := |nodes| - 1;
      assert nodes[n] in nodes && forall m | m in nodes[..n] :: m in nodes;
      PendingUnaffected(nodes[..n], rows, sha, id, row);
    }
  }

  lemma StoreLast(nodes: seq<Node>, rows: map<string, AudioRow>, sha: string -> string, item: Item)
    requires DistinctNodes(nodes) && nodes != [] && StaleItem(nodes[|nodes| - 1], rows, sha) == [item]
    ensures Without(Pending(nodes, rows[item.nodeId := PutOf(item, "").Row()], sha), Pending(nodes, rows, sha), [item])
  {
    var n := |nodes| - 1;
    var stored := rows[item.nodeId := PutOf(item, "").Row()];
    LastIsNew(nodes);
    PendingItems(nodes[..n], rows, sha);
    PendingUnaffected(nodes[..n], rows, sha, item.nodeId, PutOf(item, "").Row());
    var before := Pending(nodes[..n], rows, sha);
    assert Pending(nodes, stored, sha) == before + [] == before;
    assert Pending(nodes, rows, sha) == before + [item];
    WithoutLast(before, item);
  }

  /** Storing one stale node takes exactly it off the list. */
  lemma {:induction false} StoreOne(nodes: seq<Node>, rows: map<string, AudioRow>, sha: string -> string, item: Item)
    requires DistinctNodes(nodes) && item in Pending(nodes, rows, sha)
    ensures Without(Pending(nodes, rows[item.nodeId := PutOf(item, "").Row()], sha), Pending(nodes, rows, sha), [item])
  {
    var n := |nodes| - 1;
    var before, tail := Pending(nodes[..n], rows, sha), StaleItem(nodes[n], rows, sha);
    assert Pending(nodes, rows, sha) == before + tail;
    if item in before {
      var stored := rows[item.nodeId := PutOf(item, "").Row()];
      LastIsNew(nodes);
      PendingItems(nodes[..n], rows, sha);
      StoreOne(nodes[..n], rows, sha, item);
      assert Pending(nodes, stored, sha) == Pending(nodes[..n], stored, sha) + tail;
      WithoutThenTail(Pending(nodes[..n], stored, sha), before, item, tail);
    } else {
      assert tail == [item];
      StoreLast(nodes, rows, sha, item);
    }
  }

  /** Storing several: the list shrinks by exactly them, in number and in characters. */
  lemma {:induction false} StoreMany(
    nodes: seq<Node>, rows: map<string, AudioRow>, sha: string -> string, done: seq<Item>)
    requires DistinctNodes(nodes) && DistinctItems(done)
    requires forall x | x in done :: x in Pending(nodes, rows, sha)
    ensures Without(Pending(nodes, Stored(rows, done), sha), Pending(nodes, rows, sha), done)
  {
    if done != [] {
      var n := |done| - 1;
      var init, last := done[..n], done[n];
      assert done == init + [last] && last in done && forall x | x in init :: x in done;
      StoreMany(nodes, rows, sha, init);
      StoreOne(nodes, Stored(rows, init), sha, last);
      WithoutBoth(Pending(nodes, Stored(rows, done), sha), Pending(nodes, Stored(rows, init), sha),
                  Pending(nodes, rows, sha), init, [last]);
    }
  }

  /** Pruning does not make any node stale or fresh. */
  lemma {:induction false} PendingAfterPrune(nodes: seq<Node>, d: Disk, keep: set<string>, sha: string -> string)
    requires NodeIdsOf(nodes) <= keep
    ensures Pending(nodes, AfterPrune(d, keep).rows, sha) == Pending(nodes, d.rows, sha)
  {
    if nodes != [] {
      var n := |nodes| - 1;
      assert nodes[n] in nodes && forall m | m in nodes[..n] :: m in nodes;
      assert nodes[n].nodeId in NodeIdsOf(nodes);
      PendingAfterPrune(nodes[..n], d, keep, sha);
    }
  }

  /** A run stores some of the stale nodes, each once, and leaves the others stale. */
  lemma RunShrinksPending(d: Disk, nodes: seq<Node>, sha: string -> string, plan: Plan, concurrency: nat)
    requires 0 < concurrency && DistinctNodes(nodes)
    ensures var p := Run(d, nodes, sha, plan, concurrency);
      var before, after := Pending(nodes, d.rows, sha), Pending(nodes, p.disk.rows, sha);
      && DistinctItems(p.done)
      && (forall x | x in p.done :: x in before)
      && Without(after, before, p.done)
  {
    RunFacts(d, nodes, sha, plan, concurrency);
    PendingAfterPrune(nodes, d, NodeIdsOf(nodes), sha);
    StoreMany(nodes, AfterPrune(d, NodeIdsOf(nodes)).rows, sha, Run(d, nodes, sha, plan, concurrency).done);
  }

  // Completeness.

  /** The (node, hash) map computed directly from the nodes. */
  function Target(nodes: seq<Node>, sha: string -> string): map<string, string> {
    if nodes == [] then map[]
    else
      var last := nodes[|nodes| - 1];
      Target(nodes[..|nodes| - 1], sha)[last.nodeId := sha(last.text)]
  }

  ghost predicate HashesMatch(nodes: seq<Node>, rows: map<string, AudioRow>, sha: string -> string) {
    && Target(nodes, sha).Keys == NodeIdsOf(nodes)
    && forall id | id in NodeIdsOf(nodes) :: id in rows && rows[id].sourceHash == Target(nodes, sha)[id]
  }

  lemma MatchWithLast(init: seq<Node>, last: Node, rows: map<string, AudioRow>, sha: string -> string)
    requires HashesMatch(init, rows, sha) && StaleItem(last, rows, sha) == []
    ensures HashesMatch(init + [last], rows, sha)
  {
    NodeIdsSnoc(init, last);
    assert (init + [last])[..|init|] == init;
    assert Target(init + [last], sha) == Target(init, sha)[last.nodeId := sha(last.text)];
  }

  lemma {:induction false} NothingPendingMeansTarget(
    nodes: seq<Node>, rows: map<string, AudioRow>, sha: string -> string)
    requires Pending(nodes, rows, sha) == []
    ensures HashesMatch(nodes, rows, sha)
  {
    if nodes != [] {
      var n := |nodes| - 1;
      assert Pending(nodes, rows, sha) == Pending(nodes[..n], rows, sha) + StaleItem(nodes[n], rows, sha);
      NothingPendingMeansTarget(nodes[..n], rows, sha);
      assert nodes == nodes[..n] + [nodes[n]];
      MatchWithLast(nodes[..n], nodes[n], rows, sha);
    }
  }

  lemma {:induction false} StoredKeys(rows: map<string, AudioRow>, done: seq<Item>)
    ensures Stored(rows, done).Keys == rows.Keys + Ids(done)
  {
    if done != [] {
      var n := |done| - 1;
      StoredKeys(rows, done[..n]);
      assert done == done[..n] + [done[n]];
    }
  }

  lemma {:induction false} DoneHasTheKeys(
    d: Disk, nodes: seq<Node>, sha: string -> string, plan: Plan, concurrency: nat)
    requires 0 < concurrency && DistinctNodes(nodes)
    ensures Run(d, nodes, sha, plan, concurrency).disk.rows.Keys <= NodeIdsOf(nodes)
  {
    var p := Run(d, nodes, sha, plan, concurrency);
    var pruned := AfterPrune(d, NodeIdsOf(nodes)).rows;
    RunFacts(d, nodes, sha, plan, concurrency);
    StoredKeys(pruned, p.done);
    PendingItems(nodes, pruned, sha);
  }

  lemma {:induction false} DoneLeavesNothing(
    d: Disk, nodes: seq<Node>, sha: string -> string, plan: Plan, concurrency: nat)
    requires 0 < concurrency && DistinctNodes(nodes)
    requires StatusOf(Run(d, nodes, sha, plan, concurrency)) == Done
    ensures Pending(nodes, Run(d, nodes, sha, plan, concurrency).disk.rows, sha) == []
  {
    var p := Run(d, nodes, sha, plan, concurrency);
    RunFacts(d, nodes, sha, plan, concurrency);
    RunShrinksPending(d, nodes, sha, plan, concurrency);
    PendingAfterPrune(nodes, d, NodeIdsOf(nodes), sha);
  }

  lemma {:induction false} MatchingHashes(nodes: seq<Node>, rows: map<string, AudioRow>, sha: string -> string)
    requires HashesMatch(nodes, rows, sha) && rows.Keys <= NodeIdsOf(nodes)
    ensures HashesOf(rows) == Target(nodes, sha)
  {
    assert rows.Keys == NodeIdsOf(nodes);
  }

  /** A run that ends in "done" leaves exactly the hashes of the book as it is, whatever the store held before. */
  lemma {:induction false} DoneMeansComplete(
    d: Disk, nodes: seq<Node>, sha: string -> string, plan: Plan, concurrency: nat)
    requires 0 < concurrency && DistinctNodes(nodes)
    requires StatusOf(Run(d, nodes, sha, plan, concurrency)) == Done
    ensures HashesOf(Run(d, nodes, sha, plan, concurrency).disk.rows) == Target(nodes, sha)
  {
    var rows := Run(d, nodes, sha, plan, concurrency).disk.rows;
    DoneLeavesNothing(d, nodes, sha, plan, concurrency);
    NothingPendingMeansTarget(nodes, rows, sha);
    DoneHasTheKeys(d, nodes, sha, plan, concurrency);
    MatchingHashes(nodes, rows, sha);
  }

  // Chains.

  /** The store after a series of runs on the same book. */
  function AfterRuns(d: Disk, nodes: seq<Node>, sha: string -> string, plans: seq<Plan>, concurrency: nat): Disk
    requires 0 < concurrency
  {
    if plans == [] then d
    else
      var n := |plans| - 1;
      Run(AfterRuns(d, nodes, sha, plans[..n], concurrency), nodes, sha, plans[n], concurrency).disk
  }

  /** Everything the runs narrated, in order. */
  function NarratedInAll(
    d: Disk, nodes: seq<Node>, sha: string -> string, plans: seq<Plan>, concurrency: nat): seq<Item>
    requires 0 < concurrency
  {
    if plans == [] then []
    else
      var n := |plans| - 1;
      NarratedInAll(d, nodes, sha, plans[..n], concurrency)
      + Run(AfterRuns(d, nodes, sha, plans[..n], concurrency), nodes, sha, plans[n], concurrency).done
  }

  /** The run with this number, after those before it. */
  function NthRun(
    d: Disk, nodes: seq<Node>, sha: string -> string, plans: seq<Plan>, concurrency: nat, r: nat): Progress
    requires 0 < concurrency && r < |plans|
  {
    Run(AfterRuns(d, nodes, sha, plans[..r], concurrency), nodes, sha, plans[r], concurrency)
  }

  lemma BothDistinct(left: seq<Item>, before: seq<Item>, earlier: seq<Item>, added: seq<Item>)
    requires Without(left, before, earlier)
    requires DistinctItems(earlier) && DistinctItems(added) && forall x | x in added :: x in left
    ensures DistinctItems(earlier + added)
  {
    forall i, j | 0 <= i < |earlier| && 0 <= j < |added| ensures earlier[i].nodeId != added[j].nodeId {
      assert earlier[i] in earlier && added[j] in added;
      assert added[j].nodeId !in Ids(earlier);
    }
  }

  /**
    Over any series of runs, each stale node is stored and paid for at most once and no other node is, and
    the characters narrated in all are those of the nodes that went from stale to stored.
   */
  lemma {:induction false} RunsNarrateOnce(
    d: Disk, nodes: seq<Node>, sha: string -> string, plans: seq<Plan>, concurrency: nat)
    requires 0 < concurrency && DistinctNodes(nodes)
    ensures var all := NarratedInAll(d, nodes, sha, plans, concurrency);
      var before := Pending(nodes, d.rows, sha);
      var after := Pending(nodes, AfterRuns(d, nodes, sha, plans, concurrency).rows, sha);
      && DistinctItems(all)
      && (forall x | x in all :: x in before)
      && Without(after, before, all)
  {
    if plans != [] {
      var n := |plans| - 1;
      var d' := AfterRuns(d, nodes, sha, plans[..n], concurrency);
      var earlier := NarratedInAll(d, nodes, sha, plans[..n], concurrency);
      var p := Run(d', nodes, sha, plans[n], concurrency);
      RunsNarrateOnce(d, nodes, sha, plans[..n], concurrency);
      RunShrinksPending(d', nodes, sha, plans[n], concurrency);
      var pending := Pending(nodes, d.rows, sha);
      var left := Pending(nodes, d'.rows, sha);
      BothDistinct(left, pending, earlier, p.done);
      WithoutBoth(Pending(nodes, p.disk.rows, sha), left, pending, earlier, p.done);
    }
  }

  // Progress.

  /** A batch of which something is narrated. */
  predicate StoresSome(batch: seq<Item>, decision: Decision) {
    (decision.Narrate? || decision.Abort?) && Narrated(Handled(batch, decision), decision.ok) != []
  }

  predicate AllNarrate(plan: Plan, k: nat) {
    forall i: nat | i < k :: plan(i).Narrate?
  }

  /**
    Of the first k batches, one is reached without a cancel, a time-out or an exception, and something of it is
    narrated.
   */
  ghost predicate Productive(batches: seq<seq<Item>>, plan: Plan, k: nat)
    requires k <= |batches|
  {
    exists j :: 0 <= j < k && AllNarrate(plan, j) && StoresSome(batches[j], plan(j))
  }

  lemma StillRunningIff(p: Progress, batch: seq<Item>, decision: Decision)
    ensures AfterDecision(p, batch, decision).stop == Running <==> p.stop == Running && decision.Narrate?
  {
  }

  lemma AllNarrateStep(plan: Plan, k: nat)
    ensures AllNarrate(plan, k + 1) <==> AllNarrate(plan, k) && plan(k).Narrate?
  {
  }

  lemma {:induction false} RunningIff(d: Disk, batches: seq<seq<Item>>, plan: Plan, k: nat)
    requires k <= |batches|
    ensures AfterBatches(d, batches, plan, k).stop == Running <==> AllNarrate(plan, k)
  {
    if k > 0 {
      var p := AfterBatches(d, batches, plan, k - 1);
      RunningIff(d, batches, plan, k - 1);
      AllNarrateStep(plan, k - 1);
      StillRunningIff(p, batches[k - 1], plan(k - 1));
      assert AfterBatches(d, batches, plan, k) == AfterDecision(p, batches[k - 1], plan(k - 1));
    }
  }

  /** Of the first k batches, one is reached and ended by an exception. */
  ghost predicate Excepted(plan: Plan, k: nat) {
    exists j :: 0 <= j < k && AllNarrate(plan, j) && plan(j).Abort?
  }

  lemma ExceptedStep(plan: Plan, k: nat)
    ensures Excepted(plan, k + 1) <==> Excepted(plan, k) || (AllNarrate(plan, k) && plan(k).Abort?)
  {
  }

  lemma AbortedNowIff(p: Progress, batch: seq<Item>, decision: Decision)
    ensures AfterDecision(p, batch, decision).stop == Aborted
      <==> p.stop == Aborted || (p.stop == Running && decision.Abort?)
  {
  }

  /** A run is aborted exactly when it reaches a batch that an exception ends. */
  lemma {:induction false} AbortedIff(d: Disk, batches: seq<seq<Item>>, plan: Plan, k: nat)
    requires k <= |batches|
    ensures AfterBatches(d, batches, plan, k).stop == Aborted <==> Excepted(plan, k)
  {
    if k > 0 {
      var p := AfterBatches(d, batches, plan, k - 1);
      AbortedIff(d, batches, plan, k - 1);
      RunningIff(d, batches, plan, k - 1);
      ExceptedStep(plan, k - 1);
      AbortedNowIff(p, batches[k - 1], plan(k - 1));
      assert AfterBatches(d, batches, plan, k) == AfterDecision(p, batches[k - 1], plan(k - 1));
    }
  }

  lemma {:induction false} ProductiveStep(batches: seq<seq<Item>>, plan: Plan, k: nat)
    requires k < |batches|
    ensures Productive(batches, plan, k + 1)
      <==> Productive(batches, plan, k) || (AllNarrate(plan, k) && StoresSome(batches[k], plan(k)))
  {
  }

  /** With no other run at work nothing of a batch has been narrated when it comes up. */
  lemma {:induction false} NothingDroppedNow(d: Disk, batches: seq<seq<Item>>, plan: Plan, k: nat)
    requires k < |batches| && DistinctItems(Concat(batches)) && AllStale(Concat(batches), d.rows)
    ensures var p := AfterBatches(d, batches, plan, k);
      p.stop == Running ==> Outstanding(batches[k], p.disk.rows) == batches[k]
  {
    var handled, batch := Concat(batches[..k]), batches[k];
    var p := AfterBatches(d, batches, plan, k);
    if p.stop == Running {
      BatchesKeepInvariant(d, batches, plan, k);
      ConcatTake(batches, k);
      ConcatPrefix(batches, k + 1);
      PrefixKeepsBoth(handled + batch, Concat(batches), d.rows);
      BatchIsOutstanding(d.rows, handled, batch, p, map[]);
    }
  }

  lemma {:induction false} DoneAfterDecision(p: Progress, planned: seq<Item>, decision: Decision)
    requires p.stop == Running ==> Outstanding(planned, p.disk.rows) == planned
    ensures AfterDecision(p, planned, decision).done == []
      <==> p.done == [] && !(p.stop == Running && StoresSome(planned, decision))
  {
  }

  lemma {:induction false} BatchesProductiveIff(d: Disk, batches: seq<seq<Item>>, plan: Plan, k: nat)
    requires k <= |batches| && DistinctItems(Concat(batches)) && AllStale(Concat(batches), d.rows)
    ensures AfterBatches(d, batches, plan, k).done != [] <==> Productive(batches, plan, k)
  {
    if k > 0 {
      BatchesProductiveIff(d, batches, plan, k - 1);
      ProductiveStep(batches, plan, k - 1);
      RunningIff(d, batches, plan, k - 1);
      NothingDroppedNow(d, batches, plan, k - 1);
      DoneAfterDecision(AfterBatches(d, batches, plan, k - 1), batches[k - 1], plan(k - 1));
    }
  }

  /** The batches a run works through. */
  function BatchesOf(d: Disk, nodes: seq<Node>, sha: string -> string, concurrency: nat): seq<seq<Item>>
    requires 0 < concurrency
  {
    Chunks(Pending(nodes, d.rows, sha), concurrency)
  }

  /** A run makes progress exactly when it reaches a batch of which the provider answers for some node. */
  lemma {:induction false} RunProductiveIff(
    d: Disk, nodes: seq<Node>, sha: string -> string, plan: Plan, concurrency: nat)
    requires 0 < concurrency && DistinctNodes(nodes)
    ensures var batches := BatchesOf(d, nodes, sha, concurrency);
      Run(d, nodes, sha, plan, concurrency).done != [] <==> Productive(batches, plan, |batches|)
  {
    var pruned := AfterPrune(d, NodeIdsOf(nodes));
    var batches := BatchesOf(pruned, nodes, sha, concurrency);
    PendingAfterPrune(nodes, d, NodeIdsOf(nodes), sha);
    PendingItems(nodes, pruned.rows, sha);
    ConcatChunks(Pending(nodes, pruned.rows, sha), concurrency);
    BatchesProductiveIff(pruned, batches, plan, |batches|);
  }

  /** How many runs of a series make progress. */
  function ProductiveRuns(d: Disk, nodes: seq<Node>, sha: string -> string, plans: seq<Plan>, concurrency: nat): nat
    requires 0 < concurrency
  {
    if plans == [] then 0
    else
      var n := |plans| - 1;
      ProductiveRuns(d, nodes, sha, plans[..n], concurrency)
      + if Run(AfterRuns(d, nodes, sha, plans[..n], concurrency), nodes, sha, plans[n], concurrency).done != []
           then 1 else 0
  }

  lemma {:induction false} EachRunCounts(
    d: Disk, nodes: seq<Node>, sha: string -> string, plans: seq<Plan>, concurrency: nat)
    requires 0 < concurrency
    ensures ProductiveRuns(d, nodes, sha, plans, concurrency) <= |NarratedInAll(d, nodes, sha, plans, concurrency)|
  {
    if plans != [] {
      EachRunCounts(d, nodes, sha, plans[..|plans| - 1], concurrency);
    }
  }

  /** In any series of runs, no more make progress than there were stale nodes. */
  lemma {:induction false} ChainIsBounded(
    d: Disk, nodes: seq<Node>, sha: string -> string, plans: seq<Plan>, concurrency: nat)
    requires 0 < concurrency && DistinctNodes(nodes)
    ensures ProductiveRuns(d, nodes, sha, plans, concurrency) <= |Pending(nodes, d.rows, sha)|
  {
    RunsNarrateOnce(d, nodes, sha, plans, concurrency);
    EachRunCounts(d, nodes, sha, plans, concurrency);
  }

  /** Every run of the series is out of time at its first batch. */
  predicate AllOutOfTime(plans: seq<Plan>) {
    forall r | 0 <= r < |plans| :: plans[r](0) == OutOfTime
  }

  /** Every run of the series asks for another one. */
  ghost predicate AllContinue(d: Disk, nodes: seq<Node>, sha: string -> string, plans: seq<Plan>, concurrency: nat)
    requires 0 < concurrency
  {
    plans != [] ==>
      var n := |plans| - 1;
      && AllContinue(d, nodes, sha, plans[..n], concurrency)
      && StatusOf(Run(AfterRuns(d, nodes, sha, plans[..n], concurrency), nodes, sha, plans[n], concurrency))
         == ContinuingRun
  }

  lemma {:induction false} EmptySlice(d: Disk, nodes: seq<Node>, sha: string -> string, plan: Plan, concurrency: nat)
    requires 0 < concurrency && Pending(nodes, d.rows, sha) != [] && plan(0) == OutOfTime
    ensures var p := Run(d, nodes, sha, plan, concurrency);
      && p == Progress(AfterPrune(d, NodeIdsOf(nodes)), [], [], Continuing)
      && Pending(nodes, p.disk.rows, sha) == Pending(nodes, d.rows, sha)
  {
    var pruned := AfterPrune(d, NodeIdsOf(nodes));
    PendingAfterPrune(nodes, d, NodeIdsOf(nodes), sha);
    var batches := BatchesOf(pruned, nodes, sha, concurrency);
    assert AfterBatches(pruned, batches, plan, 1) == Progress(pruned, [], [], Continuing);
    StoppedStays(pruned, batches, plan, 1);
  }

  /**
    Runs that are out of time at their first batch leave the list of stale nodes as it is, however many follow one
    another, and each asks for the next.
   */
  lemma {:induction false} EmptySlicesMakeNoProgress(
    d: Disk, nodes: seq<Node>, sha: string -> string, plans: seq<Plan>, concurrency: nat)
    requires 0 < concurrency && Pending(nodes, d.rows, sha) != [] && AllOutOfTime(plans)
    ensures Pending(nodes, AfterRuns(d, nodes, sha, plans, concurrency).rows, sha) == Pending(nodes, d.rows, sha)
    ensures AllContinue(d, nodes, sha, plans, concurrency)
  {
    if plans != [] {
      var n := |plans| - 1;
      EmptySlicesMakeNoProgress(d, nodes, sha, plans[..n], concurrency);
      EmptySlice(AfterRuns(d, nodes, sha, plans[..n], concurrency), nodes, sha, plans[n], concurrency);
    }
  }

  function Stalls(n: nat): (plans: seq<Plan>)
    ensures |plans| == n && AllOutOfTime(plans)
  {
    if n == 0 then [] else Stalls(n - 1) + [k => OutOfTime]
  }

  /** So a chain can be as long as one likes: with anything to narrate, there is one of every length. */
  lemma {:induction false} ChainsHaveNoBound(d: Disk, nodes: seq<Node>, sha: string -> string, concurrency: nat, n: nat)
    requires 0 < concurrency && Pending(nodes, d.rows, sha) != []
    ensures exists plans :: |plans| == n && AllContinue(d, nodes, sha, plans, concurrency)
  {
    EmptySlicesMakeNoProgress(d, nodes, sha, Stalls(n), concurrency);
  }
}
