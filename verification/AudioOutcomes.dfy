/**
  What a narration run leaves behind, read off its plan: which nodes are narrated and which fail, how the run ends, and
  what is in the files.
 */
module AudioOutcomes {
  import opened Common
  import opened AudioStore
  import opened AudioRun
  import opened AudioChain

  // The lists.

  /** The node has no row, or one with another hash. */
  predicate NeedsNarration(node: Node, rows: map<string, AudioRow>, sha: string -> string) {
    node.nodeId in rows ==> rows[node.nodeId].sourceHash != sha(node.text)
  }

  /** The stale nodes, each with its text and the hash of it. */
  lemma {:induction false} PendingMembers(nodes: seq<Node>, rows: map<string, AudioRow>, sha: string -> string)
    ensures forall x :: x in Pending(nodes, rows, sha) <==>
      exists node :: node in nodes && NeedsNarration(node, rows, sha)
                     && x == Item(node.nodeId, node.text, sha(node.text))
  {
    if nodes != [] {
      var n := |nodes| - 1;
      PendingMembers(nodes[..n], rows, sha);
      assert nodes == nodes[..n] + [nodes[n]];
    }
  }

  /** They are in reading order. */
  lemma {:induction false} PendingInOrder(
    a: seq<Node>, b: seq<Node>, rows: map<string, AudioRow>, sha: string -> string)
    ensures Pending(a + b, rows, sha) == Pending(a, rows, sha) + Pending(b, rows, sha)
  {
    if b == [] {
      assert a + b == a;
    } else {
      var n := |b| - 1;
      PendingInOrder(a, b[..n], rows, sha);
      assert (a + b)[..|a + b| - 1] == a + b[..n] && (a + b)[|a + b| - 1] == b[n];
      assert Pending(a + b, rows, sha) == Pending(a + b[..n], rows, sha) + StaleItem(b[n], rows, sha);
    }
  }

  /** What another run has narrated meanwhile is not narrated again, and everything else is. */
  lemma {:induction false} OutstandingMembers(batch: seq<Item>, rows: map<string, AudioRow>)
    ensures forall x ::
      x in Outstanding(batch, rows) <==> x in batch && (x.nodeId in rows ==> rows[x.nodeId].sourceHash != x.hash)
  {
    if batch != [] {
      var n := |batch| - 1;
      OutstandingMembers(batch[..n], rows);
      assert batch == batch[..n] + [batch[n]];
    }
  }

  lemma {:induction false} NarratedMembers(batch: seq<Item>, ok: map<string, string>)
    ensures forall x :: x in Narrated(batch, ok) <==> x in batch && x.nodeId in ok
  {
    if batch != [] {
      var n := |batch| - 1;
      NarratedMembers(batch[..n], ok);
      assert batch == batch[..n] + [batch[n]];
    }
  }

  lemma {:induction false} FailedMembers(batch: seq<Item>, ok: map<string, string>)
    ensures forall id :: id in FailedIds(batch, ok) <==> id !in ok && exists x :: x in batch && x.nodeId == id
  {
    if batch != [] {
      var n := |batch| - 1;
      FailedMembers(batch[..n], ok);
      assert batch == batch[..n] + [batch[n]];
    }
  }

  // Who is narrated, and how a run ends.

  /** Item i of batch k comes up: no earlier batch ends the run, and no exception comes before it. */
  predicate ComesUp(plan: Plan, k: nat, i: nat) {
    AllNarrate(plan, k) && (plan(k).Narrate? || (plan(k).Abort? && i < plan(k).handled))
  }

  /** The item comes up in one of the first n batches, and the provider answers for it. */
  ghost predicate IsNarrated(batches: seq<seq<Item>>, plan: Plan, n: nat, x: Item)
    requires n <= |batches|
  {
    exists k, i :: 0 <= k < n && 0 <= i < |batches[k]| && batches[k][i] == x && ComesUp(plan, k, i)
                   && x.nodeId in plan(k).ok
  }

  /** A node of this id comes up, and the provider does not answer for it. */
  ghost predicate IsFailed(batches: seq<seq<Item>>, plan: Plan, n: nat, id: string)
    requires n <= |batches|
  {
    exists k, i :: 0 <= k < n && 0 <= i < |batches[k]| && batches[k][i].nodeId == id && ComesUp(plan, k, i)
                   && id !in plan(k).ok
  }

  /** The items of a batch that come up. */
  lemma HandledMembers(batch: seq<Item>, plan: Plan, k: nat, x: Item)
    requires AllNarrate(plan, k)
    ensures x in Handled(batch, plan(k)) <==> exists i :: 0 <= i < |batch| && batch[i] == x && ComesUp(plan, k, i)
  {
  }

  lemma IsNarratedStep(batches: seq<seq<Item>>, plan: Plan, k: nat, x: Item)
    requires k < |batches|
    ensures IsNarrated(batches, plan, k + 1, x) <==>
      || IsNarrated(batches, plan, k, x)
      || (AllNarrate(plan, k) && (plan(k).Narrate? || plan(k).Abort?)
          && x in Handled(batches[k], plan(k)) && x.nodeId in plan(k).ok)
  {
    if AllNarrate(plan, k) {
      HandledMembers(batches[k], plan, k, x);
    }
  }

  lemma IsFailedStep(batches: seq<seq<Item>>, plan: Plan, k: nat, id: string)
    requires k < |batches|
    ensures IsFailed(batches, plan, k + 1, id) <==>
      || IsFailed(batches, plan, k, id)
      || (AllNarrate(plan, k) && (plan(k).Narrate? || plan(k).Abort?) && id !in plan(k).ok
          && exists x :: x in Handled(batches[k], plan(k)) && x.nodeId == id)
  {
    if AllNarrate(plan, k) {
      forall x | x in batches[k] {
        HandledMembers(batches[k], plan, k, x);
      }
    }
  }

  /** What a run's lists hold after its first n batches. */
  ghost predicate ListsAre(p: Progress, batches: seq<seq<Item>>, plan: Plan, n: nat)
    requires n <= |batches|
  {
    && (forall x :: x in p.done <==> IsNarrated(batches, plan, n, x))
    && (forall id :: id in p.failed <==> IsFailed(batches, plan, n, id))
  }

  lemma ListsStep(p: Progress, batches: seq<seq<Item>>, plan: Plan, k: nat)
    requires k < |batches| && ListsAre(p, batches, plan, k) && (p.stop == Running <==> AllNarrate(plan, k))
    requires p.stop == Running ==> Outstanding(batches[k], p.disk.rows) == batches[k]
    ensures ListsAre(AfterDecision(p, batches[k], plan(k)), batches, plan, k + 1)
  {
    var q := AfterDecision(p, batches[k], plan(k));
    if p.stop == Running && (plan(k).Narrate? || plan(k).Abort?) {
      NarratedMembers(Handled(batches[k], plan(k)), plan(k).ok);
      FailedMembers(Handled(batches[k], plan(k)), plan(k).ok);
    }
    forall x ensures x in q.done <==> IsNarrated(batches, plan, k + 1, x) {
      IsNarratedStep(batches, plan, k, x);
    }
    forall id ensures id in q.failed <==> IsFailed(batches, plan, k + 1, id) {
      IsFailedStep(batches, plan, k, id);
    }
  }

  lemma NextLists(d: Disk, batches: seq<seq<Item>>, plan: Plan, k: nat)
    requires k < |batches| && DistinctItems(Concat(batches)) && AllStale(Concat(batches), d.rows)
    requires ListsAre(AfterBatches(d, batches, plan, k), batches, plan, k)
    ensures ListsAre(AfterBatches(d, batches, plan, k + 1), batches, plan, k + 1)
  {
    var p := AfterBatches(d, batches, plan, k);
    RunningIff(d, batches, plan, k);
    NothingDroppedNow(d, batches, plan, k);
    ListsStep(p, batches, plan, k);
    assert AfterBatches(d, batches, plan, k + 1) == AfterDecision(p, batches[k], plan(k));
  }

  lemma {:induction false} ListsAfterBatches(d: Disk, batches: seq<seq<Item>>, plan: Plan, k: nat)
    requires k <= |batches| && DistinctItems(Concat(batches)) && AllStale(Concat(batches), d.rows)
    ensures ListsAre(AfterBatches(d, batches, plan, k), batches, plan, k)
  {
    if k > 0 {
      ListsAfterBatches(d, batches, plan, k - 1);
      NextLists(d, batches, plan, k - 1);
    }
  }

  /**
    A run narrates exactly the stale nodes that come up and are answered, and lists as failed exactly those that come
    up and are not.
   */
  lemma {:induction false} RunListsIff(d: Disk, nodes: seq<Node>, sha: string -> string, plan: Plan, concurrency: nat)
    requires 0 < concurrency && DistinctNodes(nodes)
    ensures var batches := BatchesOf(d, nodes, sha, concurrency);
      ListsAre(Run(d, nodes, sha, plan, concurrency), batches, plan, |batches|)
  {
    var pruned := AfterPrune(d, NodeIdsOf(nodes));
    var batches := BatchesOf(pruned, nodes, sha, concurrency);
    PendingAfterPrune(nodes, d, NodeIdsOf(nodes), sha);
    PendingItems(nodes, pruned.rows, sha);
    ConcatChunks(Pending(nodes, pruned.rows, sha), concurrency);
    ListsAfterBatches(pruned, batches, plan, |batches|);
  }

  /** One of the first n batches is reached, and this is decided there. */
  ghost predicate Meets(plan: Plan, n: nat, decision: Decision) {
    exists j :: 0 <= j < n && AllNarrate(plan, j) && plan(j) == decision
  }

  lemma MeetsStep(plan: Plan, k: nat, decision: Decision)
    ensures Meets(plan, k + 1, decision) <==> Meets(plan, k, decision) || (AllNarrate(plan, k) && plan(k) == decision)
  {
  }

  lemma StopsNowIff(p: Progress, batch: seq<Item>, decision: Decision)
    ensures AfterDecision(p, batch, decision).stop == Cancelled
      <==> p.stop == Cancelled || (p.stop == Running && decision == Cancel)
    ensures AfterDecision(p, batch, decision).stop == Continuing
      <==> p.stop == Continuing || (p.stop == Running && decision == OutOfTime)
  {
  }

  lemma {:induction false} StopsIff(d: Disk, batches: seq<seq<Item>>, plan: Plan, k: nat)
    requires k <= |batches|
    ensures AfterBatches(d, batches, plan, k).stop == Cancelled <==> Meets(plan, k, Cancel)
    ensures AfterBatches(d, batches, plan, k).stop == Continuing <==> Meets(plan, k, OutOfTime)
  {
    if k > 0 {
      var p := AfterBatches(d, batches, plan, k - 1);
      StopsIff(d, batches, plan, k - 1);
      RunningIff(d, batches, plan, k - 1);
      MeetsStep(plan, k - 1, Cancel);
      MeetsStep(plan, k - 1, OutOfTime);
      StopsNowIff(p, batches[k - 1], plan(k - 1));
      assert AfterBatches(d, batches, plan, k) == AfterDecision(p, batches[k - 1], plan(k - 1));
    }
  }

  /** No node fails, however far the run gets. */
  ghost predicate NoneFails(batches: seq<seq<Item>>, plan: Plan) {
    forall id :: !IsFailed(batches, plan, |batches|, id)
  }

  /**
    How a run ends: cancelled, continued or aborted exactly when it reaches a batch where that is decided; otherwise
    done when no node fails, and partial when one does.
   */
  lemma {:induction false} StatusIff(d: Disk, nodes: seq<Node>, sha: string -> string, plan: Plan, concurrency: nat)
    requires 0 < concurrency && DistinctNodes(nodes)
    ensures var batches := BatchesOf(d, nodes, sha, concurrency);
      var status, n := StatusOf(Run(d, nodes, sha, plan, concurrency)), |batches|;
      && (status == CancelledRun <==> Meets(plan, n, Cancel))
      && (status == ContinuingRun <==> Meets(plan, n, OutOfTime))
      && (status == AbortedRun <==> Excepted(plan, n))
      && (status == Done <==> AllNarrate(plan, n) && NoneFails(batches, plan))
      && (status == Partial <==> AllNarrate(plan, n) && !NoneFails(batches, plan))
  {
    var pruned := AfterPrune(d, NodeIdsOf(nodes));
    var batches := BatchesOf(pruned, nodes, sha, concurrency);
    PendingAfterPrune(nodes, d, NodeIdsOf(nodes), sha);
    RunListsIff(d, nodes, sha, plan, concurrency);
    StopsIff(pruned, batches, plan, |batches|);
    AbortedIff(pruned, batches, plan, |batches|);
    RunningIff(pruned, batches, plan, |batches|);
    FailedOrNot(Run(d, nodes, sha, plan, concurrency), batches, plan);
  }

  lemma FailedOrNot(p: Progress, batches: seq<seq<Item>>, plan: Plan)
    requires ListsAre(p, batches, plan, |batches|)
    ensures p.failed == [] <==> NoneFails(batches, plan)
  {
    if p.failed != [] {
      assert p.failed[0] in p.failed;
    }
  }

  // What is in the files.

  /** The node's row has its name, hash and length, and its file holds these bytes. */
  ghost predicate Holds(d: Disk, x: Item, bytes: string) {
    var filename := FilenameFor(x.nodeId, x.hash);
    && x.nodeId in d.rows && d.rows[x.nodeId] == AudioRow(filename, x.hash, |x.text|)
    && filename in d.files && d.files[filename] == bytes
  }

  /** The node's row and the bytes of its file are as before. */
  ghost predicate Keeps(d: Disk, d': Disk, id: string) {
    && id in d.rows && id in d'.rows && d'.rows[id] == d.rows[id]
    && (d.rows[id].filename in d.files ==>
          d.rows[id].filename in d'.files && d'.files[d.rows[id].filename] == d.files[d.rows[id].filename])
  }

  lemma KeepsThenHolds(d: Disk, d': Disk, x: Item, bytes: string)
    requires Holds(d, x, bytes) && Keeps(d, d', x.nodeId)
    ensures Holds(d', x, bytes)
  {
  }

  lemma KeepsTwice(d: Disk, d': Disk, d'': Disk, id: string)
    requires Keeps(d, d', id) && Keeps(d', d'', id)
    ensures Keeps(d, d'', id)
  {
  }

  /** Names are the nodes' and their hashes' own, and no two of the ids sanitise alike. */
  ghost predicate Tidy(d: Disk, ids: set<string>) {
    WellNamed(d) && SeparateIds(ids) && d.rows.Keys <= ids
  }

  lemma PutHolds(d: Disk, x: Item, bytes: string)
    ensures Holds(AfterPut(d, PutOf(x, bytes)), x, bytes)
  {
  }

  lemma PutStaysTidy(d: Disk, x: Item, bytes: string, ids: set<string>)
    requires Tidy(d, ids) && x.nodeId in ids && IsHash(x.hash)
    ensures Tidy(AfterPut(d, PutOf(x, bytes)), ids)
  {
  }

  lemma PutKeeps(d: Disk, x: Item, bytes: string, ids: set<string>, id: string)
    requires Tidy(d, ids) && x.nodeId in ids && IsHash(x.hash) && id in d.rows && id != x.nodeId
    ensures Keeps(d, AfterPut(d, PutOf(x, bytes)), id)
  {
    var put, file := PutOf(x, bytes), d.rows[id].filename;
    SameFileIff(id, d.rows[id].sourceHash, x.nodeId, x.hash);
    if x.nodeId in d.rows {
      SameFileIff(id, d.rows[id].sourceHash, x.nodeId, d.rows[x.nodeId].sourceHash);
    }
    OthersRowsStay(d, put, 3);
    if file in d.files {
      FileAfterSteps(d, put, 3, file);
    }
  }

  /** What a batch leaves: the answer of each answered item in its file, and everything else as it was. */
  ghost predicate BatchLeft(d: Disk, d': Disk, batch: seq<Item>, ok: map<string, string>) {
    && (forall x | x in batch && x.nodeId in ok :: Holds(d', x, ok[x.nodeId]))
    && (forall id | id in d.rows && !(id in Ids(batch) && id in ok) :: Keeps(d, d', id))
  }

  lemma StoreOneMore(d: Disk, m: Disk, init: seq<Item>, last: Item, ok: map<string, string>, ids: set<string>)
    requires BatchLeft(d, m, init, ok) && Tidy(m, ids) && last.nodeId in ids && IsHash(last.hash)
    requires last.nodeId !in Ids(init) && last.nodeId in ok
    ensures BatchLeft(d, AfterPut(m, PutOf(last, ok[last.nodeId])), init + [last], ok)
  {
    var d' := AfterPut(m, PutOf(last, ok[last.nodeId]));
    PutHolds(m, last, ok[last.nodeId]);
    assert Ids(init + [last]) == Ids(init) + {last.nodeId};
    forall x | x in init && x.nodeId in ok ensures Holds(d', x, ok[x.nodeId]) {
      assert x.nodeId in Ids(init);
      PutKeeps(m, last, ok[last.nodeId], ids, x.nodeId);
      KeepsThenHolds(m, d', x, ok[x.nodeId]);
    }
    forall id | id in d.rows && !(id in Ids(init + [last]) && id in ok) ensures Keeps(d, d', id) {
      PutKeeps(m, last, ok[last.nodeId], ids, id);
      KeepsTwice(d, m, d', id);
    }
  }

  lemma LeaveOneMore(d: Disk, m: Disk, init: seq<Item>, last: Item, ok: map<string, string>)
    requires BatchLeft(d, m, init, ok) && last.nodeId !in ok
    ensures BatchLeft(d, m, init + [last], ok)
  {
    assert Ids(init + [last]) == Ids(init) + {last.nodeId};
  }

  /**
    Each answered item of a batch has its own answer in its file, under its own name; the rows and files of all other
    nodes are as they were.
   */
  lemma {:induction false} BatchContents(d: Disk, batch: seq<Item>, ok: map<string, string>, ids: set<string>)
    requires DistinctItems(batch) && Ids(batch) <= ids && (forall x | x in batch :: IsHash(x.hash)) && Tidy(d, ids)
    ensures BatchLeft(d, AfterBatch(d, batch, ok), batch, ok)
    ensures Tidy(AfterBatch(d, batch, ok), ids)
  {
    if batch != [] {
      var n := |batch| - 1;
      var init, last := batch[..n], batch[n];
      assert batch == init + [last];
      assert last.nodeId in Ids(batch) && Ids(init) <= Ids(batch);
      BatchContents(d, init, ok, ids);
      var m := AfterBatch(d, init, ok);
      if last.nodeId in ok {
        StoreOneMore(d, m, init, last, ok, ids);
        PutStaysTidy(m, last, ok[last.nodeId], ids);
      } else {
        LeaveOneMore(d, m, init, last, ok);
      }
    }
  }

  // Over whole runs.

  /** Each item that came up in the first n batches and was answered there has that answer in its file. */
  ghost predicate AnswersHeld(d: Disk, batches: seq<seq<Item>>, plan: Plan, n: nat)
    requires n <= |batches|
  {
    forall k, i | 0 <= k < n && 0 <= i < |batches[k]| && ComesUp(plan, k, i) && batches[k][i].nodeId in plan(k).ok ::
      Holds(d, batches[k][i], plan(k).ok[batches[k][i].nodeId])
  }

  /** The nodes that have not been narrated have their rows and files as before. */
  ghost predicate OthersKept(d: Disk, d': Disk, done: seq<Item>) {
    forall id | id in d.rows && id !in Ids(done) :: Keeps(d, d', id)
  }

  lemma AnswersStayHeld(
    d: Disk, d': Disk, batches: seq<seq<Item>>, plan: Plan, n: nat, done: seq<Item>, part: seq<Item>)
    requires n <= |batches| && AnswersHeld(d, batches, plan, n) && DistinctItems(done + part)
    requires forall x :: IsNarrated(batches, plan, n, x) ==> x in done
    requires OthersKept(d, d', part)
    ensures AnswersHeld(d', batches, plan, n)
  {
    forall k, i | 0 <= k < n && 0 <= i < |batches[k]| && ComesUp(plan, k, i) && batches[k][i].nodeId in plan(k).ok
      ensures Holds(d', batches[k][i], plan(k).ok[batches[k][i].nodeId])
    {
      var x := batches[k][i];
      assert IsNarrated(batches, plan, n, x);
      NotInBoth(done, part, x);
      KeepsThenHolds(d, d', x, plan(k).ok[x.nodeId]);
    }
  }

  lemma NotInBoth(a: seq<Item>, b: seq<Item>, x: Item)
    requires DistinctItems(a + b) && x in a
    ensures x.nodeId !in Ids(b)
  {
    var i :| 0 <= i < |a| && a[i] == x;
    forall j | 0 <= j < |b| ensures b[j].nodeId != x.nodeId {
      assert (a + b)[i] == x && (a + b)[|a| + j] == b[j];
    }
  }

  lemma OthersKeptTwice(d: Disk, m: Disk, d': Disk, done: seq<Item>, more: seq<Item>)
    requires OthersKept(d, m, done) && OthersKept(m, d', more)
    ensures OthersKept(d, d', done + more)
  {
    assert Ids(done + more) == Ids(done) + Ids(more);
    forall id | id in d.rows && id !in Ids(done + more) ensures Keeps(d, d', id) {
      KeepsTwice(d, m, d', id);
    }
  }

  lemma BatchKeepsOthers(d: Disk, d': Disk, batch: seq<Item>, ok: map<string, string>)
    requires BatchLeft(d, d', batch, ok)
    ensures OthersKept(d, d', Narrated(batch, ok))
  {
    NarratedMembers(batch, ok);
    forall x | x in batch && x.nodeId in ok ensures x.nodeId in Ids(Narrated(batch, ok)) {
      assert x in Narrated(batch, ok);
    }
  }

  lemma AnswersHeldStep(d: Disk, batches: seq<seq<Item>>, plan: Plan, k: nat)
    requires k < |batches| && AnswersHeld(d, batches, plan, k)
    requires AllNarrate(plan, k) && (plan(k).Narrate? || plan(k).Abort?) ==>
      forall x | x in Handled(batches[k], plan(k)) && x.nodeId in plan(k).ok :: Holds(d, x, plan(k).ok[x.nodeId])
    ensures AnswersHeld(d, batches, plan, k + 1)
  {
    forall i | 0 <= i < |batches[k]| && ComesUp(plan, k, i) && batches[k][i].nodeId in plan(k).ok
      ensures Holds(d, batches[k][i], plan(k).ok[batches[k][i].nodeId])
    {
      HandledMembers(batches[k], plan, k, batches[k][i]);
    }
  }

  /** What a run leaves after its first k batches. */
  ghost predicate RunLeft(d: Disk, p: Progress, batches: seq<seq<Item>>, plan: Plan, k: nat, ids: set<string>)
    requires k <= |batches|
  {
    AnswersHeld(p.disk, batches, plan, k) && OthersKept(d, p.disk, p.done) && Tidy(p.disk, ids)
  }

  ghost predicate AllNamed(items: seq<Item>, ids: set<string>) {
    Ids(items) <= ids && forall x | x in items :: IsHash(x.hash)
  }

  lemma BatchLeaves(
    d: Disk, p: Progress, batches: seq<seq<Item>>, plan: Plan, k: nat, ids: set<string>, part: seq<Item>, q: Progress)
    requires k < |batches| && RunLeft(d, p, batches, plan, k, ids) && ListsAre(p, batches, plan, k)
    requires plan(k).Narrate? || plan(k).Abort?
    requires DistinctItems(p.done + part) && DistinctItems(part) && AllNamed(part, ids)
    requires part == Handled(batches[k], plan(k))
    requires q.disk == AfterBatch(p.disk, part, plan(k).ok) && q.done == p.done + Narrated(part, plan(k).ok)
    ensures RunLeft(d, q, batches, plan, k + 1, ids)
  {
    var ok := plan(k).ok;
    BatchContents(p.disk, part, ok, ids);
    BatchKeepsOthers(p.disk, q.disk, part, ok);
    OthersKeptTwice(d, p.disk, q.disk, p.done, Narrated(part, ok));
    assert OthersKept(p.disk, q.disk, part);
    AnswersStayHeld(p.disk, q.disk, batches, plan, k, p.done, part);
    AnswersHeldStep(q.disk, batches, plan, k);
  }

  lemma PrefixOfBatch(handled: seq<Item>, batch: seq<Item>, done: seq<Item>, part: seq<Item>, ids: set<string>)
    requires DistinctItems(handled + batch) && DistinctItems(done) && (forall x | x in done :: x in handled)
    requires part <= batch && AllNamed(batch, ids)
    ensures DistinctItems(done + part) && DistinctItems(part) && AllNamed(part, ids)
  {
    forall i | 0 <= i < |part| ensures part[i] == (handled + batch)[|handled| + i] && part[i] in batch {
    }
    forall i, j | 0 <= i < |done| && 0 <= j < |part| ensures done[i].nodeId != part[j].nodeId {
      assert done[i] in handled;
      NotInBoth(handled, batch, done[i]);
      assert part[j].nodeId in Ids(batch);
    }
  }

  lemma HandledIsNew(d: Disk, batches: seq<seq<Item>>, plan: Plan, k: nat, ids: set<string>)
    requires k < |batches| && DistinctItems(Concat(batches)) && AllStale(Concat(batches), d.rows)
    requires AllNamed(batches[k], ids)
    ensures var done, part := AfterBatches(d, batches, plan, k).done, Handled(batches[k], plan(k));
      DistinctItems(done + part) && DistinctItems(part) && AllNamed(part, ids)
  {
    var handled := Concat(batches[..k]);
    BatchesKeepInvariant(d, batches, plan, k);
    ConcatTake(batches, k);
    ConcatPrefix(batches, k + 1);
    PrefixKeepsBoth(handled + batches[k], Concat(batches), d.rows);
    PrefixOfBatch(handled, batches[k], AfterBatches(d, batches, plan, k).done, Handled(batches[k], plan(k)), ids);
  }

  lemma IdleBatch(d: Disk, p: Progress, batches: seq<seq<Item>>, plan: Plan, k: nat, ids: set<string>)
    requires k < |batches| && RunLeft(d, p, batches, plan, k, ids)
    requires !(AllNarrate(plan, k) && (plan(k).Narrate? || plan(k).Abort?))
    ensures forall q: Progress | q.disk == p.disk && q.done == p.done :: RunLeft(d, q, batches, plan, k + 1, ids)
  {
    AnswersHeldStep(p.disk, batches, plan, k);
  }

  lemma NextBatchLeaves(d: Disk, batches: seq<seq<Item>>, plan: Plan, k: nat, ids: set<string>)
    requires k < |batches| && DistinctItems(Concat(batches)) && AllStale(Concat(batches), d.rows)
    requires AllNamed(batches[k], ids) && RunLeft(d, AfterBatches(d, batches, plan, k), batches, plan, k, ids)
    ensures RunLeft(d, AfterBatches(d, batches, plan, k + 1), batches, plan, k + 1, ids)
  {
    var p := AfterBatches(d, batches, plan, k);
    var q := AfterDecision(p, batches[k], plan(k));
    RunningIff(d, batches, plan, k);
    if p.stop == Running && (plan(k).Narrate? || plan(k).Abort?) {
      ListsAfterBatches(d, batches, plan, k);
      NothingDroppedNow(d, batches, plan, k);
      HandledIsNew(d, batches, plan, k, ids);
      NextProgress(p, batches[k], plan(k), Handled(batches[k], plan(k)));
      BatchLeaves(d, p, batches, plan, k, ids, Handled(batches[k], plan(k)), q);
    } else {
      IdleBatch(d, p, batches, plan, k, ids);
    }
    assert AfterBatches(d, batches, plan, k + 1) == q;
  }

  lemma {:induction false} RunLeaves(
    d: Disk, batches: seq<seq<Item>>, plan: Plan, k: nat, ids: set<string>)
    requires k <= |batches| && DistinctItems(Concat(batches)) && AllStale(Concat(batches), d.rows)
    requires Tidy(d, ids) && forall j | 0 <= j < |batches| :: AllNamed(batches[j], ids)
    ensures RunLeft(d, AfterBatches(d, batches, plan, k), batches, plan, k, ids)
  {
    if k > 0 {
      RunLeaves(d, batches, plan, k - 1, ids);
      NextBatchLeaves(d, batches, plan, k - 1, ids);
    }
  }

  lemma PruneKeeps(d: Disk, keep: set<string>, id: string)
    requires WellNamed(d) && SeparateIds(d.rows.Keys) && id in d.rows && id in keep
    ensures Keeps(d, AfterPrune(d, keep), id)
  {
    forall m | m in d.rows && m !in keep ensures d.rows[m].filename != d.rows[id].filename {
      SameFileIff(id, d.rows[id].sourceHash, m, d.rows[m].sourceHash);
    }
  }

  lemma ChunksAreNamed(pending: seq<Item>, concurrency: nat, ids: set<string>)
    requires 0 < concurrency && AllNamed(pending, ids)
    ensures forall j | 0 <= j < |Chunks(pending, concurrency)| :: AllNamed(Chunks(pending, concurrency)[j], ids)
  {
    ChunksMembers(pending, concurrency);
    forall j | 0 <= j < |Chunks(pending, concurrency)| ensures AllNamed(Chunks(pending, concurrency)[j], ids) {
      forall x | x in Chunks(pending, concurrency)[j] ensures x.nodeId in ids {
        assert x in pending && x.nodeId in Ids(pending);
      }
    }
  }

  lemma PendingIsNamed(
    nodes: seq<Node>, rows: map<string, AudioRow>, sha: string -> string, ids: set<string>)
    requires NodeIdsOf(nodes) <= ids && forall text :: IsHash(sha(text))
    ensures AllNamed(Pending(nodes, rows, sha), ids)
  {
    PendingMembers(nodes, rows, sha);
    forall x | x in Pending(nodes, rows, sha) ensures x.nodeId in ids {
      var node :| node in nodes && x == Item(node.nodeId, node.text, sha(node.text));
      assert node.nodeId in NodeIdsOf(nodes);
    }
  }

  lemma PruneLeaves(d: Disk, nodes: seq<Node>)
    requires Tidy(d, d.rows.Keys + NodeIdsOf(nodes))
    ensures Tidy(AfterPrune(d, NodeIdsOf(nodes)), d.rows.Keys + NodeIdsOf(nodes))
    ensures forall id | id in d.rows && id in NodeIdsOf(nodes) :: Keeps(d, AfterPrune(d, NodeIdsOf(nodes)), id)
  {
    forall id | id in d.rows && id in NodeIdsOf(nodes) ensures Keeps(d, AfterPrune(d, NodeIdsOf(nodes)), id) {
      PruneKeeps(d, NodeIdsOf(nodes), id);
    }
  }

  /** A book whose store names every file as a put does, and no two ids of which sanitise alike. */
  ghost predicate WellKept(d: Disk, nodes: seq<Node>, sha: string -> string) {
    && DistinctNodes(nodes) && (forall text :: IsHash(sha(text)))
    && WellNamed(d) && SeparateIds(d.rows.Keys + NodeIdsOf(nodes))
  }

  /**
    A run over a store with no two ids that sanitise alike: every node that comes up and is answered ends with that very
    answer in the file its row names; every other node of the book keeps its row and file; no other node has a row.
   */
  lemma {:induction false} RunContents(d: Disk, nodes: seq<Node>, sha: string -> string, plan: Plan, concurrency: nat)
    requires 0 < concurrency && WellKept(d, nodes, sha)
    ensures var p, batches := Run(d, nodes, sha, plan, concurrency), BatchesOf(d, nodes, sha, concurrency);
      && AnswersHeld(p.disk, batches, plan, |batches|)
      && (forall id | id in d.rows && id in NodeIdsOf(nodes) && id !in Ids(p.done) :: Keeps(d, p.disk, id))
      && p.disk.rows.Keys <= NodeIdsOf(nodes) && WellNamed(p.disk)
  {
    var ids, pruned := d.rows.Keys + NodeIdsOf(nodes), AfterPrune(d, NodeIdsOf(nodes));
    var pending, batches := Pending(nodes, pruned.rows, sha), BatchesOf(pruned, nodes, sha, concurrency);
    var p := Run(d, nodes, sha, plan, concurrency);
    PruneLeaves(d, nodes);
    PendingAfterPrune(nodes, d, NodeIdsOf(nodes), sha);
    PendingItems(nodes, pruned.rows, sha);
    PendingIsNamed(nodes, pruned.rows, sha, ids);
    ConcatChunks(pending, concurrency);
    ChunksAreNamed(pending, concurrency, ids);
    RunLeaves(pruned, batches, plan, |batches|, ids);
    DoneHasTheKeys(d, nodes, sha, plan, concurrency);
    forall id | id in d.rows && id in NodeIdsOf(nodes) && id !in Ids(p.done) ensures Keeps(d, p.disk, id) {
      KeepsTwice(d, pruned, p.disk, id);
    }
  }

  /** A disk on which each node a run narrates has in its file the answer it was narrated with. */
  ghost predicate HasAnswers(
    d: Disk, first: Disk, nodes: seq<Node>, sha: string -> string, plan: Plan, concurrency: nat)
    requires 0 < concurrency
  {
    var batches := BatchesOf(first, nodes, sha, concurrency);
    AnswersHeld(d, batches, plan, |batches|)
  }

  lemma StaysWellKept(d: Disk, d': Disk, nodes: seq<Node>, sha: string -> string)
    requires WellKept(d, nodes, sha) && WellNamed(d') && d'.rows.Keys <= d.rows.Keys + NodeIdsOf(nodes)
    ensures WellKept(d', nodes, sha)
  {
  }

  lemma {:induction false} RunsStayWellKept(
    d: Disk, nodes: seq<Node>, sha: string -> string, plans: seq<Plan>, concurrency: nat)
    requires 0 < concurrency && WellKept(d, nodes, sha)
    ensures WellKept(AfterRuns(d, nodes, sha, plans, concurrency), nodes, sha)
  {
    if plans != [] {
      var n := |plans| - 1;
      var before := AfterRuns(d, nodes, sha, plans[..n], concurrency);
      RunsStayWellKept(d, nodes, sha, plans[..n], concurrency);
      RunContents(before, nodes, sha, plans[n], concurrency);
      StaysWellKept(before, Run(before, nodes, sha, plans[n], concurrency).disk, nodes, sha);
    }
  }

  /** What a run narrates is of the book. */
  lemma {:induction false} AnswersAreOfTheBook(
    d: Disk, nodes: seq<Node>, sha: string -> string, plan: Plan, concurrency: nat)
    requires 0 < concurrency && DistinctNodes(nodes)
    ensures var p, batches := Run(d, nodes, sha, plan, concurrency), BatchesOf(d, nodes, sha, concurrency);
      forall x :: IsNarrated(batches, plan, |batches|, x) ==> x in p.done && x.nodeId in NodeIdsOf(nodes)
  {
    var p, batches := Run(d, nodes, sha, plan, concurrency), BatchesOf(d, nodes, sha, concurrency);
    RunListsIff(d, nodes, sha, plan, concurrency);
    RunShrinksPending(d, nodes, sha, plan, concurrency);
    PendingItems(nodes, d.rows, sha);
    forall x | IsNarrated(batches, plan, |batches|, x) ensures x in p.done && x.nodeId in NodeIdsOf(nodes) {
      assert x in Pending(nodes, d.rows, sha) && x.nodeId in Ids(Pending(nodes, d.rows, sha));
    }
  }

  lemma AnswersSurvive(
    d: Disk, d': Disk, batches: seq<seq<Item>>, plan: Plan, earlier: seq<Item>, done: seq<Item>, ids: set<string>)
    requires AnswersHeld(d, batches, plan, |batches|) && Ids(earlier) !! Ids(done)
    requires forall x :: IsNarrated(batches, plan, |batches|, x) ==> x in earlier && x.nodeId in ids
    requires forall id | id in d.rows && id in ids && id !in Ids(done) :: Keeps(d, d', id)
    ensures AnswersHeld(d', batches, plan, |batches|)
  {
    forall k, i | 0 <= k < |batches| && 0 <= i < |batches[k]| && ComesUp(plan, k, i)
                  && batches[k][i].nodeId in plan(k).ok
      ensures Holds(d', batches[k][i], plan(k).ok[batches[k][i].nodeId])
    {
      var x := batches[k][i];
      assert IsNarrated(batches, plan, |batches|, x);
      assert x.nodeId in Ids(earlier);
      KeepsThenHolds(d, d', x, plan(k).ok[x.nodeId]);
    }
  }

  /** A run that finds an earlier run's nodes fresh leaves their answers where they are. */
  lemma {:induction false} NextRunKeepsAnswers(
    first: Disk, before: Disk, nodes: seq<Node>, sha: string -> string, plan: Plan, next: Plan, concurrency: nat)
    requires 0 < concurrency && WellKept(first, nodes, sha) && WellKept(before, nodes, sha)
    requires HasAnswers(before, first, nodes, sha, plan, concurrency)
    requires Ids(Pending(nodes, before.rows, sha)) !! Ids(Run(first, nodes, sha, plan, concurrency).done)
    ensures HasAnswers(Run(before, nodes, sha, next, concurrency).disk, first, nodes, sha, plan, concurrency)
  {
    var p, q := Run(first, nodes, sha, plan, concurrency), Run(before, nodes, sha, next, concurrency);
    RunContents(before, nodes, sha, next, concurrency);
    RunShrinksPending(before, nodes, sha, next, concurrency);
    AnswersAreOfTheBook(first, nodes, sha, plan, concurrency);
    assert Ids(q.done) <= Ids(Pending(nodes, before.rows, sha));
    AnswersSurvive(before, q.disk, BatchesOf(first, nodes, sha, concurrency), plan, p.done, q.done, NodeIdsOf(nodes));
  }

  /** What a run has narrated stays fresh. */
  lemma {:induction false} NarratedStaysFresh(
    first: Disk, nodes: seq<Node>, sha: string -> string, plan: Plan, later: seq<Plan>, concurrency: nat)
    requires 0 < concurrency && DistinctNodes(nodes)
    ensures var p := Run(first, nodes, sha, plan, concurrency);
      Ids(Pending(nodes, AfterRuns(p.disk, nodes, sha, later, concurrency).rows, sha)) !! Ids(p.done)
  {
    RunShrinksPending(first, nodes, sha, plan, concurrency);
    RunsNarrateOnce(Run(first, nodes, sha, plan, concurrency).disk, nodes, sha, later, concurrency);
  }

  /** Whatever runs follow, each node a run has narrated keeps in its file the answer it was narrated with. */
  lemma {:induction false} AnswersOutlast(
    first: Disk, nodes: seq<Node>, sha: string -> string, plan: Plan, later: seq<Plan>, concurrency: nat)
    requires 0 < concurrency && WellKept(first, nodes, sha)
    ensures var p := Run(first, nodes, sha, plan, concurrency);
      HasAnswers(AfterRuns(p.disk, nodes, sha, later, concurrency), first, nodes, sha, plan, concurrency)
  {
    var disk := Run(first, nodes, sha, plan, concurrency).disk;
    RunContents(first, nodes, sha, plan, concurrency);
    if later != [] {
      var n := |later| - 1;
      AnswersOutlast(first, nodes, sha, plan, later[..n], concurrency);
      NarratedStaysFresh(first, nodes, sha, plan, later[..n], concurrency);
      StaysWellKept(first, disk, nodes, sha);
      RunsStayWellKept(disk, nodes, sha, later[..n], concurrency);
      NextRunKeepsAnswers(
        first, AfterRuns(disk, nodes, sha, later[..n], concurrency), nodes, sha, plan, later[n], concurrency);
    }
  }

  // Names and pruning.

  /** A name in full. */
  lemma {:induction false} NameOfDotted()
    ensures IsHash(HashOf('0')) && FilenameFor("a.b", HashOf('0')) == "ab-00000000.mp3"
  {
    assert HashOf('0')[..8] == "00000000";
    assert "a.b"[1..] == ".b" && ".b"[1..] == "b" && "b"[1..] == "";
    assert Sanitized("b") == "b" && Sanitized(".b") == "b";
  }

  /** A prune deletes exactly the files that rows of nodes not to be kept name. */
  lemma PruneDeletesIff(d: Disk, keep: set<string>, file: string)
    requires file in d.files
    ensures file in AfterPrune(d, keep).files <==> forall m | m in d.rows && m !in keep :: d.rows[m].filename != file
    ensures file in AfterPrune(d, keep).files ==> AfterPrune(d, keep).files[file] == d.files[file]
  {
  }
}
