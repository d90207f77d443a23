/** What the import promises under retry: "a re-run with the same bookId cleanly overwrites". */
module ImportSafety {
  import opened Common
  import opened KeyedRows
  import opened ImportRetry

  /** The rows of one uninterrupted import: each table holds exactly what the conversion produced. */
  function Clean(input: Input): Db {
    var fs := FootnotesOf(input);
    Db(
      Tabulate(NodeRows(input.nodes), StartLine, Payload),
      Tabulate(fs, FootnoteId, Content),
      Tabulate(fs, FootnoteId, Title),
      Tabulate(fs, FootnoteId, Content),
      Tabulate(Deduped(input.references), ReferenceId, ReferenceText))
  }

  ghost function NodeKeys(input: Input): set<int> {
    KeysOf(NodeRows(input.nodes), StartLine)
  }

  ghost function FootnoteKeys(input: Input): set<string> {
    KeysOf(FootnotesOf(input), FootnoteId)
  }

  ghost function ReferenceKeys(input: Input): set<string> {
    KeysOf(Deduped(input.references), ReferenceId)
  }

  /** All rows present have keys of this input: what attempts on a fresh book can leave behind. */
  ghost predicate OnlyOwnKeys(db: Db, input: Input) {
    && db.main.Keys <= NodeKeys(input)
    && db.footnotes.Keys <= FootnoteKeys(input)
    && db.library.Keys <= FootnoteKeys(input)
    && db.subNodes.Keys <= FootnoteKeys(input)
    && db.bibliography.Keys <= ReferenceKeys(input)
  }

  ghost predicate FromInput(w: Write, input: Input) {
    match w
    case InsertMain(rows) => forall r | r in rows :: r in NodeRows(input.nodes)
    case InsertFootnotes(batch) => forall f | f in batch :: f in FootnotesOf(input)
    case InsertLibrary(batch) => forall f | f in batch :: f in FootnotesOf(input)
    case InsertSubNodes(batch) => forall f | f in batch :: f in FootnotesOf(input)
    case InsertBibliography(refs) => forall r | r in refs :: r in Deduped(input.references)
    case _ => true
  }

  lemma KeysMonotone<K, R>(rows: seq<R>, all: seq<R>, key: R -> K)
    requires forall r | r in rows :: r in all
    ensures KeysOf(rows, key) <= KeysOf(all, key)
  {
  }

  lemma InsertKeys<K, R, V>(table: map<K, V>, rows: seq<R>, all: seq<R>, key: R -> K, value: R -> V)
    requires forall r | r in rows :: r in all
    requires table.Keys <= KeysOf(all, key) && InsertAll(table, rows, key, value).Some?
    ensures InsertAll(table, rows, key, value).value.Keys <= KeysOf(all, key)
  {
    InsertAllAdds(table, rows, key, value);
    TabulateKeys(rows, key, value);
    KeysMonotone(rows, all, key);
  }

  lemma StepKeepsOwnKeys(o: Outcome, w: Write, input: Input)
    requires OnlyOwnKeys(o.db, input) && FromInput(w, input)
    ensures OnlyOwnKeys(Step(o, w).db, input)
  {
    if o.completed && o.budget > 0 && Perform(o.db, w).Some? {
      match w
      case InsertMain(rows) => InsertKeys(o.db.main, rows, NodeRows(input.nodes), StartLine, Payload);
      case InsertFootnotes(batch) => InsertKeys(o.db.footnotes, batch, FootnotesOf(input), FootnoteId, Content);
      case InsertLibrary(batch) => InsertKeys(o.db.library, batch, FootnotesOf(input), FootnoteId, Title);
      case InsertSubNodes(batch) => InsertKeys(o.db.subNodes, batch, FootnotesOf(input), FootnoteId, Content);
      case InsertBibliography(refs) =>
        InsertKeys(o.db.bibliography, refs, Deduped(input.references), ReferenceId, ReferenceText);
      case _ =>
    }
  }

  lemma {:induction false} ExecKeepsOwnKeys(o: Outcome, ws: seq<Write>, input: Input)
    requires OnlyOwnKeys(o.db, input) && forall k | 0 <= k < |ws| :: FromInput(ws[k], input)
    ensures OnlyOwnKeys(Exec(o, ws).db, input)
  {
    if ws != [] {
      var n := |ws| - 1;
      ExecKeepsOwnKeys(o, ws[..n], input);
      StepKeepsOwnKeys(Exec(o, ws[..n]), ws[n], input);
    }
  }

  lemma {:induction false} NodeInsertsFromInput(chunks: seq<seq<NodeRow>>, input: Input)
    requires forall k, r | 0 <= k < |chunks| && r in chunks[k] :: r in NodeRows(input.nodes)
    ensures forall k | 0 <= k < |NodeInserts(chunks)| :: FromInput(NodeInserts(chunks)[k], input)
  {
    if chunks != [] {
      NodeInsertsFromInput(chunks[..|chunks| - 1], input);
    }
  }

  lemma {:induction false} FootnoteInsertsFromInput(chunks: seq<seq<Footnote>>, input: Input)
    requires forall k, f | 0 <= k < |chunks| && f in chunks[k] :: f in FootnotesOf(input)
    ensures forall k | 0 <= k < |FootnoteInserts(chunks)| :: FromInput(FootnoteInserts(chunks)[k], input)
  {
    if chunks != [] {
      FootnoteInsertsFromInput(chunks[..|chunks| - 1], input);
    }
  }

  lemma {:induction false} ReferenceInsertsFromInput(chunks: seq<seq<Reference>>, input: Input)
    requires forall k, r | 0 <= k < |chunks| && r in chunks[k] :: r in Deduped(input.references)
    ensures forall k | 0 <= k < |ReferenceInserts(chunks)| :: FromInput(ReferenceInserts(chunks)[k], input)
  {
    if chunks != [] {
      ReferenceInsertsFromInput(chunks[..|chunks| - 1], input);
    }
  }

  lemma PlansFromInput(db: Db, input: Input)
    ensures forall k | 0 <= k < |NodeWrites(db, input)| :: FromInput(NodeWrites(db, input)[k], input)
    ensures forall k | 0 <= k < |FootnoteWrites(db, input)| :: FromInput(FootnoteWrites(db, input)[k], input)
    ensures forall k | 0 <= k < |ReferenceWrites(input)| :: FromInput(ReferenceWrites(input)[k], input)
  {
    ChunksMembers(NodeRows(input.nodes), NODE_BATCH);
    NodeInsertsFromInput(Chunks(NodeRows(input.nodes), NODE_BATCH), input);
    ChunksMembers(FootnotesOf(input), ROW_BATCH);
    FootnoteInsertsFromInput(Chunks(FootnotesOf(input), ROW_BATCH), input);
    ChunksMembers(Deduped(input.references), ROW_BATCH);
    ReferenceInsertsFromInput(Chunks(Deduped(input.references), ROW_BATCH), input);
  }

  /** However early an attempt is cut off, it leaves only rows of this input. */
  lemma AttemptKeepsOwnKeys(db: Db, input: Input, budget: nat)
    requires OnlyOwnKeys(db, input)
    ensures OnlyOwnKeys(Attempt(db, input, budget).db, input)
  {
    var o1 := Exec(Outcome(db, true, budget), NodeWrites(db, input));
    var o2 := Exec(o1, FootnoteWrites(o1.db, input));
    PlansFromInput(db, input);
    PlansFromInput(o1.db, input);
    ExecKeepsOwnKeys(Outcome(db, true, budget), NodeWrites(db, input), input);
    ExecKeepsOwnKeys(o1, FootnoteWrites(o1.db, input), input);
    ExecKeepsOwnKeys(o2, ReferenceWrites(input), input);
  }

  // When a run of statements completes, and what it then leaves.

  lemma {:induction false} NodeInsertsDone(o: Outcome, chunks: seq<seq<NodeRow>>)
    ensures var r := Exec(o, NodeInserts(chunks));
      var t := InsertAll(o.db.main, Concat(chunks), StartLine, Payload);
      && (r.completed <==> o.completed && |chunks| <= o.budget && t.Some?)
      && (r.completed ==> r == Outcome(o.db.(main := t.value), true, o.budget - |chunks|))
  {
    if chunks != [] {
      var n := |chunks| - 1;
      var init, last := chunks[..n], chunks[n];
      NodeInsertsDone(o, init);
      assert chunks == init + [last];
      ConcatSnoc(init, last);
      InsertAllConcat(o.db.main, Concat(init), last, StartLine, Payload);
      ExecSnoc(o, NodeInserts(init), InsertMain(last));
    }
  }

  lemma InsertReferencesDone(o: Outcome, rows: seq<Reference>)
    ensures var r := Step(o, InsertBibliography(rows));
      var t := InsertAll(o.db.bibliography, rows, ReferenceId, ReferenceText);
      && (r.completed <==> o.completed && 1 <= o.budget && t.Some?)
      && (r.completed ==> r == Outcome(o.db.(bibliography := t.value), true, o.budget - 1))
  {
  }

  lemma {:induction false} ReferenceInsertsDone(o: Outcome, chunks: seq<seq<Reference>>)
    ensures var r := Exec(o, ReferenceInserts(chunks));
      var t := InsertAll(o.db.bibliography, Concat(chunks), ReferenceId, ReferenceText);
      && (r.completed <==> o.completed && |chunks| <= o.budget && t.Some?)
      && (r.completed ==> r == Outcome(o.db.(bibliography := t.value), true, o.budget - |chunks|))
  {
    if chunks != [] {
      var n := |chunks| - 1;
      var init, last := chunks[..n], chunks[n];
      ReferenceInsertsDone(o, init);
      assert chunks == init + [last];
      ConcatSnoc(init, last);
      InsertAllConcat(o.db.bibliography, Concat(init), last, ReferenceId, ReferenceText);
      ExecSnoc(o, ReferenceInserts(init), InsertBibliography(last));
      InsertReferencesDone(Exec(o, ReferenceInserts(init)), last);
    }
  }

  /** The three footnote tables after inserting the same footnotes into each, or None if one refuses. */
  function Filled(db: Db, fs: seq<Footnote>): Option<Db> {
    var f := InsertAll(db.footnotes, fs, FootnoteId, Content);
    var l := InsertAll(db.library, fs, FootnoteId, Title);
    var n := InsertAll(db.subNodes, fs, FootnoteId, Content);
    if f.Some? && l.Some? && n.Some? then Some(db.(footnotes := f.value, library := l.value, subNodes := n.value))
    else None
  }

  lemma FilledConcat(db: Db, a: seq<Footnote>, b: seq<Footnote>)
    ensures Filled(db, a + b) == match Filled(db, a) case None => None case Some(d) => Filled(d, b)
  {
    InsertAllConcat(db.footnotes, a, b, FootnoteId, Content);
    InsertAllConcat(db.library, a, b, FootnoteId, Title);
    InsertAllConcat(db.subNodes, a, b, FootnoteId, Content);
  }

  lemma FlushDone(o: Outcome, batch: seq<Footnote>)
    ensures var r := Exec(o, FlushWrites(batch));
      && (r.completed <==> o.completed && 3 <= o.budget && Filled(o.db, batch).Some?)
      && (r.completed ==> r == Outcome(Filled(o.db, batch).value, true, o.budget - 3))
  {
    ExecThree(o, InsertFootnotes(batch), InsertLibrary(batch), InsertSubNodes(batch));
  }

  lemma {:induction false} FootnoteInsertsDone(o: Outcome, chunks: seq<seq<Footnote>>)
    ensures var r := Exec(o, FootnoteInserts(chunks));
      var d := Filled(o.db, Concat(chunks));
      && (r.completed <==> o.completed && 3 * |chunks| <= o.budget && d.Some?)
      && (r.completed ==> r == Outcome(d.value, true, o.budget - 3 * |chunks|))
  {
    if chunks != [] {
      var n := |chunks| - 1;
      FootnoteInsertsDone(o, chunks[..n]);
      assert chunks == chunks[..n] + [chunks[n]];
      ConcatSnoc(chunks[..n], chunks[n]);
      FilledConcat(o.db, Concat(chunks[..n]), chunks[n]);
      ExecConcat(o, FootnoteInserts(chunks[..n]), FlushWrites(chunks[n]));
      FlushDone(Exec(o, FootnoteInserts(chunks[..n])), chunks[n]);
    }
  }

  // The three sections of an attempt.

  lemma {:induction false} NodeRowAt(nodes: seq<string>, i: nat)
    requires i < |nodes|
    ensures NodeRows(nodes)[i] == NodeRow(100 * (i + 1), nodes[i])
  {
    var n := |nodes| - 1;
    if i < n {
      NodeRowAt(nodes[..n], i);
    }
  }

  lemma NodeRowsAreDistinct(nodes: seq<string>)
    ensures DistinctKeys(NodeRows(nodes), StartLine)
  {
    var rows := NodeRows(nodes);
    forall i, j | 0 <= i < j < |rows| ensures StartLine(rows[i]) != StartLine(rows[j]) {
      NodeRowAt(nodes, i);
      NodeRowAt(nodes, j);
    }
  }

  lemma {:induction false} PutKeepsDistinct(rows: seq<Reference>, r: Reference)
    requires DistinctKeys(rows, ReferenceId)
    ensures DistinctKeys(Put(rows, r), ReferenceId)
    ensures KeysOf(Put(rows, r), ReferenceId) == KeysOf(rows, ReferenceId) + {r.id}
  {
    if rows != [] {
      var n := |rows| - 1;
      var init, last := rows[..n], rows[n];
      assert rows == init + [last];
      DistinctSnoc(init, last, ReferenceId);
      KeysSnoc(init, last, ReferenceId);
      if last.id == r.id {
        assert rows[n := r] == init + [r];
        DistinctSnoc(init, r, ReferenceId);
        KeysSnoc(init, r, ReferenceId);
      } else {
        PutKeepsDistinct(init, r);
        DistinctSnoc(Put(init, r), last, ReferenceId);
        KeysSnoc(Put(init, r), last, ReferenceId);
      }
    } else {
      assert [] + [r] == [r];
      KeysSnoc([], r, ReferenceId);
    }
  }

  lemma {:induction false} DedupedIsDistinct(references: seq<Reference>)
    ensures DistinctKeys(Deduped(references), ReferenceId)
  {
    if references != [] {
      var n := |references| - 1;
      DedupedIsDistinct(references[..n]);
      PutKeepsDistinct(Deduped(references[..n]), references[n]);
    }
  }

  lemma TwoDeletes(o: Outcome, v: Write, w: Write)
    requires Perform(o.db, v).Some? && Perform(Perform(o.db, v).value, w).Some?
    ensures var r := Exec(o, [v, w]);
      && (r.completed <==> o.completed && 2 <= o.budget)
      && (r.completed ==> r == Outcome(Perform(Perform(o.db, v).value, w).value, true, o.budget - 2))
  {
    ExecTwo(o, v, w);
  }

  function AfterNodes(db: Db, input: Input): Db {
    db.(main := Clean(input).main, subNodes := if db.main != map[] then map[] else db.subNodes)
  }

  lemma NodesIntoEmpty(o: Outcome, rows: seq<NodeRow>)
    requires o.db.main == map[] && DistinctKeys(rows, StartLine)
    ensures var ws := NodeInserts(Chunks(rows, NODE_BATCH));
      var r := Exec(o, ws);
      && (r.completed <==> o.completed && |ws| <= o.budget)
      && (r.completed ==> r == Outcome(o.db.(main := Tabulate(rows, StartLine, Payload)), true, o.budget - |ws|))
  {
    var chunks := Chunks(rows, NODE_BATCH);
    ConcatChunks(rows, NODE_BATCH);
    InsertAllSucceedsIff(map[], rows, StartLine, Payload);
    NoLeftovers(map[], rows, StartLine, Payload);
    NodeInsertsLength(chunks);
    NodeInsertsDone(o, chunks);
  }

  lemma NodesAfterDeletes(o: Outcome, rows: seq<NodeRow>)
    requires o.completed && DistinctKeys(rows, StartLine)
    ensures var ws := [DeleteMain, DeleteSubNodes] + NodeInserts(Chunks(rows, NODE_BATCH));
      var r := Exec(o, ws);
      && (r.completed <==> |ws| <= o.budget)
      && (r.completed ==>
            r == Outcome(o.db.(main := Tabulate(rows, StartLine, Payload), subNodes := map[]), true, o.budget - |ws|))
  {
    var deletes := [DeleteMain, DeleteSubNodes];
    var inserts := NodeInserts(Chunks(rows, NODE_BATCH));
    TwoDeletes(o, DeleteMain, DeleteSubNodes);
    ExecConcat(o, deletes, inserts);
    if Exec(o, deletes).completed {
      NodesIntoEmpty(Exec(o, deletes), rows);
    } else {
      ExecStopped(Exec(o, deletes), inserts);
    }
  }

  /** The node section completes whenever the worker lives long enough. */
  lemma NodesDone(db: Db, input: Input, budget: nat)
    ensures var ws := NodeWrites(db, input);
      var r := Exec(Outcome(db, true, budget), ws);
      && (r.completed <==> |ws| <= budget)
      && (r.completed ==> r == Outcome(AfterNodes(db, input), true, budget - |ws|))
  {
    NodeRowsAreDistinct(input.nodes);
    NodeRowsDone(Outcome(db, true, budget), NodeRows(input.nodes), NodeWrites(db, input));
  }

  lemma {:induction false} NodeRowsDone(o: Outcome, rows: seq<NodeRow>, ws: seq<Write>)
    requires o.completed && DistinctKeys(rows, StartLine)
    requires ws == (if o.db.main != map[] then [DeleteMain, DeleteSubNodes] else [])
                 + NodeInserts(Chunks(rows, NODE_BATCH))
    ensures Exec(o, ws).completed <==> |ws| <= o.budget
    ensures Exec(o, ws).completed ==>
      Exec(o, ws) == Outcome(
        o.db.(main := Tabulate(rows, StartLine, Payload),
              subNodes := if o.db.main != map[] then map[] else o.db.subNodes),
        true, o.budget - |ws|)
  {
    if o.db.main == map[] {
      NodesIntoEmpty(o, rows);
      assert ws == NodeInserts(Chunks(rows, NODE_BATCH));
    } else {
      assert ws == [DeleteMain, DeleteSubNodes] + NodeInserts(Chunks(rows, NODE_BATCH));
      NodesAfterDeletes(o, rows);
    }
  }

  lemma {:induction false} NodeInsertsLength(chunks: seq<seq<NodeRow>>)
    ensures |NodeInserts(chunks)| == |chunks|
  {
    if chunks != [] {
      NodeInsertsLength(chunks[..|chunks| - 1]);
    }
  }

  lemma {:induction false} FootnoteInsertsLength(chunks: seq<seq<Footnote>>)
    ensures |FootnoteInserts(chunks)| == 3 * |chunks|
  {
    if chunks != [] {
      FootnoteInsertsLength(chunks[..|chunks| - 1]);
    }
  }

  lemma {:induction false} ReferenceInsertsLength(chunks: seq<seq<Reference>>)
    ensures |ReferenceInserts(chunks)| == |chunks|
  {
    if chunks != [] {
      ReferenceInsertsLength(chunks[..|chunks| - 1]);
    }
  }

  /** What the footnote section's own deletes make of the tables. */
  function Cleared(db: Db): Db {
    if db.footnotes == map[] then db
    else db.(footnotes := map[], library := WithoutFn(db.library), subNodes := WithoutFn(db.subNodes))
  }

  /** Whether the footnote section can go through: distinct ids, and nothing of the footnotes left after its deletes. */
  ghost predicate FootnotesReady(db: Db, input: Input) {
    input.footnotes.Some? ==>
      && DistinctKeys(FootnotesOf(input), FootnoteId)
      && Cleared(db).library == map[]
      && Cleared(db).subNodes == map[]
  }

  function AfterFootnotes(db: Db, input: Input): Db {
    db.(footnotes := Clean(input).footnotes, library := Clean(input).library, subNodes := Clean(input).subNodes)
  }

  lemma FilledIff(db: Db, input: Input)
    requires OnlyOwnKeys(db, input) && db.footnotes == map[]
    ensures Filled(db, FootnotesOf(input)).Some? <==>
      DistinctKeys(FootnotesOf(input), FootnoteId) && db.library == map[] && db.subNodes == map[]
    ensures Filled(db, FootnotesOf(input)).Some? ==>
      Filled(db, FootnotesOf(input)).value == AfterFootnotes(db, input)
  {
    var fs := FootnotesOf(input);
    InsertAllSucceedsIff(db.footnotes, fs, FootnoteId, Content);
    InsertAllSucceedsIff(db.library, fs, FootnoteId, Title);
    InsertAllSucceedsIff(db.subNodes, fs, FootnoteId, Content);
    if Filled(db, fs).Some? {
      NoLeftovers(db.footnotes, fs, FootnoteId, Content);
      NoLeftovers(db.library, fs, FootnoteId, Title);
      NoLeftovers(db.subNodes, fs, FootnoteId, Content);
    }
  }

  lemma FootnotesIntoCleared(o: Outcome, input: Input)
    requires OnlyOwnKeys(o.db, input) && o.db.footnotes == map[]
    ensures var ws := FootnoteInserts(Chunks(FootnotesOf(input), ROW_BATCH));
      var r := Exec(o, ws);
      && (r.completed <==> (
            && o.completed && |ws| <= o.budget
            && DistinctKeys(FootnotesOf(input), FootnoteId) && o.db.library == map[] && o.db.subNodes == map[]))
      && (r.completed ==> r == Outcome(AfterFootnotes(o.db, input), true, o.budget - |ws|))
  {
    var chunks := Chunks(FootnotesOf(input), ROW_BATCH);
    ConcatChunks(FootnotesOf(input), ROW_BATCH);
    FootnoteInsertsLength(chunks);
    FootnoteInsertsDone(o, chunks);
    FilledIff(o.db, input);
  }

  lemma ClearDone(o: Outcome)
    requires o.db.footnotes != map[]
    ensures var r := Exec(o, [DeleteFootnotes, DeleteFnLibrary, DeleteFnNodes]);
      && (r.completed <==> o.completed && 3 <= o.budget)
      && (r.completed ==> r == Outcome(Cleared(o.db), true, o.budget - 3))
  {
    ExecThree(o, DeleteFootnotes, DeleteFnLibrary, DeleteFnNodes);
  }

  lemma FootnotesDone(db: Db, input: Input, budget: nat)
    requires OnlyOwnKeys(db, input)
    ensures var ws := FootnoteWrites(db, input);
      var r := Exec(Outcome(db, true, budget), ws);
      && (r.completed <==> |ws| <= budget && FootnotesReady(db, input))
      && (r.completed ==> r == Outcome(AfterFootnotes(db, input), true, budget - |ws|))
  {
    var o := Outcome(db, true, budget);
    var inserts := FootnoteInserts(Chunks(FootnotesOf(input), ROW_BATCH));
    if input.footnotes == None {
      assert db.footnotes.Keys == {} && db.library.Keys == {} && db.subNodes.Keys == {};
    } else if db.footnotes == map[] {
      assert FootnoteWrites(db, input) == inserts;
      FootnotesIntoCleared(o, input);
    } else {
      var deletes := [DeleteFootnotes, DeleteFnLibrary, DeleteFnNodes];
      assert FootnoteWrites(db, input) == deletes + inserts;
      ClearDone(o);
      ExecConcat(o, deletes, inserts);
      if Exec(o, deletes).completed {
        FootnotesIntoCleared(Exec(o, deletes), input);
      } else {
        ExecStopped(Exec(o, deletes), inserts);
      }
    }
  }

  lemma OneDelete(o: Outcome)
    requires o.completed
    ensures Exec(o, [DeleteBibliography])
      == if o.budget == 0 then o.(completed := false)
         else Outcome(o.db.(bibliography := map[]), true, o.budget - 1)
  {
    ExecTwo(o, DeleteBibliography, DeleteBibliography);
  }

  lemma ReferencesIntoEmpty(o: Outcome, rows: seq<Reference>)
    requires o.completed && DistinctKeys(rows, ReferenceId)
    ensures var ws := [DeleteBibliography] + ReferenceInserts(Chunks(rows, ROW_BATCH));
      var r := Exec(o, ws);
      && (r.completed <==> |ws| <= o.budget)
      && (r.completed ==>
            r == Outcome(o.db.(bibliography := Tabulate(rows, ReferenceId, ReferenceText)), true, o.budget - |ws|))
  {
    var chunks := Chunks(rows, ROW_BATCH);
    ConcatChunks(rows, ROW_BATCH);
    ReferenceInsertsLength(chunks);
    InsertAllSucceedsIff(map[], rows, ReferenceId, ReferenceText);
    NoLeftovers(map[], rows, ReferenceId, ReferenceText);
    var deletes, inserts := [DeleteBibliography], ReferenceInserts(chunks);
    var cleared := Exec(o, deletes);
    OneDelete(o);
    ExecConcat(o, deletes, inserts);
    assert |deletes + inserts| == 1 + |inserts|;
    if cleared.completed {
      ReferenceInsertsDone(cleared, chunks);
      assert Exec(cleared, inserts).completed <==> |inserts| <= cleared.budget;
    } else {
      ExecStopped(cleared, inserts);
    }
  }

  lemma ReferencesDone(db: Db, input: Input, budget: nat)
    requires OnlyOwnKeys(db, input)
    ensures var ws := ReferenceWrites(input);
      var r := Exec(Outcome(db, true, budget), ws);
      && (r.completed <==> |ws| <= budget)
      && (r.completed ==> r == Outcome(db.(bibliography := Clean(input).bibliography), true, budget - |ws|))
  {
    if input.references == [] {
      assert db.bibliography.Keys == {};
    } else {
      DedupedIsDistinct(input.references);
      ReferencesIntoEmpty(Outcome(db, true, budget), Deduped(input.references));
    }
  }

  // Whole attempts.

  /** The statements an attempt issues when nothing stops it. */
  function Cost(db: Db, input: Input): nat {
    |NodeWrites(db, input)| + |FootnoteWrites(db, input)| + |ReferenceWrites(input)|
  }

  lemma NodesKeepOwnKeys(db: Db, input: Input)
    requires OnlyOwnKeys(db, input)
    ensures OnlyOwnKeys(AfterNodes(db, input), input)
  {
    TabulateKeys(NodeRows(input.nodes), StartLine, Payload);
  }

  lemma FootnotesKeepOwnKeys(db: Db, input: Input)
    requires OnlyOwnKeys(db, input)
    ensures OnlyOwnKeys(AfterFootnotes(db, input), input)
  {
    TabulateKeys(FootnotesOf(input), FootnoteId, Content);
    TabulateKeys(FootnotesOf(input), FootnoteId, Title);
  }

  /**
    An attempt completes exactly when the worker lives through all its statements and the footnote section
    finds no leftovers; whenever it completes, the tables are the clean import and nothing else.
   */
  lemma AttemptDone(db: Db, input: Input, budget: nat)
    requires OnlyOwnKeys(db, input)
    ensures Attempt(db, input, budget).completed <==>
      Cost(db, input) <= budget && FootnotesReady(AfterNodes(db, input), input)
    ensures Attempt(db, input, budget).completed ==> Attempt(db, input, budget).db == Clean(input)
  {
    var o1 := Exec(Outcome(db, true, budget), NodeWrites(db, input));
    NodesDone(db, input, budget);
    var o2 := Exec(o1, FootnoteWrites(o1.db, input));
    if o1.completed {
      NodesKeepOwnKeys(db, input);
      FootnotesDone(o1.db, input, o1.budget);
      if o2.completed {
        FootnotesKeepOwnKeys(o1.db, input);
        ReferencesDone(o2.db, input, o2.budget);
      } else {
        ExecStopped(o2, ReferenceWrites(input));
      }
    } else {
      ExecStopped(o1, FootnoteWrites(o1.db, input));
      ExecStopped(o2, ReferenceWrites(input));
    }
  }

  /** The tables after a series of attempts, each by a worker with its own life span. */
  function AfterAttempts(db: Db, input: Input, budgets: seq<nat>): Db {
    if budgets == [] then db
    else Attempt(AfterAttempts(db, input, budgets[..|budgets| - 1]), input, budgets[|budgets| - 1]).db
  }

  lemma {:induction false} AttemptsKeepOwnKeys(input: Input, budgets: seq<nat>)
    ensures OnlyOwnKeys(AfterAttempts(EMPTY, input, budgets), input)
  {
    if budgets != [] {
      var n := |budgets| - 1;
      AttemptsKeepOwnKeys(input, budgets[..n]);
      AttemptKeepsOwnKeys(AfterAttempts(EMPTY, input, budgets[..n]), input, budgets[n]);
    }
  }

  /**
    Retry safety: after any number of attempts on a fresh book, cut off between any two statements, an
    attempt that completes leaves exactly the tables of one uninterrupted import.
   */
  lemma {:induction false} RetriedImportIsClean(input: Input, budgets: seq<nat>, last: nat)
    requires Attempt(AfterAttempts(EMPTY, input, budgets), input, last).completed
    ensures Attempt(AfterAttempts(EMPTY, input, budgets), input, last).db == Clean(input)
  {
    AttemptsKeepOwnKeys(input, budgets);
    AttemptDone(AfterAttempts(EMPTY, input, budgets), input, last);
  }

  /** An uninterrupted first attempt completes exactly when no footnote id occurs twice. */
  lemma FreshImportCompletesIff(input: Input, budget: nat)
    requires Cost(EMPTY, input) <= budget
    ensures Attempt(EMPTY, input, budget).completed <==> DistinctKeys(FootnotesOf(input), FootnoteId)
    ensures Attempt(EMPTY, input, budget).completed ==> Attempt(EMPTY, input, budget).db == Clean(input)
  {
    AttemptDone(EMPTY, input, budget);
  }

  /** Ids as the converter writes them: distinct, and all starting with Fn. */
  ghost predicate FnIds(input: Input) {
    && DistinctKeys(FootnotesOf(input), FootnoteId)
    && forall f | f in FootnotesOf(input) :: IsFnKey(f.id)
  }

  lemma WithoutFnOfOwn(table: map<string, string>, input: Input)
    requires FnIds(input) && table.Keys <= FootnoteKeys(input)
    ensures WithoutFn(table) == map[]
  {
    forall k | k in table ensures IsFnKey(k) {
      var f :| f in FootnotesOf(input) && FootnoteId(f) == k;
    }
  }

  /**
    With such ids, an attempt that is not cut off completes exactly unless it meets sub-book rows of an
    earlier attempt without any footnote row to announce them: hasExisting looks at the footnotes only.
   */
  lemma UninterruptedCompletesIff(db: Db, input: Input, budget: nat)
    requires OnlyOwnKeys(db, input) && FnIds(input) && Cost(db, input) <= budget
    ensures Attempt(db, input, budget).completed <==>
      || input.footnotes == None
      || db.footnotes != map[]
      || (db.library == map[] && (db.main != map[] || db.subNodes == map[]))
  {
    AttemptDone(db, input, budget);
    NodesKeepOwnKeys(db, input);
    WithoutFnOfOwn(AfterNodes(db, input).library, input);
    WithoutFnOfOwn(AfterNodes(db, input).subNodes, input);
  }

  /** Statements other than the first delete of the footnote section never empty the footnotes table. */
  lemma {:induction false} InsertsKeepFootnotes(o: Outcome, chunks: seq<seq<Footnote>>)
    requires o.db.footnotes != map[]
    ensures Exec(o, FootnoteInserts(chunks)).db.footnotes != map[]
  {
    if chunks != [] {
      var n := |chunks| - 1;
      var before := Exec(o, FootnoteInserts(chunks[..n]));
      InsertsKeepFootnotes(o, chunks[..n]);
      ExecConcat(o, FootnoteInserts(chunks[..n]), FlushWrites(chunks[n]));
      InsertNeverEmpties(before, InsertFootnotes(chunks[n]));
      FlushKeepsFootnotes(before, chunks[n]);
    }
  }

  lemma InsertNeverEmpties(o: Outcome, w: Write)
    requires o.db.footnotes != map[] && !w.DeleteFootnotes?
    ensures Step(o, w).db.footnotes != map[]
  {
    if w.InsertFootnotes? && InsertAll(o.db.footnotes, w.batch, FootnoteId, Content).Some? {
      InsertAllAdds(o.db.footnotes, w.batch, FootnoteId, Content);
      var id :| id in o.db.footnotes;
      assert id in o.db.footnotes + Tabulate(w.batch, FootnoteId, Content);
    }
  }

  lemma InsertLeavesSome(o: Outcome, batch: seq<Footnote>)
    requires o.completed && o.budget > 0 && batch != [] && DistinctKeys(batch, FootnoteId)
    ensures Step(o, InsertFootnotes(batch)).db.footnotes != map[]
  {
    if o.db.footnotes != map[] {
      InsertNeverEmpties(o, InsertFootnotes(batch));
    } else {
      InsertAllSucceedsIff(o.db.footnotes, batch, FootnoteId, Content);
      NoLeftovers(o.db.footnotes, batch, FootnoteId, Content);
      TabulateKeys(batch, FootnoteId, Content);
      assert FootnoteId(batch[0]) in KeysOf(batch, FootnoteId);
    }
  }

  lemma FlushKeepsFootnotes(o: Outcome, batch: seq<Footnote>)
    requires Step(o, InsertFootnotes(batch)).db.footnotes != map[]
    ensures Exec(o, FlushWrites(batch)).db.footnotes != map[]
  {
    var first := Step(o, InsertFootnotes(batch));
    ExecThree(o, InsertFootnotes(batch), InsertLibrary(batch), InsertSubNodes(batch));
    InsertNeverEmpties(first, InsertLibrary(batch));
    InsertNeverEmpties(Step(first, InsertLibrary(batch)), InsertSubNodes(batch));
  }

  lemma NoFootnotesNoRows(db: Db, input: Input)
    requires OnlyOwnKeys(db, input) && FootnotesOf(input) == []
    ensures db.footnotes == map[] && db.library == map[] && db.subNodes == map[]
  {
    assert FootnoteKeys(input) == {};
  }

  /** An attempt that is not cut off and still fails has got as far as the first footnote insert. */
  lemma FailedAttemptStopsAtFootnotes(db: Db, input: Input, budget: nat)
    requires OnlyOwnKeys(db, input) && Cost(db, input) <= budget && !Attempt(db, input, budget).completed
    ensures var mid := Outcome(AfterNodes(db, input), true, budget - |NodeWrites(db, input)|);
      Attempt(db, input, budget) == Exec(mid, FootnoteWrites(mid.db, input))
  {
    NodesDone(db, input, budget);
    NodesKeepOwnKeys(db, input);
    var mid := Outcome(AfterNodes(db, input), true, budget - |NodeWrites(db, input)|);
    var end := Exec(mid, FootnoteWrites(mid.db, input));
    FootnotesDone(mid.db, input, mid.budget);
    AttemptDone(db, input, budget);
    ExecStopped(end, ReferenceWrites(input));
  }

  lemma FailedAttemptLeavesFootnotes(db: Db, input: Input, budget: nat)
    requires OnlyOwnKeys(db, input) && FnIds(input)
    requires Cost(db, input) <= budget && !Attempt(db, input, budget).completed
    ensures Attempt(db, input, budget).db.footnotes != map[]
  {
    UninterruptedCompletesIff(db, input, budget);
    FailedAttemptStopsAtFootnotes(db, input, budget);
    if FootnotesOf(input) == [] {
      NoFootnotesNoRows(db, input);
      assert false;
    }
    var mid := Outcome(AfterNodes(db, input), true, budget - |NodeWrites(db, input)|);
    assert FootnoteWrites(mid.db, input) == FootnoteInserts(Chunks(FootnotesOf(input), ROW_BATCH));
    FirstFlushLeavesFootnotes(mid, input);
  }

  /**
    The leftovers cost an attempt, not the import: the attempt that trips over them has by then written
    footnote rows, so the next uninterrupted one clears everything and completes.
   */
  lemma SecondAttemptCompletes(db: Db, input: Input, budget: nat, next: nat)
    requires OnlyOwnKeys(db, input) && FnIds(input)
    requires Cost(db, input) <= budget && !Attempt(db, input, budget).completed
    requires Cost(Attempt(db, input, budget).db, input) <= next
    ensures Attempt(Attempt(db, input, budget).db, input, next).completed
    ensures Attempt(Attempt(db, input, budget).db, input, next).db == Clean(input)
  {
    var failed := Attempt(db, input, budget).db;
    FailedAttemptLeavesFootnotes(db, input, budget);
    AttemptKeepsOwnKeys(db, input, budget);
    UninterruptedCompletesIff(failed, input, next);
    AttemptDone(failed, input, next);
  }

  lemma {:induction false} FootnoteInsertsSplit(chunks: seq<seq<Footnote>>)
    requires chunks != []
    ensures FootnoteInserts(chunks) == FlushWrites(chunks[0]) + FootnoteInserts(chunks[1..])
  {
    var n := |chunks| - 1;
    if n == 0 {
      assert chunks[..0] == [] && chunks[1..] == [];
    } else {
      FootnoteInsertsSplit(chunks[..n]);
      assert chunks[..n][1..] == chunks[1..][..n - 1];
      assert FlushWrites(chunks[0]) + FootnoteInserts(chunks[..n][1..]) + FlushWrites(chunks[n])
          == FlushWrites(chunks[0]) + (FootnoteInserts(chunks[..n][1..]) + FlushWrites(chunks[n]));
    }
  }

  lemma FirstFlushLeavesFootnotes(o: Outcome, input: Input)
    requires o.completed && o.budget > 0 && FnIds(input) && FootnotesOf(input) != []
    ensures Exec(o, FootnoteInserts(Chunks(FootnotesOf(input), ROW_BATCH))).db.footnotes != map[]
  {
    var fs := FootnotesOf(input);
    var chunks := Chunks(fs, ROW_BATCH);
    ChunkSize(fs, ROW_BATCH, 0);
    FootnoteInsertsSplit(chunks);
    ExecConcat(o, FlushWrites(chunks[0]), FootnoteInserts(chunks[1..]));
    assert DistinctKeys(chunks[0], FootnoteId);
    InsertLeavesSome(o, chunks[0]);
    FlushKeepsFootnotes(o, chunks[0]);
    InsertsKeepFootnotes(Exec(o, FlushWrites(chunks[0])), chunks[1..]);
  }

  const ONE_FOOTNOTE: Input := Input([], Some([Footnote("Fn1", "text")]), [])

  lemma OneFootnotePlan(db: Db)
    requires db.main == map[]
    ensures NodeWrites(db, ONE_FOOTNOTE) == [] && ReferenceWrites(ONE_FOOTNOTE) == []
    ensures FootnoteWrites(db, ONE_FOOTNOTE)
      == (if db.footnotes != map[] then [DeleteFootnotes, DeleteFnLibrary, DeleteFnNodes] else [])
       + FlushWrites([Footnote("Fn1", "text")])
  {
    var f := Footnote("Fn1", "text");
    assert [f][..0] == [] && Identified([f]) == [f];
    assert [[f]][..0] == [] && FootnoteInserts([[f]]) == FlushWrites([f]);
  }

  const AFTER_FIRST: Db := Db(map[], map["Fn1" := "text"], map["Fn1" := "Annotation: Fn1"], map[], map[])
  const AFTER_SECOND: Db := AFTER_FIRST.(footnotes := map[])

  lemma InsertOne(f: Footnote, value: Footnote -> string)
    ensures InsertAll(map[], [f], FootnoteId, value) == Some(map[f.id := value(f)])
  {
    assert [f][..0] == [];
    assert InsertAll(map[], [], FootnoteId, value) == Some(map[]);
  }

  lemma FirstWorkerDies()
    ensures Attempt(EMPTY, ONE_FOOTNOTE, 2).db == AFTER_FIRST
  {
    var f := Footnote("Fn1", "text");
    var batch := [f];
    var start := Outcome(EMPTY, true, 2);
    OneFootnotePlan(EMPTY);
    assert FootnoteWrites(EMPTY, ONE_FOOTNOTE) == FlushWrites(batch);
    ExecThree(start, InsertFootnotes(batch), InsertLibrary(batch), InsertSubNodes(batch));
    InsertOne(f, Content);
    InsertOne(f, Title);
    assert Title(f) == "Annotation: Fn1";
    var inserted := Outcome(EMPTY.(footnotes := map["Fn1" := "text"]), true, 1);
    assert Step(start, InsertFootnotes(batch)) == inserted;
    assert Step(inserted, InsertLibrary(batch)) == Outcome(AFTER_FIRST, true, 0);
  }

  lemma SecondWorkerDies()
    ensures Attempt(AFTER_FIRST, ONE_FOOTNOTE, 1).db == AFTER_SECOND
  {
    var f := Footnote("Fn1", "text");
    var deletes := [DeleteFootnotes, DeleteFnLibrary, DeleteFnNodes];
    var start := Outcome(AFTER_FIRST, true, 1);
    OneFootnotePlan(AFTER_FIRST);
    assert "Fn1" in AFTER_FIRST.footnotes;
    ExecThree(start, DeleteFootnotes, DeleteFnLibrary, DeleteFnNodes);
    ExecConcat(start, deletes, FlushWrites([f]));
    ExecStopped(Exec(start, deletes), FlushWrites([f]));
  }

  /**
    The state UninterruptedCompletesIff rules out is reachable: one attempt dies after the library insert, the
    next after deleting the footnotes, and the third fails on the library key however long it lives.
   */
  lemma LostFootnotesStopTheNextAttempt(budget: nat)
    ensures !Attempt(AfterAttempts(EMPTY, ONE_FOOTNOTE, [2, 1]), ONE_FOOTNOTE, budget).completed
  {
    FirstWorkerDies();
    SecondWorkerDies();
    assert [2, 1][..1] == [2] && [2][..0] == [];
    assert AfterAttempts(EMPTY, ONE_FOOTNOTE, [2]) == AFTER_FIRST;
    assert AfterAttempts(EMPTY, ONE_FOOTNOTE, [2, 1]) == AFTER_SECOND;
    AttemptsKeepOwnKeys(ONE_FOOTNOTE, [2, 1]);
    AttemptDone(AFTER_SECOND, ONE_FOOTNOTE, budget);
    assert "Fn1" in Cleared(AfterNodes(AFTER_SECOND, ONE_FOOTNOTE)).library;
  }
}
