/**
  The database writes of the document import, attempt after attempt. Every statement commits on
  its own; a worker can die between any two of them, and a unique key can make one fail. An attempt
  deletes what it believes an earlier one left and inserts again. The tables are those rows that
  belong to one book; rows of its sub-books are keyed by what follows "book/" in their id.
 */
module ImportRetry {
  import opened Common
  import opened KeyedRows

  const NODE_BATCH: nat := 5000
  const ROW_BATCH: nat := 500

  datatype NodeRow = NodeRow(startLine: int, payload: string)
  datatype Footnote = Footnote(id: string, content: string)
  datatype Reference = Reference(id: string, text: string)

  /**
    What the conversion produced: the nodes in order; the decoded footnote lines, or None when the job
    skips footnotes (no file, an empty file, or no library row for the book); the references, empty when
    there is no file or nothing in it.
   */
  datatype Input = Input(nodes: seq<string>, footnotes: Option<seq<Footnote>>, references: seq<Reference>)

  datatype Db = Db(
    main: map<int, string>,
    footnotes: map<string, string>,
    library: map<string, string>,
    subNodes: map<string, string>,
    bibliography: map<string, string>)

  const EMPTY: Db := Db(map[], map[], map[], map[], map[])

  function StartLine(row: NodeRow): int { row.startLine }
  function Payload(row: NodeRow): string { row.payload }
  function FootnoteId(f: Footnote): string { f.id }
  function Content(f: Footnote): string { f.content }
  function Title(f: Footnote): string { "Annotation: " + f.id }
  function ReferenceId(r: Reference): string { r.id }
  function ReferenceText(r: Reference): string { r.text }

  predicate Truthy(s: string) {
    s != "" && s != "0"
  }

  predicate IsFnKey(key: string) {
    "Fn" <= key
  }

  function WithoutFn(table: map<string, string>): map<string, string> {
    map k | k in table && !IsFnKey(k) :: table[k]
  }

  /** The node rows: start lines 100, 200, 300, ... */
  function NodeRows(nodes: seq<string>): (rows: seq<NodeRow>)
    ensures |rows| == |nodes|
  {
    if nodes == [] then []
    else
      var n := |nodes| - 1;
      NodeRows(nodes[..n]) + [NodeRow(100 * (n + 1), nodes[n])]
  }

  /** The footnotes with an id. */
  function Identified(footnotes: seq<Footnote>): seq<Footnote> {
    if footnotes == [] then []
    else
      var n := |footnotes| - 1;
      Identified(footnotes[..n]) + if Truthy(footnotes[n].id) then [footnotes[n]] else []
  }

  function FootnotesOf(input: Input): seq<Footnote> {
    if input.footnotes == None then [] else Identified(input.footnotes.value)
  }

  /** $deduped[$row['referenceId']] = $row: the first place, the last value. */
  function Put(rows: seq<Reference>, r: Reference): seq<Reference> {
    if rows == [] then [r]
    else
      var n := |rows| - 1;
      if rows[n].id == r.id then rows[n := r] else Put(rows[..n], r) + [rows[n]]
  }

  /** The references with an id, one row per id. */
  function Deduped(references: seq<Reference>): seq<Reference> {
    if references == [] then []
    else
      var n := |references| - 1;
      var before := Deduped(references[..n]);
      if Truthy(references[n].id) then Put(before, references[n]) else before
  }

  // Statements.

  datatype Write =
    | DeleteMain
    | DeleteSubNodes
    | InsertMain(rows: seq<NodeRow>)
    | DeleteFootnotes
    | DeleteFnLibrary
    | DeleteFnNodes
    | InsertFootnotes(batch: seq<Footnote>)
    | InsertLibrary(batch: seq<Footnote>)
    | InsertSubNodes(batch: seq<Footnote>)
    | DeleteBibliography
    | InsertBibliography(references: seq<Reference>)

  function Perform(db: Db, w: Write): Option<Db> {
    match w
    case DeleteMain => Some(db.(main := map[]))
    case DeleteSubNodes => Some(db.(subNodes := map[]))
    case InsertMain(rows) =>
      (match InsertAll(db.main, rows, StartLine, Payload)
       case None => None
       case Some(t) => Some(db.(main := t)))
    case DeleteFootnotes => Some(db.(footnotes := map[]))
    case DeleteFnLibrary => Some(db.(library := WithoutFn(db.library)))
    case DeleteFnNodes => Some(db.(subNodes := WithoutFn(db.subNodes)))
    case InsertFootnotes(batch) =>
      (match InsertAll(db.footnotes, batch, FootnoteId, Content)
       case None => None
       case Some(t) => Some(db.(footnotes := t)))
    case InsertLibrary(batch) =>
      (match InsertAll(db.library, batch, FootnoteId, Title)
       case None => None
       case Some(t) => Some(db.(library := t)))
    case InsertSubNodes(batch) =>
      (match InsertAll(db.subNodes, batch, FootnoteId, Content)
       case None => None
       case Some(t) => Some(db.(subNodes := t)))
    case DeleteBibliography => Some(db.(bibliography := map[]))
    case InsertBibliography(references) =>
      (match InsertAll(db.bibliography, references, ReferenceId, ReferenceText)
       case None => None
       case Some(t) => Some(db.(bibliography := t)))
  }

  /** Where a sequence of statements got to; budget counts the statements the worker still lives for. */
  datatype Outcome = Outcome(db: Db, completed: bool, budget: nat)

  function Step(o: Outcome, w: Write): Outcome {
    if !o.completed then o
    else if o.budget == 0 then o.(completed := false)
    else match Perform(o.db, w)
      case None => Outcome(o.db, false, o.budget - 1)
      case Some(db) => Outcome(db, true, o.budget - 1)
  }

  function Exec(o: Outcome, ws: seq<Write>): Outcome {
    if ws == [] then o else Step(Exec(o, ws[..|ws| - 1]), ws[|ws| - 1])
  }

  // The plan of an attempt.

  function NodeInserts(chunks: seq<seq<NodeRow>>): seq<Write> {
    if chunks == [] then [] else NodeInserts(chunks[..|chunks| - 1]) + [InsertMain(chunks[|chunks| - 1])]
  }

  function FlushWrites(batch: seq<Footnote>): seq<Write> {
    [InsertFootnotes(batch), InsertLibrary(batch), InsertSubNodes(batch)]
  }

  function FootnoteInserts(chunks: seq<seq<Footnote>>): seq<Write> {
    if chunks == [] then [] else FootnoteInserts(chunks[..|chunks| - 1]) + FlushWrites(chunks[|chunks| - 1])
  }

  function ReferenceInserts(chunks: seq<seq<Reference>>): seq<Write> {
    if chunks == [] then []
    else ReferenceInserts(chunks[..|chunks| - 1]) + [InsertBibliography(chunks[|chunks| - 1])]
  }

  /** saveNodesToDatabase: old rows go only if the book has nodes. */
  function NodeWrites(db: Db, input: Input): seq<Write> {
    (if db.main != map[] then [DeleteMain, DeleteSubNodes] else [])
    + NodeInserts(Chunks(NodeRows(input.nodes), NODE_BATCH))
  }

  /** saveFootnotesToDatabase: old rows go only if the footnotes table has some. */
  function FootnoteWrites(db: Db, input: Input): seq<Write> {
    if input.footnotes == None then []
    else
      (if db.footnotes != map[] then [DeleteFootnotes, DeleteFnLibrary, DeleteFnNodes] else [])
      + FootnoteInserts(Chunks(FootnotesOf(input), ROW_BATCH))
  }

  /** saveReferencesToDatabase: old rows always go, unless there are no references at all. */
  function ReferenceWrites(input: Input): seq<Write> {
    if input.references == [] then []
    else [DeleteBibliography] + ReferenceInserts(Chunks(Deduped(input.references), ROW_BATCH))
  }

  /** One attempt of the job's database part, by a worker that lives for `budget` statements. */
  function Attempt(db: Db, input: Input, budget: nat): Outcome {
    var o1 := Exec(Outcome(db, true, budget), NodeWrites(db, input));
    var o2 := Exec(o1, FootnoteWrites(o1.db, input));
    Exec(o2, ReferenceWrites(input))
  }

  /** The job over its tables. ok is false when the worker died or a statement failed. */
  class ImportJob {
    var db: Db
    var budget: nat

    ghost function Now(ok: bool): Outcome
      reads this
    {
      Outcome(db, ok, budget)
    }

    method Execute(w: Write) returns (ok: bool)
      modifies this
      ensures Now(ok) == Step(old(Now(true)), w)
    {
      if budget == 0 {
        return false;
      }
      budget := budget - 1;
      var result := Perform(db, w);
      if result == None {
        return false;
      }
      db := result.value;
      ok := true;
    }

    method SaveNodes(input: Input) returns (ok: bool)
      modifies this
      ensures Now(ok) == Exec(old(Now(true)), NodeWrites(old(db), input))
    {
      ghost var start := Now(true);
      ghost var deletes: seq<Write> := [];
      ok := true;
      if db.main != map[] {
        deletes := [DeleteMain, DeleteSubNodes];
        ok := Execute(DeleteMain);
        if ok {
          ok := Execute(DeleteSubNodes);
        }
        ExecTwo(start, DeleteMain, DeleteSubNodes);
      }
      var chunks := Chunks(NodeRows(input.nodes), NODE_BATCH);
      var k := 0;
      assert deletes + NodeInserts(chunks[..0]) == deletes;
      while k < |chunks|
        invariant 0 <= k <= |chunks|
        invariant Now(ok) == Exec(start, deletes + NodeInserts(chunks[..k]))
      {
        assert chunks[..k + 1][..k] == chunks[..k];
        ExecSnoc(start, deletes + NodeInserts(chunks[..k]), InsertMain(chunks[k]));
        assert deletes + NodeInserts(chunks[..k + 1]) == deletes + NodeInserts(chunks[..k]) + [InsertMain(chunks[k])];
        if ok {
          ok := Execute(InsertMain(chunks[k]));
        }
        k := k + 1;
      }
      assert chunks[..k] == chunks;
    }

    /** The three inserts of a flushed batch. */
    method Flush(batch: seq<Footnote>) returns (ok: bool)
      modifies this
      ensures Now(ok) == Exec(old(Now(true)), FlushWrites(batch))
    {
      ghost var start := Now(true);
      ExecThree(start, InsertFootnotes(batch), InsertLibrary(batch), InsertSubNodes(batch));
      ok := Execute(InsertFootnotes(batch));
      if ok {
        ok := Execute(InsertLibrary(batch));
      }
      if ok {
        ok := Execute(InsertSubNodes(batch));
      }
    }

    method ClearFootnotes() returns (ok: bool)
      modifies this
      ensures Now(ok) == Exec(old(Now(true)), [DeleteFootnotes, DeleteFnLibrary, DeleteFnNodes])
    {
      ExecThree(Now(true), DeleteFootnotes, DeleteFnLibrary, DeleteFnNodes);
      ok := Execute(DeleteFootnotes);
      if ok {
        ok := Execute(DeleteFnLibrary);
      }
      if ok {
        ok := Execute(DeleteFnNodes);
      }
    }

    method SaveFootnotes(input: Input) returns (ok: bool)
      modifies this
      ensures Now(ok) == Exec(old(Now(true)), FootnoteWrites(old(db), input))
    {
      if input.footnotes == None {
        return true;
      }
      ghost var start := Now(true);
      ghost var deletes: seq<Write> := [];
      ok := true;
      var hasExisting := db.footnotes != map[];
      if hasExisting {
        deletes := [DeleteFootnotes, DeleteFnLibrary, DeleteFnNodes];
        ok := ClearFootnotes();
      }
      var lines := input.footnotes.value;
      var inserts: seq<Footnote> := [];
      ghost var flushed: seq<seq<Footnote>> := [];
      var l := 0;
      assert deletes + FootnoteInserts(flushed) == deletes;
      while l < |lines|
        invariant 0 <= l <= |lines|
        invariant Buffered(flushed, inserts, Identified(lines[..l]))
        invariant Now(ok) == Exec(start, deletes + FootnoteInserts(flushed))
      {
        assert lines[..l + 1][..l] == lines[..l];
        if Truthy(lines[l].id) {
          ok, inserts, flushed := AddFootnote(ok, inserts, lines[l], start, deletes, flushed, Identified(lines[..l]));
        }
        l := l + 1;
      }
      assert lines[..l] == lines;
      ok := FlushRest(ok, inserts, start, deletes, flushed);
      ChunksOfFull(flushed, inserts, ROW_BATCH);
    }

    /** Append a footnote to the insert buffers; full buffers are flushed. */
    method AddFootnote(
      ok: bool, inserts: seq<Footnote>, line: Footnote,
      ghost start: Outcome, ghost deletes: seq<Write>, ghost flushed: seq<seq<Footnote>>, ghost before: seq<Footnote>)
      returns (ok': bool, inserts': seq<Footnote>, ghost flushed': seq<seq<Footnote>>)
      requires Buffered(flushed, inserts, before)
      requires Now(ok) == Exec(start, deletes + FootnoteInserts(flushed))
      modifies this
      ensures Buffered(flushed', inserts', before + [line])
      ensures Now(ok') == Exec(start, deletes + FootnoteInserts(flushed'))
    {
      ok', inserts', flushed' := ok, inserts + [line], flushed;
      assert Concat(flushed) + inserts' == before + [line];
      if |inserts'| >= ROW_BATCH {
        FlushNext(start, deletes, flushed, inserts');
        if ok {
          ok' := Flush(inserts');
        }
        ConcatSnoc(flushed, inserts');
        flushed', inserts' := flushed + [inserts'], [];
        assert Concat(flushed') + [] == Concat(flushed');
      }
    }

    method FlushRest(
      ok: bool, inserts: seq<Footnote>,
      ghost start: Outcome, ghost deletes: seq<Write>, ghost flushed: seq<seq<Footnote>>)
      returns (ok': bool)
      requires |inserts| < ROW_BATCH
      requires Now(ok) == Exec(start, deletes + FootnoteInserts(flushed))
      modifies this
      ensures Now(ok') == Exec(start, deletes + FootnoteInserts(flushed + Chunks(inserts, ROW_BATCH)))
    {
      ok' := ok;
      if inserts != [] {
        FlushNext(start, deletes, flushed, inserts);
        if ok {
          ok' := Flush(inserts);
        }
      } else {
        assert flushed + [] == flushed;
      }
    }

    method SaveReferences(input: Input) returns (ok: bool)
      modifies this
      ensures Now(ok) == Exec(old(Now(true)), ReferenceWrites(input))
    {
      if input.references == [] {
        return true;
      }
      ghost var start := Now(true);
      ok := Execute(DeleteBibliography);
      var deduped := Dedupe(input.references);
      var chunks := Chunks(deduped, ROW_BATCH);
      var k := 0;
      ghost var deletes := [DeleteBibliography];
      assert deletes[..0] == [] && deletes + ReferenceInserts(chunks[..0]) == deletes;
      while k < |chunks|
        invariant 0 <= k <= |chunks|
        invariant Now(ok) == Exec(start, deletes + ReferenceInserts(chunks[..k]))
      {
        assert chunks[..k + 1][..k] == chunks[..k];
        ExecSnoc(start, deletes + ReferenceInserts(chunks[..k]), InsertBibliography(chunks[k]));
        assert deletes + ReferenceInserts(chunks[..k + 1])
            == deletes + ReferenceInserts(chunks[..k]) + [InsertBibliography(chunks[k])];
        if ok {
          ok := Execute(InsertBibliography(chunks[k]));
        }
        k := k + 1;
      }
      assert chunks[..k] == chunks;
    }

    method Dedupe(references: seq<Reference>) returns (deduped: seq<Reference>)
      ensures deduped == Deduped(references)
    {
      deduped := [];
      var k := 0;
      while k < |references|
        invariant 0 <= k <= |references|
        invariant deduped == Deduped(references[..k])
      {
        assert references[..k + 1][..k] == references[..k];
        if Truthy(references[k].id) {
          deduped := Put(deduped, references[k]);
        }
        k := k + 1;
      }
      assert references[..k] == references;
    }

    /** The database part of handle(). */
    method Run(input: Input) returns (ok: bool)
      modifies this
      ensures Now(ok) == Attempt(old(db), input, old(budget))
    {
      ok := SaveNodes(input);
      ghost var o1 := Now(ok);
      if ok {
        ok := SaveFootnotes(input);
      } else {
        ExecStopped(o1, FootnoteWrites(o1.db, input));
      }
      ghost var o2 := Now(ok);
      if ok {
        ok := SaveReferences(input);
      } else {
        ExecStopped(o2, ReferenceWrites(input));
      }
    }
  }

  lemma ExecSnoc(o: Outcome, ws: seq<Write>, w: Write)
    ensures Exec(o, ws + [w]) == Step(Exec(o, ws), w)
  {
    assert (ws + [w])[..|ws|] == ws;
  }

  lemma {:induction false} ExecConcat(o: Outcome, a: seq<Write>, b: seq<Write>)
    ensures Exec(o, a + b) == Exec(Exec(o, a), b)
  {
    if b == [] {
      assert a + b == a;
    } else {
      var n := |b| - 1;
      ExecConcat(o, a, b[..n]);
      assert (a + b)[..|a + b| - 1] == a + b[..n];
    }
  }

  lemma {:induction false} ExecStopped(o: Outcome, ws: seq<Write>)
    requires !o.completed
    ensures Exec(o, ws) == o
  {
    if ws != [] {
      ExecStopped(o, ws[..|ws| - 1]);
    }
  }

  lemma ExecTwo(o: Outcome, v: Write, w: Write)
    ensures Exec(o, [v, w]) == Step(Step(o, v), w)
    ensures Exec(o, [v]) == Step(o, v)
  {
    assert [v, w][..1] == [v] && [v][..0] == [];
    assert Exec(o, []) == o;
    assert Exec(o, [v]) == Step(o, v);
  }

  lemma ExecThree(o: Outcome, u: Write, v: Write, w: Write)
    ensures Exec(o, [u, v, w]) == Step(Step(Step(o, u), v), w)
  {
    ExecTwo(o, u, v);
    assert [u, v, w][..2] == [u, v];
  }

  /** Full batches are flushed, the rest is still in the buffers. */
  ghost predicate Buffered(flushed: seq<seq<Footnote>>, inserts: seq<Footnote>, all: seq<Footnote>) {
    && Concat(flushed) + inserts == all
    && |inserts| < ROW_BATCH
    && forall k | 0 <= k < |flushed| :: |flushed[k]| == ROW_BATCH
  }

  lemma FlushNext(o: Outcome, deletes: seq<Write>, flushed: seq<seq<Footnote>>, batch: seq<Footnote>)
    ensures Exec(o, deletes + FootnoteInserts(flushed + [batch]))
      == Exec(Exec(o, deletes + FootnoteInserts(flushed)), FlushWrites(batch))
    ensures !Exec(o, deletes + FootnoteInserts(flushed)).completed ==>
      Exec(o, deletes + FootnoteInserts(flushed + [batch])) == Exec(o, deletes + FootnoteInserts(flushed))
  {
    var before := deletes + FootnoteInserts(flushed);
    assert (flushed + [batch])[..|flushed|] == flushed;
    assert deletes + FootnoteInserts(flushed + [batch]) == before + FlushWrites(batch);
    ExecConcat(o, before, FlushWrites(batch));
    if !Exec(o, before).completed {
      ExecStopped(Exec(o, before), FlushWrites(batch));
    }
  }
}
