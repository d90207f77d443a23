/** What an import leaves in each table, read off the conversion's own fields, and how many statements it takes. */
module ImportContents {
  import opened Common
  import opened KeyedRows
  import opened ImportRetry
  import opened ImportSafety

  /** The reference has an id, and no later one has the same. */
  predicate IsLastReference(references: seq<Reference>, i: nat)
    requires i < |references|
  {
    && references[i].id != "" && references[i].id != "0"
    && forall j | i < j < |references| :: references[j].id != references[i].id
  }

  predicate IsLastFootnote(footnotes: seq<Footnote>, i: nat)
    requires i < |footnotes|
  {
    && footnotes[i].id != "" && footnotes[i].id != "0"
    && forall j | i < j < |footnotes| :: footnotes[j].id != footnotes[i].id
  }

  /** One row for each id, and that is the last reference with it. */
  ghost predicate HasReferences(table: map<string, string>, references: seq<Reference>) {
    && (forall i | 0 <= i < |references| && IsLastReference(references, i) ::
          references[i].id in table && table[references[i].id] == references[i].text)
    && (forall id | id in table :: exists i :: 0 <= i < |references| && references[i].id == id)
    && "" !in table && "0" !in table
  }

  /** All ids are of some footnote, and not empty ones. */
  ghost predicate OnlyFootnoteIds(table: map<string, string>, footnotes: seq<Footnote>) {
    && (forall id | id in table :: exists i :: 0 <= i < |footnotes| && footnotes[i].id == id)
    && "" !in table && "0" !in table
  }

  /** One row for each id, with the last content it comes with. */
  ghost predicate HasContents(table: map<string, string>, footnotes: seq<Footnote>) {
    && (forall i | 0 <= i < |footnotes| && IsLastFootnote(footnotes, i) ::
          footnotes[i].id in table && table[footnotes[i].id] == footnotes[i].content)
    && OnlyFootnoteIds(table, footnotes)
  }

  /** One row for each id, with its title. */
  ghost predicate HasTitles(table: map<string, string>, footnotes: seq<Footnote>) {
    && (forall i | 0 <= i < |footnotes| && IsLastFootnote(footnotes, i) ::
          footnotes[i].id in table && table[footnotes[i].id] == "Annotation: " + footnotes[i].id)
    && OnlyFootnoteIds(table, footnotes)
  }

  function LineOf(i: nat): int {
    100 * (i + 1)
  }

  /** Node i is at its start line, and there are no others. */
  ghost predicate HasNodes(table: map<int, string>, nodes: seq<string>) {
    && (forall i | 0 <= i < |nodes| :: LineOf(i) in table && table[LineOf(i)] == nodes[i])
    && (forall line | line in table :: line % 100 == 0 && 1 <= line / 100 <= |nodes|)
  }

  ghost predicate Imported(db: Db, input: Input) {
    var footnotes := if input.footnotes.Some? then input.footnotes.value else [];
    && HasNodes(db.main, input.nodes)
    && HasContents(db.footnotes, footnotes) && HasContents(db.subNodes, footnotes) && HasTitles(db.library, footnotes)
    && HasReferences(db.bibliography, input.references)
  }

  // References.

  /** A put replaces the row of that id, or adds one. */
  lemma {:induction false} PutReplaces(rows: seq<Reference>, r: Reference)
    ensures Tabulate(Put(rows, r), ReferenceId, ReferenceText)
      == Tabulate(rows, ReferenceId, ReferenceText)[r.id := r.text]
  {
    if rows == [] {
      assert [r][..0] == [];
    } else {
      var n := |rows| - 1;
      if rows[n].id == r.id {
        assert rows[n := r][..n] == rows[..n];
      } else {
        PutReplaces(rows[..n], r);
        assert (Put(rows[..n], r) + [rows[n]])[..|Put(rows[..n], r)|] == Put(rows[..n], r);
      }
    }
  }

  lemma AddReference(table: map<string, string>, init: seq<Reference>, r: Reference)
    requires HasReferences(table, init)
    ensures r.id == "" || r.id == "0" ==> HasReferences(table, init + [r])
    ensures r.id != "" && r.id != "0" ==> HasReferences(table[r.id := r.text], init + [r])
  {
    var all := init + [r];
    assert all[|init|] == r;
    forall i | 0 <= i < |init| && IsLastReference(all, i) ensures IsLastReference(init, i) && init[i].id != r.id {
      assert all[i] == init[i];
      forall j | i < j < |init| ensures init[j].id != init[i].id {
        assert all[j] == init[j];
      }
    }
    forall id | id in table ensures exists i :: 0 <= i < |all| && all[i].id == id {
      var i :| 0 <= i < |init| && init[i].id == id;
      assert all[i].id == id;
    }
  }

  /** The last reference of each id gets into the bibliography, and nothing else. */
  lemma {:induction false} BibliographyHasTheLast(references: seq<Reference>)
    ensures HasReferences(Tabulate(Deduped(references), ReferenceId, ReferenceText), references)
  {
    if references != [] {
      var n := |references| - 1;
      BibliographyHasTheLast(references[..n]);
      assert references == references[..n] + [references[n]];
      AddReference(Tabulate(Deduped(references[..n]), ReferenceId, ReferenceText), references[..n], references[n]);
      PutReplaces(Deduped(references[..n]), references[n]);
    }
  }

  // Footnotes.

  lemma IdentifiedSnoc(footnotes: seq<Footnote>, f: Footnote, value: Footnote -> string)
    ensures Tabulate(Identified(footnotes + [f]), FootnoteId, value)
      == if f.id == "" || f.id == "0" then Tabulate(Identified(footnotes), FootnoteId, value)
         else Tabulate(Identified(footnotes), FootnoteId, value)[f.id := value(f)]
  {
    var before := Identified(footnotes);
    assert (footnotes + [f])[..|footnotes|] == footnotes;
    if f.id == "" || f.id == "0" {
      assert before + [] == before;
    } else {
      assert (before + [f])[..|before|] == before;
    }
  }

  /** What a table of footnotes has, by a value of each. */
  ghost predicate HasValues(table: map<string, string>, footnotes: seq<Footnote>, value: Footnote -> string) {
    && (forall i | 0 <= i < |footnotes| && IsLastFootnote(footnotes, i) ::
          footnotes[i].id in table && table[footnotes[i].id] == value(footnotes[i]))
    && OnlyFootnoteIds(table, footnotes)
  }

  lemma AddFootnote(table: map<string, string>, init: seq<Footnote>, f: Footnote, value: Footnote -> string)
    requires HasValues(table, init, value)
    ensures f.id == "" || f.id == "0" ==> HasValues(table, init + [f], value)
    ensures f.id != "" && f.id != "0" ==> HasValues(table[f.id := value(f)], init + [f], value)
  {
    var all := init + [f];
    assert all[|init|] == f;
    forall i | 0 <= i < |init| && IsLastFootnote(all, i) ensures IsLastFootnote(init, i) && init[i].id != f.id {
      assert all[i] == init[i];
      forall j | i < j < |init| ensures init[j].id != init[i].id {
        assert all[j] == init[j];
      }
    }
    forall id | id in table ensures exists i :: 0 <= i < |all| && all[i].id == id {
      var i :| 0 <= i < |init| && init[i].id == id;
      assert all[i].id == id;
    }
  }

  lemma {:induction false} TableHasTheLast(footnotes: seq<Footnote>, value: Footnote -> string)
    ensures HasValues(Tabulate(Identified(footnotes), FootnoteId, value), footnotes, value)
  {
    if footnotes != [] {
      var n := |footnotes| - 1;
      TableHasTheLast(footnotes[..n], value);
      assert footnotes == footnotes[..n] + [footnotes[n]];
      AddFootnote(Tabulate(Identified(footnotes[..n]), FootnoteId, value), footnotes[..n], footnotes[n], value);
      IdentifiedSnoc(footnotes[..n], footnotes[n], value);
    }
  }

  // Nodes.

  lemma AddNode(table: map<int, string>, init: seq<string>, node: string)
    requires HasNodes(table, init)
    ensures HasNodes(table[LineOf(|init|) := node], init + [node])
  {
    var all := init + [node];
    var after := table[LineOf(|init|) := node];
    forall i | 0 <= i < |all| ensures LineOf(i) in after && after[LineOf(i)] == all[i] {
      if i < |init| {
        assert all[i] == init[i];
      }
    }
    forall line | line in after ensures line % 100 == 0 && 1 <= line / 100 <= |all| {
      assert line == 100 * (|init| + 1) || line in table;
    }
  }

  lemma {:induction false} NodesAreNumbered(nodes: seq<string>)
    ensures HasNodes(Tabulate(NodeRows(nodes), StartLine, Payload), nodes)
  {
    if nodes != [] {
      var n := |nodes| - 1;
      var before := NodeRows(nodes[..n]);
      NodesAreNumbered(nodes[..n]);
      assert nodes == nodes[..n] + [nodes[n]];
      AddNode(Tabulate(before, StartLine, Payload), nodes[..n], nodes[n]);
      assert (before + [NodeRow(100 * (n + 1), nodes[n])])[..|before|] == before;
    }
  }

  // The tables of an import.

  lemma ContentsAndTitles(contents: map<string, string>, titles: map<string, string>, footnotes: seq<Footnote>)
    requires HasValues(contents, footnotes, Content) && HasValues(titles, footnotes, Title)
    ensures HasContents(contents, footnotes) && HasTitles(titles, footnotes)
  {
  }

  /** The clean import has exactly what the conversion produced, in its own fields. */
  lemma CleanIsImported(input: Input)
    ensures Imported(Clean(input), input)
  {
    var footnotes := if input.footnotes.Some? then input.footnotes.value else [];
    NodesAreNumbered(input.nodes);
    assert FootnotesOf(input) == Identified(footnotes);
    TableHasTheLast(footnotes, Content);
    TableHasTheLast(footnotes, Title);
    ContentsAndTitles(Clean(input).footnotes, Clean(input).library, footnotes);
    BibliographyHasTheLast(input.references);
  }

  /**
    Retry safety, in the tables' own terms: after any number of attempts on a fresh book, cut off between any two
    statements, a completed one leaves each node at its start line, each footnote in its three tables, the last
    reference of each id, and nothing else.
   */
  lemma {:induction false} RetriedImportHolds(input: Input, budgets: seq<nat>, last: nat)
    requires Attempt(AfterAttempts(EMPTY, input, budgets), input, last).completed
    ensures Imported(Attempt(AfterAttempts(EMPTY, input, budgets), input, last).db, input)
  {
    RetriedImportIsClean(input, budgets, last);
    CleanIsImported(input);
  }

  /** What the footnote section's delete spares: the rows of sub-books whose id does not start with Fn. */
  lemma {:induction false} OnlyFnIsDeleted(table: map<string, string>, key: string)
    ensures key in WithoutFn(table) <==> key in table && !(|key| >= 2 && key[0] == 'F' && key[1] == 'n')
    ensures key in WithoutFn(table) ==> WithoutFn(table)[key] == table[key]
  {
    if |key| >= 2 && key[0] == 'F' && key[1] == 'n' {
      assert key[..2] == "Fn";
    }
  }

  // Statements.

  lemma {:induction false} RowsAreIds(rows: seq<Reference>)
    requires DistinctKeys(rows, ReferenceId)
    ensures |KeysOf(rows, ReferenceId)| == |rows|
  {
    if rows == [] {
      assert KeysOf(rows, ReferenceId) == {};
    } else {
      var n := |rows| - 1;
      assert rows == rows[..n] + [rows[n]];
      RowsAreIds(rows[..n]);
      KeysSnoc(rows[..n], rows[n], ReferenceId);
      DistinctSnoc(rows[..n], rows[n], ReferenceId);
    }
  }

  /** The ids among the references. */
  function ReferenceIds(references: seq<Reference>): set<string> {
    set r | r in references && r.id != "" && r.id != "0" :: r.id
  }

  lemma {:induction false} DedupedIds(references: seq<Reference>)
    ensures KeysOf(Deduped(references), ReferenceId) == ReferenceIds(references)
  {
    if references != [] {
      var n := |references| - 1;
      var before, last := references[..n], references[n];
      assert references == before + [last];
      DedupedIds(before);
      DedupedIsDistinct(before);
      PutKeepsDistinct(Deduped(before), last);
      assert ReferenceIds(references)
          == ReferenceIds(before) + if last.id != "" && last.id != "0" then {last.id} else {};
    }
  }

  lemma NodeCost(db: Db, input: Input)
    ensures |NodeWrites(db, input)| == (if db.main != map[] then 2 else 0) + (|input.nodes| + 4999) / 5000
  {
    ChunkCount(NodeRows(input.nodes), 5000);
    NodeInsertsLength(Chunks(NodeRows(input.nodes), 5000));
  }

  lemma FootnoteCost(db: Db, input: Input)
    ensures |FootnoteWrites(db, input)| ==
      if input.footnotes == None then 0
      else (if db.footnotes != map[] then 3 else 0) + 3 * ((|FootnotesOf(input)| + 499) / 500)
  {
    ChunkCount(FootnotesOf(input), 500);
    FootnoteInsertsLength(Chunks(FootnotesOf(input), 500));
  }

  lemma ReferenceCost(input: Input)
    ensures |ReferenceWrites(input)| ==
      if input.references == [] then 0 else 1 + (|ReferenceIds(input.references)| + 499) / 500
  {
    DedupedIsDistinct(input.references);
    RowsAreIds(Deduped(input.references));
    DedupedIds(input.references);
    ChunkCount(Deduped(input.references), 500);
    ReferenceInsertsLength(Chunks(Deduped(input.references), 500));
  }

  /**
    The statements of an uninterrupted attempt: two deletes if the book has nodes, and one insert for 5000 of them;
    three deletes if it has footnotes, and three inserts for 500 of them; one delete if there are references, and one
    insert for 500 of their ids.
   */
  lemma {:induction false} CostIs(db: Db, input: Input)
    ensures Cost(db, input) ==
      (if db.main != map[] then 2 else 0) + (|input.nodes| + 4999) / 5000
      + (if input.footnotes == None then 0
         else (if db.footnotes != map[] then 3 else 0) + 3 * ((|FootnotesOf(input)| + 499) / 500))
      + (if input.references == [] then 0 else 1 + (|ReferenceIds(input.references)| + 499) / 500)
  {
    NodeCost(db, input);
    FootnoteCost(db, input);
    ReferenceCost(input);
  }
}
