/**
  Versioned nodes: the nodes table holds the current rows, nodes_history the superseded ones
  with a closed period. The versioning() trigger writes the history; BookVersionRestorer
  rebuilds a book from both tables; VibeConversionJob pins the instant to go back to.
  Instants are whole microseconds.
 */
module VersionHistory {
  import opened Common
  import opened LikePattern

  /** The columns a restore copies. */
  datatype NodeData = NodeData(
    nodeId: string, startLine: int, chunkId: int, content: string,
    plainText: string, kind: string, footnotes: string)

  /** A current row: valid from `from` on; txid is the transaction that last wrote it. */
  datatype LiveRow = LiveRow(book: string, data: NodeData, from: int, txid: nat)

  /** An archived row: valid in [from, until). */
  datatype PastRow = PastRow(book: string, data: NodeData, from: int, until: int)

  datatype Tables = Tables(live: seq<LiveRow>, history: seq<PastRow>)

  /** A transaction: its id, its CURRENT_TIMESTAMP, and whether user triggers are enabled. */
  datatype Tx = Tx(id: nat, now: int, triggers: bool)

  /** Books the trigger's WHEN clause leaves out. */
  const SYSTEM_BOOKS: set<string> := {"stats", "most-recent", "most-connected", "most-lit"}

  predicate Versioned(book: string, tx: Tx) {
    tx.triggers && book !in SYSTEM_BOOKS
  }

  /** When a superseded row's period ends: now, or just after its start if that is not in the past. */
  function CloseAt(from: int, now: int): int {
    if from >= now then from + 1 else now
  }

  /** What the trigger archives for a superseded row: nothing if this transaction wrote it. */
  function Archived(row: LiveRow, tx: Tx): seq<PastRow> {
    if Versioned(row.book, tx) && row.txid != tx.id
    then [PastRow(row.book, row.data, row.from, CloseAt(row.from, tx.now))]
    else []
  }

  function AfterInsert(t: Tables, tx: Tx, book: string, data: NodeData): Tables {
    t.(live := t.live + [LiveRow(book, data, tx.now, tx.id)])
  }

  function AfterDelete(t: Tables, tx: Tx, i: nat): Tables
    requires i < |t.live|
  {
    Tables(t.live[..i] + t.live[i + 1..], t.history + Archived(t.live[i], tx))
  }

  /** An update restarts the period unless the row is this transaction's own or the table is not versioned. */
  function AfterUpdate(t: Tables, tx: Tx, i: nat, data: NodeData): Tables
    requires i < |t.live|
  {
    var row := t.live[i];
    var from := if Archived(row, tx) == [] then row.from else CloseAt(row.from, tx.now);
    Tables(t.live[i := LiveRow(row.book, data, from, tx.id)], t.history + Archived(row, tx))
  }

  /** A row operation; a position outside the table touches no row. */
  datatype RowOp = Insert(book: string, data: NodeData) | Delete(index: nat) | Update(index: nat, data: NodeData)

  function AfterOp(t: Tables, tx: Tx, op: RowOp): Tables {
    match op
    case Insert(book, data) => AfterInsert(t, tx, book, data)
    case Delete(i) => if i < |t.live| then AfterDelete(t, tx, i) else t
    case Update(i, data) => if i < |t.live| then AfterUpdate(t, tx, i, data) else t
  }

  function AfterOps(t: Tables, tx: Tx, ops: seq<RowOp>): Tables
    decreases |ops|
  {
    if ops == [] then t else AfterOps(AfterOp(t, tx, ops[0]), tx, ops[1..])
  }

  // Point-in-time reads.

  function LiveAt(live: seq<LiveRow>, book: string, p: int): seq<NodeData> {
    if live == [] then []
    else
      var row := live[|live| - 1];
      LiveAt(live[..|live| - 1], book, p) + if row.book == book && row.from <= p then [row.data] else []
  }

  function PastAt(history: seq<PastRow>, book: string, p: int): seq<NodeData> {
    if history == [] then []
    else
      var row := history[|history| - 1];
      PastAt(history[..|history| - 1], book, p)
      + if row.book == book && row.from <= p < row.until then [row.data] else []
  }

  /** The restorer's query: current rows whose period contains p, then archived ones. */
  function ActiveAt(t: Tables, book: string, p: int): seq<NodeData> {
    LiveAt(t.live, book, p) + PastAt(t.history, book, p)
  }

  /** The book as it reads now. */
  function Contents(live: seq<LiveRow>, book: string): seq<NodeData> {
    if live == [] then []
    else
      var row := live[|live| - 1];
      Contents(live[..|live| - 1], book) + if row.book == book then [row.data] else []
  }

  // Restoring.

  /** DELETE of a book's current rows, each archived by the trigger. */
  function AfterDeleteBook(t: Tables, tx: Tx, book: string): Tables
    decreases |t.live|
  {
    if t.live == [] then t
    else
      var n := |t.live| - 1;
      var row := t.live[n];
      var rest := AfterDeleteBook(t.(live := t.live[..n]), tx, book);
      if row.book == book then rest.(history := rest.history + Archived(row, tx))
      else rest.(live := rest.live + [row])
  }

  function AfterInsertAll(t: Tables, tx: Tx, book: string, nodes: seq<NodeData>): Tables {
    if nodes == [] then t
    else
      var n := |nodes| - 1;
      AfterInsert(AfterInsertAll(t, tx, book, nodes[..n]), tx, book, nodes[n])
  }

  /**
    restoreTo: the rows active one microsecond before the timestamp replace the book, or nothing changes if there are
    none.
   */
  function AfterRestore(t: Tables, tx: Tx, book: string, timestamp: int): Tables {
    var nodes := ActiveAt(t, book, timestamp - 1);
    if nodes == [] then t else AfterInsertAll(AfterDeleteBook(t, tx, book), tx, book, nodes)
  }

  /** Library timestamps after a restore: the book's and every sub-book's are set, no other changes. */
  function Bumped(timestamps: map<string, int>, book: string, now: int): map<string, int> {
    map id | id in timestamps :: if id == book || book + "/" <= id then now else timestamps[id]
  }

  class NodeStore {
    var live: seq<LiveRow>
    var history: seq<PastRow>
    var timestamps: map<string, int>

    ghost function State(): Tables
      reads this
    {
      Tables(live, history)
    }

    /** DELETE FROM nodes WHERE book = ...; the trigger runs row by row. */
    method DeleteBook(tx: Tx, book: string)
      modifies `live, `history
      ensures State() == AfterDeleteBook(old(State()), tx, book)
    {
      var rows, archive := live, history;
      var kept := [];
      var i := 0;
      while i < |rows|
        invariant 0 <= i <= |rows|
        invariant Tables(kept, archive) == AfterDeleteBook(Tables(rows[..i], history), tx, book)
        invariant live == old(live) == rows && history == old(history)
      {
        var row := rows[i];
        assert rows[..i + 1][..i] == rows[..i];
        if row.book == book {
          archive := archive + Archived(row, tx);
        } else {
          kept := kept + [row];
        }
        i := i + 1;
      }
      assert rows[..i] == rows;
      live, history := kept, archive;
    }

    method Create(tx: Tx, book: string, data: NodeData)
      modifies `live
      ensures State() == AfterInsert(old(State()), tx, book, data)
    {
      live := live + [LiveRow(book, data, tx.now, tx.id)];
    }

    /** The two library updates: the book itself, then everything the LIKE pattern selects. */
    method BumpTimestamps(book: string, now: int)
      modifies `timestamps
      ensures timestamps == Bumped(old(timestamps), book, now)
    {
      if book in timestamps {
        timestamps := timestamps[book := now];
      }
      var likeBook := SubBookPattern(book);
      forall id ensures Like(likeBook, id) <==> book + "/" <= id {
        SubBookPatternIsPrefix(book, id);
      }
      timestamps := map id | id in timestamps :: if Like(likeBook, id) then now else timestamps[id];
    }

    /** BookVersionRestorer::restoreTo; None is the exception, with everything rolled back. */
    method RestoreTo(tx: Tx, bookId: string, timestamp: int, nowMs: int) returns (restored: Option<nat>)
      modifies this
      ensures State() == AfterRestore(old(State()), tx, bookId, timestamp)
      ensures restored.None? <==> ActiveAt(old(State()), bookId, timestamp - 1) == []
      ensures restored.Some? ==>
        && Contents(live, bookId) == ActiveAt(old(State()), bookId, timestamp - 1)
        && restored.value == |Contents(live, bookId)|
      ensures timestamps == if restored.Some? then Bumped(old(timestamps), bookId, nowMs) else old(timestamps)
    {
      var historicalNodes := LiveAt(live, bookId, timestamp - 1) + PastAt(history, bookId, timestamp - 1);
      if historicalNodes == [] {
        return None;
      }
      RestoreGives(State(), tx, bookId, timestamp);
      DeleteBook(tx, bookId);
      ghost var cleared := State();
      var count := 0;
      while count < |historicalNodes|
        invariant 0 <= count <= |historicalNodes|
        invariant State() == AfterInsertAll(cleared, tx, bookId, historicalNodes[..count])
        invariant timestamps == old(timestamps)
      {
        Create(tx, bookId, historicalNodes[count]);
        assert historicalNodes[..count + 1][..count] == historicalNodes[..count];
        count := count + 1;
      }
      assert historicalNodes[..count] == historicalNodes;
      BumpTimestamps(bookId, nowMs);
      restored := Some(count);
    }
  }

  lemma {:induction false} DeleteBookEmpties(t: Tables, tx: Tx, book: string)
    ensures Contents(AfterDeleteBook(t, tx, book).live, book) == []
    decreases |t.live|
  {
    if t.live != [] {
      var n := |t.live| - 1;
      var rest := AfterDeleteBook(t.(live := t.live[..n]), tx, book);
      DeleteBookEmpties(t.(live := t.live[..n]), tx, book);
    }
  }

  lemma {:induction false} InsertAllAdds(t: Tables, tx: Tx, book: string, nodes: seq<NodeData>)
    ensures Contents(AfterInsertAll(t, tx, book, nodes).live, book) == Contents(t.live, book) + nodes
  {
    if nodes != [] {
      var n := |nodes| - 1;
      var before := AfterInsertAll(t, tx, book, nodes[..n]);
      InsertAllAdds(t, tx, book, nodes[..n]);
      assert nodes[..n] + [nodes[n]] == nodes;
    }
  }

  /** A restore leaves the book reading exactly as it did one microsecond before the timestamp. */
  lemma RestoreGives(t: Tables, tx: Tx, book: string, timestamp: int)
    requires ActiveAt(t, book, timestamp - 1) != []
    ensures Contents(AfterRestore(t, tx, book, timestamp).live, book) == ActiveAt(t, book, timestamp - 1)
  {
    DeleteBookEmpties(t, tx, book);
    InsertAllAdds(AfterDeleteBook(t, tx, book), tx, book, ActiveAt(t, book, timestamp - 1));
  }

  /** Other books read the same afterwards. */
  lemma RestoreKeepsOtherBooks(t: Tables, tx: Tx, book: string, timestamp: int, other: string)
    requires other != book
    ensures Contents(AfterRestore(t, tx, book, timestamp).live, other) == Contents(t.live, other)
  {
    DeleteBookKeepsOthers(t, tx, book, other);
    InsertAllKeepsOthers(AfterDeleteBook(t, tx, book), tx, book, ActiveAt(t, book, timestamp - 1), other);
  }

  lemma {:induction false} DeleteBookKeepsOthers(t: Tables, tx: Tx, book: string, other: string)
    requires other != book
    ensures Contents(AfterDeleteBook(t, tx, book).live, other) == Contents(t.live, other)
    decreases |t.live|
  {
    if t.live != [] {
      var n := |t.live| - 1;
      var init := t.(live := t.live[..n]);
      DeleteBookKeepsOthers(init, tx, book, other);
    }
  }

  lemma {:induction false} InsertAllKeepsOthers(
    t: Tables, tx: Tx, book: string, nodes: seq<NodeData>, other: string)
    requires other != book
    ensures Contents(AfterInsertAll(t, tx, book, nodes).live, other) == Contents(t.live, other)
  {
    if nodes != [] {
      var n := |nodes| - 1;
      InsertAllKeepsOthers(t, tx, book, nodes[..n], other);
    }
  }

  // The past does not change.

  /** The nodes of a book at instant p, in no particular order. */
  ghost function PastContents(t: Tables, book: string, p: int): multiset<NodeData> {
    multiset(ActiveAt(t, book, p))
  }

  /** What one row shows at p. */
  function Shows(row: LiveRow, book: string, p: int): seq<NodeData> {
    if row.book == book && row.from <= p then [row.data] else []
  }

  lemma {:induction false} LiveAtConcat(a: seq<LiveRow>, b: seq<LiveRow>, book: string, p: int)
    ensures LiveAt(a + b, book, p) == LiveAt(a, book, p) + LiveAt(b, book, p)
  {
    if b == [] {
      assert a + b == a;
    } else {
      var n := |b| - 1;
      LiveAtConcat(a, b[..n], book, p);
      assert (a + b)[..|a + b| - 1] == a + b[..n] && (a + b)[|a + b| - 1] == b[n];
      assert LiveAt(a + b, book, p) == LiveAt(a + b[..n], book, p) + Shows(b[n], book, p);
    }
  }

  lemma {:induction false} PastAtConcat(a: seq<PastRow>, b: seq<PastRow>, book: string, p: int)
    ensures PastAt(a + b, book, p) == PastAt(a, book, p) + PastAt(b, book, p)
  {
    if b == [] {
      assert a + b == a;
    } else {
      var n := |b| - 1;
      PastAtConcat(a, b[..n], book, p);
      assert (a + b)[..|a + b| - 1] == a + b[..n] && (a + b)[|a + b| - 1] == b[n];
    }
  }

  /**
    Superseding the row keeps what it shows at p: it shows nothing then, or the trigger runs for it, another transaction
    wrote it, and p is before this one or the row's first microsecond.
   */
  predicate Recorded(row: LiveRow, tx: Tx, book: string, p: int) {
    || row.book != book
    || p < row.from
    || (&& tx.triggers && row.book !in {"stats", "most-recent", "most-connected", "most-lit"}
        && row.txid != tx.id && (p < tx.now || p == row.from))
  }

  lemma ArchivedShows(row: LiveRow, tx: Tx, book: string, p: int)
    ensures PastAt(Archived(row, tx), book, p) == if Recorded(row, tx, book, p) then Shows(row, book, p) else []
    ensures !Recorded(row, tx, book, p) ==> Shows(row, book, p) == [row.data]
  {
    if Archived(row, tx) != [] {
      assert Archived(row, tx)[..0] == [];
    }
  }

  lemma SplitLive(t: Tables, i: nat, book: string, p: int)
    requires i < |t.live|
    ensures LiveAt(t.live, book, p)
      == LiveAt(t.live[..i], book, p) + Shows(t.live[i], book, p) + LiveAt(t.live[i + 1..], book, p)
  {
    assert t.live == t.live[..i] + [t.live[i]] + t.live[i + 1..];
    LiveAtConcat(t.live[..i] + [t.live[i]], t.live[i + 1..], book, p);
    LiveAtConcat(t.live[..i], [t.live[i]], book, p);
  }

  /** What all rows but one show. */
  ghost function Rest(
    before: seq<LiveRow>, after: seq<LiveRow>, history: seq<PastRow>, book: string, p: int): multiset<NodeData>
  {
    multiset(LiveAt(before, book, p)) + multiset(LiveAt(after, book, p)) + multiset(PastAt(history, book, p))
  }

  lemma PastOfParts(t: Tables, i: nat, book: string, p: int)
    requires i < |t.live|
    ensures PastContents(t, book, p)
      == Rest(t.live[..i], t.live[i + 1..], t.history, book, p) + multiset(Shows(t.live[i], book, p))
  {
    SplitLive(t, i, book, p);
  }

  lemma PastWithout(t: Tables, i: nat, archived: seq<PastRow>, book: string, p: int)
    requires i < |t.live|
    ensures PastContents(Tables(t.live[..i] + t.live[i + 1..], t.history + archived), book, p)
      == Rest(t.live[..i], t.live[i + 1..], t.history + archived, book, p)
  {
    LiveAtConcat(t.live[..i], t.live[i + 1..], book, p);
  }

  lemma PastOfLastRow(live: seq<LiveRow>, row: LiveRow, history: seq<PastRow>, book: string, p: int)
    ensures PastContents(Tables(live + [row], history), book, p)
      == PastContents(Tables(live, history), book, p) + multiset(Shows(row, book, p))
  {
    LiveAtConcat(live, [row], book, p);
  }

  lemma OneMore(all: multiset<NodeData>, data: NodeData)
    ensures all + multiset{data} != all
  {
    assert (all + multiset{data})[data] == all[data] + 1;
  }

  /** An insert rewrites the past exactly of the instants from its transaction's beginning on. */
  lemma InsertKeepsPastIff(t: Tables, tx: Tx, newBook: string, data: NodeData, book: string, p: int)
    ensures PastContents(AfterInsert(t, tx, newBook, data), book, p) == PastContents(t, book, p)
      <==> newBook != book || p < tx.now
  {
    PastOfLastRow(t.live, LiveRow(newBook, data, tx.now, tx.id), t.history, book, p);
    OneMore(PastContents(t, book, p), data);
  }

  lemma ArchivePast(history: seq<PastRow>, row: LiveRow, tx: Tx, book: string, p: int)
    ensures multiset(PastAt(history + Archived(row, tx), book, p))
      == multiset(PastAt(history, book, p))
       + if Recorded(row, tx, book, p) then multiset(Shows(row, book, p)) else multiset{}
  {
    PastAtConcat(history, Archived(row, tx), book, p);
    ArchivedShows(row, tx, book, p);
  }

  lemma RestArchived(
    before: seq<LiveRow>, after: seq<LiveRow>, history: seq<PastRow>, row: LiveRow, tx: Tx, book: string, p: int)
    ensures Rest(before, after, history + Archived(row, tx), book, p)
      == Rest(before, after, history, book, p)
       + if Recorded(row, tx, book, p) then multiset(Shows(row, book, p)) else multiset{}
  {
    ArchivePast(history, row, tx, book, p);
  }

  /** A delete loses what the row shows at p, exactly when no archived period of it reaches over p. */
  lemma DeleteKeepsPastIff(t: Tables, tx: Tx, i: nat, book: string, p: int)
    requires i < |t.live|
    ensures PastContents(AfterDelete(t, tx, i), book, p) == PastContents(t, book, p)
      <==> Recorded(t.live[i], tx, book, p)
  {
    var row := t.live[i];
    PastOfParts(t, i, book, p);
    PastWithout(t, i, Archived(row, tx), book, p);
    RestArchived(t.live[..i], t.live[i + 1..], t.history, row, tx, book, p);
    ArchivedShows(row, tx, book, p);
    OneMore(Rest(t.live[..i], t.live[i + 1..], t.history, book, p), row.data);
  }

  lemma Swapped(rest: multiset<NodeData>, before: NodeData, after: NodeData)
    ensures rest + multiset{before} == rest + multiset{after} <==> before == after
  {
    if before != after {
      assert (rest + multiset{before})[before] != (rest + multiset{after})[before];
    }
  }

  /** What the updated row shows: nothing at p if superseding it was recorded, its new data otherwise. */
  lemma UpdatedShows(t: Tables, tx: Tx, i: nat, data: NodeData, book: string, p: int)
    requires i < |t.live|
    ensures Shows(AfterUpdate(t, tx, i, data).live[i], book, p)
      == if Recorded(t.live[i], tx, book, p) then [] else [data]
  {
  }

  lemma PastAfterUpdate(t: Tables, tx: Tx, i: nat, data: NodeData, book: string, p: int)
    requires i < |t.live|
    ensures PastContents(AfterUpdate(t, tx, i, data), book, p)
      == Rest(t.live[..i], t.live[i + 1..], t.history, book, p)
       + if Recorded(t.live[i], tx, book, p) then multiset(Shows(t.live[i], book, p)) else multiset{data}
  {
    var u, row := AfterUpdate(t, tx, i, data), t.live[i];
    PastOfParts(u, i, book, p);
    assert u.live[..i] == t.live[..i] && u.live[i + 1..] == t.live[i + 1..];
    UpdatedShows(t, tx, i, data, book, p);
    RestArchived(t.live[..i], t.live[i + 1..], t.history, row, tx, book, p);
  }

  /**
    An update rewrites what the row shows at p, exactly when it changes the data and no archived period reaches over p.
   */
  lemma UpdateKeepsPastIff(t: Tables, tx: Tx, i: nat, data: NodeData, book: string, p: int)
    requires i < |t.live|
    ensures PastContents(AfterUpdate(t, tx, i, data), book, p) == PastContents(t, book, p)
      <==> Recorded(t.live[i], tx, book, p) || data == t.live[i].data
  {
    PastOfParts(t, i, book, p);
    PastAfterUpdate(t, tx, i, data, book, p);
    ArchivedShows(t.live[i], tx, book, p);
    Swapped(Rest(t.live[..i], t.live[i + 1..], t.history, book, p), t.live[i].data, data);
  }

  /**
    With the trigger off, or in a system book, an update rewrites the past from the row's start on, unless it changes
    nothing.
   */
  lemma UnversionedUpdateRewrites(t: Tables, tx: Tx, i: nat, data: NodeData, book: string, p: int)
    requires i < |t.live| && t.live[i].book == book
    requires tx.triggers ==> book in {"stats", "most-recent", "most-connected", "most-lit"}
    ensures PastContents(AfterUpdate(t, tx, i, data), book, p) == PastContents(t, book, p)
      <==> p < t.live[i].from || data == t.live[i].data
  {
    UpdateKeepsPastIff(t, tx, i, data, book, p);
  }

  /** And a delete loses what the row showed. */
  lemma UnversionedDeleteLoses(t: Tables, tx: Tx, i: nat, book: string, p: int)
    requires i < |t.live| && t.live[i].book == book
    requires tx.triggers ==> book in {"stats", "most-recent", "most-connected", "most-lit"}
    ensures PastContents(AfterDelete(t, tx, i), book, p) == PastContents(t, book, p) <==> p < t.live[i].from
  {
    DeleteKeepsPastIff(t, tx, i, book, p);
  }

  /** The operation does not reach back to p. */
  predicate Spares(t: Tables, tx: Tx, op: RowOp, book: string, p: int) {
    match op
    case Insert(newBook, _) => newBook != book || p < tx.now
    case Delete(i) => i < |t.live| ==> Recorded(t.live[i], tx, book, p)
    case Update(i, data) => i < |t.live| ==> Recorded(t.live[i], tx, book, p) || data == t.live[i].data
  }

  lemma OpKeepsPastIff(t: Tables, tx: Tx, op: RowOp, book: string, p: int)
    ensures PastContents(AfterOp(t, tx, op), book, p) == PastContents(t, book, p) <==> Spares(t, tx, op, book, p)
  {
    match op
    case Insert(newBook, data) => InsertKeepsPastIff(t, tx, newBook, data, book, p);
    case Delete(i) =>
      if i < |t.live| {
        DeleteKeepsPastIff(t, tx, i, book, p);
      } else {
        assert AfterOp(t, tx, op) == t;
      }
    case Update(i, data) =>
      if i < |t.live| {
        UpdateKeepsPastIff(t, tx, i, data, book, p);
      } else {
        assert AfterOp(t, tx, op) == t;
      }
  }

  // Transactions after p under the trigger spare it.

  /** The rows of the book that this transaction has already written came into being after p. */
  ghost predicate OwnRowsAfter(t: Tables, txid: nat, book: string, p: int) {
    forall row | row in t.live && row.book == book && row.txid == txid :: p < row.from
  }

  /** No live row of the book was last written by this transaction. */
  ghost predicate Untouched(t: Tables, txid: nat, book: string) {
    forall row | row in t.live && row.book == book :: row.txid != txid
  }

  // Whole transactions: row operations, or a restore.

  datatype Work = Rows(ops: seq<RowOp>) | Restore(book: string, timestamp: int)

  datatype Event = Event(tx: Tx, work: Work)

  function AfterEvent(t: Tables, e: Event): Tables {
    match e.work
    case Rows(ops) => AfterOps(t, e.tx, ops)
    case Restore(book, timestamp) => AfterRestore(t, e.tx, book, timestamp)
  }

  function AfterEvents(t: Tables, events: seq<Event>): Tables {
    if events == [] then t
    else AfterEvent(AfterEvents(t, events[..|events| - 1]), events[|events| - 1])
  }

  predicate OpsSpare(t: Tables, tx: Tx, ops: seq<RowOp>, book: string, p: int)
    decreases |ops|
  {
    ops == [] || (Spares(t, tx, ops[0], book, p) && OpsSpare(AfterOp(t, tx, ops[0]), tx, ops[1..], book, p))
  }

  lemma {:induction false} OpsKeepPast(t: Tables, tx: Tx, ops: seq<RowOp>, book: string, p: int)
    requires OpsSpare(t, tx, ops, book, p)
    ensures PastContents(AfterOps(t, tx, ops), book, p) == PastContents(t, book, p)
    decreases |ops|
  {
    if ops != [] {
      OpKeepsPastIff(t, tx, ops[0], book, p);
      OpsKeepPast(AfterOp(t, tx, ops[0]), tx, ops[1..], book, p);
    }
  }

  lemma {:induction false} LaterOpsSpare(t: Tables, tx: Tx, ops: seq<RowOp>, book: string, p: int)
    requires p < tx.now && Versioned(book, tx) && OwnRowsAfter(t, tx.id, book, p)
    ensures OpsSpare(t, tx, ops, book, p)
    decreases |ops|
  {
    if ops != [] {
      LaterOpsSpare(AfterOp(t, tx, ops[0]), tx, ops[1..], book, p);
    }
  }

  lemma {:induction false} OpsLeaveOthersUntouched(t: Tables, tx: Tx, ops: seq<RowOp>, other: nat, book: string)
    requires Untouched(t, other, book) && other != tx.id
    ensures Untouched(AfterOps(t, tx, ops), other, book)
    decreases |ops|
  {
    if ops != [] {
      OpsLeaveOthersUntouched(AfterOp(t, tx, ops[0]), tx, ops[1..], other, book);
    }
  }

  lemma PastOfArchived(t: Tables, row: LiveRow, tx: Tx, book: string, p: int)
    ensures PastContents(Tables(t.live, t.history + Archived(row, tx)), book, p)
      == PastContents(t, book, p) + if Recorded(row, tx, book, p) then multiset(Shows(row, book, p)) else multiset{}
  {
    ArchivePast(t.history, row, tx, book, p);
  }

  lemma SumsEqualIff(a: multiset<NodeData>, b: multiset<NodeData>, c: multiset<NodeData>, d: multiset<NodeData>)
    requires a <= b && c <= d
    ensures a + c <= b + d && (a + c == b + d <==> a == b && c == d)
  {
    if a + c == b + d {
      forall x ensures a[x] == b[x] && c[x] == d[x] {
        assert (a + c)[x] == a[x] + c[x] && (b + d)[x] == b[x] + d[x];
      }
    }
  }

  ghost predicate AllRecorded(live: seq<LiveRow>, tx: Tx, target: string, book: string, p: int) {
    forall row | row in live && row.book == target :: Recorded(row, tx, book, p)
  }

  lemma AllRecordedSnoc(live: seq<LiveRow>, row: LiveRow, tx: Tx, target: string, book: string, p: int)
    ensures AllRecorded(live + [row], tx, target, book, p)
      <==> AllRecorded(live, tx, target, book, p) && (row.book == target ==> Recorded(row, tx, book, p))
  {
    assert row in live + [row] && forall r | r in live :: r in live + [row];
  }

  /** What before shows at p and after does not may only be lost, and is not exactly if these are recorded. */
  ghost predicate LosesUnless(before: Tables, after: Tables, recorded: bool, book: string, p: int) {
    && PastContents(after, book, p) <= PastContents(before, book, p)
    && (PastContents(after, book, p) == PastContents(before, book, p) <==> recorded)
  }

  lemma LastArchived(init: Tables, rest: Tables, all: bool, row: LiveRow, tx: Tx, book: string, p: int)
    requires LosesUnless(init, rest, all, book, p)
    ensures LosesUnless(
      Tables(init.live + [row], init.history), Tables(rest.live, rest.history + Archived(row, tx)),
      all && Recorded(row, tx, book, p), book, p)
  {
    var shows := multiset(Shows(row, book, p));
    ArchivedShows(row, tx, book, p);
    PastOfLastRow(init.live, row, init.history, book, p);
    PastOfArchived(rest, row, tx, book, p);
    SumsEqualIff(PastContents(rest, book, p), PastContents(init, book, p),
                 if Recorded(row, tx, book, p) then shows else multiset{}, shows);
  }

  lemma LastKept(init: Tables, rest: Tables, all: bool, row: LiveRow, book: string, p: int)
    requires LosesUnless(init, rest, all, book, p)
    ensures LosesUnless(
      Tables(init.live + [row], init.history), Tables(rest.live + [row], rest.history), all, book, p)
  {
    var shows := multiset(Shows(row, book, p));
    PastOfLastRow(init.live, row, init.history, book, p);
    PastOfLastRow(rest.live, row, rest.history, book, p);
    SumsEqualIff(PastContents(rest, book, p), PastContents(init, book, p), shows, shows);
  }

  lemma DeleteBookStep(live: seq<LiveRow>, row: LiveRow, history: seq<PastRow>, tx: Tx, target: string)
    ensures var rest := AfterDeleteBook(Tables(live, history), tx, target);
      AfterDeleteBook(Tables(live + [row], history), tx, target)
      == if row.book == target then Tables(rest.live, rest.history + Archived(row, tx))
         else Tables(rest.live + [row], rest.history)
  {
    assert (live + [row])[..|live|] == live;
  }

  lemma DeleteBookLast(
    live: seq<LiveRow>, init: seq<LiveRow>, row: LiveRow, history: seq<PastRow>, tx: Tx, target: string, book: string,
    p: int)
    requires live == init + [row]
    requires LosesUnless(Tables(init, history), AfterDeleteBook(Tables(init, history), tx, target),
                         AllRecorded(init, tx, target, book, p), book, p)
    ensures LosesUnless(Tables(live, history), AfterDeleteBook(Tables(live, history), tx, target),
                        AllRecorded(live, tx, target, book, p), book, p)
  {
    var rest := AfterDeleteBook(Tables(init, history), tx, target);
    var all := AllRecorded(init, tx, target, book, p);
    AllRecordedSnoc(init, row, tx, target, book, p);
    DeleteBookStep(init, row, history, tx, target);
    if row.book == target {
      LastArchived(Tables(init, history), rest, all, row, tx, book, p);
    } else {
      LastKept(Tables(init, history), rest, all, row, book, p);
    }
  }

  lemma DeleteNothing(history: seq<PastRow>, tx: Tx, target: string, book: string, p: int)
    ensures LosesUnless(Tables([], history), AfterDeleteBook(Tables([], history), tx, target),
                        AllRecorded([], tx, target, book, p), book, p)
  {
  }

  /**
    Superseding every row of a book loses something it showed at p exactly if some row's end is not recorded over p.
   */
  lemma {:induction false} DeleteBookKeepsPastIff(
    live: seq<LiveRow>, history: seq<PastRow>, tx: Tx, target: string, book: string, p: int)
    ensures LosesUnless(Tables(live, history), AfterDeleteBook(Tables(live, history), tx, target),
                        AllRecorded(live, tx, target, book, p), book, p)
  {
    if live == [] {
      DeleteNothing(history, tx, target, book, p);
    } else {
      var init, row := live[..|live| - 1], live[|live| - 1];
      assert live == init + [row];
      DeleteBookKeepsPastIff(init, history, tx, target, book, p);
      DeleteBookLast(live, init, row, history, tx, target, book, p);
    }
  }

  lemma {:induction false} DeleteBookOnlyRemoves(t: Tables, tx: Tx, target: string)
    ensures forall row | row in AfterDeleteBook(t, tx, target).live :: row in t.live
    decreases |t.live|
  {
    if t.live != [] {
      DeleteBookOnlyRemoves(t.(live := t.live[..|t.live| - 1]), tx, target);
    }
  }

  lemma {:induction false} InsertAllKeepsPast(
    t: Tables, tx: Tx, target: string, nodes: seq<NodeData>, book: string, p: int)
    requires target != book || p < tx.now
    ensures PastContents(AfterInsertAll(t, tx, target, nodes), book, p) == PastContents(t, book, p)
  {
    if nodes != [] {
      var n := |nodes| - 1;
      InsertAllKeepsPast(t, tx, target, nodes[..n], book, p);
      InsertKeepsPastIff(AfterInsertAll(t, tx, target, nodes[..n]), tx, target, nodes[n], book, p);
    }
  }

  lemma {:induction false} InsertAllLeavesOthersUntouched(
    t: Tables, tx: Tx, target: string, nodes: seq<NodeData>, other: nat, book: string)
    requires Untouched(t, other, book) && other != tx.id
    ensures Untouched(AfterInsertAll(t, tx, target, nodes), other, book)
  {
    if nodes != [] {
      InsertAllLeavesOthersUntouched(t, tx, target, nodes[..|nodes| - 1], other, book);
    }
  }

  /** The restore finds nothing, or replaces rows whose ends are all recorded over p. */
  ghost predicate RestoreSpares(t: Tables, tx: Tx, target: string, timestamp: int, book: string, p: int) {
    || ActiveAt(t, target, timestamp - 1) == []
    || AllRecorded(t.live, tx, target, book, p)
  }

  /** A restore of another book, or one begun after p, leaves the past at p exactly when all it replaces is recorded. */
  lemma RestoreKeepsPastIff(t: Tables, tx: Tx, target: string, timestamp: int, book: string, p: int)
    requires target != book || p < tx.now
    ensures PastContents(AfterRestore(t, tx, target, timestamp), book, p) == PastContents(t, book, p)
      <==> RestoreSpares(t, tx, target, timestamp, book, p)
  {
    var nodes := ActiveAt(t, target, timestamp - 1);
    if nodes != [] {
      DeleteBookKeepsPastIff(t.live, t.history, tx, target, book, p);
      InsertAllKeepsPast(AfterDeleteBook(t, tx, target), tx, target, nodes, book, p);
    }
  }

  /** A transaction that does not reach back to p. */
  ghost predicate EventSpares(t: Tables, e: Event, book: string, p: int) {
    match e.work
    case Rows(ops) => OpsSpare(t, e.tx, ops, book, p)
    case Restore(target, timestamp) =>
      (target != book || p < e.tx.now) && RestoreSpares(t, e.tx, target, timestamp, book, p)
  }

  ghost predicate EventsSpare(t: Tables, events: seq<Event>, book: string, p: int) {
    events != [] ==>
      var n := |events| - 1;
      EventsSpare(t, events[..n], book, p) && EventSpares(AfterEvents(t, events[..n]), events[n], book, p)
  }

  lemma EventKeepsPast(t: Tables, e: Event, book: string, p: int)
    requires EventSpares(t, e, book, p)
    ensures PastContents(AfterEvent(t, e), book, p) == PastContents(t, book, p)
  {
    match e.work
    case Rows(ops) => OpsKeepPast(t, e.tx, ops, book, p);
    case Restore(target, timestamp) => RestoreKeepsPastIff(t, e.tx, target, timestamp, book, p);
  }

  /** Safety over every run: edits, applies and restores that do not reach back to an instant leave what it shows. */
  lemma {:induction false} EventsKeepPast(t: Tables, events: seq<Event>, book: string, p: int)
    requires EventsSpare(t, events, book, p)
    ensures PastContents(AfterEvents(t, events), book, p) == PastContents(t, book, p)
  {
    if events != [] {
      var n := |events| - 1;
      EventsKeepPast(t, events[..n], book, p);
      EventKeepsPast(AfterEvents(t, events[..n]), events[n], book, p);
    }
  }

  lemma LaterEventSpares(t: Tables, e: Event, book: string, p: int)
    requires p < e.tx.now && Versioned(book, e.tx) && Untouched(t, e.tx.id, book)
    ensures EventSpares(t, e, book, p)
  {
    match e.work
    case Rows(ops) => LaterOpsSpare(t, e.tx, ops, book, p);
    case Restore(target, timestamp) =>
      forall row | row in t.live ensures Recorded(row, e.tx, book, p) {
      }
  }

  lemma EventLeavesOthersUntouched(t: Tables, e: Event, other: nat, book: string)
    requires Untouched(t, other, book) && other != e.tx.id
    ensures Untouched(AfterEvent(t, e), other, book)
  {
    match e.work
    case Rows(ops) => OpsLeaveOthersUntouched(t, e.tx, ops, other, book);
    case Restore(target, timestamp) =>
      var nodes := ActiveAt(t, target, timestamp - 1);
      if nodes != [] {
        DeleteBookOnlyRemoves(t, e.tx, target);
        InsertAllLeavesOthersUntouched(AfterDeleteBook(t, e.tx, target), e.tx, target, nodes, other, book);
      }
  }

  /** Later work: each transaction new to the book's rows, with its own id, after p, with the trigger on. */
  ghost predicate Later(t: Tables, events: seq<Event>, book: string, p: int) {
    && (forall e | e in events :: p < e.tx.now && Versioned(book, e.tx) && Untouched(t, e.tx.id, book))
    && (forall i, j | 0 <= i < j < |events| :: events[i].tx.id != events[j].tx.id)
  }

  lemma {:induction false} EventsLeaveOthersUntouched(t: Tables, events: seq<Event>, other: nat, book: string)
    requires Untouched(t, other, book) && forall e | e in events :: e.tx.id != other
    ensures Untouched(AfterEvents(t, events), other, book)
  {
    if events != [] {
      var n := |events| - 1;
      EventsLeaveOthersUntouched(t, events[..n], other, book);
      EventLeavesOthersUntouched(AfterEvents(t, events[..n]), events[n], other, book);
    }
  }

  lemma EarlierAreLater(t: Tables, events: seq<Event>, book: string, p: int)
    requires Later(t, events, book, p) && events != []
    ensures var n := |events| - 1;
      Later(t, events[..n], book, p) && forall e | e in events[..n] :: e.tx.id != events[n].tx.id
  {
    var n := |events| - 1;
    assert forall e | e in events[..n] :: e in events;
    forall e | e in events[..n] ensures e.tx.id != events[n].tx.id {
      var i :| 0 <= i < n && events[i] == e;
    }
  }

  /** No run of transactions begun after an instant, under the trigger, reaches back to it. */
  lemma {:induction false} LaterEventsSpare(t: Tables, events: seq<Event>, book: string, p: int)
    requires Later(t, events, book, p)
    ensures EventsSpare(t, events, book, p)
  {
    if events != [] {
      var n := |events| - 1;
      var last := events[n];
      assert last in events;
      EarlierAreLater(t, events, book, p);
      LaterEventsSpare(t, events[..n], book, p);
      EventsLeaveOthersUntouched(t, events[..n], last.tx.id, book);
      LaterEventSpares(AfterEvents(t, events[..n]), last, book, p);
    }
  }

  // Pinning.

  /** Every current row of the book started before the timestamp, and every archived one had ended by then. */
  ghost predicate SettledBefore(t: Tables, book: string, timestamp: int) {
    && (forall row | row in t.live && row.book == book :: row.from < timestamp)
    && ClosedBefore(t, book, timestamp)
  }

  ghost predicate ClosedBefore(t: Tables, book: string, timestamp: int) {
    forall row | row in t.history && row.book == book :: row.until < timestamp
  }

  lemma {:induction false} LiveAtIsContentsIff(live: seq<LiveRow>, book: string, p: int)
    ensures |LiveAt(live, book, p)| <= |Contents(live, book)|
    ensures |LiveAt(live, book, p)| == |Contents(live, book)|
      <==> forall row | row in live && row.book == book :: row.from <= p
    ensures |LiveAt(live, book, p)| == |Contents(live, book)| ==> LiveAt(live, book, p) == Contents(live, book)
  {
    if live != [] {
      var n := |live| - 1;
      LiveAtIsContentsIff(live[..n], book, p);
      assert live == live[..n] + [live[n]];
    }
  }

  lemma {:induction false} ClosedShowsNothing(history: seq<PastRow>, book: string, p: int)
    requires forall row | row in history && row.book == book :: row.until <= p
    ensures PastAt(history, book, p) == []
  {
    if history != [] {
      assert history[|history| - 1] in history;
      ClosedShowsNothing(history[..|history| - 1], book, p);
    }
  }

  /**
    The instant a timestamp stands for shows the book as it reads exactly when no row of it began at or after the
    timestamp.
   */
  lemma PinShowsContentsIff(t: Tables, book: string, timestamp: int)
    requires ClosedBefore(t, book, timestamp)
    ensures ActiveAt(t, book, timestamp - 1) == Contents(t.live, book) <==> SettledBefore(t, book, timestamp)
  {
    ClosedShowsNothing(t.history, book, timestamp - 1);
    LiveAtIsContentsIff(t.live, book, timestamp - 1);
  }

  /**
    Pinned revert: whatever happens to the book that does not reach back before the pinned timestamp, restoring to
    it brings back the nodes the book had when it was pinned.
   */
  lemma PinnedRevert(t: Tables, events: seq<Event>, tx: Tx, book: string, timestamp: int)
    requires SettledBefore(t, book, timestamp) && Contents(t.live, book) != []
    requires EventsSpare(t, events, book, timestamp - 1)
    ensures multiset(Contents(AfterRestore(AfterEvents(t, events), tx, book, timestamp).live, book))
      == multiset(Contents(t.live, book))
  {
    var u := AfterEvents(t, events);
    EventsKeepPast(t, events, book, timestamp - 1);
    PinShowsContentsIff(t, book, timestamp);
    assert |PastContents(u, book, timestamp - 1)| == |ActiveAt(u, book, timestamp - 1)|;
    assert |PastContents(u, book, timestamp - 1)| == |Contents(t.live, book)|;
    RestoreGives(u, tx, book, timestamp);
  }
}
