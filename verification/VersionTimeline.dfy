/**
  The versions of a book over time: what its tables show at any instant is what the book read then, and what a restore
  or another statement replaces is shown no longer from its transaction on.
 */
module VersionTimeline {
  import opened Common
  import opened VersionHistory

  // From a transaction on.

  /** Every current row of the book began by this instant, and every archived one had ended by then. */
  ghost predicate SettledBy(t: Tables, book: string, instant: int) {
    && (forall row | row in t.live && row.book == book :: row.from <= instant)
    && (forall row | row in t.history && row.book == book :: row.until <= instant)
  }

  /** What a settled book shows is what it reads. */
  lemma SettledShowsContents(t: Tables, book: string, instant: int, p: int)
    requires SettledBy(t, book, instant) && instant <= p
    ensures ActiveAt(t, book, p) == Contents(t.live, book)
  {
    ClosedShowsNothing(t.history, book, p);
    LiveAtIsContentsIff(t.live, book, p);
  }

  /** A row that began before the transaction is not shown by what is archived of it, from the transaction on. */
  lemma ArchivedHasEnded(row: LiveRow, tx: Tx, book: string, p: int)
    requires row.from < tx.now <= p
    ensures PastAt(Archived(row, tx), book, p) == []
  {
    ArchivedShows(row, tx, book, p);
  }

  /** Of a row that began at the transaction or later, exactly its first microsecond is archived. */
  lemma ArchivedForAMicrosecond(row: LiveRow, tx: Tx, p: int)
    requires tx.now <= row.from && Archived(row, tx) != []
    ensures PastAt(Archived(row, tx), row.book, p) == if p == row.from then [row.data] else []
  {
    ArchivedShows(row, tx, row.book, p);
  }

  lemma ArchivedEnds(row: LiveRow, tx: Tx)
    requires row.from < tx.now
    ensures forall past | past in Archived(row, tx) :: past.until <= tx.now
  {
  }

  /** From the transaction on, a deleted row is missing. */
  lemma DeletedFromNowOn(t: Tables, tx: Tx, i: nat, book: string, p: int)
    requires i < |t.live| && t.live[i].book == book && t.live[i].from < tx.now <= p
    ensures PastContents(AfterDelete(t, tx, i), book, p) + multiset{t.live[i].data} == PastContents(t, book, p)
  {
    var row := t.live[i];
    PastOfParts(t, i, book, p);
    PastWithout(t, i, Archived(row, tx), book, p);
    RestArchived(t.live[..i], t.live[i + 1..], t.history, row, tx, book, p);
  }

  /** And an updated row shows its new data in place of the old. */
  lemma UpdatedFromNowOn(t: Tables, tx: Tx, i: nat, data: NodeData, book: string, p: int)
    requires i < |t.live| && t.live[i].book == book && t.live[i].from < tx.now <= p
    ensures PastContents(AfterUpdate(t, tx, i, data), book, p) + multiset{t.live[i].data}
      == PastContents(t, book, p) + multiset{data}
  {
    PastOfParts(t, i, book, p);
    PastAfterUpdate(t, tx, i, data, book, p);
  }

  /** The statements of a transaction so far: rows of before it, or its own from its beginning on. */
  ghost predicate Underway(t: Tables, tx: Tx, book: string, instant: int) {
    && (forall row | row in t.live && row.book == book ::
          row.from <= instant || (row.from == tx.now && row.txid == tx.id))
    && (forall row | row in t.history && row.book == book :: row.until <= tx.now)
  }

  lemma OpGoesOn(t: Tables, tx: Tx, op: RowOp, book: string, instant: int)
    requires Underway(t, tx, book, instant) && instant < tx.now
    ensures Underway(AfterOp(t, tx, op), tx, book, instant)
  {
    match op
    case Insert(newBook, data) =>
    case Delete(i) =>
      if i < |t.live| {
        assert t.live[i] in t.live;
        assert forall row | row in AfterDelete(t, tx, i).live :: row in t.live;
      }
    case Update(i, data) =>
      if i < |t.live| {
        assert t.live[i] in t.live;
        var u := AfterUpdate(t, tx, i, data);
        assert forall row | row in u.live :: row == u.live[i] || row in t.live;
      }
  }

  lemma {:induction false} OpsGoOn(t: Tables, tx: Tx, ops: seq<RowOp>, book: string, instant: int)
    requires Underway(t, tx, book, instant) && instant < tx.now
    ensures Underway(AfterOps(t, tx, ops), tx, book, instant)
    decreases |ops|
  {
    if ops != [] {
      OpGoesOn(t, tx, ops[0], book, instant);
      OpsGoOn(AfterOp(t, tx, ops[0]), tx, ops[1..], book, instant);
    }
  }

  lemma {:induction false} DeleteBookGoesOn(t: Tables, tx: Tx, target: string, book: string, instant: int)
    requires Underway(t, tx, book, instant) && instant < tx.now
    ensures Underway(AfterDeleteBook(t, tx, target), tx, book, instant)
    decreases |t.live|
  {
    if t.live != [] {
      var n := |t.live| - 1;
      assert t.live[n] in t.live && forall row | row in t.live[..n] :: row in t.live;
      DeleteBookGoesOn(t.(live := t.live[..n]), tx, target, book, instant);
    }
  }

  lemma {:induction false} InsertAllGoesOn(
    t: Tables, tx: Tx, target: string, nodes: seq<NodeData>, book: string, instant: int)
    requires Underway(t, tx, book, instant)
    ensures Underway(AfterInsertAll(t, tx, target, nodes), tx, book, instant)
  {
    if nodes != [] {
      InsertAllGoesOn(t, tx, target, nodes[..|nodes| - 1], book, instant);
    }
  }

  /** A transaction leaves the book settled by its own time. */
  lemma EventSettles(t: Tables, e: Event, book: string, instant: int)
    requires Underway(t, e.tx, book, instant) && instant < e.tx.now
    ensures SettledBy(AfterEvent(t, e), book, e.tx.now)
  {
    match e.work
    case Rows(ops) => OpsGoOn(t, e.tx, ops, book, instant);
    case Restore(target, timestamp) =>
      var nodes := ActiveAt(t, target, timestamp - 1);
      if nodes != [] {
        DeleteBookGoesOn(t, e.tx, target, book, instant);
        InsertAllGoesOn(AfterDeleteBook(t, e.tx, target), e.tx, target, nodes, book, instant);
      }
  }

  /**
    From its transaction on, a restored book shows the restored nodes and nothing of what they replaced, provided its
    rows began before the transaction and its archived ones had ended by then.
   */
  lemma RestoredFromNowOn(t: Tables, tx: Tx, book: string, timestamp: int, p: int)
    requires forall row | row in t.live && row.book == book :: row.from < tx.now
    requires forall row | row in t.history && row.book == book :: row.until <= tx.now
    requires tx.now <= p && ActiveAt(t, book, timestamp - 1) != []
    ensures ActiveAt(AfterRestore(t, tx, book, timestamp), book, p) == ActiveAt(t, book, timestamp - 1)
  {
    EventSettles(t, Event(tx, Restore(book, timestamp)), book, tx.now - 1);
    SettledShowsContents(AfterRestore(t, tx, book, timestamp), book, tx.now, p);
    RestoreGives(t, tx, book, timestamp);
  }

  // Any instant.

  /** Each transaction begins after the one before it, the first after this instant, and is new to the book's rows. */
  ghost predicate InTurn(t: Tables, events: seq<Event>, book: string, instant: int) {
    && (forall e | e in events :: instant < e.tx.now && Untouched(t, e.tx.id, book))
    && (forall i, j | 0 <= i < j < |events| ::
          events[i].tx.now < events[j].tx.now && events[i].tx.id != events[j].tx.id)
  }

  lemma InTurnPrefix(t: Tables, events: seq<Event>, k: nat, book: string, instant: int)
    requires InTurn(t, events, book, instant) && k <= |events|
    ensures InTurn(t, events[..k], book, instant)
  {
    assert forall e | e in events[..k] :: e in events;
    forall i, j | 0 <= i < j < k
      ensures events[..k][i].tx.now < events[..k][j].tx.now && events[..k][i].tx.id != events[..k][j].tx.id
    {
      assert events[..k][i] == events[i] && events[..k][j] == events[j];
    }
  }

  /** The time of the last transaction, or the instant before all of them. */
  function LastTime(events: seq<Event>, instant: int): int {
    if events == [] then instant else events[|events| - 1].tx.now
  }

  lemma {:induction false} EventsSettle(t: Tables, events: seq<Event>, book: string, instant: int)
    requires SettledBy(t, book, instant) && InTurn(t, events, book, instant)
    ensures SettledBy(AfterEvents(t, events), book, LastTime(events, instant))
  {
    if events != [] {
      var n := |events| - 1;
      InTurnPrefix(t, events, n, book, instant);
      EventsSettle(t, events[..n], book, instant);
      assert events[n] in events;
      EventSettles(AfterEvents(t, events[..n]), events[n], book, LastTime(events[..n], instant));
    }
  }

  lemma {:induction false} EventsInTurn(t: Tables, a: seq<Event>, b: seq<Event>)
    ensures AfterEvents(t, a + b) == AfterEvents(AfterEvents(t, a), b)
  {
    if b == [] {
      assert a + b == a;
    } else {
      var n := |b| - 1;
      EventsInTurn(t, a, b[..n]);
      assert (a + b)[..|a + b| - 1] == a + b[..n];
    }
  }

  /** The transactions after the first k are later, as seen from the state in between. */
  lemma RestIsLater(t: Tables, events: seq<Event>, k: nat, book: string, instant: int, p: int)
    requires InTurn(t, events, book, instant) && k <= |events|
    requires forall e | e in events[k..] :: p < e.tx.now && Versioned(book, e.tx)
    ensures Later(AfterEvents(t, events[..k]), events[k..], book, p)
  {
    forall e | e in events[k..] ensures Untouched(AfterEvents(t, events[..k]), e.tx.id, book) {
      var j :| k <= j < |events| && events[j] == e;
      forall other | other in events[..k] ensures other.tx.id != e.tx.id {
        var i :| 0 <= i < k && events[i] == other;
      }
      assert e in events;
      EventsLeaveOthersUntouched(t, events[..k], e.tx.id, book);
    }
    forall i, j | 0 <= i < j < |events[k..]| ensures events[k..][i].tx.id != events[k..][j].tx.id {
      assert events[k..][i] == events[k + i] && events[k..][j] == events[k + j];
    }
  }

  /**
    Time travel: after a whole series of transactions, the tables show at an instant exactly what the book read after
    the transactions begun by then, whatever those after it did under the trigger.
   */
  lemma ShowsWhatItRead(t: Tables, events: seq<Event>, k: nat, book: string, instant: int, p: int)
    requires SettledBy(t, book, instant) && InTurn(t, events, book, instant) && instant <= p && k <= |events|
    requires forall e | e in events[..k] :: e.tx.now <= p
    requires forall e | e in events[k..] :: p < e.tx.now && Versioned(book, e.tx)
    ensures PastContents(AfterEvents(t, events), book, p)
      == multiset(Contents(AfterEvents(t, events[..k]).live, book))
  {
    var reached := AfterEvents(t, events[..k]);
    InTurnPrefix(t, events, k, book, instant);
    EventsSettle(t, events[..k], book, instant);
    if k > 0 {
      assert events[..k][k - 1] in events[..k];
    }
    SettledShowsContents(reached, book, LastTime(events[..k], instant), p);
    RestIsLater(t, events, k, book, instant, p);
    LaterEventsSpare(reached, events[k..], book, p);
    EventsKeepPast(reached, events[k..], book, p);
    EventsInTurn(t, events[..k], events[k..]);
    assert events[..k] + events[k..] == events;
  }

  /** So a restore returns any earlier state of the book: the one the transactions begun before the timestamp left. */
  lemma RestoreReturnsTheState(
    t: Tables, events: seq<Event>, k: nat, tx: Tx, book: string, instant: int, timestamp: int)
    requires SettledBy(t, book, instant) && InTurn(t, events, book, instant) && instant < timestamp && k <= |events|
    requires forall e | e in events[..k] :: e.tx.now < timestamp
    requires forall e | e in events[k..] :: timestamp <= e.tx.now && Versioned(book, e.tx)
    requires Contents(AfterEvents(t, events[..k]).live, book) != []
    ensures multiset(Contents(AfterRestore(AfterEvents(t, events), tx, book, timestamp).live, book))
      == multiset(Contents(AfterEvents(t, events[..k]).live, book))
  {
    var u, reached := AfterEvents(t, events), AfterEvents(t, events[..k]);
    ShowsWhatItRead(t, events, k, book, instant, timestamp - 1);
    assert |PastContents(u, book, timestamp - 1)| == |ActiveAt(u, book, timestamp - 1)|;
    assert |PastContents(u, book, timestamp - 1)| == |Contents(reached.live, book)|;
    RestoreGives(u, tx, book, timestamp);
  }

  // Library timestamps.

  /** A restore sets the timestamp of the book itself and of whatever its id and a slash begin, and no other. */
  lemma {:induction false} BumpedIs(timestamps: map<string, int>, book: string, now: int, id: string, rest: string)
    ensures Bumped(timestamps, book, now).Keys == timestamps.Keys
    ensures book in timestamps ==> Bumped(timestamps, book, now)[book] == now
    ensures book + "/" + rest in timestamps ==> Bumped(timestamps, book, now)[book + "/" + rest] == now
    ensures id in timestamps && id != book && (|id| <= |book| || id[..|book|] != book || id[|book|] != '/') ==>
      Bumped(timestamps, book, now)[id] == timestamps[id]
  {
    if book + "/" <= id {
      assert id[..|book| + 1] == book + "/";
      assert id[..|book|] == book && id[|book|] == '/';
    }
    assert book + "/" <= book + "/" + rest;
  }
}
