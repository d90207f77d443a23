/**
  Credits (BillingService). Every public operation is one transaction under a row lock, so
  an interleaving of requests and workers is a sequence of whole operations. Money is counted
  in units of 1e-4, the scale of the decimal columns.
 */
module Billing {
  import opened Common

  /** services.billing_tiers: user status to multiplier on raw cost. */
  const TIERS: map<string, real> := map["premium" := 1.0, "budget" := 1.5, "solidarity" := 2.0, "capitalist" := 5.0]

  const PREMIUM: string := "premium"

  /** getBillingMultiplier: an unknown status is billed as budget. */
  function Multiplier(status: string): real {
    if status in TIERS then TIERS[status] else TIERS["budget"]
  }

  /** PHP's round(): to the nearest integer, halves away from zero. */
  function Round(x: real): int {
    if x >= 0.0 then (x + 0.5).Floor else -((-x + 0.5).Floor)
  }

  /** round(dollars, 4), in units. */
  function RoundUnits(dollars: real): int {
    Round(dollars * 10000.0)
  }

  datatype Account = Account(credits: int, debits: int, status: string) {
    function Balance(): int {
      credits - debits
    }
  }

  datatype RowKind = Credit | Debit

  /** A billing_ledger row without its id; reservation and tier are the metadata the code reads. */
  datatype LedgerRow = LedgerRow(
    user: string, kind: RowKind, amount: int, category: string,
    reservation: bool, tier: string, balanceAfter: int)

  /** The ledger by primary key. */
  type Ledger = map<string, LedgerRow>

  /** The users table and the ledger. */
  datatype State = State(users: map<string, Account>, ledger: Ledger)

  /** A transaction. Row ids are generated by the caller's side; seenStatus is what was read before the lock. */
  datatype Op =
    | Charge(user: string, amount: real, category: string, rowId: string)
    | Reserve(user: string, seenStatus: string, estimatedCost: real, rowId: string)
    | Release(user: string, reservationId: Option<string>)
    | AddCredits(user: string, amount: real, category: string, rowId: string)
    | ChangeTier(user: string, status: string)

  predicate Truthy(s: string) {
    s != "" && s != "0"
  }

  // The transactions as functions of the tables. A missing user or a duplicate row id raises
  // an error in the original, which rolls the transaction back.

  function ChargedRow(a: Account, user: string, amount: real, category: string): LedgerRow {
    var charged := RoundUnits(amount * Multiplier(a.status));
    LedgerRow(user, Debit, charged, category, false, a.status,
              if a.status == PREMIUM then a.Balance() else a.Balance() - charged)
  }

  function AfterCharge(s: State, user: string, amount: real, category: string, rowId: string): State {
    if user !in s.users || rowId in s.ledger then s
    else
      var a := s.users[user];
      var row := ChargedRow(a, user, amount, category);
      State(if a.status == PREMIUM then s.users else s.users[user := a.(debits := a.debits + row.amount)],
            s.ledger[rowId := row])
  }

  /** The condition reserveCredits really tests: a positive balance before the hold. */
  predicate Grants(s: State, user: string, seenStatus: string, estimatedCost: real, rowId: string) {
    && seenStatus != PREMIUM
    && estimatedCost > 0.0
    && user in s.users
    && s.users[user].Balance() > 0
    && rowId !in s.ledger
  }

  function HoldRow(a: Account, user: string, estimatedCost: real): LedgerRow {
    var held := RoundUnits(estimatedCost * Multiplier(a.status));
    LedgerRow(user, Debit, held, "tts_reservation", true, a.status, a.Balance() - held)
  }

  function AfterReserve(s: State, user: string, seenStatus: string, estimatedCost: real, rowId: string): State {
    if !Grants(s, user, seenStatus, estimatedCost, rowId) then s
    else
      var a := s.users[user];
      var row := HoldRow(a, user, estimatedCost);
      State(s.users[user := a.(debits := a.debits + row.amount)], s.ledger[rowId := row])
  }

  /** Whether a release call finds a hold to cancel: a row of that id, of that user, and a reservation. */
  predicate Releasable(s: State, user: string, reservationId: Option<string>) {
    && reservationId.Some? && Truthy(reservationId.value)
    && user in s.users
    && reservationId.value in s.ledger
    && var row := s.ledger[reservationId.value];
       row.user == user && row.kind == Debit && row.reservation
  }

  function AfterRelease(s: State, user: string, reservationId: Option<string>): State {
    if !Releasable(s, user, reservationId) then s
    else
      var a, id := s.users[user], reservationId.value;
      State(s.users[user := a.(debits := a.debits - s.ledger[id].amount)], s.ledger - {id})
  }

  /** credits = credits + amount in the database: the sum is rounded to the column's scale, not the amount. */
  function Topped(credits: int, amount: real): int {
    Round(credits as real + amount * 10000.0)
  }

  function CreditRow(a: Account, user: string, amount: real, category: string): LedgerRow {
    LedgerRow(user, Credit, RoundUnits(amount), category, false, "", Topped(a.credits, amount) - a.debits)
  }

  function AfterAddCredits(s: State, user: string, amount: real, category: string, rowId: string): State {
    if user !in s.users || rowId in s.ledger then s
    else
      var a := s.users[user];
      State(s.users[user := a.(credits := Topped(a.credits, amount))],
            s.ledger[rowId := CreditRow(a, user, amount, category)])
  }

  function AfterChangeTier(s: State, user: string, status: string): State {
    if user !in s.users then s else s.(users := s.users[user := s.users[user].(status := status)])
  }

  function Step(s: State, op: Op): State {
    match op
    case Charge(user, amount, category, rowId) => AfterCharge(s, user, amount, category, rowId)
    case Reserve(user, seenStatus, estimatedCost, rowId) => AfterReserve(s, user, seenStatus, estimatedCost, rowId)
    case Release(user, reservationId) => AfterRelease(s, user, reservationId)
    case AddCredits(user, amount, category, rowId) => AfterAddCredits(s, user, amount, category, rowId)
    case ChangeTier(user, status) => AfterChangeTier(s, user, status)
  }

  function Run(s: State, ops: seq<Op>): State
    decreases |ops|
  {
    if ops == [] then s else Run(Step(s, ops[0]), ops[1..])
  }

  /** The service over its two tables; each method is one locked transaction. */
  class BillingService {
    var users: map<string, Account>
    var ledger: Ledger

    ghost function Tables(): State
      reads this
    {
      State(users, ledger)
    }

    method Charge(user: string, amount: real, category: string, rowId: string) returns (entry: Option<LedgerRow>)
      modifies this
      ensures Tables() == AfterCharge(old(Tables()), user, amount, category, rowId)
      ensures entry.Some? <==> user in old(users) && rowId !in old(ledger)
      ensures entry.Some? ==> ledger == old(ledger)[rowId := entry.value]
      ensures entry.Some? ==> entry.value.balanceAfter == users[user].Balance()
    {
      if user !in users || rowId in ledger {
        return None;
      }
      var locked := users[user];
      var chargedAmount := RoundUnits(amount * Multiplier(locked.status));
      var isPremium := locked.status == PREMIUM;
      if !isPremium {
        locked := locked.(debits := locked.debits + chargedAmount);
        users := users[user := locked];
      }
      var row := LedgerRow(user, Debit, chargedAmount, category, false, locked.status, locked.Balance());
      assert row == ChargedRow(old(users)[user], user, amount, category);
      ledger := ledger[rowId := row];
      entry := Some(row);
    }

    method ReserveCredits(user: string, seenStatus: string, estimatedCost: real, rowId: string)
      returns (hold: Option<LedgerRow>)
      modifies this
      ensures Tables() == AfterReserve(old(Tables()), user, seenStatus, estimatedCost, rowId)
      ensures hold.Some? <==> Grants(old(Tables()), user, seenStatus, estimatedCost, rowId)
      ensures hold.Some? ==> ledger == old(ledger)[rowId := hold.value] && hold.value.reservation
      ensures hold.Some? ==> hold.value.balanceAfter == users[user].Balance() > -hold.value.amount
    {
      if seenStatus == PREMIUM {
        return None;
      }
      if estimatedCost <= 0.0 {
        return None;
      }
      if user !in users || users[user].Balance() <= 0 || rowId in ledger {
        return None;
      }
      var locked := users[user];
      var holdAmount := RoundUnits(estimatedCost * Multiplier(locked.status));
      users := users[user := locked.(debits := locked.debits + holdAmount)];
      var row := LedgerRow(user, Debit, holdAmount, "tts_reservation", true, locked.status, users[user].Balance());
      ledger := ledger[rowId := row];
      hold := Some(row);
    }

    method ReleaseReservation(user: string, reservationId: Option<string>) returns (released: bool)
      modifies this
      ensures Tables() == AfterRelease(old(Tables()), user, reservationId)
      ensures released <==> Releasable(old(Tables()), user, reservationId)
    {
      if reservationId == None || !Truthy(reservationId.value) {
        return false;
      }
      var id := reservationId.value;
      if user !in users || id !in ledger {
        return false;
      }
      var hold := ledger[id];
      if hold.user != user || hold.kind != Debit || !hold.reservation {
        return false;
      }
      users := users[user := users[user].(debits := users[user].debits - hold.amount)];
      ledger := ledger - {id};
      released := true;
    }

    method AddCredits(user: string, amount: real, category: string, rowId: string) returns (entry: Option<LedgerRow>)
      modifies this
      ensures Tables() == AfterAddCredits(old(Tables()), user, amount, category, rowId)
      ensures entry.Some? <==> user in old(users) && rowId !in old(ledger)
      ensures entry.Some? ==> ledger == old(ledger)[rowId := entry.value]
      ensures entry.Some? ==> entry.value.balanceAfter == users[user].Balance()
    {
      if user !in users || rowId in ledger {
        return None;
      }
      users := users[user := users[user].(credits := Topped(users[user].credits, amount))];
      var row := LedgerRow(user, Credit, RoundUnits(amount), category, false, "", users[user].Balance());
      ledger := ledger[rowId := row];
      entry := Some(row);
    }
  }

  // The books: counters against ledger rows.

  /** What a row contributes: credits always, debits unless they are a real charge made at the premium tier. */
  function Contribution(row: LedgerRow, user: string, kind: RowKind): int {
    if row.user == user && row.kind == kind && (kind == Credit || row.reservation || row.tier != PREMIUM)
    then row.amount else 0
  }

  ghost function Pick(ledger: Ledger): (id: string)
    requires ledger != map[]
    ensures id in ledger
  {
    assert ledger.Keys != {};
    var id :| id in ledger;
    id
  }

  ghost function Total(ledger: Ledger, user: string, kind: RowKind): int {
    if ledger == map[] then 0
    else
      var id := Pick(ledger);
      Contribution(ledger[id], user, kind) + Total(ledger - {id}, user, kind)
  }

  /** Any row can be taken out of the total, not only the one picked first. */
  lemma {:induction false} TotalWithout(ledger: Ledger, id: string, user: string, kind: RowKind)
    requires id in ledger
    ensures Total(ledger, user, kind) == Contribution(ledger[id], user, kind) + Total(ledger - {id}, user, kind)
    decreases |ledger|
  {
    var first := Pick(ledger);
    if first != id {
      var both := ledger - {first} - {id};
      assert |ledger - {first}| < |ledger| && |ledger - {id}| < |ledger|;
      TotalWithout(ledger - {first}, id, user, kind);
      TotalWithout(ledger - {id}, first, user, kind);
      assert ledger - {id} - {first} == both;
    }
  }

  lemma TotalWith(ledger: Ledger, id: string, row: LedgerRow, user: string, kind: RowKind)
    requires id !in ledger
    ensures Total(ledger[id := row], user, kind) == Total(ledger, user, kind) + Contribution(row, user, kind)
  {
    TotalWithout(ledger[id := row], id, user, kind);
    assert ledger[id := row] - {id} == ledger;
  }

  /** Both counters of every user agree with the ledger. */
  ghost predicate BooksAgree(s: State) {
    forall u | u in s.users ::
      && s.users[u].credits == Total(s.ledger, u, Credit)
      && s.users[u].debits == Total(s.ledger, u, Debit)
  }

  lemma RowAddedKeepsBooks(s: State, t: State, id: string, row: LedgerRow)
    requires BooksAgree(s) && id !in s.ledger && t.ledger == s.ledger[id := row]
    requires t.users.Keys == s.users.Keys
    requires forall u | u in s.users ::
      && t.users[u].credits == s.users[u].credits + Contribution(row, u, Credit)
      && t.users[u].debits == s.users[u].debits + Contribution(row, u, Debit)
    ensures BooksAgree(t)
  {
    forall u | u in t.users
      ensures t.users[u].credits == Total(t.ledger, u, Credit) && t.users[u].debits == Total(t.ledger, u, Debit)
    {
      TotalWith(s.ledger, id, row, u, Credit);
      TotalWith(s.ledger, id, row, u, Debit);
    }
  }

  lemma {:induction false} ChargeKeepsBooks(s: State, user: string, amount: real, category: string, rowId: string)
    requires BooksAgree(s)
    ensures BooksAgree(AfterCharge(s, user, amount, category, rowId))
  {
    if user in s.users && rowId !in s.ledger {
      var row := ChargedRow(s.users[user], user, amount, category);
      RowAddedKeepsBooks(s, AfterCharge(s, user, amount, category, rowId), rowId, row);
    }
  }

  lemma {:induction false} ReserveKeepsBooks(s: State, user: string, seenStatus: string, cost: real, rowId: string)
    requires BooksAgree(s)
    ensures BooksAgree(AfterReserve(s, user, seenStatus, cost, rowId))
  {
    if Grants(s, user, seenStatus, cost, rowId) {
      var row := HoldRow(s.users[user], user, cost);
      RowAddedKeepsBooks(s, AfterReserve(s, user, seenStatus, cost, rowId), rowId, row);
    }
  }

  /** The sum is rounded to what the row's amount, rounded on its own, makes of it. */
  predicate AddsUp(credits: int, amount: real) {
    Topped(credits, amount) == credits + RoundUnits(amount)
  }

  /** x lies half way between two whole units. */
  predicate HalfWay(x: real) {
    (x + 0.5).Floor as real == x + 0.5
  }

  lemma {:induction false} SumRounds(credits: int, x: real)
    ensures Round(credits as real + x) == credits + Round(x)
      <==> !HalfWay(x) || (x > 0.0 <==> credits as real + x > 0.0)
  {
    ShiftedFloor(x + 0.5, credits);
    ShiftedFloor(-x + 0.5, -credits);
    FloorOfNegative(x + 0.5);
  }

  lemma ShiftedFloor(x: real, n: int)
    ensures (x + n as real).Floor == x.Floor + n
  {
  }

  /** Rounding halves up and rounding them down differ by one exactly at halves. */
  lemma FloorOfNegative(x: real)
    ensures -((1.0 - x).Floor) == if x.Floor as real == x then x.Floor - 1 else x.Floor
  {
  }

  /** They agree except where the amount is half way and the sum is on the other side of zero. */
  lemma {:induction false} AddsUpIff(credits: int, amount: real)
    ensures AddsUp(credits, amount) <==>
      var x := amount * 10000.0;
      !HalfWay(x) || (x > 0.0 <==> credits as real + x > 0.0)
  {
    SumRounds(credits, amount * 10000.0);
  }

  lemma {:induction false} CreditKeepsBooksIff(s: State, user: string, amount: real, category: string, rowId: string)
    requires BooksAgree(s)
    ensures BooksAgree(AfterAddCredits(s, user, amount, category, rowId))
      <==> (user in s.users && rowId !in s.ledger ==> AddsUp(s.users[user].credits, amount))
  {
    if user in s.users && rowId !in s.ledger {
      var t := AfterAddCredits(s, user, amount, category, rowId);
      var row := CreditRow(s.users[user], user, amount, category);
      if AddsUp(s.users[user].credits, amount) {
        RowAddedKeepsBooks(s, t, rowId, row);
      } else {
        TotalWith(s.ledger, rowId, row, user, Credit);
        assert t.users[user].credits != Total(t.ledger, user, Credit);
      }
    }
  }

  lemma {:induction false} ReleaseKeepsBooks(s: State, user: string, id: Option<string>)
    requires BooksAgree(s)
    ensures BooksAgree(AfterRelease(s, user, id))
  {
    if Releasable(s, user, id) {
      var t := AfterRelease(s, user, id);
      forall u | u in t.users
        ensures t.users[u].credits == Total(t.ledger, u, Credit) && t.users[u].debits == Total(t.ledger, u, Debit)
      {
        TotalWithout(s.ledger, id.value, u, Credit);
        TotalWithout(s.ledger, id.value, u, Debit);
      }
    }
  }

  /** The operation is not a top-up whose sum is rounded apart from its row. */
  predicate Booked(s: State, op: Op) {
    op.AddCredits? && op.user in s.users && op.rowId !in s.ledger ==> AddsUp(s.users[op.user].credits, op.amount)
  }

  predicate AllBooked(s: State, ops: seq<Op>)
    decreases |ops|
  {
    ops != [] ==> Booked(s, ops[0]) && AllBooked(Step(s, ops[0]), ops[1..])
  }

  /**
    Any transaction, whoever calls it and whatever tier changes come between, keeps the books, but for such a top-up.
   */
  lemma StepKeepsBooksIff(s: State, op: Op)
    requires BooksAgree(s)
    ensures BooksAgree(Step(s, op)) <==> Booked(s, op)
  {
    match op
    case Charge(user, amount, category, rowId) => ChargeKeepsBooks(s, user, amount, category, rowId);
    case Reserve(user, seenStatus, cost, rowId) => ReserveKeepsBooks(s, user, seenStatus, cost, rowId);
    case AddCredits(user, amount, category, rowId) => CreditKeepsBooksIff(s, user, amount, category, rowId);
    case Release(user, id) => ReleaseKeepsBooks(s, user, id);
    case ChangeTier(user, status) =>
  }

  /** Safety over every interleaving. */
  lemma {:induction false} RunKeepsBooks(s: State, ops: seq<Op>)
    requires BooksAgree(s) && AllBooked(s, ops)
    ensures BooksAgree(Run(s, ops))
    decreases |ops|
  {
    if ops != [] {
      StepKeepsBooksIff(s, ops[0]);
      RunKeepsBooks(Step(s, ops[0]), ops[1..]);
    }
  }

  /** One unit of credit less half a unit is rounded to one unit, with a row over minus one unit beside it. */
  lemma RoundedApart()
    ensures Topped(1, -0.00005) == 1 && RoundUnits(-0.00005) == -1 && !AddsUp(1, -0.00005)
  {
    assert -0.00005 * 10000.0 == -0.5;
  }

  ghost predicate NoneInDebt(s: State) {
    forall u | u in s.users :: s.users[u].credits >= 0
  }

  predicate TopUps(ops: seq<Op>) {
    forall op | op in ops :: op.AddCredits? ==> op.amount >= 0.0
  }

  lemma ToppedUp(credits: int, amount: real)
    requires credits >= 0 && amount >= 0.0
    ensures AddsUp(credits, amount) && Topped(credits, amount) >= 0
  {
    AddsUpIff(credits, amount);
  }

  lemma {:induction false} StaysOutOfDebt(s: State, op: Op)
    requires NoneInDebt(s) && (op.AddCredits? ==> op.amount >= 0.0)
    ensures Booked(s, op) && NoneInDebt(Step(s, op))
  {
    if op.AddCredits? && op.user in s.users {
      ToppedUp(s.users[op.user].credits, op.amount);
    }
  }

  /** As top-ups are never negative, every run from there keeps the books. */
  lemma {:induction false} TopUpsAreBooked(s: State, ops: seq<Op>)
    requires NoneInDebt(s) && TopUps(ops)
    ensures AllBooked(s, ops)
    decreases |ops|
  {
    if ops != [] {
      assert ops[0] in ops && forall op | op in ops[1..] :: op in ops;
      StaysOutOfDebt(s, ops[0]);
      TopUpsAreBooked(Step(s, ops[0]), ops[1..]);
    }
  }

  // Holds.

  /** Releasing twice is releasing once. */
  lemma ReleaseIsIdempotent(s: State, user: string, id: Option<string>)
    ensures AfterRelease(AfterRelease(s, user, id), user, id) == AfterRelease(s, user, id)
    ensures !Releasable(AfterRelease(s, user, id), user, id)
  {
  }

  /**
    A row leaves the ledger in exactly one way: it is a hold and its owner releases it by its id. No row ever changes.
   */
  lemma RowsLeaveOnlyByRelease(s: State, op: Op, id: string)
    requires id in s.ledger
    ensures id !in Step(s, op).ledger <==>
      && op == Release(s.ledger[id].user, Some(id)) && Truthy(id)
      && s.ledger[id].reservation && s.ledger[id].kind == Debit && s.ledger[id].user in s.users
    ensures id in Step(s, op).ledger ==> Step(s, op).ledger[id] == s.ledger[id]
  {
  }

  /** The doc comment promises a rollback when a hold would go negative; the code grants it. */
  lemma HoldMayOverdraw()
    ensures var s := State(map["ann" := Account(1, 0, "budget")], map[]);
      && Grants(s, "ann", "budget", 1.0, "r1")
      && AfterReserve(s, "ann", "budget", 1.0, "r1").users["ann"].Balance() == -14999
  {
    assert 1.0 * Multiplier("budget") == 1.5;
    assert RoundUnits(1.5) == (15000.5).Floor == 15000;
  }

  /** A granted hold overdraws exactly when it exceeds the balance before it, and never below minus itself. */
  lemma OverdrawsIff(s: State, user: string, seenStatus: string, estimatedCost: real, rowId: string)
    requires Grants(s, user, seenStatus, estimatedCost, rowId)
    ensures var held := RoundUnits(estimatedCost * Multiplier(s.users[user].status));
      var after := AfterReserve(s, user, seenStatus, estimatedCost, rowId).users[user].Balance();
      (after < 0 <==> held > s.users[user].Balance()) && after > -held
  {
  }

  /** Ledgers compared without their balance snapshots. */
  function Erased(ledger: Ledger): Ledger {
    map id | id in ledger :: ledger[id].(balanceAfter := 0)
  }

  ghost predicate UsersAhead(s: map<string, Account>, t: map<string, Account>, user: string, owed: int) {
    && user in s
    && t == s[user := s[user].(debits := s[user].debits + owed)]
  }

  /** t is s with these rows more in the ledger, and so much more debited to the user. */
  ghost predicate Ahead(s: State, t: State, extra: Ledger, user: string, owed: int) {
    && UsersAhead(s.users, t.users, user, owed)
    && (forall id | id in extra :: id in t.ledger && t.ledger[id] == extra[id] && id !in s.ledger)
    && Erased(t.ledger - extra.Keys) == Erased(s.ledger)
  }

  /**
    The operation finds its way past these rows: it does not reuse their ids, and is not the owner's release of one.
   */
  predicate Independent(op: Op, extra: Ledger) {
    match op
    case Charge(_, _, _, rowId) => rowId !in extra
    case Reserve(_, _, _, rowId) => rowId !in extra
    case Release(user, id) => id.Some? && id.value in extra ==>
      user != extra[id.value].user || !extra[id.value].reservation
    case AddCredits(_, _, _, rowId) => rowId !in extra
    case ChangeTier(_, _) => true
  }

  /** A reservation is granted in both states or in neither. */
  predicate GrantedAlike(s: State, t: State, op: Op) {
    op.Reserve? ==>
      (Grants(s, op.user, op.seenStatus, op.estimatedCost, op.rowId)
       <==> Grants(t, op.user, op.seenStatus, op.estimatedCost, op.rowId))
  }

  /** So is each of a series, whether it starts in s or in t. */
  predicate AllGrantedAlike(s: State, t: State, ops: seq<Op>)
    decreases |ops|
  {
    ops != [] ==> GrantedAlike(s, t, ops[0]) && AllGrantedAlike(Step(s, ops[0]), Step(t, ops[0]), ops[1..])
  }

  lemma ErasedAt(a: Ledger, b: Ledger, id: string)
    requires Erased(a) == Erased(b)
    ensures id in a <==> id in b
    ensures id in a ==> a[id].(balanceAfter := 0) == b[id].(balanceAfter := 0)
  {
    assert id in a <==> id in Erased(a);
    assert id in b <==> id in Erased(b);
  }

  lemma AddedToBoth(s: Ledger, t: Ledger, extra: set<string>, id: string, r: LedgerRow, r': LedgerRow)
    requires id !in extra && Erased(t - extra) == Erased(s)
    requires r.(balanceAfter := 0) == r'.(balanceAfter := 0)
    ensures Erased(t[id := r'] - extra) == Erased(s[id := r])
  {
    assert t[id := r'] - extra == (t - extra)[id := r'];
    assert Erased((t - extra)[id := r']) == Erased(t - extra)[id := r'.(balanceAfter := 0)];
    assert Erased(s[id := r]) == Erased(s)[id := r.(balanceAfter := 0)];
  }

  lemma DeletedFromBoth(s: Ledger, t: Ledger, extra: set<string>, id: string)
    requires id !in extra && Erased(t - extra) == Erased(s)
    ensures Erased(t - {id} - extra) == Erased(s - {id})
  {
    assert t - {id} - extra == t - extra - {id};
    assert Erased(t - extra - {id}) == Erased(t - extra) - {id};
    assert Erased(s - {id}) == Erased(s) - {id};
  }

  lemma SameTierSameRow(a: Account, b: Account, user: string, amount: real, category: string)
    requires a.status == b.status
    ensures ChargedRow(a, user, amount, category).(balanceAfter := 0)
      == ChargedRow(b, user, amount, category).(balanceAfter := 0)
  {
  }

  lemma AheadAt(s: State, t: State, extra: Ledger, user: string, owed: int, id: string)
    requires Ahead(s, t, extra, user, owed) && id !in extra
    ensures id in s.ledger <==> id in t.ledger
    ensures id in s.ledger ==> s.ledger[id].(balanceAfter := 0) == t.ledger[id].(balanceAfter := 0)
  {
    ErasedAt(t.ledger - extra.Keys, s.ledger, id);
  }

  lemma {:induction false} ChargeKeepsAhead(
    s: State, t: State, extra: Ledger, user: string, owed: int, op: Op)
    requires Ahead(s, t, extra, user, owed) && Independent(op, extra) && op.Charge?
    ensures Ahead(Step(s, op), Step(t, op), extra, user, owed)
  {
    AheadAt(s, t, extra, user, owed, op.rowId);
    if op.user in s.users && op.rowId !in s.ledger {
      var a, b := s.users[op.user], t.users[op.user];
      SameTierSameRow(a, b, op.user, op.amount, op.category);
      AddedToBoth(s.ledger, t.ledger, extra.Keys, op.rowId,
                  ChargedRow(a, op.user, op.amount, op.category), ChargedRow(b, op.user, op.amount, op.category));
    }
  }

  lemma {:induction false} ReserveKeepsAhead(
    s: State, t: State, extra: Ledger, user: string, owed: int, op: Op)
    requires Ahead(s, t, extra, user, owed) && Independent(op, extra) && op.Reserve? && GrantedAlike(s, t, op)
    ensures Ahead(Step(s, op), Step(t, op), extra, user, owed)
  {
    AheadAt(s, t, extra, user, owed, op.rowId);
    if Grants(s, op.user, op.seenStatus, op.estimatedCost, op.rowId) {
      var a, b := s.users[op.user], t.users[op.user];
      AddedToBoth(s.ledger, t.ledger, extra.Keys, op.rowId,
                  HoldRow(a, op.user, op.estimatedCost), HoldRow(b, op.user, op.estimatedCost));
    }
  }

  lemma {:induction false} CreditKeepsAhead(
    s: State, t: State, extra: Ledger, user: string, owed: int, op: Op)
    requires Ahead(s, t, extra, user, owed) && Independent(op, extra) && op.AddCredits?
    ensures Ahead(Step(s, op), Step(t, op), extra, user, owed)
  {
    AheadAt(s, t, extra, user, owed, op.rowId);
    if op.user in s.users && op.rowId !in s.ledger {
      var a, b := s.users[op.user], t.users[op.user];
      AddedToBoth(s.ledger, t.ledger, extra.Keys, op.rowId,
                  CreditRow(a, op.user, op.amount, op.category), CreditRow(b, op.user, op.amount, op.category));
    }
  }

  lemma {:induction false} ReleaseKeepsAhead(
    s: State, t: State, extra: Ledger, user: string, owed: int, op: Op)
    requires Ahead(s, t, extra, user, owed) && Independent(op, extra) && op.Release?
    ensures Ahead(Step(s, op), Step(t, op), extra, user, owed)
  {
    var id := op.reservationId;
    if id.Some? && id.value !in extra {
      AheadAt(s, t, extra, user, owed, id.value);
      DeletedFromBoth(s.ledger, t.ledger, extra.Keys, id.value);
    }
  }

  /**
    A step keeps the one state exactly so far ahead, unless it releases a hold or is a reservation granted in one only.
   */
  lemma StepKeepsAhead(s: State, t: State, extra: Ledger, user: string, owed: int, op: Op)
    requires Ahead(s, t, extra, user, owed) && Independent(op, extra) && GrantedAlike(s, t, op)
    ensures Ahead(Step(s, op), Step(t, op), extra, user, owed)
  {
    match op
    case Charge(_, _, _, _) => ChargeKeepsAhead(s, t, extra, user, owed, op);
    case Reserve(_, _, _, _) => ReserveKeepsAhead(s, t, extra, user, owed, op);
    case AddCredits(_, _, _, _) => CreditKeepsAhead(s, t, extra, user, owed, op);
    case Release(_, _) => ReleaseKeepsAhead(s, t, extra, user, owed, op);
    case ChangeTier(_, _) =>
  }

  lemma {:induction false} RunKeepsAhead(s: State, t: State, extra: Ledger, user: string, owed: int, ops: seq<Op>)
    requires Ahead(s, t, extra, user, owed) && AllGrantedAlike(s, t, ops)
    requires forall op | op in ops :: Independent(op, extra)
    ensures Ahead(Run(s, ops), Run(t, ops), extra, user, owed)
    decreases |ops|
  {
    if ops != [] {
      StepKeepsAhead(s, t, extra, user, owed, ops[0]);
      RunKeepsAhead(Step(s, ops[0]), Step(t, ops[0]), extra, user, owed, ops[1..]);
    }
  }

  /**
    A reservation is refused on account of what is owed exactly when it is the same user's, would be granted otherwise,
    and what is owed leaves no balance.
   */
  lemma {:induction false} RefusedForTheHoldIff(s: State, t: State, extra: Ledger, user: string, owed: int, op: Op)
    requires Ahead(s, t, extra, user, owed) && Independent(op, extra) && op.Reserve? && owed >= 0
    ensures !GrantedAlike(s, t, op) <==>
      && op.user == user && Grants(s, user, op.seenStatus, op.estimatedCost, op.rowId)
      && s.users[user].Balance() <= owed
  {
    AheadAt(s, t, extra, user, owed, op.rowId);
  }

  /**
    A hold leaves no trace: reserve, anything else, release - and every account is what it would be without the hold,
    as is the ledger up to the balance snapshots taken in between. Further reservations count, the owner's too, as
    long as each is granted with the hold exactly when it is granted without it.
   */
  lemma HoldIsTransparent(
    s: State, user: string, seenStatus: string, estimatedCost: real, rowId: string, between: seq<Op>)
    requires Truthy(rowId) && Grants(s, user, seenStatus, estimatedCost, rowId)
    requires forall op | op in between :: Independent(op, map[rowId := HoldRow(s.users[user], user, estimatedCost)])
    requires AllGrantedAlike(s, AfterReserve(s, user, seenStatus, estimatedCost, rowId), between)
    ensures var end := AfterRelease(
        Run(AfterReserve(s, user, seenStatus, estimatedCost, rowId), between), user, Some(rowId));
      && end.users == Run(s, between).users
      && Erased(end.ledger) == Erased(Run(s, between).ledger)
  {
    var hold := HoldRow(s.users[user], user, estimatedCost);
    var t := AfterReserve(s, user, seenStatus, estimatedCost, rowId);
    ReserveGetsAhead(s, user, seenStatus, estimatedCost, rowId);
    RunKeepsAhead(s, t, map[rowId := hold], user, hold.amount, between);
    ReleaseCatchesUp(Run(s, between), Run(t, between), rowId, hold);
  }

  /** A row stays as it is over any run without its owner's release of it; so does its owner's account. */
  lemma {:induction false} RowStays(t: State, ops: seq<Op>, id: string)
    requires id in t.ledger && t.ledger[id].user in t.users
    requires forall op | op in ops :: op != Release(t.ledger[id].user, Some(id))
    ensures id in Run(t, ops).ledger && Run(t, ops).ledger[id] == t.ledger[id]
    ensures t.ledger[id].user in Run(t, ops).users
    decreases |ops|
  {
    if ops != [] {
      assert ops[0] in ops && forall op | op in ops[1..] :: op in ops;
      RowsLeaveOnlyByRelease(t, ops[0], id);
      UsersStay(t, ops[0]);
      RowStays(Step(t, ops[0]), ops[1..], id);
    }
  }

  lemma {:induction false} UsersStay(t: State, op: Op)
    ensures Step(t, op).users.Keys == t.users.Keys
  {
  }

  /**
    Whatever comes between, other reservations and releases of the same user included: until its owner releases it the
    hold's row is there unchanged, and the release takes exactly the hold's amount off the owner's debits and exactly
    its row out of the ledger.
   */
  lemma {:induction false} ReleaseCancelsItsHold(
    s: State, user: string, seenStatus: string, estimatedCost: real, rowId: string, between: seq<Op>)
    requires Truthy(rowId) && Grants(s, user, seenStatus, estimatedCost, rowId)
    requires forall op | op in between :: op != Release(user, Some(rowId))
    ensures var hold := HoldRow(s.users[user], user, estimatedCost);
      var u := Run(AfterReserve(s, user, seenStatus, estimatedCost, rowId), between);
      && rowId in u.ledger && u.ledger[rowId] == hold && user in u.users
      && AfterRelease(u, user, Some(rowId))
         == State(u.users[user := u.users[user].(debits := u.users[user].debits - hold.amount)], u.ledger - {rowId})
  {
    RowStays(AfterReserve(s, user, seenStatus, estimatedCost, rowId), between, rowId);
  }

  lemma ReserveGetsAhead(s: State, user: string, seenStatus: string, estimatedCost: real, rowId: string)
    requires Grants(s, user, seenStatus, estimatedCost, rowId)
    ensures var hold := HoldRow(s.users[user], user, estimatedCost);
      Ahead(s, AfterReserve(s, user, seenStatus, estimatedCost, rowId), map[rowId := hold], user, hold.amount)
  {
    var hold := HoldRow(s.users[user], user, estimatedCost);
    assert AfterReserve(s, user, seenStatus, estimatedCost, rowId).ledger - map[rowId := hold].Keys == s.ledger;
  }

  lemma ReleaseCatchesUp(s: State, t: State, holdId: string, hold: LedgerRow)
    requires Ahead(s, t, map[holdId := hold], hold.user, hold.amount)
    requires hold.reservation && hold.kind == Debit && Truthy(holdId)
    ensures AfterRelease(t, hold.user, Some(holdId)).users == s.users
    ensures Erased(AfterRelease(t, hold.user, Some(holdId)).ledger) == Erased(s.ledger)
  {
    assert map[holdId := hold].Keys == {holdId};
    assert holdId in map[holdId := hold] && t.ledger[holdId] == hold;
  }

  /** A charge only one state sees gets that one further ahead, by its row and what it debits. */
  lemma ChargeGetsAhead(
    s: State, t: State, extra: Ledger, user: string, owed: int, amount: real, category: string, rowId: string)
    requires Ahead(s, t, extra, user, owed) && rowId !in extra && rowId !in s.ledger
    ensures var row := ChargedRow(t.users[user], user, amount, category);
      && Ahead(s, AfterCharge(t, user, amount, category, rowId), extra[rowId := row], user,
               owed + if t.users[user].status == PREMIUM then 0 else row.amount)
      && !row.reservation
  {
    AheadAt(s, t, extra, user, owed, rowId);
    var row := ChargedRow(t.users[user], user, amount, category);
    assert t.ledger[rowId := row] - extra[rowId := row].Keys == t.ledger - extra.Keys;
  }

  /** The release of a hold only one state has takes its row and its amount off the lead. */
  lemma ReleaseFallsBack(s: State, t: State, extra: Ledger, user: string, owed: int, holdId: string)
    requires Ahead(s, t, extra, user, owed) && Truthy(holdId) && holdId in extra
    requires extra[holdId].user == user && extra[holdId].reservation && extra[holdId].kind == Debit
    ensures Ahead(s, AfterRelease(t, user, Some(holdId)), extra - {holdId}, user, owed - extra[holdId].amount)
  {
    assert t.ledger - {holdId} - (extra - {holdId}).Keys == t.ledger - extra.Keys;
  }

  // Rounding.

  function SumOf(xs: seq<real>): real {
    if xs == [] then 0.0 else xs[0] + SumOf(xs[1..])
  }

  /** The units debited when each cost is charged, and so rounded, on its own. */
  function ChargedSeparately(costs: seq<real>): int {
    if costs == [] then 0 else Round(costs[0]) + ChargedSeparately(costs[1..])
  }

  lemma {:induction false} SeparateRounding(costs: seq<real>)
    ensures -(|costs| as real) <= 2.0 * (ChargedSeparately(costs) as real - SumOf(costs)) <= |costs| as real
  {
    if costs != [] {
      SeparateRounding(costs[1..]);
    }
  }

  function CharsOf(runs: seq<nat>): nat {
    if runs == [] then 0 else runs[0] + CharsOf(runs[1..])
  }

  /** The exact cost of each run in units: its characters at the run's price per character. */
  function CostsOf(runs: seq<nat>, unitsPerChar: real): (costs: seq<real>)
    ensures |costs| == |runs|
  {
    if runs == [] then [] else [runs[0] as real * unitsPerChar] + CostsOf(runs[1..], unitsPerChar)
  }

  lemma {:induction false} CostsAddUp(runs: seq<nat>, unitsPerChar: real)
    ensures SumOf(CostsOf(runs, unitsPerChar)) == CharsOf(runs) as real * unitsPerChar
  {
    if runs != [] {
      CostsAddUp(runs[1..], unitsPerChar);
      assert CharsOf(runs) as real == runs[0] as real + CharsOf(runs[1..]) as real;
    }
  }

  /** The units debited for characters charged in one go. */
  function UnitsOf(chars: nat, unitsPerChar: real): int {
    Round(chars as real * unitsPerChar)
  }

  lemma NearestUnits(runs: seq<nat>, unitsPerChar: real)
    ensures var exact := SumOf(CostsOf(runs, unitsPerChar));
      -0.5 <= UnitsOf(CharsOf(runs), unitsPerChar) as real - exact <= 0.5
  {
    CostsAddUp(runs, unitsPerChar);
  }

  /** Charging the same characters in k runs instead of one moves the total by at most (k + 1) / 2 units. */
  lemma SplitCostBound(runs: seq<nat>, unitsPerChar: real)
    ensures var moved := ChargedSeparately(CostsOf(runs, unitsPerChar)) - UnitsOf(CharsOf(runs), unitsPerChar);
      -(|runs| + 1) <= 2 * moved <= |runs| + 1
  {
    var costs := CostsOf(runs, unitsPerChar);
    SeparateRounding(costs);
    NearestUnits(runs, unitsPerChar);
  }

  /** What rounding adds to the exact costs, run by run. */
  function RoundingError(costs: seq<real>): real {
    if costs == [] then 0.0 else (Round(costs[0]) as real - costs[0]) + RoundingError(costs[1..])
  }

  lemma {:induction false} ErrorsAddUp(costs: seq<real>)
    ensures RoundingError(costs) == ChargedSeparately(costs) as real - SumOf(costs)
  {
    if costs != [] {
      ErrorsAddUp(costs[1..]);
      assert ChargedSeparately(costs) as real == Round(costs[0]) as real + ChargedSeparately(costs[1..]) as real;
    }
  }

  /** The error of the runs' roundings is one that a single rounding could make. */
  predicate ErrorOfOneRounding(error: real, unitsPerChar: real) {
    if unitsPerChar >= 0.0 then -0.5 < error <= 0.5 else -0.5 <= error < 0.5
  }

  lemma {:induction false} NoCharsNoError(runs: seq<nat>, unitsPerChar: real)
    requires CharsOf(runs) == 0
    ensures RoundingError(CostsOf(runs, unitsPerChar)) == 0.0
  {
    if runs != [] {
      NoCharsNoError(runs[1..], unitsPerChar);
      assert runs[0] == 0 && runs[0] as real * unitsPerChar == 0.0;
      assert CostsOf(runs, unitsPerChar)[1..] == CostsOf(runs[1..], unitsPerChar);
    }
  }

  /** A number rounds to k exactly when k is off by less than a half, or by a half away from zero. */
  lemma {:induction false} RoundsToIff(x: real, k: int)
    ensures Round(x) == k <==>
      if x >= 0.0 then -0.5 < k as real - x <= 0.5 else -0.5 <= k as real - x < 0.5
  {
  }

  lemma SignOfProduct(chars: real, unitsPerChar: real)
    requires chars >= 0.0
    ensures chars * unitsPerChar >= 0.0 <==> unitsPerChar >= 0.0 || chars == 0.0
  {
  }

  lemma Distribute(a: nat, b: nat, c: real)
    ensures (a + b) as real * c == a as real * c + b as real * c
  {
    assert (a + b) as real == a as real + b as real;
  }

  /** The exact cost of all characters: that of the runs, and that of those no run was charged for. */
  function ExactCost(runs: seq<nat>, unpaid: nat, unitsPerChar: real): real {
    SumOf(CostsOf(runs, unitsPerChar)) + unpaid as real * unitsPerChar
  }

  lemma {:induction false} ExactCostOfAll(runs: seq<nat>, unpaid: nat, unitsPerChar: real)
    ensures ExactCost(runs, unpaid, unitsPerChar) == (CharsOf(runs) + unpaid) as real * unitsPerChar
  {
    CostsAddUp(runs, unitsPerChar);
    Distribute(CharsOf(runs), unpaid, unitsPerChar);
  }

  lemma {:induction false} SignOfCost(runs: seq<nat>, unpaid: nat, unitsPerChar: real)
    ensures ExactCost(runs, unpaid, unitsPerChar) >= 0.0 <==> unitsPerChar >= 0.0 || CharsOf(runs) + unpaid == 0
  {
    ExactCostOfAll(runs, unpaid, unitsPerChar);
    SignOfProduct((CharsOf(runs) + unpaid) as real, unitsPerChar);
  }

  /** What rounding adds to the runs' exact costs, less the price of so many characters no run was charged for. */
  function NetError(runs: seq<nat>, unpaid: nat, unitsPerChar: real): real {
    RoundingError(CostsOf(runs, unitsPerChar)) - unpaid as real * unitsPerChar
  }

  /**
    Runs cost exactly what one run over the same characters and so many unpaid ones would, exactly when their rounding
    errors add up to one rounding's once the unpaid characters' price is taken off.
   */
  lemma {:induction false} CostsSameIff(runs: seq<nat>, unpaid: nat, unitsPerChar: real)
    ensures ChargedSeparately(CostsOf(runs, unitsPerChar)) == UnitsOf(CharsOf(runs) + unpaid, unitsPerChar)
      <==> ErrorOfOneRounding(NetError(runs, unpaid, unitsPerChar), unitsPerChar)
  {
    ErrorsAddUp(CostsOf(runs, unitsPerChar));
    ExactCostOfAll(runs, unpaid, unitsPerChar);
    SignOfCost(runs, unpaid, unitsPerChar);
    RoundsToIff(ExactCost(runs, unpaid, unitsPerChar), ChargedSeparately(CostsOf(runs, unitsPerChar)));
    if CharsOf(runs) + unpaid == 0 {
      NoCharsNoError(runs, unitsPerChar);
    }
  }

  /** With nothing unpaid: exactly when the errors add up to one rounding's. */
  lemma {:induction false} SplitCostsSameIff(runs: seq<nat>, unitsPerChar: real)
    ensures ChargedSeparately(CostsOf(runs, unitsPerChar)) == UnitsOf(CharsOf(runs), unitsPerChar)
      <==> ErrorOfOneRounding(RoundingError(CostsOf(runs, unitsPerChar)), unitsPerChar)
  {
    CostsSameIff(runs, 0, unitsPerChar);
    assert 0 as real * unitsPerChar == 0.0;
  }
}
