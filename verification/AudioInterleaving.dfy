/** A chain of narration runs and its hold among other transactions, of anybody, at any point in between. */
module AudioInterleaving {
  import opened Common
  import opened AudioRun
  import opened AudioBilling
  import B = Billing

  /**
    What happens to the tables while a chain is at work: anybody's transaction, a run's charge, the end of its hold.
   */
  datatype Act = Other(op: B.Op) | Bill(slice: Slice) | GiveBack

  /** Whose chain it is, the id of its hold, and the rate of its charges. */
  datatype Chain = Chain(user: string, holdId: string, rate: real)

  function AfterAct(s: B.State, chain: Chain, act: Act): B.State {
    match act
    case Other(op) => B.Step(s, op)
    case Bill(slice) => AfterChargeFor(s, Some(chain.user), slice.chars, chain.rate, slice.rowId)
    case GiveBack => AfterGiveBack(s, Some(chain.user), Some(chain.holdId))
  }

  function AfterActs(s: B.State, chain: Chain, acts: seq<Act>): B.State
    decreases |acts|
  {
    if acts == [] then s else AfterActs(AfterAct(s, chain, acts[0]), chain, acts[1..])
  }

  /** The same step without the chain. */
  function AfterOther(s: B.State, act: Act): B.State {
    match act
    case Other(op) => B.Step(s, op)
    case _ => s
  }

  function AfterOthers(s: B.State, acts: seq<Act>): B.State
    decreases |acts|
  {
    if acts == [] then s else AfterOthers(AfterOther(s, acts[0]), acts[1..])
  }

  function BillsOf(acts: seq<Act>): seq<Slice> {
    if acts == [] then [] else (if acts[0].Bill? then [acts[0].slice] else []) + BillsOf(acts[1..])
  }

  predicate GivenBack(acts: seq<Act>) {
    acts != [] && (acts[0].GiveBack? || GivenBack(acts[1..]))
  }

  /** Another transaction that does not use these row ids, give the chain's hold back, or change its user's tier. */
  predicate Apart(op: B.Op, ids: set<string>, chain: Chain) {
    match op
    case Charge(_, _, _, rowId) => rowId !in ids
    case Reserve(_, _, _, rowId) => rowId !in ids
    case Release(user, id) => !(user == chain.user && id == Some(chain.holdId))
    case AddCredits(_, _, _, rowId) => rowId !in ids
    case ChangeTier(user, _) => user != chain.user
  }

  ghost predicate OthersApart(acts: seq<Act>, ids: set<string>, chain: Chain) {
    forall act | act in acts :: act.Other? ==> Apart(act.op, ids, chain)
  }

  /** Every reservation in between is granted with the chain at work exactly when it would be without it. */
  predicate ReservedAlike(s: B.State, t: B.State, chain: Chain, acts: seq<Act>)
    decreases |acts|
  {
    acts != [] ==>
      && (acts[0].Other? ==> B.GrantedAlike(s, t, acts[0].op))
      && ReservedAlike(AfterOther(s, acts[0]), AfterAct(t, chain, acts[0]), chain, acts[1..])
  }

  /** The chain's rows so far: charges, and the hold while it lasts. */
  ghost predicate ChainRows(extra: B.Ledger, ids: set<string>, chain: Chain, hold: B.LedgerRow) {
    && extra.Keys <= ids && chain.holdId in ids
    && hold.user == chain.user && hold.reservation && hold.kind == B.Debit
    && forall id | id in extra :: if id == chain.holdId then extra[id] == hold else !extra[id].reservation
  }

  /** The state with the chain is ahead by the chain's rows and what they debit; nobody else uses the chain's ids. */
  ghost predicate Along(
    s: B.State, t: B.State, extra: B.Ledger, ids: set<string>, chain: Chain, hold: B.LedgerRow, owed: int,
    status: string)
  {
    && B.Ahead(s, t, extra, chain.user, owed) && ChainRows(extra, ids, chain, hold)
    && s.ledger.Keys !! ids && s.users[chain.user].status == status
  }

  lemma OtherAct(
    s: B.State, t: B.State, extra: B.Ledger, ids: set<string>, chain: Chain, hold: B.LedgerRow, owed: int,
    status: string, op: B.Op)
    requires Along(s, t, extra, ids, chain, hold, owed, status) && Apart(op, ids, chain) && B.GrantedAlike(s, t, op)
    ensures Along(B.Step(s, op), B.Step(t, op), extra, ids, chain, hold, owed, status)
  {
    OthersGoAround(op, extra, ids, chain, hold);
    B.StepKeepsAhead(s, t, extra, chain.user, owed, op);
    NoNewIds(s, op, ids, chain);
  }

  lemma OthersGoAround(op: B.Op, extra: B.Ledger, ids: set<string>, chain: Chain, hold: B.LedgerRow)
    requires ChainRows(extra, ids, chain, hold) && Apart(op, ids, chain)
    ensures B.Independent(op, extra)
  {
  }

  lemma NoNewIds(s: B.State, op: B.Op, ids: set<string>, chain: Chain)
    requires s.ledger.Keys !! ids && Apart(op, ids, chain) && chain.user in s.users
    ensures B.Step(s, op).ledger.Keys !! ids && chain.user in B.Step(s, op).users
    ensures B.Step(s, op).users[chain.user].status == s.users[chain.user].status
  {
  }

  lemma BillAct(
    s: B.State, t: B.State, extra: B.Ledger, ids: set<string>, chain: Chain, hold: B.LedgerRow, owed: int,
    status: string, slice: Slice)
    returns (extra': B.Ledger)
    requires Along(s, t, extra, ids, chain, hold, owed, status)
    requires slice.rowId in ids && slice.rowId !in extra && slice.rowId != chain.holdId
    ensures Along(s, AfterAct(t, chain, Bill(slice)), extra', ids, chain, hold,
                  owed + UnitsFor(slice.chars, chain.rate, status), status)
    ensures extra'.Keys <= extra.Keys + {slice.rowId} && (chain.holdId in extra' <==> chain.holdId in extra)
  {
    if slice.chars == 0 {
      NothingCostsNothing(chain.rate, status);
      extra' := extra;
    } else {
      var cost := CostOf(slice.chars, chain.rate);
      var row := B.ChargedRow(t.users[chain.user], chain.user, cost, "tts");
      if status != B.PREMIUM {
        ChargedUnits(t.users[chain.user], chain.user, slice.chars, chain.rate);
      }
      B.ChargeGetsAhead(s, t, extra, chain.user, owed, cost, "tts", slice.rowId);
      extra' := extra[slice.rowId := row];
    }
  }

  lemma GiveBackAct(
    s: B.State, t: B.State, extra: B.Ledger, ids: set<string>, chain: Chain, hold: B.LedgerRow, owed: int,
    status: string)
    requires Along(s, t, extra, ids, chain, hold, owed, status) && B.Truthy(chain.holdId)
    ensures Along(s, AfterAct(t, chain, GiveBack), extra - {chain.holdId}, ids, chain, hold,
                  owed - if chain.holdId in extra then hold.amount else 0, status)
  {
    if chain.holdId in extra {
      B.ReleaseFallsBack(s, t, extra, chain.user, owed, chain.holdId);
    } else {
      B.AheadAt(s, t, extra, chain.user, owed, chain.holdId);
      assert extra - {chain.holdId} == extra;
    }
  }

  /** What one act of the chain adds to its user's debits. */
  function Due(act: Act, chain: Chain, hold: B.LedgerRow, held: bool, status: string): int {
    match act
    case Other(_) => 0
    case Bill(slice) => UnitsFor(slice.chars, chain.rate, status)
    case GiveBack => if held then -hold.amount else 0
  }

  /** What all that is to come adds to them. */
  function StillDue(acts: seq<Act>, chain: Chain, hold: B.LedgerRow, held: bool, status: string): int {
    UnitsForAll(BillsOf(acts), chain.rate, status) - if held && GivenBack(acts) then hold.amount else 0
  }

  lemma StillDueStep(acts: seq<Act>, chain: Chain, hold: B.LedgerRow, held: bool, status: string)
    requires acts != []
    ensures StillDue(acts, chain, hold, held, status)
      == Due(acts[0], chain, hold, held, status)
       + StillDue(acts[1..], chain, hold, held && !acts[0].GiveBack?, status)
  {
    if acts[0].Bill? {
      assert BillsOf(acts)[1..] == BillsOf(acts[1..]);
    } else {
      assert BillsOf(acts) == BillsOf(acts[1..]);
    }
  }

  lemma OneActAlong(
    s: B.State, t: B.State, extra: B.Ledger, ids: set<string>, chain: Chain, hold: B.LedgerRow, owed: int,
    status: string, act: Act)
    returns (extra': B.Ledger)
    requires Along(s, t, extra, ids, chain, hold, owed, status) && B.Truthy(chain.holdId)
    requires act.Other? ==> Apart(act.op, ids, chain) && B.GrantedAlike(s, t, act.op)
    requires act.Bill? ==> act.slice.rowId in ids && act.slice.rowId !in extra && act.slice.rowId != chain.holdId
    ensures Along(AfterOther(s, act), AfterAct(t, chain, act), extra', ids, chain, hold,
                  owed + Due(act, chain, hold, chain.holdId in extra, status), status)
    ensures extra'.Keys <= extra.Keys + if act.Bill? then {act.slice.rowId} else {}
    ensures chain.holdId in extra' <==> chain.holdId in extra && !act.GiveBack?
  {
    extra' := extra;
    match act {
      case Other(op) => OtherAct(s, t, extra, ids, chain, hold, owed, status, op);
      case Bill(slice) => extra' := BillAct(s, t, extra, ids, chain, hold, owed, status, slice);
      case GiveBack =>
        GiveBackAct(s, t, extra, ids, chain, hold, owed, status);
        extra' := extra - {chain.holdId};
    }
  }

  ghost predicate DistinctRows(bills: seq<Slice>) {
    forall i, j | 0 <= i < j < |bills| :: bills[i].rowId != bills[j].rowId
  }

  /** The rows of these charges are the chain's, and none is there yet. */
  ghost predicate ToCome(bills: seq<Slice>, there: set<string>, ids: set<string>, chain: Chain) {
    && DistinctRows(bills)
    && RowIds(bills) <= ids && chain.holdId !in RowIds(bills) && RowIds(bills) !! there
  }

  lemma DistinctRest(first: Slice, rest: seq<Slice>)
    requires DistinctRows([first] + rest)
    ensures DistinctRows(rest) && first.rowId !in RowIds(rest)
  {
    var bills := [first] + rest;
    forall i | 0 <= i < |rest| ensures rest[i].rowId != first.rowId {
      assert bills[0] == first && bills[i + 1] == rest[i];
    }
    forall i, j | 0 <= i < j < |rest| ensures rest[i].rowId != rest[j].rowId {
      assert bills[i + 1] == rest[i] && bills[j + 1] == rest[j];
    }
  }

  lemma FirstHasCome(
    first: Slice, rest: seq<Slice>, there: set<string>, now: set<string>, ids: set<string>, chain: Chain)
    requires ToCome([first] + rest, there, ids, chain) && now <= there + {first.rowId}
    ensures ToCome(rest, now, ids, chain)
    ensures first.rowId in ids && first.rowId !in there && first.rowId != chain.holdId
  {
    assert ([first] + rest)[1..] == rest;
    RowIdsCons([first] + rest);
    DistinctRest(first, rest);
  }

  lemma ToComeStep(acts: seq<Act>, there: set<string>, now: set<string>, ids: set<string>, chain: Chain)
    requires acts != [] && ToCome(BillsOf(acts), there, ids, chain)
    requires now <= there + if acts[0].Bill? then {acts[0].slice.rowId} else {}
    ensures ToCome(BillsOf(acts[1..]), now, ids, chain)
    ensures acts[0].Bill? ==>
      acts[0].slice.rowId in ids && acts[0].slice.rowId !in there && acts[0].slice.rowId != chain.holdId
  {
    if acts[0].Bill? {
      FirstHasCome(acts[0].slice, BillsOf(acts[1..]), there, now, ids, chain);
    } else {
      assert BillsOf(acts) == BillsOf(acts[1..]);
    }
  }

  lemma {:induction false} ActsGoAlong(
    s: B.State, t: B.State, extra: B.Ledger, ids: set<string>, chain: Chain, hold: B.LedgerRow, owed: int,
    status: string, acts: seq<Act>)
    returns (extra': B.Ledger)
    requires Along(s, t, extra, ids, chain, hold, owed, status) && B.Truthy(chain.holdId)
    requires OthersApart(acts, ids, chain) && ReservedAlike(s, t, chain, acts)
    requires ToCome(BillsOf(acts), extra.Keys, ids, chain)
    ensures Along(AfterOthers(s, acts), AfterActs(t, chain, acts), extra', ids, chain, hold,
                  owed + StillDue(acts, chain, hold, chain.holdId in extra, status), status)
    ensures chain.holdId in extra' <==> chain.holdId in extra && !GivenBack(acts)
    decreases |acts|
  {
    if acts == [] {
      extra' := extra;
    } else {
      var act, rest, held := acts[0], acts[1..], chain.holdId in extra;
      var s', t' := AfterOther(s, act), AfterAct(t, chain, act);
      OthersApartStep(acts, ids, chain);
      ToComeStep(acts, extra.Keys, extra.Keys, ids, chain);
      var next := OneActAlong(s, t, extra, ids, chain, hold, owed, status, act);
      ToComeStep(acts, extra.Keys, next.Keys, ids, chain);
      extra' := ActsGoAlong(s', t', next, ids, chain, hold, owed + Due(act, chain, hold, held, status), status, rest);
      StillDueStep(acts, chain, hold, held, status);
      assert AfterOthers(s, acts) == AfterOthers(s', rest) && AfterActs(t, chain, acts) == AfterActs(t', chain, rest);
    }
  }

  lemma OthersApartStep(acts: seq<Act>, ids: set<string>, chain: Chain)
    requires acts != [] && OthersApart(acts, ids, chain)
    ensures OthersApart(acts[1..], ids, chain) && (acts[0].Other? ==> Apart(acts[0].op, ids, chain))
  {
    assert acts[0] in acts && forall act | act in acts[1..] :: act in acts;
  }

  lemma StartsAlong(s: B.State, seenStatus: string, estimate: real, chain: Chain, bills: seq<Slice>)
    requires B.Grants(s, chain.user, seenStatus, estimate, chain.holdId)
    requires FreshIds(s.ledger, bills) && chain.holdId !in RowIds(bills)
    ensures var a := s.users[chain.user];
      var hold, ids := B.HoldRow(a, chain.user, estimate), RowIds(bills) + {chain.holdId};
      && Along(s, B.AfterReserve(s, chain.user, seenStatus, estimate, chain.holdId), map[chain.holdId := hold], ids,
               chain, hold, hold.amount, a.status)
      && ToCome(bills, {chain.holdId}, ids, chain)
  {
    B.ReserveGetsAhead(s, chain.user, seenStatus, estimate, chain.holdId);
  }

  /** The accounts are the others' doing and these units more for the chain's user; the hold's row is there or not. */
  ghost predicate Leaves(alone: B.State, end: B.State, chain: Chain, units: int, held: bool) {
    && chain.user in alone.users && end.users == Debited(alone.users, chain.user, units)
    && (chain.holdId in end.ledger <==> held)
  }

  lemma AlongLeaves(
    s: B.State, t: B.State, extra: B.Ledger, ids: set<string>, chain: Chain, hold: B.LedgerRow, owed: int,
    status: string)
    requires Along(s, t, extra, ids, chain, hold, owed, status)
    ensures Leaves(s, t, chain, owed, chain.holdId in extra)
  {
    if chain.holdId !in extra {
      B.AheadAt(s, t, extra, chain.user, owed, chain.holdId);
    }
  }

  /** What the chain's charges come to, and the hold as long as it has not been given back. */
  function ChainUnits(acts: seq<Act>, chain: Chain, hold: B.LedgerRow, status: string): int {
    UnitsForAll(BillsOf(acts), chain.rate, status) + if GivenBack(acts) then 0 else hold.amount
  }

  lemma AllDue(acts: seq<Act>, chain: Chain, hold: B.LedgerRow, status: string)
    ensures hold.amount + StillDue(acts, chain, hold, true, status) == ChainUnits(acts, chain, hold, status)
  {
  }

  /**
    Whatever else happens in between - charges, credits, holds and releases of anybody, the chain's user included - the
    accounts at the end are what those transactions alone would leave them, plus the chain's charges, plus the hold as
    long as it has not been given back.
   */
  lemma {:induction false} InterleavedChainCharges(
    s: B.State, seenStatus: string, estimate: real, chain: Chain, acts: seq<Act>)
    requires B.Truthy(chain.holdId) && B.Grants(s, chain.user, seenStatus, estimate, chain.holdId)
    requires FreshIds(s.ledger, BillsOf(acts)) && chain.holdId !in RowIds(BillsOf(acts))
    requires OthersApart(acts, RowIds(BillsOf(acts)) + {chain.holdId}, chain)
    requires ReservedAlike(s, B.AfterReserve(s, chain.user, seenStatus, estimate, chain.holdId), chain, acts)
    ensures var a := s.users[chain.user];
      Leaves(AfterOthers(s, acts),
             AfterActs(B.AfterReserve(s, chain.user, seenStatus, estimate, chain.holdId), chain, acts), chain,
             ChainUnits(acts, chain, B.HoldRow(a, chain.user, estimate), a.status), !GivenBack(acts))
  {
    var a, bills := s.users[chain.user], BillsOf(acts);
    var hold, ids := B.HoldRow(a, chain.user, estimate), RowIds(bills) + {chain.holdId};
    var t := B.AfterReserve(s, chain.user, seenStatus, estimate, chain.holdId);
    StartsAlong(s, seenStatus, estimate, chain, bills);
    EndsAlong(s, t, ids, chain, hold, a.status, acts);
  }

  lemma EndsAlong(
    s: B.State, t: B.State, ids: set<string>, chain: Chain, hold: B.LedgerRow, status: string, acts: seq<Act>)
    requires Along(s, t, map[chain.holdId := hold], ids, chain, hold, hold.amount, status) && B.Truthy(chain.holdId)
    requires OthersApart(acts, ids, chain) && ReservedAlike(s, t, chain, acts)
    requires ToCome(BillsOf(acts), {chain.holdId}, ids, chain)
    ensures Leaves(AfterOthers(s, acts), AfterActs(t, chain, acts), chain, ChainUnits(acts, chain, hold, status),
                   !GivenBack(acts))
  {
    var extra: B.Ledger := map[chain.holdId := hold];
    assert extra.Keys == {chain.holdId};
    var extra' := ActsGoAlong(s, t, extra, ids, chain, hold, hold.amount, status, acts);
    AllDue(acts, chain, hold, status);
    AlongLeaves(AfterOthers(s, acts), AfterActs(t, chain, acts), extra', ids, chain, hold,
                ChainUnits(acts, chain, hold, status), status);
  }
}
