/**
  What a chain of narration runs costs. The endpoint places a hold, the first run charges for what it
  narrated and releases the hold, each continuation charges for what it narrated and has no hold to release.
 */
module AudioBilling {
  import opened Common
  import opened AudioStore
  import opened AudioRun
  import opened AudioChain
  import B = Billing

  /** What one run narrated, and the ledger row id its charge gets. */
  datatype Slice = Slice(chars: nat, rowId: string)

  function AfterOneRun(s: B.State, user: string, reservation: Option<string>, slice: Slice, rate: real): B.State {
    AfterGiveBack(AfterChargeFor(s, Some(user), slice.chars, rate, slice.rowId), Some(user), reservation)
  }

  /** The tables after the charges and releases of a chain; only its first run carries the hold. */
  function AfterBilling(s: B.State, user: string, reservation: Option<string>, slices: seq<Slice>, rate: real): B.State
    decreases |slices|
  {
    if slices == [] then s
    else AfterBilling(AfterOneRun(s, user, reservation, slices[0], rate), user, None, slices[1..], rate)
  }

  /** The row ids are new, for the ledger and for each other. */
  ghost predicate FreshIds(ledger: B.Ledger, slices: seq<Slice>) {
    && (forall slice | slice in slices :: slice.rowId !in ledger)
    && (forall i, j | 0 <= i < j < |slices| :: slices[i].rowId != slices[j].rowId)
  }

  /** What a user of this status is debited for one run. */
  function UnitsFor(chars: nat, rate: real, status: string): int {
    if status == B.PREMIUM then 0 else B.RoundUnits(CostOf(chars, rate) * B.Multiplier(status))
  }

  function UnitsForAll(slices: seq<Slice>, rate: real, status: string): int {
    if slices == [] then 0 else UnitsFor(slices[0].chars, rate, status) + UnitsForAll(slices[1..], rate, status)
  }

  function Debited(users: map<string, B.Account>, user: string, units: int): map<string, B.Account>
    requires user in users
  {
    users[user := users[user].(debits := users[user].debits + units)]
  }

  lemma NothingCostsNothing(rate: real, status: string)
    ensures UnitsFor(0, rate, status) == 0
  {
    assert CostOf(0, rate) == 0.0;
    assert 0.0 * B.Multiplier(status) == 0.0;
  }

  lemma DebitedTwice(
    users: map<string, B.Account>, middle: map<string, B.Account>, end: map<string, B.Account>, user: string,
    first: int, second: int)
    requires user in users && middle == Debited(users, user, first) && end == Debited(middle, user, second)
    ensures end == Debited(users, user, first + second)
  {
  }

  lemma StatusStays(users: map<string, B.Account>, user: string, units: int)
    requires user in users
    ensures user in Debited(users, user, units) && Debited(users, user, units)[user].status == users[user].status
  {
  }

  ghost function RowIds(slices: seq<Slice>): set<string> {
    set slice | slice in slices :: slice.rowId
  }

  lemma RowIdsCons(slices: seq<Slice>)
    requires slices != []
    ensures RowIds(slices) == {slices[0].rowId} + RowIds(slices[1..])
  {
    assert slices == [slices[0]] + slices[1..];
  }

  lemma DebitedNothing(users: map<string, B.Account>, user: string)
    requires user in users
    ensures Debited(users, user, 0) == users
  {
    assert users[user].(debits := users[user].debits + 0) == users[user];
  }

  lemma ChargedUnits(a: B.Account, user: string, chars: nat, rate: real)
    requires a.status != B.PREMIUM
    ensures B.ChargedRow(a, user, CostOf(chars, rate), "tts").amount == UnitsFor(chars, rate, a.status)
  {
  }

  lemma AnyChargeDebits(s: B.State, user: string, amount: real, rowId: string, units: int)
    requires user in s.users && rowId !in s.ledger
    requires units == if s.users[user].status == B.PREMIUM then 0
                      else B.ChargedRow(s.users[user], user, amount, "tts").amount
    ensures B.AfterCharge(s, user, amount, "tts", rowId).users == Debited(s.users, user, units)
  {
    DebitedNothing(s.users, user);
  }

  lemma ChargeDebits(s: B.State, user: string, chars: nat, rate: real, rowId: string)
    requires user in s.users && rowId !in s.ledger
    ensures B.AfterCharge(s, user, CostOf(chars, rate), "tts", rowId).users
            == Debited(s.users, user, UnitsFor(chars, rate, s.users[user].status))
  {
    var a := s.users[user];
    if a.status != B.PREMIUM {
      ChargedUnits(a, user, chars, rate);
    }
    AnyChargeDebits(s, user, CostOf(chars, rate), rowId, UnitsFor(chars, rate, a.status));
  }

  lemma OneCharge(s: B.State, user: string, slice: Slice, rate: real)
    requires user in s.users && slice.rowId !in s.ledger
    ensures var t := AfterChargeFor(s, Some(user), slice.chars, rate, slice.rowId);
      && t.users == Debited(s.users, user, UnitsFor(slice.chars, rate, s.users[user].status))
      && s.ledger.Keys <= t.ledger.Keys <= s.ledger.Keys + {slice.rowId}
  {
    if slice.chars == 0 {
      NothingCostsNothing(rate, s.users[user].status);
      DebitedNothing(s.users, user);
    } else {
      ChargeDebits(s, user, slice.chars, rate, slice.rowId);
    }
  }

  /** A run without a hold only charges. */
  lemma {:induction false} ContinuationsCharge(s: B.State, user: string, slices: seq<Slice>, rate: real)
    requires user in s.users && FreshIds(s.ledger, slices)
    ensures AfterBilling(s, user, None, slices, rate).users
            == Debited(s.users, user, UnitsForAll(slices, rate, s.users[user].status))
    ensures AfterBilling(s, user, None, slices, rate).ledger.Keys <= s.ledger.Keys + RowIds(slices)
    decreases |slices|, 1
  {
    if slices != [] {
      OneCharge(s, user, slices[0], rate);
      RestOfChain(s, AfterOneRun(s, user, None, slices[0], rate), user, slices, rate);
    }
  }

  /** Once the first run has left the debits it should, so do the others. */
  lemma {:induction false} RestOfChain(s: B.State, t: B.State, user: string, slices: seq<Slice>, rate: real)
    requires user in s.users && slices != [] && FreshIds(s.ledger, slices)
    requires t.users == Debited(s.users, user, UnitsFor(slices[0].chars, rate, s.users[user].status))
    requires t.ledger.Keys <= s.ledger.Keys + {slices[0].rowId}
    ensures AfterBilling(t, user, None, slices[1..], rate).users
            == Debited(s.users, user, UnitsForAll(slices, rate, s.users[user].status))
    ensures AfterBilling(t, user, None, slices[1..], rate).ledger.Keys <= s.ledger.Keys + RowIds(slices)
    decreases |slices|, 0
  {
    var status := s.users[user].status;
    var first, second := UnitsFor(slices[0].chars, rate, status), UnitsForAll(slices[1..], rate, status);
    FreshAfterFirst(s.ledger, t.ledger, slices);
    StatusStays(s.users, user, first);
    ContinuationsCharge(t, user, slices[1..], rate);
    DebitedTwice(s.users, t.users, AfterBilling(t, user, None, slices[1..], rate).users, user, first, second);
    RowIdsCons(slices);
  }

  lemma FreshAfterFirst(before: B.Ledger, after: B.Ledger, slices: seq<Slice>)
    requires slices != [] && FreshIds(before, slices)
    requires after.Keys <= before.Keys + {slices[0].rowId}
    ensures FreshIds(after, slices[1..])
  {
    forall slice | slice in slices[1..] ensures slice.rowId !in after {
      var i :| 0 <= i < |slices| - 1 && slices[1..][i] == slice;
      assert slices[i + 1] == slice && slice in slices;
    }
  }

  /** The first run: the hold is gone and the account is as if it had never been there. */
  lemma FirstRun(
    s: B.State, user: string, seenStatus: string, estimate: real, holdId: string, slice: Slice, rate: real)
    requires B.Truthy(holdId) && B.Grants(s, user, seenStatus, estimate, holdId)
    requires slice.rowId !in s.ledger && slice.rowId != holdId
    ensures var t := AfterOneRun(
        B.AfterReserve(s, user, seenStatus, estimate, holdId), user, Some(holdId), slice, rate);
      && t.users == Debited(s.users, user, UnitsFor(slice.chars, rate, s.users[user].status))
      && t.ledger.Keys <= s.ledger.Keys + {slice.rowId}
  {
    var between := if slice.chars == 0 then [] else [B.Charge(user, CostOf(slice.chars, rate), "tts", slice.rowId)];
    var held := B.AfterReserve(s, user, seenStatus, estimate, holdId);
    RunOfOne(s, between);
    RunOfOne(held, between);
    NoReservation(s, held, between);
    B.HoldIsTransparent(s, user, seenStatus, estimate, holdId, between);
    OneCharge(s, user, slice, rate);
    var t := AfterOneRun(held, user, Some(holdId), slice, rate);
    var plain := AfterChargeFor(s, Some(user), slice.chars, rate, slice.rowId);
    forall id | id in t.ledger ensures id in plain.ledger {
      B.ErasedAt(t.ledger, plain.ledger, id);
    }
  }

  lemma NoReservation(s: B.State, t: B.State, ops: seq<B.Op>)
    requires |ops| <= 1 && (ops != [] ==> !ops[0].Reserve?)
    ensures B.AllGrantedAlike(s, t, ops)
  {
    if ops != [] {
      assert ops[1..] == [];
      assert B.AllGrantedAlike(B.Step(s, ops[0]), B.Step(t, ops[0]), []);
    }
  }

  lemma RunOfOne(s: B.State, ops: seq<B.Op>)
    requires |ops| <= 1
    ensures B.Run(s, ops) == if ops == [] then s else B.Step(s, ops[0])
  {
    if |ops| == 1 {
      assert ops[1..] == [];
      assert B.Run(B.Step(s, ops[0]), []) == B.Step(s, ops[0]);
    }
  }

  /**
    Over the whole chain the hold costs nothing: the final debits are those before the hold plus the chain's
    charges, every other account is untouched, and the hold's row is gone.
   */
  lemma ChainCharges(
    s: B.State, user: string, seenStatus: string, estimate: real, holdId: string, slices: seq<Slice>, rate: real)
    requires B.Truthy(holdId) && B.Grants(s, user, seenStatus, estimate, holdId)
    requires slices != [] && FreshIds(s.ledger, slices) && holdId !in RowIds(slices)
    ensures var end := AfterBilling(
        B.AfterReserve(s, user, seenStatus, estimate, holdId), user, Some(holdId), slices, rate);
      && end.users == Debited(s.users, user, UnitsForAll(slices, rate, s.users[user].status))
      && holdId !in end.ledger
  {
    var held := B.AfterReserve(s, user, seenStatus, estimate, holdId);
    var t := AfterOneRun(held, user, Some(holdId), slices[0], rate);
    assert slices[0].rowId in RowIds(slices);
    FirstRun(s, user, seenStatus, estimate, holdId, slices[0], rate);
    RestOfChain(s, t, user, slices, rate);
  }

  // The chain's charges against the characters it narrated.

  /** The slices of a series of runs: what each is charged for. */
  function SlicesOf(
    d: Disk, nodes: seq<Node>, sha: string -> string, plans: seq<Plan>, concurrency: nat, rowIds: seq<string>):
    seq<Slice>
    requires 0 < concurrency && |rowIds| == |plans|
  {
    if plans == [] then []
    else
      var n := |plans| - 1;
      SlicesOf(d, nodes, sha, plans[..n], concurrency, rowIds[..n])
      + [Slice(BilledChars(Run(AfterRuns(d, nodes, sha, plans[..n], concurrency), nodes, sha, plans[n], concurrency)),
               rowIds[n])]
  }

  /** What a run narrated, and stored, without being charged for it: everything, if an exception ended it. */
  function UnpaidIn(p: Progress): nat {
    if p.stop == Aborted then CharsOf(p.done) else 0
  }

  function UnpaidChars(d: Disk, nodes: seq<Node>, sha: string -> string, plans: seq<Plan>, concurrency: nat): nat
    requires 0 < concurrency
  {
    if plans == [] then 0
    else
      var n := |plans| - 1;
      UnpaidChars(d, nodes, sha, plans[..n], concurrency) + UnpaidIn(NthRun(d, nodes, sha, plans, concurrency, n))
  }

  function CharsIn(slices: seq<Slice>): seq<nat> {
    if slices == [] then [] else [slices[0].chars] + CharsIn(slices[1..])
  }

  lemma {:induction false} CharsInSnoc(slices: seq<Slice>, slice: Slice)
    ensures CharsIn(slices + [slice]) == CharsIn(slices) + [slice.chars]
    ensures B.CharsOf(CharsIn(slices + [slice])) == B.CharsOf(CharsIn(slices)) + slice.chars
    ensures |CharsIn(slices + [slice])| == |CharsIn(slices)| + 1
  {
    if slices == [] {
      assert [] + [slice] == [slice] && [slice][1..] == [];
      assert CharsIn([slice]) == [slice.chars];
      assert [slice.chars][1..] == [];
    } else {
      CharsInSnoc(slices[1..], slice);
      assert (slices + [slice])[1..] == slices[1..] + [slice];
      assert CharsIn(slices)[1..] == CharsIn(slices[1..]);
      assert CharsIn(slices + [slice])[1..] == CharsIn(slices[1..] + [slice]);
    }
  }

  lemma ChargedOrUnpaid(p: Progress)
    ensures BilledChars(p) + UnpaidIn(p) == CharsOf(p.done)
  {
  }

  /** What the runs are charged for, and what aborted ones were not, is all that was narrated. */
  lemma {:induction false} SlicesAddUp(
    d: Disk, nodes: seq<Node>, sha: string -> string, plans: seq<Plan>, concurrency: nat, rowIds: seq<string>)
    requires 0 < concurrency && |rowIds| == |plans|
    ensures var runs := CharsIn(SlicesOf(d, nodes, sha, plans, concurrency, rowIds));
      && |runs| == |plans|
      && B.CharsOf(runs) + UnpaidChars(d, nodes, sha, plans, concurrency)
         == CharsOf(NarratedInAll(d, nodes, sha, plans, concurrency))
  {
    if plans != [] {
      var n := |plans| - 1;
      var slices := SlicesOf(d, nodes, sha, plans[..n], concurrency, rowIds[..n]);
      var p := NthRun(d, nodes, sha, plans, concurrency, n);
      SlicesAddUp(d, nodes, sha, plans[..n], concurrency, rowIds[..n]);
      CharsInSnoc(slices, Slice(BilledChars(p), rowIds[n]));
      CharsConcat(NarratedInAll(d, nodes, sha, plans[..n], concurrency), p.done);
      ChargedOrUnpaid(p);
    }
  }

  // What is left unpaid.

  /** No run of the series ends in an exception with something narrated. */
  ghost predicate NoneUnpaid(d: Disk, nodes: seq<Node>, sha: string -> string, plans: seq<Plan>, concurrency: nat)
    requires 0 < concurrency
  {
    forall r | 0 <= r < |plans| :: UnpaidIn(NthRun(d, nodes, sha, plans, concurrency, r)) == 0
  }

  lemma NthRunOfPrefix(
    d: Disk, nodes: seq<Node>, sha: string -> string, plans: seq<Plan>, concurrency: nat, n: nat, r: nat)
    requires 0 < concurrency && r < n <= |plans|
    ensures NthRun(d, nodes, sha, plans[..n], concurrency, r) == NthRun(d, nodes, sha, plans, concurrency, r)
  {
    assert plans[..n][..r] == plans[..r];
  }

  lemma NoneUnpaidStep(d: Disk, nodes: seq<Node>, sha: string -> string, plans: seq<Plan>, concurrency: nat)
    requires 0 < concurrency && plans != []
    ensures var n := |plans| - 1;
      NoneUnpaid(d, nodes, sha, plans, concurrency) <==>
        NoneUnpaid(d, nodes, sha, plans[..n], concurrency)
        && UnpaidIn(NthRun(d, nodes, sha, plans, concurrency, n)) == 0
  {
    var n := |plans| - 1;
    forall r | 0 <= r < n
      ensures UnpaidIn(NthRun(d, nodes, sha, plans[..n], concurrency, r))
        == UnpaidIn(NthRun(d, nodes, sha, plans, concurrency, r))
    {
      NthRunOfPrefix(d, nodes, sha, plans, concurrency, n, r);
    }
    if NoneUnpaid(d, nodes, sha, plans, concurrency) {
      assert UnpaidIn(NthRun(d, nodes, sha, plans, concurrency, n)) == 0;
    }
  }

  lemma {:induction false} UnpaidIff(
    d: Disk, nodes: seq<Node>, sha: string -> string, plans: seq<Plan>, concurrency: nat)
    requires 0 < concurrency
    ensures UnpaidChars(d, nodes, sha, plans, concurrency) == 0 <==> NoneUnpaid(d, nodes, sha, plans, concurrency)
  {
    if plans != [] {
      UnpaidIff(d, nodes, sha, plans[..|plans| - 1], concurrency);
      NoneUnpaidStep(d, nodes, sha, plans, concurrency);
    }
  }

  /** Every node has something to say, as the filter for speakable nodes sees to. */
  ghost predicate Speakable(nodes: seq<Node>) {
    forall n | n in nodes :: n.text != ""
  }

  lemma {:induction false} PendingTexts(nodes: seq<Node>, rows: map<string, AudioRow>, sha: string -> string)
    requires Speakable(nodes)
    ensures forall x | x in Pending(nodes, rows, sha) :: x.text != ""
  {
    if nodes != [] {
      var n := |nodes| - 1;
      assert nodes[n] in nodes && forall m | m in nodes[..n] :: m in nodes;
      PendingTexts(nodes[..n], rows, sha);
    }
  }

  lemma {:induction false} SomeChars(items: seq<Item>)
    requires forall x | x in items :: x.text != ""
    ensures CharsOf(items) == 0 <==> items == []
  {
    if items != [] {
      assert items[|items| - 1] in items;
    }
  }

  /** What comes up in a run: an exception in a batch it reaches, and something narrated in that batch or before. */
  ghost predicate LosesSome(batches: seq<seq<Item>>, plan: Plan) {
    Excepted(plan, |batches|) && Productive(batches, plan, |batches|)
  }

  lemma {:induction false} RunLosesIff(d: Disk, nodes: seq<Node>, sha: string -> string, plan: Plan, concurrency: nat)
    requires 0 < concurrency && DistinctNodes(nodes) && Speakable(nodes)
    ensures UnpaidIn(Run(d, nodes, sha, plan, concurrency)) != 0
      <==> LosesSome(BatchesOf(d, nodes, sha, concurrency), plan)
  {
    var p, batches := Run(d, nodes, sha, plan, concurrency), BatchesOf(d, nodes, sha, concurrency);
    var pruned := AfterPrune(d, NodeIdsOf(nodes));
    PendingAfterPrune(nodes, d, NodeIdsOf(nodes), sha);
    assert p == AfterBatches(pruned, batches, plan, |batches|);
    AbortedIff(pruned, batches, plan, |batches|);
    RunProductiveIff(d, nodes, sha, plan, concurrency);
    RunFacts(d, nodes, sha, plan, concurrency);
    PendingTexts(nodes, pruned.rows, sha);
    SomeChars(p.done);
  }

  /**
    Each run bills all its own work exactly when no run of the series meets an exception in a batch it reaches with
    something of that batch or an earlier one narrated.
   */
  lemma {:induction false} NothingUnpaidIff(
    d: Disk, nodes: seq<Node>, sha: string -> string, plans: seq<Plan>, concurrency: nat)
    requires 0 < concurrency && DistinctNodes(nodes) && Speakable(nodes)
    ensures UnpaidChars(d, nodes, sha, plans, concurrency) == 0 <==>
      forall r | 0 <= r < |plans| ::
        !LosesSome(BatchesOf(AfterRuns(d, nodes, sha, plans[..r], concurrency), nodes, sha, concurrency), plans[r])
  {
    UnpaidIff(d, nodes, sha, plans, concurrency);
    forall r | 0 <= r < |plans|
      ensures UnpaidIn(NthRun(d, nodes, sha, plans, concurrency, r)) == 0 <==>
        !LosesSome(BatchesOf(AfterRuns(d, nodes, sha, plans[..r], concurrency), nodes, sha, concurrency), plans[r])
    {
      RunLosesIff(AfterRuns(d, nodes, sha, plans[..r], concurrency), nodes, sha, plans[r], concurrency);
    }
  }

  /** A character's price in ledger units. */
  function UnitsPerChar(rate: real, status: string): real {
    rate / 1000000.0 * B.Multiplier(status) * 10000.0
  }

  lemma Rearranged(chars: real, rate: real, multiplier: real)
    ensures chars / 1000000.0 * rate * multiplier * 10000.0 == chars * (rate / 1000000.0 * multiplier * 10000.0)
  {
    assert chars / 1000000.0 * rate == chars * (rate / 1000000.0);
  }

  lemma RoundSame(x: real, y: real)
    requires x == y
    ensures B.Round(x) == B.Round(y)
  {
  }

  lemma UnitsOfOne(chars: nat, rate: real, status: string)
    requires status != B.PREMIUM
    ensures UnitsFor(chars, rate, status) == B.UnitsOf(chars, UnitsPerChar(rate, status))
  {
    var multiplier := B.Multiplier(status);
    var dollars := CostOf(chars, rate) * multiplier;
    assert UnitsFor(chars, rate, status) == B.RoundUnits(dollars) == B.Round(dollars * 10000.0);
    Rearranged(chars as real, rate, multiplier);
    RoundSame(dollars * 10000.0, chars as real * UnitsPerChar(rate, status));
  }

  /** Every run is priced by the character. */
  ghost predicate PricedAt(rate: real, status: string, unitsPerChar: real) {
    forall chars: nat :: UnitsFor(chars, rate, status) == B.UnitsOf(chars, unitsPerChar)
  }

  lemma AllPriced(rate: real, status: string)
    requires status != B.PREMIUM
    ensures PricedAt(rate, status, UnitsPerChar(rate, status))
  {
    forall chars: nat ensures UnitsFor(chars, rate, status) == B.UnitsOf(chars, UnitsPerChar(rate, status)) {
      UnitsOfOne(chars, rate, status);
    }
  }

  lemma FirstRounding(chars: nat, rest: seq<nat>, unitsPerChar: real)
    ensures B.ChargedSeparately(B.CostsOf([chars] + rest, unitsPerChar))
            == B.UnitsOf(chars, unitsPerChar) + B.ChargedSeparately(B.CostsOf(rest, unitsPerChar))
  {
    var costs := B.CostsOf([chars] + rest, unitsPerChar);
    assert ([chars] + rest)[1..] == rest;
    assert costs[1..] == B.CostsOf(rest, unitsPerChar);
  }

  lemma {:induction false} UnitsAreSeparateRoundings(slices: seq<Slice>, rate: real, status: string, unitsPerChar: real)
    requires PricedAt(rate, status, unitsPerChar)
    ensures UnitsForAll(slices, rate, status) == B.ChargedSeparately(B.CostsOf(CharsIn(slices), unitsPerChar))
  {
    if slices != [] {
      UnitsAreSeparateRoundings(slices[1..], rate, status, unitsPerChar);
      FirstRounding(slices[0].chars, CharsIn(slices[1..]), unitsPerChar);
    }
  }

  /** What these runs together debit, less what one run over so many characters would. */
  function Moved(slices: seq<Slice>, chars: nat, rate: real, status: string): int {
    UnitsForAll(slices, rate, status) - UnitsFor(chars, rate, status)
  }

  /** At most half a unit for each run, and half a unit more; nothing at the premium tier. */
  predicate WithinBound(moved: int, runs: nat, status: string) {
    if status == B.PREMIUM then moved == 0 else -(runs + 1) <= 2 * moved <= runs + 1
  }

  lemma SlicesCostBound(slices: seq<Slice>, chars: nat, runs: nat, rate: real, status: string)
    requires chars == B.CharsOf(CharsIn(slices)) && runs == |CharsIn(slices)|
    ensures WithinBound(Moved(slices, chars, rate, status), runs, status)
  {
    if status == B.PREMIUM {
      PremiumPaysNothing(slices, rate);
    } else {
      var unitsPerChar := UnitsPerChar(rate, status);
      AllPriced(rate, status);
      UnitsAreSeparateRoundings(slices, rate, status, unitsPerChar);
      PricedOnce(chars, rate, status, unitsPerChar);
      B.SplitCostBound(CharsIn(slices), unitsPerChar);
    }
  }

  lemma PricedOnce(chars: nat, rate: real, status: string, unitsPerChar: real)
    requires PricedAt(rate, status, unitsPerChar)
    ensures UnitsFor(chars, rate, status) == B.UnitsOf(chars, unitsPerChar)
  {
  }

  /** The runs together debit what one run over their characters, and over so many they were not charged for, would. */
  predicate CostTheSame(slices: seq<Slice>, unpaid: nat, rate: real, status: string) {
    UnitsForAll(slices, rate, status) == UnitsFor(B.CharsOf(CharsIn(slices)) + unpaid, rate, status)
  }

  /**
    What k runs debit differs from what one run over the characters they are charged for would debit by at most
    (k + 1) / 2 units; at the premium tier neither debits anything.
   */
  lemma ChainCostBound(
    d: Disk, nodes: seq<Node>, sha: string -> string, plans: seq<Plan>, concurrency: nat, rowIds: seq<string>,
    paid: nat, rate: real, status: string)
    requires 0 < concurrency && |rowIds| == |plans|
    requires paid + UnpaidChars(d, nodes, sha, plans, concurrency)
             == CharsOf(NarratedInAll(d, nodes, sha, plans, concurrency))
    ensures WithinBound(
      Moved(SlicesOf(d, nodes, sha, plans, concurrency, rowIds), paid, rate, status), |plans|, status)
  {
    SlicesAddUp(d, nodes, sha, plans, concurrency, rowIds);
    SlicesCostBound(SlicesOf(d, nodes, sha, plans, concurrency, rowIds), paid, |plans|, rate, status);
  }

  /** The rounding error the runs accumulate, less the price of the characters not charged for, in units. */
  function RunsError(slices: seq<Slice>, unpaid: nat, rate: real, status: string): real {
    B.NetError(CharsIn(slices), unpaid, UnitsPerChar(rate, status))
  }

  lemma {:induction false} SameAtPrice(
    slices: seq<Slice>, unpaid: nat, rate: real, status: string, unitsPerChar: real)
    requires PricedAt(rate, status, unitsPerChar)
    ensures CostTheSame(slices, unpaid, rate, status)
      <==> B.ErrorOfOneRounding(B.NetError(CharsIn(slices), unpaid, unitsPerChar), unitsPerChar)
  {
    UnitsAreSeparateRoundings(slices, rate, status, unitsPerChar);
    PricedOnce(B.CharsOf(CharsIn(slices)) + unpaid, rate, status, unitsPerChar);
    B.CostsSameIff(CharsIn(slices), unpaid, unitsPerChar);
  }

  lemma {:induction false} CostTheSameIff(slices: seq<Slice>, unpaid: nat, rate: real, status: string)
    ensures CostTheSame(slices, unpaid, rate, status) <==>
      || status == B.PREMIUM
      || B.ErrorOfOneRounding(RunsError(slices, unpaid, rate, status), UnitsPerChar(rate, status))
  {
    if status == B.PREMIUM {
      PremiumPaysNothing(slices, rate);
    } else {
      AllPriced(rate, status);
      SameAtPrice(slices, unpaid, rate, status, UnitsPerChar(rate, status));
    }
  }

  lemma {:induction false} CostOfAll(slices: seq<Slice>, unpaid: nat, all: nat, rate: real, status: string)
    requires B.CharsOf(CharsIn(slices)) + unpaid == all
    ensures UnitsForAll(slices, rate, status) == UnitsFor(all, rate, status)
      <==> CostTheSame(slices, unpaid, rate, status)
  {
  }

  /**
    A book split across runs costs exactly the same as one narrated in a single run, exactly when nothing is charged at
    all or the runs' rounding errors, less the price of what aborted runs were not charged for, are what one rounding
    can be off by.
   */
  lemma {:induction false} ChainCostsTheSameIff(
    d: Disk, nodes: seq<Node>, sha: string -> string, plans: seq<Plan>, concurrency: nat, rowIds: seq<string>,
    rate: real, status: string)
    requires 0 < concurrency && |rowIds| == |plans|
    ensures var slices := SlicesOf(d, nodes, sha, plans, concurrency, rowIds);
      var narrated := CharsOf(NarratedInAll(d, nodes, sha, plans, concurrency));
      var unpaid := UnpaidChars(d, nodes, sha, plans, concurrency);
      UnitsForAll(slices, rate, status) == UnitsFor(narrated, rate, status) <==>
        || status == B.PREMIUM
        || B.ErrorOfOneRounding(RunsError(slices, unpaid, rate, status), UnitsPerChar(rate, status))
  {
    var slices := SlicesOf(d, nodes, sha, plans, concurrency, rowIds);
    var unpaid := UnpaidChars(d, nodes, sha, plans, concurrency);
    SlicesAddUp(d, nodes, sha, plans, concurrency, rowIds);
    CostOfAll(slices, unpaid, CharsOf(NarratedInAll(d, nodes, sha, plans, concurrency)), rate, status);
    CostTheSameIff(slices, unpaid, rate, status);
  }

  /**
    At the default rate and the budget tier, two runs of 100 characters debit four units, one run of 200 debits three.
   */
  lemma {:induction false} SplitCostsDiffer()
    ensures var slices := [Slice(100, "r1"), Slice(100, "r2")];
      && UnitsForAll(slices, 1.0, "budget") == 4
      && UnitsFor(B.CharsOf(CharsIn(slices)), 1.0, "budget") == 3
      && !CostTheSame(slices, 0, 1.0, "budget")
  {
    var slices := [Slice(100, "r1"), Slice(100, "r2")];
    assert slices[1..] == [slices[1]] && [slices[1]][1..] == [];
    assert CharsIn([slices[1]]) == [100] && CharsIn(slices) == [100, 100];
    assert [100, 100][1..] == [100] && [100][1..] == [];
    assert B.CharsOf([100]) == 100 && B.CharsOf([100, 100]) == 200;
    BudgetUnits(100, 1.5);
    BudgetUnits(200, 3.0);
    assert B.Round(1.5) == 2 && B.Round(3.0) == 3;
    assert UnitsForAll([slices[1]], 1.0, "budget") == 2;
  }

  // An exception after the last node.

  /** Everything is narrated, and then the run dies; or nothing is. */
  function DyingPlan(bytes: string): Plan {
    k => Abort(map["n1" := bytes], 1)
  }

  function IdlePlan(): Plan {
    k => Narrate(map[])
  }

  function OneNode(text: string): seq<Node> {
    [Node("n1", text)]
  }

  lemma OnePending(text: string, rows: map<string, AudioRow>, sha: string -> string)
    ensures Pending(OneNode(text), rows, sha) == StaleItem(Node("n1", text), rows, sha)
  {
    assert OneNode(text)[..0] == [];
  }

  lemma OneBatch(item: Item, concurrency: nat)
    requires 0 < concurrency
    ensures Chunks([item], concurrency) == [[item]]
  {
  }

  lemma OneItem(item: Item, d: Disk, bytes: string)
    requires item.nodeId == "n1" && "n1" !in d.rows
    ensures Outstanding([item], d.rows) == [item] && Narrated([item], map["n1" := bytes]) == [item]
    ensures AfterBatch(d, [item], map["n1" := bytes]) == AfterPut(d, PutOf(item, bytes))
    ensures CharsOf([item]) == |item.text|
  {
    assert [item][..0] == [];
  }

  /** The run stores the whole book and is charged for nothing of it. */
  lemma {:induction false} DyingRun(text: string, bytes: string, sha: string -> string, concurrency: nat)
    requires 0 < concurrency
    ensures var item := Item("n1", text, sha(text));
      var p := Run(Disk(map[], map[]), OneNode(text), sha, DyingPlan(bytes), concurrency);
      && p.stop == Aborted && p.done == [item] && p.disk.rows == map["n1" := PutOf(item, "").Row()]
      && BilledChars(p) == 0 && UnpaidIn(p) == |text|
  {
    var d, item := Disk(map[], map[]), Item("n1", text, sha(text));
    var pruned := AfterPrune(d, NodeIdsOf(OneNode(text)));
    assert pruned == d;
    OnePending(text, map[], sha);
    OneBatch(item, concurrency);
    OneItem(item, d, bytes);
    var start := AfterBatches(d, [[item]], DyingPlan(bytes), 0);
    assert AfterBatches(d, [[item]], DyingPlan(bytes), 1) == AfterDecision(start, [item], DyingPlan(bytes)(0));
    assert Handled([item], DyingPlan(bytes)(0)) == [item];
  }

  /** The next run finds nothing to do, is done, and is charged for nothing either. */
  lemma {:induction false} IdleRun(text: string, d: Disk, sha: string -> string, concurrency: nat)
    requires 0 < concurrency && "n1" in d.rows && d.rows["n1"].sourceHash == sha(text)
    ensures var p := Run(d, OneNode(text), sha, IdlePlan(), concurrency);
      StatusOf(p) == Done && p.done == [] && BilledChars(p) == 0 && UnpaidIn(p) == 0
  {
    var pruned := AfterPrune(d, NodeIdsOf(OneNode(text)));
    assert Node("n1", text) in OneNode(text);
    assert "n1" in NodeIdsOf(OneNode(text));
    OnePending(text, pruned.rows, sha);
    assert Pending(OneNode(text), pruned.rows, sha) == [];
  }

  /**
    A book of one node, narrated by a run that dies after it and finished by one with nothing left to do: all of it is
    stored, none of it is charged for. With 200 characters, one run without the exception debits three units.
   */
  lemma {:induction false} DiedUnpaid(text: string, bytes: string, sha: string -> string, concurrency: nat)
    requires 0 < concurrency
    ensures var nodes, plans, d := OneNode(text), [DyingPlan(bytes), IdlePlan()], Disk(map[], map[]);
      && UnpaidChars(d, nodes, sha, plans, concurrency) == |text|
      && StatusOf(NthRun(d, nodes, sha, plans, concurrency, 1)) == Done
      && CharsIn(SlicesOf(d, nodes, sha, plans, concurrency, ["r1", "r2"])) == [0, 0]
  {
    var nodes, plans, d := OneNode(text), [DyingPlan(bytes), IdlePlan()], Disk(map[], map[]);
    assert plans[..1] == [DyingPlan(bytes)] && plans[..0] == [] && plans[..1][..0] == [];
    DyingRun(text, bytes, sha, concurrency);
    IdleRun(text, NthRun(d, nodes, sha, plans, concurrency, 0).disk, sha, concurrency);
    TwoRuns(d, nodes, sha, plans, concurrency);
    assert [Slice(0, "r1"), Slice(0, "r2")][1..] == [Slice(0, "r2")] && [Slice(0, "r2")][1..] == [];
  }

  lemma TwoRuns(d: Disk, nodes: seq<Node>, sha: string -> string, plans: seq<Plan>, concurrency: nat)
    requires 0 < concurrency && |plans| == 2
    ensures var p, q := NthRun(d, nodes, sha, plans, concurrency, 0), NthRun(d, nodes, sha, plans, concurrency, 1);
      && q == Run(p.disk, nodes, sha, plans[1], concurrency)
      && UnpaidChars(d, nodes, sha, plans, concurrency) == UnpaidIn(p) + UnpaidIn(q)
      && SlicesOf(d, nodes, sha, plans, concurrency, ["r1", "r2"])
         == [Slice(BilledChars(p), "r1"), Slice(BilledChars(q), "r2")]
  {
    var ids := ["r1", "r2"];
    var first := plans[..1];
    assert first[..0] == [] == plans[..0] && ids[..1] == ["r1"] && ids[..1][..0] == [];
    assert AfterRuns(d, nodes, sha, [], concurrency) == d;
    NthRunOfPrefix(d, nodes, sha, plans, concurrency, 1, 0);
    var p := NthRun(d, nodes, sha, first, concurrency, 0);
    assert AfterRuns(d, nodes, sha, first, concurrency) == p.disk;
    assert UnpaidChars(d, nodes, sha, first, concurrency) == UnpaidIn(p);
    assert SlicesOf(d, nodes, sha, first[..0], concurrency, ids[..1][..0]) == [];
    assert SlicesOf(d, nodes, sha, first, concurrency, ids[..1]) == [Slice(BilledChars(p), "r1")];
  }

  lemma {:induction false} DiedUnpaidCosts(text: string, bytes: string, sha: string -> string, concurrency: nat)
    requires 0 < concurrency && |text| == 200
    ensures var nodes, plans, d := OneNode(text), [DyingPlan(bytes), IdlePlan()], Disk(map[], map[]);
      UnitsForAll(SlicesOf(d, nodes, sha, plans, concurrency, ["r1", "r2"]), 1.0, "budget") == 0
    ensures UnitsFor(|text|, 1.0, "budget") == 3
  {
    var nodes, plans, d := OneNode(text), [DyingPlan(bytes), IdlePlan()], Disk(map[], map[]);
    var slices := SlicesOf(d, nodes, sha, plans, concurrency, ["r1", "r2"]);
    DiedUnpaid(text, bytes, sha, concurrency);
    NoCharsNoUnits(slices, 1.0, "budget");
    BudgetUnits(200, 3.0);
    assert B.Round(3.0) == 3;
  }

  lemma {:induction false} NoCharsNoUnits(slices: seq<Slice>, rate: real, status: string)
    requires forall n | n in CharsIn(slices) :: n == 0
    ensures UnitsForAll(slices, rate, status) == 0
  {
    if slices != [] {
      assert CharsIn(slices)[0] in CharsIn(slices);
      assert forall n | n in CharsIn(slices[1..]) :: n in CharsIn(slices);
      NothingCostsNothing(rate, status);
      NoCharsNoUnits(slices[1..], rate, status);
    }
  }

  lemma BudgetUnits(chars: nat, units: real)
    requires units == chars as real * 0.015
    ensures UnitsFor(chars, 1.0, "budget") == B.Round(units)
  {
    assert B.Multiplier("budget") == 1.5;
    assert CostOf(chars, 1.0) * 1.5 * 10000.0 == units;
  }

  lemma {:induction false} PremiumPaysNothing(slices: seq<Slice>, rate: real)
    ensures UnitsForAll(slices, rate, B.PREMIUM) == 0
  {
    if slices != [] {
      PremiumPaysNothing(slices[1..], rate);
    }
  }
}
