/** What each credit transaction does, in the tables' own columns, and when it does nothing. */
module BillingTerms {
  import opened Common
  import opened Billing
  import AudioRun

  /** The tier's factor on raw cost; whatever is no tier is billed as budget. */
  function Factor(status: string): real {
    if status == "premium" then 1.0
    else if status == "solidarity" then 2.0
    else if status == "capitalist" then 5.0
    else 1.5
  }

  /** The nearest whole number of units, and of two equally near ones that away from zero. */
  predicate IsNearest(units: int, exact: real) {
    && -0.5 <= units as real - exact <= 0.5
    && (units as real - exact == 0.5 ==> exact > 0.0)
    && (units as real - exact == -0.5 ==> exact < 0.0)
  }

  lemma {:induction false} RoundIsNearest(exact: real, units: int)
    ensures IsNearest(units, exact) <==> units == Round(exact)
  {
    if exact >= 0.0 {
      var r := Round(exact);
      assert r as real <= exact + 0.5 < r as real + 1.0;
    } else {
      var r := -Round(exact);
      assert r as real <= -exact + 0.5 < r as real + 1.0;
    }
  }

  lemma FactorIsMultiplier(status: string)
    ensures Multiplier(status) == Factor(status)
  {
  }

  /**
    A charge of an existing user under a new id debits the nearest units of the cost at the tier of that moment, except
    that a premium user's balance stays; otherwise it does nothing.
   */
  lemma {:induction false} ChargeIs(s: State, user: string, amount: real, category: string, rowId: string, units: int)
    requires user in s.users ==> IsNearest(units, amount * Factor(s.users[user].status) * 10000.0)
    ensures var t := AfterCharge(s, user, amount, category, rowId);
      if user in s.users && rowId !in s.ledger then
        var a := s.users[user];
        var debits := if a.status == "premium" then a.debits else a.debits + units;
        && t.users == s.users[user := Account(a.credits, debits, a.status)]
        && t.ledger == s.ledger[
             rowId := LedgerRow(user, Debit, units, category, false, a.status, a.credits - debits)]
      else t == s
  {
    if user in s.users {
      FactorIsMultiplier(s.users[user].status);
      RoundIsNearest(amount * Factor(s.users[user].status) * 10000.0, units);
      if s.users[user].status == "premium" {
        assert s.users[user := s.users[user]] == s.users;
      }
    }
  }

  /**
    A hold is placed exactly for a user not seen as premium, for a positive cost, on a positive balance, under a new id;
    then it debits the nearest units of the cost at the tier of that moment.
   */
  lemma {:induction false} HoldIs(
    s: State, user: string, seenStatus: string, estimatedCost: real, rowId: string, units: int)
    requires user in s.users ==> IsNearest(units, estimatedCost * Factor(s.users[user].status) * 10000.0)
    ensures var t := AfterReserve(s, user, seenStatus, estimatedCost, rowId);
      if && seenStatus != "premium" && estimatedCost > 0.0 && rowId !in s.ledger
         && user in s.users && s.users[user].credits > s.users[user].debits then
        var a := s.users[user];
        && t.users == s.users[user := Account(a.credits, a.debits + units, a.status)]
        && t.ledger == s.ledger[
             rowId := LedgerRow(user, Debit, units, "tts_reservation", true, a.status, a.credits - a.debits - units)]
      else t == s
  {
    if user in s.users {
      FactorIsMultiplier(s.users[user].status);
      RoundIsNearest(estimatedCost * Factor(s.users[user].status) * 10000.0, units);
    }
  }

  /** A release gives back and deletes a hold of this user's, found by its id; otherwise it does nothing. */
  lemma {:induction false} ReleaseIs(s: State, user: string, id: string)
    ensures AfterRelease(s, user, None) == s
    ensures var t := AfterRelease(s, user, Some(id));
      if && id != "" && id != "0" && user in s.users && id in s.ledger
         && s.ledger[id].user == user && s.ledger[id].kind == Debit && s.ledger[id].reservation then
        var a := s.users[user];
        && t.users == s.users[user := Account(a.credits, a.debits - s.ledger[id].amount, a.status)]
        && t.ledger == s.ledger - {id}
      else t == s
  {
  }

  /** A top-up of an existing user under a new id: the sum is rounded, and so, separately, is the row's amount. */
  lemma {:induction false} CreditIs(
    s: State, user: string, amount: real, category: string, rowId: string, units: int, credits: int)
    requires IsNearest(units, amount * 10000.0)
    requires user in s.users ==> IsNearest(credits, s.users[user].credits as real + amount * 10000.0)
    ensures var t := AfterAddCredits(s, user, amount, category, rowId);
      if user in s.users && rowId !in s.ledger then
        var a := s.users[user];
        && t.users == s.users[user := Account(credits, a.debits, a.status)]
        && t.ledger == s.ledger[rowId := LedgerRow(user, Credit, units, category, false, "", credits - a.debits)]
      else t == s
  {
    RoundIsNearest(amount * 10000.0, units);
    if user in s.users {
      RoundIsNearest(s.users[user].credits as real + amount * 10000.0, credits);
    }
  }

  /** A dollar of raw cost, charged at each tier. */
  lemma {:induction false} ADollarAtEachTier(s: State, user: string, category: string, rowId: string)
    requires user in s.users && rowId !in s.ledger
    ensures var t := AfterCharge(s, user, 1.0, category, rowId);
      && rowId in t.ledger && user in t.users
      && t.ledger[rowId].amount ==
           (match s.users[user].status
            case "premium" => 10000
            case "budget" => 15000
            case "solidarity" => 20000
            case "capitalist" => 50000
            case _ => 15000)
      && t.users[user].debits - s.users[user].debits ==
           if s.users[user].status == "premium" then 0 else t.ledger[rowId].amount
  {
    FactorIsMultiplier(s.users[user].status);
  }

  /** A run's charge: the nearest units of its characters' price at the user's tier, as one row of category tts. */
  lemma {:induction false} RunChargeIs(
    s: State, user: string, chars: nat, rate: real, rowId: string, units: int)
    requires user in s.users && rowId !in s.ledger && 0 < chars
    requires IsNearest(units, chars as real / 1000000.0 * rate * Factor(s.users[user].status) * 10000.0)
    ensures var a := s.users[user];
      var debits := if a.status == "premium" then a.debits else a.debits + units;
      AudioRun.AfterChargeFor(s, Some(user), chars, rate, rowId) == State(
        s.users[user := Account(a.credits, debits, a.status)],
        s.ledger[rowId := LedgerRow(user, Debit, units, "tts", false, a.status, a.credits - debits)])
  {
    ChargeIs(s, user, AudioRun.CostOf(chars, rate), "tts", rowId, units);
  }
}
