/**
  The restore point of vibe conversions: VibeConversionJob writes vibe_origin.json before the first
  automatic apply and reuses it in every later round; the reject endpoint goes back to it.
 */
module VibePin {
  import opened Common
  import opened VersionHistory

  /** vibe_origin.json: absent, present without a usable restore_ts, or holding the pinned timestamp. */
  datatype OriginFile = Missing | Unreadable | Pinned(restoreTs: int)

  /** vibe_review.json. */
  datatype ReviewMarker = NoReview | Pending(restoreTs: int) | ApplyFailed

  datatype Files = Files(origin: OriginFile, review: ReviewMarker)

  /** One finished conversion whose outcome is applied: when it ran, and whether the applier succeeded. */
  datatype Round = Round(now: int, applied: bool)

  function RestoreTs(origin: OriginFile, now: int): int {
    if origin.Pinned? then origin.restoreTs else now
  }

  function AfterRound(f: Files, r: Round): Files {
    Files(
      if f.origin.Missing? then Pinned(r.now) else f.origin,
      if r.applied then Pending(RestoreTs(f.origin, r.now)) else ApplyFailed)
  }

  function AfterRounds(f: Files, rounds: seq<Round>): Files {
    if rounds == [] then f else AfterRound(AfterRounds(f, rounds[..|rounds| - 1]), rounds[|rounds| - 1])
  }

  class VibeConversion {
    var origin: OriginFile
    var review: ReviewMarker

    ghost function State(): Files
      reads this
    {
      Files(origin, review)
    }

    /** The apply section of the job. */
    method ApplyFix(now: int, applied: bool) returns (restoreTs: int)
      modifies this
      ensures State() == AfterRound(old(State()), Round(now, applied))
      ensures restoreTs == RestoreTs(old(origin), now)
    {
      restoreTs := now;
      if origin != Missing {
        if origin.Pinned? {
          restoreTs := origin.restoreTs;
        }
      } else {
        origin := Pinned(restoreTs);
      }
      review := if applied then Pending(restoreTs) else ApplyFailed;
    }

    /** "Revert to original": restore to the marker's timestamp and clear both files; any failure changes nothing. */
    method RejectReview(store: NodeStore, tx: Tx, book: string, nowMs: int) returns (success: bool)
      modifies this, store
      ensures success <==> old(review).Pending? && ActiveAt(old(store.State()), book, old(review).restoreTs - 1) != []
      ensures success ==> State() == Files(Missing, NoReview)
      ensures success ==> store.State() == AfterRestore(old(store.State()), tx, book, old(review).restoreTs)
      ensures !success ==> State() == old(State()) && store.State() == old(store.State())
    {
      if !review.Pending? {
        return false;
      }
      var restored := store.RestoreTo(tx, book, review.restoreTs, nowMs);
      if restored == None {
        return false;
      }
      review := NoReview;
      origin := Missing;
      success := true;
    }
  }

  /** The timestamp a series of rounds is pinned to: the one found, or the first round's. */
  function Pin(f: Files, rounds: seq<Round>): int
    requires rounds != []
  {
    if f.origin.Pinned? then f.origin.restoreTs else rounds[0].now
  }

  /** However many rounds follow, they all keep the first pin; only the last one decides what the marker says. */
  lemma {:induction false} RoundsKeepFirstPin(f: Files, rounds: seq<Round>)
    requires f.origin != Unreadable && rounds != []
    ensures Pin(f, rounds) == if f.origin == Missing then rounds[0].now else f.origin.restoreTs
    ensures AfterRounds(f, rounds) == Files(
      Pinned(Pin(f, rounds)),
      if rounds[|rounds| - 1].applied then Pending(Pin(f, rounds)) else ApplyFailed)
  {
    var n := |rounds| - 1;
    if n == 0 {
      assert rounds[..0] == [];
    } else {
      RoundsKeepFirstPin(f, rounds[..n]);
    }
  }

  /** An origin file that cannot be read is neither used nor replaced: every round then points at its own start. */
  lemma {:induction false} UnreadableOriginPinsNothing(f: Files, rounds: seq<Round>)
    requires f.origin == Unreadable && rounds != []
    ensures AfterRounds(f, rounds) == Files(
      Unreadable,
      if rounds[|rounds| - 1].applied then Pending(rounds[|rounds| - 1].now) else ApplyFailed)
  {
    var n := |rounds| - 1;
    if n == 0 {
      assert rounds[..0] == [];
    } else {
      UnreadableOriginPinsNothing(f, rounds[..n]);
    }
  }

  /**
    A failed apply takes an earlier round's revert off the table, since it overwrites the marker; the pin survives it,
    and the next applied round offers to go back to the same timestamp.
   */
  lemma {:induction false} FailedApplyHidesRevert(f: Files, rounds: seq<Round>, failedAt: int, now: int)
    requires f.origin != Unreadable && rounds != [] && rounds[|rounds| - 1].applied
    ensures var pin, failed := Pin(f, rounds), rounds + [Round(failedAt, false)];
      && AfterRounds(f, rounds).review == Pending(pin)
      && AfterRounds(f, failed) == Files(Pinned(pin), ApplyFailed)
      && AfterRounds(f, failed + [Round(now, true)]) == Files(Pinned(pin), Pending(pin))
  {
    var failed := rounds + [Round(failedAt, false)];
    RoundsKeepFirstPin(f, rounds);
    RoundsKeepFirstPin(f, failed);
    RoundsKeepFirstPin(f, failed + [Round(now, true)]);
  }

  /** A revert is on offer exactly when the latest round was applied, and to which timestamp. */
  lemma {:induction false} RevertOfferedIff(f: Files, rounds: seq<Round>)
    requires rounds != []
    ensures var review, last := AfterRounds(f, rounds).review, rounds[|rounds| - 1];
      && (review.Pending? <==> last.applied)
      && (review.Pending? ==> review.restoreTs == if f.origin == Unreadable then last.now else Pin(f, rounds))
  {
    if f.origin == Unreadable {
      UnreadableOriginPinsNothing(f, rounds);
    } else {
      RoundsKeepFirstPin(f, rounds);
    }
  }

  /**
    "Revert to original" always returns to the conversion before the first round: t is the database when the pin was
    taken, events is everything that happened to it since - applies, edits, other restores.
   */
  lemma {:induction false} RevertReturnsToOriginal(
    f: Files, rounds: seq<Round>, t: Tables, events: seq<Event>, tx: Tx, book: string)
    requires f.origin != Unreadable && rounds != [] && AfterRounds(f, rounds).review.Pending?
    requires SettledBefore(t, book, Pin(f, rounds)) && Contents(t.live, book) != []
    requires EventsSpare(t, events, book, Pin(f, rounds) - 1)
    ensures var end := AfterRestore(AfterEvents(t, events), tx, book, AfterRounds(f, rounds).review.restoreTs);
      multiset(Contents(end.live, book)) == multiset(Contents(t.live, book))
  {
    RoundsKeepFirstPin(f, rounds);
    PinnedRevert(t, events, tx, book, Pin(f, rounds));
  }
}
