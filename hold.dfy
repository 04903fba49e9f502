/**
 * A customer's hold on seats (com.ticket.domain.SeatHold). The hold id comes
 * from a counter that starts at 1111 and is advanced by every construction;
 * the seats and the expiration instant are committed once the seats are
 * found, and the venue may invalidate the hold. Times are milliseconds.
 */
module Holds {
  import opened Wrappers
  import opened Decimal
  import opened SeatDomain

  const FIRST_SEAT_HOLD_ID := 1111
  const SECONDS_SUFFIX := " seconds"

  /** The class-wide counter of hold ids (SeatHold.nextSeatHoldId). */
  class SeatHoldIds {
    var nextSeatHoldId: int

    constructor ()
      ensures nextSeatHoldId == FIRST_SEAT_HOLD_ID
    {
      nextSeatHoldId := FIRST_SEAT_HOLD_ID;
    }
  }

  class SeatHold {
    const seatHoldId: int
    const customerEmail: string
    var seatsHeld: seq<Seat>
    var holdExpiration: Option<int>
    var invalidated: bool

    /** Takes the counter's current id and advances the counter. */
    constructor (customerEmail: string, ids: SeatHoldIds)
      modifies ids
      ensures seatHoldId == old(ids.nextSeatHoldId) && ids.nextSeatHoldId == seatHoldId + 1
      ensures this.customerEmail == customerEmail
      ensures seatsHeld == [] && holdExpiration == None && !invalidated
    {
      seatHoldId := ids.nextSeatHoldId;
      this.customerEmail := customerEmail;
      seatsHeld := [];
      holdExpiration := None;
      invalidated := false;
      new;
      ids.nextSeatHoldId := ids.nextSeatHoldId + 1;
    }

    /** The seats and the instant the hold expires, once the seats are found. */
    method CommitSeatHold(seats: seq<Seat>, expiration: int)
      modifies this`seatsHeld, this`holdExpiration
      ensures seatsHeld == seats && holdExpiration == Some(expiration)
    {
      seatsHeld := seats;
      holdExpiration := Some(expiration);
    }

    method Invalidate()
      modifies this`invalidated
      ensures invalidated
    {
      invalidated := true;
    }

    predicate Committed()
      reads this
    {
      holdExpiration.Some?
    }

    /** Expired once `now` is strictly after the expiration instant. */
    predicate IsExpired(now: int)
      requires Committed()
      reads this
    {
      now > holdExpiration.value
    }

    predicate IsNotValid(now: int)
      requires Committed()
      reads this
    {
      invalidated || IsExpired(now)
    }

    /**
     * The whole seconds left, truncated: none once the expiration instant is
     * reached, otherwise the largest s with s * 1000 <= the milliseconds left.
     */
    function SecondsRemaining(now: int): (seconds: nat)
      requires Committed()
      reads this
      ensures var ms := holdExpiration.value - now;
        && (ms <= 0 ==> seconds == 0)
        && (ms > 0 ==> seconds * 1000 <= ms < seconds * 1000 + 1000)
    {
      var ms := holdExpiration.value - now;
      if ms > 0 then ms / 1000 else 0
    }

    /** The truncated seconds left as text, "<n> seconds". */
    function SecondsToExpiration(now: int): (text: string)
      requires Committed()
      reads this
      ensures |text| > |SECONDS_SUFFIX| && text[|text| - |SECONDS_SUFFIX|..] == SECONDS_SUFFIX
      ensures ParseNat(text[..|text| - |SECONDS_SUFFIX|]) == Some(SecondsRemaining(now))
      ensures |text| > |SECONDS_SUFFIX| + 1 ==> text[0] != '0'
    {
      var ms := holdExpiration.value - now;
      var text := if ms > 0 then NatToString(ms / 1000) + SECONDS_SUFFIX else "0" + SECONDS_SUFFIX;
      ParsePrinted(SecondsRemaining(now));
      assert text[..|text| - |SECONDS_SUFFIX|] == NatToString(SecondsRemaining(now));
      text
    }
  }

  /** Every expired hold shows "0 seconds". */
  lemma ExpiredShowsZero(hold: SeatHold, now: int)
    requires hold.Committed() && hold.IsExpired(now)
    ensures hold.SecondsToExpiration(now) == "0 seconds"
  {
  }

  /** 2999 milliseconds left show as "2 seconds". */
  lemma TruncatedSeconds(hold: SeatHold, now: int)
    requires hold.holdExpiration == Some(now + 2999)
    ensures hold.SecondsToExpiration(now) == "2 seconds"
  {
    assert NatToString(2) == "2";
  }

  /**
   * Expiry is for good: a hold expired at one instant is expired at every
   * later one, and so is a hold that is not valid; an invalidated hold is
   * never valid, and a hold is not yet expired at its expiration instant.
   */
  lemma ExpiryPersists(hold: SeatHold, now: int, later: int)
    requires hold.Committed() && now <= later
    ensures hold.IsExpired(now) ==> hold.IsExpired(later)
    ensures hold.IsNotValid(now) ==> hold.IsNotValid(later)
    ensures hold.invalidated ==> hold.IsNotValid(now)
    ensures !hold.IsExpired(hold.holdExpiration.value)
  {
  }
}
