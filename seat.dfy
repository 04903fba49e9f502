/**
 * A seat of the venue (com.ticket.domain.Seat). Its identity is fixed; its
 * hold is a timestamp that expires lazily, its reservation is permanent.
 * Time is an explicit `now` in milliseconds and the hold duration a
 * parameter in milliseconds.
 */
module SeatDomain {
  import opened Wrappers

  const SEAT_AVAILABLE_CODE := "A "
  const SEAT_HELD_CODE := "H "
  const SEAT_RESERVED_CODE := "R "

  class Seat {
    const venueId: int
    const rowId: int
    const seatId: int
    /** when the last hold was placed on the seat, if ever */
    var holdTime: Option<int>
    var reserved: bool
    var customerReservationEmail: Option<string>

    constructor (venueId: int, rowId: int, seatId: int)
      ensures this.venueId == venueId && this.rowId == rowId && this.seatId == seatId
      ensures holdTime == None && !reserved && customerReservationEmail == None
      ensures forall now: int, duration: int :: IsAvailable(now, duration) && !IsHeld(now, duration)
    {
      this.venueId := venueId;
      this.rowId := rowId;
      this.seatId := seatId;
      holdTime := None;
      reserved := false;
      customerReservationEmail := None;
    }

    /** Held while the hold time plus the duration is not before `now`. */
    predicate IsHeld(now: int, holdDuration: int)
      reads this
    {
      match holdTime
      case None => false
      case Some(t) => !(t + holdDuration < now)
    }

    predicate IsAvailable(now: int, holdDuration: int)
      reads this
    {
      if reserved then false
      else if IsHeld(now, holdDuration) then false
      else true
    }

    predicate IsReserved()
      reads this
    {
      reserved
    }

    method PlaceHold(now: int) returns (t: int)
      modifies this`holdTime
      ensures holdTime == Some(now) && t == now
      ensures forall duration: nat :: IsHeld(now, duration) && !IsAvailable(now, duration)
    {
      holdTime := Some(now);
      t := now;
    }

    method ReserveSeat(customerEmail: string)
      modifies this`reserved, this`customerReservationEmail
      ensures reserved && customerReservationEmail == Some(customerEmail)
      ensures forall now: int, duration: int :: !IsAvailable(now, duration)
    {
      reserved := true;
      customerReservationEmail := Some(customerEmail);
    }

    /** The two-character map code: reserved wins over held, held over available. */
    function Print(now: int, holdDuration: int): (code: string)
      reads this
      ensures |code| == 2 && code[1] == ' '
      ensures code == SEAT_RESERVED_CODE <==> reserved
      ensures code == SEAT_HELD_CODE <==> !reserved && IsHeld(now, holdDuration)
      ensures code == SEAT_AVAILABLE_CODE <==> IsAvailable(now, holdDuration)
    {
      if IsReserved() then SEAT_RESERVED_CODE
      else if IsHeld(now, holdDuration) then SEAT_HELD_CODE
      else SEAT_AVAILABLE_CODE
    }
  }

  /**
   * A hold placed at t is still in force at the instant t + duration and
   * has lapsed one millisecond later, leaving the seat available unless it
   * is reserved; no state changes in between.
   */
  lemma HoldLapses(seat: Seat, t: int, duration: int)
    requires seat.holdTime == Some(t)
    ensures seat.IsHeld(t + duration, duration) && !seat.IsAvailable(t + duration, duration)
    ensures forall now :: now > t + duration ==>
      !seat.IsHeld(now, duration) && (seat.IsAvailable(now, duration) <==> !seat.reserved)
  {
  }

  /**
   * At every instant a seat is in exactly one of three states: reserved,
   * held (and not reserved), or available.
   */
  lemma SeatStates(seat: Seat, now: int, duration: int)
    ensures seat.IsAvailable(now, duration) <==> !seat.IsReserved() && !seat.IsHeld(now, duration)
    ensures (if seat.IsReserved() then 1 else 0)
          + (if !seat.IsReserved() && seat.IsHeld(now, duration) then 1 else 0)
          + (if seat.IsAvailable(now, duration) then 1 else 0) == 1
  {
  }
}
