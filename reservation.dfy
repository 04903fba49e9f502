/**
 * A confirmed reservation (com.ticket.domain.SeatReservation) and the
 * class-wide confirmation code it takes: "VX3529" first, and after each
 * reservation "VX" followed by the code's numeric suffix plus one.
 */
module Reservations {
  import opened Wrappers
  import opened Decimal
  import opened SeatDomain

  const CODE_PREFIX := "VX"
  const FIRST_CODE_NUMBER := 3529

  datatype SeatReservation = SeatReservation(confirmationId: string, customerEmail: string, reservedSeats: seq<Seat>)

  /** The code of the k-th reservation, counting from 0. */
  function ConfirmationCode(k: nat): (code: string)
    ensures |code| > 2 && code[..2] == CODE_PREFIX && ParseNat(code[2..]) == Some(FIRST_CODE_NUMBER + k)
    ensures |code| > 3 && code[2] != '0'
  {
    ParsePrinted(FIRST_CODE_NUMBER + k);
    CODE_PREFIX + NatToString(FIRST_CODE_NUMBER + k)
  }

  /**
   * SeatReservation.updateNextConfirmationId: the suffix after the first two
   * characters is parsed and incremented; None stands for the exception a
   * short or non-numeric code raises.
   */
  function UpdateNextConfirmationId(code: string): (next: Option<string>)
    ensures next.Some? <==> |code| > 2 && AllDigits(code[2..])
  {
    if |code| < 2 then None
    else match ParseNat(code[2..])
      case None => None
      case Some(v) => Some(CODE_PREFIX + NatToString(v + 1))
  }

  /** The class-wide state behind SeatReservation.nextConfirmationId. */
  class ConfirmationIds {
    var nextConfirmationId: string
    /** how many reservations have been constructed */
    ghost var issued: nat

    ghost predicate Valid()
      reads this
    {
      nextConfirmationId == ConfirmationCode(issued)
    }

    constructor ()
      ensures Valid() && issued == 0 && nextConfirmationId == "VX3529"
    {
      nextConfirmationId := "VX3529";
      issued := 0;
      new;
      FirstCode();
    }

    /**
     * The SeatReservation constructor: the reservation takes the current
     * code, stores the email and seats as given, and the code advances.
     */
    method NewReservation(customerEmail: string, reservedSeats: seq<Seat>) returns (reservation: SeatReservation)
      requires Valid()
      modifies this
      ensures reservation == SeatReservation(old(nextConfirmationId), customerEmail, reservedSeats)
      ensures Valid() && issued == old(issued) + 1
    {
      reservation := SeatReservation(nextConfirmationId, customerEmail, reservedSeats);
      var next := UpdateNextConfirmationId(nextConfirmationId);
      NextCode(issued);
      nextConfirmationId := next.value;
      issued := issued + 1;
    }
  }

  /** The first code is VX3529. */
  lemma FirstCode()
    ensures ConfirmationCode(0) == "VX3529"
  {
    assert NatToString(3) == "3";
    assert NatToString(35) == "35";
    assert NatToString(352) == "352";
  }

  /** Updating the k-th code gives the (k+1)-th. */
  lemma NextCode(k: nat)
    ensures UpdateNextConfirmationId(ConfirmationCode(k)) == Some(ConfirmationCode(k + 1))
  {
    var code := ConfirmationCode(k);
    assert code[2..] == NatToString(FIRST_CODE_NUMBER + k);
  }

  /** VX3529 is followed by VX3530. */
  lemma SecondCode()
    ensures UpdateNextConfirmationId("VX3529") == Some("VX3530")
  {
    FirstCode();
    NextCode(0);
    assert ConfirmationCode(1) == "VX3530" by {
      assert NatToString(3) == "3";
      assert NatToString(35) == "35";
      assert NatToString(353) == "353";
      assert NatToString(3530) == "3530";
    }
  }

  /** Reservations made one after another never share a code, and later codes are numerically larger. */
  lemma CodesDistinct(j: nat, k: nat)
    requires j < k
    ensures ConfirmationCode(j) != ConfirmationCode(k)
    ensures ParseNat(ConfirmationCode(j)[2..]).value < ParseNat(ConfirmationCode(k)[2..]).value
  {
  }
}
