/**
 * The venue's ticket service (com.ticket.service.impl.VenueTicketServiceImpl):
 * a fixed grid of rows, the holds it has committed keyed by hold id and the
 * reservations keyed by confirmation code. Every operation takes the current
 * instant `now` in milliseconds; the hold duration is fixed at construction.
 */
module VenueService {
  import opened Wrappers
  import opened Decimal
  import opened SeatDomain
  import opened RowSearch
  import opened RowDomain
  import opened Allocation
  import opened Holds
  import opened Reservations

  const SEAT_MAP_PRINT_ERROR_MSG := "Seat map is too large to display. Only maps of 40x40 or smaller can be displayed.\n\n"
  const SEAT_MAP_TITLE := "VENUE SEAT MAP "
  const SEAT_MAP_LEGEND := "A = Available, H = Held, R = Reserved "
  const SEAT_MAP_HEADER := SEAT_MAP_TITLE + "\n\n" + SEAT_MAP_LEGEND + "\n\n"
  const MAX_PRINTABLE := 40

  /** The rows' lines, each followed by a newline. */
  function RowLines(rowCodes: seq<seq<string>>): string {
    if rowCodes == [] then ""
    else RowLines(rowCodes[..|rowCodes| - 1]) + RowLayout(rowCodes[|rowCodes| - 1]) + "\n"
  }

  lemma RowLinesStep(rowCodes: seq<seq<string>>, r: nat)
    requires r < |rowCodes|
    ensures RowLines(rowCodes[..r + 1]) == RowLines(rowCodes[..r]) + RowLayout(rowCodes[r]) + "\n"
  {
    assert rowCodes[..r + 1][..r] == rowCodes[..r];
  }

  /** The printed seat map: the header, one line per row, two blank lines. */
  function SeatMap(rowCodes: seq<seq<string>>): string {
    SEAT_MAP_HEADER + RowLines(rowCodes) + "\n\n"
  }

  function Newlines(s: string): nat {
    if s == [] then 0 else Newlines(s[..|s| - 1]) + (if s[|s| - 1] == '\n' then 1 else 0)
  }

  lemma {:induction false} NewlinesAppend(a: string, b: string)
    ensures Newlines(a + b) == Newlines(a) + Newlines(b)
    decreases |b|
  {
    if b == [] {
      assert a + b == a;
    } else {
      assert (a + b)[..|a + b| - 1] == a + b[..|b| - 1];
      NewlinesAppend(a, b[..|b| - 1]);
    }
  }

  lemma {:induction false} NoNewlines(s: string)
    requires '\n' !in s
    ensures Newlines(s) == 0
  {
    if s != [] {
      assert s[..|s| - 1] + [s[|s| - 1]] == s;
      NoNewlines(s[..|s| - 1]);
    }
  }

  /** Each row's line holds no newline of its own, so the rows give one newline each. */
  lemma {:induction false} RowLinesNewlines(rowCodes: seq<seq<string>>)
    requires forall r :: 0 <= r < |rowCodes| ==> TwoCharCodes(rowCodes[r])
    ensures Newlines(RowLines(rowCodes)) == |rowCodes|
  {
    if rowCodes != [] {
      var last := rowCodes[|rowCodes| - 1];
      RowLinesNewlines(rowCodes[..|rowCodes| - 1]);
      RowLayoutShape(last);
      NoNewlines(RowLayout(last));
      NewlinesAppend(RowLines(rowCodes[..|rowCodes| - 1]), RowLayout(last));
      NewlinesAppend(RowLines(rowCodes[..|rowCodes| - 1]) + RowLayout(last), "\n");
    }
  }

  /** The seat map has as many lines as rows, plus four for the header and two at the end. */
  lemma SeatMapNewlines(rowCodes: seq<seq<string>>)
    requires forall r :: 0 <= r < |rowCodes| ==> TwoCharCodes(rowCodes[r])
    ensures Newlines(SeatMap(rowCodes)) == |rowCodes| + 6
  {
    RowLinesNewlines(rowCodes);
    NewlinesAppend(SEAT_MAP_HEADER, RowLines(rowCodes));
    NewlinesAppend(SEAT_MAP_HEADER + RowLines(rowCodes), "\n\n");
    EndNewlines();
    HeaderNewlines();
  }

  lemma EndNewlines()
    ensures Newlines("\n\n") == 2
  {
    assert "\n\n"[..1] == "\n";
    assert "\n"[..0] == "";
  }

  lemma HeaderNewlines()
    ensures Newlines(SEAT_MAP_HEADER) == 4
  {
    var title, legend := SEAT_MAP_TITLE, SEAT_MAP_LEGEND;
    NoNewlines(title);
    NoNewlines(legend);
    EndNewlines();
    NewlinesAppend(title, "\n\n");
    NewlinesAppend(title + "\n\n", legend);
    NewlinesAppend(title + "\n\n" + legend, "\n\n");
  }

  /** Hold times after holds placed at `now` on the seats; every other seat keeps its time. */
  function WithHolds(times: map<Seat, Option<int>>, seats: seq<Seat>, now: int): map<Seat, Option<int>> {
    map s | s in times :: if s in seats then Some(now) else times[s]
  }

  lemma WithHoldsNone(times: map<Seat, Option<int>>, now: int)
    ensures WithHolds(times, [], now) == times
  {
  }

  /** Placing holds in two steps at the same instant is placing them once on both lists. */
  lemma WithHoldsAppend(times: map<Seat, Option<int>>, a: seq<Seat>, b: seq<Seat>, now: int)
    ensures WithHolds(WithHolds(times, a, now), b, now) == WithHolds(times, a + b, now)
  {
    var l, r := WithHolds(WithHolds(times, a, now), b, now), WithHolds(times, a + b, now);
    forall s | s in times
      ensures l[s] == r[s]
    {
      assert s in a + b <==> s in a || s in b;
    }
  }

  /** Java's int division and remainder, which truncate toward zero. */
  function JavaDiv(a: int, b: int): int
    requires b >= 1
  {
    if a >= 0 then a / b else -((-a) / b)
  }

  function JavaRem(a: int, b: int): int
    requires b >= 1
  {
    if a >= 0 then a % b else -((-a) % b)
  }

  /** For a positive dividend Java's quotient and remainder are the Euclidean ones; otherwise neither is positive. */
  lemma JavaDivision(a: int, b: int)
    requires b >= 1
    ensures a <= 0 ==> JavaDiv(a, b) <= 0 && JavaRem(a, b) <= 0
    ensures a > 0 ==> JavaDiv(a, b) >= 0 && 0 <= JavaRem(a, b) < b && JavaDiv(a, b) * b + JavaRem(a, b) == a
  {
    var q, r := (if a >= 0 then a else -a) / b, (if a >= 0 then a else -a) % b;
    assert q * b + r == (if a >= 0 then a else -a) && 0 <= r < b;
    assert q >= 0;
  }

  /** Java's quotient is below -1 exactly when the dividend is at most minus twice the divisor. */
  lemma JavaDivBelow(a: int, b: int)
    requires b >= 1
    ensures JavaDiv(a, b) <= -2 <==> a <= -2 * b
  {
    if a < 0 {
      var q, r := (-a) / b, (-a) % b;
      assert q * b + r == -a && 0 <= r < b && q >= 0;
      if q >= 2 {
        assert q * b >= 2 * b;
      } else {
        assert (1 - q) * b >= 0;
      }
    }
  }

  class VenueTicketService {
    const venueId: int
    const numRows: nat
    const numSeatsPerRow: nat
    /** how long a hold lasts, in milliseconds */
    const holdDuration: nat
    const rows: seq<Row>
    /** every seat of every row */
    ghost const seatSet: set<Seat>
    /** the class-wide counters of SeatHold and SeatReservation */
    const holdIds: SeatHoldIds
    const confirmationIds: ConfirmationIds
    var seatHolds: map<int, SeatHold>
    var seatReservations: map<string, SeatReservation>

    /** Row r + 1 sits at index r; seatSet holds exactly the rows' seats. */
    ghost predicate Layout() {
      && |rows| == numRows
      && (forall r :: 0 <= r < |rows| ==>
            rows[r].rowId == r + 1 && rows[r].numSeats == numSeatsPerRow && rows[r].Valid())
      && (forall r, k :: 0 <= r < |rows| && 0 <= k < |rows[r].seats| ==> rows[r].seats[k] in seatSet)
    }

    ghost predicate Valid()
      reads this, holdIds, confirmationIds, seatHolds.Values
    {
      Layout() && HoldsValid() && ReservationsValid()
    }

    /** Every stored hold sits under its id, below the next id, committed, on seats of the venue. */
    ghost predicate HoldsValid()
      reads this, holdIds, seatHolds.Values
    {
      forall id :: id in seatHolds ==>
        && seatHolds[id].seatHoldId == id && id < holdIds.nextSeatHoldId && seatHolds[id].Committed()
        && forall s :: s in seatHolds[id].seatsHeld ==> s in seatSet
    }

    /** Every stored reservation sits under its code, a code already issued. */
    ghost predicate ReservationsValid()
      reads this, confirmationIds
    {
      && confirmationIds.Valid()
      && (forall code :: code in seatReservations ==>
            && seatReservations[code].confirmationId == code
            && |code| > 2 && ParseNat(code[2..]).Some?
            && ParseNat(code[2..]).value < FIRST_CODE_NUMBER + confirmationIds.issued)
    }

    /** The availability of every seat at `now`, row by row. */
    ghost function Grid(now: int): (g: Grid)
      requires Layout()
      reads seatSet
      ensures |g| == |rows| && Shaped(g, numSeatsPerRow)
      ensures forall r :: 0 <= r < |rows| ==> g[r] == rows[r].Avail(now, holdDuration)
    {
      seq(|rows|, r requires 0 <= r < |rows| reads seatSet => rows[r].Avail(now, holdDuration))
    }

    /** When each seat of the venue last got a hold. */
    ghost function HoldTimes(): map<Seat, Option<int>>
      reads seatSet
    {
      map s | s in seatSet :: s.holdTime
    }

    /** Whether each seat of the venue is reserved, and for whom. */
    ghost function ReservationMarks(): map<Seat, (bool, Option<string>)>
      reads seatSet
    {
      map s | s in seatSet :: (s.reserved, s.customerReservationEmail)
    }

    /** The map codes of every seat at `now`, row by row. */
    ghost function MapCodes(now: int): (codes: seq<seq<string>>)
      requires Layout()
      reads seatSet
      ensures |codes| == |rows|
      ensures forall r :: 0 <= r < |rows| ==> codes[r] == rows[r].Codes(now, holdDuration)
    {
      seq(|rows|, r requires 0 <= r < |rows| reads seatSet => rows[r].Codes(now, holdDuration))
    }

    ghost function SeatAt(ref: SeatRef): Seat
      requires Layout() && ValidRef(ref)
    {
      rows[ref.rowId - 1].seats[ref.seatId - 1]
    }

    ghost predicate ValidRef(ref: SeatRef)
      requires Layout()
    {
      1 <= ref.rowId <= |rows| && 1 <= ref.seatId <= numSeatsPerRow
    }

    /** The seats are the seats the refs name, in the same order. */
    ghost predicate SeatsMatch(seats: seq<Seat>, refs: seq<SeatRef>)
      requires Layout()
    {
      |seats| == |refs| && forall k :: 0 <= k < |refs| ==> ValidRef(refs[k]) && seats[k] == SeatAt(refs[k])
    }

    /** Builds rows 1..numRows of numSeatsPerRow free seats each. */
    constructor (venueId: int, holdDuration: nat, numSeatsPerRow: nat, numRows: nat,
                 holdIds: SeatHoldIds, confirmationIds: ConfirmationIds)
      requires confirmationIds.Valid()
      ensures Valid() && seatHolds == map[] && seatReservations == map[]
      ensures this.venueId == venueId && this.holdDuration == holdDuration
      ensures this.numSeatsPerRow == numSeatsPerRow && this.numRows == numRows
      ensures this.holdIds == holdIds && this.confirmationIds == confirmationIds
      ensures forall r, k :: 0 <= r < |rows| && 0 <= k < |rows[r].seats| ==>
        fresh(rows[r].seats[k]) && rows[r].seats[k].holdTime == None && !rows[r].seats[k].reserved
    {
      var rs: seq<Row> := [];
      ghost var all: set<Seat> := {};
      var r := 1;
      while r <= numRows
        invariant 1 <= r <= numRows + 1 && |rs| == r - 1
        invariant forall j :: 0 <= j < |rs| ==>
          rs[j].rowId == j + 1 && rs[j].numSeats == numSeatsPerRow && rs[j].Valid()
        invariant forall j, k :: 0 <= j < |rs| && 0 <= k < |rs[j].seats| ==>
          rs[j].seats[k] in all && fresh(rs[j].seats[k]) && rs[j].seats[k].holdTime == None && !rs[j].seats[k].reserved
      {
        var row := new Row(venueId, r, numSeatsPerRow);
        rs := rs + [row];
        all := all + set k | 0 <= k < |row.seats| :: row.seats[k];
        r := r + 1;
      }
      this.venueId := venueId;
      this.holdDuration := holdDuration;
      this.numSeatsPerRow := numSeatsPerRow;
      this.numRows := numRows;
      rows := rs;
      seatSet := all;
      this.holdIds := holdIds;
      this.confirmationIds := confirmationIds;
      seatHolds := map[];
      seatReservations := map[];
    }

    /** The number of seats available at `now`, summed over the rows. */
    method NumSeatsAvailable(now: int) returns (seatsAvailableInVenue: nat)
      requires Layout()
      ensures seatsAvailableInVenue == TotalCount(Grid(now))
    {
      ghost var g := Grid(now);
      seatsAvailableInVenue := 0;
      for r := 0 to |rows|
        invariant seatsAvailableInVenue == TotalCount(g[..r])
      {
        var inRow := rows[r].NumSeatsAvailable(now, holdDuration);
        TotalCountPrefix(g, r);
        seatsAvailableInVenue := seatsAvailableInVenue + inRow;
      }
      assert g[..|rows|] == g;
    }

    /**
     * The private holdSeats: rows are tried in order until one holds seats;
     * the result is HoldInRows on the availability before the call, and
     * exactly those seats become held.
     */
    method HoldSeats(seatsRequested: int, now: int) returns (heldSeats: seq<Seat>, ghost got: seq<SeatRef>)
      requires Layout() && seatsRequested >= 1
      modifies seatSet
      ensures got == HoldInRows(old(Grid(now)), seatsRequested, 0)
      ensures Grid(now) == MarkRefs(old(Grid(now)), got)
      ensures SeatsMatch(heldSeats, got)
      ensures HoldTimes() == WithHolds(old(HoldTimes()), heldSeats, now)
      ensures ReservationMarks() == old(ReservationMarks())
    {
      ghost var g0, times0, marks0 := Grid(now), HoldTimes(), ReservationMarks();
      WithHoldsNone(times0, now);
      heldSeats := [];
      got := [];
      var i := 0;
      while i < |rows| && heldSeats == []
        invariant 0 <= i <= |rows|
        invariant HoldTimes() == WithHolds(times0, heldSeats, now) && ReservationMarks() == marks0
        invariant heldSeats == [] ==> got == [] && Grid(now) == g0 && HoldInRows(g0, seatsRequested, i) == HoldInRows(g0, seatsRequested, 0)
        invariant heldSeats != [] ==> got == HoldInRows(g0, seatsRequested, 0) && Grid(now) == MarkRefs(g0, got) && SeatsMatch(heldSeats, got)
        decreases |rows| - i
      {
        heldSeats, got := HoldInRow(i, seatsRequested, now);
        HoldInRowsStep(g0, seatsRequested, i, got);
        if heldSeats == [] {
          MarkRefsNone(g0);
        }
        i := i + 1;
      }
      if heldSeats == [] {
        MarkRefsNone(g0);
      }
    }

    /** rows[i].holdSeats, seen on the whole grid. */
    method HoldInRow(i: int, seatsRequested: int, now: int) returns (heldSeats: seq<Seat>, ghost got: seq<SeatRef>)
      requires Layout() && 0 <= i < |rows| && seatsRequested >= 1
      modifies seatSet
      ensures got == RowRefs(i + 1, BestSeats(old(Grid(now))[i], seatsRequested))
      ensures Grid(now) == MarkRefs(old(Grid(now)), got)
      ensures SeatsMatch(heldSeats, got) && (heldSeats == [] <==> got == [])
      ensures HoldTimes() == WithHolds(old(HoldTimes()), heldSeats, now)
      ensures ReservationMarks() == old(ReservationMarks())
    {
      ghost var g0, times0, marks0 := Grid(now), HoldTimes(), ReservationMarks();
      ghost var ps := BestSeats(g0[i], seatsRequested);
      BestSeatsShape(g0[i], seatsRequested);
      OtherRowsSeats(i);
      heldSeats := rows[i].HoldSeats(seatsRequested, now, holdDuration);
      RowHoldTimes(i, ps, heldSeats, now, times0, marks0);
      assert forall j :: 0 <= j < |rows| && j != i ==> rows[j].Avail(now, holdDuration) == g0[j];
      got := RowRefs(i + 1, ps);
      GridAfterRow(g0, i, ps, now);
      RowSeatsMatch(i, ps, heldSeats);
    }

    /**
     * Row i placing holds on its seats numbered ps, as Row.HoldsPlacedOn says,
     * with every other seat as in times0 and marks0, gives the venue's hold
     * times times0 with holds placed on those seats, and marks0 unchanged.
     */
    lemma RowHoldTimes(i: int, ps: seq<int>, heldSeats: seq<Seat>, now: int,
                       times0: map<Seat, Option<int>>, marks0: map<Seat, (bool, Option<string>)>)
      requires Layout() && 0 <= i < |rows| && rows[i].SeatsNumbered(heldSeats, ps)
      requires times0.Keys == seatSet && marks0.Keys == seatSet
      requires forall k :: 0 <= k < |rows[i].seats| ==>
        && rows[i].seats[k].holdTime == (if k + 1 in ps then Some(now) else times0[rows[i].seats[k]])
        && (rows[i].seats[k].reserved, rows[i].seats[k].customerReservationEmail) == marks0[rows[i].seats[k]]
      requires forall s :: s in seatSet && s !in rows[i].seats ==>
        s.holdTime == times0[s] && (s.reserved, s.customerReservationEmail) == marks0[s]
      ensures HoldTimes() == WithHolds(times0, heldSeats, now) && ReservationMarks() == marks0
    {
      var row := rows[i];
      forall s | s in seatSet
        ensures s.holdTime == if s in heldSeats then Some(now) else times0[s]
        ensures (s.reserved, s.customerReservationEmail) == marks0[s]
      {
        if s in row.seats {
          var m :| 0 <= m < |row.seats| && row.seats[m] == s;
          row.NumberedSeat(heldSeats, ps, m);
        }
      }
    }

    /** Seats ps of row i + 1, picked out of that row, are the seats its refs name. */
    lemma RowSeatsMatch(i: int, ps: seq<int>, heldSeats: seq<Seat>)
      requires Layout() && 0 <= i < |rows| && rows[i].SeatsNumbered(heldSeats, ps)
      ensures SeatsMatch(heldSeats, RowRefs(i + 1, ps))
    {
      var got := RowRefs(i + 1, ps);
      forall k | 0 <= k < |got|
        ensures ValidRef(got[k]) && heldSeats[k] == SeatAt(got[k])
      {
        assert got[k] == SeatRef(i + 1, ps[k]);
      }
    }

    /**
     * findAndHoldSeats: a request larger than the available seats gets no
     * hold and changes nothing; otherwise a hold takes the next hold id and
     * ends as FindAndHold says on the availability before the call. A held
     * outcome is committed with its seats, expires holdDuration after `now`
     * and is stored under its fresh id.
     */
    method FindAndHoldSeats(numSeatsRequested: int, customerEmail: string, now: int)
      returns (seatHold: SeatHold?, ghost outcome: Outcome)
      requires Valid()
      modifies this`seatHolds, seatSet, holdIds
      ensures Valid()
      ensures outcome == FindAndHold(old(Grid(now)), numSeatsRequested, numSeatsPerRow)
      ensures ReservationMarks() == old(ReservationMarks())
      ensures outcome.Insufficient? ==>
        && seatHold == null && unchanged(seatSet) && Grid(now) == old(Grid(now)) && seatHolds == old(seatHolds)
        && holdIds.nextSeatHoldId == old(holdIds.nextSeatHoldId)
      ensures outcome.Rejected? ==>
        && seatHold == null && unchanged(seatSet) && Grid(now) == old(Grid(now)) && seatHolds == old(seatHolds)
        && holdIds.nextSeatHoldId == old(holdIds.nextSeatHoldId) + 1
      ensures outcome.Unsatisfiable? ==>
        && seatHold == null && Grid(now) == outcome.grid && seatHolds == old(seatHolds)
        && holdIds.nextSeatHoldId == old(holdIds.nextSeatHoldId) + 1
      ensures outcome.Held? ==>
        && seatHold != null && fresh(seatHold) && Grid(now) == outcome.grid
        && SeatsMatch(seatHold.seatsHeld, outcome.seats)
        && seatHold.customerEmail == customerEmail && !seatHold.invalidated
        && seatHold.holdExpiration.Some? && seatHold.holdExpiration.value == now + holdDuration
        && seatHold.seatHoldId == old(holdIds.nextSeatHoldId) && seatHold.seatHoldId !in old(seatHolds)
        && holdIds.nextSeatHoldId == seatHold.seatHoldId + 1
        && seatHolds == old(seatHolds)[seatHold.seatHoldId := seatHold]
        && HoldTimes() == WithHolds(old(HoldTimes()), seatHold.seatsHeld, now)
    {
      var available := NumSeatsAvailable(now);
      if numSeatsRequested > available {
        return null, Insufficient;
      }
      if numSeatsRequested < 0 {
        // the hold is created, and its id taken, before the list sized by the request is
        var _ := IssueHold(customerEmail, now);
        return null, Rejected;
      }
      ghost var heldSeats, heldRefs;
      seatHold, heldSeats, heldRefs := NewSeatHold(numSeatsRequested, customerEmail, now);
      outcome := if seatHold != null then Held(Grid(now), heldRefs) else Unsatisfiable(Grid(now));
    }

    /**
     * findAndHoldSeats once the request fits the available seats: the new
     * hold takes the next id, the seats are held as Run says, and the hold
     * is invalidated (none met) or committed and stored (met).
     */
    method NewSeatHold(numSeatsRequested: int, customerEmail: string, now: int)
      returns (seatHold: SeatHold?, ghost heldSeats: seq<Seat>, ghost heldRefs: seq<SeatRef>)
      requires Valid() && 0 <= numSeatsRequested <= TotalCount(Grid(now))
      modifies this`seatHolds, seatSet, holdIds
      ensures Valid()
      ensures FindAndHold(old(Grid(now)), numSeatsRequested, numSeatsPerRow) ==
        if seatHold != null then Held(Grid(now), heldRefs) else Unsatisfiable(Grid(now))
      ensures holdIds.nextSeatHoldId == old(holdIds.nextSeatHoldId) + 1
      ensures seatHold == null ==> seatHolds == old(seatHolds)
      ensures seatHold != null ==> fresh(seatHold)
      ensures seatHold != null ==> SeatsMatch(seatHold.seatsHeld, heldRefs)
      ensures seatHold != null ==> seatHold.customerEmail == customerEmail && !seatHold.invalidated
      ensures seatHold != null ==> seatHold.holdExpiration.Some? && seatHold.holdExpiration.value == now + holdDuration
      ensures seatHold != null ==> seatHold.seatHoldId == old(holdIds.nextSeatHoldId) && seatHold.seatHoldId !in old(seatHolds)
      ensures seatHold != null ==> seatHolds == old(seatHolds)[seatHold.seatHoldId := seatHold]
      ensures seatHold != null ==> seatHold.seatsHeld == heldSeats
      ensures HoldTimes() == WithHolds(old(HoldTimes()), heldSeats, now)
      ensures ReservationMarks() == old(ReservationMarks())
    {
      var hold := IssueHold(customerEmail, now);
      var seats, met;
      seats, heldRefs, met := AllocateSeats(numSeatsRequested, now);
      heldSeats := seats;
      if !met {
        DiscardHold(hold, now);
        return null, heldSeats, heldRefs;
      }
      StoreHold(hold, seats, heldRefs, now + holdDuration, now);
      seatHold := hold;
    }

    /** Where no seat changed, neither did the grid, the hold times or the reservations. */
    twostate lemma SeatsKept(now: int)
      requires Layout() && unchanged(seatSet)
      ensures Grid(now) == old(Grid(now))
      ensures HoldTimes() == old(HoldTimes()) && ReservationMarks() == old(ReservationMarks())
    {
    }

    /** A new SeatHold for the customer, taking the next hold id; nothing else changes. */
    method IssueHold(customerEmail: string, now: int) returns (seatHold: SeatHold)
      requires Valid()
      modifies holdIds
      ensures Valid() && Grid(now) == old(Grid(now)) && unchanged(seatSet)
      ensures HoldTimes() == old(HoldTimes()) && ReservationMarks() == old(ReservationMarks())
      ensures fresh(seatHold) && seatHold.customerEmail == customerEmail
      ensures seatHold.seatsHeld == [] && seatHold.holdExpiration == None && !seatHold.invalidated
      ensures seatHold.seatHoldId == old(holdIds.nextSeatHoldId) && holdIds.nextSeatHoldId == seatHold.seatHoldId + 1
      ensures seatHold.seatHoldId !in seatHolds && seatHolds == old(seatHolds)
    {
      seatHold := new SeatHold(customerEmail, holdIds);
      SeatsKept(now);
    }

    /** The hold of a request that cannot be met is invalidated and never stored. */
    method DiscardHold(seatHold: SeatHold, now: int)
      requires Valid() && seatHold.seatHoldId !in seatHolds
      modifies seatHold`invalidated
      ensures Valid() && Grid(now) == old(Grid(now)) && unchanged(seatSet) && seatHold.invalidated
      ensures HoldTimes() == old(HoldTimes()) && ReservationMarks() == old(ReservationMarks())
      ensures seatHolds == old(seatHolds) && holdIds.nextSeatHoldId == old(holdIds.nextSeatHoldId)
    {
      forall id | id in seatHolds
        ensures seatHolds[id] != seatHold
      {
        assert seatHolds[id].seatHoldId == id;
      }
      seatHold.Invalidate();
      SeatsKept(now);
    }

    /** Commits the hold with its seats and expiration and stores it under its id. */
    method StoreHold(seatHold: SeatHold, heldSeats: seq<Seat>, ghost heldRefs: seq<SeatRef>, expiration: int, now: int)
      requires Valid() && SeatsMatch(heldSeats, heldRefs)
      requires seatHold.seatHoldId < holdIds.nextSeatHoldId && seatHold.seatHoldId !in seatHolds
      modifies seatHold`seatsHeld, seatHold`holdExpiration, this`seatHolds
      ensures Valid() && Grid(now) == old(Grid(now)) && unchanged(seatSet)
      ensures HoldTimes() == old(HoldTimes()) && ReservationMarks() == old(ReservationMarks())
      ensures seatHold.seatsHeld == heldSeats && seatHold.holdExpiration == Some(expiration)
      ensures seatHold.invalidated == old(seatHold.invalidated)
      ensures seatHolds == old(seatHolds)[seatHold.seatHoldId := seatHold]
      ensures holdIds.nextSeatHoldId == old(holdIds.nextSeatHoldId)
    {
      forall id | id in seatHolds
        ensures seatHolds[id] != seatHold
      {
        assert seatHolds[id].seatHoldId == id;
      }
      seatHold.CommitSeatHold(heldSeats, expiration);
      SeatsInVenue(heldSeats, heldRefs);
      seatHolds := seatHolds[seatHold.seatHoldId := seatHold];
      SeatsKept(now);
    }

    /**
     * The seat search of findAndHoldSeats for a hold not yet stored: only
     * seats change, so the venue stays valid.
     */
    method AllocateSeats(numSeatsRequested: int, now: int)
      returns (heldSeats: seq<Seat>, ghost heldRefs: seq<SeatRef>, met: bool)
      requires Valid() && 0 <= numSeatsRequested <= TotalCount(Grid(now))
      modifies seatSet
      ensures Valid()
      ensures SeatsMatch(heldSeats, heldRefs)
      ensures FindAndHold(old(Grid(now)), numSeatsRequested, numSeatsPerRow) ==
        if met then Held(Grid(now), heldRefs) else Unsatisfiable(Grid(now))
      ensures HoldTimes() == WithHolds(old(HoldTimes()), heldSeats, now)
      ensures ReservationMarks() == old(ReservationMarks())
    {
      heldSeats, heldRefs, met := SearchSeats(numSeatsRequested, now);
    }

    /**
     * The initial sub-requests of findAndHoldSeats, then the passes and
     * halvings of HoldRequests: the outcome is FindAndHold on the grid before.
     */
    method SearchSeats(numSeatsRequested: int, now: int)
      returns (heldSeats: seq<Seat>, ghost heldRefs: seq<SeatRef>, met: bool)
      requires Layout() && 0 <= numSeatsRequested <= TotalCount(Grid(now))
      modifies seatSet
      ensures SeatsMatch(heldSeats, heldRefs)
      ensures FindAndHold(old(Grid(now)), numSeatsRequested, numSeatsPerRow) ==
        if met then Held(Grid(now), heldRefs) else Unsatisfiable(Grid(now))
      ensures HoldTimes() == WithHolds(old(HoldTimes()), heldSeats, now)
      ensures ReservationMarks() == old(ReservationMarks())
    {
      if numSeatsRequested >= 1 {
        FindAndHoldRuns(Grid(now), numSeatsRequested, numSeatsPerRow);
      }
      var seatRequests := InitialSeatRequests(numSeatsRequested);
      heldSeats, heldRefs, met := HoldRequests(numSeatsRequested, seatRequests, now);
    }

    /** A request that fits one row stays whole; a larger one is divided into complete rows. */
    method InitialSeatRequests(numSeatsRequested: int) returns (seatRequests: seq<int>)
      requires numSeatsRequested >= 1 ==> numSeatsPerRow >= 1
      ensures numSeatsRequested >= 1 ==> seatRequests == InitialRequests(numSeatsRequested, numSeatsPerRow)
      ensures numSeatsRequested <= 0 ==> seatRequests == [numSeatsRequested]
    {
      seatRequests := [];
      if numSeatsRequested > numSeatsPerRow {
        var divided := DivideSeatRequestsIntoCompleteRows(numSeatsRequested);
        seatRequests := divided.value;
      } else {
        seatRequests := seatRequests + [numSeatsRequested];
      }
    }

    /**
     * The while-loop of findAndHoldSeats: passes over the pending
     * sub-requests, each followed by halving the unmet ones, until
     * numSeatsRequested seats are held; met is false where a sub-request
     * could not be halved. The outcome is Run on the availability before.
     */
    method HoldRequests(numSeatsRequested: int, seatRequests: seq<int>, now: int)
      returns (heldSeats: seq<Seat>, ghost heldRefs: seq<SeatRef>, met: bool)
      requires Layout()
      requires numSeatsRequested >= 1 ==> Sum(seatRequests) == numSeatsRequested && Positive(seatRequests)
      modifies seatSet
      ensures SeatsMatch(heldSeats, heldRefs)
      ensures numSeatsRequested >= 1 ==>
        Run(old(Grid(now)), numSeatsRequested, seatRequests, []) ==
          if met then Held(Grid(now), heldRefs) else Unsatisfiable(Grid(now))
      ensures numSeatsRequested <= 0 ==> met && heldRefs == [] && Grid(now) == old(Grid(now))
      ensures HoldTimes() == WithHolds(old(HoldTimes()), heldSeats, now)
      ensures ReservationMarks() == old(ReservationMarks())
    {
      ghost var g0, times0, marks0 := Grid(now), HoldTimes(), ReservationMarks();
      WithHoldsNone(times0, now);
      ghost var o := if numSeatsRequested >= 1 then Run(g0, numSeatsRequested, seatRequests, []) else Held(g0, []);
      heldSeats, heldRefs, met := [], [], true;
      var pending := seatRequests;
      while |heldSeats| < numSeatsRequested
        invariant SeatsMatch(heldSeats, heldRefs)
        invariant numSeatsRequested >= 1 ==>
          && |heldRefs| + Sum(pending) == numSeatsRequested && Positive(pending)
          && o == Run(Grid(now), numSeatsRequested, pending, heldRefs)
        invariant numSeatsRequested <= 0 ==> heldRefs == [] && Grid(now) == g0
        invariant HoldTimes() == WithHolds(times0, heldSeats, now) && ReservationMarks() == marks0
        decreases Max(pending)
      {
        RunStep(Grid(now), numSeatsRequested, pending, heldRefs);
        pending, heldSeats, heldRefs := HoldPass(numSeatsRequested, pending, heldSeats, heldRefs, times0, now);
        var updatedSeatRequests := HalveRequests(pending);
        if updatedSeatRequests.None? {
          return heldSeats, heldRefs, false;
        }
        pending := updatedSeatRequests.value;
      }
    }

    /**
     * One pass of findAndHoldSeats' for-loop: each pending sub-request in turn
     * is offered to the rows; a met one is removed and its seats added, and
     * the pass stops once numSeatsRequested seats are held.
     */
    method HoldPass(numSeatsRequested: int, seatRequests: seq<int>, heldSeats: seq<Seat>, ghost heldRefs: seq<SeatRef>,
                    ghost times0: map<Seat, Option<int>>, now: int)
      returns (seatRequests': seq<int>, heldSeats': seq<Seat>, ghost heldRefs': seq<SeatRef>)
      requires Layout() && Positive(seatRequests) && SeatsMatch(heldSeats, heldRefs)
      requires HoldTimes() == WithHolds(times0, heldSeats, now)
      modifies seatSet
      ensures Pass(old(Grid(now)), numSeatsRequested, seatRequests, 0, heldRefs) == PassResult(Grid(now), heldRefs', seatRequests')
      ensures SeatsMatch(heldSeats', heldRefs')
      ensures HoldTimes() == WithHolds(times0, heldSeats', now)
      ensures ReservationMarks() == old(ReservationMarks())
    {
      ghost var p := Pass(Grid(now), numSeatsRequested, seatRequests, 0, heldRefs);
      ghost var marks0 := ReservationMarks();
      seatRequests', heldSeats', heldRefs' := seatRequests, heldSeats, heldRefs;
      var i := 0;
      while i < |seatRequests'|
        invariant 0 <= i <= |seatRequests'| && Positive(seatRequests')
        invariant p == Pass(Grid(now), numSeatsRequested, seatRequests', i, heldRefs')
        invariant SeatsMatch(heldSeats', heldRefs')
        invariant HoldTimes() == WithHolds(times0, heldSeats', now) && ReservationMarks() == marks0
        decreases |seatRequests'| - i
      {
        ghost var g, times := Grid(now), HoldTimes();
        var temp, got := HoldSeats(seatRequests'[i], now);
        PassStep(g, numSeatsRequested, seatRequests', i, heldRefs', got);
        if temp != [] {
          WithHoldsAppend(times0, heldSeats', temp, now);
          SeatsMatchAppend(heldSeats', heldRefs', temp, got);
          heldSeats' := heldSeats' + temp;
          heldRefs' := heldRefs' + got;
          seatRequests' := Remove(seatRequests', i);
          if |heldSeats'| >= numSeatsRequested {
            break;
          }
          i := i - 1;
        } else {
          MarkRefsNone(g);
          WithHoldsNone(times, now);
        }
        i := i + 1;
      }
    }

    /**
     * The halving loop of findAndHoldSeats: each unmet sub-request becomes its
     * ceiling half then its floor half; None where Java invalidates the hold
     * and returns null because a sub-request is below 2.
     */
    method HalveRequests(seatRequests: seq<int>) returns (updated: Option<seq<int>>)
      requires Positive(seatRequests)
      ensures updated == Halve(seatRequests)
    {
      var updatedSeatRequests: seq<int> := [];
      var k := 0;
      while k < |seatRequests|
        invariant 0 <= k <= |seatRequests|
        invariant Halve(seatRequests[..k]) == Some(updatedSeatRequests)
      {
        var request := seatRequests[k];
        var halvedRequest := request / 2;
        assert seatRequests[..k + 1] == seatRequests[..k] + [request];
        assert Positive(seatRequests[..k + 1]);
        HalveAppend(seatRequests[..k], request);
        if halvedRequest < 1 {
          HalveFails(seatRequests, k);
          return None;
        }
        ghost var before := updatedSeatRequests;
        if request % 2 == 1 {
          updatedSeatRequests := updatedSeatRequests + [halvedRequest + 1];
        } else {
          updatedSeatRequests := updatedSeatRequests + [halvedRequest];
        }
        updatedSeatRequests := updatedSeatRequests + [halvedRequest];
        assert updatedSeatRequests == before + Halves(request);
        k := k + 1;
      }
      assert seatRequests[..k] == seatRequests;
      return Some(updatedSeatRequests);
    }

    /**
     * divideSeatRequestsIntoCompleteRows, with Java's truncating int division.
     * None where Java throws: an ArithmeticException for rows of no seats, and
     * an IllegalArgumentException where the list is sized by a quotient below -1.
     */
    method DivideSeatRequestsIntoCompleteRows(numSeatsRequested: int) returns (seatRequests: Option<seq<int>>)
      ensures seatRequests.None? <==> numSeatsPerRow == 0 || numSeatsRequested <= -2 * numSeatsPerRow
      ensures seatRequests.Some? ==>
        numSeatsPerRow >= 1 && seatRequests.value == DivideIntoCompleteRows(numSeatsRequested, numSeatsPerRow)
    {
      if numSeatsPerRow == 0 {
        return None;
      }
      var numberOfCompleteRows := JavaDiv(numSeatsRequested, numSeatsPerRow);
      var remainder := JavaRem(numSeatsRequested, numSeatsPerRow);
      JavaDivBelow(numSeatsRequested, numSeatsPerRow);
      if numberOfCompleteRows + 1 < 0 {
        return None;
      }
      var requests: seq<int> := [];
      var i := 0;
      while i < numberOfCompleteRows
        invariant 0 <= i && (numberOfCompleteRows >= 0 ==> i <= numberOfCompleteRows)
        invariant numberOfCompleteRows < 0 ==> i == 0
        invariant requests == Repeat(numSeatsPerRow, i)
      {
        requests := requests + [numSeatsPerRow];
        i := i + 1;
      }
      ghost var full := requests;
      if remainder > 0 {
        requests := requests + [remainder];
      }
      DivisionMatches(numSeatsRequested, numSeatsPerRow, full, requests);
      seatRequests := Some(requests);
    }

    /** The loop's rows of perRow seats and the remainder are DivideIntoCompleteRows. */
    static lemma DivisionMatches(n: int, perRow: int, full: seq<int>, reqs: seq<int>)
      requires perRow >= 1
      requires full == Repeat(perRow, if JavaDiv(n, perRow) >= 0 then JavaDiv(n, perRow) else 0)
      requires reqs == full + (if JavaRem(n, perRow) > 0 then [JavaRem(n, perRow)] else [])
      ensures reqs == DivideIntoCompleteRows(n, perRow)
    {
      JavaDivision(n, perRow);
      if n > 0 {
        RepeatThenRest(JavaDiv(n, perRow), JavaRem(n, perRow), perRow);
      }
    }

    /**
     * reserveSeats on a stored hold: a hold that is invalidated or expired
     * gets no reservation and nothing changes; otherwise every seat it holds
     * is reserved for the customer, and a reservation of those seats is
     * stored under the next confirmation code, which is returned.
     */
    method ReserveSeats(seatHoldId: int, customerEmail: string, now: int) returns (confirmationId: Option<string>)
      requires Valid() && seatHoldId in seatHolds
      modifies seatSet, confirmationIds, this`seatReservations
      ensures Valid() && seatHolds == old(seatHolds) && unchanged(seatHolds[seatHoldId])
      ensures seatHolds[seatHoldId].IsNotValid(now) ==>
        && confirmationId == None && seatReservations == old(seatReservations)
        && unchanged(seatSet) && unchanged(confirmationIds)
      ensures !seatHolds[seatHoldId].IsNotValid(now) ==>
        var hold, code := seatHolds[seatHoldId], old(confirmationIds.nextConfirmationId);
        && confirmationId == Some(code) && code == ConfirmationCode(old(confirmationIds.issued))
        && code !in old(seatReservations)
        && seatReservations == old(seatReservations)[code := SeatReservation(code, customerEmail, hold.seatsHeld)]
        && confirmationIds.issued == old(confirmationIds.issued) + 1
        && (forall s :: s in seatSet ==>
              && s.reserved == (old(s.reserved) || s in hold.seatsHeld)
              && s.holdTime == old(s.holdTime)
              && s.customerReservationEmail == if s in hold.seatsHeld then Some(customerEmail) else old(s.customerReservationEmail))
    {
      var seatHold := seatHolds[seatHoldId];
      if seatHold.IsNotValid(now) {
        return None;
      }
      ReserveHeldSeats(seatHold.seatsHeld, customerEmail);
      var code := StoreReservation(customerEmail, seatHold.seatsHeld);
      confirmationId := Some(code);
    }

    /** Reserves each of the seats for the customer; no other seat and nothing else changes. */
    method ReserveHeldSeats(seats: seq<Seat>, customerEmail: string)
      requires forall s :: s in seats ==> s in seatSet
      modifies seatSet
      ensures forall s :: s in seatSet ==>
        && s.reserved == (old(s.reserved) || s in seats)
        && s.holdTime == old(s.holdTime)
        && s.customerReservationEmail == if s in seats then Some(customerEmail) else old(s.customerReservationEmail)
    {
      var i := 0;
      while i < |seats|
        invariant 0 <= i <= |seats|
        invariant forall s :: s in seatSet ==>
          && s.reserved == (old(s.reserved) || s in seats[..i])
          && s.holdTime == old(s.holdTime)
          && s.customerReservationEmail == if s in seats[..i] then Some(customerEmail) else old(s.customerReservationEmail)
      {
        assert seats[..i + 1] == seats[..i] + [seats[i]];
        seats[i].ReserveSeat(customerEmail);
        i := i + 1;
      }
      assert seats[..i] == seats;
    }

    /** A reservation of the seats under the next confirmation code, stored under that code. */
    method StoreReservation(customerEmail: string, seats: seq<Seat>) returns (code: string)
      requires Valid()
      modifies confirmationIds, this`seatReservations
      ensures Valid()
      ensures code == old(confirmationIds.nextConfirmationId) && code == ConfirmationCode(old(confirmationIds.issued))
      ensures code !in old(seatReservations)
      ensures seatReservations == old(seatReservations)[code := SeatReservation(code, customerEmail, seats)]
      ensures confirmationIds.issued == old(confirmationIds.issued) + 1
    {
      ghost var k := confirmationIds.issued;
      code := confirmationIds.nextConfirmationId;
      assert ParseNat(code[2..]) == Some(FIRST_CODE_NUMBER + k);
      var reservation := confirmationIds.NewReservation(customerEmail, seats);
      seatReservations := seatReservations[reservation.confirmationId := reservation];
    }

    /**
     * invalidateHold: the hold is marked invalidated, so it can no longer be
     * reserved; its seats are not released.
     */
    method InvalidateHold(seatHold: SeatHold)
      requires Valid()
      modifies seatHold`invalidated
      ensures Valid() && seatHold.invalidated && unchanged(seatSet)
      ensures seatHold.Committed() ==> forall now :: seatHold.IsNotValid(now)
    {
      seatHold.Invalidate();
    }

    /**
     * printVenue: the error message for a venue over 40 rows or 40 seats a
     * row; otherwise the header, each row's line followed by a newline, and
     * two more newlines.
     */
    method PrintVenue(now: int) returns (venueMap: string)
      requires Layout()
      ensures numRows > MAX_PRINTABLE || numSeatsPerRow > MAX_PRINTABLE ==> venueMap == SEAT_MAP_PRINT_ERROR_MSG
      ensures numRows <= MAX_PRINTABLE && numSeatsPerRow <= MAX_PRINTABLE ==> venueMap == SeatMap(MapCodes(now))
    {
      if numRows > MAX_PRINTABLE || numSeatsPerRow > MAX_PRINTABLE {
        return SEAT_MAP_PRINT_ERROR_MSG;
      }
      ghost var codes := MapCodes(now);
      var venueModel := "";
      var r := 0;
      while r < |rows|
        invariant 0 <= r <= |rows|
        invariant venueModel == RowLines(codes[..r])
      {
        var line := rows[r].Print(now, holdDuration);
        RowLinesStep(codes, r);
        venueModel := venueModel + line + "\n";
        r := r + 1;
      }
      assert codes[..|rows|] == codes;
      venueMap := SEAT_MAP_HEADER + venueModel + "\n\n";
    }

    lemma SeatsMatchAppend(a: seq<Seat>, ra: seq<SeatRef>, b: seq<Seat>, rb: seq<SeatRef>)
      requires Layout() && SeatsMatch(a, ra) && SeatsMatch(b, rb)
      ensures SeatsMatch(a + b, ra + rb)
    {
      forall k | 0 <= k < |ra + rb|
        ensures ValidRef((ra + rb)[k]) && (a + b)[k] == SeatAt((ra + rb)[k])
      {
        if k >= |ra| {
          assert (ra + rb)[k] == rb[k - |ra|];
        }
      }
    }

    /** The seats refs name are seats of the venue. */
    lemma SeatsInVenue(seats: seq<Seat>, refs: seq<SeatRef>)
      requires Layout() && SeatsMatch(seats, refs)
      ensures forall s :: s in seats ==> s in seatSet
    {
      forall s | s in seats
        ensures s in seatSet
      {
        var k :| 0 <= k < |seats| && seats[k] == s;
        assert ValidRef(refs[k]);
      }
    }

    /** The seats of row i are none of the other rows' seats. */
    lemma OtherRowsSeats(i: int)
      requires Layout() && 0 <= i < |rows|
      ensures forall j, k :: 0 <= j < |rows| && j != i && 0 <= k < |rows[j].seats| ==> rows[j].seats[k] !in rows[i].seats
    {
    }

    /** After row i marked ps and the other rows kept their seats, the grid is g0 with those refs marked. */
    lemma GridAfterRow(g0: Grid, i: int, ps: seq<int>, now: int)
      requires Layout() && 0 <= i < |rows| && |g0| == |rows|
      requires Grid(now)[i] == Mark(g0[i], ps)
      requires forall j :: 0 <= j < |rows| && j != i ==> Grid(now)[j] == g0[j]
      ensures Grid(now) == MarkRefs(g0, RowRefs(i + 1, ps))
    {
      MarkRowRefs(g0, i, ps);
    }
  }
}
