/**
 * A row of the venue (com.ticket.domain.Row): seats 1..numSeats, the seat
 * count, the "best seat" hold and the row's line of the seat map. Java's
 * HashMap from seat number to seat becomes a sequence with seat i at index
 * i - 1, visited in ascending seat order.
 */
module RowDomain {
  import opened Wrappers
  import opened SeatDomain
  import opened RowSearch

  // ---------------------------------------------------------------------
  // The row's line of the seat map: odd seats to the left of the aisle
  // (highest first), even seats to the right (lowest first).

  /** The odd seats among 1..m, highest first, each as " " + its code. */
  function LeftOfAisle(codes: seq<string>, m: nat): string
    requires m <= |codes|
  {
    if m == 0 then ""
    else if m % 2 == 1 then " " + codes[m - 1] + LeftOfAisle(codes, m - 1)
    else LeftOfAisle(codes, m - 1)
  }

  /** The even seats among 1..m, lowest first, each as its code + " ". */
  function RightOfAisle(codes: seq<string>, m: nat): string
    requires m <= |codes|
  {
    if m == 0 then ""
    else RightOfAisle(codes, m - 1) + (if m % 2 == 0 then codes[m - 1] + " " else "")
  }

  function RowLayout(codes: seq<string>): string {
    LeftOfAisle(codes, |codes|) + " " + RightOfAisle(codes, |codes|)
  }

  predicate TwoCharCodes(codes: seq<string>) {
    forall k :: 0 <= k < |codes| ==> |codes[k]| == 2 && codes[k][0] != '\n' && codes[k][1] != '\n'
  }

  lemma {:induction false} LeftOfAisleFacts(codes: seq<string>, m: nat)
    requires m <= |codes| && TwoCharCodes(codes)
    ensures |LeftOfAisle(codes, m)| == 3 * ((m + 1) / 2)
    ensures '\n' !in LeftOfAisle(codes, m)
  {
    if m > 0 {
      LeftOfAisleFacts(codes, m - 1);
      if m % 2 == 1 {
        var c := codes[m - 1];
        assert LeftOfAisle(codes, m) == [' ', c[0], c[1]] + LeftOfAisle(codes, m - 1);
      }
    }
  }

  /** At position at of line: a blank, then the two characters of code. */
  predicate BlankThenCode(line: string, at: int, code: string) {
    |code| == 2 && 0 <= at && at + 2 < |line| && line[at] == ' ' && line[at + 1] == code[0] && line[at + 2] == code[1]
  }

  /** At position at of line: the two characters of code, then a blank. */
  predicate CodeThenBlank(line: string, at: int, code: string) {
    |code| == 2 && 0 <= at && at + 2 < |line| && line[at] == code[0] && line[at + 1] == code[1] && line[at + 2] == ' '
  }

  lemma BlankThenCodeShift(prefix: string, line: string, at: int, code: string)
    requires BlankThenCode(line, at, code)
    ensures BlankThenCode(prefix + line, at + |prefix|, code)
  {
    var s := prefix + line;
    assert s[at + |prefix|] == line[at] && s[at + |prefix| + 1] == line[at + 1] && s[at + |prefix| + 2] == line[at + 2];
  }

  lemma CodeThenBlankExtend(line: string, suffix: string, at: int, code: string)
    requires CodeThenBlank(line, at, code)
    ensures CodeThenBlank(line + suffix, at, code)
  {
    var s := line + suffix;
    assert s[at] == line[at] && s[at + 1] == line[at + 1] && s[at + 2] == line[at + 2];
  }

  /** Odd seat k sits at rank (m+1)/2 - 1 - k/2 from the left edge: a blank, then its code. */
  lemma {:induction false} LeftOfAisleAt(codes: seq<string>, m: nat, k: nat)
    requires m <= |codes| && TwoCharCodes(codes)
    requires 1 <= k <= m && k % 2 == 1
    ensures BlankThenCode(LeftOfAisle(codes, m), 3 * ((m + 1) / 2 - 1 - k / 2), codes[k - 1])
  {
    var rest := LeftOfAisle(codes, m - 1);
    if m % 2 == 1 {
      var c := codes[m - 1];
      var head := [' ', c[0], c[1]];
      assert LeftOfAisle(codes, m) == head + rest;
      if k < m {
        LeftOfAisleAt(codes, m - 1, k);
        assert (m + 1) / 2 == m / 2 + 1;
        BlankThenCodeShift(head, rest, 3 * (m / 2 - 1 - k / 2), codes[k - 1]);
      } else {
        assert 3 * ((m + 1) / 2 - 1 - k / 2) == 0;
      }
    } else {
      assert LeftOfAisle(codes, m) == rest;
      LeftOfAisleAt(codes, m - 1, k);
      assert (m + 1) / 2 == (m - 1 + 1) / 2;
    }
  }

  lemma {:induction false} RightOfAisleFacts(codes: seq<string>, m: nat)
    requires m <= |codes| && TwoCharCodes(codes)
    ensures |RightOfAisle(codes, m)| == 3 * (m / 2)
    ensures '\n' !in RightOfAisle(codes, m)
  {
    if m > 0 {
      RightOfAisleFacts(codes, m - 1);
      if m % 2 == 0 {
        var c := codes[m - 1];
        assert RightOfAisle(codes, m) == RightOfAisle(codes, m - 1) + [c[0], c[1], ' '];
        assert m / 2 == (m - 1) / 2 + 1;
      } else {
        assert RightOfAisle(codes, m) == RightOfAisle(codes, m - 1);
        assert m / 2 == (m - 1) / 2;
      }
    }
  }

  /** Even seat k sits at rank k/2 - 1 from the aisle: its code, then a blank. */
  lemma {:induction false} RightOfAisleAt(codes: seq<string>, m: nat, k: nat)
    requires m <= |codes| && TwoCharCodes(codes)
    requires 1 <= k <= m && k % 2 == 0
    ensures CodeThenBlank(RightOfAisle(codes, m), 3 * (k / 2 - 1), codes[k - 1])
  {
    var rest := RightOfAisle(codes, m - 1);
    if m % 2 == 0 {
      var c := codes[m - 1];
      var tail := [c[0], c[1], ' '];
      assert RightOfAisle(codes, m) == rest + tail;
      if k < m {
        RightOfAisleAt(codes, m - 1, k);
        CodeThenBlankExtend(rest, tail, 3 * (k / 2 - 1), codes[k - 1]);
      } else {
        RightOfAisleFacts(codes, m - 1);
        assert 3 * (k / 2 - 1) == |rest|;
        assert (rest + tail)[|rest|] == c[0] && (rest + tail)[|rest| + 1] == c[1] && (rest + tail)[|rest| + 2] == ' ';
      }
    } else {
      assert RightOfAisle(codes, m) == rest;
      RightOfAisleAt(codes, m - 1, k);
    }
  }

  /** The row line is 1 + 3n characters without a newline, with the aisle blank after the left half. */
  lemma RowLayoutShape(codes: seq<string>)
    requires TwoCharCodes(codes)
    ensures var line, n := RowLayout(codes), |codes|;
      && |line| == 1 + 3 * n
      && '\n' !in line
      && line[3 * ((n + 1) / 2)] == ' '
  {
    var n := |codes|;
    LeftOfAisleFacts(codes, n);
    RightOfAisleFacts(codes, n);
    assert (n + 1) / 2 + n / 2 == n;
  }

  /** An odd seat k is printed left of the aisle, at rank (n+1)/2 - 1 - k/2 from the left edge. */
  lemma RowLayoutOddSeat(codes: seq<string>, k: int)
    requires TwoCharCodes(codes) && 1 <= k <= |codes| && k % 2 == 1
    ensures var line, at := RowLayout(codes), 3 * ((|codes| + 1) / 2 - 1 - k / 2) + 1;
      0 <= at && at + 1 < |line| && line[at] == codes[k - 1][0] && line[at + 1] == codes[k - 1][1]
  {
    var n := |codes|;
    LeftOfAisleAt(codes, n, k);
    var l := LeftOfAisle(codes, n);
    var line := l + " " + RightOfAisle(codes, n);
    var at := 3 * ((n + 1) / 2 - 1 - k / 2);
    assert line[at + 1] == l[at + 1] && line[at + 2] == l[at + 2];
  }

  /** An even seat k is printed right of the aisle, at rank k/2 - 1 from the aisle. */
  lemma RowLayoutEvenSeat(codes: seq<string>, k: int)
    requires TwoCharCodes(codes) && 1 <= k <= |codes| && k % 2 == 0
    ensures var line, at := RowLayout(codes), 3 * ((|codes| + 1) / 2) + 1 + 3 * (k / 2 - 1);
      0 <= at && at + 1 < |line| && line[at] == codes[k - 1][0] && line[at + 1] == codes[k - 1][1]
  {
    var n := |codes|;
    LeftOfAisleFacts(codes, n);
    RightOfAisleAt(codes, n, k);
    var l, r := LeftOfAisle(codes, n), RightOfAisle(codes, n);
    var line := l + " " + r;
    var at := 3 * (k / 2 - 1);
    assert line[|l| + 1 + at] == r[at] && line[|l| + 2 + at] == r[at + 1];
  }

  /** Row.print's step: an odd seat goes in front with a blank before it, an even seat at the end with a blank after it. */
  lemma PrintStep(codes: seq<string>, i: nat, line: string, code: string)
    requires i < |codes| && code == codes[i]
    requires line == LeftOfAisle(codes, i) + " " + RightOfAisle(codes, i)
    ensures (i + 1) % 2 == 1 ==> " " + code + line == LeftOfAisle(codes, i + 1) + " " + RightOfAisle(codes, i + 1)
    ensures (i + 1) % 2 == 0 ==> line + code + " " == LeftOfAisle(codes, i + 1) + " " + RightOfAisle(codes, i + 1)
  {
    var l, r := LeftOfAisle(codes, i), RightOfAisle(codes, i);
    if (i + 1) % 2 == 1 {
      assert LeftOfAisle(codes, i + 1) == " " + code + l;
      assert RightOfAisle(codes, i + 1) == r;
      assert (" " + code + l) + " " + r == " " + code + (l + " " + r);
    } else {
      assert LeftOfAisle(codes, i + 1) == l;
      assert RightOfAisle(codes, i + 1) == r + (code + " ");
      assert l + " " + (r + (code + " ")) == (l + " " + r) + code + " ";
    }
  }

  // ---------------------------------------------------------------------

  class Row {
    const rowId: int
    const numSeats: nat
    const seats: seq<Seat>

    /** Seat i sits at index i - 1 and belongs to this row. */
    ghost predicate Valid() {
      |seats| == numSeats &&
      forall k :: 0 <= k < |seats| ==> seats[k].rowId == rowId && seats[k].seatId == k + 1
    }

    constructor (venueId: int, rowId: int, numSeats: nat)
      ensures Valid() && this.rowId == rowId && this.numSeats == numSeats
      ensures forall k :: 0 <= k < |seats| ==>
        fresh(seats[k]) && seats[k].venueId == venueId &&
        seats[k].holdTime == None && !seats[k].reserved && seats[k].customerReservationEmail == None
    {
      var s: seq<Seat> := [];
      var i := 1;
      while i <= numSeats
        invariant 1 <= i <= numSeats + 1 && |s| == i - 1
        invariant forall k :: 0 <= k < |s| ==>
          fresh(s[k]) && s[k].venueId == venueId && s[k].rowId == rowId && s[k].seatId == k + 1 &&
          s[k].holdTime == None && !s[k].reserved && s[k].customerReservationEmail == None
      {
        var seat := new Seat(venueId, rowId, i);
        s := s + [seat];
        i := i + 1;
      }
      this.rowId := rowId;
      this.numSeats := numSeats;
      seats := s;
    }

    /** chosen[k] is the seat numbered ps[k] of this row, for every k. */
    ghost predicate SeatsNumbered(chosen: seq<Seat>, ps: seq<int>) {
      |chosen| == |ps| && forall k :: 0 <= k < |ps| ==> 1 <= ps[k] <= |seats| && chosen[k] == seats[ps[k] - 1]
    }

    /** Seat m + 1 is among the chosen seats exactly when its number is among ps. */
    lemma NumberedSeat(chosen: seq<Seat>, ps: seq<int>, m: int)
      requires Valid() && SeatsNumbered(chosen, ps) && 0 <= m < |seats|
      ensures seats[m] in chosen <==> m + 1 in ps
    {
      if m + 1 in ps {
        var k :| 0 <= k < |ps| && ps[k] == m + 1;
        assert chosen[k] == seats[m];
      }
      if seats[m] in chosen {
        var k :| 0 <= k < |chosen| && chosen[k] == seats[m];
        assert seats[ps[k] - 1].seatId == ps[k];
      }
    }

    /**
     * Since the old state exactly the seats numbered ps got a hold placed at
     * `now`: no reservation changed, and no other seat's hold.
     */
    twostate predicate HoldsPlacedOn(ps: seq<int>, now: int)
      reads seats
    {
      forall k :: 0 <= k < |seats| ==>
        && seats[k].reserved == old(seats[k].reserved)
        && seats[k].customerReservationEmail == old(seats[k].customerReservationEmail)
        && seats[k].holdTime == if k + 1 in ps then Some(now) else old(seats[k].holdTime)
    }

    /** avail[k] says whether seat k + 1 is available at `now`. */
    ghost function Avail(now: int, holdDuration: int): (avail: seq<bool>)
      reads seats
      ensures |avail| == |seats|
      ensures forall k :: 0 <= k < |seats| ==> avail[k] == seats[k].IsAvailable(now, holdDuration)
    {
      seq(|seats|, k requires 0 <= k < |seats| reads seats => seats[k].IsAvailable(now, holdDuration))
    }

    /** The seats' map codes, seat 1 first. */
    ghost function Codes(now: int, holdDuration: int): (codes: seq<string>)
      reads seats
      ensures |codes| == |seats| && TwoCharCodes(codes)
      ensures forall k :: 0 <= k < |seats| ==> codes[k] == seats[k].Print(now, holdDuration)
    {
      seq(|seats|, k requires 0 <= k < |seats| reads seats => seats[k].Print(now, holdDuration))
    }

    method NumSeatsAvailable(now: int, holdDuration: int) returns (seatsAvailableInRow: nat)
      requires Valid()
      ensures seatsAvailableInRow == Count(Avail(now, holdDuration))
      ensures seatsAvailableInRow <= numSeats
    {
      ghost var avail := Avail(now, holdDuration);
      seatsAvailableInRow := 0;
      var i := 0;
      while i < |seats|
        invariant 0 <= i <= |seats|
        invariant seatsAvailableInRow == Count(avail[..i])
      {
        assert avail[..i + 1][..i] == avail[..i];
        if seats[i].IsAvailable(now, holdDuration) {
          seatsAvailableInRow := seatsAvailableInRow + 1;
        }
        i := i + 1;
      }
      assert avail[..|seats|] == avail;
    }

    /**
     * Row.holdSeats: the seats returned are the ones BestSeats picks from the
     * availability before the call; exactly those get a hold placed at `now`,
     * and no other seat changes.
     */
    method HoldSeats(numSeatsRequested: int, now: int, holdDuration: nat) returns (heldSeats: seq<Seat>)
      requires Valid() && numSeatsRequested >= 1
      modifies seats
      ensures var ps := BestSeats(old(Avail(now, holdDuration)), numSeatsRequested);
        && SeatsNumbered(heldSeats, ps)
        && HoldsPlacedOn(ps, now)
        && Avail(now, holdDuration) == Mark(old(Avail(now, holdDuration)), ps)
    {
      ghost var avail := Avail(now, holdDuration);
      heldSeats := [];
      if numSeatsRequested > |seats| {
        assert Mark(avail, []) == avail;
        return;
      }
      if seats[0].IsAvailable(now, holdDuration) {
        assert BestSeats(avail, numSeatsRequested) == Range(1, numSeatsRequested + 1);
        heldSeats := HoldLeadingSeats(numSeatsRequested, now, holdDuration);
        return;
      }
      assert BestSeats(avail, numSeatsRequested) == ScanFrom(avail, numSeatsRequested, 2);
      var startingSeat := FindStartingSeat(numSeatsRequested, now, holdDuration);
      if startingSeat == 0 {
        assert Mark(avail, []) == avail;
        return;
      }
      heldSeats := HoldRightOrLeftSeats(numSeatsRequested, startingSeat, now, holdDuration);
    }

    /**
     * The scan of Row.holdSeats from seat 2: the first available seat, where
     * the stride-2 collection starts, or 0 when the row's end is reached or
     * an unavailable seat leaves too few seats at stride 2.
     */
    method FindStartingSeat(numSeatsRequested: int, now: int, holdDuration: nat) returns (startingSeat: int)
      requires Valid() && 1 <= numSeatsRequested <= |seats|
      ensures startingSeat == 0 || 2 <= startingSeat <= |seats|
      ensures startingSeat == 0 ==> ScanFrom(Avail(now, holdDuration), numSeatsRequested, 2) == []
      ensures startingSeat != 0 ==>
        ScanFrom(Avail(now, holdDuration), numSeatsRequested, 2) == StrideHold(Avail(now, holdDuration), numSeatsRequested, startingSeat)
    {
      ghost var avail := Avail(now, holdDuration);
      var i := 2;
      while i <= |seats|
        invariant 2 <= i <= |seats| + 1
        invariant ScanFrom(avail, numSeatsRequested, i) == ScanFrom(avail, numSeatsRequested, 2)
      {
        if seats[i - 1].IsAvailable(now, holdDuration) {
          return i;
        } else if numSeatsRequested > (numSeats - i) / 2 + (numSeats - i) % 2 {
          return 0;
        }
        i := i + 1;
      }
      return 0;
    }

    /** The seat-1 branch of Row.holdSeats: seats 1..n are held whether or not they are available. */
    method HoldLeadingSeats(numSeatsRequested: int, now: int, holdDuration: nat) returns (heldSeats: seq<Seat>)
      requires Valid() && 1 <= numSeatsRequested <= |seats|
      modifies seats
      ensures var ps := Range(1, numSeatsRequested + 1);
        && SeatsNumbered(heldSeats, ps)
        && HoldsPlacedOn(ps, now)
        && Avail(now, holdDuration) == Mark(old(Avail(now, holdDuration)), ps)
    {
      ghost var avail := Avail(now, holdDuration);
      heldSeats := [];
      var i := 1;
      while i <= numSeatsRequested
        invariant 1 <= i <= numSeatsRequested + 1
        invariant heldSeats == seats[..i - 1]
        invariant forall k :: 0 <= k < |seats| ==>
          && seats[k].reserved == old(seats[k].reserved)
          && seats[k].customerReservationEmail == old(seats[k].customerReservationEmail)
          && seats[k].holdTime == if k < i - 1 then Some(now) else old(seats[k].holdTime)
      {
        var _ := seats[i - 1].PlaceHold(now);
        heldSeats := heldSeats + [seats[i - 1]];
        i := i + 1;
      }
      ghost var ps := Range(1, numSeatsRequested + 1);
      RangeMembers(1, numSeatsRequested + 1);
      HeldAvailability(ps, now, holdDuration, avail);
      LeadingSeatsNumbered(heldSeats, numSeatsRequested);
    }

    /** The first n seats of the row are the seats numbered 1..n. */
    lemma LeadingSeatsNumbered(chosen: seq<Seat>, n: int)
      requires Valid() && 0 <= n <= |seats| && chosen == seats[..n]
      ensures SeatsNumbered(chosen, Range(1, n + 1))
    {
      var ps := Range(1, n + 1);
      assert forall k :: 0 <= k < |ps| ==> ps[k] == k + 1 && chosen[k] == seats[k];
    }

    /** After holds were placed at `now` on the seats ps, availability is avail with ps marked. */
    lemma HeldAvailability(ps: seq<int>, now: int, holdDuration: nat, avail: seq<bool>)
      requires Valid() && |avail| == |seats|
      requires forall k :: 0 <= k < |seats| ==>
        if k + 1 in ps then seats[k].holdTime == Some(now)
        else seats[k].IsAvailable(now, holdDuration) == avail[k]
      ensures Avail(now, holdDuration) == Mark(avail, ps)
    {
    }

    /**
     * Row.holdRightOrLeftSeats: collect the available seats at startingSeat,
     * startingSeat + 2, ... until numSeats are found, and hold them only if
     * that many were found.
     */
    method HoldRightOrLeftSeats(numSeats: int, startingSeat: int, now: int, holdDuration: nat)
      returns (heldSeats: seq<Seat>)
      requires Valid() && numSeats >= 1 && startingSeat >= 1
      modifies seats
      ensures var ps := StrideHold(old(Avail(now, holdDuration)), numSeats, startingSeat);
        && SeatsNumbered(heldSeats, ps)
        && HoldsPlacedOn(ps, now)
        && Avail(now, holdDuration) == Mark(old(Avail(now, holdDuration)), ps)
    {
      ghost var avail := Avail(now, holdDuration);
      heldSeats := [];
      var availableSeats, found := CollectAvailableSeats(numSeats, startingSeat, now, holdDuration);
      ghost var ps := StrideHold(avail, numSeats, startingSeat);
      if |availableSeats| >= numSeats {
        heldSeats := PlaceHolds(availableSeats, ps, now);
        HeldAvailability(ps, now, holdDuration, avail);
      } else {
        assert Mark(avail, []) == avail;
      }
    }

    /**
     * The loop of Row.holdRightOrLeftSeats: the available seats at
     * startingSeat, startingSeat + 2, ... until numSeats are found, as
     * Collect describes them.
     */
    method CollectAvailableSeats(numSeats: int, startingSeat: int, now: int, holdDuration: nat)
      returns (availableSeats: seq<Seat>, ghost found: seq<int>)
      requires Valid() && numSeats >= 1 && startingSeat >= 1
      ensures found == Collect(Avail(now, holdDuration), numSeats, startingSeat, [])
      ensures SeatsNumbered(availableSeats, found)
    {
      ghost var avail := Avail(now, holdDuration);
      availableSeats := [];
      found := [];
      var i := startingSeat;
      while i <= |seats|
        invariant startingSeat <= i
        invariant Collect(avail, numSeats, startingSeat, []) == Collect(avail, numSeats, i, found)
        invariant |found| < numSeats
        invariant |availableSeats| == |found|
        invariant forall k :: 0 <= k < |found| ==> 1 <= found[k] <= |seats| && availableSeats[k] == seats[found[k] - 1]
        decreases |seats| + 2 - i
      {
        if seats[i - 1].IsAvailable(now, holdDuration) {
          availableSeats := availableSeats + [seats[i - 1]];
          found := found + [i];
        }
        if |availableSeats| == numSeats {
          break;
        }
        i := i + 2;
      }
    }

    /** Places a hold at `now` on each of the chosen seats, which are the seats numbered ps. */
    method PlaceHolds(chosen: seq<Seat>, ghost ps: seq<int>, now: int) returns (heldSeats: seq<Seat>)
      requires Valid()
      requires SeatsNumbered(chosen, ps)
      modifies seats
      ensures heldSeats == chosen
      ensures HoldsPlacedOn(ps, now)
    {
      heldSeats := [];
      ghost var placed: set<int> := {};
      var j := 0;
      while j < |chosen|
        invariant 0 <= j <= |chosen|
        invariant heldSeats == chosen[..j]
        invariant placed == set q | q in ps[..j]
        invariant forall k :: 0 <= k < |seats| ==>
          && seats[k].reserved == old(seats[k].reserved)
          && seats[k].customerReservationEmail == old(seats[k].customerReservationEmail)
          && seats[k].holdTime == if k + 1 in placed then Some(now) else old(seats[k].holdTime)
      {
        ghost var p := ps[j];
        assert ps[..j + 1] == ps[..j] + [p];
        assert forall k :: 0 <= k < |seats| && seats[k] == seats[p - 1] ==> k == p - 1;
        var _ := chosen[j].PlaceHold(now);
        heldSeats := heldSeats + [chosen[j]];
        placed := placed + {p};
        j := j + 1;
      }
      assert ps[..j] == ps;
      assert forall q :: 1 <= q <= |seats| ==> (q in placed <==> q in ps);
    }

    /**
     * Row.print: starting from " ", each odd seat's code is put in front with a
     * space before it and each even seat's code appended with a space after it.
     */
    method Print(now: int, holdDuration: int) returns (rowString: string)
      requires Valid()
      ensures rowString == RowLayout(Codes(now, holdDuration))
    {
      ghost var codes := Codes(now, holdDuration);
      rowString := " ";
      var i := 0;
      while i < |seats|
        invariant 0 <= i <= |seats|
        invariant rowString == LeftOfAisle(codes, i) + " " + RightOfAisle(codes, i)
      {
        var currentSeat := seats[i];
        assert currentSeat.seatId == i + 1;
        var code := currentSeat.Print(now, holdDuration);
        PrintStep(codes, i, rowString, code);
        if currentSeat.seatId % 2 == 1 {
          rowString := " " + code + rowString;
        } else {
          rowString := rowString + code + " ";
        }
        i := i + 1;
      }
    }
  }
}
