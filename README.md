# Ticket service seat allocator, modelled in Dafny

This project models the seat-inventory core of a small Java ticket service
(`com.ticket.domain` and `com.ticket.service.impl`) and proves properties of it.

A venue is a fixed grid of rows. Each row has seats numbered 1..n.

- **Seat.** A seat keeps an optional hold timestamp, which expires lazily, and a
  permanent reserved flag.
- **Row.** A row answers "hold n seats". It takes seats 1..n when seat 1 is
  available. Otherwise it collects every other available seat from the first
  available seat at position 2 or later, and holds nothing unless it finds all n.
- **Venue service.** The service answers a request as follows:
  - a request larger than a row is split into full-row chunks;
  - each chunk goes to the first row that can take it;
  - unmet chunks are halved, ceiling half first, until the request is met;
  - the hold is then committed under a new hold id.
- **Reservations.** Reserving a hold marks its seats reserved. It stores a
  reservation under a confirmation code `VX3529`, `VX3530`, …, made by parsing
  and re-printing the decimal suffix of the previous code.

Modules, one per source class (plus two shared ones):

| file | module | models |
|---|---|---|
| `wrappers.dfy` | `Wrappers` | `Option`, standing in for Java's `null` |
| `decimal.dfy` | `Decimal` | decimal printing of an `int` and `Integer.parseInt` on digit strings |
| `seat.dfy` | `SeatDomain` | `Seat` |
| `hold.dfy` | `Holds` | `SeatHold` and its hold-id counter |
| `reservation.dfy` | `Reservations` | `SeatReservation` and its confirmation-code counter |
| `row_search.dfy` | `RowSearch` | the seat choice of `Row.holdSeats`, as pure functions over a row's availability vector |
| `row.dfy` | `RowDomain` | `Row` as a class over its `Seat` objects, and the row line of the seat map |
| `allocation.dfy` | `Allocation` | the cross-row allocator of `findAndHoldSeats`, as pure functions over a grid of availability vectors |
| `venue.dfy` | `VenueService` | `VenueTicketServiceImpl` as a class, each method proved equal to the pure functions above |

Conventions:

- Time is an explicit parameter `now`, in milliseconds, and the hold duration is
  a natural number of milliseconds. A seat is held while `holdTime + duration`
  is not before `now`. A hold is expired once `now` is strictly after its
  expiration.
- The classes update their fields in place, as the Java objects do. Each method
  is proved against a pure specification function:
  - `Row.HoldSeats` returns the seats `BestSeats` picks from the availability
    before the call. Exactly those seats get a hold, and no other seat changes.
  - `VenueTicketService.FindAndHoldSeats` ends as `FindAndHold` says on the grid
    before the call.
  - The properties of the service are proved as lemmas about those functions.
- The class-wide static counters of `SeatHold` (`nextSeatHoldId`, from 1111)
  and `SeatReservation` (`nextConfirmationId`, from `VX3529`) are counter
  objects the venue holds.

## Reference functions

These functions and predicates define what the source computes. They carry no
contract of their own: the lemmas and methods named after each one state its
properties, and the "## Model" table lists those.

- `SeatDomain.Seat.IsAvailable`, `IsHeld`, `IsReserved` (src/main/java/com/ticket/domain/Seat.java:63-101): `SeatDomain.SeatStates`, `SeatDomain.HoldLapses`, `SeatDomain.Seat.Print`.
- `Holds.SeatHold.IsExpired` (src/main/java/com/ticket/domain/SeatHold.java:60-65) and `IsNotValid` (src/main/java/com/ticket/service/impl/VenueTicketServiceImpl.java:191): `Holds.ExpiryPersists`, `Holds.ExpiredShowsZero`.
- `RowSearch.BestSeats` (src/main/java/com/ticket/domain/Row.java:78-117): `RowSearch.BestSeatsCases`, `RowSearch.BestSeatsShape`, `RowSearch.BestSeatsFromSeatOne`, `RowSearch.StrideSeatsWereAvailable`.
- `RowSearch.Collect` (src/main/java/com/ticket/domain/Row.java:132-139): `RowSearch.CollectTakes`, `RowSearch.StrideAvailableFacts`.
- `RowSearch.StrideHold` (src/main/java/com/ticket/domain/Row.java:127-150): `RowSearch.StrideHoldShape`, `RowSearch.StrideSeatsFacts`.
- `RowSearch.ScanFrom` (src/main/java/com/ticket/domain/Row.java:100-112): `RowSearch.ShortCircuitExact`, `RowSearch.PlainScanTooShort`, `RowSearch.PlainScanResult`.
- `Allocation.HoldInRows` (src/main/java/com/ticket/service/impl/VenueTicketServiceImpl.java:151-160): `Allocation.HoldInRowsNone`, `Allocation.HoldInRowsFacts`, `Allocation.HoldInRowsSeats`, `Allocation.HoldStep`, `Allocation.HeldStep`.
- `Allocation.Pass` (src/main/java/com/ticket/service/impl/VenueTicketServiceImpl.java:96-110): `Allocation.PassHeld`, `Allocation.PassFacts`, `Allocation.PassSingleUnmet`, `Allocation.PassDistinct`.
- `Allocation.Halve` (src/main/java/com/ticket/service/impl/VenueTicketServiceImpl.java:113-131): `Allocation.HalveFacts`, `Allocation.HalveFails`, `Allocation.HalveMax`.
- `Allocation.Run` (src/main/java/com/ticket/service/impl/VenueTicketServiceImpl.java:93-133): `Allocation.RunStep`, `Allocation.RunHeld`, `Allocation.RunSucceeds`, `Allocation.RunDistinct`.
- `Allocation.InitialRequests` (src/main/java/com/ticket/service/impl/VenueTicketServiceImpl.java:82-90): `Allocation.FindAndHoldRuns`.
- `Allocation.FindAndHold` (src/main/java/com/ticket/service/impl/VenueTicketServiceImpl.java:66-142): `Allocation.FindAndHoldOutcome`, `Allocation.FindAndHoldRuns`.

## Model

| member | source | states |
|---|---|---|
| `Decimal.NatToString` | src/main/java/com/ticket/domain/SeatReservation.java:72 | the decimal text of a number is non-empty and all digits, has one digit exactly for numbers below 10, and has no leading zero |
| `Decimal.ParseNat` | src/main/java/com/ticket/domain/SeatReservation.java:72 | parsing succeeds exactly on non-empty digit strings (the rest is the NumberFormatException case) |
| `Decimal.ParsePrinted` | src/main/java/com/ticket/domain/SeatReservation.java:72 | parsing the printed decimal of n gives back n |
| `Decimal.PrintInjective` | src/main/java/com/ticket/domain/SeatReservation.java:72 | distinct numbers print as distinct text |
| `SeatDomain.Seat.constructor` | src/main/java/com/ticket/domain/Seat.java:52-56 | a new seat has the given venue, row and seat ids, no hold time, no reservation and no email, and is available and not held at every instant for every duration |
| `SeatDomain.Seat.PlaceHold` | src/main/java/com/ticket/domain/Seat.java:89-92 | the hold time becomes `now` and is returned; at `now` the seat is held and not available, whatever the duration |
| `SeatDomain.Seat.ReserveSeat` | src/main/java/com/ticket/domain/Seat.java:94-97 | the seat is reserved for the customer's email and is never available again, at any instant |
| `SeatDomain.Seat.Print` | src/main/java/com/ticket/domain/Seat.java:119-128 | the code is two characters ending in a blank; it is `R ` iff reserved (reserved wins over held), `H ` iff not reserved and held, `A ` iff available |
| `SeatDomain.HoldLapses` | src/main/java/com/ticket/domain/Seat.java:63-87 | a hold placed at t still holds the seat at the boundary instant t + duration; at every later instant the seat is not held and is available iff it is not reserved, with no state change |
| `SeatDomain.SeatStates` | src/main/java/com/ticket/domain/Seat.java:63-101 | `isAvailable` is exactly "not reserved and not held", so at every instant a seat is in exactly one of the states reserved, held (and not reserved), available |
| `Holds.SeatHoldIds.constructor` | src/main/java/com/ticket/domain/SeatHold.java:21 | the hold-id counter starts at 1111 |
| `Holds.SeatHold.constructor` | src/main/java/com/ticket/domain/SeatHold.java:49-55 | a new hold takes the counter's current id and the counter advances by one, so ids are unique and increasing; the email is kept as given; no seats, no expiration, not invalidated |
| `Holds.SeatHold.CommitSeatHold` | src/main/java/com/ticket/service/impl/VenueTicketServiceImpl.java:136 | the hold records exactly the given seats and expiration |
| `Holds.SeatHold.Invalidate` | src/main/java/com/ticket/service/impl/VenueTicketServiceImpl.java:118 | the hold is marked invalidated |
| `Holds.SeatHold.SecondsRemaining` | src/main/java/com/ticket/domain/SeatHold.java:70-76 | no seconds once the expiration instant is reached; otherwise the whole seconds s with s * 1000 <= ms left < (s + 1) * 1000, so never negative and never more than the true remaining time |
| `Holds.SeatHold.SecondsToExpiration` | src/main/java/com/ticket/domain/SeatHold.java:70-77 | the text ends in " seconds"; what precedes it parses to the truncated seconds remaining and has no leading zero, so it is the canonical decimal Java prints |
| `Holds.ExpiredShowsZero` | src/main/java/com/ticket/domain/SeatHold.java:60-76 | every expired hold shows "0 seconds" |
| `Holds.TruncatedSeconds` | src/test/java/com/ticket/domain/SeatHoldTest.java:30-31 | 2999 ms left shows as "2 seconds" |
| `Holds.ExpiryPersists` | src/main/java/com/ticket/domain/SeatHold.java:60-65 | once expired a committed hold stays expired, once not valid it stays not valid, an invalidated hold is not valid, and a hold is not yet expired at its own expiration instant |
| `Reservations.ConfirmationCode` | src/main/java/com/ticket/domain/SeatReservation.java:30 | the code of the k-th reservation is "VX" followed by digits that parse to 3529 + k, with no leading zero, so the suffix is the canonical decimal Java prints |
| `Reservations.UpdateNextConfirmationId` | src/main/java/com/ticket/domain/SeatReservation.java:71-73 | the update succeeds exactly when the code has an all-digit suffix after its first two characters |
| `Reservations.ConfirmationIds.constructor` | src/main/java/com/ticket/domain/SeatReservation.java:30 | the first code is `VX3529` and none has been issued |
| `Reservations.ConfirmationIds.NewReservation` | src/main/java/com/ticket/domain/SeatReservation.java:59-64 | the reservation takes the code current just before construction and keeps email and seats as passed; the counter moves on to the next code |
| `Reservations.FirstCode` | src/main/java/com/ticket/domain/SeatReservation.java:30 | the first code is `VX3529` |
| `Reservations.NextCode` | src/main/java/com/ticket/domain/SeatReservation.java:71-73 | updating the k-th code gives the (k+1)-th, for every k |
| `Reservations.SecondCode` | src/main/java/com/ticket/domain/SeatReservation.java:71-73 | `VX3529` is followed by `VX3530` |
| `Reservations.CodesDistinct` | src/main/java/com/ticket/domain/SeatReservation.java:59-73 | codes of successive reservations are pairwise distinct and numerically increasing |
| `RowSearch.Count` | src/main/java/com/ticket/domain/Row.java:59-69 | the count of available seats is at most the row size, and zero exactly when no seat is available |
| `RowSearch.FirstAvailable` | src/main/java/com/ticket/domain/Row.java:100-104 | 0 exactly when no seat from i on is available; otherwise the first available seat from i on |
| `RowSearch.BestSeatsCases` | src/main/java/com/ticket/domain/Row.java:78-117 | too large a request gets nothing; an available seat 1 gives seats 1..n; otherwise, with f the first available seat from seat 2, the result is nothing when there is none and else exactly the first n available seats of the stride f, f + 2, … (nothing if fewer) |
| `RowSearch.BestSeatsShape` | src/main/java/com/ticket/domain/Row.java:78-117 | the result is empty or exactly n seats of the row, in ascending order |
| `RowSearch.BestSeatsFromSeatOne` | src/main/java/com/ticket/domain/Row.java:78-117 | a non-empty choice starts at seat 1 when seat 1 is available, and consists of available seats otherwise |
| `RowSearch.StrideSeatsWereAvailable` | src/main/java/com/ticket/domain/Row.java:100-104 | when seat 1 is unavailable, every seat handed out was available |
| `RowSearch.SeatOneBranchTakesUnavailableSeat` | src/main/java/com/ticket/domain/Row.java:89-95 | with seat 1 available and seat 2 not, a request for 2 still gets seats 1 and 2 |
| `RowSearch.CollectTakes` | src/main/java/com/ticket/domain/Row.java:132-139 | the stride-2 collection is the first n available seats of the stride |
| `RowSearch.StrideAvailableFacts` | src/main/java/com/ticket/domain/Row.java:132-139 | the stride-2 walk from j lists available seats only, ascending, each an even distance from j, and at most (numSeats - j)/2 + 1 of them |
| `RowSearch.StrideSeatsFacts` | src/main/java/com/ticket/domain/Row.java:127-150 | the stride search from f holds nothing or exactly n seats, ascending, all of them available and at or after f |
| `RowSearch.StrideHoldShape` | src/main/java/com/ticket/domain/Row.java:142-147 | no partial holds: the stride hold equals the stride search, which holds nothing or exactly n seats |
| `RowSearch.ShortCircuitExact` | src/main/java/com/ticket/domain/Row.java:108-110 | the early return never turns a success into a failure: the scan equals the scan without it |
| `RowSearch.PlainScanResult` | src/main/java/com/ticket/domain/Row.java:100-112 | the scan from seat i holds nothing when no seat from i on is available, and otherwise what the stride search from the first available seat holds |
| `RowSearch.PlainScanTooShort` | src/main/java/com/ticket/domain/Row.java:108-110 | past an unavailable seat i, no stride can hold n > (numSeats - i)/2 + (numSeats - i)%2 seats |
| `RowSearch.SingleSeatFound` | src/main/java/com/ticket/domain/Row.java:78-117 | a single seat is found whenever the row has any available seat |
| `RowSearch.CountMark` | src/main/java/com/ticket/domain/Row.java:59-69 | holding the seats ps makes at most \|ps\| seats unavailable and frees none |
| `RowSearch.TenSeatFirstFive` | src/test/java/com/ticket/domain/RowTest.java:24-29 | on a free 10-seat row, 5 seats are seats 1..5 |
| `RowSearch.TenSeatThenStride` | src/test/java/com/ticket/domain/RowTest.java:34-37 | then 3 seats are 6, 8 and 10 |
| `RowSearch.TenSeatThenNothing` | src/test/java/com/ticket/domain/RowTest.java:41-42 | then 3 seats find nothing |
| `RowSearch.TenSeatThenPair` | src/test/java/com/ticket/domain/RowTest.java:45-47 | then 2 seats are 7 and 9 |
| `RowSearch.TenSeatScenario` | src/test/java/com/ticket/domain/RowTest.java:23-49 | the four holds in sequence, each on the availability the previous one left |
| `RowDomain.RowLayoutShape` | src/main/java/com/ticket/domain/Row.java:157-171 | a row line is 1 + 3n characters with no newline and a blank aisle after the odd seats |
| `RowDomain.RowLayoutOddSeat` | src/main/java/com/ticket/domain/Row.java:157-171 | odd seat k is printed left of the aisle, seat 1 next to it and higher odd seats further left |
| `RowDomain.RowLayoutEvenSeat` | src/main/java/com/ticket/domain/Row.java:157-171 | even seat k is printed right of the aisle, seat 2 next to it and higher even seats further right |
| `RowDomain.PrintStep` | src/main/java/com/ticket/domain/Row.java:160-168 | the loop step (odd code in front with a blank before it, even code at the end with a blank after it) extends the layout by one seat |
| `RowDomain.Row.constructor` | src/main/java/com/ticket/domain/Row.java:45-52 | exactly numSeats fresh seats, seat i at index i - 1 with row and seat ids set, none held or reserved |
| `RowDomain.Row.NumberedSeat` | src/main/java/com/ticket/domain/Row.java:45-52 | the seat at index m is among the seats numbered ps iff m + 1 is in ps, since seat i sits at index i - 1 |
| `RowDomain.Row.NumSeatsAvailable` | src/main/java/com/ticket/domain/Row.java:59-69 | the count of seats available at `now`, at most numSeats |
| `RowDomain.Row.HoldSeats` | src/main/java/com/ticket/domain/Row.java:78-117 | returns the seats `BestSeats` picks from the availability before the call; exactly those get a hold at `now`; no other seat and no reservation changes |
| `RowDomain.Row.HoldLeadingSeats` | src/main/java/com/ticket/domain/Row.java:89-95 | seats 1..n are held and returned whether or not they were available |
| `RowDomain.Row.FindStartingSeat` | src/main/java/com/ticket/domain/Row.java:100-112 | the scan from seat 2 finds where the stride collection starts, or reports (0) that the search from seat 2 holds nothing |
| `RowDomain.Row.HoldRightOrLeftSeats` | src/main/java/com/ticket/domain/Row.java:127-150 | holds and returns the first n available seats at stride 2 from the start, or nothing if fewer are found; no other seat changes |
| `RowDomain.Row.CollectAvailableSeats` | src/main/java/com/ticket/domain/Row.java:132-139 | the loop collects the seats `Collect` describes, in order |
| `RowDomain.Row.PlaceHolds` | src/main/java/com/ticket/domain/Row.java:142-147 | every chosen seat, and no other, gets a hold at `now` |
| `RowDomain.Row.Print` | src/main/java/com/ticket/domain/Row.java:157-171 | the row's line is the layout of its seats' codes at `now` |
| `Allocation.DivideIntoCompleteRows` | src/main/java/com/ticket/service/impl/VenueTicketServiceImpl.java:167-179 | for a positive request the parts sum to n, each lies in 1..perRow and all but the last are full rows; a request of no seats, or of fewer than none that Java still divides, gives no parts |
| `Allocation.RepeatThenRest` | src/main/java/com/ticket/service/impl/VenueTicketServiceImpl.java:172-177 | q full rows followed by a remainder r below a row are the division of q * perRow + r |
| `Allocation.DivideExample` | src/test/java/com/ticket/service/impl/VenueTicketServiceImplTest.java:149-158 | 47 seats in rows of 20 are [20, 20, 7] |
| `Allocation.HoldInRowsNone` | src/main/java/com/ticket/service/impl/VenueTicketServiceImpl.java:151-160 | the row scan holds nothing iff no row from the start can hold the request |
| `Allocation.HoldInRowsFacts` | src/main/java/com/ticket/service/impl/VenueTicketServiceImpl.java:151-160 | otherwise it holds the seats `BestSeats` picks in the first row, in scan order, that can hold them |
| `Allocation.HoldInRowsSeats` | src/main/java/com/ticket/service/impl/VenueTicketServiceImpl.java:151-160 | a met sub-request is a non-empty ascending set of seats of one row, starting at seat 1 when that seat is available and all available otherwise |
| `Allocation.MarkRefsAvailable` | src/main/java/com/ticket/service/impl/VenueTicketServiceImpl.java:151-160 | after marking, a seat is available iff it was available and was not marked |
| `Allocation.HoldStep` | src/main/java/com/ticket/service/impl/VenueTicketServiceImpl.java:151-160 | a met sub-request of r seats holds exactly r seats and costs the venue at most r available seats |
| `Allocation.HeldStep` | src/main/java/com/ticket/service/impl/VenueTicketServiceImpl.java:151-160 | a met sub-request keeps the hold free of repeated seats: the new seats are unavailable and not among the seats held so far, and seat 1 of every touched row is unavailable |
| `Allocation.SingleSeatUnmet` | src/main/java/com/ticket/service/impl/VenueTicketServiceImpl.java:151-160 | a 1-seat sub-request goes unmet only when no seat of the venue is available |
| `Allocation.HalveFacts` | src/main/java/com/ticket/service/impl/VenueTicketServiceImpl.java:113-131 | halving succeeds iff every sub-request is at least 2; then each r becomes ceil(r/2) followed by floor(r/2), the halves are positive and the sum is unchanged |
| `Allocation.HalveFails` | src/main/java/com/ticket/service/impl/VenueTicketServiceImpl.java:115-119 | a sub-request of 1 anywhere makes the halving fail |
| `Allocation.HalveMax` | src/main/java/com/ticket/service/impl/VenueTicketServiceImpl.java:113-131 | halving strictly lowers the largest pending sub-request, so the while-loop ends |
| `Allocation.PassHeld` | src/main/java/com/ticket/service/impl/VenueTicketServiceImpl.java:96-110 | a pass extends the held seats and the grid afterwards is the grid before with the new seats marked |
| `Allocation.PassFacts` | src/main/java/com/ticket/service/impl/VenueTicketServiceImpl.java:96-110 | a pass keeps held + pending == n with every pending sub-request >= 1, leaves only old sub-requests pending, and keeps enough available seats for the pending ones |
| `Allocation.PassDistinct` | src/main/java/com/ticket/service/impl/VenueTicketServiceImpl.java:96-110 | a pass keeps the held seats pairwise distinct and unavailable |
| `Allocation.PassSingleUnmet` | src/main/java/com/ticket/service/impl/VenueTicketServiceImpl.java:96-110 | a 1-seat sub-request is left unmet only when no seat is available after the pass |
| `Allocation.RunStep` | src/main/java/com/ticket/service/impl/VenueTicketServiceImpl.java:93-133 | a pass then a halving keeps the loop invariant (held + pending == n, all positive) and lowers the largest pending sub-request |
| `Allocation.RunHeld` | src/main/java/com/ticket/service/impl/VenueTicketServiceImpl.java:93-133 | a successful loop holds exactly n seats, extending the held list, all marked on the grid |
| `Allocation.RunSucceeds` | src/main/java/com/ticket/service/impl/VenueTicketServiceImpl.java:116-119 | with as many available seats as pending ones, the loop always ends with a hold: the failure path of the halving is unreachable |
| `Allocation.RunDistinct` | src/main/java/com/ticket/service/impl/VenueTicketServiceImpl.java:93-133 | the seats of a successful loop are pairwise distinct |
| `Allocation.FindAndHoldRuns` | src/main/java/com/ticket/service/impl/VenueTicketServiceImpl.java:75-93 | a request of 1..available seats starts the loop from its full-row division (or itself when it fits a row), whose parts are positive and sum to n |
| `Allocation.FindAndHoldOutcome` | src/main/java/com/ticket/service/impl/VenueTicketServiceImpl.java:66-142 | no hold iff more seats are asked than available; a rejected request iff n < 0; never the 1-seat failure; otherwise exactly n pairwise distinct seats, and the grid after is the grid before with those seats marked |
| `VenueService.JavaDivision` | src/main/java/com/ticket/service/impl/VenueTicketServiceImpl.java:168-169 | Java's truncating quotient and remainder are the Euclidean ones for a positive dividend, and neither is positive otherwise |
| `VenueService.JavaDivBelow` | src/main/java/com/ticket/service/impl/VenueTicketServiceImpl.java:169-171 | Java's truncating quotient is -2 or less exactly when n <= -2 * perRow, the requests for which `new ArrayList<>(quotient + 1)` throws |
| `VenueService.WithHoldsAppend` | src/main/java/com/ticket/service/impl/VenueTicketServiceImpl.java:96-110 | giving holds at `now` to a then to b is giving them to a + b |
| `VenueService.SeatMapNewlines` | src/main/java/com/ticket/service/impl/VenueTicketServiceImpl.java:229-234 | the seat map has as many newlines as rows plus six: four in the header and two at the end |
| `VenueService.VenueTicketService.constructor` | src/main/java/com/ticket/service/impl/VenueTicketServiceImpl.java:28-33 | numRows rows of numSeatsPerRow fresh seats each, none held or reserved, and no holds or reservations stored |
| `VenueService.VenueTicketService.NumSeatsAvailable` | src/main/java/com/ticket/service/impl/VenueTicketServiceImpl.java:51-60 | the sum over the rows of their available seats at `now` |
| `VenueService.VenueTicketService.HoldSeats` | src/main/java/com/ticket/service/impl/VenueTicketServiceImpl.java:151-160 | the seats held are those of the first row, in order, that can hold the request; exactly those seats get hold time `now`, no other hold time and no reservation changes |
| `VenueService.VenueTicketService.HoldInRow` | src/main/java/com/ticket/service/impl/VenueTicketServiceImpl.java:156-157 | one row's hold, seen on the whole grid: only that row's chosen seats change, each to hold time `now`; no reservation changes |
| `VenueService.VenueTicketService.RowHoldTimes` | src/main/java/com/ticket/service/impl/VenueTicketServiceImpl.java:156-157 | when only a row's chosen seats change hold time, the venue's hold times are the old ones with those seats at `now`, and reservations are as before |
| `VenueService.VenueTicketService.SeatsKept` | src/main/java/com/ticket/service/impl/VenueTicketServiceImpl.java:75-140 | when no seat object changed, the grid, every hold time and every reservation mark are as before |
| `VenueService.VenueTicketService.FindAndHoldSeats` | src/main/java/com/ticket/service/impl/VenueTicketServiceImpl.java:66-142 | the outcome is `FindAndHold` on the grid before, and no reservation changes; too large a request returns no hold and changes no seat, hold or id; a negative request takes a hold id, returns no hold and changes no seat; a held outcome is a fresh hold with the next id, the customer's email, the held seats, expiration now + duration, stored under its id, with exactly its seats given hold time `now` |
| `VenueService.VenueTicketService.NewSeatHold` | src/main/java/com/ticket/service/impl/VenueTicketServiceImpl.java:75-140 | a request that fits takes the next hold id; the hold is discarded when unmet, or committed and stored under its id when met; only the held seats get hold time `now` and no reservation changes |
| `VenueService.VenueTicketService.IssueHold` | src/main/java/com/ticket/service/impl/VenueTicketServiceImpl.java:75 | a new empty hold with the next id; no seat, hold time, reservation or stored hold changes |
| `VenueService.VenueTicketService.DiscardHold` | src/main/java/com/ticket/service/impl/VenueTicketServiceImpl.java:116-119 | the unmet hold is invalidated and not stored; no seat, hold time or reservation changes |
| `VenueService.VenueTicketService.StoreHold` | src/main/java/com/ticket/service/impl/VenueTicketServiceImpl.java:136-140 | the hold is committed with its seats and expiration and stored under its id; no seat, hold time or reservation changes |
| `VenueService.VenueTicketService.AllocateSeats` | src/main/java/com/ticket/service/impl/VenueTicketServiceImpl.java:77-133 | the seat search ends as `FindAndHold` on the grid before, the venue stays consistent, only the held seats get hold time `now` and no reservation changes |
| `VenueService.VenueTicketService.SearchSeats` | src/main/java/com/ticket/service/impl/VenueTicketServiceImpl.java:77-133 | the initial sub-requests and the loop together end as `FindAndHold` on the grid before; only the held seats get hold time `now` and no reservation changes |
| `VenueService.VenueTicketService.InitialSeatRequests` | src/main/java/com/ticket/service/impl/VenueTicketServiceImpl.java:82-90 | a request larger than a row is divided into complete rows; any other stays whole |
| `VenueService.VenueTicketService.HoldRequests` | src/main/java/com/ticket/service/impl/VenueTicketServiceImpl.java:93-133 | the while-loop ends as `Run` on the grid before: met with the held seats, or unmet where a sub-request cannot be halved; only the held seats get hold time `now` and no reservation changes |
| `VenueService.VenueTicketService.HoldPass` | src/main/java/com/ticket/service/impl/VenueTicketServiceImpl.java:96-110 | the for-loop, with its in-place removal and index step back, is one `Pass`; only the seats it holds get hold time `now` and no reservation changes |
| `VenueService.VenueTicketService.HalveRequests` | src/main/java/com/ticket/service/impl/VenueTicketServiceImpl.java:113-131 | the halving loop is `Halve`: ceiling then floor half of each sub-request, or failure on a sub-request below 2 |
| `VenueService.VenueTicketService.DivideSeatRequestsIntoCompleteRows` | src/main/java/com/ticket/service/impl/VenueTicketServiceImpl.java:167-179 | no list (Java's exception) exactly when the row size is 0 or n <= -2 * perRow; otherwise the loop, with Java's truncating division, is `DivideIntoCompleteRows` |
| `VenueService.VenueTicketService.DivisionMatches` | src/main/java/com/ticket/service/impl/VenueTicketServiceImpl.java:168-177 | with Java's truncating quotient q and remainder m, q full rows (none when q is negative) and then m when it is positive are `DivideIntoCompleteRows` of n, for every n |
| `VenueService.VenueTicketService.ReserveSeats` | src/main/java/com/ticket/service/impl/VenueTicketServiceImpl.java:185-204 | an invalidated or expired hold gets no code and nothing changes; otherwise every held seat becomes reserved for the customer, the reservation is stored under the fresh code, and that code is returned |
| `VenueService.VenueTicketService.ReserveHeldSeats` | src/main/java/com/ticket/service/impl/VenueTicketServiceImpl.java:196-198 | exactly the held seats become reserved with the customer's email; hold times and other seats are untouched |
| `VenueService.VenueTicketService.StoreReservation` | src/main/java/com/ticket/service/impl/VenueTicketServiceImpl.java:201-203 | the reservation takes the next code, not used before, and is stored under it |
| `VenueService.VenueTicketService.InvalidateHold` | src/main/java/com/ticket/service/impl/VenueTicketServiceImpl.java:209-212 | the hold is invalidated and is no longer valid at any instant; no seat changes |
| `VenueService.VenueTicketService.PrintVenue` | src/main/java/com/ticket/service/impl/VenueTicketServiceImpl.java:217-235 | the error message when rows or seats per row exceed 40; otherwise the header, each row's line plus a newline, then two newlines |

## Left out

- Console UI, Spring wiring, JPA repositories and annotations, the properties file and logging: these are I/O and foreign library code.
- Concurrency: the Java has no locking. The model is single-threaded.
- The wall clock (`LocalDateTime.now()`) is the parameter `now`, in milliseconds. The hold duration is a natural number of milliseconds. The constructor's `Math.round(seatHoldSeconds * 1000)` is floating point and is not modelled.
- Java `HashMap` iteration over rows and seats is taken to visit keys in ascending order.
- `String.split` and its handling of trailing empty strings: not modelled. `VenueService.SeatMapNewlines` counts newlines instead.
- 32-bit `int` overflow of counters, ids and seat counts: not modelled; integers are unbounded.
- `Decimal.ParseNat`: accepts unsigned digit strings only. It does not model `Integer.parseInt`'s sign or its overflow exception.
- `VenueService.VenueTicketService.ReserveSeats`: requires the hold id to be stored. Java throws a NullPointerException for an unknown id.
- `Holds.SeatHold.constructor`: follows how the service builds a hold (email only, seats and expiration committed later), not the three-argument constructor in SeatHold.java.
- `Holds.SeatHold.CommitSeatHold`, `Holds.SeatHold.Invalidate`, `Holds.SeatHold.IsNotValid`: SeatHold.java does not define these, although the service calls them.
  - They are modelled from that usage.
  - A hold is not valid once invalidated or expired.
  - The expiration is `now` plus the hold duration at commit.
- `Seat.isHeld` reads `Venue.HOLD_DURATION`, which Venue.java does not define. The model passes the venue's hold duration instead.
- `Row.holdSeats` and `placeHold` are called with a `SeatHold` argument in the service and in Row.java. Seat.java's `placeHold` takes no argument, and the model follows Seat.java.
- Invalidating a hold does not release its seats. The seats keep their own hold time and free up only when it lapses, as in the Java.
- `Allocation.FindAndHoldOutcome`: does not state that availability drops by exactly n.
  - The seat-1 branch of `Row.holdSeats` hands out seats 1..n without checking seats 2..n.
  - It can therefore return seats that an earlier hold still holds (`RowSearch.SeatOneBranchTakesUnavailableSeat`), so availability may drop by less than n.
  - Within one call the n seats are pairwise distinct, which the lemma does state.
  - The model proves instead that the grid afterwards is the grid before with the n held seats marked.
- `VenueService.VenueTicketService.FindAndHoldSeats`: for a negative request Java takes a hold id and then throws `IllegalArgumentException` from `new ArrayList<>(n)`. The model takes the id and returns no hold with outcome `Rejected`; the exception itself is not modelled.
- `VenueService.VenueTicketService.DivideSeatRequestsIntoCompleteRows`: Java's `ArithmeticException` (row size 0) and `IllegalArgumentException` (negative capacity) are both modelled as `None`, without telling them apart.
- `VenueService.VenueTicketService.constructor`: the venue layout is inferred from how the service uses it.
  - Venue.java has no `Venue(numRows, numSeatsPerRow)` constructor, no rows and no `getRows` or `getNumSeatsPerRow`.
  - The service's `rows` map, iterated in `holdSeats` and `printVenue`, is never declared.
  - The model builds `numRows` rows of `numSeatsPerRow` seats, numbered from 1, as those uses imply.
  - The dimensions are Java `Long`, which could be negative; the model takes them as natural numbers and so excludes negative dimensions.
- `Seat.getHoldTime` and the other getters are plain field reads of the classes.
