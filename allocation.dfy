/**
 * The cross-row allocator of VenueTicketServiceImpl.findAndHoldSeats, as pure
 * functions over a grid of availability vectors: rows are scanned in order,
 * sub-requests are tried one after another (a met one is removed from the
 * list), and the unmet ones are halved (ceiling first, then floor) until the
 * request is met or a 1-seat sub-request is unmet.
 */
module Allocation {
  import opened Wrappers
  import opened RowSearch

  /** g[r][k] says whether seat k + 1 of row r + 1 is available. */
  type Grid = seq<seq<bool>>

  /** A seat named by its 1-based row and seat numbers. */
  datatype SeatRef = SeatRef(rowId: int, seatId: int)

  /** The number of available seats in the venue: the sum of the rows' counts. */
  function TotalCount(g: Grid): (c: nat)
    ensures c == 0 <==> forall r :: 0 <= r < |g| ==> Count(g[r]) == 0
  {
    if g == [] then 0 else TotalCount(g[..|g| - 1]) + Count(g[|g| - 1])
  }

  /** The seats ps of row rowId, in the same order. */
  function RowRefs(rowId: int, ps: seq<int>): (refs: seq<SeatRef>)
    ensures |refs| == |ps|
    ensures forall k :: 0 <= k < |ps| ==> refs[k] == SeatRef(rowId, ps[k])
  {
    if ps == [] then [] else [SeatRef(rowId, ps[0])] + RowRefs(rowId, ps[1..])
  }

  /** The grid after holds were placed on the seats refs. */
  function MarkRefs(g: Grid, refs: seq<SeatRef>): (g': Grid)
    ensures |g'| == |g|
    ensures forall r :: 0 <= r < |g| ==> |g'[r]| == |g[r]|
  {
    seq(|g|, r requires 0 <= r < |g| =>
      seq(|g[r]|, k requires 0 <= k < |g[r]| => g[r][k] && SeatRef(r + 1, k + 1) !in refs))
  }

  /**
   * The private holdSeats: the first row, from row index i on, whose
   * BestSeats for r seats is not empty gives the seats.
   */
  function HoldInRows(g: Grid, r: int, i: nat): seq<SeatRef>
    requires r >= 1
    decreases |g| - i
  {
    if i >= |g| then []
    else
      var ps := BestSeats(g[i], r);
      if ps != [] then RowRefs(i + 1, ps) else HoldInRows(g, r, i + 1)
  }

  predicate Positive(reqs: seq<int>) {
    forall k :: 0 <= k < |reqs| ==> reqs[k] >= 1
  }

  function Sum(reqs: seq<int>): int {
    if reqs == [] then 0 else reqs[0] + Sum(reqs[1..])
  }

  /** The largest request, 0 for none. */
  function Max(reqs: seq<int>): (m: nat)
    ensures forall k :: 0 <= k < |reqs| ==> reqs[k] <= m
    ensures reqs == [] ==> m == 0
    ensures Positive(reqs) && reqs != [] ==> m >= 1
  {
    if reqs == [] then 0
    else
      var rest := Max(reqs[1..]);
      if reqs[0] >= rest then reqs[0] else rest
  }

  function Remove(reqs: seq<int>, i: int): seq<int>
    requires 0 <= i < |reqs|
  {
    reqs[..i] + reqs[i + 1..]
  }

  datatype PassResult = PassResult(grid: Grid, held: seq<SeatRef>, unmet: seq<int>)

  /**
   * One pass of the for-loop over the sub-requests, from index i on: a met
   * sub-request is removed (the index stays), an unmet one is skipped, and
   * the pass stops as soon as n seats are held.
   */
  function Pass(g: Grid, n: int, reqs: seq<int>, i: nat, held: seq<SeatRef>): PassResult
    requires i <= |reqs| && Positive(reqs)
    decreases |reqs| - i
  {
    if i == |reqs| then PassResult(g, held, reqs)
    else
      var got := HoldInRows(g, reqs[i], 0);
      if got == [] then Pass(g, n, reqs, i + 1, held)
      else
        var g', held', reqs' := MarkRefs(g, got), held + got, Remove(reqs, i);
        if |held'| >= n then PassResult(g', held', reqs')
        else Pass(g', n, reqs', i, held')
  }

  /** A sub-request split into its ceiling half and its floor half. */
  function Halves(request: int): seq<int> {
    var halved := request / 2;
    [if request % 2 == 1 then halved + 1 else halved, halved]
  }

  /**
   * Every unmet sub-request halved, ceiling half first; None when some
   * sub-request is below 2 and cannot be halved.
   */
  function Halve(reqs: seq<int>): (r: Option<seq<int>>)
    requires Positive(reqs)
  {
    if reqs == [] then Some([])
    else if reqs[0] / 2 < 1 then None
    else match Halve(reqs[1..])
      case None => None
      case Some(rest) => Some(Halves(reqs[0]) + rest)
  }

  datatype Outcome =
    | Insufficient                                    // more seats asked than available
    | Rejected                                        // a negative request: the hold list cannot be allocated
    | Unsatisfiable(grid: Grid)                       // a 1-seat sub-request went unmet
    | Held(grid: Grid, seats: seq<SeatRef>)           // the committed hold

  /** The outer while-loop: passes and halvings until n seats are held. */
  function Run(g: Grid, n: int, reqs: seq<int>, held: seq<SeatRef>): Outcome
    requires |held| + Sum(reqs) == n && Positive(reqs)
    decreases Max(reqs)
  {
    if |held| >= n then Held(g, held)
    else
      var p := Pass(g, n, reqs, 0, held);
      RunStep(g, n, reqs, held);
      match Halve(p.unmet)
        case None => Unsatisfiable(p.grid)
        case Some(h) => Run(p.grid, n, h, p.held)
  }

  /**
   * n seats as requests of a full row each, then the remainder if any: a
   * whole row while more than a row is left, then what is left.
   */
  function DivideIntoCompleteRows(n: int, perRow: int): (reqs: seq<int>)
    requires perRow >= 1
    ensures n <= 0 ==> reqs == []
    ensures n >= 0 ==> Sum(reqs) == n
    ensures forall k :: 0 <= k < |reqs| ==> 1 <= reqs[k] <= perRow
    ensures forall k :: 0 <= k < |reqs| - 1 ==> reqs[k] == perRow
    decreases n
  {
    if n <= 0 then []
    else if n <= perRow then [n]
    else
      var rest := DivideIntoCompleteRows(n - perRow, perRow);
      assert ([perRow] + rest)[1..] == rest;
      [perRow] + rest
  }

  /** q full rows and then a remainder r below a row are the division of q * perRow + r. */
  lemma {:induction false} RepeatThenRest(q: nat, r: int, perRow: int)
    requires perRow >= 1 && 0 <= r < perRow
    ensures Repeat(perRow, q) + (if r > 0 then [r] else []) == DivideIntoCompleteRows(q * perRow + r, perRow)
  {
    if q > 0 {
      RepeatThenRest(q - 1, r, perRow);
      assert q * perRow + r - perRow == (q - 1) * perRow + r;
      assert Repeat(perRow, q) == [perRow] + Repeat(perRow, q - 1);
      if q == 1 && r == 0 {
        assert Repeat(perRow, 1) == [perRow];
      }
    }
  }

  function Repeat(x: int, count: nat): (s: seq<int>)
    ensures |s| == count && forall k :: 0 <= k < count ==> s[k] == x
  {
    if count == 0 then [] else Repeat(x, count - 1) + [x]
  }

  /** The sub-requests a request of n seats starts from. */
  function InitialRequests(n: int, perRow: int): seq<int>
    requires perRow >= 1
  {
    if n > perRow then DivideIntoCompleteRows(n, perRow) else [n]
  }

  predicate Shaped(g: Grid, perRow: int) {
    forall r :: 0 <= r < |g| ==> |g[r]| == perRow
  }

  /**
   * VenueTicketServiceImpl.findAndHoldSeats over the grid of availability at
   * one instant. A negative request passes the availability test and is
   * Rejected where Java sizes the list of held seats by it; a request of
   * zero seats commits an empty hold.
   */
  function FindAndHold(g: Grid, n: int, perRow: nat): Outcome
    requires Shaped(g, perRow)
  {
    if n > TotalCount(g) then Insufficient
    else if n < 0 then Rejected
    else if n == 0 then Held(g, [])
    else
      NoSeatsNoCount(g, perRow);
      var reqs := InitialRequests(n, perRow);
      assert Sum([n]) == n;
      Run(g, n, reqs, [])
  }

  // ---------------------------------------------------------------------
  // Lemmas

  lemma {:induction false} SumAppend(a: seq<int>, b: seq<int>)
    ensures Sum(a + b) == Sum(a) + Sum(b)
  {
    if a != [] {
      assert (a + b)[0] == a[0];
      assert (a + b)[1..] == a[1..] + b;
      SumAppend(a[1..], b);
    } else {
      assert a + b == b;
    }
  }

  lemma RemoveSum(reqs: seq<int>, i: int)
    requires 0 <= i < |reqs|
    ensures Sum(Remove(reqs, i)) == Sum(reqs) - reqs[i]
  {
    var before, after := reqs[..i], reqs[i + 1..];
    SplitAt(reqs, i);
    SumAppend(before, [reqs[i]] + after);
    SumCons(reqs[i], after);
    SumAppend(before, after);
  }

  lemma SplitAt(s: seq<int>, i: int)
    requires 0 <= i < |s|
    ensures s == s[..i] + ([s[i]] + s[i + 1..])
  {
  }

  lemma SumCons(x: int, s: seq<int>)
    ensures Sum([x] + s) == x + Sum(s)
  {
    assert ([x] + s)[1..] == s;
  }

  /** Positive requests summing to at most zero are no requests at all. */
  lemma {:induction false} SumPositive(reqs: seq<int>)
    requires Positive(reqs)
    ensures Sum(reqs) >= |reqs|
  {
    if reqs != [] {
      SumPositive(reqs[1..]);
    }
  }

  /** Counting the rows one more at a time. */
  lemma TotalCountPrefix(g: Grid, r: int)
    requires 0 <= r < |g|
    ensures TotalCount(g[..r + 1]) == TotalCount(g[..r]) + Count(g[r])
  {
    assert g[..r + 1][..r] == g[..r];
  }

  lemma {:induction false} NoSeatsNoCount(g: Grid, perRow: nat)
    requires Shaped(g, perRow)
    ensures perRow == 0 ==> TotalCount(g) == 0
  {
    if perRow == 0 && g != [] {
      NoSeatsNoCount(g[..|g| - 1], perRow);
    }
  }

  /**
   * The search over rows one at a time: when rows before i gave nothing, row
   * i's seats are the answer if there are any, and otherwise the search
   * goes on from row i + 1.
   */
  lemma HoldInRowsStep(g: Grid, r: int, i: nat, got: seq<SeatRef>)
    requires r >= 1 && i < |g| && HoldInRows(g, r, i) == HoldInRows(g, r, 0)
    requires got == RowRefs(i + 1, BestSeats(g[i], r))
    ensures got != [] ==> got == HoldInRows(g, r, 0)
    ensures got == [] ==> HoldInRows(g, r, i + 1) == HoldInRows(g, r, 0)
  {
  }

  /** HoldInRows gives nothing exactly when no row from i on has BestSeats for r seats. */
  lemma {:induction false} HoldInRowsNone(g: Grid, r: int, i: nat)
    requires r >= 1
    ensures HoldInRows(g, r, i) == [] <==> forall j :: i <= j < |g| ==> BestSeats(g[j], r) == []
    decreases |g| - i
  {
    if i < |g| && BestSeats(g[i], r) == [] {
      HoldInRowsNone(g, r, i + 1);
    } else if i < |g| {
      RowRefsNonEmpty(i + 1, BestSeats(g[i], r));
    }
  }

  lemma RowRefsNonEmpty(rowId: int, ps: seq<int>)
    requires ps != []
    ensures RowRefs(rowId, ps) != []
  {
  }

  /** Otherwise it gives BestSeats of the first row that has them, as that row's seats. */
  lemma {:induction false} HoldInRowsFacts(g: Grid, r: int, i: nat) returns (j: int)
    requires r >= 1 && HoldInRows(g, r, i) != []
    ensures i <= j < |g| && FirstRowWithSeats(g, r, i, j) && HoldInRows(g, r, i) == RowRefs(j + 1, BestSeats(g[j], r))
    decreases |g| - i
  {
    assert i < |g|;
    var ps := BestSeats(g[i], r);
    if ps == [] {
      assert HoldInRows(g, r, i) == HoldInRows(g, r, i + 1);
      j := HoldInRowsFacts(g, r, i + 1);
      assert forall m :: i + 1 <= m < j ==> BestSeats(g[m], r) == [];
    } else {
      j := i;
      assert HoldInRows(g, r, i) == RowRefs(i + 1, ps);
    }
  }

  /** A hold of r seats costs the venue at most r available seats and frees none. */
  lemma HoldStep(g: Grid, r: int)
    requires r >= 1
    ensures var got := HoldInRows(g, r, 0);
      got != [] ==> |got| == r && TotalCount(g) - r <= TotalCount(MarkRefs(g, got)) <= TotalCount(g)
  {
    var got := HoldInRows(g, r, 0);
    if got != [] {
      HoldInRowsShape(g, r);
      var j := HoldInRowsFacts(g, r, 0);
      TotalCountMark(g, got, j, BestSeats(g[j], r));
    }
  }

  /** A single seat is found whenever any seat of the venue is available. */
  lemma SingleSeatUnmet(g: Grid)
    requires HoldInRows(g, 1, 0) == []
    ensures TotalCount(g) == 0
  {
    HoldInRowsNone(g, 1, 0);
    forall r | 0 <= r < |g|
      ensures Count(g[r]) == 0
    {
      if Count(g[r]) != 0 {
        SingleSeatFound(g[r]);
      }
    }
  }

  /** Row j is the first row from i on for which BestSeats finds r seats. */
  predicate FirstRowWithSeats(g: Grid, r: int, i: int, j: int)
    requires r >= 1 && 0 <= i <= j < |g|
  {
    BestSeats(g[j], r) != [] && forall m :: i <= m < j ==> BestSeats(g[m], r) == []
  }

  /** What HoldInRows holds is exactly r seats, all of one row and within it. */
  lemma HoldInRowsShape(g: Grid, r: int)
    requires r >= 1
    ensures var got := HoldInRows(g, r, 0);
      && (got == [] || |got| == r)
      && forall k :: 0 <= k < |got| ==> 1 <= got[k].rowId <= |g| && 1 <= got[k].seatId <= |g[got[k].rowId - 1]|
  {
    var got := HoldInRows(g, r, 0);
    if got != [] {
      var j := HoldInRowsFacts(g, r, 0);
      var ps := BestSeats(g[j], r);
      BestSeatsShape(g[j], r);
      assert got == RowRefs(j + 1, ps) && |ps| == r;
      RowRefsWithin(g, j, ps);
    }
  }

  /** Seats within row j + 1 give refs within the grid. */
  lemma RowRefsWithin(g: Grid, j: int, ps: seq<int>)
    requires 0 <= j < |g| && forall k :: 0 <= k < |ps| ==> 1 <= ps[k] <= |g[j]|
    ensures var refs := RowRefs(j + 1, ps);
      forall k :: 0 <= k < |refs| ==> 1 <= refs[k].rowId <= |g| && 1 <= refs[k].seatId <= |g[refs[k].rowId - 1]|
  {
    var refs := RowRefs(j + 1, ps);
    forall k | 0 <= k < |refs|
      ensures 1 <= refs[k].rowId <= |g| && 1 <= refs[k].seatId <= |g[refs[k].rowId - 1]|
    {
      assert refs[k] == SeatRef(j + 1, ps[k]);
    }
  }

  /** A list extending a + b extends a, with b first in its part after a. */
  lemma ExtendTwice(a: seq<SeatRef>, b: seq<SeatRef>, c: seq<SeatRef>)
    requires |c| >= |a + b| && c[..|a + b|] == a + b
    ensures c[..|a|] == a && c[|a|..] == b + c[|a + b|..]
  {
    assert c == (a + b) + c[|a + b|..];
  }

  /** Marking in two steps is marking once with both lists. */
  lemma MarkRefsTwice(g: Grid, a: seq<SeatRef>, b: seq<SeatRef>)
    ensures MarkRefs(MarkRefs(g, a), b) == MarkRefs(g, a + b)
  {
    var l, r := MarkRefs(MarkRefs(g, a), b), MarkRefs(g, a + b);
    forall i | 0 <= i < |g|
      ensures l[i] == r[i]
    {
      forall k | 0 <= k < |g[i]|
        ensures l[i][k] == r[i][k]
      {
        assert SeatRef(i + 1, k + 1) in a + b <==> SeatRef(i + 1, k + 1) in a || SeatRef(i + 1, k + 1) in b;
      }
    }
  }

  lemma MarkRefsNone(g: Grid)
    ensures MarkRefs(g, []) == g
  {
    var l := MarkRefs(g, []);
    forall i | 0 <= i < |g|
      ensures l[i] == g[i]
    {
    }
  }

  /** Marking the seats ps of row j + 1 marks row j as Mark does and leaves the other rows alone. */
  lemma MarkRowRefs(g: Grid, j: int, ps: seq<int>)
    requires 0 <= j < |g|
    ensures var g' := MarkRefs(g, RowRefs(j + 1, ps));
      && g'[j] == Mark(g[j], ps)
      && forall i :: 0 <= i < |g| && i != j ==> g'[i] == g[i]
  {
    var refs := RowRefs(j + 1, ps);
    var g' := MarkRefs(g, refs);
    forall k | 0 <= k < |g[j]|
      ensures g'[j][k] == Mark(g[j], ps)[k]
    {
      assert SeatRef(j + 1, k + 1) in refs <==> k + 1 in ps by {
        if k + 1 in ps {
          var m :| 0 <= m < |ps| && ps[m] == k + 1;
          assert refs[m] == SeatRef(j + 1, k + 1);
        }
      }
    }
    forall i | 0 <= i < |g| && i != j
      ensures g'[i] == g[i]
    {
      forall k | 0 <= k < |g[i]|
        ensures g'[i][k] == g[i][k]
      {
        assert SeatRef(i + 1, k + 1) !in refs;
      }
    }
  }

  /** Marking never makes a seat available, and costs at most one available seat per ref. */
  lemma {:induction false} TotalCountMark(g: Grid, refs: seq<SeatRef>, j: int, ps: seq<int>)
    requires 0 <= j < |g| && refs == RowRefs(j + 1, ps)
    ensures TotalCount(g) - |ps| <= TotalCount(MarkRefs(g, refs)) <= TotalCount(g)
  {
    MarkRowRefs(g, j, ps);
    CountMark(g[j], ps);
    TotalCountRow(g, MarkRefs(g, refs), j);
  }

  /** Two grids differing only in row j differ in TotalCount by that row's counts. */
  lemma {:induction false} TotalCountRow(g: Grid, g': Grid, j: int)
    requires |g| == |g'| && 0 <= j < |g|
    requires forall i :: 0 <= i < |g| && i != j ==> g'[i] == g[i]
    ensures TotalCount(g') - TotalCount(g) == Count(g'[j]) - Count(g[j])
  {
    var m := |g| - 1;
    if j == m {
      assert g[..m] == g'[..m];
    } else {
      TotalCountRow(g[..m], g'[..m], j);
    }
  }

  /** The halves are the ceiling and floor halves of each sub-request, in order. */
  lemma HalveFacts(reqs: seq<int>)
    requires Positive(reqs)
    ensures Halve(reqs).Some? <==> forall k :: 0 <= k < |reqs| ==> reqs[k] >= 2
    ensures Halve(reqs).Some? ==>
      var h := Halve(reqs).value;
      && |h| == 2 * |reqs| && Positive(h) && Sum(h) == Sum(reqs)
      && forall k :: 0 <= k < |reqs| ==> h[2 * k] == (reqs[k] + 1) / 2 && h[2 * k + 1] == reqs[k] / 2
  {
    HalveSome(reqs);
    if Halve(reqs).Some? {
      HalveSum(reqs);
      HalveValues(reqs);
    }
  }

  lemma {:induction false} HalveSome(reqs: seq<int>)
    requires Positive(reqs)
    ensures Halve(reqs).Some? <==> forall k :: 0 <= k < |reqs| ==> reqs[k] >= 2
  {
    if reqs != [] {
      HalveSome(reqs[1..]);
      assert forall k :: 1 <= k < |reqs| ==> reqs[k] == reqs[1..][k - 1];
    }
  }

  lemma {:induction false} HalveSum(reqs: seq<int>)
    requires Positive(reqs) && Halve(reqs).Some?
    ensures var h := Halve(reqs).value; |h| == 2 * |reqs| && Positive(h) && Sum(h) == Sum(reqs)
  {
    if reqs != [] {
      HalveSum(reqs[1..]);
      var rest := Halve(reqs[1..]).value;
      var halves := Halves(reqs[0]);
      assert Halve(reqs).value == halves + rest;
      SumAppend(halves, rest);
      assert Sum(halves) == halves[0] + Sum([halves[1]]);
      assert Sum([halves[1]]) == halves[1] + Sum([]);
    }
  }

  lemma {:induction false} HalveValues(reqs: seq<int>)
    requires Positive(reqs) && Halve(reqs).Some?
    ensures var h := Halve(reqs).value;
      && |h| == 2 * |reqs|
      && forall k :: 0 <= k < |reqs| ==> h[2 * k] == (reqs[k] + 1) / 2 && h[2 * k + 1] == reqs[k] / 2
  {
    if reqs != [] {
      HalveValues(reqs[1..]);
      var rest := Halve(reqs[1..]).value;
      var h := Halves(reqs[0]) + rest;
      assert Halve(reqs).value == h;
      forall k | 0 <= k < |reqs|
        ensures h[2 * k] == (reqs[k] + 1) / 2 && h[2 * k + 1] == reqs[k] / 2
      {
        if k > 0 {
          assert reqs[k] == reqs[1..][k - 1];
          assert h[2 * k] == rest[2 * (k - 1)];
          assert h[2 * k + 1] == rest[2 * (k - 1) + 1];
        }
      }
    }
  }

  /** Halving a prefix one sub-request longer appends that sub-request's halves. */
  lemma {:induction false} HalveAppend(a: seq<int>, x: int)
    requires Positive(a + [x])
    ensures Positive(a)
    ensures Halve(a + [x]) == match Halve(a)
      case None => None
      case Some(h) => if x / 2 < 1 then None else Some(h + Halves(x))
  {
    assert forall k :: 0 <= k < |a| ==> a[k] == (a + [x])[k];
    if a == [] {
      assert a + [x] == [x] && [x][1..] == [];
      assert [] + Halves(x) == Halves(x) + [];
    } else {
      assert (a + [x])[1..] == a[1..] + [x];
      HalveAppend(a[1..], x);
      match Halve(a[1..]) {
        case None =>
        case Some(h) =>
          if x / 2 >= 1 && a[0] / 2 >= 1 {
            assert Halves(a[0]) + (h + Halves(x)) == (Halves(a[0]) + h) + Halves(x);
          }
      }
    }
  }

  /** A sub-request below 2 anywhere makes the halving fail. */
  lemma HalveFails(reqs: seq<int>, k: int)
    requires Positive(reqs) && 0 <= k < |reqs| && reqs[k] / 2 < 1
    ensures Halve(reqs) == None
  {
    HalveFacts(reqs);
  }

  /** Halving lowers the largest sub-request. */
  lemma HalveMax(reqs: seq<int>)
    requires Positive(reqs) && reqs != [] && Halve(reqs).Some?
    ensures Max(Halve(reqs).value) < Max(reqs)
  {
    HalveSome(reqs);
    HalveSum(reqs);
    HalveValues(reqs);
    HalvedMaxBelow(reqs, Halve(reqs).value);
  }

  /** Halves of sub-requests of at least two seats are each below the largest sub-request. */
  lemma HalvedMaxBelow(reqs: seq<int>, h: seq<int>)
    requires reqs != [] && |h| == 2 * |reqs| && Positive(h)
    requires forall k :: 0 <= k < |reqs| ==> reqs[k] >= 2
    requires forall k :: 0 <= k < |reqs| ==> h[2 * k] == (reqs[k] + 1) / 2 && h[2 * k + 1] == reqs[k] / 2
    ensures Max(h) < Max(reqs)
  {
    var m := MaxAt(h);
    var k := HalfBelow(reqs, h, m);
    assert reqs[k] <= Max(reqs);
  }

  /** Each half lies below the sub-request it was halved from. */
  lemma HalfBelow(reqs: seq<int>, h: seq<int>, m: int) returns (k: int)
    requires |h| == 2 * |reqs| && 0 <= m < |h|
    requires forall k :: 0 <= k < |reqs| ==> reqs[k] >= 2
    requires forall k :: 0 <= k < |reqs| ==> h[2 * k] == (reqs[k] + 1) / 2 && h[2 * k + 1] == reqs[k] / 2
    ensures 0 <= k < |reqs| && h[m] < reqs[k]
  {
    var odd;
    k, odd := HalfIndex(m);
    HalvesBelow(reqs[k]);
    if odd == 0 {
      assert h[m] == h[2 * k];
    } else {
      assert h[m] == h[2 * k + 1];
    }
  }

  /** Index m of the halves is half k of sub-request k. */
  lemma HalfIndex(m: int) returns (k: int, odd: int)
    requires m >= 0
    ensures m == 2 * k + odd && 0 <= odd < 2 && 0 <= k
  {
    k, odd := m / 2, m % 2;
  }

  lemma HalvesBelow(x: int)
    requires x >= 2
    ensures (x + 1) / 2 < x && x / 2 < x
  {
  }

  /** Where the largest sub-request sits. */
  lemma {:induction false} MaxAt(reqs: seq<int>) returns (m: int)
    requires Positive(reqs) && reqs != []
    ensures 0 <= m < |reqs| && reqs[m] == Max(reqs)
  {
    if reqs[0] >= Max(reqs[1..]) {
      m := 0;
    } else {
      m := MaxAt(reqs[1..]);
      m := m + 1;
    }
  }

  lemma SubsetMax(sub: seq<int>, reqs: seq<int>)
    requires Positive(sub)
    requires forall x :: x in sub ==> x in reqs
    ensures Max(sub) <= Max(reqs)
  {
    if sub != [] {
      var m := MaxAt(sub);
      assert sub[m] in reqs;
    }
  }

  /**
   * What a pass keeps: the seats it holds extend the held list and are
   * marked on the grid.
   */
  lemma {:induction false} PassHeld(g: Grid, n: int, reqs: seq<int>, i: nat, held: seq<SeatRef>)
    requires i <= |reqs| && Positive(reqs)
    ensures var p := Pass(g, n, reqs, i, held);
      && |p.held| >= |held| && p.held[..|held|] == held
      && p.grid == MarkRefs(g, p.held[|held|..])
    decreases |reqs| - i
  {
    var p := Pass(g, n, reqs, i, held);
    if i == |reqs| {
      assert held[|held|..] == [];
      MarkRefsNone(g);
    } else {
      var got := HoldInRows(g, reqs[i], 0);
      if got == [] {
        PassHeld(g, n, reqs, i + 1, held);
      } else {
        var g', held', reqs' := MarkRefs(g, got), held + got, Remove(reqs, i);
        if |held'| >= n {
          assert held'[|held|..] == got;
        } else {
          PassHeld(g', n, reqs', i, held');
          assert p == Pass(g', n, reqs', i, held');
          ExtendTwice(held, got, p.held);
          MarkRefsTwice(g, got, p.held[|held'|..]);
        }
      }
    }
  }

  /**
   * Held plus pending seats stays the same over a pass, the pending
   * sub-requests are some of the old ones, and availability never falls
   * short of the pending seats if it did not before.
   */
  lemma PassFacts(g: Grid, n: int, reqs: seq<int>, i: nat, held: seq<SeatRef>)
    requires i <= |reqs| && Positive(reqs)
    ensures var p := Pass(g, n, reqs, i, held);
      && |p.held| + Sum(p.unmet) == |held| + Sum(reqs)
      && Positive(p.unmet)
      && (forall x :: x in p.unmet ==> x in reqs)
      && (TotalCount(g) >= Sum(reqs) ==> TotalCount(p.grid) >= Sum(p.unmet))
  {
    PassKeeps(g, n, reqs, i, held);
    if TotalCount(g) >= Sum(reqs) {
      PassCount(g, n, reqs, i, held);
    }
  }

  lemma {:induction false} PassKeeps(g: Grid, n: int, reqs: seq<int>, i: nat, held: seq<SeatRef>)
    requires i <= |reqs| && Positive(reqs)
    ensures var p := Pass(g, n, reqs, i, held);
      && |p.held| + Sum(p.unmet) == |held| + Sum(reqs)
      && Positive(p.unmet)
      && (forall x :: x in p.unmet ==> x in reqs)
    decreases |reqs| - i
  {
    if i < |reqs| {
      var got := HoldInRows(g, reqs[i], 0);
      if got == [] {
        PassKeeps(g, n, reqs, i + 1, held);
      } else {
        HoldInRowsShape(g, reqs[i]);
        RemoveSum(reqs, i);
        RemoveKeeps(reqs, i);
        var g', held', reqs' := MarkRefs(g, got), held + got, Remove(reqs, i);
        if |held'| < n {
          PassKeeps(g', n, reqs', i, held');
        }
      }
    }
  }

  lemma {:induction false} PassCount(g: Grid, n: int, reqs: seq<int>, i: nat, held: seq<SeatRef>)
    requires i <= |reqs| && Positive(reqs) && TotalCount(g) >= Sum(reqs)
    ensures var p := Pass(g, n, reqs, i, held); TotalCount(p.grid) >= Sum(p.unmet)
    decreases |reqs| - i
  {
    if i < |reqs| {
      var got := HoldInRows(g, reqs[i], 0);
      if got == [] {
        PassCount(g, n, reqs, i + 1, held);
      } else {
        HoldStep(g, reqs[i]);
        RemoveSum(reqs, i);
        RemoveKeeps(reqs, i);
        var g', held', reqs' := MarkRefs(g, got), held + got, Remove(reqs, i);
        if |held'| < n {
          PassCount(g', n, reqs', i, held');
        }
      }
    }
  }

  /** One step of the pass at sub-request i, given what the rows hold for it. */
  lemma PassStep(g: Grid, n: int, reqs: seq<int>, i: nat, held: seq<SeatRef>, got: seq<SeatRef>)
    requires i < |reqs| && Positive(reqs) && got == HoldInRows(g, reqs[i], 0)
    ensures got == [] ==> Pass(g, n, reqs, i, held) == Pass(g, n, reqs, i + 1, held)
    ensures got != [] ==> Positive(Remove(reqs, i)) && i <= |Remove(reqs, i)|
    ensures got != [] ==>
      Pass(g, n, reqs, i, held) ==
        if |held + got| >= n then PassResult(MarkRefs(g, got), held + got, Remove(reqs, i))
        else Pass(MarkRefs(g, got), n, Remove(reqs, i), i, held + got)
  {
    RemoveKeeps(reqs, i);
  }

  /** Removing a sub-request keeps the others, all positive. */
  lemma RemoveKeeps(reqs: seq<int>, i: int)
    requires 0 <= i < |reqs| && Positive(reqs)
    ensures Positive(Remove(reqs, i)) && forall x :: x in Remove(reqs, i) ==> x in reqs
  {
    var r := Remove(reqs, i);
    forall k | 0 <= k < |r|
      ensures r[k] == reqs[if k < i then k else k + 1]
    {
    }
  }

  /**
   * A 1-seat sub-request only goes unmet when no seat of the venue is
   * available, and then none becomes available later in the pass.
   */
  lemma {:induction false} PassSingleUnmet(g: Grid, n: int, reqs: seq<int>, i: nat, held: seq<SeatRef>)
    requires i <= |reqs| && Positive(reqs) && |held| + Sum(reqs) == n
    requires 1 in reqs[..i] ==> TotalCount(g) == 0
    ensures var p := Pass(g, n, reqs, i, held);
      1 in p.unmet ==> TotalCount(p.grid) == 0
    decreases |reqs| - i
  {
    var p := Pass(g, n, reqs, i, held);
    if i < |reqs| {
      var got := HoldInRows(g, reqs[i], 0);
      if got == [] {
        if reqs[i] == 1 {
          SingleSeatUnmet(g);
        }
        assert reqs[..i + 1] == reqs[..i] + [reqs[i]];
        PassSingleUnmet(g, n, reqs, i + 1, held);
      } else {
        HoldStep(g, reqs[i]);
        var g', held', reqs' := MarkRefs(g, got), held + got, Remove(reqs, i);
        RemoveSum(reqs, i);
        RemoveKeeps(reqs, i);
        if |held'| >= n {
          SumPositive(reqs');
        } else {
          assert reqs'[..i] == reqs[..i];
          PassSingleUnmet(g', n, reqs', i, held');
        }
      }
    }
  }

  /**
   * After a pass that leaves n unmet, the halved sub-requests keep the
   * invariant and have a smaller largest sub-request: the outer loop ends.
   */
  lemma RunStep(g: Grid, n: int, reqs: seq<int>, held: seq<SeatRef>)
    requires |held| + Sum(reqs) == n && Positive(reqs) && |held| < n
    ensures Positive(Pass(g, n, reqs, 0, held).unmet)
    ensures var p := Pass(g, n, reqs, 0, held);
      Halve(p.unmet).Some? ==>
        var h := Halve(p.unmet).value;
        |p.held| + Sum(h) == n && Positive(h) && Max(h) < Max(reqs)
  {
    var p := Pass(g, n, reqs, 0, held);
    PassFacts(g, n, reqs, 0, held);
    HalveFacts(p.unmet);
    if Halve(p.unmet).Some? {
      if p.unmet != [] {
        HalveMax(p.unmet);
        SubsetMax(p.unmet, reqs);
      } else {
        SumPositive(reqs);
      }
    }
  }

  /** The outcome of Run: exactly n seats held, all marked on the grid. */
  lemma {:induction false} RunHeld(g: Grid, n: int, reqs: seq<int>, held: seq<SeatRef>)
    requires |held| + Sum(reqs) == n && Positive(reqs)
    ensures var o := Run(g, n, reqs, held);
      o.Held? ==> |o.seats| == n && o.seats[..|held|] == held && o.grid == MarkRefs(g, o.seats[|held|..])
    decreases Max(reqs)
  {
    if |held| >= n {
      SumPositive(reqs);
      assert held[|held|..] == [];
      MarkRefsNone(g);
    } else {
      var p := Pass(g, n, reqs, 0, held);
      PassHeld(g, n, reqs, 0, held);
      RunStep(g, n, reqs, held);
      match Halve(p.unmet) {
        case None =>
        case Some(h) =>
          RunHeld(p.grid, n, h, p.held);
          var o := Run(p.grid, n, h, p.held);
          assert Run(g, n, reqs, held) == o;
          if o.Held? {
            ExtendTwice(held, p.held[|held|..], o.seats);
            MarkRefsTwice(g, p.held[|held|..], o.seats[|p.held|..]);
          }
      }
    }
  }

  /**
   * With as many available seats as pending ones, Run always ends with a hold:
   * its 1-seat failure path cannot be reached by a single caller.
   */
  lemma {:induction false} RunSucceeds(g: Grid, n: int, reqs: seq<int>, held: seq<SeatRef>)
    requires |held| + Sum(reqs) == n && Positive(reqs)
    requires TotalCount(g) >= Sum(reqs)
    ensures Run(g, n, reqs, held).Held?
    decreases Max(reqs)
  {
    if |held| < n {
      var p := Pass(g, n, reqs, 0, held);
      PassFacts(g, n, reqs, 0, held);
      PassSingleUnmet(g, n, reqs, 0, held);
      HalveFacts(p.unmet);
      if Halve(p.unmet).None? {
        var k :| 0 <= k < |p.unmet| && p.unmet[k] < 2;
        assert p.unmet[k] == 1;
        SumPositive(p.unmet);
        assert false;
      }
      var h := Halve(p.unmet).value;
      RunStep(g, n, reqs, held);
      RunSucceeds(p.grid, n, h, p.held);
    }
  }

  /** ref names a seat of the grid that is available. */
  predicate Available(g: Grid, ref: SeatRef) {
    1 <= ref.rowId <= |g| && 1 <= ref.seatId <= |g[ref.rowId - 1]| && g[ref.rowId - 1][ref.seatId - 1]
  }

  predicate Distinct(refs: seq<SeatRef>) {
    forall a, b :: 0 <= a < b < |refs| ==> refs[a] != refs[b]
  }

  /**
   * What one findAndHoldSeats call has held so far, against the grid it has
   * left: no seat twice, none of them available, and seat 1 of each of
   * their rows not available either.
   */
  predicate HeldInGrid(g: Grid, held: seq<SeatRef>) {
    && Distinct(held)
    && forall k :: 0 <= k < |held| ==> !Available(g, held[k]) && !Available(g, SeatRef(held[k].rowId, 1))
  }

  /** Marking makes exactly the marked seats unavailable. */
  lemma MarkRefsAvailable(g: Grid, refs: seq<SeatRef>)
    ensures forall ref :: Available(MarkRefs(g, refs), ref) <==> Available(g, ref) && ref !in refs
  {
  }

  /**
   * What HoldInRows holds is seats ps of one row j + 1, in ascending order,
   * starting at seat 1 when seat 1 was available and all available otherwise.
   */
  lemma HoldInRowsSeats(g: Grid, r: int) returns (j: int, ps: seq<int>)
    requires r >= 1 && HoldInRows(g, r, 0) != []
    ensures 0 <= j < |g| && HoldInRows(g, r, 0) == RowRefs(j + 1, ps)
    ensures ps != [] && Increasing(ps) && |g[j]| >= 1
    ensures g[j][0] ==> ps[0] == 1
    ensures !g[j][0] ==> AvailableFrom(g[j], 1, ps)
  {
    j := HoldInRowsFacts(g, r, 0);
    ps := BestSeats(g[j], r);
    BestSeatsShape(g[j], r);
    BestSeatsFromSeatOne(g[j], r);
  }

  /** Seats in ascending order give distinct refs. */
  lemma RowRefsDistinct(rowId: int, ps: seq<int>)
    requires Increasing(ps)
    ensures Distinct(RowRefs(rowId, ps))
  {
    var refs := RowRefs(rowId, ps);
    forall a, b | 0 <= a < b < |refs|
      ensures refs[a] != refs[b]
    {
      assert refs[a].seatId == ps[a] < ps[b] == refs[b].seatId;
    }
  }

  /**
   * Seats of row j + 1 that start at seat 1 when it is available, and are
   * available seats otherwise, include seat 1 or are all available.
   */
  lemma RowSeatsAvailable(g: Grid, j: int, ps: seq<int>)
    requires 0 <= j < |g| && |g[j]| >= 1 && ps != []
    requires g[j][0] ==> ps[0] == 1
    requires !g[j][0] ==> AvailableFrom(g[j], 1, ps)
    ensures var got := RowRefs(j + 1, ps);
      && (Available(g, SeatRef(j + 1, 1)) ==> SeatRef(j + 1, 1) in got)
      && (!Available(g, SeatRef(j + 1, 1)) ==> forall k :: 0 <= k < |got| ==> Available(g, got[k]))
  {
    if g[j][0] {
      RefsSeatOne(j + 1, ps);
    } else {
      RefsAvailable(g, j, ps);
    }
  }

  lemma RefsSeatOne(rowId: int, ps: seq<int>)
    requires ps != [] && ps[0] == 1
    ensures SeatRef(rowId, 1) in RowRefs(rowId, ps)
  {
    assert RowRefs(rowId, ps)[0] == SeatRef(rowId, 1);
  }

  lemma RefsAvailable(g: Grid, j: int, ps: seq<int>)
    requires 0 <= j < |g| && |g[j]| >= 1 && !g[j][0]
    requires forall k :: 0 <= k < |ps| ==> 1 <= ps[k] <= |g[j]| && g[j][ps[k] - 1]
    ensures !Available(g, SeatRef(j + 1, 1))
    ensures var got := RowRefs(j + 1, ps); forall k :: 0 <= k < |got| ==> Available(g, got[k])
  {
  }

  /** One more sub-request met keeps HeldInGrid. */
  lemma HeldStep(g: Grid, r: int, held: seq<SeatRef>)
    requires r >= 1 && HeldInGrid(g, held) && HoldInRows(g, r, 0) != []
    ensures HeldInGrid(MarkRefs(g, HoldInRows(g, r, 0)), held + HoldInRows(g, r, 0))
  {
    var got := HoldInRows(g, r, 0);
    var j, ps := HoldInRowsSeats(g, r);
    RowRefsDistinct(j + 1, ps);
    RowSeatsAvailable(g, j, ps);
    DistinctAppend(g, held, got, j);
    TakenAfterMark(g, held, got, j);
  }

  /**
   * Seats of row j + 1 that are all available unless seat 1 of the row is,
   * added to seats that are not available and whose rows' seat 1 is not either,
   * repeat no seat.
   */
  lemma DistinctAppend(g: Grid, held: seq<SeatRef>, got: seq<SeatRef>, j: int)
    requires HeldInGrid(g, held) && Distinct(got)
    requires forall k :: 0 <= k < |got| ==> got[k].rowId == j + 1
    requires !Available(g, SeatRef(j + 1, 1)) ==> forall k :: 0 <= k < |got| ==> Available(g, got[k])
    ensures Distinct(held + got)
  {
    var all := held + got;
    forall a, b | 0 <= a < b < |all|
      ensures all[a] != all[b]
    {
      if a < |held| <= b {
        assert all[b] == got[b - |held|];
      }
    }
  }

  /** After marking seats of row j + 1 that include its seat 1 when available, all of them and the earlier ones are taken. */
  lemma TakenAfterMark(g: Grid, held: seq<SeatRef>, got: seq<SeatRef>, j: int)
    requires forall k :: 0 <= k < |held| ==> !Available(g, held[k]) && !Available(g, SeatRef(held[k].rowId, 1))
    requires forall k :: 0 <= k < |got| ==> got[k].rowId == j + 1
    requires Available(g, SeatRef(j + 1, 1)) ==> SeatRef(j + 1, 1) in got
    ensures var g', all := MarkRefs(g, got), held + got;
      forall k :: 0 <= k < |all| ==> !Available(g', all[k]) && !Available(g', SeatRef(all[k].rowId, 1))
  {
    MarkRefsAvailable(g, got);
  }

  /** A pass keeps HeldInGrid. */
  lemma {:induction false} PassDistinct(g: Grid, n: int, reqs: seq<int>, i: nat, held: seq<SeatRef>)
    requires i <= |reqs| && Positive(reqs) && HeldInGrid(g, held)
    ensures var p := Pass(g, n, reqs, i, held); HeldInGrid(p.grid, p.held)
    decreases |reqs| - i
  {
    if i < |reqs| {
      var got := HoldInRows(g, reqs[i], 0);
      if got == [] {
        PassDistinct(g, n, reqs, i + 1, held);
      } else {
        HeldStep(g, reqs[i], held);
        RemoveKeeps(reqs, i);
        var g', held', reqs' := MarkRefs(g, got), held + got, Remove(reqs, i);
        if |held'| < n {
          PassDistinct(g', n, reqs', i, held');
        }
      }
    }
  }

  /** So does the whole outer loop: a hold never names a seat twice. */
  lemma {:induction false} RunDistinct(g: Grid, n: int, reqs: seq<int>, held: seq<SeatRef>)
    requires |held| + Sum(reqs) == n && Positive(reqs) && HeldInGrid(g, held)
    ensures var o := Run(g, n, reqs, held); o.Held? ==> HeldInGrid(o.grid, o.seats)
    decreases Max(reqs)
  {
    if |held| < n {
      var p := Pass(g, n, reqs, 0, held);
      PassDistinct(g, n, reqs, 0, held);
      RunStep(g, n, reqs, held);
      match Halve(p.unmet) {
        case None =>
        case Some(h) =>
          RunDistinct(p.grid, n, h, p.held);
      }
    }
  }

  /** A request of 1..TotalCount(g) seats is Run from its initial sub-requests. */
  lemma FindAndHoldRuns(g: Grid, n: int, perRow: nat)
    requires Shaped(g, perRow) && 1 <= n <= TotalCount(g)
    ensures perRow >= 1
    ensures Sum(InitialRequests(n, perRow)) == n && Positive(InitialRequests(n, perRow))
    ensures FindAndHold(g, n, perRow) == Run(g, n, InitialRequests(n, perRow), [])
  {
    NoSeatsNoCount(g, perRow);
    assert Sum([n]) == n;
  }

  /**
   * findAndHoldSeats: too large a request finds nothing and a negative one is
   * rejected; otherwise the hold has exactly n seats, no seat twice, and the
   * grid afterwards is the grid before with those seats marked.
   */
  lemma FindAndHoldOutcome(g: Grid, n: int, perRow: nat)
    requires Shaped(g, perRow)
    ensures var o := FindAndHold(g, n, perRow);
      && (o.Insufficient? <==> n > TotalCount(g))
      && (o.Rejected? <==> n < 0)
      && !o.Unsatisfiable?
      && (o.Held? ==> |o.seats| == n && o.grid == MarkRefs(g, o.seats))
      && (o.Held? ==> forall a, b :: 0 <= a < b < |o.seats| ==> o.seats[a] != o.seats[b])
  {
    if n <= TotalCount(g) {
      if n == 0 {
        MarkRefsNone(g);
      } else if n > 0 {
        NoSeatsNoCount(g, perRow);
        var reqs := InitialRequests(n, perRow);
        assert Sum([n]) == n;
        RunSucceeds(g, n, reqs, []);
        RunHeld(g, n, reqs, []);
        RunDistinct(g, n, reqs, []);
      }
    }
  }

  /** 47 seats in rows of 20 become two full rows and 7. */
  lemma DivideExample()
    ensures DivideIntoCompleteRows(47, 20) == [20, 20, 7]
  {
    assert DivideIntoCompleteRows(7, 20) == [7];
    assert DivideIntoCompleteRows(27, 20) == [20, 7];
  }
}
