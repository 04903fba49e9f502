/**
 * The "best seat" search of com.ticket.domain.Row, stated on an availability
 * vector: avail[k] tells whether seat k + 1 of the row is available. Results
 * are 1-based seat positions in the order the seats are held.
 */
module RowSearch {

  /** Number of available seats; defined from the end so a left-to-right count extends it. */
  function Count(avail: seq<bool>): (c: nat)
    ensures c <= |avail|
    ensures c == 0 <==> forall k :: 0 <= k < |avail| ==> !avail[k]
  {
    if avail == [] then 0
    else Count(avail[..|avail| - 1]) + (if avail[|avail| - 1] then 1 else 0)
  }

  /** The positions lo, lo + 1, ..., hi - 1. */
  function Range(lo: int, hi: int): (r: seq<int>)
    ensures |r| == if lo <= hi then hi - lo else 0
    ensures forall k :: 0 <= k < |r| ==> r[k] == lo + k
    decreases hi - lo
  {
    if lo >= hi then [] else [lo] + Range(lo + 1, hi)
  }

  lemma RangeMembers(lo: int, hi: int)
    ensures forall q :: q in Range(lo, hi) <==> lo <= q < hi
  {
    forall q | lo <= q < hi
      ensures q in Range(lo, hi)
    {
      assert Range(lo, hi)[q - lo] == q;
    }
  }

  /**
   * The stride-2 collection: visit positions j, j + 2, ... up to the row's end,
   * appending each available one to `found`, and stop as soon as n are found.
   */
  function Collect(avail: seq<bool>, n: int, j: int, found: seq<int>): seq<int>
    requires j >= 1
    decreases |avail| + 2 - j
  {
    if j > |avail| then found
    else
      var found' := if avail[j - 1] then found + [j] else found;
      if |found'| == n then found' else Collect(avail, n, j + 2, found')
  }

  /** Hold the stride-2 collection from `start` only if it reached n seats. */
  function StrideHold(avail: seq<bool>, n: int, start: int): seq<int>
    requires start >= 1
  {
    var found := Collect(avail, n, start, []);
    if |found| >= n then found else []
  }

  /**
   * Scan positions i, i + 1, ... for the first available seat and collect from
   * there; on an unavailable seat, give up when the seats left at stride 2
   * cannot reach n.
   */
  function ScanFrom(avail: seq<bool>, n: int, i: int): seq<int>
    requires i >= 1
    decreases |avail| + 1 - i
  {
    if i > |avail| then []
    else if avail[i - 1] then StrideHold(avail, n, i)
    else if n > (|avail| - i) / 2 + (|avail| - i) % 2 then []
    else ScanFrom(avail, n, i + 1)
  }

  /**
   * Row.holdSeats: nothing for a request larger than the row; seats 1..n when
   * seat 1 is available (seats 2..n are not looked at); otherwise the stride-2
   * collection from the first available seat at position 2 or later.
   */
  function BestSeats(avail: seq<bool>, n: int): seq<int>
    requires n >= 1
  {
    if n > |avail| then []
    else if avail[0] then Range(1, n + 1)
    else ScanFrom(avail, n, 2)
  }

  /** The availability after holding the seats at positions ps. */
  function Mark(avail: seq<bool>, ps: seq<int>): (a: seq<bool>)
    ensures |a| == |avail|
  {
    seq(|avail|, k requires 0 <= k < |avail| => avail[k] && (k + 1) !in ps)
  }

  // ---------------------------------------------------------------------
  // Reference definitions the search is compared with

  /** Every available position j, j + 2, j + 4, ... of the row, ascending. */
  function StrideAvailable(avail: seq<bool>, j: int): seq<int>
    requires j >= 1
    decreases |avail| + 2 - j
  {
    if j > |avail| then []
    else (if avail[j - 1] then [j] else []) + StrideAvailable(avail, j + 2)
  }

  /** The first m elements of s, or all of s when it is shorter. */
  function Take(s: seq<int>, m: int): seq<int>
  {
    if m <= 0 then [] else if m >= |s| then s else s[..m]
  }

  /** The scan without its short-circuit. */
  function PlainScan(avail: seq<bool>, n: int, i: int): seq<int>
    requires i >= 1
    decreases |avail| + 1 - i
  {
    if i > |avail| then []
    else if avail[i - 1] then StrideHold(avail, n, i)
    else PlainScan(avail, n, i + 1)
  }

  /** f is the first available position at or after i. */
  predicate FirstAvailableFrom(avail: seq<bool>, i: int, f: int) {
    1 <= i <= f <= |avail| && avail[f - 1] && forall k :: i - 1 <= k < f - 1 ==> !avail[k]
  }

  /** The first available position at or after i, or 0 when there is none. */
  function FirstAvailable(avail: seq<bool>, i: int): (f: int)
    requires i >= 1
    ensures f == 0 ==> forall k :: i - 1 <= k < |avail| ==> !avail[k]
    ensures f != 0 ==> FirstAvailableFrom(avail, i, f)
    decreases |avail| + 1 - i
  {
    if i > |avail| then 0
    else if avail[i - 1] then i
    else FirstAvailable(avail, i + 1)
  }

  /**
   * The first n available seats of the stride from f, when the stride has that
   * many; nothing otherwise.
   */
  function StrideSeats(avail: seq<bool>, n: int, f: int): seq<int>
    requires f >= 1
  {
    var stride := StrideAvailable(avail, f);
    if |stride| >= n then Take(stride, n) else []
  }

  predicate Increasing(ps: seq<int>) {
    forall k, l :: 0 <= k < l < |ps| ==> ps[k] < ps[l]
  }

  // ---------------------------------------------------------------------
  // Lemmas

  lemma StrideAvailableFacts(avail: seq<bool>, j: int)
    requires j >= 1
    ensures var s := StrideAvailable(avail, j);
      && Increasing(s)
      && (forall k :: 0 <= k < |s| ==> j <= s[k] <= |avail| && avail[s[k] - 1] && (s[k] - j) % 2 == 0)
      && |s| <= (if j > |avail| then 0 else (|avail| - j) / 2 + 1)
  {
    StrideAvailableSeats(avail, j);
    StrideAvailableIncreasing(avail, j);
    StrideAvailableParity(avail, j);
    StrideAvailableLength(avail, j);
  }

  /** Every seat number in ps is available and at least j. */
  predicate AvailableFrom(avail: seq<bool>, j: int, ps: seq<int>) {
    forall k :: 0 <= k < |ps| ==> 1 <= j <= ps[k] <= |avail| && avail[ps[k] - 1]
  }

  lemma {:induction false} StrideAvailableSeats(avail: seq<bool>, j: int)
    requires j >= 1
    ensures AvailableFrom(avail, j, StrideAvailable(avail, j))
    decreases |avail| + 2 - j
  {
    if j <= |avail| {
      StrideAvailableSeats(avail, j + 2);
      var rest := StrideAvailable(avail, j + 2);
      var s := StrideAvailable(avail, j);
      if avail[j - 1] {
        assert s == [j] + rest;
        forall k | 0 <= k < |s|
          ensures j <= s[k] <= |avail| && avail[s[k] - 1]
        {
          if k > 0 {
            assert s[k] == rest[k - 1];
          }
        }
      } else {
        assert s == rest;
      }
    }
  }

  lemma {:induction false} StrideAvailableIncreasing(avail: seq<bool>, j: int)
    requires j >= 1
    ensures Increasing(StrideAvailable(avail, j))
    decreases |avail| + 2 - j
  {
    if j <= |avail| && avail[j - 1] {
      StrideAvailableIncreasing(avail, j + 2);
      StrideAvailableSeats(avail, j + 2);
      var rest := StrideAvailable(avail, j + 2);
      var s := StrideAvailable(avail, j);
      assert s == [j] + rest;
      forall k, l | 0 <= k < l < |s|
        ensures s[k] < s[l]
      {
        assert s[l] == rest[l - 1];
        if k > 0 {
          assert s[k] == rest[k - 1];
        }
      }
    } else if j <= |avail| {
      StrideAvailableIncreasing(avail, j + 2);
    }
  }

  lemma {:induction false} StrideAvailableParity(avail: seq<bool>, j: int)
    requires j >= 1
    ensures forall k :: 0 <= k < |StrideAvailable(avail, j)| ==> (StrideAvailable(avail, j)[k] - j) % 2 == 0
    decreases |avail| + 2 - j
  {
    if j <= |avail| {
      StrideAvailableParity(avail, j + 2);
      var rest := StrideAvailable(avail, j + 2);
      var s := StrideAvailable(avail, j);
      forall k | 0 <= k < |rest| ensures (rest[k] - j) % 2 == 0 {
        var d := rest[k] - (j + 2);
        assert d % 2 == 0;
        assert rest[k] - j == d + 2;
      }
      if avail[j - 1] {
        assert s == [j] + rest;
        assert forall k :: 1 <= k < |s| ==> s[k] == rest[k - 1];
      } else {
        assert s == rest;
      }
    }
  }

  lemma {:induction false} StrideAvailableLength(avail: seq<bool>, j: int)
    requires j >= 1
    ensures |StrideAvailable(avail, j)| <= (if j > |avail| then 0 else (|avail| - j) / 2 + 1)
    decreases |avail| + 2 - j
  {
    if j <= |avail| {
      StrideAvailableLength(avail, j + 2);
    }
  }

  /** The stride result inherits the stride's facts: ascending available seats, exactly n of them or none. */
  lemma StrideSeatsFacts(avail: seq<bool>, n: int, f: int)
    requires n >= 1 && f >= 1
    ensures var ps := StrideSeats(avail, n, f);
      && (ps == [] || |ps| == n)
      && Increasing(ps)
      && AvailableFrom(avail, f, ps)
  {
    var stride := StrideAvailable(avail, f);
    StrideAvailableSeats(avail, f);
    StrideAvailableIncreasing(avail, f);
    var ps := StrideSeats(avail, n, f);
    if |stride| >= n {
      assert ps == stride[..n];
    }
  }

  /** The stride-2 collection is the first n available seats of the stride. */
  lemma {:induction false} CollectTakes(avail: seq<bool>, n: int, j: int, found: seq<int>)
    requires j >= 1 && |found| < n
    ensures Collect(avail, n, j, found) == found + Take(StrideAvailable(avail, j), n - |found|)
    decreases |avail| + 2 - j
  {
    if j <= |avail| {
      var rest := StrideAvailable(avail, j + 2);
      var m := n - |found|;
      if avail[j - 1] {
        assert StrideAvailable(avail, j) == [j] + rest;
        TakeCons(j, rest, m);
        if m == 1 {
          assert Collect(avail, n, j, found) == found + [j];
        } else {
          CollectTakes(avail, n, j + 2, found + [j]);
          SnocThen(found, j, Take(rest, m - 1));
        }
      } else {
        assert StrideAvailable(avail, j) == rest;
        CollectTakes(avail, n, j + 2, found);
      }
    }
  }

  lemma SnocThen(a: seq<int>, x: int, b: seq<int>)
    ensures (a + [x]) + b == a + ([x] + b)
  {
  }

  lemma TakeCons(x: int, s: seq<int>, m: int)
    requires m >= 1
    ensures Take([x] + s, m) == [x] + Take(s, m - 1)
  {
    if m - 1 < |s| && m - 1 > 0 {
      assert ([x] + s)[..m] == [x] + s[..m - 1];
    }
  }

  /** What the search returns: nothing, the first n seats, or the first n available seats of one stride. */
  lemma StrideHoldShape(avail: seq<bool>, n: int, start: int)
    requires n >= 1 && start >= 1
    ensures StrideHold(avail, n, start) == StrideSeats(avail, n, start)
    ensures var ps := StrideHold(avail, n, start); ps == [] || |ps| == n
  {
    CollectTakes(avail, n, start, []);
    assert [] + Take(StrideAvailable(avail, start), n) == Take(StrideAvailable(avail, start), n);
  }

  /** The short-circuit never turns a success into a failure: the scan equals the scan without it. */
  lemma {:induction false} ShortCircuitExact(avail: seq<bool>, n: int, i: int)
    requires n >= 1 && i >= 1
    ensures ScanFrom(avail, n, i) == PlainScan(avail, n, i)
    decreases |avail| + 1 - i
  {
    if i <= |avail| && !avail[i - 1] {
      if n > (|avail| - i) / 2 + (|avail| - i) % 2 {
        PlainScanTooShort(avail, n, i + 1);
      } else {
        ShortCircuitExact(avail, n, i + 1);
      }
    }
  }

  /** No stride from j onward can hold n seats when n exceeds the room left after j - 1. */
  lemma {:induction false} PlainScanTooShort(avail: seq<bool>, n: int, j: int)
    requires j >= 2 && n > (|avail| - (j - 1)) / 2 + (|avail| - (j - 1)) % 2
    ensures PlainScan(avail, n, j) == []
    decreases |avail| + 1 - j
  {
    if j <= |avail| {
      if avail[j - 1] {
        CollectTakes(avail, n, j, []);
        StrideAvailableFacts(avail, j);
      } else {
        PlainScanTooShort(avail, n, j + 1);
      }
    }
  }

  lemma {:induction false} PlainScanResult(avail: seq<bool>, n: int, i: int)
    requires n >= 1 && i >= 1
    ensures var f := FirstAvailable(avail, i);
      PlainScan(avail, n, i) == if f == 0 then [] else StrideSeats(avail, n, f)
    decreases |avail| + 1 - i
  {
    if i <= |avail| {
      if avail[i - 1] {
        StrideHoldShape(avail, n, i);
      } else {
        PlainScanResult(avail, n, i + 1);
      }
    }
  }

  /**
   * Row.holdSeats, case by case: too large gives nothing; an available seat 1
   * gives seats 1..n; otherwise, with f >= 2 the first available position, the
   * result is the first n available seats at f, f + 2, ... exactly when there
   * are that many, and nothing when there are fewer or no seat is available.
   */
  lemma BestSeatsCases(avail: seq<bool>, n: int)
    requires n >= 1
    ensures n > |avail| ==> BestSeats(avail, n) == []
    ensures n <= |avail| && avail[0] ==> BestSeats(avail, n) == Range(1, n + 1)
    ensures n <= |avail| && !avail[0] ==>
      var f := FirstAvailable(avail, 2);
      BestSeats(avail, n) == if f == 0 then [] else StrideSeats(avail, n, f)
  {
    if n <= |avail| && !avail[0] {
      ShortCircuitExact(avail, n, 2);
      PlainScanResult(avail, n, 2);
    }
  }

  /** The result is empty or exactly n distinct seats of the row, in ascending order. */
  lemma BestSeatsShape(avail: seq<bool>, n: int)
    requires n >= 1
    ensures var ps := BestSeats(avail, n);
      && (ps == [] || |ps| == n)
      && Increasing(ps)
      && (forall k :: 0 <= k < |ps| ==> 1 <= ps[k] <= |avail|)
  {
    if n <= |avail| && !avail[0] {
      var f := StrideStart(avail, n);
      if f != 0 {
        StrideSeatsFacts(avail, n, f);
      }
    }
  }

  /** With seat 1 unavailable, the result is the stride result from some start f, or nothing (f = 0). */
  lemma StrideStart(avail: seq<bool>, n: int) returns (f: int)
    requires n >= 1 && |avail| >= 1 && !avail[0]
    ensures f >= 0 && BestSeats(avail, n) == if f == 0 then [] else StrideSeats(avail, n, f)
  {
    BestSeatsCases(avail, n);
    f := if n <= |avail| then FirstAvailable(avail, 2) else 0;
  }

  /** Only the stride-2 branch guarantees that every seat it returns was available. */
  lemma StrideSeatsWereAvailable(avail: seq<bool>, n: int)
    requires n >= 1 && |avail| >= 1 && !avail[0]
    ensures AvailableFrom(avail, 1, BestSeats(avail, n))
  {
    var f := StrideStart(avail, n);
    if f != 0 {
      StrideSeatsFacts(avail, n, f);
    }
  }

  /** A non-empty result starts at seat 1 when seat 1 is available, and holds only available seats otherwise. */
  lemma BestSeatsFromSeatOne(avail: seq<bool>, n: int)
    requires n >= 1 && BestSeats(avail, n) != []
    ensures var ps := BestSeats(avail, n);
      && |avail| >= 1
      && (avail[0] ==> ps[0] == 1)
      && (!avail[0] ==> AvailableFrom(avail, 1, ps))
  {
    BestSeatsCases(avail, n);
    if !avail[0] {
      StrideSeatsWereAvailable(avail, n);
    }
  }

  /**
   * Seat 1 being available is enough for seats 1..n to be handed out, even when
   * seat 2 is not available (held by another customer, or reserved).
   */
  lemma SeatOneBranchTakesUnavailableSeat()
    ensures BestSeats([true, false], 2) == [1, 2]
  {
    assert Range(1, 3) == [1, 2];
  }

  /** A single seat is always found when the row has any available seat. */
  lemma SingleSeatFound(avail: seq<bool>)
    requires Count(avail) >= 1
    ensures BestSeats(avail, 1) != []
  {
    var k :| 0 <= k < |avail| && avail[k];
    if !avail[0] {
      ScanReachesSeat(avail, 2, k + 1);
    }
  }

  lemma {:induction false} ScanReachesSeat(avail: seq<bool>, i: int, p: int)
    requires 1 <= i <= p <= |avail| && avail[p - 1]
    ensures ScanFrom(avail, 1, i) != []
    decreases p - i
  {
    if avail[i - 1] {
      assert Collect(avail, 1, i, []) == [i];
    } else {
      assert i < p;
      ScanReachesSeat(avail, i + 1, p);
    }
  }

  // ---------------------------------------------------------------------
  // Availability counts

  lemma {:induction false} CountUpdate(avail: seq<bool>, k: int)
    requires 0 <= k < |avail|
    ensures Count(avail[k := false]) == Count(avail) - (if avail[k] then 1 else 0)
    decreases |avail|
  {
    var last := |avail| - 1;
    if k < last {
      CountUpdate(avail[..last], k);
      assert avail[k := false][..last] == avail[..last][k := false];
    } else {
      assert avail[k := false][..last] == avail[..last];
    }
  }

  /** Marking one seat more. */
  lemma MarkSnoc(avail: seq<bool>, init: seq<int>, p: int)
    ensures Mark(avail, init + [p]) == if 1 <= p <= |avail| then Mark(avail, init)[p - 1 := false] else Mark(avail, init)
  {
    var ps := init + [p];
    assert forall q :: q in ps <==> q in init || q == p;
  }

  /** Holding the seats ps makes at most |ps| seats unavailable. */
  lemma {:induction false} CountMark(avail: seq<bool>, ps: seq<int>)
    ensures Count(avail) - |ps| <= Count(Mark(avail, ps)) <= Count(avail)
    decreases |ps|
  {
    if ps == [] {
      assert Mark(avail, ps) == avail;
    } else {
      var init := ps[..|ps| - 1];
      var p := ps[|ps| - 1];
      CountMark(avail, init);
      var m := Mark(avail, init);
      MarkSnoc(avail, init, p);
      assert ps == init + [p];
      if 1 <= p <= |avail| {
        CountUpdate(m, p - 1);
      }
    }
  }

  // The scenario of a 10-seat row: 5 gives 1..5, then 3 gives 6, 8, 10, then
  // 3 gives nothing, then 2 gives 7, 9.

  const TenFree: seq<bool> := seq(10, k => true)
  const TenAfterFive: seq<bool> := [false, false, false, false, false, true, true, true, true, true]
  const TenAfterEight: seq<bool> := [false, false, false, false, false, false, true, false, true, false]

  lemma TenSeatFirstFive()
    ensures BestSeats(TenFree, 5) == [1, 2, 3, 4, 5]
    ensures Mark(TenFree, [1, 2, 3, 4, 5]) == TenAfterFive
  {
    assert Range(1, 6) == [1, 2, 3, 4, 5];
  }

  lemma TenSeatThenStride()
    ensures BestSeats(TenAfterFive, 3) == [6, 8, 10]
    ensures Mark(TenAfterFive, [6, 8, 10]) == TenAfterEight
  {
    var a := TenAfterFive;
    assert Collect(a, 3, 6, []) == [6, 8, 10] by {
      assert [6, 8] + [10] == [6, 8, 10];
      assert Collect(a, 3, 10, [6, 8]) == [6, 8, 10];
      assert [6] + [8] == [6, 8];
      assert Collect(a, 3, 8, [6]) == [6, 8, 10];
      assert [] + [6] == [6];
    }
    assert ScanFrom(a, 3, 6) == [6, 8, 10];
    assert ScanFrom(a, 3, 5) == [6, 8, 10];
    assert ScanFrom(a, 3, 4) == [6, 8, 10];
    assert ScanFrom(a, 3, 3) == [6, 8, 10];
  }

  lemma TenSeatThenNothing()
    ensures BestSeats(TenAfterEight, 3) == []
  {
    var a := TenAfterEight;
    assert ScanFrom(a, 3, 5) == [];
    assert ScanFrom(a, 3, 4) == [];
    assert ScanFrom(a, 3, 3) == [];
  }

  lemma TenSeatThenPair()
    ensures BestSeats(TenAfterEight, 2) == [7, 9]
  {
    var a := TenAfterEight;
    assert Collect(a, 2, 7, []) == [7, 9] by {
      assert [7] + [9] == [7, 9];
      assert Collect(a, 2, 9, [7]) == [7, 9];
      assert [] + [7] == [7];
    }
    assert ScanFrom(a, 2, 7) == [7, 9];
    assert ScanFrom(a, 2, 6) == [7, 9];
    assert ScanFrom(a, 2, 5) == [7, 9];
    assert ScanFrom(a, 2, 4) == [7, 9];
    assert ScanFrom(a, 2, 3) == [7, 9];
  }

  lemma TenSeatScenario()
    ensures var p1 := BestSeats(TenFree, 5);
      var a1 := Mark(TenFree, p1);
      var p2 := BestSeats(a1, 3);
      var a2 := Mark(a1, p2);
      p1 == [1, 2, 3, 4, 5] && p2 == [6, 8, 10] && BestSeats(a2, 3) == [] && BestSeats(a2, 2) == [7, 9]
  {
    TenSeatFirstFive();
    TenSeatThenStride();
    TenSeatThenNothing();
    TenSeatThenPair();
  }
}
