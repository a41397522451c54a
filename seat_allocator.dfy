/** The seat allocator of the booking service (`generateAvailableSeats`):
    scans seat numbers 1..totalSeats in ascending order, skips the seats held
    by passengers of CONFIRMED bookings of the trip, and stops as soon as
    `requiredSeats` seats have been collected. */
module SeatAllocator {
  import opened Wrappers

  datatype AllocationError = InsufficientSeats(required: int)

  /** The unoccupied seat numbers among 1..n, in ascending order. */
  function FreeUpTo(n: int, occupied: set<int>): seq<int>
    decreases n
  {
    if n <= 0 then [] else FreeUpTo(n - 1, occupied) + (if n in occupied then [] else [n])
  }

  /** What the scan returns. With `requiredSeats <= 0` the early stop never
      fires (the list is never empty when its size is compared), so every
      free seat is returned. */
  function AllocateSeats(totalSeats: int, occupied: set<int>, requiredSeats: int): Result<seq<int>, AllocationError> {
    var free := FreeUpTo(totalSeats, occupied);
    if requiredSeats <= 0 then Ok(free)
    else if |free| >= requiredSeats then Ok(free[..requiredSeats])
    else Err(InsufficientSeats(requiredSeats))
  }

  method GenerateAvailableSeats(totalSeats: int, occupied: set<int>, requiredSeats: int)
    returns (r: Result<seq<int>, AllocationError>)
    ensures r == AllocateSeats(totalSeats, occupied, requiredSeats)
  {
    var availableSeats: seq<int> := [];
    ghost var scanned := 0;
    var seatNumber := 1;
    while seatNumber <= totalSeats
      invariant 1 <= seatNumber <= if totalSeats >= 0 then totalSeats + 1 else 1
      invariant scanned == seatNumber - 1
      invariant availableSeats == FreeUpTo(scanned, occupied)
      invariant requiredSeats <= 0 || |availableSeats| < requiredSeats
    {
      scanned := seatNumber;
      if seatNumber !in occupied {
        availableSeats := availableSeats + [seatNumber];
        assert availableSeats == FreeUpTo(scanned, occupied);
        if |availableSeats| == requiredSeats {
          break;
        }
      }
      seatNumber := seatNumber + 1;
    }
    assert availableSeats == FreeUpTo(scanned, occupied);
    if totalSeats > 0 {
      FreeUpToPrefix(scanned, totalSeats, occupied);
    } else {
      assert FreeUpTo(totalSeats, occupied) == [] == FreeUpTo(0, occupied);
    }
    if |availableSeats| < requiredSeats {
      r := Err(InsufficientSeats(requiredSeats));
    } else {
      r := Ok(availableSeats);
    }
  }

  // ---------------------------------------------------------------------
  // Properties of the scan.

  predicate StrictlyAscending(s: seq<int>) {
    forall i, j :: 0 <= i < j < |s| ==> s[i] < s[j]
  }

  lemma {:induction false} FreeUpToPrefix(m: int, n: int, occupied: set<int>)
    requires m <= n
    ensures |FreeUpTo(m, occupied)| <= |FreeUpTo(n, occupied)|
    ensures FreeUpTo(n, occupied)[..|FreeUpTo(m, occupied)|] == FreeUpTo(m, occupied)
    decreases n - m
  {
    if m < n && n > 0 {
      FreeUpToPrefix(m, n - 1, occupied);
      var a, b := FreeUpTo(m, occupied), FreeUpTo(n - 1, occupied);
      assert FreeUpTo(n, occupied)[..|b|] == b;
      assert FreeUpTo(n, occupied)[..|a|] == b[..|a|];
    }
  }

  /** The free list holds exactly the unoccupied seats of 1..n, ascending. */
  lemma {:induction false} FreeUpToMeaning(n: int, occupied: set<int>)
    ensures StrictlyAscending(FreeUpTo(n, occupied))
    ensures forall s :: s in FreeUpTo(n, occupied) <==> 1 <= s <= n && s !in occupied
    decreases n
  {
    if n > 0 {
      FreeUpToMeaning(n - 1, occupied);
      var below := FreeUpTo(n - 1, occupied);
      forall k | 0 <= k < |below| ensures below[k] < n {
        assert below[k] in below;
      }
    }
  }

  /** On success with a positive request: exactly `requiredSeats` seats,
      strictly ascending, each in 1..totalSeats and none occupied. */
  lemma AllocationSound(totalSeats: int, occupied: set<int>, requiredSeats: int)
    requires requiredSeats > 0
    requires AllocateSeats(totalSeats, occupied, requiredSeats).Ok?
    ensures var seats := AllocateSeats(totalSeats, occupied, requiredSeats).value;
      && |seats| == requiredSeats
      && StrictlyAscending(seats)
      && forall k :: 0 <= k < |seats| ==> 1 <= seats[k] <= totalSeats && seats[k] !in occupied
  {
    FreeUpToMeaning(totalSeats, occupied);
    var free := FreeUpTo(totalSeats, occupied);
    forall k | 0 <= k < requiredSeats ensures free[..requiredSeats][k] in free {
    }
  }

  /** The lowest free numbers are preferred: every unoccupied seat below the
      largest chosen one is chosen too. */
  lemma AllocationPicksLowest(totalSeats: int, occupied: set<int>, requiredSeats: int, s: int)
    requires AllocateSeats(totalSeats, occupied, requiredSeats).Ok?
    requires var seats := AllocateSeats(totalSeats, occupied, requiredSeats).value;
      |seats| > 0 && 1 <= s <= seats[|seats| - 1] && s !in occupied
    ensures s in AllocateSeats(totalSeats, occupied, requiredSeats).value
  {
    FreeUpToMeaning(totalSeats, occupied);
    var free := FreeUpTo(totalSeats, occupied);
    var seats := AllocateSeats(totalSeats, occupied, requiredSeats).value;
    var last := |seats| - 1;
    assert seats[last] == free[last];
    assert seats[last] in free;
    assert s in free;
    var i :| 0 <= i < |free| && free[i] == s;
    assert i <= last;
    assert seats[i] == s;
  }

  /** The number of unoccupied seats among 1..n, counted as a set. */
  function FreeCount(n: int, occupied: set<int>): nat {
    |set s | 1 <= s <= n && s !in occupied|
  }

  lemma {:induction false} FreeUpToLength(n: int, occupied: set<int>)
    ensures |FreeUpTo(n, occupied)| == FreeCount(n, occupied)
    decreases n
  {
    if n <= 0 {
      assert (set s | 1 <= s <= n && s !in occupied) == {};
    } else {
      FreeUpToLength(n - 1, occupied);
      var below := set s | 1 <= s <= n - 1 && s !in occupied;
      if n in occupied {
        assert (set s | 1 <= s <= n && s !in occupied) == below;
      } else {
        assert (set s | 1 <= s <= n && s !in occupied) == below + {n};
      }
    }
  }

  /** The scan fails exactly when fewer than `requiredSeats` unoccupied seat
      numbers exist in 1..totalSeats. */
  lemma AllocationFailsIff(totalSeats: int, occupied: set<int>, requiredSeats: int)
    ensures AllocateSeats(totalSeats, occupied, requiredSeats).Err?
        <==> requiredSeats > 0 && FreeCount(totalSeats, occupied) < requiredSeats
  {
    FreeUpToLength(totalSeats, occupied);
  }
}
