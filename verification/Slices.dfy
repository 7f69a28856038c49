/** Routing of keys to slices.

The peer and the client each walk over `size_t` in steps of `SIZE_MAX / n` until the hash of the
key is reached. The walk is modelled with its 64-bit wrap-around.
*/
module Slices {

  const SIZE_MAX: nat := 0xFFFF_FFFF_FFFF_FFFF

  function Step(n: nat): nat
    requires n >= 1
  {
    SIZE_MAX / n
  }

  function Add64(x: nat, y: nat): nat {
    (x + y) % (SIZE_MAX + 1)
  }

  /** The hashes for which the walk stays within `n` steps. For a power of two `n` these are all
      hashes except the last `n - 1`. */
  predicate Routable(target: nat, n: nat) {
    1 <= n <= SIZE_MAX && target <= n * Step(n)
  }

  /** `max(1, ceil(target / step))`. */
  function SliceOf(target: nat, n: nat): nat
    requires Routable(target, n)
  {
    StepIsPositive(n);
    if target == 0 then 1 else (target - 1) / Step(n) + 1
  }

  lemma StepIsPositive(n: nat)
    requires 1 <= n <= SIZE_MAX
    ensures Step(n) >= 1 && n * Step(n) <= SIZE_MAX
  {
    var q := SIZE_MAX / n;
    assert SIZE_MAX == n * q + SIZE_MAX % n;
    assert q == 0 ==> n * q == 0;
  }

  lemma DivideDown(x: nat, step: nat, k: nat)
    requires step >= 1 && k >= 1 && x <= k * step && (k - 1) * step < x
    ensures (x - 1) / step + 1 == k
  {
    var q := (x - 1) / step;
    assert x - 1 == step * q + (x - 1) % step;
    if q < k - 1 { MulAtMost(q + 1, k - 1, step); }
    if q > k - 1 { MulAtMost(k, q, step); }
  }

  lemma MulAtMost(a: int, b: int, m: nat)
    requires a <= b
    ensures a * m <= b * m
  {
  }

  /** The slice is the number of the step interval that holds the hash. */
  lemma SliceBounds(target: nat, n: nat)
    requires Routable(target, n)
    ensures 1 <= SliceOf(target, n) <= n
    ensures target <= SliceOf(target, n) * Step(n)
    ensures target > 0 ==> (SliceOf(target, n) - 1) * Step(n) < target
  {
    StepIsPositive(n);
    var step := Step(n);
    if target > 0 {
      var q := (target - 1) / step;
      assert target - 1 == step * q + (target - 1) % step;
      if q + 1 > n { MulAtMost(n, q, step); }
    }
  }

  /** Keys are routed in order of their hashes. */
  lemma SliceIsMonotone(x: nat, y: nat, n: nat)
    requires x <= y && Routable(y, n)
    ensures SliceOf(x, n) <= SliceOf(y, n)
  {
    SliceBounds(x, n);
    SliceBounds(y, n);
    if SliceOf(y, n) < SliceOf(x, n) {
      MulAtMost(SliceOf(y, n), SliceOf(x, n) - 1, Step(n));
    }
  }

  lemma WalkStep(target: nat, slice: nat, n: nat)
    requires Routable(target, n) && target > slice * Step(n)
    ensures slice < n
    ensures Add64(slice * Step(n), Step(n)) == (slice + 1) * Step(n)
  {
    StepIsPositive(n);
    var step := Step(n);
    if slice >= n { MulAtMost(n, slice, step); }
    MulAtMost(slice + 1, n, step);
    assert (slice + 1) * step == slice * step + step;
    AddSmall(slice * step, step);
  }

  lemma AddSmall(x: nat, y: nat)
    requires x + y <= SIZE_MAX
    ensures Add64(x, y) == x + y
  {
  }

  /** Where the walk stands after `k` additions. */
  function Walked(k: nat, n: nat): nat
    requires n >= 1
  {
    if k == 0 then 0 else Add64(Walked(k - 1, n), Step(n))
  }

  lemma {:induction false} WalkedIsMultiple(k: nat, n: nat)
    requires 1 <= n <= SIZE_MAX && k <= n
    ensures Walked(k, n) == k * Step(n)
  {
    if k == 0 {
    } else {
      WalkedIsMultiple(k - 1, n);
      StepIsPositive(n);
      MulAtMost(k, n, Step(n));
      assert k * Step(n) == (k - 1) * Step(n) + Step(n);
      AddSmall((k - 1) * Step(n), Step(n));
    }
  }

  /** The walk reaches a hash within its `n` steps exactly for the routable hashes. */
  lemma WalkReachesIff(target: nat, n: nat)
    requires 1 <= n <= SIZE_MAX
    ensures Routable(target, n) <==> exists k: nat :: 1 <= k <= n && target <= Walked(k, n)
  {
    WalkedIsMultiple(n, n);
    if k: nat :| 1 <= k <= n && target <= Walked(k, n) {
      WalkedIsMultiple(k, n);
      MulAtMost(k, n, Step(n));
    }
  }

  const INT_MAX: nat := 0x7FFF_FFFF

  /** A number of groups that divides 2^64, as the powers of two do. */
  predicate DividesRange(n: nat) {
    1 <= n <= INT_MAX && (SIZE_MAX + 1) % n == 0
  }

  lemma StepOfDivisor(n: nat)
    requires DividesRange(n) && n >= 2
    ensures n * (Step(n) + 1) == SIZE_MAX + 1 && Step(n) > INT_MAX
  {
    var s := (SIZE_MAX + 1) / n;
    assert SIZE_MAX + 1 == n * s + (SIZE_MAX + 1) % n;
    assert SIZE_MAX == n * (s - 1) + (n - 1) by { assert n * (s - 1) == n * s - n; }
    QuotientIs(SIZE_MAX, n, s - 1, n - 1);
    if Step(n) <= INT_MAX { MulAtMost(s, INT_MAX + 1, n); }
  }

  lemma QuotientIs(x: nat, n: nat, q: nat, r: nat)
    requires n > 0 && x == n * q + r && r < n
    ensures x / n == q
  {
    var p := x / n;
    assert x == n * p + x % n;
    if p < q { MulAtMost(p + 1, q, n); }
    if p > q { MulAtMost(q + 1, p, n); }
  }

  /** Where the walk stands after `q` rounds and `r` further steps: each round ends a little lower
      than the one before. */
  function Position(q: nat, r: nat, n: nat): int
    requires n >= 1
  {
    if r == 0 && q > 0 then SIZE_MAX + 1 - q * n else r * (Step(n) + 1) - (q * n + r)
  }

  lemma AddWrapped(x: nat, y: nat)
    requires SIZE_MAX < x + y <= 2 * SIZE_MAX
    ensures Add64(x, y) == x + y - (SIZE_MAX + 1)
  {
  }

  lemma StepInRound(q: nat, r: nat, n: nat)
    requires DividesRange(n) && n >= 2 && 0 < r < n && q * n + r <= INT_MAX
    ensures 0 <= Position(q, r - 1, n) && Add64(Position(q, r - 1, n), Step(n)) == Position(q, r, n)
  {
    var s := Step(n) + 1;
    StepOfDivisor(n);
    assert r * s == (r - 1) * s + s;
    MulAtMost(r, n, s);
    MulAtMost(0, q, n);
    if r == 1 && q > 0 {
      MulAtMost(1, q, n);
      AddWrapped(Position(q, 0, n), s - 1);
    } else {
      if r > 1 { MulAtMost(1, r - 1, s); }
      AddSmall(Position(q, r - 1, n), s - 1);
    }
  }

  lemma StepToNextRound(q: nat, n: nat)
    requires DividesRange(n) && n >= 2 && q > 0 && q * n <= INT_MAX
    ensures 0 <= Position(q - 1, n - 1, n) && Add64(Position(q - 1, n - 1, n), Step(n)) == Position(q, 0, n)
  {
    var s := Step(n) + 1;
    StepOfDivisor(n);
    assert q * n == (q - 1) * n + n;
    assert n * s == (n - 1) * s + s;
    MulAtMost(1, n - 1, s);
    MulAtMost(0, q - 1, n);
    AddSmall(Position(q - 1, n - 1, n), s - 1);
  }

  lemma {:induction false} WalkedAt(q: nat, r: nat, n: nat)
    requires DividesRange(n) && n >= 2 && r < n && q * n + r <= INT_MAX
    ensures Walked(q * n + r, n) == Position(q, r, n)
    decreases q, r
  {
    if q == 0 && r == 0 {
    } else if r > 0 {
      WalkedAt(q, r - 1, n);
      StepInRound(q, r, n);
    } else {
      assert q * n == (q - 1) * n + n;
      WalkedAt(q - 1, n - 1, n);
      StepToNextRound(q, n);
    }
  }

  /** Any other hash keeps the walk going until the `int` that counts the slices overflows. */
  lemma UnroutableOverflows(target: nat, n: nat, k: nat)
    requires DividesRange(n) && n * Step(n) < target <= SIZE_MAX && 1 <= k <= INT_MAX
    ensures Walked(k, n) < target
  {
    StepIsPositive(n);
    if n >= 2 {
      var q, r := Divided(k, n);
      WalkedAt(q, r, n);
      PositionIsLow(q, r, n);
    }
  }

  lemma Divided(k: nat, n: nat) returns (q: nat, r: nat)
    requires n > 0
    ensures k == q * n + r && r < n && (k > 0 ==> q > 0 || r > 0)
  {
    q, r := k / n, k % n;
  }

  lemma PositionIsLow(q: nat, r: nat, n: nat)
    requires DividesRange(n) && n >= 2 && r < n && (q > 0 || r > 0)
    ensures Position(q, r, n) <= n * Step(n)
  {
    var s := Step(n) + 1;
    StepOfDivisor(n);
    assert n * s == n * Step(n) + n;
    if r == 0 {
      MulAtMost(1, q, n);
    } else {
      MulAtMost(0, q, n);
      MulAtMost(r, n - 1, s);
      assert (n - 1) * s == n * s - s;
    }
  }

  /** The largest hash is out of reach of two slices. */
  lemma LastHashIsNotRouted()
    ensures !Routable(SIZE_MAX, 2) && forall k: nat :: 1 <= k <= 2 ==> Walked(k, 2) < SIZE_MAX
  {
    assert Step(2) == 0x7FFF_FFFF_FFFF_FFFF;
    WalkReachesIff(SIZE_MAX, 2);
  }

  /** The client's walk (`get_peer`, `get_n_peers`). */
  method ClientSlice(target: nat, nrGroups: nat) returns (slice: int)
    requires Routable(target, nrGroups)
    ensures slice == SliceOf(target, nrGroups)
  {
    var step := SIZE_MAX / nrGroups;
    var current := 0;
    slice := 1;
    var nextCurrent := Add64(current, step);
    StepIsPositive(nrGroups);
    while target > nextCurrent
      invariant 1 <= slice <= nrGroups
      invariant current == (slice - 1) * step && nextCurrent == slice * step
      invariant slice == 1 || current < target
      decreases nrGroups - slice
    {
      WalkStep(target, slice, nrGroups);
      current := nextCurrent;
      nextCurrent := Add64(current, step);
      if current > 0 && nextCurrent < 0 { break; } // never taken: the values are unsigned
      slice := slice + 1;
    }
    if target > 0 {
      DivideDown(target, step, slice);
    }
    if slice > nrGroups {
      slice := nrGroups - 1;
    }
  }

  /** The peer's walk (`get_slice_for_key`), which answers at once when there is one slice. */
  method PeerSlice(target: nat, nrSlices: nat) returns (slice: int)
    requires Routable(target, nrSlices)
    ensures slice == SliceOf(target, nrSlices)
  {
    SliceBounds(target, nrSlices);
    if nrSlices == 1 { return 1; }
    var step := SIZE_MAX / nrSlices;
    var current := 0;
    slice := 1;
    var nextCurrent := Add64(current, step);
    StepIsPositive(nrSlices);
    while target > nextCurrent
      invariant 1 <= slice <= nrSlices
      invariant current == (slice - 1) * step && nextCurrent == slice * step
      invariant slice == 1 || current < target
      decreases nrSlices - slice
    {
      WalkStep(target, slice, nrSlices);
      current := nextCurrent;
      nextCurrent := Add64(current, step);
      if current > 0 && nextCurrent < 0 { break; } // never taken: the values are unsigned
      slice := slice + 1;
    }
    if target > 0 {
      DivideDown(target, step, slice);
    }
    if slice > nrSlices {
      slice := nrSlices - 1;
    }
  }
}
