/**
 * Admission of time-triggered (TT) threads: the greatest common divisor of two
 * periods, the pairwise collision test over the registry of created TT threads,
 * and the first activation instant of a newly admitted thread.
 */
module Admission {
  import opened Arith

  /** The timing triple a TT thread is created with: period, phase offset within
      the period, and the maximum execution time (budget) of one activation. */
  datatype TTParams = TTParams(cycle: nat, offset: nat, budget: nat)

  // ---------------------------------------------------------------------------
  // Greatest common divisor

  /** Euclid's algorithm, the reference definition for GetGcd. */
  function Gcd(x: nat, y: nat): nat
    decreases y
  {
    if y == 0 then x else Gcd(y, x % y)
  }

  /** d is a positive number dividing both x and y. */
  ghost predicate IsCommonDivisor(d: int, x: nat, y: nat)
  {
    d > 0 && x % d == 0 && y % d == 0
  }

  /** The loop of rt_get_gcd: repeatedly replace (x, y) by (y, x % y) until y is 0. */
  method GetGcd(x0: nat, y0: nat) returns (g: nat)
    ensures g == Gcd(x0, y0)
  {
    var x, y := x0, y0;
    while y != 0
      invariant Gcd(x, y) == Gcd(x0, y0)
      decreases y
    {
      var t := x % y;
      x := y;
      y := t;
    }
    g := x;
  }

  lemma {:induction false} GcdPositive(x: nat, y: nat)
    requires x > 0 || y > 0
    ensures Gcd(x, y) > 0
    decreases y
  {
    if y != 0 {
      GcdPositive(y, x % y);
    }
  }

  /** A divisor of y and of x % y divides x. */
  lemma DividesFromRemainder(d: int, x: nat, y: nat)
    requires d > 0 && y > 0 && y % d == 0 && (x % y) % d == 0
    ensures x % d == 0
  {
    var p, q, s := x / y, y / d, (x % y) / d;
    assert y == q * d;
    assert x % y == s * d;
    assert x == p * y + x % y;
    assert p * y == (p * q) * d;
    assert x == (p * q + s) * d;
    ModMultiple(p * q + s, d);
  }

  /** A divisor of x and of y divides x % y. */
  lemma RemainderFromDivides(d: int, x: nat, y: nat)
    requires d > 0 && y > 0 && x % d == 0 && y % d == 0
    ensures (x % y) % d == 0
  {
    var p, q, s := x / y, y / d, x / d;
    assert y == q * d;
    assert x == s * d;
    assert x % y == x - p * y;
    assert p * y == (p * q) * d;
    assert x % y == (s - p * q) * d;
    ModMultiple(s - p * q, d);
  }

  /** Gcd(x, y) is the greatest common divisor of x and y: it divides both,
      and every common divisor divides it and so is no larger than it. */
  lemma {:induction false} GcdIsGreatestCommonDivisor(x: nat, y: nat)
    requires x > 0 || y > 0
    ensures IsCommonDivisor(Gcd(x, y), x, y)
    ensures forall d :: IsCommonDivisor(d, x, y) ==> Gcd(x, y) % d == 0 && d <= Gcd(x, y)
    decreases y
  {
    GcdPositive(x, y);
    var g := Gcd(x, y);
    if y == 0 {
      assert x % x == 0 by { ModMultiple(1, x); }
      forall d | IsCommonDivisor(d, x, y)
        ensures g % d == 0 && d <= g
      {
        assert x == (x / d) * d;
        assert x / d >= 1;
        MulAtLeast(x / d, d);
      }
    } else {
      GcdIsGreatestCommonDivisor(y, x % y);
      DividesFromRemainder(g, x, y);
      forall d | IsCommonDivisor(d, x, y)
        ensures g % d == 0 && d <= g
      {
        RemainderFromDivides(d, x, y);
        assert IsCommonDivisor(d, y, x % y);
      }
    }
  }

  /** rt_get_gcd(x, 0) returns x unchanged. */
  lemma GcdZero(x: nat)
    ensures Gcd(x, 0) == x && Gcd(0, x) == x
  {
  }

  /** The order of the two periods does not matter. */
  lemma GcdSymmetric(x: nat, y: nat)
    ensures Gcd(x, y) == Gcd(y, x)
  {
    if x < y {
      ModUnique(x, y, 0, x);
    } else if y < x {
      ModUnique(y, x, 0, y);
    }
  }

  /** Bezout's identity: the gcd is an integer combination of the two periods. */
  lemma {:induction false} Bezout(x: nat, y: nat) returns (a: int, b: int)
    ensures a * x + b * y == Gcd(x, y)
    decreases y
  {
    if y == 0 {
      a, b := 1, 0;
    } else {
      var a', b' := Bezout(y, x % y);
      var p := x / y;
      assert x % y == x - p * y;
      a, b := b', a' - b' * p;
      calc {
        a * x + b * y;
        b' * x + a' * y - (b' * p) * y;
        { assert (b' * p) * y == b' * (p * y); }
        a' * y + b' * (x - p * y);
        a' * y + b' * (x % y);
      }
    }
  }

  // ---------------------------------------------------------------------------
  // The collision test

  /** C's '%' on signed integers: the quotient is truncated toward zero, so the
      remainder takes the sign of the dividend (section 6.5.5 of ISO/IEC 9899:1999). */
  function CRem(a: int, b: int): (r: int)
    requires b > 0
    ensures -b < r < b
    ensures a >= 0 ==> r >= 0
    ensures a < 0 ==> r <= 0
    ensures (a - r) % b == 0
  {
    if a >= 0 then
      ModUnique(a - a % b, b, a / b, 0);
      a % b
    else
      var r := (-a) % b;
      ModUnique(a + r, b, -((-a) / b), 0);
      -r
  }

  /** Reducing with C's '%' and then adding g once to a negative result
      (`if (temp < 0) temp += gcd;`) yields the mathematical remainder in [0, g). */
  lemma NormalisedRemainder(a: int, g: int)
    requires g > 0
    ensures var t := CRem(a, g); (if t < 0 then t + g else t) == a % g
  {
    var t := CRem(a, g);
    var u := if t < 0 then t + g else t;
    assert 0 <= u < g;
    var q := (a - t) / g;
    assert a - t == q * g + 0 by { ModUnique(a - t, g, (a - t) / g, 0); }
    if t < 0 {
      assert a == (q - 1) * g + u;
      ModUnique(a, g, q - 1, u);
    } else {
      assert a == q * g + u;
      ModUnique(a, g, q, u);
    }
  }

  /** A new thread n collides with a created thread c when the phase difference,
      reduced modulo the gcd of the two periods into [0, g), falls within the
      budget of the thread that starts first. */
  ghost predicate PairCollides(n: TTParams, c: TTParams)
    requires n.cycle > 0 || c.cycle > 0
  {
    var g := Gcd(n.cycle, c.cycle);
    GcdPositive(n.cycle, c.cycle);
    (n.offset - c.offset) % g <= c.budget || (c.offset - n.offset) % g <= n.budget
  }

  /** Some created thread collides with the new one. */
  ghost predicate Collides(registry: seq<TTParams>, n: TTParams)
    requires n.cycle > 0
  {
    exists i :: 0 <= i < |registry| && PairCollides(n, registry[i])
  }

  /** rt_TT_thread_time_collision_check: walk the registry, stop at the first
      thread that collides with (cycle, offset, time). */
  method CollisionCheck(registry: seq<TTParams>, cycle: nat, offset: nat, time: nat)
    returns (collides: bool)
    requires cycle > 0
    ensures collides <==> Collides(registry, TTParams(cycle, offset, time))
  {
    var n := TTParams(cycle, offset, time);
    var i := 0;
    while i < |registry|
      invariant 0 <= i <= |registry|
      invariant forall j :: 0 <= j < i ==> !PairCollides(n, registry[j])
    {
      var cur := registry[i];
      var gcd := GetGcd(cycle, cur.cycle);
      GcdPositive(cycle, cur.cycle);
      var temp := CRem(offset - cur.offset, gcd);
      if temp < 0 {
        temp := temp + gcd;
      }
      NormalisedRemainder(offset - cur.offset, gcd);
      if temp <= cur.budget {
        return true;
      }
      temp := CRem(cur.offset - offset, gcd);
      if temp < 0 {
        temp := temp + gcd;
      }
      NormalisedRemainder(cur.offset - offset, gcd);
      if temp <= time {
        return true;
      }
      i := i + 1;
    }
    return false;
  }

  /** The two clauses of the test swap when the threads swap: the collision
      relation is symmetric. */
  lemma PairCollidesSymmetric(a: TTParams, b: TTParams)
    requires a.cycle > 0 || b.cycle > 0
    ensures PairCollides(a, b) <==> PairCollides(b, a)
  {
    GcdSymmetric(a.cycle, b.cycle);
  }

  /** Admitting a and then testing b against it gives the same verdict as
      admitting b and then testing a. */
  lemma AdmissionOrderIndependent(a: TTParams, b: TTParams)
    requires a.cycle > 0 && b.cycle > 0
    ensures Collides([a], b) <==> Collides([b], a)
  {
    PairCollidesSymmetric(a, b);
    assert Collides([a], b) <==> PairCollides(b, [a][0]);
    assert Collides([b], a) <==> PairCollides(a, [b][0]);
  }

  /** The k-th activation of n (at n.offset + k * n.cycle) and the m-th
      activation of c overlap: one of them starts while the other is still
      within its budget. */
  ghost predicate Overlap(n: TTParams, c: TTParams, k: int, m: int)
  {
    var t1 := n.offset + k * n.cycle;
    var t2 := c.offset + m * c.cycle;
    (0 <= t1 - t2 <= c.budget) || (0 <= t2 - t1 <= n.budget)
  }

  /** Whole periods of either thread do not change a phase difference modulo a
      common divisor of the two periods. */
  lemma PhaseModDivisor(o1: int, o2: int, k: int, m: int, c1: nat, c2: nat, g: int)
    requires g > 0 && c1 % g == 0 && c2 % g == 0
    ensures ((o1 + k * c1) - (o2 + m * c2)) % g == (o1 - o2) % g
  {
    var p, q := c1 / g, c2 / g;
    assert c1 == p * g && c2 == q * g;
    assert k * c1 == (k * p) * g;
    assert m * c2 == (m * q) * g;
    assert (o1 + k * c1) - (o2 + m * c2) == (o1 - o2) + (k * p - m * q) * g;
    ModShift(o1 - o2, k * p - m * q, g);
  }

  /** Any overlap of two periodic activation streams is detected by the test. */
  lemma OverlapIsDetected(n: TTParams, c: TTParams, k: int, m: int)
    requires n.cycle > 0 || c.cycle > 0
    requires Overlap(n, c, k, m)
    ensures PairCollides(n, c)
  {
    GcdIsGreatestCommonDivisor(n.cycle, c.cycle);
    var g := Gcd(n.cycle, c.cycle);
    var t1 := n.offset + k * n.cycle;
    var t2 := c.offset + m * c.cycle;
    PhaseModDivisor(n.offset, c.offset, k, m, n.cycle, c.cycle, g);
    PhaseModDivisor(c.offset, n.offset, m, k, c.cycle, n.cycle, g);
    if 0 <= t1 - t2 <= c.budget {
      ModBelow(t1 - t2, g);
    } else {
      ModBelow(t2 - t1, g);
    }
  }

  /** Scaling a Bezout combination a * x + b * y == g by q. */
  lemma ScaledCombination(q: int, a: int, b: int, x: int, y: int, g: int)
    requires a * x + b * y == g
    ensures (q * a) * x + (q * b) * y == q * g
  {
    assert (q * a) * x == q * (a * x);
    assert (q * b) * y == q * (b * y);
  }

  /** With a Bezout combination of the two periods, whole periods of each can
      bring the phase difference o1 - o2 down to its remainder modulo their gcd. */
  lemma CancelPhase(o1: int, o2: int, g: int, a: int, b: int, x: int, y: int) returns (k: int, m: int)
    requires g > 0 && a * x + b * y == g
    ensures (o1 + k * x) - (o2 + m * y) == (o1 - o2) % g
  {
    var d := o1 - o2;
    var q := d / g;
    assert d == q * g + d % g;
    ScaledCombination(q, a, b, x, y, g);
    k, m := -(q * a), q * b;
    assert k * x == -((q * a) * x);
  }

  /** Every collision reported by the test is a real overlap of two activations. */
  lemma CollisionHasOverlap(n: TTParams, c: TTParams) returns (k: int, m: int)
    requires n.cycle > 0 || c.cycle > 0
    requires PairCollides(n, c)
    ensures Overlap(n, c, k, m)
  {
    GcdPositive(n.cycle, c.cycle);
    var g := Gcd(n.cycle, c.cycle);
    var a, b := Bezout(n.cycle, c.cycle);
    if (n.offset - c.offset) % g <= c.budget {
      k, m := CancelPhase(n.offset, c.offset, g, a, b, n.cycle, c.cycle);
    } else {
      m, k := CancelPhase(c.offset, n.offset, g, b, a, c.cycle, n.cycle);
    }
  }

  /** The test reports a collision exactly when two activations can overlap. */
  lemma CollidesIffOverlap(n: TTParams, c: TTParams)
    requires n.cycle > 0 || c.cycle > 0
    ensures PairCollides(n, c) <==> exists k: int, m: int :: Overlap(n, c, k, m)
  {
    if PairCollides(n, c) {
      var k, m := CollisionHasOverlap(n, c);
    }
    forall k: int, m: int | Overlap(n, c, k, m)
      ensures PairCollides(n, c)
    {
      OverlapIsDetected(n, c, k, m);
    }
  }

  // ---------------------------------------------------------------------------
  // First activation

  /** The first activation time given to a new TT thread: an instant
      epoch + offset + j * cycle at or after now, taken from the period now
      falls in (or the next one); it is the first such instant only when the
      offset is below the period. */
  function FirstActivation(now: nat, epoch: nat, cycle: nat, offset: nat): (start: nat)
    requires cycle > 0 && epoch <= now
    ensures start >= now
    ensures (start - epoch - offset) % cycle == 0
    ensures offset < cycle ==> start < now + cycle
  {
    var j := (now - epoch) / cycle;
    var s := j * cycle + offset + epoch;
    assert now - epoch == j * cycle + (now - epoch) % cycle;
    if s < now then
      ModMultiple(j + 1, cycle);
      assert s + cycle - epoch - offset == (j + 1) * cycle;
      s + cycle
    else
      ModMultiple(j, cycle);
      s
  }
}
