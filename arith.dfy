/** Facts about Euclidean division that the admission and timing proofs share. */
module Arith {

  /** A product of a positive factor and a factor of at least one is at least the first. */
  lemma MulAtLeast(x: int, g: int)
    requires x >= 1 && g > 0
    ensures x * g >= g
  {
    assert x * g == (x - 1) * g + g;
    assert (x - 1) * g >= 0;
  }

  /** The remainder is determined by any decomposition a == q * g + r with 0 <= r < g. */
  lemma ModUnique(a: int, g: int, q: int, r: int)
    requires g > 0 && 0 <= r < g && a == q * g + r
    ensures a % g == r && a / g == q
  {
    var q', r' := a / g, a % g;
    assert a == q' * g + r';
    assert (q - q') * g == r' - r;
    if q > q' {
      MulAtLeast(q - q', g);
    } else if q < q' {
      MulAtLeast(q' - q, g);
    }
  }

  /** Adding whole multiples of g does not change the remainder modulo g. */
  lemma ModShift(a: int, m: int, g: int)
    requires g > 0
    ensures (a + m * g) % g == a % g
  {
    var q, r := a / g, a % g;
    assert a + m * g == (q + m) * g + r;
    ModUnique(a + m * g, g, q + m, r);
  }

  /** Every multiple of g leaves remainder 0. */
  lemma ModMultiple(m: int, g: int)
    requires g > 0
    ensures (m * g) % g == 0
  {
    ModUnique(m * g, g, m, 0);
  }

  /** A non-negative number is at least its remainder. */
  lemma ModBelow(a: int, g: int)
    requires g > 0 && a >= 0
    ensures 0 <= a % g <= a
  {
    var q := a / g;
    assert a == q * g + a % g;
    if q < 0 {
      MulAtLeast(-q, g);
    } else {
      assert q * g >= 0;
    }
  }
}
