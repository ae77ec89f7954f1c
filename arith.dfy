/** Facts about integer floor division that the index arithmetic of the
    sampler and the bit shifts of the quantiser rest on. */
module Arith {

  /** Multiplying by a positive factor keeps the order. */
  lemma MulMonotone(a: int, b: int, p: int)
    requires a <= b && 0 <= p
    ensures a * p <= b * p
  {
    assert b * p - a * p == (b - a) * p;
  }

  /** `n / p` is the unique `q` with `q * p <= n < (q + 1) * p`. */
  lemma FloorUnique(n: int, p: int, q: int)
    requires 0 < p
    requires q * p <= n < (q + 1) * p
    ensures n / p == q && n % p == n - q * p
  {
    var d := n / p;
    assert d * p <= n < (d + 1) * p;
    if q < d {
      MulMonotone(q + 1, d, p);
    } else if d < q {
      MulMonotone(d + 1, q, p);
    }
  }

  /** `q` is the largest integer whose multiple of `p` does not exceed `n`. */
  lemma FloorIsGreatest(n: int, p: int, c: int)
    requires 0 < p && c * p <= n
    ensures c <= n / p
  {
    var d := n / p;
    assert n < (d + 1) * p;
    if d + 1 <= c {
      MulMonotone(d + 1, c, p);
    }
  }

  /** A multiple of `p` leaves no remainder and divides back exactly. */
  lemma MultipleDivides(q: int, p: int)
    requires 0 < p
    ensures (q * p) / p == q && (q * p) % p == 0
  {
    assert (q + 1) * p == q * p + p;
    FloorUnique(q * p, p, q);
  }

  /** Rounding a non-negative `n` down to a multiple of `p` stays in [0, n]. */
  lemma FloorMultipleBelow(n: int, p: int)
    requires 0 <= n && 0 < p
    ensures 0 <= (n / p) * p <= n
  {
    MulMonotone(0, n / p, p);
  }

  /** Rounding down to a multiple of `c * p` never overtakes rounding down
      to a multiple of `p`. */
  lemma CoarserFloorBelow(n: int, c: int, p: int)
    requires 0 <= n && 0 < c && 0 < p
    ensures (n / (c * p)) * (c * p) <= (n / p) * p
  {
    var q := n / (c * p);
    var m := q * c;
    assert q * (c * p) == m * p;
    FloorMultipleBelow(n, c * p);
    FloorIsGreatest(n, p, m);
    MulMonotone(m, n / p, p);
  }

  /** Halving and then dividing by `p` is dividing by `2 * p`. */
  lemma HalveThenDivide(n: int, p: int)
    requires 0 < p
    ensures (n / 2) / p == n / (2 * p)
  {
    var h := n / 2;
    var q := h / p;
    assert q * p <= h < (q + 1) * p;
    assert q * (2 * p) == 2 * (q * p);
    assert (q + 1) * (2 * p) == 2 * ((q + 1) * p);
    FloorUnique(n, 2 * p, q);
  }
}
