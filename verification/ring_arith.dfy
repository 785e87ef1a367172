/** Facts about reducing an index modulo the ring's capacity. */
module RingArith {

  /** For `0 <= x < 2m`, reducing modulo `m` subtracts `m` at most once. */
  lemma ModOnce(x: int, m: int)
    requires m > 0 && 0 <= x < 2 * m
    ensures x % m == if x < m then x else x - m
  {
  }

  lemma MulAtLeast(k: int, m: int)
    requires m > 0 && k >= 1
    ensures k * m >= m
  {
  }

  /** The remainder is the unique `r` in `[0, m)` with `x == q*m + r`. */
  lemma ModUnique(x: int, q: int, r: int, m: int)
    requires m > 0 && 0 <= r < m && x == q * m + r
    ensures x % m == r
  {
    var q2, r2 := x / m, x % m;
    assert x == q2 * m + r2;
    assert (q - q2) * m == r2 - r;
    if q > q2 { MulAtLeast(q - q2, m); }
    else if q < q2 { MulAtLeast(q2 - q, m); }
  }

  /** Adding or removing one whole turn of the ring keeps the residue. */
  lemma ModShift(d: int, m: int)
    requires m > 0
    ensures (d + m) % m == d % m
    ensures (d - m) % m == d % m
  {
    var q, r := d / m, d % m;
    assert d == q * m + r;
    ModUnique(d + m, q + 1, r, m);
    ModUnique(d - m, q - 1, r, m);
  }

  /** Reducing a partial sum below `2m` before adding more changes nothing. */
  lemma ModReduceFirst(y: int, k: int, m: int)
    requires m > 0 && 0 <= y < 2 * m
    ensures (y % m + k) % m == (y + k) % m
  {
    ModOnce(y, m);
    if y >= m {
      ModShift(y + k - m, m);
    }
  }
}
