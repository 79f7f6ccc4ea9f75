/** Facts about Euclidean division used by the searches. */
module Arithmetic {

  /** Euclidean division is unique: a value written as `e * q + r` with `0 <= r < e` has
      quotient `q` and remainder `r`. */
  lemma DivModUnique(x: int, e: int, q: int, r: int)
    requires e > 0 && 0 <= r < e && x == e * q + r
    ensures x % e == r
  {
    var q', r' := x / e, x % e;
    assert x == e * q' + r';
    var t := q - q';
    assert e * t == r' - r by {
      assert e * q - e * q' == e * (q - q');
    }
  }

  /** A multiple of `e` leaves no remainder. */
  lemma MultipleMod(e: int, k: int)
    requires e > 0
    ensures (e * k) % e == 0
  {
    DivModUnique(e * k, e, k, 0);
  }

  /** One more than a multiple of `e` leaves remainder 1. */
  lemma MultiplePlusOneMod(e: int, k: int)
    requires e >= 2
    ensures (e * k + 1) % e == 1
  {
    DivModUnique(e * k + 1, e, k, 1);
  }

  /** Reducing modulo `2m` and then modulo `m` is reducing modulo `m`. */
  lemma ModOfDoubleMod(x: int, m: int)
    requires m > 0
    ensures (x % (2 * m)) % m == x % m
  {
    var q, r := x / (2 * m), x % (2 * m);
    assert x == (2 * m) * q + r;
    var q2, r2 := r / m, r % m;
    assert r == m * q2 + r2;
    assert x == m * (2 * q + q2) + r2;
    DivModUnique(x, m, 2 * q + q2, r2);
  }
}
