/**
 * Fixed-width signed integers of the service and the two pieces of Rust
 * integer semantics its query arithmetic relies on: the narrowing cast
 * `as i32` (keep the low 32 bits) and signed division `/` (round toward zero).
 * Dafny's integers are unbounded and its `/` is Euclidean, so both are
 * written out here.
 */
module Ints {

  const I32Min: int := -0x8000_0000
  const I32Max: int := 0x7FFF_FFFF
  const I64Min: int := -0x8000_0000_0000_0000
  const I64Max: int := 0x7FFF_FFFF_FFFF_FFFF

  /** Rust `i32`. */
  type I32 = x: int | -0x8000_0000 <= x <= 0x7FFF_FFFF

  /** Rust `i64`, the width of the query accumulator. */
  type I64 = x: int | -0x8000_0000_0000_0000 <= x <= 0x7FFF_FFFF_FFFF_FFFF

  /**
   * `x as i32`: the unique 32-bit value congruent to `x` modulo 2^32.
   * A value already inside the `i32` range is left as it is.
   */
  function WrapI32(x: int): (r: I32)
    ensures (x - r) % 0x1_0000_0000 == 0
    ensures I32Min <= x <= I32Max ==> r == x
  {
    (x + 0x8000_0000) % 0x1_0000_0000 - 0x8000_0000
  }

  /**
   * Signed division as Rust performs it: the quotient is rounded toward
   * zero, so the remainder takes the sign of the dividend. The source only
   * divides by a positive count.
   */
  function TruncDiv(a: int, b: int): (q: int)
    requires b > 0
    ensures a >= 0 ==> 0 <= a - q * b < b
    ensures a < 0 ==> -b < a - q * b <= 0
  {
    if a >= 0 then a / b else -((-a) / b)
  }

  /** Dafny's Euclidean `/` and Rust's `/` disagree on every negative dividend that is not a multiple. */
  lemma TruncDivDiffersFromEuclidean()
    ensures TruncDiv(-7, 2) == -3 && -7 / 2 == -4
  {
  }

  /** A quotient rounded toward zero stays between any bounds that bracket the exact quotient. */
  lemma TruncDivWithin(a: int, b: int, lo: int, hi: int)
    requires b > 0
    requires lo * b <= a <= hi * b
    ensures lo <= TruncDiv(a, b) <= hi
  {
    var q := TruncDiv(a, b);
    // |a - q * b| < b, so q * b is within b of a, hence of [lo * b, hi * b]
    assert (q - hi) * b < b;
    assert (lo - q) * b < b;
    BelowOneOfProduct(q - hi, b);
    BelowOneOfProduct(lo - q, b);
  }

  lemma BelowOneOfProduct(x: int, b: int)
    requires b > 0 && x * b < b
    ensures x <= 0
  {
    if x > 0 {
      AtLeastFactor(x, b);
      assert false;
    }
  }

  lemma AtLeastFactor(x: int, b: int)
    requires x >= 1 && b >= 0
    ensures x * b >= b
  {
  }

  /** Euclidean division recovers the quotient and remainder it was built from. */
  lemma DivModOf(q: int, d: int, r: int)
    requires d > 0 && 0 <= r < d
    ensures (q * d + r) / d == q && (q * d + r) % d == r
  {
    var k, m := (q * d + r) / d, (q * d + r) % d;
    assert (k - q) * d == r - m;
    assert (q - k) * d == m - r;
    BelowOneOfProduct(k - q, d);
    BelowOneOfProduct(q - k, d);
  }
}
