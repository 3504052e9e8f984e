/** The map's screen transform: once by dividing, once by a fixed-point multiplication, with doubles taken as reals. */
module FixedPoint {

  /** One, with 14 bits after the point. */
  const ONE := 0x4000

  /** A C++ cast from double to int: towards zero. */
  function Trunc(x: real): int {
    if x >= 0.0 then x.Floor else -(-x).Floor
  }

  /** `fixPtToFixed<int, double>(d, 14)`. */
  function ToFixed(d: real): int {
    Trunc(d * (ONE as real))
  }

  predicate FitsInt32(x: int) {
    -0x8000_0000 <= x < 0x8000_0000
  }

  /** What is left of a result in a 32-bit int. */
  function WrapInt32(x: int): (w: int)
    ensures FitsInt32(w)
  {
    (x + 0x8000_0000) % 0x1_0000_0000 - 0x8000_0000
  }

  /** `(a * b) >> 14` on ints: the product wraps, and the shift is arithmetic. */
  function MulII(a: int, b: int): int {
    WrapInt32(a * b) / ONE
  }

  function RatioFixed(ratio: real): int
    requires ratio > 0.0
  {
    ToFixed(1.0 / ratio)
  }

  /** calcXOffset and calcYOffset. */
  function Offset(center: int, coordinate: int, ratio: real): int
    requires ratio > 0.0
  {
    center - Trunc(coordinate as real / ratio)
  }

  /** calcXOffsetI and calcYOffsetI. */
  function OffsetI(center: int, coordinate: int, ratioFixed: int): int {
    center - MulII(ratioFixed, coordinate)
  }

  lemma DivideIsMultiply(m: real, ratio: real, x: real, inverse: real)
    requires ratio > 0.0 && x == m / ratio && inverse == 1.0 / ratio
    ensures x == m * inverse
  {
    assert x * ratio == m;
    assert inverse * ratio == 1.0;
    assert (x - m * inverse) * ratio == 0.0 by {
      assert (m * inverse) * ratio == m * (inverse * ratio);
    }
  }

  /** Rounding the inverse ratio down moves the scaled product by less than the coordinate. */
  lemma ScaledError(m: int, inverse: real, r: int, d: real)
    requires inverse >= 0.0 && r == (inverse * (ONE as real)).Floor
    requires d == (m as real * inverse) * (ONE as real) - (r * m) as real
    ensures m >= 0 ==> 0.0 <= d && (d < m as real || d == 0.0)
    ensures m <= 0 ==> d <= 0.0 && (m as real < d || d == 0.0)
  {
    var scaled := inverse * (ONE as real);
    Associate(m as real, inverse, ONE as real);
    IntProduct(r, m);
    RoundingError(m as real, scaled, r as real, d);
  }

  lemma RoundingError(m: real, scaled: real, r: real, d: real)
    requires 0.0 <= scaled - r < 1.0 && d == m * scaled - r * m
    ensures m > 0.0 ==> 0.0 <= d < m
    ensures m < 0.0 ==> m < d <= 0.0
    ensures m == 0.0 ==> d == 0.0
  {
    Distribute(m, scaled, r, d, scaled - r);
    FractionOf(m, scaled - r, d);
  }

  lemma FractionOf(m: real, e: real, d: real)
    requires 0.0 <= e < 1.0 && d == m * e
    ensures m > 0.0 ==> 0.0 <= d < m
    ensures m < 0.0 ==> m < d <= 0.0
    ensures m == 0.0 ==> d == 0.0
  {
    if m > 0.0 {
      Shrinks(m, e, d);
    } else if m < 0.0 {
      assert -d == (-m) * e;
      Shrinks(-m, e, -d);
    }
  }

  lemma Distribute(a: real, b: real, c: real, d: real, e: real)
    requires e == b - c && d == a * b - c * a
    ensures d == a * e
  {
    assert a * b - c * a == a * (b - c);
  }

  lemma Associate(a: real, b: real, c: real)
    ensures (a * b) * c == a * (b * c)
  {
  }

  lemma IntProduct(a: int, b: int)
    ensures (a * b) as real == a as real * b as real
  {
  }

  lemma Shrinks(m: real, e: real, p: real)
    requires m > 0.0 && 0.0 <= e < 1.0 && p == m * e
    ensures 0.0 <= p < m
  {
    assert m - p == m * (1.0 - e);
  }

  /** Truncation against a floored quotient whose numerator is off by `d`. */
  lemma FloorAgainstTrunc(x: real, y: int, d: real, bound: nat)
    requires x * (ONE as real) - y as real == d && bound > 0
    ensures x >= 0.0 && 0.0 <= d < (ONE * bound) as real ==> 0 <= Trunc(x) - y / ONE <= bound
    ensures x <= 0.0 && -((ONE * bound) as real) < d <= 0.0 ==> -1 <= y / ONE - Trunc(x) <= bound - 1
  {
    var k := y / ONE;
    assert k * ONE <= y < (k + 1) * ONE;
  }

  /** How far apart the two transforms put a coordinate. */
  function Gap(center: int, coordinate: int, ratio: real): int
    requires ratio > 0.0
  {
    OffsetI(center, coordinate, RatioFixed(ratio)) - Offset(center, coordinate, ratio)
  }

  /** With the product as it would be without wrapping. */
  lemma ProductsAgree(coordinate: int, ratio: real, bound: nat)
    requires ratio > 0.0 && bound > 0 && -ONE * bound <= coordinate <= ONE * bound
    ensures var gap := Trunc(coordinate as real / ratio) - RatioFixed(ratio) * coordinate / ONE;
            if coordinate >= 0 then 0 <= gap <= bound else -(bound - 1) <= gap <= 1
  {
    var inverse, x := 1.0 / ratio, coordinate as real / ratio;
    assert inverse > 0.0;
    DivideIsMultiply(coordinate as real, ratio, x, inverse);
    var r := RatioFixed(ratio);
    var d := x * (ONE as real) - (r * coordinate) as real;
    ScaledError(coordinate, inverse, r, d);
    SignOf(coordinate as real, inverse);
    FloorAgainstTrunc(x, r * coordinate, d, bound);
  }

  /**
   * As long as the product fits, for coordinates up to `bound` times 2^14 the two transforms differ by at most `bound`
   * pixels: the fixed-point one is never left of the other for coordinates from 0 on, and at most one pixel right of
   * it below 0.
   */
  lemma TransformsAgree(center: int, coordinate: int, ratio: real, bound: nat)
    requires ratio > 0.0 && bound > 0 && -ONE * bound <= coordinate <= ONE * bound
    requires FitsInt32(RatioFixed(ratio) * coordinate)
    ensures var gap := Gap(center, coordinate, ratio);
            if coordinate >= 0 then 0 <= gap <= bound else -(bound - 1) <= gap <= 1
  {
    hide RatioFixed, Trunc;
    ProductsAgree(coordinate, ratio, bound);
    WrapOf(RatioFixed(ratio) * coordinate);
  }

  /** A product that does not fit comes back off by a multiple of 2^32, so by 2^18 pixels at least. */
  lemma WrapOf(p: int)
    ensures FitsInt32(p) ==> WrapInt32(p) == p
    ensures !FitsInt32(p) ==> WrapInt32(p) / ONE - p / ONE >= 0x4_0000 || p / ONE - WrapInt32(p) / ONE >= 0x4_0000
  {
    var k := (p + 0x8000_0000) / 0x1_0000_0000;
    assert p == WrapInt32(p) + ONE * (0x4_0000 * k);
    ShiftOf(WrapInt32(p), 0x4_0000 * k);
  }

  lemma ShiftOf(w: int, q: int)
    ensures (w + ONE * q) / ONE == w / ONE + q
  {
  }

  lemma SignOf(m: real, inverse: real)
    requires inverse > 0.0
    ensures m >= 0.0 ==> m * inverse >= 0.0
    ensures m <= 0.0 ==> m * inverse <= 0.0
  {
  }

  predicate Int16(m: int) {
    -0x8000 <= m < 0x8000
  }

  predicate WithinTwo(center: int, coordinate: int, ratio: real)
    requires ratio > 0.0
  {
    -2 <= Gap(center, coordinate, ratio) <= 2
  }

  /** A 16-bit coordinate lands within two pixels exactly when its product does not overflow. */
  lemma WithinTwoIffFits(center: int, coordinate: int, ratio: real)
    requires ratio > 0.0 && Int16(coordinate)
    ensures WithinTwo(center, coordinate, ratio) <==> FitsInt32(RatioFixed(ratio) * coordinate)
  {
    hide RatioFixed, Trunc, WrapInt32;
    ProductsAgree(coordinate, ratio, 2);
    WrapOf(RatioFixed(ratio) * coordinate);
  }

  lemma RatioIsPositive(ratio: real)
    requires ratio > 0.0
    ensures RatioFixed(ratio) >= 0
  {
    assert 1.0 / ratio > 0.0;
  }

  /** The 32-bit product fits for all 16-bit coordinates exactly when the inverse ratio is at most 4 in fixed point. */
  lemma ProductFitsIff(ratioFixed: int)
    requires ratioFixed >= 0
    ensures (forall m: int :: Int16(m) ==> FitsInt32(ratioFixed * m)) <==> ratioFixed <= 0x1_0000
  {
    if ratioFixed <= 0x1_0000 {
      forall m: int | Int16(m)
        ensures FitsInt32(ratioFixed * m)
      {
        Between(ratioFixed, m);
      }
    } else {
      assert Int16(-0x8000) && !FitsInt32(ratioFixed * -0x8000);
    }
  }

  lemma Between(r: int, m: int)
    requires 0 <= r <= 0x1_0000 && Int16(m)
    ensures -0x8000 * 0x1_0000 <= r * m <= 0x7fff * 0x1_0000
  {
    if m >= 0 { Scale(r, 0x1_0000, m); } else { Scale(r, 0x1_0000, -m); }
  }

  lemma Scale(a: int, b: int, k: int)
    requires 0 <= a <= b && k >= 0
    ensures 0 <= k * a <= k * b
  {
  }

  /** The fast transform is right for every 16-bit coordinate if and only if the inverse ratio is at most 4. */
  lemma FastTransformIff(center: int, ratio: real)
    requires ratio > 0.0
    ensures (forall m: int :: Int16(m) ==> WithinTwo(center, m, ratio)) <==> RatioFixed(ratio) <= 0x1_0000
  {
    hide WithinTwo, FitsInt32, RatioFixed;
    RatioIsPositive(ratio);
    forall m: int | Int16(m)
      ensures WithinTwo(center, m, ratio) <==> FitsInt32(RatioFixed(ratio) * m)
    {
      WithinTwoIffFits(center, m, ratio);
    }
    ProductFitsIff(RatioFixed(ratio));
  }
}
