/**
 Single-precision floating point in software: the packed struct, the exact
 meaning of a packed float, and rounding as IEEE 754-2019 states it.
 */
module FloatSpec {
  import opened Powers

  const FRAC_BITS := 23
  const HIDDEN := 0x80_0000              // 2^23, the implied leading one
  const BIAS := 127
  const MAX_EXP := 0xFF
  const LARGEST_NORMALIZED_EXPONENT := 0xFE
  const MIN_EXP := 1 - BIAS - FRAC_BITS   // -149, exponent of the subnormal grid
  const UNIT_EXP := BIAS + FRAC_BITS - 1  // 149
  const TOP_EXP := UNIT_EXP + LARGEST_NORMALIZED_EXPONENT - 1  // 402, grid of the largest binade

  /** A packed float: sign bit, biased exponent, fraction. */
  datatype Float = Float(sign: nat, exponent: int, mantissa: nat)

  predicate WellFormed(f: Float) {
    f.sign <= 1 && 0 <= f.exponent <= MAX_EXP && f.mantissa < HIDDEN
  }

  predicate IsFinite(f: Float) {
    WellFormed(f) && f.exponent < MAX_EXP
  }

  predicate IsZero(f: Float) { f.mantissa == 0 && f.exponent == 0 }

  predicate IsNormalized(f: Float) { 0 < f.exponent <= LARGEST_NORMALIZED_EXPONENT }

  predicate IsNaN(f: Float) { f.exponent == MAX_EXP && f.mantissa != 0 }

  predicate IsInf(f: Float) { f.exponent == MAX_EXP && f.mantissa == 0 }

  const NAN := Float(0, MAX_EXP, 1)

  function Inf(sign: nat): Float { Float(sign, MAX_EXP, 0) }

  function Zero(sign: nat): Float { Float(sign, 0, 0) }

  /** Magnitude of a finite float, in units of 2^-149 (section 3.4 of IEEE 754-2019). */
  ghost function Magnitude(f: Float): nat
    requires IsFinite(f)
  {
    if f.exponent == 0 then f.mantissa else (f.mantissa + HIDDEN) * Pow2(f.exponent - 1)
  }

  /** Exact results are measured in units of 2^-298, so that products stay integers. */
  ghost function Unit(): nat { Pow2(UNIT_EXP) }

  ghost function Scaled(f: Float): nat
    requires IsFinite(f)
  {
    Magnitude(f) * Unit()
  }

  ghost function Signed(sign: nat, x: int): int {
    if sign == 0 then x else -x
  }

  /** Exact value in units of 2^-298. */
  ghost function Value(f: Float): int
    requires IsFinite(f)
  {
    Signed(f.sign, Scaled(f))
  }

  ghost function Distance(x: int, y: int): nat {
    if x <= y then y - x else x - y
  }

  /** Half-way between the largest finite float and 2^128: (2^24 - 1/2) * 2^104. */
  ghost function OverflowThreshold(): nat { (4 * HIDDEN - 1) * Pow2(TOP_EXP - 1) }

  /** The value g is no closer to x than the value r, and a tie is taken only by an even r. */
  ghost predicate NoCloser(g: int, r: int, even: bool, x: int) {
    && Distance(r, x) <= Distance(g, x)
    && (Distance(r, x) == Distance(g, x) && r != g ==> even)
  }

  /**
   r is the number (-1)^sign * x * 2^-298 rounded to nearest, ties to even
   (section 4.3.1 of IEEE 754-2019): among all finite floats none is closer, and
   from the overflow threshold on the result is an infinity.
   */
  ghost predicate RoundsTo(sign: nat, x: nat, r: Float) {
    && WellFormed(r)
    && r.sign == sign
    && if x >= OverflowThreshold() then IsInf(r)
       else IsFinite(r) && forall g | IsFinite(g) :: NoCloser(Value(g), Value(r), r.mantissa % 2 == 0, Signed(sign, x))
  }

  function Xor(s: nat, t: nat): nat { (s + t) % 2 }

  ghost function SignOf(x: int): nat { if x < 0 then 1 else 0 }

  /** r is the sum of a and b: sections 4.3.1, 6.1 (infinities), 6.2 (NaNs) and 6.3 (sign of zero). */
  ghost predicate IsSum(a: Float, b: Float, r: Float)
    requires WellFormed(a) && WellFormed(b)
  {
    if IsNaN(a) || IsNaN(b) || (IsInf(a) && IsInf(b) && a.sign != b.sign) then IsNaN(r)
    else if IsInf(a) then r == a
    else if IsInf(b) then r == b
    else
      var s := Value(a) + Value(b);
      var sign := if s == 0 && a.sign == b.sign then a.sign else SignOf(s);
      RoundsTo(sign, Distance(0, s), r)
  }

  /** r is the product of a and b, with the sign the exclusive-or of the signs. */
  ghost predicate IsProduct(a: Float, b: Float, r: Float)
    requires WellFormed(a) && WellFormed(b)
  {
    if IsNaN(a) || IsNaN(b) || (IsInf(a) && IsZero(b)) || (IsZero(a) && IsInf(b)) then IsNaN(r)
    else if IsInf(a) || IsInf(b) then r == Inf(Xor(a.sign, b.sign))
    else RoundsTo(Xor(a.sign, b.sign), Magnitude(a) * Magnitude(b), r)
  }

  // ---- The specification determines the result --------------------------------

  /** Position of a float among the non-negative floats. */
  ghost function Rank(f: Float): nat
    requires IsFinite(f)
  {
    f.exponent * HIDDEN + f.mantissa
  }

  lemma MagnitudeIncreases(f: Float, g: Float)
    requires IsFinite(f) && IsFinite(g) && Rank(f) < Rank(g)
    ensures Magnitude(f) < Magnitude(g)
  {
    if f.exponent == g.exponent {
      if f.exponent > 0 {
        MulStrict(f.mantissa + HIDDEN, g.mantissa + HIDDEN, Pow2(f.exponent - 1));
      }
    } else {
      assert f.exponent < g.exponent;
      assert Magnitude(f) < HIDDEN * Pow2(f.exponent) by {
        if f.exponent > 0 {
          MulStrict(f.mantissa + HIDDEN, 2 * HIDDEN, Pow2(f.exponent - 1));
        }
      }
      Pow2Monotone(f.exponent, g.exponent - 1);
      MulMonotone(HIDDEN, g.mantissa + HIDDEN, Pow2(g.exponent - 1));
    }
  }

  /** The next larger float of the same sign. */
  ghost function Next(f: Float): (g: Float)
    requires IsFinite(f) && Rank(f) + 1 < MAX_EXP * HIDDEN
    ensures IsFinite(g) && Rank(g) == Rank(f) + 1 && g.sign == f.sign
  {
    if f.mantissa + 1 < HIDDEN then f.(mantissa := f.mantissa + 1)
    else Float(f.sign, f.exponent + 1, 0)
  }

  lemma ScaledIncreases(f: Float, g: Float)
    requires IsFinite(f) && IsFinite(g) && Rank(f) < Rank(g)
    ensures Scaled(f) < Scaled(g)
  {
    MagnitudeIncreases(f, g);
    MulStrict(Magnitude(f), Magnitude(g), Unit());
  }

  /** Two floats that are both nearest are neighbours. */
  lemma NearestAreNeighbours(sign: nat, x: nat, f: Float, g: Float)
    requires sign <= 1 && x < OverflowThreshold()
    requires RoundsTo(sign, x, f) && RoundsTo(sign, x, g)
    requires Rank(f) < Rank(g)
    ensures Rank(g) == Rank(f) + 1
    ensures Value(f) != Value(g) && Distance(Value(f), Signed(sign, x)) == Distance(Value(g), Signed(sign, x))
  {
    ScaledIncreases(f, g);
    var n := Next(f);
    ScaledIncreases(f, n);
    assert Distance(Value(f), Signed(sign, x)) <= Distance(Value(n), Signed(sign, x));
    if n != g {
      ScaledIncreases(n, g);
    }
  }

  /** Rounding has at most one result, so RoundsTo fixes sign, exponent and fraction. */
  lemma RoundingIsUnique(sign: nat, x: nat, f: Float, g: Float)
    requires sign <= 1 && RoundsTo(sign, x, f) && RoundsTo(sign, x, g)
    ensures f == g
  {
    if x < OverflowThreshold() {
      if Rank(f) < Rank(g) {
        NearestAreNeighbours(sign, x, f, g);
      } else if Rank(g) < Rank(f) {
        NearestAreNeighbours(sign, x, g, f);
      }
    }
  }

  // ---- Rounding on a grid ------------------------------------------------------

  /** q is x / d rounded to the nearest integer, ties to even. */
  ghost predicate NearestEven(x: nat, d: nat, q: nat)
    requires d > 0
  {
    && 2 * Distance(q * d, x) <= d
    && (2 * Distance(q * d, x) == d ==> q % 2 == 0)
  }

  /** A nearest multiple of d beats every other multiple. */
  lemma NearestMultiple(x: nat, d: nat, q: nat, k: nat)
    requires d > 0 && 2 * Distance(q * d, x) <= d
    ensures Distance(q * d, x) <= Distance(k * d, x)
    ensures Distance(q * d, x) == Distance(k * d, x) && k != q ==> 2 * Distance(q * d, x) == d
  {
    hide Distance;
    if k < q {
      MulMonotone(k + 1, q, d);
      NextMultiple(k, d);
    } else if k > q {
      MulMonotone(q + 1, k, d);
      NextMultiple(q, d);
    }
    FartherOff(x, d, q * d, k * d);
  }

  lemma FartherOff(x: nat, d: nat, near: nat, far: nat)
    requires d > 0 && 2 * Distance(near, x) <= d && (near == far || near + d <= far || far + d <= near)
    ensures Distance(near, x) <= Distance(far, x)
    ensures Distance(near, x) == Distance(far, x) && near != far ==> 2 * Distance(near, x) == d
  {
  }

  lemma ScaledAsPower(g: Float)
    requires IsFinite(g)
    ensures g.exponent == 0 ==> Scaled(g) == g.mantissa * Pow2(UNIT_EXP)
    ensures g.exponent > 0 ==> Scaled(g) == (g.mantissa + HIDDEN) * Pow2(g.exponent - 1 + UNIT_EXP)
  {
    if g.exponent > 0 {
      Pow2Add(g.exponent - 1, UNIT_EXP);
      MulAssociative(g.mantissa + HIDDEN, Pow2(g.exponent - 1), Unit());
    }
  }

  lemma ScaledNormal(f: Float, n: nat, u: nat)
    requires IsFinite(f) && f.exponent > 0 && n == f.mantissa + HIDDEN && u == f.exponent - 1 + UNIT_EXP
    ensures Scaled(f) == n * Pow2(u)
  {
    ScaledAsPower(f);
  }

  /** A number n * 2^u is a multiple of the grid 2^t, or too small to reach the binade on that grid. */
  lemma OnGrid(n: nat, u: nat, t: nat) returns (k: nat)
    requires n < 2 * HIDDEN
    ensures u >= t ==> n * Pow2(u) == k * Pow2(t)
    ensures u < t ==> n * Pow2(u) < HIDDEN * Pow2(t)
  {
    if u >= t {
      Pow2Add(u - t, t);
      k := n * Pow2(u - t);
      MulAssociative(n, Pow2(u - t), Pow2(t));
    } else {
      k := 0;
      Pow2Monotone(u + 1, t);
      MulStrict(n, 2 * HIDDEN, Pow2(u));
      MulMonotone(2 * Pow2(u), Pow2(t), HIDDEN);
    }
  }

  lemma FloatOnGrid(g: Float, t: nat) returns (k: nat)
    requires IsFinite(g) && t >= UNIT_EXP
    ensures Scaled(g) == k * Pow2(t) || (Scaled(g) < HIDDEN * Pow2(t) && t > UNIT_EXP)
  {
    ScaledAsPower(g);
    if g.exponent == 0 {
      k := OnGrid(g.mantissa, UNIT_EXP, t);
    } else {
      k := OnGrid(g.mantissa + HIDDEN, g.exponent - 1 + UNIT_EXP, t);
    }
  }

  /** Comparing magnitudes is enough: a value of the other sign is never closer. */
  lemma FromMagnitudes(sign: nat, x: nat, s: nat, g: nat, r: nat, even: bool)
    requires sign <= 1 && s <= 1 && NoCloser(g, r, even, x) && NoCloser(0, r, even, x)
    ensures NoCloser(Signed(s, g), Signed(sign, r), even, Signed(sign, x))
  {
  }

  /** The nearest multiple of x's grid beats every finite float, finer or coarser. */
  lemma GridBeatsFloat(x: nat, t: nat, q: nat, even: bool, g: Float)
    requires t >= UNIT_EXP && IsFinite(g)
    requires t == UNIT_EXP || x >= HIDDEN * Pow2(t)
    requires 2 * Distance(q * Pow2(t), x) <= Pow2(t)
    requires 2 * Distance(q * Pow2(t), x) == Pow2(t) ==> even
    ensures NoCloser(Scaled(g), q * Pow2(t), even, x)
  {
    var d := Pow2(t);
    var k := FloatOnGrid(g, t);
    if Scaled(g) == k * d {
      NearestMultiple(x, d, q, k);
    } else {
      NearestMultiple(x, d, q, HIDDEN);
    }
  }

  /**
   A float r that sits at the nearest multiple q of the grid 2^t is the rounded
   result, when the grid is the one of x's binade or the subnormal grid.
   */
  lemma RoundsOnGrid(sign: nat, x: nat, t: nat, q: nat, r: Float)
    requires sign <= 1 && t >= UNIT_EXP
    requires 2 * Distance(q * Pow2(t), x) <= Pow2(t)
    requires t == UNIT_EXP || x >= HIDDEN * Pow2(t)
    requires x < OverflowThreshold()
    requires IsFinite(r) && r.sign == sign
    requires Scaled(r) == q * Pow2(t)
    requires 2 * Distance(q * Pow2(t), x) == Pow2(t) ==> r.mantissa % 2 == 0
    ensures RoundsTo(sign, x, r)
  {
    var even := r.mantissa % 2 == 0;
    forall g | IsFinite(g)
      ensures NoCloser(Value(g), Value(r), even, Signed(sign, x))
    {
      GridBeatsFloat(x, t, q, even, g);
      GridBeatsFloat(x, t, q, even, Zero(0));
      FromMagnitudes(sign, x, g.sign, Scaled(g), Scaled(r), even);
    }
  }
}
