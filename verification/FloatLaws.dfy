/**
 What the operations come to on bit patterns: sign, biased exponent and fraction are
 written out here as numbers, so that the scale of the specification is not its own judge.
 */
module FloatLaws {
  import opened Powers
  import opened FloatSpec
  import opened SoftFloat

  /** The struct of a 32-bit word, field by field. */
  function FpEncode(bits: nat): (f: Float)
    requires bits < 0x1_0000_0000
  {
    Float(bits / 0x8000_0000, bits / 0x80_0000 % 0x100, bits % 0x80_0000)
  }

  function FpDecode(f: Float): (bits: nat)
    requires WellFormed(f)
  {
    f.mantissa + f.sign * 0x8000_0000 + f.exponent * 0x80_0000
  }

  /** Every word is one well-formed struct, and the other way round. */
  lemma DecodeUndoesEncode(bits: nat)
    requires bits < 0x1_0000_0000
    ensures WellFormed(FpEncode(bits)) && FpDecode(FpEncode(bits)) == bits
  {
    var high := bits / 0x80_0000;
    assert high / 0x100 == bits / 0x8000_0000;
    assert bits == high * 0x80_0000 + bits % 0x80_0000;
  }

  lemma EncodeUndoesDecode(f: Float)
    requires WellFormed(f)
    ensures FpDecode(f) < 0x1_0000_0000 && FpEncode(FpDecode(f)) == f
  {
    var high := f.sign * 0x100 + f.exponent;
    assert FpDecode(f) == high * 0x80_0000 + f.mantissa;
    QuotientUnique(FpDecode(f), 0x80_0000, high, f.mantissa);
    QuotientUnique(high, 0x100, f.sign, f.exponent);
    QuotientUnique(FpDecode(f), 0x8000_0000, f.sign, f.exponent * 0x80_0000 + f.mantissa);
  }

  /** The patterns of the constants: 1, infinity and the smallest positive number. */
  lemma Patterns()
    ensures FpEncode(0x3f80_0000) == Float(0, 127, 0) && FpEncode(0x7f80_0000) == Inf(0) && FpEncode(0xff80_0000) == Inf(1)
    ensures FpEncode(0) == Zero(0) && FpEncode(0x8000_0000) == Zero(1) && FpEncode(1) == Float(0, 0, 1)
    ensures IsInf(FpEncode(0x7f80_0000)) && IsNaN(FpEncode(0x7f80_0001)) && IsFinite(FpEncode(0x7f7f_ffff))
  {
  }

  ghost function Flipped(f: Float): Float
    requires f.sign <= 1
  {
    f.(sign := 1 - f.sign)
  }

  lemma OneInUnits()
    ensures Magnitude(Float(0, 127, 0)) == Unit() && Magnitude(Float(1, 127, 0)) == Unit()
  {
    hide Pow2;
    Pow2Values();
    Pow2Add(23, 126);
  }

  /** Multiplying by 1 changes nothing, and by -1 only the sign. */
  lemma OneIsNeutral(f: Float)
    requires WellFormed(f)
    ensures IsProduct(Float(0, 127, 0), f, f) && IsProduct(f, Float(0, 127, 0), f)
    ensures IsProduct(Float(1, 127, 0), f, Flipped(f)) && IsProduct(f, Float(1, 127, 0), Flipped(f))
  {
    hide RoundsTo;
    if IsFinite(f) {
      OneInUnits();
      FiniteIsItsOwnRounding(f);
      FiniteIsItsOwnRounding(Flipped(f));
      assert Scaled(Flipped(f)) == Scaled(f) == Unit() * Magnitude(f);
    }
  }

  /** Twice a number: the next exponent, infinity beyond exponent 254, and a doubled position below the normals. */
  ghost function Twice(f: Float): Float
    requires IsFinite(f)
  {
    if f.exponent == 0 then
      if f.mantissa < 0x40_0000 then f.(mantissa := 2 * f.mantissa) else Float(f.sign, 1, 2 * f.mantissa - 0x80_0000)
    else if f.exponent < 254 then f.(exponent := f.exponent + 1)
    else Float(f.sign, 255, 0)
  }

  lemma SumWithItself(f: Float, r: Float)
    requires IsFinite(f)
    ensures IsSum(f, f, r) <==> r == Twice(f)
  {
    hide RoundsTo;
    TwiceRounds(f);
    if IsSum(f, f, r) {
      RoundingIsUnique(f.sign, 2 * Scaled(f), r, Twice(f));
    }
  }

  lemma TwiceRounds(f: Float)
    requires IsFinite(f)
    ensures RoundsTo(f.sign, 2 * Scaled(f), Twice(f))
  {
    hide RoundsTo;
    ScaledAsPower(f);
    if f.exponent < 254 {
      ScaledAsPower(Twice(f));
      FiniteIsItsOwnRounding(Twice(f));
      if f.exponent == 0 {
        DoubleUnits(f.mantissa, Pow2(UNIT_EXP));
      } else {
        DoubleShift(f.mantissa + HIDDEN, f.exponent - 1 + UNIT_EXP);
      }
    } else {
      DoubleShift(f.mantissa + HIDDEN, TOP_EXP);
      TooLarge(f, 2 * Scaled(f));
    }
  }

  lemma DoubleUnits(m: nat, u: nat)
    ensures 2 * (m * u) == (2 * m) * u
  {
  }

  lemma TooLarge(f: Float, x: nat)
    requires f.sign <= 1 && f.mantissa < HIDDEN && x == (f.mantissa + HIDDEN) * Pow2(TOP_EXP + 1)
    ensures RoundsTo(f.sign, x, Float(f.sign, 255, 0))
  {
    Thresholds();
    MulMonotone(HIDDEN, f.mantissa + HIDDEN, Pow2(TOP_EXP + 1));
  }

  /** A number and its opposite add up to +0. */
  lemma OppositesCancel(f: Float)
    requires IsFinite(f)
    ensures IsSum(f, Flipped(f), Float(0, 0, 0))
  {
    hide RoundsTo;
    assert Scaled(Flipped(f)) == Scaled(f);
    FiniteIsItsOwnRounding(Float(0, 0, 0));
  }

  /** Half a unit in the last place is a tie: an even fraction stays, an odd one goes up, into the next binade if need be. */
  lemma TiesGoToEven(f: Float, r: Float)
    requires WellFormed(f) && 25 <= f.exponent <= 254
    ensures IsSum(f, Float(f.sign, f.exponent - 24, 0), r) <==>
      r == if f.mantissa % 2 == 0 then f
           else if f.mantissa < 0x7f_ffff then f.(mantissa := f.mantissa + 1)
           else Float(f.sign, f.exponent + 1, 0)
  {
    hide RoundsTo, PackedNormal, NearestEven;
    var h := Float(f.sign, f.exponent - 24, 0);
    var n, t := f.mantissa + HIDDEN, f.exponent - 1 + UNIT_EXP;
    var q := if f.mantissa % 2 == 0 then n else n + 1;
    var x := Scaled(f) + Scaled(h);
    HalfUnit(f, h, n, t, q);
    PackNormal(f.sign, x, t, q);
    if IsSum(f, h, r) {
      RoundingIsUnique(f.sign, x, r, PackedNormal(f.sign, t, q));
    }
    TiePacked(f, t, q);
  }

  lemma HalfUnit(f: Float, h: Float, n: nat, t: nat, q: nat)
    requires WellFormed(f) && 25 <= f.exponent <= 254 && h == Float(f.sign, f.exponent - 24, 0)
    requires n == f.mantissa + HIDDEN && t == f.exponent - 1 + UNIT_EXP && q == if f.mantissa % 2 == 0 then n else n + 1
    ensures var x := Scaled(f) + Scaled(h);
      x > 0 && NearestEven(x, Pow2(t), q) && HIDDEN * Pow2(t) <= x < 2 * HIDDEN * Pow2(t)
  {
    hide Pow2, Scaled, NearestEven;
    var p := Pow2(t - 1);
    ScaledNormal(f, n, t);
    ScaledNormal(h, HIDDEN, t - 24);
    HiddenPower(t - 24);
    Pow2Step(t - 1);
    TieArithmetic(n, p, q);
    MulMonotone(HIDDEN, n, 2 * p);
    MulMonotone(n + 1, 2 * HIDDEN, 2 * p);
  }

  lemma HiddenPower(k: nat)
    ensures HIDDEN * Pow2(k) == Pow2(k + 23)
  {
    hide Pow2;
    Pow2Values();
    Pow2Add(23, k);
  }

  lemma TieArithmetic(n: nat, p: nat, q: nat)
    requires p > 0 && q == if n % 2 == 0 then n else n + 1
    ensures NearestEven(n * (2 * p) + p, 2 * p, q) && n * (2 * p) + p < (n + 1) * (2 * p)
  {
  }

  lemma TiePacked(f: Float, t: nat, q: nat)
    requires WellFormed(f) && 25 <= f.exponent <= 254 && t == f.exponent - 1 + UNIT_EXP
    requires q == f.mantissa + HIDDEN + (if f.mantissa % 2 == 0 then 0 else 1)
    ensures PackedNormal(f.sign, t, q) ==
      if f.mantissa % 2 == 0 then f
      else if f.mantissa < 0x7f_ffff then f.(mantissa := f.mantissa + 1)
      else Float(f.sign, f.exponent + 1, 0)
  {
  }

  /** Infinities, with their patterns; every other operand is absorbed. */
  lemma InfinityAbsorbs(s: nat, f: Float, r: Float)
    requires s <= 1 && WellFormed(f) && f.exponent < 255
    ensures IsSum(Float(s, 255, 0), f, r) <==> r == Float(s, 255, 0)
    ensures IsSum(f, Float(s, 255, 0), r) <==> r == Float(s, 255, 0)
    ensures IsSum(Float(s, 255, 0), Float(1 - s, 255, 0), r) <==> r.exponent == 255 && r.mantissa != 0
    ensures IsProduct(Float(s, 255, 0), f, r) <==>
      if f.exponent == 0 && f.mantissa == 0 then r.exponent == 255 && r.mantissa != 0
      else r == Float(if s == f.sign then 0 else 1, 255, 0)
  {
  }
}
