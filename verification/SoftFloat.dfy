/**
 The operations of the software floating-point library on its unpacked form
 (sign, exponent, 64-bit mantissa): rounding shifts, packing, addition and
 multiplication, proved against the rounding rule of IEEE 754-2019.
 */
module SoftFloat {
  import opened Powers
  import opened FloatSpec

  const WORD := 0x1_0000_0000_0000_0000   // 2^64, the range of the mantissa field

  /** The unpacked value mantissa * 2^exponent with its sign and class flags. */
  datatype Internal = Internal(sign: nat, isInf: bool, isNan: bool, exponent: int, mantissa: nat)

  /** Magnitude of an unpacked value, in units of 2^-298. */
  ghost function Exact(v: Internal): nat
    requires v.exponent >= -2 * UNIT_EXP
  {
    v.mantissa * Pow2(v.exponent + 2 * UNIT_EXP)
  }

  function FromIeee754(f: Float): Internal
    requires WellFormed(f)
  {
    if IsInf(f) then Internal(f.sign, true, false, 0, 0)
    else if IsNaN(f) then Internal(f.sign, false, true, 0, 0)
    else if IsNormalized(f) then Internal(f.sign, false, false, f.exponent - BIAS - FRAC_BITS, f.mantissa + HIDDEN)
    else Internal(f.sign, false, false, -BIAS + 1 - FRAC_BITS, f.mantissa)
  }

  /** Unpacking a finite float loses nothing. */
  lemma UnpackingIsExact(f: Float)
    requires IsFinite(f)
    ensures FromIeee754(f).exponent >= MIN_EXP && FromIeee754(f).mantissa < 2 * HIDDEN
    ensures FromIeee754(f).mantissa * Pow2(FromIeee754(f).exponent - MIN_EXP) == Magnitude(f)
    ensures Exact(FromIeee754(f)) == Scaled(f)
  {
    ScaledAsPower(f);
  }

  /** The 64-bit left shift, with its wrap-around. */
  function ShiftLeft(m: nat, amount: nat): nat { (m * Pow2(amount)) % WORD }

  // ---- Rounding shifts ---------------------------------------------------------

  /** The guard/round/sticky test of the right shift by 1 <= amount < 64. */
  predicate RoundsUp(m: nat, amount: nat)
    requires amount >= 1
  {
    var guard := Quotient(m, Pow2(amount)) % 2 == 1;
    var round := Quotient(m, Pow2(amount - 1)) % 2 == 1;
    var sticky := Remainder(m, Pow2(amount - 1)) != 0;
    (guard && round && !sticky) || (round && sticky)
  }

  /** The quotient a right shift leaves before any carry is renormalised. */
  function RoundedShift(m: nat, amount: nat): nat {
    if amount == 0 then m
    else Quotient(m, Pow2(amount)) + if RoundsUp(m, amount) then 1 else 0
  }

  /** State after a right shift; a carry into a power of two is shifted out again. */
  function Shifted(v: Internal, amount: nat): Internal {
    if amount == 0 then v
    else if amount >= 64 then v.(exponent := v.exponent + amount, mantissa := 0)
    else
      var q := RoundedShift(v.mantissa, amount);
      if RoundsUp(v.mantissa, amount) && q % HIDDEN == 0
      then v.(exponent := v.exponent + amount + 1, mantissa := q / 2)
      else v.(exponent := v.exponent + amount, mantissa := q)
  }

  lemma NoShift(v: Internal)
    ensures Shifted(v, 0) == v
  {
  }

  lemma HalveTwice(m: nat, p: nat)
    requires p > 0
    ensures Quotient(m, p) == 2 * Quotient(m, 2 * p) + Quotient(m, p) % 2
    ensures m == 2 * (Quotient(m, 2 * p) * p) + (Quotient(m, p) % 2) * p + Remainder(m, p)
  {
    hide Quotient, Remainder;
    var h := Quotient(m, p);
    var q, b, s := h / 2, h % 2, Remainder(m, p);
    SplitOdd(q, b, p);
    QuotientUnique(m, 2 * p, q, b * p + s);
  }

  lemma SplitOdd(q: nat, b: nat, p: nat)
    ensures (2 * q + b) * p == q * (2 * p) + b * p && q * (2 * p) == 2 * (q * p)
    ensures b <= 1 ==> b * p <= p
  {
  }

  /** z is q * p: the kept part of m, with round bit b and sticky part s below it. */
  lemma HalfUp(m: nat, p: nat, q: nat, b: nat, s: nat, up: nat)
    requires p > 0 && b <= 1 && s < p && m == 2 * (q * p) + b * p + s
    requires up == if b == 1 && (s != 0 || q % 2 == 1) then 1 else 0
    ensures NearestEven(m, 2 * p, q + up)
  {
    var z := q * p;
    assert q * (2 * p) == 2 * z;
    assert (q + 1) * (2 * p) == 2 * z + 2 * p;
    if b == 0 {
      assert m == 2 * z + s;
    } else {
      assert m == 2 * z + p + s;
    }
  }

  /** Guard, round and sticky bit together round to nearest, ties to even. */
  lemma ShiftRoundsToNearest(m: nat, amount: nat)
    ensures NearestEven(m, Pow2(amount), RoundedShift(m, amount))
  {
    if amount > 0 {
      var p := Pow2(amount - 1);
      var q := Quotient(m, Pow2(amount));
      var up := if RoundsUp(m, amount) then 1 else 0;
      HalveTwice(m, p);
      HalfUp(m, p, q, Quotient(m, p) % 2, Remainder(m, p), up);
    } else {
      assert m * Pow2(0) == m;
    }
  }

  lemma DistanceScales(x: nat, y: nat, g: nat)
    ensures Distance(x * g, y * g) == Distance(x, y) * g
  {
    if x <= y {
      MulMonotone(x, y, g);
      DifferenceScales(y, x, g);
    } else {
      MulMonotone(y, x, g);
      DifferenceScales(x, y, g);
    }
  }

  lemma DifferenceScales(x: int, y: int, g: int)
    ensures (x - y) * g == x * g - y * g
  {
  }

  lemma HalfScales(w: nat, d: nat, g: nat)
    requires g > 0
    ensures 2 * w <= d ==> 2 * (w * g) <= d * g
    ensures 2 * w < d ==> 2 * (w * g) < d * g
  {
    MulAssociative(2, w, g);
    if 2 * w < d {
      MulStrict(2 * w, d, g);
    }
  }

  lemma NearestEvenScales(x: nat, d: nat, q: nat, g: nat)
    requires d > 0 && g > 0 && NearestEven(x, d, q)
    ensures d * g > 0 && NearestEven(x * g, d * g, q)
  {
    hide Distance;
    MulStrict(0, d, g);
    MulAssociative(q, d, g);
    DistanceScales(q * d, x, g);
    HalfScales(Distance(q * d, x), d, g);
  }

  /** Rounding the mantissa rounds the value it stands for, on the shifted grid. */
  lemma ShiftOnGrid(m: nat, e: nat, amount: nat, q: nat)
    requires NearestEven(m, Pow2(amount), q)
    ensures NearestEven(m * Pow2(e), Pow2(e + amount), q)
  {
    var d, g := Pow2(amount), Pow2(e);
    NearestEvenScales(m, d, q, g);
    assert Pow2(e + amount) == d * g by {
      Pow2Add(e, amount);
    }
  }

  // ---- Packing lemmas ------------------------------------------------------------

  lemma Thresholds()
    ensures HIDDEN * Pow2(UNIT_EXP) < OverflowThreshold()
    ensures OverflowThreshold() < 2 * HIDDEN * Pow2(TOP_EXP)
    ensures 2 * OverflowThreshold() == (4 * HIDDEN - 1) * Pow2(TOP_EXP)
  {
    Pow2Monotone(UNIT_EXP, TOP_EXP - 1);
    assert Pow2(TOP_EXP) == 2 * Pow2(TOP_EXP - 1);
  }

  /** A value below the smallest normal, at its nearest multiple q of the subnormal grid. */
  lemma PackSubnormal(sign: nat, x: nat, q: nat)
    requires sign <= 1 && x < HIDDEN * Pow2(UNIT_EXP) && NearestEven(x, Pow2(UNIT_EXP), q)
    ensures q <= HIDDEN
    ensures RoundsTo(sign, x, if q < HIDDEN then Float(sign, 0, q) else Float(sign, 1, 0))
  {
    Thresholds();
    if q > HIDDEN {
      MulMonotone(HIDDEN + 1, q, Pow2(UNIT_EXP));
    }
    var r := if q < HIDDEN then Float(sign, 0, q) else Float(sign, 1, 0);
    ScaledAsPower(r);
    RoundsOnGrid(sign, x, UNIT_EXP, q, r);
  }

  /** The float that the normal path packs for quotient q on grid 2^t. */
  function PackedNormal(sign: nat, t: nat, q: nat): Float {
    var (e, m) := if q < 2 * HIDDEN then (t as int - UNIT_EXP + 1, q as int - HIDDEN) else (t as int - UNIT_EXP + 2, 0);
    if e > LARGEST_NORMALIZED_EXPONENT then Inf(sign) else Float(sign, e, if m < 0 then 0 else m)
  }

  lemma QuotientInBinade(x: nat, d: nat, q: nat)
    requires d > 0 && NearestEven(x, d, q) && HIDDEN * d <= x < 2 * HIDDEN * d
    ensures HIDDEN <= q <= 2 * HIDDEN
  {
    if q < HIDDEN {
      MulMonotone(q + 1, HIDDEN, d);
    } else if q > 2 * HIDDEN {
      MulMonotone(2 * HIDDEN + 1, q, d);
    }
  }

  /** The quotient carries into the next binade exactly from the half-way point on. */
  lemma CarryPoint(x: nat, d: nat, q: nat)
    requires d > 0 && NearestEven(x, d, q) && q <= 2 * HIDDEN
    ensures q == 2 * HIDDEN <==> 2 * x >= (4 * HIDDEN - 1) * d
  {
    if q == 2 * HIDDEN - 1 {
      assert q * d == 2 * HIDDEN * d - d;
    } else if q < 2 * HIDDEN - 1 {
      MulMonotone(q + 2, 2 * HIDDEN, d);
    }
  }

  lemma PackedValue(sign: nat, t: nat, q: nat)
    requires sign <= 1 && UNIT_EXP <= t <= TOP_EXP && HIDDEN <= q <= 2 * HIDDEN && (t == TOP_EXP ==> q < 2 * HIDDEN)
    ensures IsFinite(PackedNormal(sign, t, q)) && PackedNormal(sign, t, q).sign == sign
    ensures q % 2 == 0 ==> PackedNormal(sign, t, q).mantissa % 2 == 0
    ensures Scaled(PackedNormal(sign, t, q)) == q * Pow2(t)
  {
    hide Pow2, Scaled;
    if q == 2 * HIDDEN {
      ScaledNormal(Float(sign, t - UNIT_EXP + 2, 0), HIDDEN, t + 1);
      DoubleShift(HIDDEN, t);
    } else {
      ScaledNormal(Float(sign, t - UNIT_EXP + 1, q - HIDDEN), q, t);
    }
  }

  /** Where a binade lies relative to the overflow threshold. */
  lemma BinadeAndThreshold(x: nat, t: nat)
    requires HIDDEN * Pow2(t) <= x < 2 * HIDDEN * Pow2(t)
    ensures t > TOP_EXP ==> x >= OverflowThreshold()
    ensures t < TOP_EXP ==> x < OverflowThreshold()
    ensures t == TOP_EXP ==> (x >= OverflowThreshold() <==> 2 * x >= (4 * HIDDEN - 1) * Pow2(t))
  {
    if t > TOP_EXP {
      Pow2Monotone(TOP_EXP + 1, t);
    } else if t < TOP_EXP {
      Pow2Monotone(t, TOP_EXP - 1);
    }
  }

  /** Normal results: carry out of the fraction and overflow to infinity included. */
  lemma PackNormal(sign: nat, x: nat, t: nat, q: nat)
    requires sign <= 1 && t >= UNIT_EXP
    requires NearestEven(x, Pow2(t), q) && HIDDEN * Pow2(t) <= x < 2 * HIDDEN * Pow2(t)
    ensures HIDDEN <= q <= 2 * HIDDEN
    ensures RoundsTo(sign, x, PackedNormal(sign, t, q))
  {
    QuotientInBinade(x, Pow2(t), q);
    BinadeAndThreshold(x, t);
    CarryPoint(x, Pow2(t), q);
    if x < OverflowThreshold() {
      PackedValue(sign, t, q);
      RoundsOnGrid(sign, x, t, q, PackedNormal(sign, t, q));
    }
  }

  // ---- What a shift does to the exact value -------------------------------------------

  /** What packing expects: the range in which its 64-bit shortcuts are exact. */
  predicate Packable(v: Internal) {
    && v.sign <= 1 && v.mantissa < WORD && v.exponent >= 2 * MIN_EXP
    && (v.mantissa < 2 * HIDDEN ==> v.exponent <= TOP_EXP - 2 * UNIT_EXP)
    && (v.exponent <= MIN_EXP - 64 ==> v.mantissa <= WORD / 2)
  }

  lemma ExactMultiple(m: nat, k: nat, t: nat)
    ensures m * Pow2(k + t) == (m * Pow2(k)) * Pow2(t)
    ensures NearestEven(m * Pow2(k + t), Pow2(t), m * Pow2(k))
  {
    Pow2Add(k, t);
    MulAssociative(m, Pow2(k), Pow2(t));
  }

  lemma FactorBound(a: nat, b: nat, p: nat)
    requires p > 0 && a * p < b * p
    ensures a < b
  {
    if a >= b {
      MulMonotone(b, a, p);
    }
  }

  /** A mantissa shifted left onto the subnormal grid keeps below the hidden bit. */
  lemma LeftOntoGrid(v: Internal, k: nat)
    requires v.exponent - MIN_EXP == k && Exact(v) < HIDDEN * Pow2(UNIT_EXP)
    ensures v.mantissa * Pow2(k) < HIDDEN
    ensures NearestEven(Exact(v), Pow2(UNIT_EXP), v.mantissa * Pow2(k))
  {
    ExactMultiple(v.mantissa, k, UNIT_EXP);
    FactorBound(v.mantissa * Pow2(k), HIDDEN, Pow2(UNIT_EXP));
  }

  /** Shifting out 64 bits or more leaves zero, and zero is the nearest multiple. */
  lemma Vanishes(v: Internal, amount: nat)
    requires Packable(v) && amount >= 64 && v.exponent + amount == MIN_EXP
    ensures NearestEven(Exact(v), Pow2(UNIT_EXP), 0)
  {
    hide Pow2;
    var p := Pow2(v.exponent + 2 * UNIT_EXP);
    Pow2Values();
    Pow2Add(64, v.exponent + 2 * UNIT_EXP);
    Pow2Monotone(64 + v.exponent + 2 * UNIT_EXP, UNIT_EXP);
    MulMonotone(v.mantissa, WORD / 2, p);
  }

  /** A value that needs a shift of less than 64 onto the subnormal grid. */
  lemma RightOntoGrid(v: Internal, amount: nat)
    requires v.exponent >= 2 * MIN_EXP && v.exponent + amount == MIN_EXP
    requires Exact(v) < HIDDEN * Pow2(UNIT_EXP)
    ensures NearestEven(Exact(v), Pow2(UNIT_EXP), RoundedShift(v.mantissa, amount))
    ensures Quotient(v.mantissa, Pow2(amount)) < HIDDEN
  {
    var e := v.exponent + 2 * UNIT_EXP;
    var q := Quotient(v.mantissa, Pow2(amount));
    ShiftRoundsToNearest(v.mantissa, amount);
    ShiftOnGrid(v.mantissa, e, amount, RoundedShift(v.mantissa, amount));
    if q >= HIDDEN {
      MulMonotone(HIDDEN, q, Pow2(amount));
      MulMonotone(HIDDEN * Pow2(amount), v.mantissa, Pow2(e));
      ExactMultiple(HIDDEN, amount, e);
    }
  }

  /** The leading one lies beyond exponent 255: the value overflows whatever its fraction. */
  lemma FarAboveThreshold(v: Internal, amount: nat)
    requires Packable(v) && HIDDEN * Pow2(amount) <= v.mantissa && v.exponent + amount >= MAX_EXP
    ensures RoundsTo(v.sign, Exact(v), Inf(v.sign))
  {
    var e := v.exponent + 2 * UNIT_EXP;
    Thresholds();
    MulMonotone(HIDDEN * Pow2(amount), v.mantissa, Pow2(e));
    ExactMultiple(HIDDEN, amount, e);
    assert Pow2(TOP_EXP + 1) == 2 * Pow2(TOP_EXP);
    Pow2Monotone(TOP_EXP + 1, amount + e);
    MulMonotone(Pow2(TOP_EXP + 1), Pow2(amount + e), HIDDEN);
  }

  lemma BelowSmallestNormal(v: Internal, amount: nat)
    requires Packable(v) && v.mantissa < 2 * HIDDEN * Pow2(amount) && v.exponent + amount < MIN_EXP
    ensures Exact(v) < HIDDEN * Pow2(UNIT_EXP)
  {
    hide Pow2, NearestEven;
    var e := v.exponent + 2 * UNIT_EXP;
    Pow2Step(amount + e);
    Pow2Monotone(amount + e + 1, UNIT_EXP);
    MulStrict(v.mantissa, 2 * HIDDEN * Pow2(amount), Pow2(e));
    ExactMultiple(2 * HIDDEN, amount, e);
  }

  lemma BelowSmallestNormalLeft(v: Internal, amount: nat)
    requires Packable(v) && amount <= 23 && v.mantissa < HIDDEN && InPosition(v.mantissa, amount)
    requires v.exponent - amount < MIN_EXP
    ensures Exact(v) < HIDDEN * Pow2(UNIT_EXP)
  {
    var e := v.exponent + 2 * UNIT_EXP;
    if e >= amount {
      ExactMultiple(v.mantissa, amount, e - amount);
      MulStrict(v.mantissa * Pow2(amount), 2 * HIDDEN, Pow2(e - amount));
      assert Pow2(e - amount + 1) == 2 * Pow2(e - amount);
      Pow2Monotone(e - amount + 1, UNIT_EXP);
      MulMonotone(Pow2(e - amount + 1), Pow2(UNIT_EXP), HIDDEN);
    } else {
      MulStrict(v.mantissa, HIDDEN, Pow2(e));
      Pow2Monotone(e, UNIT_EXP);
      MulMonotone(Pow2(e), Pow2(UNIT_EXP), HIDDEN);
    }
  }

  lemma ShiftedQuotient(m: nat, amount: nat)
    requires amount >= 1 && HIDDEN * Pow2(amount) <= m < 2 * HIDDEN * Pow2(amount)
    ensures RoundsUp(m, amount) ==> RoundedShift(m, amount) > HIDDEN
    ensures RoundedShift(m, amount) == 2 * HIDDEN ==> RoundsUp(m, amount)
  {
    var q := Quotient(m, Pow2(amount));
    FactorBound(q, 2 * HIDDEN, Pow2(amount));
    FactorBound(HIDDEN, q + 1, Pow2(amount));
  }

  lemma BinadeScales(m: nat, e: nat, amount: nat)
    requires HIDDEN * Pow2(amount) <= m < 2 * HIDDEN * Pow2(amount)
    ensures HIDDEN * Pow2(e + amount) <= m * Pow2(e) < 2 * HIDDEN * Pow2(e + amount)
  {
    ExactMultiple(HIDDEN, amount, e);
    ExactMultiple(2 * HIDDEN, amount, e);
    MulMonotone(HIDDEN * Pow2(amount), m, Pow2(e));
    MulStrict(m, 2 * HIDDEN * Pow2(amount), Pow2(e));
  }

  /** The float the normal path assembles from a shifted value. */
  function Assembled(v: Internal): Float {
    if v.exponent + BIAS + FRAC_BITS > LARGEST_NORMALIZED_EXPONENT then Inf(v.sign)
    else Float(v.sign, v.exponent + BIAS + FRAC_BITS, v.mantissa % HIDDEN)
  }

  lemma AssembledIsPacked(v: Internal, amount: nat)
    requires 1 <= amount < 64 && v.exponent + amount >= MIN_EXP
    requires HIDDEN * Pow2(amount) <= v.mantissa < 2 * HIDDEN * Pow2(amount)
    requires HIDDEN <= RoundedShift(v.mantissa, amount) <= 2 * HIDDEN
    ensures Assembled(Shifted(v, amount))
         == PackedNormal(v.sign, v.exponent + 2 * UNIT_EXP + amount, RoundedShift(v.mantissa, amount))
  {
    ShiftedQuotient(v.mantissa, amount);
  }

  /** Rounding a mantissa wider than 24 bits into the normal range. */
  lemma NormalShift(v: Internal, amount: nat)
    requires Packable(v) && HIDDEN * Pow2(amount) <= v.mantissa < 2 * HIDDEN * Pow2(amount)
    requires 1 <= amount < 64 && v.exponent + amount >= MIN_EXP
    ensures RoundsTo(v.sign, Exact(v), Assembled(Shifted(v, amount)))
  {
    hide Pow2, RoundsTo, PackedNormal, Assembled, Shifted, RoundedShift, NearestEven;
    var m, e := v.mantissa, v.exponent + 2 * UNIT_EXP;
    var q := RoundedShift(m, amount);
    ShiftRoundsToNearest(m, amount);
    ShiftOnGrid(m, e, amount, q);
    BinadeScales(m, e, amount);
    PackNormal(v.sign, m * Pow2(e), e + amount, q);
    AssembledIsPacked(v, amount);
  }

  /** Shifting a mantissa of at most 24 bits into position is exact. */
  lemma NormalShiftLeft(v: Internal, amount: nat)
    requires Packable(v) && InPosition(v.mantissa, amount)
    requires v.exponent - amount >= MIN_EXP
    ensures HIDDEN <= ShiftLeft(v.mantissa, amount) < 2 * HIDDEN
    ensures RoundsTo(v.sign, Exact(v),
                     Assembled(v.(mantissa := ShiftLeft(v.mantissa, amount), exponent := v.exponent - amount)))
  {
    var e := v.exponent + 2 * UNIT_EXP - amount;
    var q := ShiftLeft(v.mantissa, amount);
    assert q == v.mantissa * Pow2(amount);
    ExactMultiple(v.mantissa, amount, e);
    PackExact(v, e, q);
  }

  /** The mantissa's leading one reaches the hidden-bit position after amount left shifts. */
  ghost predicate InPosition(m: nat, amount: nat) {
    HIDDEN <= m * Pow2(amount) < 2 * HIDDEN
  }

  lemma ExactIsNearest(q: nat, d: nat)
    requires d > 0
    ensures NearestEven(q * d, d, q)
  {
  }

  lemma PackExact(v: Internal, e: nat, q: nat)
    requires Packable(v) && HIDDEN <= q < 2 * HIDDEN && e >= UNIT_EXP && e <= v.exponent + 2 * UNIT_EXP
    requires Exact(v) == q * Pow2(e) && v.exponent <= TOP_EXP - 2 * UNIT_EXP
    ensures RoundsTo(v.sign, Exact(v), Assembled(v.(mantissa := q, exponent := e - 2 * UNIT_EXP)))
  {
    hide Pow2, RoundsTo, NearestEven, Exact;
    var d := Pow2(e);
    MulMonotone(HIDDEN, q, d);
    MulStrict(q, 2 * HIDDEN, d);
    ExactIsNearest(q, d);
    PackNormal(v.sign, Exact(v), e, q);
    assert PackedNormal(v.sign, e, q) == Assembled(v.(mantissa := q, exponent := e - 2 * UNIT_EXP));
  }

  lemma ShiftedBelowNormal(v: Internal, amount: nat)
    requires amount == 0 ==> v.mantissa < HIDDEN
    requires 1 <= amount < 64 ==> Quotient(v.mantissa, Pow2(amount)) < HIDDEN
    requires v.exponent + amount == MIN_EXP
    ensures var (w, q) := (Shifted(v, amount), if amount >= 64 then 0 else RoundedShift(v.mantissa, amount));
      w == if q < HIDDEN then v.(exponent := MIN_EXP, mantissa := q)
           else v.(exponent := MIN_EXP + 1, mantissa := HIDDEN / 2)
  {
    hide Pow2, Quotient, Remainder;
  }

  /** The three outcomes of shifting right onto the subnormal grid. */
  lemma DenormalizeRight(v: Internal, amount: nat)
    requires Packable(v) && v.exponent + amount == MIN_EXP && Exact(v) < HIDDEN * Pow2(UNIT_EXP)
    ensures var w := Shifted(v, amount);
      && w == v.(exponent := w.exponent, mantissa := w.mantissa)
      && (w.mantissa == 0 ==> RoundsTo(v.sign, Exact(v), Zero(v.sign)))
      && (w.mantissa > 0 && w.exponent == MIN_EXP ==> RoundsTo(v.sign, Exact(v), Float(v.sign, 0, w.mantissa)))
      && (w.mantissa > 0 && w.exponent != MIN_EXP ==>
            w.exponent == MIN_EXP + 1 && w.mantissa == HIDDEN / 2 && RoundsTo(v.sign, Exact(v), Float(v.sign, 1, 0)))
  {
    var q := if amount >= 64 then 0 else RoundedShift(v.mantissa, amount);
    assert NearestEven(Exact(v), Pow2(UNIT_EXP), q) && (amount < 64 ==> Quotient(v.mantissa, Pow2(amount)) < HIDDEN) by {
      if amount >= 64 {
        Vanishes(v, amount);
      } else {
        RightOntoGrid(v, amount);
      }
    }
    assert amount == 0 ==> Quotient(v.mantissa, Pow2(0)) == v.mantissa;
    PackSubnormal(v.sign, Exact(v), q);
    ShiftedBelowNormal(v, amount);
  }

  lemma NormalShiftNone(v: Internal)
    requires Packable(v) && HIDDEN <= v.mantissa < 2 * HIDDEN && v.exponent >= MIN_EXP
    ensures RoundsTo(v.sign, Exact(v), Assembled(v))
  {
    PackExact(v, v.exponent + 2 * UNIT_EXP, v.mantissa);
    assert v == v.(mantissa := v.mantissa, exponent := v.exponent + 2 * UNIT_EXP - 2 * UNIT_EXP);
  }

  lemma QuotientHalves(m: nat, amount: nat)
    requires amount >= 1
    ensures 2 * Quotient(m, Pow2(amount)) <= m
  {
    HalveTwice(m, Pow2(amount - 1));
    MulMonotone(1, Pow2(amount - 1), Quotient(m, Pow2(amount)));
  }

  // ---- Operations on an unpacked value through its pointer ------------------------

  class InternalRef {
    var v: Internal

    constructor (value: Internal)
      ensures v == value
    {
      v := value;
    }

    /** Shifts the power of two that a rounding carry left behind into place. */
    method PostNormalize()
      requires v.mantissa < WORD
      modifies this
      ensures v == if old(v).mantissa % HIDDEN == 0 then Shifted(old(v), 1) else old(v)
      decreases 1
    {
      if v.mantissa % HIDDEN == 0 {
        EvenShiftIsExact(v.mantissa);
        ShiftRightMantissa(1);
      }
    }

    /** Shifts right and rounds; a shift by 0 leaves the value alone. */
    method ShiftRightMantissa(amount: nat)
      requires v.mantissa < WORD
      modifies this
      ensures v == Shifted(old(v), amount)
      decreases if 1 <= amount && RoundsUp(v.mantissa, amount) then 2 else 0
    {
      hide Pow2, Quotient, Remainder;
      var current := v.mantissa;
      v := v.(exponent := v.exponent + amount);
      if amount >= 64 {
        v := v.(mantissa := 0);
        return;
      }
      if amount == 0 {
        return;
      }
      var guard := Quotient(current, Pow2(amount)) % 2;
      var round := Quotient(current, Pow2(amount - 1)) % 2;
      var sticky := Remainder(current, Pow2(amount - 1)) != 0;
      if (guard == 1 && round == 1 && !sticky) || (round == 1 && sticky) {
        QuotientHalves(current, amount);
        v := v.(mantissa := Quotient(current, Pow2(amount)));
        v := v.(mantissa := v.mantissa + 1);
        EvenShiftIsExact(v.mantissa);
        PostNormalize();
      } else {
        v := v.(mantissa := Quotient(current, Pow2(amount)));
      }
    }

    /** Normalises a non-zero mantissa of at most 24 bits without changing the value. */
    method ShiftLeftToMantissaPosition()
      requires 0 < v.mantissa < 2 * HIDDEN && v.exponent >= MIN_EXP
      modifies this
      ensures v == old(v).(mantissa := v.mantissa, exponent := v.exponent)
      ensures HIDDEN <= v.mantissa < 2 * HIDDEN && old(v).exponent - FRAC_BITS <= v.exponent <= old(v).exponent
      ensures Exact(v) == Exact(old(v))
    {
      hide Pow2, Exact, ShiftLeft;
      SmallPowers();
      while Quotient(v.mantissa, HIDDEN) % 2 == 0
        invariant 0 < v.mantissa < 2 * HIDDEN
        invariant v == old(v).(mantissa := v.mantissa, exponent := v.exponent)
        invariant old(v).exponent - FRAC_BITS <= v.exponent <= old(v).exponent && v.mantissa >= Pow2(old(v).exponent - v.exponent)
        invariant Exact(v) == Exact(old(v))
        decreases 2 * HIDDEN - v.mantissa
      {
        DoubleMantissa(v);
        ghost var k := old(v).exponent - v.exponent;
        Pow2Step(k);
        if k == FRAC_BITS {
          Pow2Values();
        }
        v := v.(mantissa := ShiftLeft(v.mantissa, 1));
        v := v.(exponent := v.exponent - 1);
      }
    }

    /** Packs a value below the smallest normal; rounding may still reach that normal. */
    method TryDenormalize() returns (res: Float)
      requires Packable(v) && !v.isNan && !v.isInf && v.mantissa > 0
      requires Exact(v) < HIDDEN * Pow2(UNIT_EXP)
      modifies this
      ensures RoundsTo(old(v).sign, Exact(old(v)), res)
      decreases if v.exponent < MIN_EXP then 2 else 0, 0
    {
      hide Pow2, RoundsTo, Shifted, Exact, NearestEven;
      ghost var x := Exact(v);
      if v.exponent > MIN_EXP {
        var shiftAmount := 0;
        var exp := v.exponent;
        while exp > MIN_EXP
          invariant exp >= MIN_EXP && shiftAmount + exp == v.exponent
        {
          shiftAmount := shiftAmount + 1;
          exp := exp - 1;
        }
        LeftOntoGrid(v, shiftAmount);
        NoWrap(v.mantissa * Pow2(shiftAmount));
        PackSubnormal(v.sign, x, v.mantissa * Pow2(shiftAmount));
        return Float(v.sign, v.exponent - shiftAmount + FRAC_BITS + BIAS - 1, ShiftLeft(v.mantissa, shiftAmount));
      }

      var shiftAmount := 0;
      var exp := v.exponent;
      while exp < MIN_EXP
        invariant exp <= MIN_EXP && exp - shiftAmount == v.exponent
      {
        shiftAmount := shiftAmount + 1;
        exp := exp + 1;
      }
      DenormalizeRight(v, shiftAmount);
      NoShift(v);
      ShiftRightMantissa(shiftAmount);
      if v.mantissa == 0 {
        return Zero(v.sign);
      }
      var exponent := v.exponent + FRAC_BITS + BIAS - 1;
      if exponent != 0 {
        res := ToIeee754(v);
        SmallestNormalAgain(v, x, res);
      } else {
        res := Float(v.sign, 0, v.mantissa);
      }
    }
  }

  /** After the carry the value is the smallest normal, and packing it returns just that. */
  lemma SmallestNormalAgain(v: Internal, x: nat, r: Float)
    requires v.sign <= 1 && v.exponent == MIN_EXP + 1 && v.mantissa == HIDDEN / 2
    requires RoundsTo(v.sign, x, Float(v.sign, 1, 0)) && RoundsTo(v.sign, Exact(v), r)
    ensures RoundsTo(v.sign, x, r)
  {
    var n := Float(v.sign, 1, 0);
    DoubleTwice(HIDDEN / 2, Pow2(UNIT_EXP));
    PackExact(v, UNIT_EXP, HIDDEN);
    RoundingIsUnique(v.sign, Exact(v), n, r);
  }

  lemma DoubleMantissa(v: Internal)
    requires v.mantissa < HIDDEN && v.exponent > 2 * MIN_EXP
    ensures ShiftLeft(v.mantissa, 1) == 2 * v.mantissa
    ensures Exact(v.(mantissa := 2 * v.mantissa, exponent := v.exponent - 1)) == Exact(v)
  {
    hide Pow2, ShiftLeft;
    ShiftOnce(v.mantissa);
    Pow2Step(v.exponent - 1 + 2 * UNIT_EXP);
    DoubleTwice(v.mantissa, Pow2(v.exponent - 1 + 2 * UNIT_EXP));
  }

  /** Packs an unpacked value: every finite one is rounded once, to nearest even. */
  method ToIeee754(value: Internal) returns (res: Float)
    requires Packable(value)
    ensures value.isNan ==> res == NAN
    ensures !value.isNan && value.isInf ==> res == Inf(value.sign)
    ensures !value.isNan && !value.isInf ==> RoundsTo(value.sign, Exact(value), res)
    ensures !value.isNan && !value.isInf && value.mantissa == 0 ==> res == Zero(value.sign)
    decreases if value.exponent < MIN_EXP then 2 else 0, 2
  {
    if value.isNan {
      return NAN;
    }
    if value.isInf {
      return Inf(value.sign);
    }
    ghost var x := Exact(value);
    if value.mantissa == 0 {
      Thresholds();
      PackSubnormal(value.sign, 0, 0);
      return Zero(value.sign);
    }
    var rest := Quotient(value.mantissa, HIDDEN);
    if rest > 1 {
      res := PackWide(value);
    } else if rest == 0 {
      res := PackNarrow(value);
    } else {
      if value.exponent < MIN_EXP {
        BelowSmallestNormal(value, 0);
        var local := new InternalRef(value);
        res := local.TryDenormalize();
        return;
      }
      NormalShiftNone(value);
      res := Float(value.sign, value.exponent + BIAS + FRAC_BITS, value.mantissa % HIDDEN);
    }
  }

  /** Packing a mantissa of more than 24 bits: shift right and round. */
  method PackWide(value: Internal) returns (res: Float)
    requires Packable(value) && !value.isNan && !value.isInf && value.mantissa >= 2 * HIDDEN
    ensures RoundsTo(value.sign, Exact(value), res)
    decreases if value.exponent < MIN_EXP then 2 else 0, 1
  {
    var amount := LeadingShift(value.mantissa);
    if MAX_EXP <= value.exponent + amount {
      FarAboveThreshold(value, amount);
      return Inf(value.sign);
    }
    var local := new InternalRef(value);
    if value.exponent + BIAS + FRAC_BITS + amount <= 0 {
      BelowSmallestNormal(value, amount);
      res := local.TryDenormalize();
      return;
    }
    NormalShift(value, amount);
    local.ShiftRightMantissa(amount);
    if local.v.exponent + BIAS + FRAC_BITS > LARGEST_NORMALIZED_EXPONENT {
      return Inf(value.sign);
    }
    res := Float(value.sign, local.v.exponent + BIAS + FRAC_BITS, local.v.mantissa % HIDDEN);
  }

  /** Packing a mantissa of less than 24 bits: shift left, or keep it subnormal. */
  method PackNarrow(value: Internal) returns (res: Float)
    requires Packable(value) && !value.isNan && !value.isInf && 0 < value.mantissa < HIDDEN
    ensures RoundsTo(value.sign, Exact(value), res)
    decreases if value.exponent < MIN_EXP then 2 else 0, 1
  {
    var amount := TrailingShift(value.mantissa);
    var local := new InternalRef(value);
    if value.exponent - amount < MIN_EXP {
      BelowSmallestNormalLeft(value, amount);
      res := local.TryDenormalize();
      return;
    }
    NormalShiftLeft(value, amount);
    local.v := local.v.(mantissa := ShiftLeft(local.v.mantissa, amount));
    local.v := local.v.(exponent := local.v.exponent - amount);
    // The hidden bit is always set now, so the subnormal encoding is never chosen here.
    assert Quotient(local.v.mantissa, HIDDEN) == 1;
    res := Float(value.sign, local.v.exponent + BIAS + FRAC_BITS, local.v.mantissa % HIDDEN);
  }

  /** Counts the right shifts that bring the leading one to the hidden-bit position. */
  method LeadingShift(m: nat) returns (amount: nat)
    requires 2 * HIDDEN <= m < WORD
    ensures 1 <= amount <= 40 && HIDDEN * Pow2(amount) <= m < 2 * HIDDEN * Pow2(amount)
  {
    hide Pow2, Quotient;
    amount := 0;
    var rest := Quotient(m, HIDDEN);
    SmallPowers();
    NextMultiple(rest, HIDDEN);
    while rest > 1
      invariant rest >= 1
      invariant rest * (HIDDEN * Pow2(amount)) <= m < (rest + 1) * (HIDDEN * Pow2(amount))
      invariant amount == 0 ==> rest > 1
    {
      Halve(m, rest, HIDDEN * Pow2(amount));
      DoubleShift(HIDDEN, amount);
      amount := amount + 1;
      rest := rest / 2;
    }
    if amount > 40 {
      Pow2Monotone(41, amount);
      Pow2Values();
    }
  }

  lemma Halve(m: nat, rest: nat, d: nat)
    requires rest * d <= m < (rest + 1) * d
    ensures (rest / 2) * (2 * d) <= m < (rest / 2 + 1) * (2 * d)
  {
    var h := rest / 2;
    MulAssociative(h + 1, 2, d);
    MulAssociative(h, 2, d);
    MulMonotone(2 * h, rest, d);
    MulMonotone(rest + 1, 2 * h + 2, d);
  }

  /** Counts the left shifts that bring the leading one to the hidden-bit position. */
  method TrailingShift(m: nat) returns (amount: nat)
    requires 0 < m < HIDDEN
    ensures 1 <= amount <= 23 && InPosition(m, amount)
  {
    hide Pow2, ShiftLeft;
    amount := 0;
    var mantissa := m;
    var rest := 0;
    SmallPowers();
    while rest == 0
      invariant mantissa == m * Pow2(amount) && 0 < mantissa < 2 * HIDDEN
      invariant rest == mantissa / HIDDEN
      invariant amount == 0 ==> rest == 0
      decreases 2 * HIDDEN - mantissa
    {
      DoubleShift(m, amount);
      ShiftOnce(mantissa);
      amount := amount + 1;
      mantissa := ShiftLeft(mantissa, 1);
      rest := mantissa / HIDDEN;
    }
    ShiftBound(m, amount);
  }

  lemma ShiftOnce(m: nat)
    requires m < HIDDEN
    ensures ShiftLeft(m, 1) == 2 * m
  {
    hide Pow2;
    SmallPowers();
  }

  lemma ShiftBound(m: nat, k: nat)
    requires m > 0 && m * Pow2(k) < 2 * HIDDEN
    ensures k <= FRAC_BITS
  {
    hide Pow2;
    if k > FRAC_BITS {
      Pow2Monotone(24, k);
      Pow2Values();
      MulMonotone(1, m, Pow2(k));
    }
  }

  lemma EvenShiftIsExact(m: nat)
    ensures m % HIDDEN == 0 ==> !RoundsUp(m, 1) && RoundedShift(m, 1) == m / 2
    ensures m % HIDDEN == 0 ==> m / 2 == Quotient(m, Pow2(1))
  {
    assert Pow2(1) == 2 && Pow2(0) == 1;
  }

  // ---- Multiplication ---------------------------------------------------------------

  function Mult(a: Internal, b: Internal): Internal {
    if a.isNan || b.isNan then (if a.isNan then a else b)
    else if (a.isInf && b.mantissa == 0) || (b.isInf && a.mantissa == 0) then a.(isNan := true)
    else if a.isInf || b.isInf then a.(isInf := true, sign := Xor(a.sign, b.sign))
    else Internal(Xor(a.sign, b.sign), false, false, a.exponent + b.exponent, (a.mantissa * b.mantissa) % WORD)
  }

  lemma ProductOfPowers(m: nat, j: nat, n: nat, k: nat)
    ensures (m * Pow2(j)) * (n * Pow2(k)) == (m * n) * Pow2(j + k)
  {
    Pow2Add(j, k);
    var p, q := Pow2(j), Pow2(k);
    assert (m * p) * (n * q) == (m * n) * (p * q) by {
      MulAssociative(m, p, n * q);
      MulAssociative(p, n, q);
      MulAssociative(n, p, q);
      MulAssociative(m, n, p * q);
    }
  }

  lemma MantissaProduct(m: nat, n: nat)
    requires m < 2 * HIDDEN && n < 2 * HIDDEN
    ensures m * n < 4 * HIDDEN * HIDDEN
    ensures m * n > 0 <==> m > 0 && n > 0
  {
    MulMonotone(m, 2 * HIDDEN, n);
    if m > 0 && n > 0 {
      MulMonotone(1, m, n);
    }
  }

  lemma MantissaFloor(m: nat, n: nat)
    requires m >= HIDDEN && n >= HIDDEN
    ensures m * n >= HIDDEN * HIDDEN
  {
    MulMonotone(HIDDEN, m, n);
    MulMonotone(HIDDEN, n, HIDDEN);
  }

  /** A product of at most 24 bits has a subnormal factor, so its exponent is small. */
  lemma NarrowProductIsSmall(a: Float, b: Float)
    requires IsFinite(a) && IsFinite(b)
    requires FromIeee754(a).mantissa * FromIeee754(b).mantissa < 2 * HIDDEN
    ensures FromIeee754(a).exponent + FromIeee754(b).exponent <= TOP_EXP - 2 * UNIT_EXP
  {
    var m, n := FromIeee754(a).mantissa, FromIeee754(b).mantissa;
    if a.exponent > 0 && b.exponent > 0 {
      MantissaFloor(m, n);
    }
  }

  lemma MultIsPackable(a: Float, b: Float)
    requires IsFinite(a) && IsFinite(b)
    ensures Mult(FromIeee754(a), FromIeee754(b)).mantissa == FromIeee754(a).mantissa * FromIeee754(b).mantissa
    ensures Packable(Mult(FromIeee754(a), FromIeee754(b)))
  {
    var pa, pb := FromIeee754(a), FromIeee754(b);
    MantissaProduct(pa.mantissa, pb.mantissa);
    if pa.mantissa * pb.mantissa < 2 * HIDDEN {
      NarrowProductIsSmall(a, b);
    }
  }

  /** The 64-bit product is exact. */
  lemma MultIsExact(a: Float, b: Float)
    requires IsFinite(a) && IsFinite(b)
    ensures Packable(Mult(FromIeee754(a), FromIeee754(b)))
    ensures Exact(Mult(FromIeee754(a), FromIeee754(b))) == Magnitude(a) * Magnitude(b)
  {
    var pa, pb := FromIeee754(a), FromIeee754(b);
    MultIsPackable(a, b);
    assert pa.exponent >= MIN_EXP && pb.exponent >= MIN_EXP;
    var m, j, n, k := pa.mantissa, pa.exponent - MIN_EXP, pb.mantissa, pb.exponent - MIN_EXP;
    assert Magnitude(a) == m * Pow2(j) && Magnitude(b) == n * Pow2(k) by {
      UnpackingIsExact(a);
      UnpackingIsExact(b);
    }
    var p := Mult(pa, pb);
    assert Exact(p) == (m * n) * Pow2(j + k);
    ProductOfPowers(m, j, n, k);
  }

  /**
   Multiplication is IEEE 754 multiplication on all operands but two infinities,
   which give NaN because an unpacked infinity carries mantissa 0.
   */
  method FpMul(a: Float, b: Float) returns (r: Float)
    requires WellFormed(a) && WellFormed(b)
    ensures IsProduct(a, b, r) <==> !(IsInf(a) && IsInf(b))
    ensures IsInf(a) && IsInf(b) ==> IsNaN(r)
    ensures IsNaN(r) ==> r == Float(0, 255, 1)
  {
    var res := Mult(FromIeee754(a), FromIeee754(b));
    if IsFinite(a) && IsFinite(b) {
      MultIsExact(a, b);
    }
    r := ToIeee754(res);
  }

  // ---- Addition -----------------------------------------------------------------------

  /** Signed exact value of an unpacked finite number, in units of 2^-298. */
  ghost function SignedExact(v: Internal): int
    requires v.exponent >= 2 * MIN_EXP
  {
    Signed(v.sign, Exact(v))
  }

  /** big is normalised and s differs from it by less than a quarter of its last place. */
  ghost predicate Absorbs(big: Internal, s: int) {
    && HIDDEN <= big.mantissa < 2 * HIDDEN && MIN_EXP < big.exponent <= TOP_EXP - 2 * UNIT_EXP
    && 4 * Distance(SignedExact(big), s) < Pow2(big.exponent + 2 * UNIT_EXP)
  }

  ghost predicate Unpacked(v: Internal) {
    && v.sign <= 1 && !v.isNan && !v.isInf
    && v.mantissa < 2 * HIDDEN && MIN_EXP <= v.exponent <= TOP_EXP - 2 * UNIT_EXP
  }

  ghost predicate Normalised(v: Internal) {
    && v.sign <= 1 && !v.isNan && !v.isInf && HIDDEN <= v.mantissa < 2 * HIDDEN
    && MIN_EXP - FRAC_BITS <= v.exponent <= TOP_EXP - 2 * UNIT_EXP
  }

  /** The smaller operand is too far down to reach the last place of the larger one. */
  lemma FarApart(a: Internal, b: Internal)
    requires Normalised(a) && Normalised(b) && a.exponent - b.exponent > 64 - FRAC_BITS - 1
    ensures Absorbs(a, SignedExact(a) + SignedExact(b))
  {
    hide Pow2;
    var e := b.exponent + 2 * UNIT_EXP;
    MulStrict(b.mantissa, 2 * HIDDEN, Pow2(e));
    Pow2Add(26, e);
    QuarterBelow(Pow2(e), Pow2(26), Pow2(26 + e), b.mantissa * Pow2(e));
    Pow2Monotone(26 + e, a.exponent + 2 * UNIT_EXP);
    DistanceOfSum(SignedExact(a), SignedExact(b));
  }

  lemma QuarterBelow(p: nat, factor: nat, big: nat, x: nat)
    ensures factor == Pow2(26) && big == factor * p && x < 2 * HIDDEN * p ==> 4 * x < big
  {
    hide Pow2;
    Pow2Values();
  }

  lemma DistanceOfSum(x: int, y: int)
    ensures Distance(x, x + y) == if y < 0 then -y else y
  {
  }

  /** The aligned mantissas fit in 64 bits, and so does their sum. */
  lemma AlignedFits(a: nat, b: nat, diff: nat)
    requires HIDDEN <= a < 2 * HIDDEN && b < 2 * HIDDEN && diff <= 64 - FRAC_BITS - 1
    ensures a * Pow2(diff) < WORD
    ensures HIDDEN <= ShiftLeft(a, diff) && ShiftLeft(a, diff) + b < WORD
  {
    hide Pow2;
    Pow2Values();
    Pow2Monotone(diff, 40);
    FitsIn(a, Pow2(diff));
    NoWrap(a * Pow2(diff));
  }

  lemma NoWrap(x: nat)
    ensures x < WORD ==> x % WORD == x
  {
  }

  lemma FitsIn(a: nat, p: nat)
    requires HIDDEN <= a < 2 * HIDDEN && 1 <= p <= 0x100_0000_0000
    ensures HIDDEN <= a * p <= (2 * HIDDEN - 1) * 0x100_0000_0000
  {
    MulMonotone(p, 0x100_0000_0000, a);
    MulMonotone(1, p, a);
  }

  /** Sum of two signed mantissas on one grid. */
  lemma SignedMantissaSum(s: nat, m: nat, t: nat, n: nat, u: nat, k: nat, p: nat)
    requires s <= 1 && t <= 1 && u <= 1
    requires Signed(u, k) == Signed(s, m) + Signed(t, n)
    ensures Signed(u, k * p) == Signed(s, m * p) + Signed(t, n * p)
  {
    hide Signed;
    SignedScales(s, m, p);
    SignedScales(t, n, p);
    SignedScales(u, k, p);
    SumScales(Signed(s, m), Signed(t, n), p);
  }

  lemma SignedScales(s: nat, m: nat, p: nat)
    ensures Signed(s, m * p) == Signed(s, m) * p
  {
  }

  lemma SumScales(x: int, y: int, p: int)
    ensures (x + y) * p == x * p + y * p
  {
  }

  /** A sum formed on the grid of the smaller exponent is the exact sum. */
  lemma AlignedSum(a: Internal, b: Internal, first: nat, r: Internal)
    requires Normalised(a) && Normalised(b) && a.exponent >= b.exponent && r.sign <= 1
    requires a.exponent - b.exponent <= 64 - FRAC_BITS - 1 && first == ShiftLeft(a.mantissa, a.exponent - b.exponent)
    requires r.exponent == b.exponent
    requires Signed(r.sign, r.mantissa) == Signed(a.sign, first) + Signed(b.sign, b.mantissa)
    ensures SignedExact(r) == SignedExact(a) + SignedExact(b)
  {
    hide Pow2, Signed;
    var e, p := b.exponent + 2 * UNIT_EXP, Pow2(b.exponent + 2 * UNIT_EXP);
    AlignedFits(a.mantissa, b.mantissa, a.exponent - b.exponent);
    NoWrap(a.mantissa * Pow2(a.exponent - b.exponent));
    ExactMultiple(a.mantissa, a.exponent - b.exponent, e);
    SignedMantissaSum(a.sign, first, b.sign, b.mantissa, r.sign, r.mantissa, p);
  }

  /** Adds signed mantissas on one grid, with 64-bit arithmetic. */
  method AddMantissas(a: Internal, b: Internal, first: nat) returns (result: Internal)
    requires a.sign <= 1 && b.sign <= 1 && 0 < first && first + b.mantissa < WORD
    ensures result == Internal(result.sign, false, false, b.exponent, result.mantissa)
    ensures result.sign <= 1 && result.mantissa < WORD && (result.mantissa == 0 ==> result.sign == 0)
    ensures Signed(result.sign, result.mantissa) == Signed(a.sign, first) + Signed(b.sign, b.mantissa)
  {
    result := Internal(a.sign, false, false, b.exponent, 0);
    var shifted := b.mantissa;
    if a.sign != b.sign {
      if shifted > first {
        result := result.(mantissa := shifted - first);
      } else {
        result := result.(mantissa := first - shifted);
      }
      var negative := if a.sign == 1 then first > shifted else first < shifted;
      result := result.(sign := if negative then 1 else 0);
    } else {
      result := result.(mantissa := (first + shifted) % WORD);
    }
  }

  /** Adds two normalised values, the first with the larger exponent. */
  method AddAligned(a: Internal, b: Internal) returns (result: Internal)
    requires Normalised(a) && Normalised(b) && a.exponent >= b.exponent
    ensures Packable(result) && !result.isNan && !result.isInf
    ensures SignedExact(result) == SignedExact(a) + SignedExact(b) || Absorbs(result, SignedExact(a) + SignedExact(b))
    ensures result.mantissa == 0 ==> result.sign == 0
  {
    var diff := a.exponent - b.exponent;
    if diff > 64 - FRAC_BITS - 1 {
      FarApart(a, b);
      return a;
    }
    AlignedFits(a.mantissa, b.mantissa, diff);
    var first := ShiftLeft(a.mantissa, diff);
    result := AddMantissas(a, b, first);
    AlignedSum(a, b, first, result);
  }

  /** Adds two unpacked values: the exact sum, or the larger operand when it absorbs the other. */
  method Add(x: Internal, y: Internal) returns (result: Internal)
    requires Packable(x) && (Unpacked(x) || x.isInf || x.isNan)
    requires Packable(y) && (Unpacked(y) || y.isInf || y.isNan)
    ensures Packable(result)
    ensures result.isNan <==> (x.isInf && y.isInf && x.sign != y.sign) || x.isNan || y.isNan
    ensures !result.isNan && (x.isInf || y.isInf) ==> result == if x.isInf then x else y
    ensures Unpacked(x) && Unpacked(y) ==>
              && !result.isNan && !result.isInf
              && var s := SignedExact(x) + SignedExact(y);
                 SignedExact(result) == s || Absorbs(result, s)
    ensures Unpacked(x) && Unpacked(y) && x.mantissa == 0 ==> result == y
    ensures Unpacked(x) && Unpacked(y) && x.mantissa > 0 && result.mantissa == 0 ==> result.sign == 0
  {
    if (x.isInf && y.isInf && x.sign != y.sign) || x.isNan || y.isNan {
      return Internal(0, false, true, 0, 0);
    }
    if x.isInf || y.isInf {
      return if x.isInf then x else y;
    }
    if x.mantissa == 0 || y.mantissa == 0 {
      return if x.mantissa == 0 then y else x;
    }
    var pa := new InternalRef(x);
    var pb := new InternalRef(y);
    pa.ShiftLeftToMantissaPosition();
    pb.ShiftLeftToMantissaPosition();
    var a, b := pa.v, pb.v;
    if b.exponent > a.exponent {
      a, b := b, a;
    }
    result := AddAligned(a, b);
  }

  /** Packing the absorbing operand is rounding the exact sum. */
  lemma AbsorbedRounds(big: Internal, s: int, r: Float)
    requires Packable(big) && Absorbs(big, s) && RoundsTo(big.sign, Exact(big), r)
    ensures s != 0 && SignOf(s) == big.sign && RoundsTo(big.sign, Distance(0, s), r)
  {
    hide Pow2, RoundsTo, Scaled, Distance;
    var t := big.exponent + 2 * UNIT_EXP;
    var x := Distance(0, s);
    var f := Assembled(big);
    NormalShiftNone(big);
    RoundingIsUnique(big.sign, Exact(big), f, r);
    MulMonotone(1, big.mantissa, Pow2(t));
    AbsorbedSign(big.sign, Exact(big), s, Pow2(t));
    AbsorbedBounds(big.mantissa, t, Distance(Exact(big), x), Exact(big), x);
    AssembledFields(big);
    ScaledNormal(f, big.mantissa, t);
    RoundsOnGrid(big.sign, x, t - 1, 2 * big.mantissa, f);
  }

  /** A number this close to a normalised one has its sign, and the distance of the magnitudes is the distance. */
  lemma AbsorbedSign(sign: nat, exact: nat, s: int, p: nat)
    requires sign <= 1 && exact >= p && 4 * Distance(Signed(sign, exact), s) < p
    ensures s != 0 && SignOf(s) == sign && Distance(exact, Distance(0, s)) == Distance(Signed(sign, exact), s)
  {
  }

  lemma AssembledFields(v: Internal)
    requires v.sign <= 1 && HIDDEN <= v.mantissa < 2 * HIDDEN && MIN_EXP <= v.exponent <= TOP_EXP - 2 * UNIT_EXP
    ensures var f := Assembled(v);
      IsFinite(f) && f.exponent > 0 && f.sign == v.sign && v.mantissa == f.mantissa + HIDDEN
      && v.exponent + 2 * UNIT_EXP == f.exponent - 1 + UNIT_EXP
  {
  }

  lemma AbsorbedBounds(m: nat, t: nat, gap: nat, exact: nat, x: nat)
    requires HIDDEN <= m < 2 * HIDDEN && 1 <= t <= TOP_EXP
    requires exact == m * Pow2(t) && gap == Distance(exact, x) && 4 * gap < Pow2(t)
    ensures (2 * m) * Pow2(t - 1) == exact
    ensures 2 * gap < Pow2(t - 1) && x >= HIDDEN * Pow2(t - 1) && x < OverflowThreshold()
  {
    var h, top := Pow2(t - 1), Pow2(TOP_EXP - 1);
    assert Pow2(t) == 2 * h;
    assert h <= top by {
      Pow2Monotone(t - 1, TOP_EXP - 1);
    }
    DoubleTwice(m, h);
    MulMonotone(HIDDEN, m, 2 * h);
    MulMonotone(m, 2 * HIDDEN - 1, 2 * h);
  }

  lemma DoubleTwice(m: nat, h: nat)
    ensures (2 * m) * h == m * (2 * h)
  {
  }

  lemma ZeroValue(f: Float)
    requires IsFinite(f)
    ensures Scaled(f) == 0 <==> IsZero(f)
  {
    if !IsZero(f) {
      MulStrict(0, Magnitude(f), Unit());
      if f.exponent > 0 {
        MulStrict(0, f.mantissa + HIDDEN, Pow2(f.exponent - 1));
      }
    }
  }

  lemma ZeroExact(v: Internal)
    requires v.exponent >= 2 * MIN_EXP && Exact(v) == 0
    ensures v.mantissa == 0
  {
    if v.mantissa > 0 {
      MulStrict(0, v.mantissa, Pow2(v.exponent + 2 * UNIT_EXP));
    }
  }

  /** Adding to a zero returns the other operand, which is right but for +0 and -0. */
  lemma SumWithZero(a: Float, b: Float, r: Float)
    requires IsFinite(a) && IsFinite(b) && IsZero(a)
    requires RoundsTo(b.sign, Exact(FromIeee754(b)), r)
    ensures IsSum(a, b, r) <==> !(a == Zero(0) && b == Zero(1))
  {
    UnpackingIsExact(b);
    ZeroValue(a);
    ZeroValue(b);
  }

  /** Sign of the result: that of the exact sum, or for a zero sum the one Add chose. */
  lemma FiniteSum(a: Float, b: Float, res: Internal, r: Float)
    requires IsFinite(a) && IsFinite(b) && !IsZero(a) && Packable(res)
    requires var s := Value(a) + Value(b); SignedExact(res) == s || Absorbs(res, s)
    requires res.mantissa == 0 ==> res.sign == 0
    requires RoundsTo(res.sign, Exact(res), r)
    ensures IsSum(a, b, r)
  {
    hide Value, SignedExact, Exact, RoundsTo, Absorbs, Distance;
    var s := Value(a) + Value(b);
    if SignedExact(res) != s {
      AbsorbedRounds(res, s, r);
    } else {
      ExactParts(res);
      if s == 0 {
        ZeroExact(res);
        OppositeSigns(a, b);
      }
    }
  }

  lemma ExactParts(v: Internal)
    requires v.exponent >= 2 * MIN_EXP && v.sign <= 1
    ensures Exact(v) == Distance(0, SignedExact(v)) && (SignedExact(v) != 0 ==> v.sign == SignOf(SignedExact(v)))
    ensures SignedExact(v) == 0 ==> Exact(v) == 0
  {
    hide Exact;
  }

  lemma OppositeSigns(a: Float, b: Float)
    requires IsFinite(a) && IsFinite(b) && !IsZero(a) && Value(a) + Value(b) == 0
    ensures a.sign != b.sign
  {
    hide Scaled;
    ZeroValue(a);
  }

  lemma UnpackedValue(f: Float)
    requires IsFinite(f)
    ensures Unpacked(FromIeee754(f)) && SignedExact(FromIeee754(f)) == Value(f)
    ensures FromIeee754(f).mantissa == 0 <==> IsZero(f)
  {
    UnpackingIsExact(f);
  }

  /**
   Addition is IEEE 754 addition on all operands but +0 and -0 in this order,
   where the second operand, and with it the sign of -0, is returned.
   */
  method FpAdd(a: Float, b: Float) returns (r: Float)
    requires WellFormed(a) && WellFormed(b)
    ensures IsSum(a, b, r) <==> !(a == Zero(0) && b == Zero(1))
    ensures a == Zero(0) && b == Zero(1) ==> r == Zero(1)
    ensures IsNaN(r) ==> r == Float(0, 255, 1)
  {
    var pa, pb := FromIeee754(a), FromIeee754(b);
    var res := Add(pa, pb);
    r := ToIeee754(res);
    if IsFinite(a) && IsFinite(b) {
      UnpackedValue(a);
      UnpackedValue(b);
      if IsZero(a) {
        SumWithZero(a, b, r);
      } else {
        FiniteSum(a, b, res, r);
      }
    } else {
      SpecialSum(a, b, res, r);
    }
  }

  lemma SpecialSum(a: Float, b: Float, res: Internal, r: Float)
    requires WellFormed(a) && WellFormed(b) && !(IsFinite(a) && IsFinite(b))
    requires var (x, y) := (FromIeee754(a), FromIeee754(b));
      && (res.isNan <==> (x.isInf && y.isInf && x.sign != y.sign) || x.isNan || y.isNan)
      && (!res.isNan && (x.isInf || y.isInf) ==> res == if x.isInf then x else y)
    requires res.isNan ==> r == NAN
    requires !res.isNan && res.isInf ==> r == Inf(res.sign)
    ensures IsSum(a, b, r)
  {
  }

  /** Packing undoes unpacking on every well-formed float but the NaNs, which collapse into one. */
  method Repack(f: Float) returns (r: Float)
    requires WellFormed(f)
    ensures r == if IsNaN(f) then Float(0, 255, 1) else f
  {
    if IsFinite(f) {
      UnpackedValue(f);
    }
    r := ToIeee754(FromIeee754(f));
    if IsFinite(f) {
      FiniteIsItsOwnRounding(f);
      RoundingIsUnique(f.sign, Scaled(f), f, r);
    }
  }

  lemma FiniteIsItsOwnRounding(f: Float)
    requires IsFinite(f)
    ensures RoundsTo(f.sign, Scaled(f), f)
  {
    UnpackingIsExact(f);
    ScaledAsPower(f);
    Thresholds();
    var v := FromIeee754(f);
    if f.exponent == 0 {
      MulStrict(f.mantissa, HIDDEN, Pow2(UNIT_EXP));
      RoundsOnGrid(f.sign, Scaled(f), UNIT_EXP, f.mantissa, f);
    } else {
      NormalShiftNone(v);
      assert Assembled(v) == f;
    }
  }
}
