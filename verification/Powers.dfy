/** Powers of two, shared by the bit-level models. */
module Powers {

  function Pow2(n: nat): (r: nat)
    ensures r > 0
  {
    if n == 0 then 1 else 2 * Pow2(n - 1)
  }

  lemma {:induction false} Pow2Add(a: nat, b: nat)
    ensures Pow2(a + b) == Pow2(a) * Pow2(b)
  {
    if a == 0 {
      assert Pow2(0 + b) == 1 * Pow2(b);
    } else {
      Pow2Add(a - 1, b);
      assert a - 1 + b == a + b - 1;
      assert Pow2(a) * Pow2(b) == 2 * (Pow2(a - 1) * Pow2(b));
    }
  }

  lemma {:induction false} Pow2Monotone(a: nat, b: nat)
    requires a <= b
    ensures Pow2(a) <= Pow2(b)
  {
    if a < b {
      Pow2Monotone(a, b - 1);
    }
  }

  lemma SmallPowers()
    ensures Pow2(0) == 1 && Pow2(1) == 2 && Pow2(2) == 4 && Pow2(7) == 128 && Pow2(8) == 256
  {
  }

  lemma Pow2Values()
    ensures Pow2(23) == 0x80_0000 && Pow2(24) == 0x100_0000 && Pow2(26) == 0x400_0000
    ensures Pow2(40) == 0x100_0000_0000 && Pow2(41) == 0x200_0000_0000
    ensures Pow2(64) == 0x1_0000_0000_0000_0000
  {
    hide Pow2;
    SmallPowers();
    Pow2Add(8, 8);
    Pow2Add(16, 7);
    Pow2Add(16, 8);
    Pow2Add(24, 2);
    Pow2Add(16, 16);
    Pow2Add(32, 8);
    Pow2Add(40, 1);
    Pow2Add(32, 32);
  }

  lemma Pow2Step(n: nat)
    ensures Pow2(n + 1) == 2 * Pow2(n)
  {
  }

  lemma NextMultiple(k: int, d: int)
    ensures (k + 1) * d == k * d + d
  {
  }

  lemma DoubleShift(m: nat, a: nat)
    ensures m * Pow2(a + 1) == 2 * (m * Pow2(a))
  {
  }

  /** Multiplying by a positive factor keeps the order. */
  lemma MulMonotone(a: int, b: int, c: nat)
    requires a <= b
    ensures a * c <= b * c
  {
    assert (b - a) * c >= 0;
  }

  lemma MulStrict(a: int, b: int, c: nat)
    requires a < b && c > 0
    ensures a * c < b * c
  {
    assert b * c == a * c + (b - a) * c;
    MulMonotone(1, b - a, c);
  }

  lemma MulAssociative(a: int, b: int, c: int)
    ensures a * (b * c) == (a * b) * c
  {
  }

  /** m >> k, for d == Pow2(k). */
  function Quotient(m: nat, d: nat): (q: nat)
    requires d > 0
    ensures q * d <= m < q * d + d
  {
    m / d
  }

  /** m & (d - 1), for d a power of two. */
  function Remainder(m: nat, d: nat): (r: nat)
    requires d > 0
    ensures r < d && m == Quotient(m, d) * d + r
  {
    m % d
  }

  /** Quotient and remainder are determined by the division equation. */
  lemma QuotientUnique(x: nat, d: nat, q: nat, r: nat)
    requires d > 0 && r < d && x == q * d + r
    ensures Quotient(x, d) == q && Remainder(x, d) == r
  {
    var q' := Quotient(x, d);
    if q' < q {
      MulMonotone(q' + 1, q, d);
    } else if q < q' {
      MulMonotone(q + 1, q', d);
    }
  }
}
