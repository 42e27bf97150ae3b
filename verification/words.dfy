/** Powers of two and the 64-bit word operations that the C sources rely on, on natural numbers. */
module Words {

  const U64: nat := 0x1_0000_0000_0000_0000
  const U32: nat := 0x1_0000_0000
  const I64_MAX: int := 0x7fff_ffff_ffff_ffff

  function Pow2(n: nat): (p: nat)
    ensures p > 0
  {
    if n == 0 then 1 else 2 * Pow2(n - 1)
  }

  lemma {:induction false} Pow2Monotone(m: nat, n: nat)
    requires m <= n
    ensures Pow2(m) <= Pow2(n)
    decreases n - m
  {
    if m < n { Pow2Monotone(m, n - 1); }
  }

  lemma Pow2InWord(n: nat)
    requires Pow2(n) < U64
    ensures n < 64
  {
    Pow2Values();
    if n >= 64 { Pow2Monotone(64, n); }
  }

  lemma {:induction false} Pow2Adds(m: nat, n: nat)
    ensures Pow2(m + n) == Pow2(m) * Pow2(n)
  {
    if m > 0 { Pow2Adds(m - 1, n); }
  }

  lemma Pow2Values()
    ensures Pow2(7) == 0x80 && Pow2(8) == 0x100 && Pow2(14) == 0x4000 && Pow2(16) == 0x1_0000
    ensures Pow2(21) == 0x20_0000 && Pow2(28) == 0x1000_0000 && Pow2(32) == U32 && Pow2(64) == U64
  {
    assert Pow2(1) == 2 && Pow2(2) == 4 && Pow2(3) == 8 && Pow2(4) == 16;
    Pow2Adds(4, 3); Pow2Adds(4, 4); Pow2Adds(7, 7); Pow2Adds(8, 8);
    Pow2Adds(14, 7); Pow2Adds(14, 14); Pow2Adds(16, 16); Pow2Adds(32, 32);
  }

  lemma QuotientUnique(a: int, d: nat, q: int, r: int)
    requires a == q * d + r && 0 <= r < d
    ensures a / d == q && a % d == r
  {
    var q', r' := a / d, a % d;
    assert (q - q') * d == r' - r;
    assert q - q' >= 1 ==> (q - q') * d >= d;
    assert q' - q >= 1 ==> (q' - q) * d >= d;
  }

  lemma HalvingQuotient(a: nat, d: nat)
    requires d > 0
    ensures a / (2 * d) == a / d / 2
  {
    var q, r := a / d, a % d;
    var h, b := q / 2, q % 2;
    var odd := if b == 1 then d else 0;
    assert q * d == (2 * h) * d + odd;
    assert (2 * h) * d == h * (2 * d);
    QuotientUnique(a, 2 * d, h, odd + r);
  }

  // ---------------------------------------------------------------------------
  // Shifts and bits
  // ---------------------------------------------------------------------------

  function ShiftRight(a: nat, n: nat): (r: nat)
    ensures r <= a
  {
    QuotientBound(a, Pow2(n));
    a / Pow2(n)
  }

  lemma QuotientBound(a: nat, d: nat)
    requires d > 0
    ensures 0 <= a / d <= a
  {
    MultipleBound(a / d, d);
  }

  lemma {:induction false} ProductMonotone(x: nat, y: nat, m: nat)
    requires x <= y
    ensures x * m <= y * m
    decreases y - x
  {
    if x < y {
      ProductMonotone(x, y - 1, m);
      assert y * m == (y - 1) * m + m;
    }
  }

  lemma MultipleBound(q: int, d: nat)
    requires d > 0
    ensures q >= 0 ==> q * d >= q
    ensures q < 0 ==> q * d <= 0 - d
  {
    if q >= 0 {
      ProductMonotone(0, q, d - 1);
      assert q * d == q * (d - 1) + q;
    } else {
      ProductMonotone(1, 0 - q, d);
      assert q * d == 0 - (0 - q) * d;
    }
  }

  /** The bits above the word fall out. */
  function ShiftLeft(a: nat, n: nat): nat { a * Pow2(n) % U64 }

  function Bit(a: nat, n: nat): (b: nat)
    ensures b <= 1
  {
    ShiftRight(a, n) % 2
  }

  /** a | 1 << n */
  function SetBit(a: nat, n: nat): nat { if Bit(a, n) == 1 then a else a + Pow2(n) }

  /** The bits of a from n on are those from n + 1 on, and bit n. */
  lemma TakeBit(a: nat, n: nat)
    ensures ShiftRight(a, n) == 2 * ShiftRight(a, n + 1) + Bit(a, n)
  {
    HalvingQuotient(a, Pow2(n));
  }
}
