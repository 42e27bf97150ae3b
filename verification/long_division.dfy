/** 64-bit division on 32-bit machines: fast paths, then a bit-serial loop. */
module LongDivision {
  import opened Words

  /** The number of bits up to and including the highest set one: 64 less the leading zeroes. */
  function BitLength(a: nat): (n: nat)
    ensures a < Pow2(n)
    ensures a > 0 ==> n > 0 && Pow2(n - 1) <= a
  {
    if a == 0 then 0 else 1 + BitLength(a / 2)
  }

  lemma {:induction false} BitLengthBound(a: nat, n: nat)
    requires a < Pow2(n)
    ensures BitLength(a) <= n
  {
    if a > 0 { BitLengthBound(a / 2, n - 1); }
  }

  lemma DoubleShift(v: nat)
    requires 2 * v < U64
    ensures ShiftLeft(v, 1) == 2 * v
  {
    assert Pow2(1) == 2;
    hide Pow2;
    QuotientUnique(2 * v, U64, 0, 2 * v);
  }

  /** One step of the loop: t is what the quotient so far accounts for. Shifting the remainder loses
      no bit, because it is no greater than the bits of a consumed so far. */
  lemma DivisionStep(a: nat, bit: nat, t: nat, remainder: nat)
    requires a < U64 && ShiftRight(a, bit + 1) == t + remainder
    ensures ShiftLeft(remainder, 1) == 2 * remainder
    ensures ShiftRight(a, bit) == 2 * t + (2 * remainder + Bit(a, bit))
  {
    hide ShiftRight, ShiftLeft, Bit;
    TakeBit(a, bit);
    assert ShiftRight(a, bit) <= a;
    DoubleShift(remainder);
  }

  /** A product that the solver is not to multiply out. */
  ghost function Times(x: nat, y: nat): nat { x * y }

  lemma TimesDoubled(q: nat, b: nat)
    ensures Times(2 * q, b) == 2 * Times(q, b)
    ensures Times(2 * q + 1, b) == 2 * Times(q, b) + b
  {
    assert (2 * q) * b == 2 * (q * b);
    assert (2 * q + 1) * b == (2 * q) * b + b;
  }

  lemma QuotientBit(q: nat, bit: nat)
    ensures Times(q, Pow2(bit + 1)) == Times(2 * q, Pow2(bit))
    ensures SetBit(Times(2 * q, Pow2(bit)), bit) == Times(2 * q + 1, Pow2(bit))
  {
    assert q * Pow2(bit + 1) == (2 * q) * Pow2(bit) + 0;
    QuotientUnique(2 * q * Pow2(bit), Pow2(bit), 2 * q, 0);
    TimesDoubled(q, Pow2(bit));
  }

  lemma TopBits(a: nat)
    ensures ShiftRight(a, BitLength(a)) == 0
  {
    QuotientUnique(a, Pow2(BitLength(a)), 0, a);
  }

  /** After the bits of a from the given one on: the remainder, and the quotient so far in its place. */
  ghost predicate Divided(a: nat, b: nat, bit: nat, q: nat, quotient: nat, remainder: nat) {
    remainder < b && remainder <= ShiftRight(a, bit)
    && quotient == Times(q, Pow2(bit)) && ShiftRight(a, bit) == Times(q, b) + remainder
  }

  /** One turn of the loop. */
  method DivideBit(a: nat, b: nat, bit: nat, quotientSoFar: nat, remainderSoFar: nat, ghost qSoFar: nat)
    returns (quotient: nat, remainder: nat, ghost q: nat)
    requires a < U64 && Divided(a, b, bit + 1, qSoFar, quotientSoFar, remainderSoFar)
    ensures Divided(a, b, bit, q, quotient, remainder)
  {
    hide ShiftRight, ShiftLeft, SetBit, Bit, Pow2, Times;
    DivisionStep(a, bit, Times(qSoFar, b), remainderSoFar);
    QuotientBit(qSoFar, bit);
    TimesDoubled(qSoFar, b);
    quotient, remainder := quotientSoFar, ShiftLeft(remainderSoFar, 1) + Bit(a, bit);
    q := 2 * qSoFar;
    if remainder >= b {
      remainder := remainder - b;
      quotient := SetBit(quotient, bit);
      q := q + 1;
    }
  }

  /** The remainder never exceeds the bits of a consumed so far, so the shift loses nothing. */
  method Do64BitDivision(a: nat, b: nat) returns (quotient: nat, remainder: nat)
    requires 0 < a < U64 && 0 < b
    ensures a == quotient * b + remainder && remainder < b
  {
    quotient, remainder := 0, 0;
    var bit := BitLength(a);
    ghost var q: nat := 0;
    DivisionStarts(a, b);
    hide Divided;
    while bit > 0
      invariant 0 <= bit <= 64
      invariant Divided(a, b, bit, q, quotient, remainder)
    {
      bit := bit - 1;
      quotient, remainder, q := DivideBit(a, b, bit, quotient, remainder, q);
    }
    DivisionEnds(a, b, q, quotient, remainder);
  }

  lemma DivisionStarts(a: nat, b: nat)
    requires 0 < a < U64 && 0 < b
    ensures 0 <= BitLength(a) <= 64 && Divided(a, b, BitLength(a), 0, 0, 0)
  {
    Pow2Values();
    BitLengthBound(a, 64);
    TopBits(a);
  }

  lemma DivisionEnds(a: nat, b: nat, q: nat, quotient: nat, remainder: nat)
    requires Divided(a, b, 0, q, quotient, remainder)
    ensures a == quotient * b + remainder && remainder < b
  {
    LastStep(a, b, q, quotient);
  }

  lemma LastStep(a: nat, b: nat, q: nat, quotient: nat)
    requires quotient == Times(q, Pow2(0))
    ensures ShiftRight(a, 0) == a && Times(q, b) == quotient * b
  {
    assert Pow2(0) == 1;
  }

  datatype Division = Quotient(quotient: nat, remainder: nat) | Panic

  /** Every path divides. Zero by zero is caught by the test for equal operands, before the check for
      a zero divisor. */
  method UDivModDi4(a: nat, b: nat) returns (r: Division)
    requires a < U64 && b < U64
    ensures r.Panic? <==> b == 0 && a != 0
    ensures r.Quotient? ==> a == r.quotient * b + r.remainder && (b != 0 ==> r.remainder < b)
    ensures b != 0 ==> r == Quotient(a / b, a % b)
    ensures a == b == 0 ==> r == Quotient(1, 0)
  {
    if b > a {
      if b != 0 { QuotientUnique(a, b, 0, a); }
      return Quotient(0, a);
    }
    if b == a {
      if b != 0 { QuotientUnique(a, b, 1, 0); }
      return Quotient(1, 0);
    }
    if b < U32 {
      if b == 0 { return Panic; }
      if b == 1 { return Quotient(a, 0); }
      if a < U32 {
        return Quotient(a / b, a % b);
      }
    }
    var q, m := Do64BitDivision(a, b);
    QuotientUnique(a, b, q, m);
    return Quotient(q, m);
  }

  /** The two entry points for quotient and remainder alone. */
  method UModDi3(a: nat, b: nat) returns (panicked: bool, c: nat)
    requires a < U64 && b < U64
    ensures panicked <==> b == 0 && a != 0
    ensures !panicked ==> if b != 0 then c == a % b else c == 0
  {
    var d := UDivModDi4(a, b);
    if d.Panic? { return true, 0; }
    return false, d.remainder;
  }

  method UDivDi3(a: nat, b: nat) returns (panicked: bool, q: nat)
    requires a < U64 && b < U64
    ensures panicked <==> b == 0 && a != 0
    ensures !panicked ==> if b != 0 then q == a / b else q == 1
  {
    var d := UDivModDi4(a, b);
    if d.Panic? { return true, 0; }
    return false, d.quotient;
  }
}
