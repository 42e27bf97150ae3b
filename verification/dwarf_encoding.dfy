/** Encoded values of the unwind tables (LEB128: section 7.6 of DWARF 5). */
module DwarfEncoding {
  import opened Errors
  import opened Words

  type Bytes = seq<int>

  predicate IsBytes(bs: Bytes) { forall i :: 0 <= i < |bs| ==> 0 <= bs[i] < 256 }

  // ---------------------------------------------------------------------------
  // What the encodings denote
  // ---------------------------------------------------------------------------

  function LittleEndian(bs: Bytes): int {
    if bs == [] then 0 else bs[0] + 256 * LittleEndian(bs[1..])
  }

  /** The seven-bit groups, lowest first. */
  function LebValue(bs: Bytes): int {
    if bs == [] then 0 else bs[0] % 128 + 128 * LebValue(bs[1..])
  }

  /** All but the last byte announce another one. */
  predicate IsLeb(bs: Bytes) {
    bs != [] && IsBytes(bs) && bs[|bs| - 1] < 128 && forall i :: 0 <= i < |bs| - 1 ==> bs[i] >= 128
  }

  /** The two's complement reading of the low bits. */
  function SignedValue(v: int, bits: nat): int
    requires bits > 0
  {
    if v >= Pow2(bits - 1) then v - Pow2(bits) else v
  }

  /** value |= ~0 << (bits - 1), if that bit is set */
  function SignExtend(v: int, bits: nat): int
    requires bits > 0
  {
    if v >= Pow2(bits - 1) then v + U64 - Pow2(bits) else v
  }

  lemma SignCases(v: int, bits: nat)
    requires bits > 0
    ensures v < Pow2(bits - 1) ==> SignedValue(v, bits) == SignExtend(v, bits) == v
    ensures v >= Pow2(bits - 1) ==>
              SignedValue(v, bits) == v - Pow2(bits) && SignExtend(v, bits) == SignedValue(v, bits) + U64
  {}

  lemma SignExtendMeaning(v: int, bits: nat)
    requires 0 < bits <= 64 && 0 <= v < Pow2(bits)
    ensures 0 <= SignExtend(v, bits) < U64
    ensures SignExtend(v, bits) == SignedValue(v, bits) % U64
  {
    Pow2Values();
    Pow2Monotone(bits, 64);
    assert Pow2(bits) == 2 * Pow2(bits - 1);
    hide Pow2;
    hide SignedValue, SignExtend;
    SignCases(v, bits);
    var s := SignedValue(v, bits);
    QuotientUnique(s, U64, if s < 0 then -1 else 0, if s < 0 then s + U64 else s);
  }

  lemma {:induction false} LebBound(bs: Bytes)
    requires IsBytes(bs)
    ensures 0 <= LebValue(bs) < Pow2(7 * |bs|)
  {
    if bs == [] {
    } else {
      LebBound(bs[1..]);
      Pow2Adds(7, 7 * |bs[1..]|);
      Pow2Values();
      assert 7 * |bs| == 7 + 7 * |bs[1..]|;
    }
  }

  lemma {:induction false} LittleEndianBound(bs: Bytes)
    requires IsBytes(bs)
    ensures 0 <= LittleEndian(bs) < Pow2(8 * |bs|)
  {
    if bs == [] {
    } else {
      LittleEndianBound(bs[1..]);
      Pow2Adds(8, 8 * |bs[1..]|);
      Pow2Values();
      assert 8 * |bs| == 8 + 8 * |bs[1..]|;
    }
  }

  lemma {:induction false} LebAppend(bs: Bytes, b: int)
    ensures LebValue(bs + [b]) == LebValue(bs) + b % 128 * Pow2(7 * |bs|)
  {
    if bs == [] {
      assert bs + [b] == [b];
    } else {
      assert (bs + [b])[1..] == bs[1..] + [b];
      LebAppend(bs[1..], b);
      Pow2Adds(7, 7 * |bs[1..]|);
      Pow2Values();
      var p := Pow2(7 * |bs[1..]|);
      assert Pow2(7 * |bs|) == 128 * p by { assert 7 * |bs| == 7 + 7 * |bs[1..]|; }
      assert 128 * (b % 128 * p) == b % 128 * (128 * p);
    }
  }

  /** The lowest byte comes first. */
  lemma FourLittle(a: int, b: int, c: int, d: int)
    ensures LittleEndian([a]) == a && LittleEndian([a, b]) == a + 0x100 * b
    ensures LittleEndian([a, b, c, d]) == a + 0x100 * b + 0x1_0000 * c + 0x100_0000 * d
  {
    LittleStep(d, []); LittleStep(c, [d]); LittleStep(b, [c, d]); LittleStep(a, [b, c, d]);
    LittleStep(b, []); LittleStep(a, [b]); LittleStep(a, []);
    hide LittleEndian;
    assert [d] + [] == [d] && [c] + [d] == [c, d] && [b] + [c, d] == [b, c, d] && [a] + [b, c, d] == [a, b, c, d];
    assert [b] + [] == [b] && [a] + [b] == [a, b] && [a] + [] == [a];
  }

  lemma LittleStep(a: int, rest: Bytes)
    ensures LittleEndian([a] + rest) == a + 0x100 * LittleEndian(rest) && LittleEndian([]) == 0
  {
    assert ([a] + rest)[1..] == rest;
  }

  // ---------------------------------------------------------------------------
  // Formats
  // ---------------------------------------------------------------------------

  const ABSPTR := 0x0
  const ULEB128 := 0x1
  const UDATA2 := 0x2
  const UDATA4 := 0x3
  const UDATA8 := 0x4
  const SLEB128 := 0x9
  const SDATA2 := 0xA
  const SDATA4 := 0xB
  const SDATA8 := 0xC

  predicate IsSigned(format: int) { format / 8 % 2 == 1 }

  /** How many bytes a fixed-width format takes, none for the others. */
  function FixedWidth(format: int, ptrSize: nat): nat {
    if format == ABSPTR then ptrSize
    else if format == UDATA8 || format == SDATA8 then 8
    else if format == UDATA4 || format == SDATA4 then 4
    else if format == UDATA2 || format == SDATA2 then 2
    else 0
  }

  predicate IsLebFormat(format: int) { format == ULEB128 || format == SLEB128 }

  /** A value and how many bytes it took. TooLong stands for LEB128 numbers one of whose groups is shifted out
      of an int, which C leaves undefined. */
  datatype Decoding = Decoded(value: int, used: nat) | Failed(errno: Errno) | TooLong

  /** Whether the seven bits of a byte can be shifted to the left within a 32-bit int. */
  predicate Shiftable(byte: int, bits: nat) { bits < 28 || (bits == 28 && byte % 128 < 8) }

  /** The number of bytes of the LEB128 number at the start, of which n have been read. */
  function LebScan(bs: Bytes, n: nat): (d: Decoding)
    requires n <= |bs|
    ensures d.Decoded? ==> n < d.used <= |bs| && d.used <= 5
    ensures d.Failed? ==> d.errno == ERANGE
    decreases |bs| - n
  {
    if n == |bs| then Failed(ERANGE)
    else if !Shiftable(bs[n], 7 * n) then TooLong
    else if bs[n] >= 128 then LebScan(bs, n + 1)
    else Decoded(LebValue(bs[..n + 1]), n + 1)
  }

  /** The plain value, before sign extension. */
  function RawFormat(format: int, bs: Bytes, ptrSize: nat): (d: Decoding)
    ensures d.Decoded? ==> 0 < d.used <= |bs|
  {
    if IsLebFormat(format) then LebScan(bs, 0)
    else
      var width := FixedWidth(format, ptrSize);
      if width == 0 then Failed(ENOSYS)
      else if |bs| < width then Failed(EINVAL)
      else Decoded(LittleEndian(bs[..width]), width)
  }

  function BitsOf(format: int, used: nat): nat { if IsLebFormat(format) then 7 * used else 8 * used }

  function Format(format: int, bs: Bytes, ptrSize: nat): (d: Decoding)
    ensures d.Decoded? ==> 0 < d.used <= |bs|
  {
    var raw := RawFormat(format, bs, ptrSize);
    if raw.Decoded? && IsSigned(format) then raw.(value := SignExtend(raw.value, BitsOf(format, raw.used))) else raw
  }

  // ---------------------------------------------------------------------------
  // Decoding inverts encoding
  // ---------------------------------------------------------------------------

  function EncodeFixed(v: int, width: nat): (bs: Bytes)
    ensures |bs| == width
    decreases width
  {
    if width == 0 then [] else [v % 256] + EncodeFixed(v / 256, width - 1)
  }

  function EncodeUleb(v: nat): (bs: Bytes)
    ensures |bs| > 0
  {
    if v < 128 then [v] else [128 + v % 128] + EncodeUleb(v / 128)
  }

  function EncodeSleb(v: int): (bs: Bytes)
    ensures |bs| > 0
    decreases if v < 0 then -v else v
  {
    if -64 <= v < 64 then [v % 128] else [128 + v % 128] + EncodeSleb(v / 128)
  }

  lemma {:induction false} EncodeFixedValue(v: int, width: nat)
    ensures IsBytes(EncodeFixed(v, width))
    ensures LittleEndian(EncodeFixed(v, width)) == v % Pow2(8 * width)
    decreases width
  {
    if width > 0 {
      var rest := EncodeFixed(v / 256, width - 1);
      assert EncodeFixed(v, width) == [v % 256] + rest && ([v % 256] + rest)[1..] == rest;
      EncodeFixedValue(v / 256, width - 1);
      Pow2Adds(8, 8 * (width - 1));
      Pow2Values();
      assert 8 * width == 8 + 8 * (width - 1);
      SplitRemainder(v, Pow2(8 * (width - 1)));
      hide EncodeFixed, Pow2;
    }
  }

  lemma SplitRemainder(v: int, p: nat)
    requires p > 0
    ensures v % (256 * p) == v % 256 + 256 * (v / 256 % p)
  {
    var q, r := v / 256, v % 256;
    SplitQuotient(q, r, p, q / p, q % p);
  }

  lemma SplitQuotient(q: int, r: int, p: nat, h: int, l: int)
    requires 0 <= r < 256 && 0 <= l < p && q == h * p + l
    ensures (256 * q + r) % (256 * p) == r + 256 * l
  {
    assert h * (256 * p) == 256 * (h * p);
    QuotientUnique(256 * q + r, 256 * p, h, 256 * l + r);
  }

  lemma {:induction false} EncodeUlebValue(v: nat)
    ensures IsLeb(EncodeUleb(v)) && LebValue(EncodeUleb(v)) == v
    ensures forall k: nat :: v < Pow2(7 * k) && k > 0 ==> |EncodeUleb(v)| <= k
  {
    if v >= 128 {
      EncodeUlebValue(v / 128);
      LebStep(128 + v % 128, EncodeUleb(v / 128));
      forall k: nat | v < Pow2(7 * k) && k > 0 ensures |EncodeUleb(v)| <= k { SevenFewer(v, k); }
    } else {
      assert [v][1..] == [];
    }
  }

  lemma SevenFewer(v: nat, k: nat)
    requires 128 <= v < Pow2(7 * k)
    ensures k > 1 && v / 128 < Pow2(7 * (k - 1))
  {
    Pow2Values();
    if k >= 1 {
      Pow2Adds(7, 7 * (k - 1));
      assert 7 * k == 7 + 7 * (k - 1);
    }
  }

  /** All groups of a number below 2^31 can be shifted into place. */
  lemma GroupsShiftable(bs: Bytes)
    requires IsLeb(bs) && |bs| <= 5 && (|bs| == 5 ==> LebValue(bs) < Pow2(31))
    ensures forall k :: 0 <= k < |bs| ==> Shiftable(bs[k], 7 * k)
  {
    hide LebValue, Pow2;
    if |bs| == 5 {
      assert bs == bs[..4] + [bs[4]];
      LebAppend(bs[..4], bs[4]);
      LebBound(bs[..4]);
      EightFold();
      TopGroup(bs[4], Pow2(28));
    }
  }

  lemma EightFold()
    ensures Pow2(31) == 8 * Pow2(28) > 0
  {
    Pow2Values();
    Pow2Adds(3, 28);
    assert 3 + 28 == 31 && Pow2(3) == 8;
  }

  lemma TopGroup(g: nat, p: nat)
    requires p > 0 && g * p < 8 * p
    ensures g < 8
  {
    if g >= 8 { ProductMonotone(8, g, p); }
  }

  /** Such a number is scanned whole, whatever follows. */
  lemma {:induction false} LebScanExact(bs: Bytes, rest: Bytes, n: nat)
    requires IsLeb(bs) && n < |bs| && forall k :: 0 <= k < |bs| ==> Shiftable(bs[k], 7 * k)
    ensures LebScan(bs + rest, n) == Decoded(LebValue(bs), |bs|)
    decreases |bs| - n
  {
    var s := bs + rest;
    assert s[n] == bs[n];
    if n + 1 < |bs| {
      LebScanExact(bs, rest, n + 1);
    } else {
      assert s[..n + 1] == bs;
    }
  }

  /** Unsigned numbers below 2^31 are read back, with nothing of what follows consumed. */
  lemma UlebRoundTrip(v: nat, rest: Bytes, ptrSize: nat)
    requires v < Pow2(31)
    ensures Format(ULEB128, EncodeUleb(v) + rest, ptrSize) == Decoded(v, |EncodeUleb(v)|)
  {
    hide LebScan, LebValue, EncodeUleb, Pow2, Shiftable;
    EncodeUlebValue(v);
    Pow2Monotone(31, 35);
    assert 35 == 7 * 5;
    GroupsShiftable(EncodeUleb(v));
    LebScanExact(EncodeUleb(v), rest, 0);
  }

  lemma SignedStep(r: int, rest: int, bits: nat)
    requires 0 <= r < 128 && bits > 0
    ensures SignedValue(r + 128 * rest, bits + 7) == r + 128 * SignedValue(rest, bits)
  {
    Pow2Values();
    Pow2Adds(7, bits - 1);
    Pow2Adds(7, bits);
    assert bits + 7 - 1 == 7 + (bits - 1) && bits + 7 == 7 + bits;
    hide Pow2;
  }

  lemma SmallSleb(v: int)
    requires -64 <= v < 64
    ensures IsLeb([v % 128]) && SignedValue(LebValue([v % 128]), 7) == v
  {
    Pow2Values();
    assert Pow2(6) == 64;
    hide Pow2;
    var bs := [v % 128];
    assert bs[1..] == [];
  }

  lemma LebStep(b: int, rest: Bytes)
    requires 128 <= b < 256 && IsLeb(rest)
    ensures IsLeb([b] + rest) && LebValue([b] + rest) == b % 128 + 128 * LebValue(rest)
  {
    assert ([b] + rest)[1..] == rest;
  }

  lemma {:induction false} EncodeSlebValue(v: int)
    ensures IsLeb(EncodeSleb(v)) && SignedValue(LebValue(EncodeSleb(v)), 7 * |EncodeSleb(v)|) == v
    decreases if v < 0 then -v else v
  {
    hide LebValue, SignedValue, IsLeb, Pow2;
    var bs := EncodeSleb(v);
    if -64 <= v < 64 {
      SmallSleb(v);
    } else {
      EncodeSlebValue(v / 128);
      var rest := EncodeSleb(v / 128);
      LebStep(128 + v % 128, rest);
      assert 7 * |bs| == 7 * |rest| + 7;
      SignedStep(v % 128, LebValue(rest), 7 * |rest|);
    }
  }

  lemma {:induction false} EncodeSlebLength(v: int, k: nat)
    requires k > 0 && 0 - Pow2(7 * k - 1) <= v < Pow2(7 * k - 1)
    ensures |EncodeSleb(v)| <= k
    decreases k
  {
    if !(-64 <= v < 64) {
      Pow2Values();
      assert Pow2(6) == 64;
      assert k > 1;
      Pow2Adds(7, 7 * (k - 1) - 1);
      assert 7 * k - 1 == 7 + (7 * (k - 1) - 1);
      EncodeSlebLength(v / 128, k - 1);
    }
  }

  lemma SlebReach(v: int)
    requires 0 - Pow2(27) <= v < Pow2(31)
    ensures var bs := EncodeSleb(v); |bs| <= 5 && (|bs| == 5 ==> LebValue(bs) < Pow2(31))
  {
    hide LebValue, SignExtend, EncodeSleb, Pow2;
    var bs := EncodeSleb(v);
    Pow2Monotone(27, 34);
    Pow2Monotone(31, 34);
    assert 7 * 5 - 1 == 34 && 7 * 4 - 1 == 27;
    EncodeSlebLength(v, 5);
    if v < Pow2(27) {
      EncodeSlebLength(v, 4);
    } else {
      EncodeSlebValue(v);
      LebBound(bs);
    }
  }

  /** Signed numbers from -2^27 up to below 2^31 are read back, in two's complement. */
  lemma SlebRoundTrip(v: int, rest: Bytes, ptrSize: nat)
    requires 0 - Pow2(27) <= v < Pow2(31)
    ensures Format(SLEB128, EncodeSleb(v) + rest, ptrSize) == Decoded(v % U64, |EncodeSleb(v)|)
  {
    hide LebScan, LebValue, SignExtend, SignedValue, EncodeSleb, Pow2, Shiftable;
    var bs := EncodeSleb(v);
    EncodeSlebValue(v);
    SlebReach(v);
    GroupsShiftable(bs);
    LebScanExact(bs, rest, 0);
    LebBound(bs);
    SignExtendMeaning(LebValue(bs), 7 * |bs|);
  }

  lemma FixedDecodes(format: int, bs: Bytes, rest: Bytes, ptrSize: nat)
    requires |bs| == FixedWidth(format, ptrSize) > 0
    ensures var raw := LittleEndian(bs);
            Format(format, bs + rest, ptrSize)
            == Decoded(if IsSigned(format) then SignExtend(raw, 8 * |bs|) else raw, |bs|)
  {
    hide LittleEndian, SignExtend, IsSigned;
    assert (bs + rest)[..|bs|] == bs;
    assert !IsLebFormat(format);
  }

  lemma FixedWidths(format: int, ptrSize: nat)
    requires (ptrSize == 4 || ptrSize == 8) && FixedWidth(format, ptrSize) > 0
    ensures var bits := 8 * FixedWidth(format, ptrSize); bits == 16 || bits == 32 || bits == 64
  {}

  /** Fixed-width numbers are read back: unsigned ones as they are, signed ones in two's complement. */
  lemma FixedRoundTrip(v: int, format: int, rest: Bytes, ptrSize: nat)
    requires (ptrSize == 4 || ptrSize == 8) && FixedWidth(format, ptrSize) > 0
    requires var bits := 8 * FixedWidth(format, ptrSize);
             if IsSigned(format) then 0 - Pow2(bits - 1) <= v < Pow2(bits - 1) else 0 <= v < Pow2(bits)
    ensures var width := FixedWidth(format, ptrSize);
            Format(format, EncodeFixed(v, width) + rest, ptrSize) == Decoded(v % U64, width)
  {
    var width := FixedWidth(format, ptrSize);
    FixedWidths(format, ptrSize);
    hide LittleEndian, EncodeFixed, Pow2, IsSigned, FixedWidth, Format, SignExtend, IsBytes;
    EncodeFixedValue(v, width);
    FixedDecodes(format, EncodeFixed(v, width), rest, ptrSize);
    FixedMeaning(v, 8 * width, IsSigned(format));
  }

  lemma FixedMeaning(v: int, bits: nat, signed: bool)
    requires bits == 16 || bits == 32 || bits == 64
    requires if signed then 0 - Pow2(bits - 1) <= v < Pow2(bits - 1) else 0 <= v < Pow2(bits)
    ensures signed ==> SignExtend(v % Pow2(bits), bits) == v % U64
    ensures !signed ==> v % Pow2(bits) == v % U64
  {
    Pow2Values();
    Pow2Monotone(bits, 64);
    assert Pow2(bits) == 2 * Pow2(bits - 1);
    hide Pow2;
    var p := Pow2(bits);
    QuotientUnique(v, p, if v < 0 then -1 else 0, if v < 0 then v + p else v);
    QuotientUnique(v, U64, if v < 0 then -1 else 0, if v < 0 then v + U64 else v);
  }

  // ---------------------------------------------------------------------------
  // The formats in numbers
  // ---------------------------------------------------------------------------

  /** A number of that many bits as a 64-bit word, its highest bit being the sign. */
  lemma SignedFormats(v: int)
    ensures SignExtend(v, 16) == if v >= 0x8000 then v + 0xFFFF_FFFF_FFFF_0000 else v
    ensures SignExtend(v, 32) == if v >= 0x8000_0000 then v + 0xFFFF_FFFF_0000_0000 else v
    ensures SignExtend(v, 64) == v
  {
    Pow2Values();
    assert Pow2(16) == 2 * Pow2(15) && Pow2(32) == 2 * Pow2(31);
    hide Pow2;
  }

  /** Two bytes and four. */
  lemma ShortFormats(a: int, b: int, c: int, d: int, rest: Bytes, ptrSize: nat)
    ensures var v := a + 0x100 * b;
            && Format(0x2, [a, b] + rest, ptrSize) == Decoded(v, 2)
            && Format(0xA, [a, b] + rest, ptrSize)
               == Decoded(if v >= 0x8000 then v + 0xFFFF_FFFF_FFFF_0000 else v, 2)
    ensures var v := a + 0x100 * b + 0x1_0000 * c + 0x100_0000 * d;
            && Format(0x3, [a, b, c, d] + rest, ptrSize) == Decoded(v, 4)
            && Format(0xB, [a, b, c, d] + rest, ptrSize)
               == Decoded(if v >= 0x8000_0000 then v + 0xFFFF_FFFF_0000_0000 else v, 4)
  {
    hide LittleEndian, SignExtend, LebScan;
    FourLittle(a, b, c, d);
    SignedFormats(a + 0x100 * b);
    SignedFormats(a + 0x100 * b + 0x1_0000 * c + 0x100_0000 * d);
    assert ([a, b] + rest)[..2] == [a, b] && ([a, b, c, d] + rest)[..4] == [a, b, c, d];
  }

  /** Eight bytes, the sign of which needs no extension. */
  lemma LongFormats(bs: Bytes, rest: Bytes, ptrSize: nat)
    requires |bs| == 8
    ensures var v := LittleEndian(bs);
            Format(0x4, bs + rest, ptrSize) == Format(0xC, bs + rest, ptrSize) == Decoded(v, 8)
  {
    hide LittleEndian, SignExtend, LebScan;
    SignedFormats(LittleEndian(bs));
    assert (bs + rest)[..8] == bs;
  }

  /** Addresses take as many bytes as a pointer. */
  lemma AddressFormat(bs: Bytes, rest: Bytes, ptrSize: nat)
    requires |bs| == ptrSize > 0
    ensures Format(0x0, bs + rest, ptrSize) == Decoded(LittleEndian(bs), ptrSize)
  {
    hide LittleEndian, SignExtend, LebScan;
    assert (bs + rest)[..ptrSize] == bs;
  }

  /** Formats that are not handled, and numbers that are cut off. */
  lemma BadFormats(format: int, bs: Bytes, ptrSize: nat)
    requires 0 <= format < 16
    ensures 5 <= format <= 8 || format >= 0xD ==> Format(format, bs, ptrSize) == Failed(ENOSYS)
    ensures (format == 2 || format == 0xA) && |bs| < 2 ==> Format(format, bs, ptrSize) == Failed(EINVAL)
    ensures (format == 3 || format == 0xB) && |bs| < 4 ==> Format(format, bs, ptrSize) == Failed(EINVAL)
    ensures (format == 4 || format == 0xC) && |bs| < 8 ==> Format(format, bs, ptrSize) == Failed(EINVAL)
    ensures (format == 1 || format == 9) && bs == [] ==> Format(format, bs, ptrSize) == Failed(ERANGE)
  {}

  /** The examples of section 7.6 of DWARF 5. */
  lemma UlebExamples(rest: Bytes, ptrSize: nat)
    ensures Format(0x1, [128, 1] + rest, ptrSize) == Decoded(128, 2)
    ensures Format(0x1, [57 + 128, 100] + rest, ptrSize) == Decoded(12857, 2)
  {
    TwoGroups(128, 1, rest);
    TwoGroups(57 + 128, 100, rest);
    hide LebScan;
  }

  lemma SlebExamples(rest: Bytes, ptrSize: nat)
    ensures Format(0x9, [127 + 128, 0] + rest, ptrSize) == Decoded(127, 2)
    ensures Format(0x9, [1 + 128, 0x7F] + rest, ptrSize) == Decoded(0xFFFF_FFFF_FFFF_FF81, 2)
  {
    Pow2Values();
    assert Pow2(14) == 2 * Pow2(13);
    hide Pow2, LebScan;
    TwoGroups(127 + 128, 0, rest);
    TwoGroups(1 + 128, 0x7F, rest);
  }

  lemma TwoGroups(a: int, b: int, rest: Bytes)
    requires 128 <= a < 256 && 0 <= b < 128
    ensures LebScan([a, b] + rest, 0) == Decoded(a % 128 + 128 * b, 2)
  {
    var bs := [a, b] + rest;
    assert bs[0] == a && bs[1] == b && bs[..2] == [a, b];
    assert [a, b][1..] == [b] && [b][1..] == [];
    assert LebValue([b]) == b;
  }
}
