/** The bounded cursor over the unwind sections, and the decoders that advance it. */
module EhCursor {
  import opened Errors
  import opened Words
  import opened DwarfEncoding

  /** The bytes in memory, the address of the first one, and the addresses that values can be relative to. */
  datatype Image = Image(mem: Bytes, base: int, textBegin: int, hdrBegin: int, ptrSize: nat)

  predicate GoodImage(image: Image) { IsBytes(image.mem) && 0 <= image.base && image.base + |image.mem| <= U64 }

  datatype Status = EOK | Error(errno: Errno) | Unmodelled

  /** How a decoding is reported. */
  function StatusOf(d: Decoding): Status {
    match d
    case Decoded(_, _) => EOK
    case Failed(e) => Error(e)
    case TooLong => Unmodelled
  }

  const PCREL := 0x10
  const TEXTREL := 0x20
  const DATAREL := 0x30

  /** What the value of an encoding is added to, for the encodings that are handled. */
  predicate KnownScaling(encoding: int) { encoding / 16 < 4 }

  function ScalingBase(image: Image, encoding: int, address: int): int {
    if encoding / 16 == 0 then 0
    else if encoding / 16 == 1 then address
    else if encoding / 16 == 2 then image.textBegin
    else image.hdrBegin
  }

  function Added(d: Decoding, base: int): Decoding {
    if d.Decoded? then Decoded((base + d.value) % U64, d.used) else d
  }

  /** An encoded value whose bytes start at an address. */
  function Encoded(image: Image, encoding: int, address: int, bs: Bytes): (d: Decoding)
    ensures d.Decoded? ==> 0 < d.used <= |bs|
  {
    if KnownScaling(encoding)
    then Added(Format(encoding % 16, bs, image.ptrSize), ScalingBase(image, encoding, address))
    else Failed(ENOSYS)
  }

  // ---------------------------------------------------------------------------
  // LEB128 numbers, a byte at a time
  // ---------------------------------------------------------------------------

  /** The groups read so far leave the bits free that the next one is put into. */
  lemma NextGroup(bs: Bytes, n: nat)
    requires IsBytes(bs) && n < |bs| && Shiftable(bs[n], 7 * n)
    ensures 0 <= LebValue(bs[..n]) < Pow2(7 * n)
    ensures LebValue(bs[..n + 1]) == LebValue(bs[..n]) + ShiftLeft(bs[n] % 128, 7 * n)
  {
    hide LebValue, Pow2;
    LebBound(bs[..n]);
    assert bs[..n + 1] == bs[..n] + [bs[n]];
    LebAppend(bs[..n], bs[n]);
    GroupFits(bs[n] % 128, 7 * n);
  }

  lemma GroupFits(g: nat, n: nat)
    requires g < 128 && Shiftable(g, n)
    ensures ShiftLeft(g, n) == g * Pow2(n)
  {
    Pow2Values();
    Pow2Monotone(n, 28);
    hide Pow2;
    SmallProduct(g, Pow2(n));
  }

  lemma SmallProduct(g: nat, p: nat)
    requires g < 128 && p <= 0x1000_0000
    ensures g * p % U64 == g * p
  {
    ProductMonotone(g, 128, p);
    var x := g * p;
    QuotientUnique(x, U64, 0, x);
  }

  lemma {:induction false} LebScanFrom(bs: Bytes, n: nat)
    requires n <= |bs|
    requires forall k :: 0 <= k < n ==> bs[k] >= 128 && Shiftable(bs[k], 7 * k)
    ensures LebScan(bs, 0) == LebScan(bs, n)
    decreases n
  {
    if n > 0 { LebScanFrom(bs, n - 1); }
  }

  lemma LebScanAt(bs: Bytes, n: nat)
    requires IsBytes(bs) && n <= |bs|
    requires forall k :: 0 <= k < n ==> bs[k] >= 128 && Shiftable(bs[k], 7 * k)
    ensures n == |bs| ==> LebScan(bs, 0) == Failed(ERANGE)
    ensures n < |bs| && !Shiftable(bs[n], 7 * n) ==> LebScan(bs, 0) == TooLong
    ensures n < |bs| && Shiftable(bs[n], 7 * n) && bs[n] < 128 ==>
              LebScan(bs, 0) == Decoded(LebValue(bs[..n + 1]), n + 1)
  {
    LebScanFrom(bs, n);
  }

  // ---------------------------------------------------------------------------
  // Sign extension
  // ---------------------------------------------------------------------------

  /** value |= ~0 << n */
  function SetHighBits(value: nat, n: nat): int {
    value % Pow2(n) + (U64 - Pow2(n))
  }

  lemma SignBit(value: nat, bits: nat)
    requires 0 < bits && value < Pow2(bits)
    ensures Bit(value, bits - 1) == (if value >= Pow2(bits - 1) then 1 else 0)
    ensures SignExtend(value, bits)
            == if Bit(value, bits - 1) == 1 then SetHighBits(value, bits - 1) else value
  {
    var p := Pow2(bits - 1);
    assert Pow2(bits) == 2 * p;
    if value >= p {
      QuotientUnique(value, p, 1, value - p);
    } else {
      QuotientUnique(value, p, 0, value);
    }
  }

  class EhData {
    const image: Image
    var cursor: nat
    var bytesLeft: nat

    ghost predicate Valid()
      reads this
    {
      GoodImage(image) && cursor + bytesLeft <= |image.mem|
    }

    function Address(): int
      reads this
    {
      image.base + cursor
    }

    ghost function Rest(): (bs: Bytes)
      requires Valid()
      reads this
      ensures |bs| == bytesLeft && IsBytes(bs)
    {
      image.mem[cursor..cursor + bytesLeft]
    }

    constructor (image: Image, cursor: nat, bytesLeft: nat)
      requires GoodImage(image) && cursor + bytesLeft <= |image.mem|
      ensures Valid() && this.image == image && this.cursor == cursor && this.bytesLeft == bytesLeft
    {
      this.image := image;
      this.cursor := cursor;
      this.bytesLeft := bytesLeft;
    }

    /** The cursor has gone from where it was over used bytes, none of them beyond the end. */
    twostate predicate Consumed(used: nat)
      requires old(Valid()) && Valid()
      reads this
    {
      cursor == old(cursor) + used && bytesLeft == old(bytesLeft) - used
      && used <= old(bytesLeft) && Rest() == old(Rest())[used..]
    }

    method ConsumeByte() returns (ret: Status, byte: int)
      requires Valid()
      modifies this
      ensures Valid()
      ensures old(bytesLeft) == 0 ==> ret == Error(ERANGE) && Consumed(0)
      ensures old(bytesLeft) > 0 ==> ret == EOK && byte == old(Rest())[0] && Consumed(1)
    {
      byte := 0;
      if bytesLeft < 1 { return Error(ERANGE), 0; }
      byte := image.mem[cursor];
      cursor, bytesLeft := cursor + 1, bytesLeft - 1;
      return EOK, byte;
    }

    /** A number of little-endian bytes, which the caller has made sure are there. */
    method ConsumeRaw(numBytes: nat) returns (value: nat)
      requires Valid() && numBytes <= bytesLeft
      modifies this
      ensures Valid() && Consumed(numBytes)
      ensures value == LittleEndian(old(Rest())[..numBytes]) < Pow2(8 * numBytes)
    {
      ghost var bytes := Rest()[..numBytes];
      LittleEndianBound(bytes);
      var i := numBytes;
      value := 0;
      assert bytes[numBytes..] == [];
      while i > 0
        invariant 0 <= i <= numBytes
        invariant value == LittleEndian(bytes[i..])
      {
        i := i - 1;
        assert bytes[i..][1..] == bytes[i + 1..];
        value := image.mem[cursor + i] + 256 * value;
      }
      assert bytes[0..] == bytes;
      cursor, bytesLeft := cursor + numBytes, bytesLeft - numBytes;
    }

    /** A number of LEB128 bytes. Every outcome but success leaves the cursor within bounds. */
    method ConsumeLeb() returns (ret: Status, value: nat, numBits: nat)
      requires Valid()
      modifies this
      ensures Valid() && cursor + bytesLeft == old(cursor + bytesLeft)
      ensures var d := LebScan(old(Rest()), 0);
              ret == StatusOf(d)
              && (d.Decoded? ==> value == d.value < Pow2(7 * d.used) && numBits == 7 * d.used && Consumed(d.used))
              && (d.Failed? ==> bytesLeft == 0)
    {
      ghost var bs := Rest();
      ghost var n: nat := 0;
      value, numBits := 0, 0;
      assert bs[..0] == [] && LebValue(bs[..0]) == 0;
      hide LebScan, LebValue, ShiftLeft, Pow2, Shiftable;
      while true
        invariant Valid() && n <= |bs| && numBits == 7 * n
        invariant cursor == old(cursor) + n && bytesLeft == old(bytesLeft) - n && Rest() == bs[n..]
        invariant forall k :: 0 <= k < n ==> bs[k] >= 128 && Shiftable(bs[k], 7 * k)
        invariant value == LebValue(bs[..n])
        decreases bytesLeft
      {
        LebScanAt(bs, n);
        var byte;
        ret, byte := ConsumeByte();
        if ret != EOK { return; }
        if !Shiftable(byte, numBits) { return Unmodelled, value, numBits; }
        NextGroup(bs, n);
        value := value + ShiftLeft(byte % 128, numBits);
        numBits := numBits + 7;
        if byte < 128 { break; }
        n := n + 1;
      }
      LebBound(bs[..n + 1]);
    }

    method DecodeFormat(format: int, base: int) returns (ret: Status, out: int)
      requires Valid() && image.ptrSize <= 8 && 0 <= format < 16
      modifies this
      ensures Valid() && cursor + bytesLeft == old(cursor + bytesLeft)
      ensures var d := Format(format, old(Rest()), image.ptrSize);
              ret == StatusOf(d)
              && (d.Decoded? ==> out == (base + d.value) % U64 && Consumed(d.used))
              && (d == Failed(EINVAL) || d == Failed(ENOSYS) ==> Consumed(0))
    {
      out := base;
      var value, numBits := 0, 0;
      ghost var bs := Rest();
      hide LebScan, LebValue, LittleEndian, Pow2, SetHighBits, SignExtend, Bit;
      if format == ULEB128 || format == SLEB128 {
        ret, value, numBits := ConsumeLeb();
        if ret != EOK { return; }
      } else {
        var numBytes := FixedWidth(format, image.ptrSize);
        if numBytes == 0 { return Error(ENOSYS), out; }
        if bytesLeft < numBytes { return Error(EINVAL), out; }
        value := ConsumeRaw(numBytes);
        numBits := numBytes * 8;
      }
      if IsSigned(format) {
        SignBit(value, numBits);
        if Bit(value, numBits - 1) == 1 { value := SetHighBits(value, numBits - 1); }
      }
      return EOK, (base + value) % U64;
    }

    method DecodeValue(encoding: int) returns (ret: Status, out: int)
      requires Valid() && image.ptrSize <= 8 && 0 <= encoding < 256
      modifies this
      ensures Valid() && cursor + bytesLeft == old(cursor + bytesLeft)
      ensures var d := Encoded(image, encoding, old(Address()), old(Rest()));
              ret == StatusOf(d) && (d.Decoded? ==> out == d.value && Consumed(d.used))
    {
      hide Format;
      out := 0;
      var scaling := encoding / 16 * 16;
      if scaling == 0 {
        out := 0;
      } else if scaling == PCREL {
        out := Address();
      } else if scaling == TEXTREL {
        out := image.textBegin;
      } else if scaling == DATAREL {
        out := image.hdrBegin;
      } else {
        return Error(ENOSYS), out;
      }
      ret, out := DecodeFormat(encoding % 16, out);
    }
  }
}
