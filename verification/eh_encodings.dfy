/** Encoded addresses in numbers: what each of the usual encodings is relative to. */
module EhEncodings {
  import opened Errors
  import opened Words
  import opened DwarfEncoding
  import opened EhCursor
  import opened FdeSearch

  /** The four bytes of a number, the lowest first. */
  function FourBytes(v: int): Bytes { [v % 0x100, v / 0x100 % 0x100, v / 0x1_0000 % 0x100, v / 0x100_0000 % 0x100] }

  lemma FourFixed(v: int)
    ensures EncodeFixed(v, 4) == FourBytes(v)
  {
    assert v / 0x100 / 0x100 == v / 0x1_0000 && v / 0x100 / 0x100 / 0x100 == v / 0x100_0000;
    assert EncodeFixed(v / 0x100 / 0x100 / 0x100, 1) == [v / 0x100_0000 % 0x100];
    assert EncodeFixed(v / 0x100 / 0x100, 2) == [v / 0x1_0000 % 0x100, v / 0x100_0000 % 0x100];
    assert EncodeFixed(v / 0x100, 3) == [v / 0x100 % 0x100, v / 0x1_0000 % 0x100, v / 0x100_0000 % 0x100];
  }

  /** An encoding in four signed bytes, and what it is relative to: the place of the bytes themselves, the start
      of the text, or the start of the header. */
  predicate SignedRelative(image: Image, encoding: int, address: int, base: int) {
    || (encoding == 0x0B && base == 0) || (encoding == 0x1B && base == address)
    || (encoding == 0x2B && base == image.textBegin) || (encoding == 0x3B && base == image.hdrBegin)
  }

  /** Four bytes of the distance are read as the address, signed or not. */
  lemma FourBytesRead(image: Image, encoding: int, address: int, base: int, v: int, rest: Bytes)
    requires (image.ptrSize == 4 || image.ptrSize == 8) && 0 <= v < U64
    requires SignedRelative(image, encoding, address, base)
    requires -0x8000_0000 <= v - base < 0x8000_0000
    ensures Encoded(image, encoding, address, FourBytes(v - base) + rest) == Decoded(v, 4)
  {
    hide Encoded, EncodeFixed, SignedRelative, ScalingBase, FixedWidth, Reaches;
    FourFixed(v - base);
    SignedFour(image, encoding, address, base, v);
    EncodedReads(image, encoding, address, v, rest);
  }

  lemma SignedFour(image: Image, encoding: int, address: int, base: int, v: int)
    requires SignedRelative(image, encoding, address, base) && -0x8000_0000 <= v - base < 0x8000_0000
    ensures KnownScaling(encoding) && ScalingBase(image, encoding, address) == base
    ensures FixedWidth(encoding % 16, image.ptrSize) == 4 && Reaches(v - base, encoding % 16, image.ptrSize)
  {
    assert encoding % 16 == 0xB;
    FourReaches(v - base, image.ptrSize);
    hide Reaches;
  }

  lemma FourReaches(d: int, ptrSize: nat)
    requires -0x8000_0000 <= d < 0x8000_0000
    ensures Reaches(d, 0xB, ptrSize)
  {
    Pow2Values();
    assert Pow2(32) == 2 * Pow2(31);
    hide Pow2;
  }

  lemma AbsoluteFourRead(image: Image, address: int, v: int, rest: Bytes)
    requires (image.ptrSize == 4 || image.ptrSize == 8) && 0 <= v < 0x1_0000_0000
    ensures Encoded(image, 0x03, address, FourBytes(v) + rest) == Decoded(v, 4)
  {
    Pow2Values();
    hide Pow2, Encoded, EncodeFixed;
    FourFixed(v);
    EncodedReads(image, 0x03, address, v, rest);
  }

  /** Values relative to a function, aligned ones and indirect ones are refused. */
  lemma OtherScalings(image: Image, encoding: int, address: int, bs: Bytes)
    requires 0x40 <= encoding < 0x100
    ensures Encoded(image, encoding, address, bs) == Failed(ENOSYS)
  {}

  /** The usual search table: pairs of distances from the header, four signed bytes each. */
  ghost predicate HeaderTable(image: Image, start: nat, entries: seq<Entry>) {
    && GoodImage(image) && image.ptrSize == 8 && start + 8 * |entries| <= |image.mem|
    && forall i :: 0 <= i < |entries| ==> HeaderEntry(image, start + 8 * i, entries[i])
  }

  ghost predicate HeaderEntry(image: Image, at: nat, e: Entry) {
    && at + 8 <= |image.mem| && 0 <= e.sym < U64 && 0 <= e.fde < U64
    && -0x8000_0000 <= e.sym - image.hdrBegin < 0x8000_0000
    && -0x8000_0000 <= e.fde - image.hdrBegin < 0x8000_0000
    && image.mem[at..at + 8] == FourBytes(e.sym - image.hdrBegin) + FourBytes(e.fde - image.hdrBegin)
  }

  lemma HeaderEntryHolds(t: FdeTable, image: Image, i: nat, e: Entry)
    requires GoodTable(t, image) && image.ptrSize == 8 && t.encoding == 0x3B && t.entryWidth == 8 && i < Entries(t)
    requires HeaderEntry(image, t.start + 8 * i, e)
    ensures HoldsEntry(t, image, i, e)
  {
    hide EncodeFixed, Reaches;
    FourReaches(e.sym - image.hdrBegin, image.ptrSize);
    FourReaches(e.fde - image.hdrBegin, image.ptrSize);
    FourFixed(e.sym - image.hdrBegin);
    FourFixed(e.fde - image.hdrBegin);
    assert 0x3B % 16 == 0xB;
  }

  /** In such a table the description found is that of the function that covers the address. */
  method FindInHeader(image: Image, start: nat, entries: seq<Entry>, pc: int) returns (found: FoundFde)
    requires HeaderTable(image, start, entries) && Sorted(entries) && entries != []
    ensures exists k: nat :: Covers(entries, k, pc) && found == Fde(entries[k].fde)
  {
    var t := FdeTable(start, 0x3B, 8, |entries|);
    forall i | 0 <= i < |entries| ensures HoldsEntry(t, image, i, entries[i]) {
      HeaderEntryHolds(t, image, i, entries[i]);
    }
    hide HoldsEntry, HeaderEntry, Sorted, Covers;
    found := FindInTable(t, image, entries, pc);
  }
}
