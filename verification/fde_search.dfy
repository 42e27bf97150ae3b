/** The search table of function descriptions: pairs of a function's address and the address of its description. */
module FdeSearch {
  import opened Errors
  import opened Words
  import opened DwarfEncoding
  import opened EhCursor

  /** The table starts at an index of the image; each entry is two encoded values of half the width. */
  datatype FdeTable = FdeTable(start: nat, encoding: int, entryWidth: nat, count: nat)

  /** How many entries are looked at: the first one is, even if the count is zero. */
  function Entries(t: FdeTable): (n: nat)
    ensures n > 0 && t.count <= n
  {
    if t.count == 0 then 1 else t.count
  }

  /** The table lies within the image. */
  predicate GoodTable(t: FdeTable, image: Image) {
    GoodImage(image) && image.ptrSize <= 8 && 0 <= t.encoding < 256
    && t.start + Entries(t) * t.entryWidth <= |image.mem|
  }

  lemma EntryFits(t: FdeTable, image: Image, i: nat)
    requires GoodTable(t, image) && i < Entries(t)
    ensures t.start + i * t.entryWidth + t.entryWidth <= |image.mem|
  {
    ProductMonotone(i + 1, Entries(t), t.entryWidth);
    assert (i + 1) * t.entryWidth == i * t.entryWidth + t.entryWidth;
  }

  /** A function's address. */
  ghost function SymAt(t: FdeTable, image: Image, i: nat): Decoding
    requires GoodTable(t, image) && i < Entries(t)
  {
    EntryFits(t, image, i);
    var at := t.start + i * t.entryWidth;
    Encoded(image, t.encoding, image.base + at, image.mem[at..at + t.entryWidth])
  }

  /** The address of its description. */
  ghost function FdeAt(t: FdeTable, image: Image, i: nat): Decoding
    requires GoodTable(t, image) && i < Entries(t)
  {
    EntryFits(t, image, i);
    var at := t.start + i * t.entryWidth + t.entryWidth / 2;
    Encoded(image, t.encoding, image.base + at, image.mem[at..at + t.entryWidth / 2])
  }

  ghost predicate Readable(t: FdeTable, image: Image)
    requires GoodTable(t, image)
  {
    forall i :: 0 <= i < t.count ==> SymAt(t, image, i).Decoded?
  }

  ghost predicate Ascending(t: FdeTable, image: Image)
    requires GoodTable(t, image) && Readable(t, image)
  {
    forall i, j :: 0 <= i <= j < t.count ==> SymAt(t, image, i).value <= SymAt(t, image, j).value
  }

  /** The last function at or below an address, looked for one by one from entry i down; the first entry
      if there is none. */
  ghost function FunctionAt(t: FdeTable, image: Image, pc: int, i: nat): (k: nat)
    requires GoodTable(t, image) && Readable(t, image) && i < Entries(t)
    ensures k <= i
    ensures k > 0 ==> SymAt(t, image, k).value <= pc
    ensures forall j :: k < j <= i ==> SymAt(t, image, j).value > pc
  {
    if i == 0 || SymAt(t, image, i).value <= pc then i else FunctionAt(t, image, pc, i - 1)
  }

  lemma {:induction false} FunctionAtExact(t: FdeTable, image: Image, pc: int, i: nat, k: nat)
    requires GoodTable(t, image) && Readable(t, image) && k <= i < Entries(t)
    requires k == 0 || SymAt(t, image, k).value <= pc
    requires forall j :: k < j <= i ==> SymAt(t, image, j).value > pc
    ensures FunctionAt(t, image, pc, i) == k
  {
    if k < i { FunctionAtExact(t, image, pc, i - 1, k); }
  }

  datatype FoundFde = Fde(address: int) | FdeError(errno: Errno) | FdeUnmodelled

  function FoundOf(d: Decoding): FoundFde {
    match d
    case Decoded(v, _) => Fde(v)
    case Failed(e) => FdeError(e)
    case TooLong => FdeUnmodelled
  }

  /** One value of the table, by a cursor that is given just its bytes. */
  method DecodeAt(image: Image, encoding: int, at: nat, width: nat) returns (ret: Status, value: int)
    requires GoodImage(image) && image.ptrSize <= 8 && 0 <= encoding < 256 && at + width <= |image.mem|
    ensures var d := Encoded(image, encoding, image.base + at, image.mem[at..at + width]);
            ret == StatusOf(d) && (d.Decoded? ==> value == d.value)
  {
    hide Encoded;
    var data := new EhData(image, at, width);
    ret, value := data.DecodeValue(encoding);
  }

  function FailureOf(ret: Status): FoundFde {
    match ret
    case EOK => FdeUnmodelled
    case Error(e) => FdeError(e)
    case Unmodelled => FdeUnmodelled
  }

  method ReadSym(t: FdeTable, image: Image, i: nat) returns (ret: Status, value: int)
    requires GoodTable(t, image) && i < Entries(t)
    ensures var d := SymAt(t, image, i); ret == StatusOf(d) && (d.Decoded? ==> value == d.value)
  {
    hide Encoded;
    EntryFits(t, image, i);
    ret, value := DecodeAt(image, t.encoding, t.start + i * t.entryWidth, t.entryWidth);
  }

  method ReadFde(t: FdeTable, image: Image, i: nat) returns (ret: Status, value: int)
    requires GoodTable(t, image) && i < Entries(t)
    ensures var d := FdeAt(t, image, i); ret == StatusOf(d) && (d.Decoded? ==> value == d.value)
  {
    hide Encoded;
    EntryFits(t, image, i);
    ret, value := DecodeAt(image, t.encoding, t.start + i * t.entryWidth + t.entryWidth / 2, t.entryWidth / 2);
  }

  ghost predicate Fails(t: FdeTable, image: Image, i: nat, errno: Errno)
    requires GoodTable(t, image)
  {
    i < Entries(t) && (SymAt(t, image, i) == Failed(errno) || FdeAt(t, image, i) == Failed(errno))
  }

  lemma SearchEnds(t: FdeTable, image: Image, pc: int, k: nat)
    requires GoodTable(t, image) && Readable(t, image) && Ascending(t, image) && k < Entries(t)
    requires k == 0 || SymAt(t, image, k).value <= pc
    requires k + 1 == Entries(t) || SymAt(t, image, k + 1).value > pc
    ensures FunctionAt(t, image, pc, Entries(t) - 1) == k
  {
    hide SymAt, GoodTable;
    assert forall j :: k < j < Entries(t) ==> SymAt(t, image, j).value >= SymAt(t, image, k + 1).value;
    FunctionAtExact(t, image, pc, Entries(t) - 1, k);
  }

  /** Binary search gives what the search one by one gives. The address in the first entry is never looked at. */
  method FindFde(t: FdeTable, image: Image, pc: int) returns (found: FoundFde)
    requires GoodTable(t, image)
    ensures Readable(t, image) && Ascending(t, image) ==>
              found == FoundOf(FdeAt(t, image, FunctionAt(t, image, pc, Entries(t) - 1)))
    ensures found.FdeError? ==> exists i: nat :: Fails(t, image, i, found.errno)
  {
    var begin, end := 0, t.count;
    hide SymAt, FdeAt, Ascending, FunctionAt;
    while end - begin > 1
      invariant 0 <= begin < Entries(t) && end <= t.count && (begin < end || (begin == end == 0 && t.count == 0))
      invariant begin > 0 ==> SymAt(t, image, begin).Decoded? && SymAt(t, image, begin).value <= pc
      invariant end < t.count ==> SymAt(t, image, end).Decoded? && SymAt(t, image, end).value > pc
    {
      var i := begin + (end - begin) / 2;
      var ret, symAddr := ReadSym(t, image, i);
      if ret != EOK {
        assert ret.Error? ==> Fails(t, image, i, ret.errno);
        return FailureOf(ret);
      }
      if symAddr <= pc { begin := i; } else { end := i; }
    }
    var ret, fdeAddr := ReadFde(t, image, begin);
    if Readable(t, image) && Ascending(t, image) { SearchEnds(t, image, pc, begin); }
    assert ret.Error? ==> Fails(t, image, begin, ret.errno);
    if ret != EOK { return FailureOf(ret); }
    return Fde(fdeAddr);
  }

  // ---------------------------------------------------------------------------
  // Tables as linkers write them
  // ---------------------------------------------------------------------------

  datatype Entry = Entry(sym: int, fde: int)

  /** Within reach of a fixed-width format. */
  predicate Reaches(v: int, format: int, ptrSize: nat) {
    var bits := 8 * FixedWidth(format, ptrSize);
    bits > 0 && if IsSigned(format) then 0 - Pow2(bits - 1) <= v < Pow2(bits - 1) else 0 <= v < Pow2(bits)
  }

  predicate EntryReaches(e: Entry, image: Image, encoding: int, address: int) {
    var format := encoding % 16;
    0 <= e.sym < U64 && 0 <= e.fde < U64
    && Reaches(e.sym - ScalingBase(image, encoding, address), format, image.ptrSize)
    && Reaches(e.fde - ScalingBase(image, encoding, address + FixedWidth(format, image.ptrSize)), format, image.ptrSize)
  }

  function EncodeEntry(e: Entry, image: Image, encoding: int, address: int): (bs: Bytes)
    ensures |bs| == 2 * FixedWidth(encoding % 16, image.ptrSize)
  {
    var width := FixedWidth(encoding % 16, image.ptrSize);
    EncodeFixed(e.sym - ScalingBase(image, encoding, address), width)
    + EncodeFixed(e.fde - ScalingBase(image, encoding, address + width), width)
  }

  /** The entries are where the table has them. */
  ghost predicate Holds(t: FdeTable, image: Image, entries: seq<Entry>)
    requires GoodTable(t, image)
  {
    (image.ptrSize == 4 || image.ptrSize == 8) && KnownScaling(t.encoding)
    && t.count == |entries| && t.entryWidth == 2 * FixedWidth(t.encoding % 16, image.ptrSize)
    && forall i :: 0 <= i < t.count ==> HoldsEntry(t, image, i, entries[i])
  }

  ghost predicate HoldsEntry(t: FdeTable, image: Image, i: nat, e: Entry)
    requires GoodTable(t, image) && i < Entries(t)
  {
    EntryFits(t, image, i);
    var at := t.start + i * t.entryWidth;
    EntryReaches(e, image, t.encoding, image.base + at)
    && image.mem[at..at + t.entryWidth] == EncodeEntry(e, image, t.encoding, image.base + at)
  }

  lemma AddBack(base: int, v: int)
    requires 0 <= v < U64
    ensures (base + (v - base) % U64) % U64 == v
  {
    var q, r := (v - base) / U64, (v - base) % U64;
    assert base + r == (0 - q) * U64 + v;
    QuotientUnique(base + r, U64, 0 - q, v);
  }

  /** A value is read back from its fixed-width encoding relative to whatever base the encoding names. */
  lemma EncodedReads(image: Image, encoding: int, address: int, v: int, rest: Bytes)
    requires (image.ptrSize == 4 || image.ptrSize == 8) && KnownScaling(encoding) && 0 <= v < U64
    requires Reaches(v - ScalingBase(image, encoding, address), encoding % 16, image.ptrSize)
    ensures var width := FixedWidth(encoding % 16, image.ptrSize);
            Encoded(image, encoding, address, EncodeFixed(v - ScalingBase(image, encoding, address), width) + rest)
            == Decoded(v, width)
  {
    hide EncodeFixed, Format, ScalingBase, Pow2, FixedWidth, IsSigned;
    var base := ScalingBase(image, encoding, address);
    FixedRoundTrip(v - base, encoding % 16, rest, image.ptrSize);
    AddBack(base, v);
  }

  lemma HalvesRead(image: Image, encoding: int, at: nat, e: Entry)
    requires (image.ptrSize == 4 || image.ptrSize == 8) && KnownScaling(encoding)
    requires var width := FixedWidth(encoding % 16, image.ptrSize); at + 2 * width <= |image.mem|
    requires EntryReaches(e, image, encoding, image.base + at)
    requires var width := FixedWidth(encoding % 16, image.ptrSize);
             image.mem[at..at + 2 * width] == EncodeEntry(e, image, encoding, image.base + at)
    ensures var width := FixedWidth(encoding % 16, image.ptrSize);
            Encoded(image, encoding, image.base + at, image.mem[at..at + 2 * width]) == Decoded(e.sym, width)
            && Encoded(image, encoding, image.base + (at + width), image.mem[at + width..at + width + width])
               == Decoded(e.fde, width)
  {
    hide Encoded, EncodeFixed, ScalingBase, FixedWidth, Reaches;
    var width := FixedWidth(encoding % 16, image.ptrSize);
    var address := image.base + at;
    var sym := EncodeFixed(e.sym - ScalingBase(image, encoding, address), width);
    var fde := EncodeFixed(e.fde - ScalingBase(image, encoding, address + width), width);
    EncodedReads(image, encoding, address, e.sym, fde);
    EncodedReads(image, encoding, address + width, e.fde, []);
    assert fde + [] == fde;
    assert image.mem[at + width..at + width + width] == image.mem[at..at + 2 * width][width..] == fde;
  }

  lemma EntryReads(t: FdeTable, image: Image, i: nat, e: Entry)
    requires GoodTable(t, image) && i < Entries(t) && HoldsEntry(t, image, i, e)
    requires (image.ptrSize == 4 || image.ptrSize == 8) && KnownScaling(t.encoding)
    requires t.entryWidth == 2 * FixedWidth(t.encoding % 16, image.ptrSize)
    ensures SymAt(t, image, i) == Decoded(e.sym, t.entryWidth / 2)
    ensures FdeAt(t, image, i) == Decoded(e.fde, t.entryWidth / 2)
  {
    hide Encoded, EncodeEntry, EntryReaches, FixedWidth, IsBytes, Entries;
    EntryFits(t, image, i);
    var at, width := t.start + i * t.entryWidth, FixedWidth(t.encoding % 16, image.ptrSize);
    assert t.entryWidth / 2 == width && t.entryWidth == 2 * width;
    HalvesRead(image, t.encoding, at, e);
    assert image.base + at + width == image.base + (at + width);
  }

  ghost predicate Sorted(entries: seq<Entry>) {
    forall i, j :: 0 <= i <= j < |entries| ==> entries[i].sym <= entries[j].sym
  }

  /** Entry k is the last one at or below the address, or the first one for addresses below them all. */
  predicate Covers(entries: seq<Entry>, k: nat, pc: int) {
    k < |entries| && (k == 0 || entries[k].sym <= pc) && forall j :: k < j < |entries| ==> entries[j].sym > pc
  }

  /** On a sorted table the description found is that of the function that covers the address. */
  method FindInTable(t: FdeTable, image: Image, entries: seq<Entry>, pc: int) returns (found: FoundFde)
    requires GoodTable(t, image) && Holds(t, image, entries) && Sorted(entries)
    ensures entries != [] ==> exists k: nat :: Covers(entries, k, pc) && found == Fde(entries[k].fde)
  {
    hide SymAt, FdeAt, GoodTable;
    forall i | 0 <= i < t.count
      ensures SymAt(t, image, i) == Decoded(entries[i].sym, t.entryWidth / 2)
      ensures FdeAt(t, image, i) == Decoded(entries[i].fde, t.entryWidth / 2)
    {
      EntryReads(t, image, i, entries[i]);
    }
    assert forall i :: 0 <= i < t.count ==> SymAt(t, image, i).Decoded? && SymAt(t, image, i).value == entries[i].sym;
    assert Readable(t, image) && Ascending(t, image);
    found := FindFde(t, image, pc);
    ghost var k := FunctionAt(t, image, pc, Entries(t) - 1);
    assert entries != [] ==> Covers(entries, k, pc);
  }
}
