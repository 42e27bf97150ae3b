/** The boot allocator as a state machine, and what holds over all of its runs. */
module BootAllocRuns {
  import opened Options
  import opened MemoryRanges
  import opened RangeSurgery
  import opened BootAllocSpec
  import opened Words

  // ---------------------------------------------------------------------------
  // Request sizes
  // ---------------------------------------------------------------------------

  /** The number of bits of a size_t. */
  type Width = w: nat | w == 32 || w == 64 witness 64

  function SizeLimit(width: Width): nat { if width == 32 then U32 else U64 }

  /** The size of a request, as the product of two size_t computes it. */
  function ByteSize(pages: nat, width: Width): (b: nat)
    ensures b % 2 == 0
  {
    pages * PAGE_SIZE % SizeLimit(width)
  }

  lemma ByteSizeInWord(pages: nat, width: Width)
    ensures ByteSize(pages, width) < ADDRESS_LIMIT
  {}

  /** The only size check that the allocator makes. */
  predicate SizeAccepted(pages: nat, width: Width) { pages < ByteSize(pages, width) }

  /** An accepted request is served in full exactly when its size did not wrap around. */
  lemma SizeCheckMeaning(pages: nat, width: Width)
    requires pages < SizeLimit(width)
    ensures SizeAccepted(pages, width) && ByteSize(pages, width) == pages * PAGE_SIZE <==> 0 < pages < Pow2(width - 12)
  {
    PageCounts();
    hide Pow2;
  }

  lemma PageCounts()
    ensures Pow2(20) == 0x10_0000 && Pow2(52) == 0x10_0000_0000_0000
  {
    Pow2Values();
    assert Pow2(20) == 16 * Pow2(16) && Pow2(21) == 2 * Pow2(20);
    Pow2Adds(20, 32);
    assert 20 + 32 == 52;
  }

  /** The check lets some wrapped sizes through: 2^52 + 2^41 pages pass for 2^53 bytes, and with a size_t of
      32 bits 2^20 + 2^9 pages for 2^21 bytes. */
  lemma SizeCheckAdmitsOverflow(width: Width)
    ensures var pages := if width == 64 then 0x10_0000_0000_0000 + 0x200_0000_0000 else 0x10_0000 + 0x200;
            SizeAccepted(pages, width)
            && ByteSize(pages, width) == (if width == 64 then 0x20_0000_0000_0000 else 0x20_0000) < pages * PAGE_SIZE
  {}

  datatype Block = Block(addr: nat, bytes: nat) {
    function End(): nat { addr + bytes }
    function As(k: Kind): Range { Range(addr, bytes, k) }
  }

  // ---------------------------------------------------------------------------
  // States and operations
  // ---------------------------------------------------------------------------

  /** own holds the pages of the buffer once it has been moved out of the initial one. lost holds what is
      marked allocated and will never be given back. */
  datatype Allocator = Allocator(es: seq<Range>, capacity: nat, own: seq<Block>, lost: seq<Block>, width: Width)

  /** Refused: the new buffer was placed at address 0, which is taken for a failure; its pages stay
      allocated. Abandoned marks the two branches that are not modelled: a growth that finds no memory, and
      a second growth. */
  datatype Readiness = Ready(s: Allocator) | Refused(s: Allocator) | Abandoned

  datatype Reply = Got(address: nat) | Freed | Leaked | OutOfMemory | Panic | Unmodelled

  function ReplyOf(o: Outcome): Reply {
    match o
    case Ok(a) => Got(a)
    case NoMemory => OutOfMemory
    case Bug => Panic
  }

  function PageRoundUp(x: nat): nat { (x + (PAGE_SIZE - 1)) / PAGE_SIZE * PAGE_SIZE }

  /** allocate_top_down, its size check included. */
  function TopDown(es: seq<Range>, pages: nat, upper: nat, width: Width): (Outcome, seq<Range>) {
    if SizeAccepted(pages, width) then AllocateTopDown(es, ByteSize(pages, width), upper) else (Bug, es)
  }

  function NoGrow(es: seq<Range>, pages: nat, width: Width): (Outcome, seq<Range>) {
    TopDown(es, pages, NO_LIMIT, width)
  }

  function Watermark(grown: bool): nat { if grown then 6 else 4 }

  function GrownPages(capacity: nat): nat { PageRoundUp(capacity * 2 * ENTRY_SIZE) / PAGE_SIZE }

  function MaybeGrow(s: Allocator): Readiness {
    if s.capacity - |s.es| >= Watermark(s.own != []) then Ready(s)
    else
      var pages := GrownPages(s.capacity);
      var (o, fs) := NoGrow(s.es, pages, s.width);
      if !o.Ok? then Abandoned
      else
        var b := Block(o.address, ByteSize(pages, s.width));
        if o.address == 0 then Refused(s.(es := fs, lost := s.lost + [b]))
        else if s.own == [] then
          var capacity := PageRoundUp(s.capacity * 2 * ENTRY_SIZE) / ENTRY_SIZE;
          Ready(s.(es := fs, capacity := capacity, own := [b]))
        else Abandoned
  }

  function BootAlloc(s: Allocator, pages: nat): (Reply, Allocator) {
    match MaybeGrow(s)
    case Abandoned => (Unmodelled, s)
    case Refused(t) => (OutOfMemory, t)
    case Ready(t) =>
      var (o, fs) := NoGrow(t.es, pages, t.width);
      (ReplyOf(o), t.(es := fs))
  }

  function BootAllocAt(s: Allocator, address: nat, pages: nat): (Reply, Allocator) {
    match MaybeGrow(s)
    case Abandoned => (Unmodelled, s)
    case Refused(t) => (OutOfMemory, t)
    case Ready(t) =>
      if !SizeAccepted(pages, t.width) then (Panic, t)
      else
        var bytes := ByteSize(pages, t.width);
        var (o, fs) := AllocateWithin(t.es, bytes, address, Wrap(address + bytes));
        (ReplyOf(o), t.(es := fs))
  }

  function BootFree(s: Allocator, b: Block): (Reply, Allocator) {
    match MaybeGrow(s)
    case Abandoned => (Unmodelled, s)
    case Refused(t) => (Leaked, t.(lost := t.lost + [b]))
    case Ready(t) =>
      var i := Scan(t.es, 0, b.addr, false);
      if i < 0 || t.es[i].addr > b.addr || t.es[i].End() < b.End() || t.es[i].kind == Free then (Panic, t)
      else (Freed, t.(es := AllocateOutOf(t.es, i, b.As(Free))))
  }

  // ---------------------------------------------------------------------------
  // One operation
  // ---------------------------------------------------------------------------

  predicate EvenLimit(upper: nat) { upper % 2 == 0 || upper == NO_LIMIT }

  lemma TopDownCarves(es: seq<Range>, bytes: nat, upper: nat) returns (i: nat)
    requires WellFormed(es) && bytes > 0 && bytes % 2 == 0 && EvenLimit(upper)
    requires AllocateTopDown(es, bytes, upper).0.Ok?
    ensures var (o, fs) := AllocateTopDown(es, bytes, upper);
            var n := Range(o.address, bytes, Allocated);
            i == PickTopDown(es, |es|, bytes, upper) && Fits(es, i, n) && fs == AllocateOutOf(es, i, n)
            && Growth(es, i, n) <= 2 && (upper == NO_LIMIT ==> Growth(es, i, n) <= 1 && |fs| <= |es| + 1)
  {
    hide AllocateOutOf, Growth, Ordered, PickTopDown;
    i := PickTopDown(es, |es|, bytes, upper);
    assert es[i].Valid();
    var n := Range(Min(es[i].End(), upper) - bytes, bytes, Allocated);
    EntryGrowth(es, i, n);
    RightAlignedGrowth(es, i, n);
  }

  lemma RightAlignedGrowth(es: seq<Range>, i: nat, n: Range)
    requires i < |es|
    ensures n.End() == es[i].End() ==> Growth(es, i, n) <= 1
  {}

  /** By how many entries the map can grow. */
  function TopDownGrowth(upper: nat): nat { if upper == NO_LIMIT then 1 else 2 }

  /** What an allocation comes to, by the entry it settles on. */
  lemma TopDownByEntry(es: seq<Range>, pages: nat, upper: nat, width: Width)
    requires WellFormed(es) && SizeAccepted(pages, width) && EvenLimit(upper)
    ensures var bytes := ByteSize(pages, width);
            var i := PickTopDown(es, |es|, bytes, upper);
            if i < 0 then TopDown(es, pages, upper, width) == (NoMemory, es)
            else
              var n := Range(Min(es[i].End(), upper) - bytes, bytes, Allocated);
              n.addr >= 0 && Fits(es, i, n) && Growth(es, i, n) <= TopDownGrowth(upper)
              && TopDown(es, pages, upper, width) == (Ok(n.addr), AllocateOutOf(es, i, n))
  {
    hide AllocateOutOf, Growth, Ordered, ByteSize, PickTopDown;
    if AllocateTopDown(es, ByteSize(pages, width), upper).0.Ok? {
      var i := TopDownCarves(es, ByteSize(pages, width), upper);
    }
  }

  lemma WithinCarves(es: seq<Range>, bytes: nat, lower: nat, upper: nat) returns (i: nat)
    requires WellFormed(es) && bytes > 0 && bytes % 2 == 0 && lower % 2 == 0
    requires lower + bytes <= upper < ADDRESS_LIMIT && AllocateWithin(es, bytes, lower, upper).0.Ok?
    ensures var (o, fs) := AllocateWithin(es, bytes, lower, upper);
            var n := Range(o.address, bytes, Allocated);
            i == WithinIndex(es, bytes, lower, upper) && Fits(es, i, n) && fs == AllocateOutOf(es, i, n)
            && lower <= o.address && n.End() <= upper
  {
    WithinIndexSound(es, bytes, lower, upper);
    i := WithinIndex(es, bytes, lower, upper);
    assert es[i].Valid();
  }

  /** What a bounded allocation comes to, by the entry it settles on. */
  lemma WithinByEntry(es: seq<Range>, bytes: nat, lower: nat, upper: nat)
    requires WellFormed(es) && bytes > 0 && bytes % 2 == 0 && lower % 2 == 0
    requires lower + bytes <= upper < ADDRESS_LIMIT
    ensures var i := WithinIndex(es, bytes, lower, upper);
            if i < 0 then AllocateWithin(es, bytes, lower, upper) == (NoMemory, es)
            else
              var n := Range(Max(lower, es[i].addr), bytes, Allocated);
              Fits(es, i, n) && Growth(es, i, n) <= 2
              && AllocateWithin(es, bytes, lower, upper) == (Ok(n.addr), AllocateOutOf(es, i, n))
  {
    hide AllocateOutOf, Growth, Ordered, WithinIndex;
    WithinIndexSound(es, bytes, lower, upper);
    var i := WithinIndex(es, bytes, lower, upper);
    if i >= 0 {
      assert es[i].Valid();
      EntryGrowth(es, i, Range(Max(lower, es[i].addr), bytes, Allocated));
    }
  }

  /** The capacity leaves room for the size of a new buffer to be computed, and of one after that. */
  predicate Sizable(s: Allocator) {
    (if s.own == [] then s.capacity * 64 + 3 * PAGE_SIZE else s.capacity * 32 + PAGE_SIZE) < SizeLimit(s.width)
  }

  /** Growing out of the initial buffer changes the map on the new buffer's pages only, and leaves room
      for any operation. */
  lemma FirstGrowth(s: Allocator) returns (i: nat)
    requires WellFormed(s.es) && |s.es| < s.capacity && s.own == [] && Sizable(s)
    requires MaybeGrow(s).Ready? && MaybeGrow(s).s != s
    ensures var t := MaybeGrow(s).s;
            && t == s.(es := t.es, capacity := t.capacity, own := t.own)
            && |t.own| == 1 && t.own[0].bytes == t.capacity * ENTRY_SIZE && t.capacity >= 2 * s.capacity && Sizable(t)
            && Fits(s.es, i, t.own[0].As(Allocated))
            && t.es == AllocateOutOf(s.es, i, t.own[0].As(Allocated))
            && |t.es| <= |s.es| + 1 && t.capacity - |t.es| >= 6
  {
    hide AllocateOutOf, Growth, PickTopDown;
    var pages := GrownPages(s.capacity);
    GrownSize(s.capacity, s.width);
    i := TopDownCarves(s.es, ByteSize(pages, s.width), NO_LIMIT);
  }

  lemma GrownSize(capacity: nat, width: Width)
    requires 0 < capacity && capacity * 32 + PAGE_SIZE < SizeLimit(width)
    ensures var bytes := PageRoundUp(capacity * 2 * ENTRY_SIZE);
            && SizeAccepted(GrownPages(capacity), width) && ByteSize(GrownPages(capacity), width) == bytes >= PAGE_SIZE
            && bytes / ENTRY_SIZE * ENTRY_SIZE == bytes && 2 * capacity <= bytes / ENTRY_SIZE <= 2 * capacity + 256
            && bytes / ENTRY_SIZE >= 256
  {
    var bytes := PageRoundUp(capacity * 2 * ENTRY_SIZE);
    PagesOfBuffer(capacity);
    hide PageRoundUp;
    assert bytes < SizeLimit(width);
    QuotientUnique(bytes, SizeLimit(width), 0, bytes);
  }

  lemma PagesOfBuffer(capacity: nat)
    requires 0 < capacity
    ensures var bytes := PageRoundUp(capacity * 2 * ENTRY_SIZE);
            && bytes == GrownPages(capacity) * PAGE_SIZE && 0 < GrownPages(capacity)
            && 32 * capacity <= bytes < 32 * capacity + PAGE_SIZE
            && bytes / ENTRY_SIZE == GrownPages(capacity) * 256
  {
    var pages := (32 * capacity + 4095) / 4096;
    assert PageRoundUp(capacity * 2 * ENTRY_SIZE) == pages * 4096;
    assert GrownPages(capacity) == pages;
  }

  /** A growth placed at address 0 takes a whole entry, so the map does not grow. */
  lemma RefusedGrowth(s: Allocator) returns (i: nat, b: Block)
    requires WellFormed(s.es) && |s.es| < s.capacity && MaybeGrow(s).Refused?
    ensures Fits(s.es, i, b.As(Allocated)) && b.addr == 0
    ensures var t := MaybeGrow(s).s;
            && t == s.(es := AllocateOutOf(s.es, i, b.As(Allocated)), lost := s.lost + [b]) && |t.es| <= |s.es|
  {
    hide AllocateOutOf, PickTopDown, Ordered;
    var pages := GrownPages(s.capacity);
    var bytes := ByteSize(pages, s.width);
    i := TopDownCarves(s.es, bytes, NO_LIMIT);
    b := Block(0, bytes);
    var n := b.As(Allocated);
    assert s.es[i].Valid();
    EntryGrowth(s.es, i, n);
  }

  // ---------------------------------------------------------------------------
  // Blocks in use
  // ---------------------------------------------------------------------------

  ghost predicate Held(es: seq<Range>, b: Block) {
    b.bytes > 0 && b.bytes % 2 == 0 && b.addr % 2 == 0 && InOneEntry(es, b.addr, b.End(), Allocated)
  }

  predicate Apart(a: Block, b: Block) { a.End() <= b.addr || b.End() <= a.addr }

  /** Pairwise disjoint blocks, each inside a single allocated entry. */
  ghost predicate AllHeld(es: seq<Range>, bs: seq<Block>) {
    && (forall i :: 0 <= i < |bs| ==> Held(es, bs[i]))
    && (forall i, j :: 0 <= i < j < |bs| ==> Apart(bs[i], bs[j]))
  }

  ghost function Total(bs: seq<Block>): nat {
    if bs == [] then 0 else bs[0].bytes + Total(bs[1..])
  }

  lemma {:induction false} TotalConcat(a: seq<Block>, b: seq<Block>)
    ensures Total(a + b) == Total(a) + Total(b)
  {
    if a == [] {
      assert a + b == b;
    } else {
      assert (a + b)[1..] == a[1..] + b;
      TotalConcat(a[1..], b);
    }
  }

  lemma HeldBounds(es: seq<Range>, b: Block)
    requires WellFormed(es) && Held(es, b)
    ensures b.As(Free).Valid() && b.As(Allocated).Valid()
  {
    var i :| 0 <= i < |es| && es[i].addr <= b.addr && b.End() <= es[i].End() && es[i].kind == Allocated;
    assert es[i].Valid();
  }

  /** A held block cannot meet a stretch of free memory. */
  lemma HeldApartFromFree(es: seq<Range>, b: Block, c: Block)
    requires WellFormed(es) && Held(es, b) && c.bytes > 0 && InOneEntry(es, c.addr, c.End(), Free)
    ensures Apart(b, c)
  {
    InOneEntryIsRun(es, b.addr, b.End(), Allocated);
    InOneEntryIsRun(es, c.addr, c.End(), Free);
    var x := Max(b.addr, c.addr);
    assert x < b.End() && x < c.End() ==> Lookup(es, x) == Some(Allocated);
  }

  lemma TotalMiddle(before: seq<Block>, b: Block, after: seq<Block>)
    ensures Total(before + [b] + after) == Total(before + after) + b.bytes
  {
    assert Total([b]) == b.bytes;
    hide Total;
    TotalConcat(before + [b], after);
    TotalConcat(before, [b]);
    TotalConcat(before, after);
  }

  lemma TotalInserted(bs: seq<Block>, b: Block, a: nat)
    requires a <= |bs|
    ensures Total(bs[..a] + [b] + bs[a..]) == Total(bs) + b.bytes
  {
    hide Total;
    assert bs[..a] + bs[a..] == bs;
    TotalMiddle(bs[..a], b, bs[a..]);
  }

  lemma TotalRemoved(bs: seq<Block>, a: nat)
    requires a < |bs|
    ensures Total(bs[..a] + bs[a + 1..]) == Total(bs) - bs[a].bytes
  {
    hide Total;
    assert bs[..a] + [bs[a]] + bs[a + 1..] == bs;
    TotalMiddle(bs[..a], bs[a], bs[a + 1..]);
  }

  /** Carving a block out of free memory keeps every held block, and the new one is apart from it. */
  lemma OthersKept(es: seq<Range>, c: Block, b: Block, i: nat)
    requires WellFormed(es) && Held(es, c) && Fits(es, i, b.As(Allocated))
    ensures Held(AllocateOutOf(es, i, b.As(Allocated)), c) && Apart(c, b)
  {
    assert InOneEntry(es, b.addr, b.End(), Free);
    HeldApartFromFree(es, c, b);
    OtherStretchKept(es, i, b.As(Allocated), c.addr, c.End(), Allocated);
  }

  /** Carving a block out of free memory adds it to the held ones. */
  lemma HoldOneMore(es: seq<Range>, bs: seq<Block>, b: Block, i: nat, a: nat)
    requires WellFormed(es) && AllHeld(es, bs) && Fits(es, i, b.As(Allocated)) && a <= |bs|
    ensures AllHeld(AllocateOutOf(es, i, b.As(Allocated)), bs[..a] + [b] + bs[a..])
  {
    NewStretchInOneEntry(es, i, b.As(Allocated));
    forall k | 0 <= k < |bs| ensures Held(AllocateOutOf(es, i, b.As(Allocated)), bs[k]) && Apart(bs[k], b) {
      OthersKept(es, bs[k], b, i);
    }
  }

  /** Giving a held block back leaves the others held. */
  lemma HoldOneLess(es: seq<Range>, bs: seq<Block>, a: nat, i: nat)
    requires WellFormed(es) && AllHeld(es, bs) && a < |bs| && Fits(es, i, bs[a].As(Free))
    ensures AllHeld(AllocateOutOf(es, i, bs[a].As(Free)), bs[..a] + bs[a + 1..])
  {
    forall k | 0 <= k < |bs| && k != a ensures Held(AllocateOutOf(es, i, bs[a].As(Free)), bs[k]) {
      assert if k < a then Apart(bs[k], bs[a]) else Apart(bs[a], bs[k]);
      OtherStretchKept(es, i, bs[a].As(Free), bs[k].addr, bs[k].End(), Allocated);
    }
  }

  /** Freeing panics exactly when the block does not lie inside one allocated entry. */
  lemma FreePanicsExactly(s: Allocator, b: Block)
    requires b.bytes > 0 && MaybeGrow(s).Ready? && WellFormed(MaybeGrow(s).s.es)
    ensures BootFree(s, b).0 == (if InOneEntry(MaybeGrow(s).s.es, b.addr, b.End(), Allocated) then Freed else Panic)
  {
    var es := MaybeGrow(s).s.es;
    if InOneEntry(es, b.addr, b.End(), Allocated) {
      var k :| 0 <= k < |es| && es[k].addr <= b.addr && b.End() <= es[k].End() && es[k].kind == Allocated;
      ScanFinds(es, k, b.addr, false);
    }
  }

  // ---------------------------------------------------------------------------
  // Runs
  // ---------------------------------------------------------------------------

  datatype Op = Alloc(pages: nat) | AllocAt(address: nat, pages: nat) | Release(index: nat)

  /** The allocator and the blocks its callers hold. */
  datatype World = World(s: Allocator, live: seq<Block>)

  /** Everything that is allocated for someone, or lost. */
  function InUse(w: World): seq<Block> { w.s.own + w.s.lost + w.live }

  /** Sizes pass the size check, fixed placements fit the address space and leave the kind bit alone,
      and only live blocks are freed. */
  predicate Legal(w: World, op: Op) {
    match op
    case Alloc(pages) => SizeAccepted(pages, w.s.width)
    case AllocAt(address, pages) =>
      SizeAccepted(pages, w.s.width) && address % 2 == 0 && address + ByteSize(pages, w.s.width) < ADDRESS_LIMIT
    case Release(index) => index < |w.live|
  }

  function Taken(live: seq<Block>, r: Reply, bytes: nat): seq<Block> {
    if r.Got? then live + [Block(r.address, bytes)] else live
  }

  /** A block that could not be given back is no longer its caller's either. */
  function GivenBack(live: seq<Block>, r: Reply, index: nat): seq<Block>
    requires index < |live|
  {
    if r.Freed? || r.Leaked? then live[..index] + live[index + 1..] else live
  }

  function Do(w: World, op: Op): (Reply, World)
    requires Legal(w, op)
  {
    match op
    case Alloc(pages) =>
      var (r, t) := BootAlloc(w.s, pages);
      (r, World(t, Taken(w.live, r, ByteSize(pages, w.s.width))))
    case AllocAt(address, pages) =>
      var (r, t) := BootAllocAt(w.s, address, pages);
      (r, World(t, Taken(w.live, r, ByteSize(pages, w.s.width))))
    case Release(index) =>
      var (r, t) := BootFree(w.s, w.live[index]);
      (r, World(t, GivenBack(w.live, r, index)))
  }

  ghost predicate Sound(w: World) {
    && WellFormed(w.s.es) && |w.s.es| < w.s.capacity && |w.s.own| <= 1 && Sizable(w.s)
    && AllHeld(w.s.es, InUse(w))
  }

  /** Bytes recorded in the map, of either kind. */
  ghost function Recorded(es: seq<Range>): nat { Bytes(es, Free) + Bytes(es, Allocated) }

  /** Allocated bytes that no block in use accounts for: what was in use before the first operation. */
  ghost function Unaccounted(es: seq<Range>, bs: seq<Block>): int { Bytes(es, Allocated) - Total(bs) }

  ghost predicate SameLedger(w: World, v: World) {
    && Recorded(w.s.es) == Recorded(v.s.es)
    && Unaccounted(w.s.es, InUse(w)) == Unaccounted(v.s.es, InUse(v))
  }

  ghost predicate Covered(bs: seq<Block>, x: int) {
    exists i :: 0 <= i < |bs| && bs[i].addr <= x < bs[i].End()
  }

  /** What the map says about an address once everything in use has been given back. */
  ghost function Beneath(es: seq<Range>, bs: seq<Block>, x: int): Option<Kind> {
    if Covered(bs, x) then Some(Free) else Lookup(es, x)
  }

  ghost predicate SameBeneath(es: seq<Range>, bs: seq<Block>, fs: seq<Range>, cs: seq<Block>) {
    forall x: int :: Beneath(es, bs, x) == Beneath(fs, cs, x)
  }

  /** What one operation, and so every run, keeps: the books, and the map beneath the blocks in use. */
  ghost predicate Kept(w: World, v: World) {
    SameLedger(w, v) && SameBeneath(w.s.es, InUse(w), v.s.es, InUse(v)) && v.s.width == w.s.width
  }

  lemma TakeLedger(es: seq<Range>, bs: seq<Block>, b: Block, i: nat, a: nat)
    requires WellFormed(es) && Fits(es, i, b.As(Allocated)) && a <= |bs|
    ensures var fs := AllocateOutOf(es, i, b.As(Allocated));
            && WellFormed(fs) && Recorded(fs) == Recorded(es)
            && Unaccounted(fs, bs[..a] + [b] + bs[a..]) == Unaccounted(es, bs)
  {
    AllocateOutOfOverwrites(es, i, b.As(Allocated));
    TotalInserted(bs, b, a);
  }

  lemma ReturnLedger(es: seq<Range>, bs: seq<Block>, i: nat, a: nat)
    requires a < |bs| && WellFormed(es) && Fits(es, i, bs[a].As(Free))
    ensures var fs := AllocateOutOf(es, i, bs[a].As(Free));
            && WellFormed(fs) && Recorded(fs) == Recorded(es)
            && Unaccounted(fs, bs[..a] + bs[a + 1..]) == Unaccounted(es, bs)
  {
    AllocateOutOfOverwrites(es, i, bs[a].As(Free));
    TotalRemoved(bs, a);
  }

  lemma CoveredInserted(bs: seq<Block>, b: Block, a: nat, x: int)
    requires a <= |bs|
    ensures Covered(bs[..a] + [b] + bs[a..], x) <==> Covered(bs, x) || b.addr <= x < b.End()
  {
    var cs := bs[..a] + [b] + bs[a..];
    assert cs[a] == b;
    forall i | 0 <= i < |bs| ensures bs[i] == cs[if i < a then i else i + 1] {}
    if Covered(cs, x) {
      var j :| 0 <= j < |cs| && cs[j].addr <= x < cs[j].End();
      assert j < a ==> bs[j] == cs[j];
      assert j > a ==> bs[j - 1] == cs[j];
    }
  }

  lemma CoveredRemoved(bs: seq<Block>, a: nat, x: int)
    requires a < |bs|
    ensures Covered(bs, x) <==> Covered(bs[..a] + bs[a + 1..], x) || bs[a].addr <= x < bs[a].End()
  {
    var cs := bs[..a] + bs[a + 1..];
    CoveredInserted(cs, bs[a], a, x);
    assert cs[..a] + [bs[a]] + cs[a..] == bs;
  }

  /** Taking a block changes the map only where it is then covered. */
  lemma TakeBeneath(es: seq<Range>, bs: seq<Block>, b: Block, i: nat, a: nat)
    requires WellFormed(es) && Fits(es, i, b.As(Allocated)) && a <= |bs|
    ensures SameBeneath(es, bs, AllocateOutOf(es, i, b.As(Allocated)), bs[..a] + [b] + bs[a..])
  {
    hide AllocateOutOf;
    var n := b.As(Allocated);
    AllocateOutOfOverwrites(es, i, n);
    forall x: int
      ensures Beneath(es, bs, x) == Beneath(AllocateOutOf(es, i, n), bs[..a] + [b] + bs[a..], x)
    {
      CoveredInserted(bs, b, a, x);
      if n.Contains(x) { LookupAt(es, i, x); }
    }
  }

  /** Giving one back changes it only where it was. */
  lemma ReturnBeneath(es: seq<Range>, bs: seq<Block>, i: nat, a: nat)
    requires WellFormed(es) && a < |bs| && Fits(es, i, bs[a].As(Free))
    ensures SameBeneath(es, bs, AllocateOutOf(es, i, bs[a].As(Free)), bs[..a] + bs[a + 1..])
  {
    hide AllocateOutOf;
    var n := bs[a].As(Free);
    AllocateOutOfOverwrites(es, i, n);
    forall x: int
      ensures Beneath(es, bs, x) == Beneath(AllocateOutOf(es, i, n), bs[..a] + bs[a + 1..], x)
    {
      CoveredRemoved(bs, a, x);
    }
  }

  /** Carving a block out of free memory and entering it anywhere among those in use. */
  lemma TakeKeeps(es: seq<Range>, bs: seq<Block>, b: Block, i: nat, a: nat)
    requires WellFormed(es) && AllHeld(es, bs) && Fits(es, i, b.As(Allocated)) && a <= |bs|
    ensures var fs := AllocateOutOf(es, i, b.As(Allocated));
            var cs := bs[..a] + [b] + bs[a..];
            && WellFormed(fs) && AllHeld(fs, cs) && Recorded(fs) == Recorded(es)
            && Unaccounted(fs, cs) == Unaccounted(es, bs) && SameBeneath(es, bs, fs, cs)
  {
    hide AllocateOutOf, Fits, AllHeld, WellFormed, Recorded, Unaccounted, SameBeneath;
    TakeLedger(es, bs, b, i, a);
    HoldOneMore(es, bs, b, i, a);
    TakeBeneath(es, bs, b, i, a);
  }

  lemma GrowthSound(w: World)
    requires Sound(w) && MaybeGrow(w.s).Ready?
    ensures var v := World(MaybeGrow(w.s).s, w.live);
            Sound(v) && Kept(w, v) && v.s.capacity - |v.s.es| >= 4
  {
    hide AllHeld, WellFormed, AllocateOutOf, Fits, SameBeneath, Recorded, Unaccounted;
    var v := World(MaybeGrow(w.s).s, w.live);
    if v.s != w.s {
      var i := FirstGrowth(w.s);
      var b, bs := v.s.own[0], InUse(w);
      TakeKeeps(w.s.es, bs, b, i, 0);
      assert bs[..0] + [b] + bs[0..] == InUse(v);
    } else {
      NothingBeneath(w);
    }
  }

  lemma NothingBeneath(w: World)
    ensures SameBeneath(w.s.es, InUse(w), w.s.es, InUse(w))
  {}

  /** A growth that is refused keeps everything too, but its pages are lost. */
  lemma RefusalSound(w: World)
    requires Sound(w) && MaybeGrow(w.s).Refused?
    ensures var v := World(MaybeGrow(w.s).s, w.live); Sound(v) && Kept(w, v)
  {
    hide AllHeld, WellFormed, AllocateOutOf, Fits, SameBeneath, Recorded, Unaccounted;
    var v := World(MaybeGrow(w.s).s, w.live);
    var i, b := RefusedGrowth(w.s);
    var bs := InUse(w);
    var a := |w.s.own + w.s.lost|;
    TakeKeeps(w.s.es, bs, b, i, a);
    assert bs[..a] + [b] + bs[a..] == InUse(v);
  }

  lemma TakeBlock(w: World, i: nat, b: Block)
    requires Sound(w) && w.s.capacity - |w.s.es| >= 4 && Fits(w.s.es, i, b.As(Allocated))
    ensures var v := World(w.s.(es := AllocateOutOf(w.s.es, i, b.As(Allocated))), w.live + [b]);
            Sound(v) && Kept(w, v)
  {
    var v := World(w.s.(es := AllocateOutOf(w.s.es, i, b.As(Allocated))), w.live + [b]);
    hide AllHeld, WellFormed, AllocateOutOf, Fits, SameBeneath, Recorded, Unaccounted, Growth;
    var bs := InUse(w);
    EntryGrowth(w.s.es, i, b.As(Allocated));
    TakeKeeps(w.s.es, bs, b, i, |bs|);
    assert bs[..|bs|] + [b] + bs[|bs|..] == InUse(v);
  }

  lemma ReturnBlock(w: World, k: nat, i: nat)
    requires Sound(w) && w.s.capacity - |w.s.es| >= 4 && k < |w.live| && Fits(w.s.es, i, w.live[k].As(Free))
    ensures var v := World(w.s.(es := AllocateOutOf(w.s.es, i, w.live[k].As(Free))), w.live[..k] + w.live[k + 1..]);
            Sound(v) && Kept(w, v)
  {
    var v := World(w.s.(es := AllocateOutOf(w.s.es, i, w.live[k].As(Free))), w.live[..k] + w.live[k + 1..]);
    hide AllocateOutOf, Apart, Fits, WellFormed, Recorded, Unaccounted, Growth, AllHeld, SameBeneath;
    var bs := InUse(w);
    var a := |w.s.own + w.s.lost| + k;
    EntryGrowth(w.s.es, i, bs[a].As(Free));
    ReturnLedger(w.s.es, bs, i, a);
    HoldOneLess(w.s.es, bs, a, i);
    ReturnBeneath(w.s.es, bs, i, a);
    assert bs[..a] + bs[a + 1..] == InUse(v);
  }

  /** Moving a block forward among those in use changes nothing. */
  lemma MovedKeeps(es: seq<Range>, bs: seq<Block>, p: nat, a: nat)
    requires AllHeld(es, bs) && p <= a < |bs|
    ensures var cs := bs[..p] + [bs[a]] + bs[p..a] + bs[a + 1..];
            AllHeld(es, cs) && Total(cs) == Total(bs) && forall x: int :: Covered(cs, x) <==> Covered(bs, x)
  {
    var rest := bs[..a] + bs[a + 1..];
    var cs := bs[..p] + [bs[a]] + bs[p..a] + bs[a + 1..];
    assert cs == rest[..p] + [bs[a]] + rest[p..];
    MovedHeld(es, bs, p, a);
    hide Total, AllHeld;
    TotalRemoved(bs, a);
    TotalInserted(rest, bs[a], p);
    forall x: int ensures Covered(cs, x) <==> Covered(bs, x) {
      CoveredRemoved(bs, a, x);
      CoveredInserted(rest, bs[a], p, x);
    }
  }

  lemma MovedHeld(es: seq<Range>, bs: seq<Block>, p: nat, a: nat)
    requires AllHeld(es, bs) && p <= a < |bs|
    ensures AllHeld(es, bs[..p] + [bs[a]] + bs[p..a] + bs[a + 1..])
  {
    hide Held;
    var cs := bs[..p] + [bs[a]] + bs[p..a] + bs[a + 1..];
    forall i | 0 <= i < |cs|
      ensures cs[i] == bs[if i < p || i > a then i else if i == p then a else i - 1]
    {}
  }

  /** A block that is not given back, because the buffer could not grow, is lost. */
  lemma LoseBlock(w: World, k: nat)
    requires Sound(w) && k < |w.live|
    ensures var v := World(w.s.(lost := w.s.lost + [w.live[k]]), w.live[..k] + w.live[k + 1..]);
            Sound(v) && Kept(w, v)
  {
    hide AllHeld, WellFormed, Recorded, Total, Covered, Apart;
    var v := World(w.s.(lost := w.s.lost + [w.live[k]]), w.live[..k] + w.live[k + 1..]);
    var bs := InUse(w);
    var p := |w.s.own + w.s.lost|;
    MovedKeeps(w.s.es, bs, p, p + k);
    assert bs[..p] + [bs[p + k]] + bs[p..p + k] + bs[p + k + 1..] == InUse(v);
  }

  lemma KeptTwice(u: World, v: World, w: World)
    requires Kept(u, v) && Kept(v, w)
    ensures Kept(u, w)
  {
    hide Beneath, Recorded, Unaccounted, InUse;
  }

  /** One legal operation keeps the invariant and the books, and no BUG_ON fires in it. */
  lemma DoSound(w: World, op: Op)
    requires Sound(w) && Legal(w, op)
    ensures var (r, v) := Do(w, op);
            !r.Panic? && (!r.Unmodelled? ==> Sound(v) && Kept(w, v))
  {
    hide Sound, Kept, WithinIndex, PickTopDown, AllocateOutOf, Scan, ByteSize, GrownPages, PageRoundUp, MaybeGrow;
    var v := Do(w, op).1;
    if MaybeGrow(w.s).Ready? {
      GrowthSound(w);
      var u := World(MaybeGrow(w.s).s, w.live);
      WidthKept(w.s);
      match op {
        case Alloc(pages) => AllocSound(u, pages);
        case AllocAt(address, pages) => AllocAtSound(u, address, pages);
        case Release(index) => ReleaseSound(w.s, u, index);
      }
      KeptTwice(w, u, v);
    } else if MaybeGrow(w.s).Refused? {
      RefusalSound(w);
      var u := World(MaybeGrow(w.s).s, w.live);
      if op.Release? {
        LoseBlock(u, op.index);
        KeptTwice(w, u, v);
      }
    }
  }

  lemma WidthKept(s: Allocator)
    ensures !MaybeGrow(s).Abandoned? ==> MaybeGrow(s).s.width == s.width
  {}

  lemma AllocSound(u: World, pages: nat)
    requires Sound(u) && u.s.capacity - |u.s.es| >= 4 && SizeAccepted(pages, u.s.width)
    ensures var (o, fs) := NoGrow(u.s.es, pages, u.s.width);
            var v := World(u.s.(es := fs), Taken(u.live, ReplyOf(o), ByteSize(pages, u.s.width)));
            !o.Bug? && Sound(v) && Kept(u, v)
  {
    hide AllHeld, AllocateOutOf, Fits, ByteSize, PickTopDown, SameBeneath, Recorded, Unaccounted;
    var bytes := ByteSize(pages, u.s.width);
    var (o, fs) := NoGrow(u.s.es, pages, u.s.width);
    if o.Ok? {
      var i := TopDownCarves(u.s.es, bytes, NO_LIMIT);
      TakeBlock(u, i, Block(o.address, bytes));
    } else {
      NothingBeneath(u);
    }
  }

  lemma AllocAtSound(u: World, address: nat, pages: nat)
    requires Sound(u) && u.s.capacity - |u.s.es| >= 4 && Legal(u, AllocAt(address, pages))
    ensures var bytes := ByteSize(pages, u.s.width);
            var (o, fs) := AllocateWithin(u.s.es, bytes, address, Wrap(address + bytes));
            var v := World(u.s.(es := fs), Taken(u.live, ReplyOf(o), bytes));
            !o.Bug? && Sound(v) && Kept(u, v)
  {
    hide AllHeld, AllocateOutOf, Fits, WithinIndex, Scan, ByteSize, SameBeneath, Recorded, Unaccounted;
    var bytes := ByteSize(pages, u.s.width);
    var (o, fs) := AllocateWithin(u.s.es, bytes, address, Wrap(address + bytes));
    WindowCheckExact(u.s.es, bytes, address, address + bytes);
    if o.Ok? {
      var i := WithinCarves(u.s.es, bytes, address, address + bytes);
      TakeBlock(u, i, Block(o.address, bytes));
    } else {
      NothingBeneath(u);
    }
  }

  lemma ReleaseSound(s: Allocator, u: World, index: nat)
    requires MaybeGrow(s) == Ready(u.s) && Sound(u) && u.s.capacity - |u.s.es| >= 4 && index < |u.live|
    ensures var (r, t) := BootFree(s, u.live[index]);
            var v := World(t, u.live[..index] + u.live[index + 1..]);
            r.Freed? && Sound(v) && Kept(u, v)
  {
    hide Kept, MaybeGrow, AllocateOutOf;
    var b := u.live[index];
    assert InUse(u)[|u.s.own + u.s.lost| + index] == b;
    HeldBounds(u.s.es, b);
    FreePanicsExactly(s, b);
    ReturnBlock(u, index, Scan(u.s.es, 0, b.addr, false));
  }

  predicate Halted(r: Reply) { r.Panic? || r.Unmodelled? }

  /** Every operation of the run is legal when it is reached. */
  predicate LegalRun(w: World, ops: seq<Op>)
    decreases |ops|
  {
    ops == [] || (Legal(w, ops[0]) && (Halted(Do(w, ops[0]).0) || LegalRun(Do(w, ops[0]).1, ops[1..])))
  }

  /** The replies of a run and the world after it. A run ends early when an operation panics or
      leaves the model. */
  function Execute(w: World, ops: seq<Op>): (seq<Reply>, World)
    requires LegalRun(w, ops)
    decreases |ops|
  {
    if ops == [] then ([], w)
    else
      var (r, v) := Do(w, ops[0]);
      if Halted(r) then ([r], w)
      else
        var (rs, x) := Execute(v, ops[1..]);
        ([r] + rs, x)
  }

  /** Over every legal run from a sound world: no BUG_ON fires, the blocks in use stay pairwise
      disjoint and each inside one allocated entry, no byte is lost, every allocated byte is accounted
      for, and beneath the blocks in use the map stays the same. */
  lemma {:induction false} RunSound(w: World, ops: seq<Op>)
    requires Sound(w) && LegalRun(w, ops)
    ensures var (rs, v) := Execute(w, ops);
            Sound(v) && Kept(w, v) && forall i :: 0 <= i < |rs| ==> !rs[i].Panic?
    decreases |ops|
  {
    hide Sound, Do, Legal;
    if ops == [] || Halted(Do(w, ops[0]).0) { NothingBeneath(w); }
    if ops != [] {
      DoSound(w, ops[0]);
      var (r, v) := Do(w, ops[0]);
      if !Halted(r) {
        RunSound(v, ops[1..]);
        KeptTwice(w, v, Execute(v, ops[1..]).1);
      }
    }
  }
}
