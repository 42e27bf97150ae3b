/** What whole runs of the boot allocator come to when no two entries could be merged: optimal replies, and
    the same entries again once everything has been given back. */
module BootAllocHistory {
  import opened Errors
  import opened Options
  import opened MemoryRanges
  import opened RangeSurgery
  import opened BootAllocSpec
  import opened BootAllocRuns

  // ---------------------------------------------------------------------------
  // Canonical maps
  // ---------------------------------------------------------------------------

  lemma GrowthCanonical(w: World)
    requires Sound(w) && Canonical(w.s.es) && !MaybeGrow(w.s).Abandoned?
    ensures Canonical(MaybeGrow(w.s).s.es)
  {
    hide AllHeld, AllocateOutOf, Fits;
    var t := MaybeGrow(w.s).s;
    if MaybeGrow(w.s).Refused? {
      var i, b := RefusedGrowth(w.s);
      CanonicalKept(w.s.es, i, b.As(Allocated));
    } else if t != w.s {
      var i := FirstGrowth(w.s);
      CanonicalKept(w.s.es, i, t.own[0].As(Allocated));
    }
  }

  lemma AllocCanonical(es: seq<Range>, pages: nat, width: Width)
    requires Canonical(es)
    ensures Canonical(NoGrow(es, pages, width).1)
  {
    hide AllocateOutOf, Fits;
    var bytes := ByteSize(pages, width);
    var (o, fs) := NoGrow(es, pages, width);
    if o.Ok? {
      var i := TopDownCarves(es, bytes, NO_LIMIT);
      CanonicalKept(es, i, Range(o.address, bytes, Allocated));
    }
  }

  lemma AllocAtCanonical(es: seq<Range>, address: nat, bytes: nat)
    requires Canonical(es) && bytes > 0 && bytes % 2 == 0 && address % 2 == 0 && address + bytes < ADDRESS_LIMIT
    ensures Canonical(AllocateWithin(es, bytes, address, address + bytes).1)
  {
    hide AllocateOutOf, Fits;
    var (o, fs) := AllocateWithin(es, bytes, address, address + bytes);
    if o.Ok? {
      var i := WithinCarves(es, bytes, address, address + bytes);
      CanonicalKept(es, i, Range(o.address, bytes, Allocated));
    }
  }

  lemma ReleaseCanonical(es: seq<Range>, bs: seq<Block>, k: nat, i: nat)
    requires Canonical(es) && AllHeld(es, bs) && k < |bs| && i < |es|
    requires es[i].addr <= bs[k].addr && bs[k].End() <= es[i].End() && es[i].kind == Allocated
    ensures Canonical(AllocateOutOf(es, i, bs[k].As(Free)))
  {
    hide AllocateOutOf;
    HeldBounds(es, bs[k]);
    CanonicalKept(es, i, bs[k].As(Free));
  }

  /** Every operation keeps a canonical map canonical. */
  lemma DoCanonical(w: World, op: Op)
    requires Sound(w) && Canonical(w.s.es) && Legal(w, op)
    ensures Canonical(Do(w, op).1.s.es)
  {
    hide Canonical, AllHeld, AllocateWithin, AllocateOutOf, Scan, ByteSize, PickTopDown, MaybeGrow;
    if !MaybeGrow(w.s).Abandoned? { GrowthCanonical(w); }
    if MaybeGrow(w.s).Ready? {
      GrowthSound(w);
      WidthKept(w.s);
      var t := MaybeGrow(w.s).s;
      match op
      case Alloc(pages) => AllocCanonical(t.es, pages, t.width);
      case AllocAt(address, pages) => AllocAtCanonical(t.es, address, ByteSize(pages, t.width));
      case Release(index) => FreeCanonical(w, index);
    }
  }

  lemma FreeCanonical(w: World, index: nat)
    requires MaybeGrow(w.s).Ready? && Sound(World(MaybeGrow(w.s).s, w.live)) && Canonical(MaybeGrow(w.s).s.es)
    requires index < |w.live|
    ensures Canonical(BootFree(w.s, w.live[index]).1.es)
  {
    hide Canonical, AllHeld, AllocateOutOf, Scan, MaybeGrow;
    var t := MaybeGrow(w.s).s;
    var bs := InUse(World(t, w.live));
    var a := |t.own + t.lost| + index;
    assert bs[a] == w.live[index];
    var i := Scan(t.es, 0, w.live[index].addr, false);
    if BootFree(w.s, w.live[index]).0.Freed? { ReleaseCanonical(t.es, bs, a, i); }
  }

  // ---------------------------------------------------------------------------
  // Allocating and freeing
  // ---------------------------------------------------------------------------

  /** The entry that an allocation carves its block out of. */
  lemma AllocationCarves(w: World, op: Op) returns (i: nat, b: Block)
    requires WellFormed(w.s.es) && Legal(w, op) && !op.Release?
    requires MaybeGrow(w.s) == Ready(w.s) && Do(w, op).0.Got?
    ensures Fits(w.s.es, i, b.As(Allocated))
    ensures Do(w, op).1 == World(w.s.(es := AllocateOutOf(w.s.es, i, b.As(Allocated))), w.live + [b])
  {
    hide AllocateOutOf, MaybeGrow, Fits, PickTopDown, WithinIndex, ByteSize;
    b := Block(Do(w, op).0.address, ByteSize(op.pages, w.s.width));
    if op.Alloc? {
      i := TopDownCarves(w.s.es, b.bytes, NO_LIMIT);
    } else {
      i := WithinCarves(w.s.es, b.bytes, op.address, op.address + b.bytes);
    }
  }

  /** A successful allocation, of either sort, followed by freeing the same block restores the entries
      exactly, unless the buffer has to grow first. */
  lemma AllocThenFree(w: World, op: Op)
    requires Sound(w) && Canonical(w.s.es) && Legal(w, op) && !op.Release?
    requires MaybeGrow(w.s) == Ready(w.s) && Do(w, op).0.Got?
    requires MaybeGrow(Do(w, op).1.s) == Ready(Do(w, op).1.s)
    ensures Do(Do(w, op).1, Release(|w.live|)) == (Freed, w)
  {
    hide AllocateOutOf, AllHeld, Canonical, AllocateWithin, PickTopDown, MaybeGrow, ByteSize, Scan;
    DoSound(w, op);
    var i, b := AllocationCarves(w, op);
    var v := Do(w, op).1;
    GrowthSound(v);
    ReleaseSound(v.s, v, |w.live|);
    var j := Scan(v.s.es, 0, b.addr, false);
    assert v.live[|w.live|] == b;
    CarveAndGiveBack(w.s.es, i, b.As(Allocated), j);
    assert AllocateOutOf(v.s.es, j, b.As(Free)) == w.s.es;
    assert v.live[..|w.live|] + v.live[|w.live| + 1..] == w.live;
  }

  /** What is in use is allocated. */
  lemma CoveredAllocated(w: World, x: int)
    requires Sound(w) && Covered(InUse(w), x)
    ensures Lookup(w.s.es, x) == Some(Allocated)
  {
    var bs := InUse(w);
    var k :| 0 <= k < |bs| && bs[k].addr <= x < bs[k].End();
    assert Held(w.s.es, bs[k]);
    InOneEntryIsRun(w.s.es, bs[k].addr, bs[k].End(), Allocated);
  }

  /** The map after any legal run, growth and refused growth included: allocated where something is in use,
      free where something was in use at first and no longer is, and as it was everywhere else. */
  lemma RunMap(w: World, ops: seq<Op>, x: int)
    requires Sound(w) && LegalRun(w, ops)
    ensures var v := Execute(w, ops).1;
            Lookup(v.s.es, x)
            == if Covered(InUse(v), x) then Some(Allocated)
               else if Covered(InUse(w), x) then Some(Free)
               else Lookup(w.s.es, x)
  {
    hide InUse, Covered, Lookup;
    RunSound(w, ops);
    var v := Execute(w, ops).1;
    if Covered(InUse(v), x) { CoveredAllocated(v, x); }
    assert Beneath(w.s.es, InUse(w), x) == Beneath(v.s.es, InUse(v), x);
  }

  /** A run that ends with the same blocks in use as it began with, in whatever order they were taken and
      given back, ends with the same entries. */
  lemma RunRestores(w: World, ops: seq<Op>)
    requires Sound(w) && Canonical(w.s.es) && LegalRun(w, ops)
    requires multiset(InUse(Execute(w, ops).1)) == multiset(InUse(w))
    ensures Execute(w, ops).1.s.es == w.s.es
  {
    hide InUse, Canonical, Sound, LegalRun, Execute;
    var v := Execute(w, ops).1;
    forall x: int ensures Lookup(v.s.es, x) == Lookup(w.s.es, x) {
      RunMap(w, ops, x);
      SameCover(InUse(v), InUse(w), x);
      if Covered(InUse(w), x) { CoveredAllocated(w, x); }
    }
    RunBest(w, ops);
    CanonicalUnique(v.s.es, w.s.es);
  }

  lemma SameCover(bs: seq<Block>, cs: seq<Block>, x: int)
    requires multiset(bs) == multiset(cs)
    ensures Covered(bs, x) <==> Covered(cs, x)
  {
    CoverWithin(bs, cs, x);
    CoverWithin(cs, bs, x);
  }

  lemma CoverWithin(bs: seq<Block>, cs: seq<Block>, x: int)
    requires multiset(bs) == multiset(cs)
    ensures Covered(bs, x) ==> Covered(cs, x)
  {
    if Covered(bs, x) {
      var i :| 0 <= i < |bs| && bs[i].addr <= x < bs[i].End();
      assert bs[i] in multiset(cs);
      assert bs[i] in cs;
    }
  }

  // ---------------------------------------------------------------------------
  // Runs are optimal
  // ---------------------------------------------------------------------------

  /** The reply is the best one for the map that the operation meets, after any growth: the highest
      address at which the request fits, the very address that was asked for, or out of memory exactly
      when there is none. After a growth that was refused there is no memory for anyone. */
  ghost predicate BestReply(w: World, op: Op, r: Reply) {
    match MaybeGrow(w.s)
    case Ready(t) =>
      (match op
       case Alloc(pages) => BestWithin(t.es, r, ByteSize(pages, t.width), 0, NO_LIMIT, true)
       case AllocAt(address, pages) =>
         var bytes := ByteSize(pages, t.width);
         BestWithin(t.es, r, bytes, address, address + bytes, false)
       case Release(_) => r == Freed)
    case Refused(_) => r == if op.Release? then Leaked else OutOfMemory
    case Abandoned => r == Unmodelled
  }

  ghost predicate BestWithin(es: seq<Range>, r: Reply, bytes: nat, lower: nat, upper: nat, highest: bool) {
    match r
    case Got(a) =>
      Placeable(es, a, bytes, lower, upper)
      && forall b :: Placeable(es, b, bytes, lower, upper) ==> if highest then b <= a else a <= b
    case OutOfMemory => forall b :: !Placeable(es, b, bytes, lower, upper)
    case _ => false
  }

  lemma DoBest(w: World, op: Op)
    requires Sound(w) && Canonical(w.s.es) && Legal(w, op)
    ensures BestReply(w, op, Do(w, op).0)
  {
    hide Canonical, AllHeld, AllocateWithin, AllocateTopDown, AllocateOutOf, Scan, ByteSize, MaybeGrow, Placeable;
    if MaybeGrow(w.s).Ready? {
      GrowthSound(w);
      GrowthCanonical(w);
      WidthKept(w.s);
      var t := MaybeGrow(w.s).s;
      match op
      case Alloc(pages) =>
        TopDownOptimal(t.es, ByteSize(pages, t.width), NO_LIMIT);
      case AllocAt(address, pages) =>
        WithinOptimal(t.es, ByteSize(pages, t.width), address, address + ByteSize(pages, t.width));
      case Release(index) =>
        ReleaseSound(w.s, World(t, w.live), index);
    }
  }

  /** Every operation of the run gets the best reply. */
  ghost predicate BestRun(w: World, ops: seq<Op>)
    requires LegalRun(w, ops)
    decreases |ops|
  {
    ops != [] ==>
      var r := Do(w, ops[0]).0;
      BestReply(w, ops[0], r) && (!Halted(r) ==> BestRun(Do(w, ops[0]).1, ops[1..]))
  }

  /** Over every legal run from a sound world without mergeable neighbours there are never any, and
      every allocation is optimal and complete in the state it meets. */
  lemma {:induction false} RunBest(w: World, ops: seq<Op>)
    requires Sound(w) && Canonical(w.s.es) && LegalRun(w, ops)
    ensures Canonical(Execute(w, ops).1.s.es) && BestRun(w, ops)
    decreases |ops|
  {
    hide Canonical, Sound, BestReply, Do, Legal, Kept;
    if ops != [] {
      DoSound(w, ops[0]);
      DoCanonical(w, ops[0]);
      DoBest(w, ops[0]);
      if !Halted(Do(w, ops[0]).0) { RunBest(Do(w, ops[0]).1, ops[1..]); }
    }
  }

  // ---------------------------------------------------------------------------
  // Address 0
  // ---------------------------------------------------------------------------

  // ---------------------------------------------------------------------------
  // Room
  // ---------------------------------------------------------------------------

  /** The buffer stays as it is exactly while four entries are left in the initial one, or six in another. */
  lemma GrowsExactly(s: Allocator)
    ensures MaybeGrow(s) == Ready(s) <==> s.capacity - |s.es| >= if s.own == [] then 4 else 6
  {
    hide NoGrow, GrownPages, ByteSize, PageRoundUp;
  }

  /** The whole stretch is free. */
  ghost predicate FreeAt(es: seq<Range>, a: nat, bytes: nat) {
    forall x: int :: a <= x < a + bytes ==> Lookup(es, x) == Some(Free)
  }

  /** Any stretch of free memory is a placement: nothing recorded lies beyond the last address. */
  lemma FreeIsPlaceable(es: seq<Range>, a: nat, bytes: nat, lower: nat, upper: nat)
    requires WellFormed(es) && bytes > 0 && lower <= a && (a + bytes <= upper || upper == 0xFFFF_FFFF_FFFF_FFFF)
    ensures Placeable(es, a, bytes, lower, upper) <==> FreeAt(es, a, bytes)
  {
    if FreeAt(es, a, bytes) {
      var j := LookupWitness(es, a + bytes - 1);
      assert es[j].Valid();
    }
  }

  lemma HighestFree(es: seq<Range>, r: Reply, bytes: nat)
    requires WellFormed(es) && bytes > 0 && BestWithin(es, r, bytes, 0, NO_LIMIT, true)
    ensures match r
            case Got(a) => FreeAt(es, a, bytes) && forall b: nat :: FreeAt(es, b, bytes) ==> b <= a
            case _ => r == OutOfMemory && forall b: nat :: !FreeAt(es, b, bytes)
  {
    hide Placeable, FreeAt, WellFormed;
    forall b: nat ensures Placeable(es, b, bytes, 0, NO_LIMIT) <==> FreeAt(es, b, bytes) {
      FreeIsPlaceable(es, b, bytes, 0, NO_LIMIT);
    }
  }

  lemma FixedFree(es: seq<Range>, r: Reply, address: nat, bytes: nat)
    requires WellFormed(es) && bytes > 0 && BestWithin(es, r, bytes, address, address + bytes, false)
    ensures r == if FreeAt(es, address, bytes) then Got(address) else OutOfMemory
  {
    FreeIsPlaceable(es, address, bytes, address, address + bytes);
    hide Run, FreeAt, WellFormed;
  }

  /** With room in the buffer, an operation takes nothing for the allocator itself, and is answered from the map
      as it is: the highest free stretch of the size, the very address asked for, or none. */
  lemma RoomyBest(w: World, op: Op)
    requires Sound(w) && Canonical(w.s.es) && Legal(w, op)
    requires w.s.capacity - |w.s.es| >= if w.s.own == [] then 4 else 6
    ensures var (r, v) := Do(w, op);
            var es := w.s.es;
            && v.s == w.s.(es := v.s.es)
            && match op
               case Release(_) => r == Freed
               case Alloc(pages) =>
                 var bytes := ByteSize(pages, w.s.width);
                 (match r
                  case Got(a) => FreeAt(es, a, bytes) && forall b: nat :: FreeAt(es, b, bytes) ==> b <= a
                  case _ => r == OutOfMemory && forall b: nat :: !FreeAt(es, b, bytes))
               case AllocAt(address, pages) =>
                 r == if FreeAt(es, address, ByteSize(pages, w.s.width)) then Got(address) else OutOfMemory
  {
    hide Canonical, AllHeld, AllocateWithin, NoGrow, AllocateOutOf, Scan, ByteSize, MaybeGrow, FreeAt, BestWithin;
    GrowsExactly(w.s);
    DoBest(w, op);
    var r := Do(w, op).0;
    match op
    case Alloc(pages) => HighestFree(w.s.es, r, ByteSize(pages, w.s.width));
    case AllocAt(address, pages) => FixedFree(w.s.es, r, address, ByteSize(pages, w.s.width));
    case Release(_) =>
  }

  /** When the buffer has to grow: it is taken for a failure exactly if the highest placement for the new one is
      address 0, and it leaves the model exactly if there is none, or one above 0 for a second growth. */
  lemma GrowthExactly(s: Allocator)
    requires Canonical(s.es) && 0 < s.capacity && s.capacity * 32 + PAGE_SIZE < SizeLimit(s.width)
    ensures var bytes := PageRoundUp(s.capacity * 2 * ENTRY_SIZE);
            var full := s.capacity - |s.es| < if s.own == [] then 4 else 6;
            var above := exists a: nat :: a > 0 && Placeable(s.es, a, bytes, 0, NO_LIMIT);
            && (MaybeGrow(s).Refused? <==> full && Placeable(s.es, 0, bytes, 0, NO_LIMIT) && !above)
            && (MaybeGrow(s).Abandoned? <==>
                full && (if s.own == [] then !above && !Placeable(s.es, 0, bytes, 0, NO_LIMIT)
                         else above || !Placeable(s.es, 0, bytes, 0, NO_LIMIT)))
  {
    hide Canonical, AllocateTopDown, PageRoundUp, ByteSize, Run;
    GrownSize(s.capacity, s.width);
    TopDownOptimal(s.es, PageRoundUp(s.capacity * 2 * ENTRY_SIZE), NO_LIMIT);
  }

  /** Two free pages at address 0, and n single free pages apart from each other. */
  function Scattered(n: nat): (es: seq<Range>)
    ensures |es| == n + 1
  {
    if n == 0 then [Range(0, 2 * PAGE_SIZE, Free)] else Scattered(n - 1) + [Range(0x1_0000 * n, PAGE_SIZE, Free)]
  }

  lemma {:induction false} ScatteredAt(n: nat, k: nat)
    requires k <= n
    ensures Scattered(n)[k] == if k == 0 then Range(0, 2 * PAGE_SIZE, Free) else Range(0x1_0000 * k, PAGE_SIZE, Free)
  {
    if k < n { ScatteredAt(n - 1, k); }
  }

  lemma ScatteredCanonical(n: nat)
    requires n < 255
    ensures Canonical(Scattered(n))
  {
    var es := Scattered(n);
    forall k | 0 <= k < |es| ensures es[k].Valid() { ScatteredAt(n, k); }
    forall j, k | 0 <= j < k < |es| ensures es[j].End() < es[k].addr {
      ScatteredAt(n, j);
      ScatteredAt(n, k);
    }
    hide Scattered;
  }

  lemma {:induction false} ScatteredPick(n: nat, k: nat)
    requires 0 < k <= n + 1 && n < 255
    ensures PickTopDown(Scattered(n), k, 2 * PAGE_SIZE, NO_LIMIT) == 0
  {
    ScatteredAt(n, k - 1);
    hide Scattered;
    if k > 1 { ScatteredPick(n, k - 1); } else { assert PickTopDown(Scattered(n), 0, 2 * PAGE_SIZE, NO_LIMIT) == -1; }
  }

  /** With 252 to 254 such pages the allocator is about to outgrow its initial buffer. Nothing is in use. */
  function ScatteredWorld(n: nat, width: Width): World {
    World(Allocator(Scattered(n), 256, [], [], width), [])
  }

  /** A growth whose new buffer takes the entry at address 0. */
  lemma RefusedAtZero(s: Allocator, bytes: nat)
    requires s.es != [] && s.es[0] == Range(0, bytes, Free) && 0 < bytes <= NO_LIMIT
    requires s.capacity - |s.es| < 4 && 0 < s.capacity && s.capacity * 32 + PAGE_SIZE < SizeLimit(s.width)
    requires PageRoundUp(s.capacity * 2 * ENTRY_SIZE) == bytes && PickTopDown(s.es, |s.es|, bytes, NO_LIMIT) == 0
    ensures MaybeGrow(s).Refused? && MaybeGrow(s).s.lost == s.lost + [Block(0, bytes)]
  {
    hide AllocateOutOf, PickTopDown, PageRoundUp, ByteSize;
    GrownSize(s.capacity, s.width);
  }

  lemma CanonicalSound(w: World)
    requires Canonical(w.s.es) && |w.s.es| < w.s.capacity && InUse(w) == [] && Sizable(w.s)
    ensures Sound(w)
  {}

  lemma TwoPages(n: nat)
    requires n == 256
    ensures PageRoundUp(n * 2 * ENTRY_SIZE) == 2 * PAGE_SIZE
  {}

  lemma ScatteredRefused(n: nat, width: Width)
    requires 252 <= n < 255
    ensures var w := ScatteredWorld(n, width);
            Sound(w) && Canonical(w.s.es)
            && MaybeGrow(w.s).Refused? && MaybeGrow(w.s).s.lost == [Block(0, 2 * PAGE_SIZE)]
  {
    hide Scattered, PickTopDown, AllocateOutOf, MaybeGrow, ByteSize, PageRoundUp, Canonical, Sound;
    var w := ScatteredWorld(n, width);
    ScatteredCanonical(n);
    CanonicalSound(w);
    ScatteredPick(n, n + 1);
    ScatteredAt(n, 0);
    TwoPages(w.s.capacity);
    RefusedAtZero(w.s, 2 * PAGE_SIZE);
  }

  /** Each of the single pages, numbered from 1, could be handed out. */
  ghost predicate PagesFree(es: seq<Range>, n: nat) {
    forall k :: 1 <= k <= n ==> Placeable(es, 0x1_0000 * k, PAGE_SIZE, 0, NO_LIMIT)
  }

  lemma ScatteredFree(n: nat)
    requires n < 255
    ensures PagesFree(Scattered(n), n)
  {
    hide Scattered, Placeable;
    ScatteredCanonical(n);
    forall k | 1 <= k <= n ensures Placeable(Scattered(n), 0x1_0000 * k, PAGE_SIZE, 0, NO_LIMIT) {
      ScatteredAt(n, k);
      RoomIsPlacement(Scattered(n), k, 0x1_0000 * k, PAGE_SIZE, 0, NO_LIMIT);
    }
  }

  /** Nothing changes away from the block taken. */
  lemma StillFree(es: seq<Range>, fs: seq<Range>, b: Block, n: nat)
    requires Overwrites(es, fs, b.As(Allocated)) && b == Block(0, 2 * PAGE_SIZE) && PagesFree(es, n)
    ensures PagesFree(fs, n)
  {
    forall k | 1 <= k <= n ensures Placeable(fs, 0x1_0000 * k, PAGE_SIZE, 0, NO_LIMIT) {
      var lo := 0x1_0000 * k;
      assert Placeable(es, lo, PAGE_SIZE, 0, NO_LIMIT);
      forall x | lo <= x < lo + PAGE_SIZE ensures Lookup(fs, x) == Some(Free) {
        assert Lookup(es, x) == Some(Free);
      }
    }
  }

  lemma RefusedReply(n: nat, width: Width)
    requires 252 <= n < 255
    ensures var w := ScatteredWorld(n, width);
            && Legal(w, Alloc(1)) && MaybeGrow(w.s).Refused?
            && Do(w, Alloc(1)) == (OutOfMemory, World(MaybeGrow(w.s).s, []))
  {
    hide Scattered, MaybeGrow;
    ScatteredRefused(n, width);
  }

  /** A request for one page is answered with out of memory, although n pages are free before and after, and
      two pages are lost for good. */
  lemma GrowthAtZeroFails(n: nat, width: Width)
    requires 252 <= n < 255
    ensures var w := ScatteredWorld(n, width);
            && Sound(w) && Canonical(w.s.es) && PagesFree(w.s.es, n) && Legal(w, Alloc(1))
            && var (r, v) := Do(w, Alloc(1));
               r == OutOfMemory && PagesFree(v.s.es, n) && v.s.lost == [Block(0, 2 * PAGE_SIZE)]
  {
    hide Scattered, MaybeGrow, PagesFree, AllocateOutOf, Do, Legal, Canonical;
    var w := ScatteredWorld(n, width);
    ScatteredRefused(n, width);
    ScatteredFree(n);
    RefusedReply(n, width);
    var i, b := RefusedGrowth(w.s);
    assert MaybeGrow(w.s).s.lost[0] == b;
    AllocateOutOfOverwrites(w.s.es, i, b.As(Allocated));
    StillFree(w.s.es, MaybeGrow(w.s).s.es, b, n);
  }

  /** A reply as the address that is returned, with errors as small numbers. */
  function ReplyWord(r: Reply): nat
    requires r.Got? || r.OutOfMemory?
  {
    if r.Got? then r.address else ENOMEM
  }

  predicate ReadsAsError(address: nat) { address <= MAX_ERRNO }

  lemma HighestRead(es: seq<Range>, r: Reply, bytes: nat)
    requires WellFormed(es) && bytes > 0 && BestWithin(es, r, bytes, 0, NO_LIMIT, true)
    ensures r.Got? || r.OutOfMemory?
    ensures ReadsAsError(ReplyWord(r)) <==> forall a: nat :: FreeAt(es, a, bytes) ==> a < 0x1000
  {
    HighestFree(es, r, bytes);
    hide FreeAt, BestWithin;
  }

  lemma FixedRead(es: seq<Range>, r: Reply, address: nat, bytes: nat)
    requires WellFormed(es) && bytes > 0 && BestWithin(es, r, bytes, address, address + bytes, false)
    ensures r.Got? || r.OutOfMemory?
    ensures ReadsAsError(ReplyWord(r)) <==> (FreeAt(es, address, bytes) ==> address < 0x1000)
  {
    FixedFree(es, r, address, bytes);
    hide FreeAt, BestWithin;
  }

  /** The caller takes a reply for an error exactly if all that could be handed out reads as one: no memory, or
      only memory below 4096. Out of memory is the number 49. */
  lemma ErrorsToldApart(w: World, op: Op)
    requires Sound(w) && Canonical(w.s.es) && Legal(w, op) && !op.Release? && MaybeGrow(w.s).Ready?
    ensures var r := Do(w, op).0;
            var es, bytes := MaybeGrow(w.s).s.es, ByteSize(op.pages, w.s.width);
            && (r.Got? || (r.OutOfMemory? && ReplyWord(r) == 49))
            && (ReadsAsError(ReplyWord(r)) <==>
                if op.Alloc? then forall a: nat :: FreeAt(es, a, bytes) ==> a < 0x1000
                else FreeAt(es, op.address, bytes) ==> op.address < 0x1000)
  {
    hide Do, MaybeGrow, BestWithin, ByteSize, Canonical, ReadsAsError, FreeAt, AllHeld;
    DoBest(w, op);
    WidthKept(w.s);
    GrowthSound(w);
    var r, es, bytes := Do(w, op).0, MaybeGrow(w.s).s.es, ByteSize(op.pages, w.s.width);
    if op.Alloc? { HighestRead(es, r, bytes); } else { FixedRead(es, r, op.address, bytes); }
  }
}
