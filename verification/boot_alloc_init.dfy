/** The map the boot allocator starts from: what the bootloader reports, entry by entry. */
module BootAllocInit {
  import opened Options
  import opened MemoryRanges
  import opened RangeSurgery
  import opened BootAllocRuns

  datatype MemoryType = FreeMemory | Reclaimable | KernelBinary | LoaderReclaimable | OtherMemory

  datatype MapEntry = MapEntry(physicalAddress: nat, size: nat, memoryType: MemoryType) {
    predicate Covers(x: int) { physicalAddress <= x < physicalAddress + size }
  }

  function KindOf(t: MemoryType): Option<Kind> {
    match t
    case FreeMemory => Some(Free)
    case Reclaimable | KernelBinary | LoaderReclaimable => Some(Allocated)
    case OtherMemory => None
  }

  /** The entries that are recorded, in order. */
  function Reported(mm: seq<MapEntry>): seq<Range> {
    if mm == [] then []
    else
      var last := mm[|mm| - 1];
      Reported(mm[..|mm| - 1]) +
      match KindOf(last.memoryType)
      case Some(k) => [Range(last.physicalAddress, last.size, k)]
      case None => []
  }

  lemma {:induction false} ReportedPrefix(mm: seq<MapEntry>, n: nat)
    requires n <= |mm| && WellFormed(Reported(mm))
    ensures WellFormed(Reported(mm[..n]))
    decreases |mm| - n
  {
    if n == |mm| {
      assert mm[..n] == mm;
    } else {
      ReportedPrefix(mm, n + 1);
      assert mm[..n + 1][..n] == mm[..n];
      var tail := match KindOf(mm[n].memoryType)
                  case Some(k) => [Range(mm[n].physicalAddress, mm[n].size, k)]
                  case None => [];
      assert Reported(mm[..n + 1]) == Reported(mm[..n]) + tail;
      WellFormedParts(Reported(mm[..n]), tail);
    }
  }

  // ---------------------------------------------------------------------------
  // The report, by types of memory
  // ---------------------------------------------------------------------------

  ghost predicate ReportedFree(mm: seq<MapEntry>, x: int) {
    exists i :: 0 <= i < |mm| && mm[i].Covers(x) && mm[i].memoryType == FreeMemory
  }

  /** Memory that is somebody's: reclaimable, the kernel's or the loader's. */
  ghost predicate ReportedTaken(mm: seq<MapEntry>, x: int) {
    exists i :: 0 <= i < |mm| && mm[i].Covers(x)
                && (mm[i].memoryType == Reclaimable || mm[i].memoryType == KernelBinary
                    || mm[i].memoryType == LoaderReclaimable)
  }

  lemma ReportedByOne(mm: seq<MapEntry>, x: int)
    requires mm != []
    ensures var rest, last := mm[..|mm| - 1], mm[|mm| - 1];
            && (ReportedFree(mm, x) <==> ReportedFree(rest, x) || (last.Covers(x) && last.memoryType == FreeMemory))
            && (ReportedTaken(mm, x) <==>
                ReportedTaken(rest, x)
                || (last.Covers(x) && last.memoryType != FreeMemory && last.memoryType != OtherMemory))
  {
    var rest := mm[..|mm| - 1];
    forall i | 0 <= i < |rest| ensures rest[i] == mm[i] {}
  }

  /** One more entry settles its own addresses. */
  lemma LookupAppended(fs: seq<Range>, r: Range, x: int)
    requires WellFormed(fs + [r])
    ensures WellFormed(fs)
    ensures Lookup(fs + [r], x) == if r.Contains(x) then Some(r.kind) else Lookup(fs, x)
    ensures r.Contains(x) ==> Lookup(fs, x).None?
  {
    WellFormedParts(fs, [r]);
    LookupConcat(fs, [r], x);
    if r.Contains(x) && Lookup(fs, x).Some? {
      LookupBelowLast(fs, x);
      WellFormedConcat(fs, [r]);
    }
  }

  lemma ReportedLast(mm: seq<MapEntry>)
    requires mm != []
    ensures var rest, last := Reported(mm[..|mm| - 1]), mm[|mm| - 1];
            Reported(mm)
            == if last.memoryType == OtherMemory then rest
               else rest + [Range(last.physicalAddress, last.size,
                                  if last.memoryType == FreeMemory then Free else Allocated)]
  {}

  /** What is recorded about an address, by the types of the entries that cover it; nothing for other memory. */
  lemma {:induction false} ReportedLookup(mm: seq<MapEntry>, x: int)
    requires WellFormed(Reported(mm))
    ensures Lookup(Reported(mm), x)
            == if ReportedFree(mm, x) then Some(Free) else if ReportedTaken(mm, x) then Some(Allocated) else None
    ensures !(ReportedFree(mm, x) && ReportedTaken(mm, x))
    decreases |mm|
  {
    if mm == [] { return; }
    hide Reported, Lookup, WellFormed, ReportedFree, ReportedTaken;
    var rest, last := mm[..|mm| - 1], mm[|mm| - 1];
    ReportedLast(mm);
    ReportedByOne(mm, x);
    if last.memoryType != OtherMemory {
      LookupAppended(Reported(rest),
                     Range(last.physicalAddress, last.size, if last.memoryType == FreeMemory then Free else Allocated),
                     x);
    }
    ReportedLookup(rest, x);
  }

  /** gs is fs with n of its entries left out. */
  ghost predicate Dropped(fs: seq<Range>, gs: seq<Range>, n: nat) {
    if fs == [] then gs == [] && n == 0
    else
      var rest := fs[..|fs| - 1];
      || (gs != [] && Last(gs) == Last(fs) && Dropped(rest, gs[..|gs| - 1], n))
      || (n > 0 && Dropped(rest, gs, n - 1))
  }

  lemma {:induction false} DroppedCount(fs: seq<Range>, gs: seq<Range>, n: nat)
    requires Dropped(fs, gs, n)
    ensures |gs| + n == |fs| && (n == 0 ==> gs == fs)
  {
    if fs != [] {
      var rest := fs[..|fs| - 1];
      if gs != [] && Last(gs) == Last(fs) && Dropped(rest, gs[..|gs| - 1], n) {
        DroppedCount(rest, gs[..|gs| - 1], n);
        assert fs == rest + [Last(fs)] && gs == gs[..|gs| - 1] + [Last(gs)];
      } else {
        DroppedCount(rest, gs, n - 1);
      }
    }
  }

  lemma {:induction false} DroppedWellFormed(fs: seq<Range>, gs: seq<Range>, n: nat, r: Range)
    requires Dropped(fs, gs, n) && WellFormed(fs + [r])
    ensures WellFormed(gs + [r])
  {
    if fs != [] {
      var rest, x := fs[..|fs| - 1], Last(fs);
      assert fs == rest + [x];
      WellFormedParts(fs, [r]);
      if gs != [] && Last(gs) == x && Dropped(rest, gs[..|gs| - 1], n) {
        DroppedWellFormed(rest, gs[..|gs| - 1], n, x);
        assert gs == gs[..|gs| - 1] + [x];
        WellFormedConcat(fs, [r]);
        WellFormedConcat(gs, [r]);
      } else {
        WellFormedParts(rest, [x] + [r]);
        SkipOne(rest, x, r);
        DroppedWellFormed(rest, gs, n - 1, r);
      }
    }
  }

  lemma SkipOne(fs: seq<Range>, x: Range, r: Range)
    requires WellFormed(fs + [x] + [r])
    ensures WellFormed(fs + [r])
  {
    var es := fs + [x] + [r];
    forall i | 0 <= i < |fs| + 1 ensures (fs + [r])[i] == es[if i < |fs| then i else i + 1] {}
  }

  lemma {:induction false} DroppedIn(fs: seq<Range>, gs: seq<Range>, n: nat, i: nat)
    requires Dropped(fs, gs, n) && i < |gs|
    ensures gs[i] in fs
  {
    var rest := fs[..|fs| - 1];
    if Last(gs) == Last(fs) && Dropped(rest, gs[..|gs| - 1], n) {
      if i < |gs| - 1 { DroppedIn(rest, gs[..|gs| - 1], n, i); }
    } else {
      DroppedIn(rest, gs, n - 1, i);
    }
  }

  lemma DroppedLookup(fs: seq<Range>, gs: seq<Range>, n: nat, x: int)
    requires Dropped(fs, gs, n) && WellFormed(fs)
    ensures Lookup(gs, x).Some? ==> Lookup(gs, x) == Lookup(fs, x)
  {
    hide Dropped;
    if Lookup(gs, x).Some? {
      var i := LookupWitness(gs, x);
      DroppedIn(fs, gs, n, i);
      var j :| 0 <= j < |fs| && fs[j] == gs[i];
      LookupAt(fs, j, x);
    }
  }

  /** es denotes what was recorded in fs, except that what the allocator took is allocated. */
  ghost predicate Records(es: seq<Range>, fs: seq<Range>, used: seq<Block>) {
    && WellFormed(es) && AllHeld(es, used)
    && (used == [] ==> es == fs)
    && (forall x: int :: Lookup(es, x) == if Covered(used, x) then Some(Allocated) else Lookup(fs, x))
    && (forall x: int :: Covered(used, x) ==> Lookup(fs, x) == Some(Free))
  }

  lemma RecordsGrown(es: seq<Range>, fs: seq<Range>, used: seq<Block>, b: Block, i: nat, a: nat)
    requires Records(es, fs, used) && Fits(es, i, b.As(Allocated)) && a <= |used|
    ensures Records(AllocateOutOf(es, i, b.As(Allocated)), fs, used[..a] + [b] + used[a..])
  {
    hide AllocateOutOf, AllHeld;
    var gs := AllocateOutOf(es, i, b.As(Allocated));
    AllocateOutOfOverwrites(es, i, b.As(Allocated));
    HoldOneMore(es, used, b, i, a);
    var all := used[..a] + [b] + used[a..];
    forall x: int
      ensures Lookup(gs, x) == if Covered(all, x) then Some(Allocated) else Lookup(fs, x)
      ensures Covered(all, x) ==> Lookup(fs, x) == Some(Free)
    {
      CoveredInserted(used, b, a, x);
      if b.As(Allocated).Contains(x) { LookupAt(es, i, x); }
    }
  }

  lemma RecordsAppend(es: seq<Range>, fs: seq<Range>, used: seq<Block>, r: Range)
    requires Records(es, fs, used) && WellFormed(fs + [r])
    ensures Records(es + [r], fs + [r], used)
  {
    WellFormedParts(fs, [r]);
    AppendWellFormed(es, fs, used, r);
    forall x: int
      ensures Lookup(es + [r], x) == if Covered(used, x) then Some(Allocated) else Lookup(fs + [r], x)
      ensures Covered(used, x) ==> Lookup(fs + [r], x) == Some(Free)
    {
      LookupConcat(es, [r], x);
      LookupConcat(fs, [r], x);
    }
    forall i | 0 <= i < |used| ensures Held(es + [r], used[i]) {
      HeldAppend(es, r, used[i]);
    }
  }

  lemma HeldAppend(es: seq<Range>, r: Range, b: Block)
    requires Held(es, b)
    ensures Held(es + [r], b)
  {
    var i :| 0 <= i < |es| && es[i].addr <= b.addr && b.End() <= es[i].End() && es[i].kind == Allocated;
    assert (es + [r])[i] == es[i];
  }

  lemma AppendWellFormed(es: seq<Range>, fs: seq<Range>, used: seq<Block>, r: Range)
    requires Records(es, fs, used) && WellFormed(fs + [r])
    ensures WellFormed(es + [r])
  {
    WellFormedParts(fs, [r]);
    assert [r][0].Valid();
    if es != [] {
      var x := Last(es).End() - 1;
      assert Last(es).Valid();
      LookupAt(es, |es| - 1, x);
      LookupBelowLast(fs, x);
      WellFormedConcat(fs, [r]);
      WellFormedConcat(es, [r]);
    } else {
      assert es + [r] == [r];
    }
  }

  /** The map of an allocator that starts from a report, having taken some blocks for itself: only what was
      reported free is free or taken; all else that is recorded is somebody's. Unless entries were dropped,
      everything reported is there. */
  ghost predicate StartsFrom(es: seq<Range>, mm: seq<MapEntry>, used: seq<Block>, complete: bool) {
    forall x: int ::
      && (Covered(used, x) ==> ReportedFree(mm, x) && Lookup(es, x) == Some(Allocated))
      && (!Covered(used, x) ==>
            || (Lookup(es, x) == Some(Free) && ReportedFree(mm, x))
            || (Lookup(es, x) == Some(Allocated) && ReportedTaken(mm, x))
            || (Lookup(es, x) == None && (complete ==> !ReportedFree(mm, x) && !ReportedTaken(mm, x))))
  }

  lemma RecordsReport(es: seq<Range>, mm: seq<MapEntry>, fs: seq<Range>, used: seq<Block>, n: nat)
    requires WellFormed(Reported(mm)) && Dropped(Reported(mm), fs, n) && Records(es, fs, used)
    ensures StartsFrom(es, mm, used, n == 0)
  {
    hide WellFormed, AllHeld, ReportedFree, ReportedTaken, Reported, Dropped;
    DroppedCount(Reported(mm), fs, n);
    forall x: int
      ensures Covered(used, x) ==> ReportedFree(mm, x) && Lookup(es, x) == Some(Allocated)
      ensures !Covered(used, x) ==>
                || (Lookup(es, x) == Some(Free) && ReportedFree(mm, x))
                || (Lookup(es, x) == Some(Allocated) && ReportedTaken(mm, x))
                || (Lookup(es, x) == None && (n == 0 ==> !ReportedFree(mm, x) && !ReportedTaken(mm, x)))
    {
      ReportedLookup(mm, x);
      DroppedLookup(Reported(mm), fs, n, x);
    }
  }

  lemma EmptyRecords()
    ensures Records([], [], []) && Dropped([], [], 0)
  {
    forall x: int ensures !Covered([], x) {}
  }

  lemma ReportedEven(fs: seq<Range>, r: Range)
    requires WellFormed(fs + [r])
    ensures r.size % 2 == 0
  {
    assert (fs + [r])[|fs|].Valid();
  }

  /** One entry is appended after the buffer may have grown, or dropped because that was refused. */
  lemma AppendStep(s: Allocator, fs: seq<Range>, gs: seq<Range>, r: Range)
    requires Records(s.es, gs, s.own + s.lost) && Dropped(fs, gs, |s.lost|) && WellFormed(fs + [r])
    requires |s.es| < s.capacity && |s.own| <= 1 && Sizable(s)
    ensures MaybeGrow(s).Ready? ==>
              var t := MaybeGrow(s).s;
              && Records(t.es + [r], gs + [r], t.own + t.lost) && |t.own| <= 1
              && Dropped(fs + [r], gs + [r], |t.lost|)
    ensures MaybeGrow(s).Refused? ==>
              var t := MaybeGrow(s).s;
              Records(t.es, gs, t.own + t.lost) && t.own == s.own && Dropped(fs + [r], gs, |t.lost|)
  {
    hide WellFormed, AllHeld, Fits, AllocateOutOf, Records, MaybeGrow;
    DroppedWellFormed(fs, gs, |s.lost|, r);
    assert (gs + [r])[..|gs|] == gs && (fs + [r])[..|fs|] == fs;
    if MaybeGrow(s).Ready? {
      var t := MaybeGrow(s).s;
      if t != s { GrownRecords(s, gs); }
      RecordsAppend(t.es, gs, t.own + t.lost, r);
    } else if MaybeGrow(s).Refused? {
      RefusedRecords(s, gs);
    }
  }

  lemma GrownRecords(s: Allocator, gs: seq<Range>)
    requires Records(s.es, gs, s.own + s.lost) && |s.es| < s.capacity && |s.own| <= 1 && Sizable(s)
    requires MaybeGrow(s).Ready? && MaybeGrow(s).s != s
    ensures var t := MaybeGrow(s).s;
            Records(t.es, gs, t.own + t.lost) && |t.own| == 1 && t.lost == s.lost
  {
    hide AllHeld, Fits, AllocateOutOf, WellFormed;
    var t := MaybeGrow(s).s;
    var i := FirstGrowth(s);
    var used := s.own + s.lost;
    RecordsGrown(s.es, gs, used, t.own[0], i, 0);
    assert used[..0] + [t.own[0]] + used[0..] == t.own + t.lost;
  }

  lemma RefusedRecords(s: Allocator, gs: seq<Range>)
    requires Records(s.es, gs, s.own + s.lost) && |s.es| < s.capacity && MaybeGrow(s).Refused?
    ensures var t := MaybeGrow(s).s;
            Records(t.es, gs, t.own + t.lost) && t.own == s.own && |t.lost| == |s.lost| + 1
  {
    hide AllHeld, Fits, AllocateOutOf, WellFormed;
    var t := MaybeGrow(s).s;
    var i, b := RefusedGrowth(s);
    var used := s.own + s.lost;
    RecordsGrown(s.es, gs, used, b, i, |used|);
    assert used[..|used|] + [b] + used[|used|..] == t.own + t.lost;
  }

  lemma RecordsSound(s: Allocator, fs: seq<Range>)
    requires Records(s.es, fs, s.own + s.lost) && |s.es| < s.capacity && |s.own| <= 1 && Sizable(s)
    ensures Sound(World(s, [])) && WellFormed(s.es)
  {
    assert s.own + s.lost + [] == s.own + s.lost;
  }
}
