/** The boot allocator itself: packed entries in an array that is edited in place. */
module BootAlloc {
  import opened Options
  import opened MemoryRanges
  import opened RangeSurgery
  import Spec = BootAllocSpec
  import Runs = BootAllocRuns
  import opened BootAllocInit

  // ---------------------------------------------------------------------------
  // Packed entries
  // ---------------------------------------------------------------------------

  /** An entry as stored: the lowest bit of the size word is set for allocated memory. */
  datatype MemoryRange = MemoryRange(physicalAddress: nat, sizeAndType: nat) {
    function Kind(): Kind { if sizeAndType % 2 == 0 then Free else Allocated }
    function Size(): nat { sizeAndType - sizeAndType % 2 }
    function End(): nat { Spec.Wrap(physicalAddress + Size()) }
    function Unpack(): Range { Range(physicalAddress, Size(), Kind()) }
  }

  /** The bitwise or of a size and a kind. */
  function Encode(size: nat, kind: Kind): nat {
    if kind == Allocated && size % 2 == 0 then size + 1 else size
  }

  /** Packing loses nothing exactly for even sizes. */
  lemma EncodeKeeps(addr: nat, size: nat, kind: Kind)
    ensures MemoryRange(addr, Encode(size, kind)).Unpack() == Range(addr, size, kind) <==> size % 2 == 0
    ensures size % 2 == 0 ==>
              && Range(addr, size, Free) == MemoryRange(addr, size).Unpack()
              && Range(addr, size, Allocated) == MemoryRange(addr, size + 1).Unpack()
  {}

  ghost function UnpackAll(ps: seq<MemoryRange>): (es: seq<Range>)
    ensures |es| == |ps| && forall i :: 0 <= i < |ps| ==> es[i] == ps[i].Unpack()
  {
    seq(|ps|, i requires 0 <= i < |ps| => ps[i].Unpack())
  }

  predicate CanMerge(lhs: MemoryRange, rhs: MemoryRange) {
    lhs.Kind() == rhs.Kind() && lhs.End() == rhs.physicalAddress
  }

  /** merge_ranges: src joins dst, at the front if it lies below. */
  function Merged(dst: MemoryRange, src: MemoryRange): MemoryRange {
    MemoryRange(if dst.physicalAddress > src.physicalAddress then src.physicalAddress else dst.physicalAddress,
                Spec.Wrap(dst.sizeAndType + src.Size()))
  }

  /** A size added to a size word changes the size and keeps the kind. */
  lemma WordPlusSize(w: nat, size: nat)
    requires size % 2 == 0 && w + size < ADDRESS_LIMIT
    ensures Spec.Wrap(w + size) == w + size && (w + size) % 2 == w % 2
  {}

  lemma MergedMeaning(a: MemoryRange, b: MemoryRange)
    requires a.Unpack().Valid() && b.Unpack().Valid() && Touching(a.Unpack(), b.Unpack())
    ensures Merged(a, b).Unpack() == Merge(a.Unpack(), b.Unpack())
    ensures Merged(b, a).Unpack() == Merge(a.Unpack(), b.Unpack())
    ensures Merged(a, b).Unpack().Valid()
  {
    WordPlusSize(a.sizeAndType, b.Size());
    WordPlusSize(b.sizeAndType, a.Size());
    hide Spec.Wrap;
    assert Merged(a, b).Kind() == a.Kind() && Merged(b, a).Kind() == b.Kind();
  }

  lemma EndMeaning(a: MemoryRange)
    requires a.Unpack().Valid()
    ensures a.End() == a.Unpack().End()
  {}

  class BootAllocator {
    const initial: array<MemoryRange>
    var buffer: array<MemoryRange>
    var capacity: nat
    var count: nat
    /** The pages of the buffer, once it is no longer the initial one. */
    ghost var own: seq<Runs.Block>
    /** What stays allocated although nobody will give it back. */
    ghost var lost: seq<Runs.Block>
    /** The number of bits of a size_t. */
    const sizeBits: Runs.Width

    constructor (sizeBits: Runs.Width)
      ensures Valid() && Entries() == [] && own == [] && lost == [] && capacity == 256 && this.sizeBits == sizeBits
    {
      this.sizeBits := sizeBits;
      initial := new MemoryRange[256];
      new;
      buffer, capacity, count, own, lost := initial, 256, 0, [], [];
    }

    ghost predicate Fitting()
      reads this
    {
      count <= capacity <= buffer.Length
    }

    ghost function Entries(): seq<Range>
      requires Fitting()
      reads this, buffer
    {
      UnpackAll(buffer[..count])
    }

    ghost function State(): Runs.Allocator
      requires Fitting()
      reads this, buffer
    {
      Runs.Allocator(Entries(), capacity, own, lost, sizeBits)
    }

    ghost predicate Roomy()
      reads this, buffer
    {
      && Fitting() && count < capacity
      && (own == [] <==> buffer == initial) && |own| <= 1
      && Runs.Sizable(State())
    }

    ghost predicate Valid()
      reads this, buffer
    {
      Roomy() && WellFormed(Entries())
    }

    // -------------------------------------------------------------------------
    // Array surgery
    // -------------------------------------------------------------------------

    /** memmove within the buffer. */
    method MoveEntries(dst: nat, src: nat, n: nat)
      requires dst + n <= buffer.Length && src + n <= buffer.Length
      modifies buffer
      ensures buffer[dst..dst + n] == old(buffer[src..src + n])
      ensures buffer[..dst] == old(buffer[..dst]) && buffer[dst + n..] == old(buffer[dst + n..])
    {
      forall i | 0 <= i < n { buffer[dst + i] := buffer[src + i]; }
    }

    method RangeInsert(mr: MemoryRange, idx: nat, n: nat)
      requires idx <= n < buffer.Length
      modifies buffer
      ensures buffer[..n + 1] == old(buffer[..idx]) + [mr] + old(buffer[idx..n])
    {
      if idx != n { MoveEntries(idx + 1, idx, n - idx); }
      buffer[idx] := mr;
      assert idx != n ==> buffer[idx + 1..n + 1] == old(buffer[idx..n]);
    }

    /** The two preconditions are the two BUG_ONs of range_emplace_at. */
    method RangeEmplaceAt(idx: nat, mr: MemoryRange)
      requires Fitting() && idx <= count && count < capacity
      modifies this`count, buffer
      ensures Fitting() && count == old(count) + 1
      ensures buffer[..count] == old(buffer[..idx]) + [mr] + old(buffer[idx..count])
    {
      RangeInsert(mr, idx, count);
      count := count + 1;
    }

    /** Binary search, refining the linear scan in both modes. */
    method FindRange(value: nat, allowOneAbove: bool) returns (r: int)
      requires Fitting() && WellFormed(Entries())
      ensures r == Spec.Scan(Entries(), 0, value, allowOneAbove)
    {
      ghost var es := Entries();
      var left, right := 0, count - 1;
      hide Ordered, AllValid, UnpackAll, WellFormed, Spec.Scan;
      while left <= right
        invariant 0 <= left <= count && -1 <= right < count && left <= right + 1
        invariant forall i :: 0 <= i < left ==> es[i].addr < value
        invariant forall i :: right < i < count ==> value < es[i].addr
        decreases right - left
      {
        var middle := left + (right - left) / 2;
        EntryAt(middle);
        if buffer[middle].physicalAddress < value {
          BelowAll(es, middle);
          left := middle + 1;
        } else if value < buffer[middle].physicalAddress {
          AboveAll(es, middle);
          right := middle - 1;
        } else {
          Spec.ScanFinds(es, middle, value, allowOneAbove);
          return middle;
        }
      }
      if right >= 0 {
        EntryAt(right);
        if buffer[right].physicalAddress < value && value < buffer[right].End() {
          Spec.ScanFinds(es, right, value, allowOneAbove);
          return right;
        }
      }
      EndBelow(es, right, value);
      Spec.ScanSkips(es, 0, left, value, allowOneAbove);
      Spec.ScanStops(es, left, value, allowOneAbove);
      if left == count { left := -1; }
      return if allowOneAbove then left else -1;
    }

    static lemma BelowAll(es: seq<Range>, m: nat)
      requires WellFormed(es) && m < |es|
      ensures forall i :: 0 <= i <= m ==> es[i].addr <= es[m].addr
    {
      forall i | 0 <= i < m ensures es[i].addr <= es[m].addr { assert es[i].Valid() && es[i].End() <= es[m].addr; }
    }

    static lemma EndBelow(es: seq<Range>, right: int, value: int)
      requires WellFormed(es) && -1 <= right < |es| && (right >= 0 ==> es[right].End() <= value)
      ensures forall k :: 0 <= k <= right ==> es[k].End() <= value && es[k].size > 0
    {
      forall k | 0 <= k <= right ensures es[k].End() <= value && es[k].size > 0 {
        assert es[k].Valid() && es[right].Valid();
        assert k < right ==> es[k].End() <= es[right].addr;
      }
    }

    static lemma AboveAll(es: seq<Range>, m: nat)
      requires WellFormed(es) && m < |es|
      ensures forall i :: m <= i < |es| ==> es[m].addr <= es[i].addr
    {
      forall i | m < i < |es| ensures es[m].addr <= es[i].addr { assert es[m].Valid() && es[m].End() <= es[i].addr; }
    }

    // -------------------------------------------------------------------------
    // Splitting and merging
    // -------------------------------------------------------------------------

    method WriteTwo(i: nat, a: MemoryRange, b: MemoryRange)
      requires Fitting() && i + 1 < count
      modifies buffer
      ensures buffer[..count] == old(buffer[..i]) + [a, b] + old(buffer[i + 2..count])
    {
      buffer[i], buffer[i + 1] := a, b;
    }

    method WriteAndInsert(i: nat, a: MemoryRange, b: MemoryRange)
      requires Fitting() && i < count < capacity
      modifies this`count, buffer
      ensures Fitting() && count == old(count) + 1
      ensures buffer[..count] == old(buffer[..i]) + [a, b] + old(buffer[i + 1..count])
    {
      buffer[i] := a;
      RangeEmplaceAt(i + 1, b);
    }

    method WriteAndInsertTwo(i: nat, a: MemoryRange, b: MemoryRange, c: MemoryRange)
      requires Fitting() && i < count && count + 2 <= capacity
      modifies this`count, buffer
      ensures Fitting() && count == old(count) + 2
      ensures buffer[..count] == old(buffer[..i]) + [a, b, c] + old(buffer[i + 1..count])
    {
      WriteAndInsert(i, a, b);
      RangeEmplaceAt(i + 2, c);
    }

    /** Let the entries from src on follow directly after the first dst ones. */
    method CloseGap(dst: nat, src: nat)
      requires Fitting() && dst <= src <= count
      modifies this`count, buffer
      ensures Fitting() && count == old(count) - (src - dst)
      ensures buffer[..count] == old(buffer[..dst]) + old(buffer[src..count])
    {
      MoveEntries(dst, src, count - src);
      count := count - (src - dst);
      assert buffer[..count] == buffer[..dst] + buffer[dst..count];
    }

    /** Case 4b on the stored words. */
    method JoinBoth(idx: nat, n: MemoryRange)
      requires Fitting() && 0 < idx && idx + 1 < count
      modifies this`count, buffer
      ensures Fitting() && count == old(count) - 2
      ensures buffer[..count]
              == old(buffer[..idx - 1]) + [Merged(Merged(old(buffer[idx - 1]), n), old(buffer[idx + 1]))]
                 + old(buffer[idx + 2..count])
    {
      buffer[idx - 1] := Merged(buffer[idx - 1], n);
      buffer[idx - 1] := Merged(buffer[idx - 1], buffer[idx + 1]);
      CloseGap(idx, idx + 2);
    }

    /** Case 4c on the stored words. */
    method JoinBefore(idx: nat, n: MemoryRange)
      requires Fitting() && 0 < idx < count
      modifies this`count, buffer
      ensures Fitting() && count == old(count) - 1
      ensures buffer[..count]
              == old(buffer[..idx - 1]) + [Merged(old(buffer[idx - 1]), n)] + old(buffer[idx + 1..count])
    {
      buffer[idx - 1] := Merged(buffer[idx - 1], n);
      CloseGap(idx, idx + 1);
    }

    /** Case 4d on the stored words. */
    method JoinAfter(idx: nat, n: MemoryRange)
      requires Fitting() && idx + 1 < count
      modifies this`count, buffer
      ensures Fitting() && count == old(count) - 1
      ensures buffer[..count] == old(buffer[..idx]) + [Merged(old(buffer[idx + 1]), n)] + old(buffer[idx + 2..count])
    {
      buffer[idx + 1] := Merged(buffer[idx + 1], n);
      CloseGap(idx, idx + 1);
    }

    /** The preconditions are the BUG_ONs of allocate_out_of and of the insertions it makes. */
    method AllocateOutOf(idx: nat, n: MemoryRange)
      requires Fitting() && WellFormed(Entries()) && Fits(Entries(), idx, n.Unpack())
      requires count + Growth(Entries(), idx, n.Unpack()) <= capacity
      modifies this`count, buffer
      ensures Fitting() && Entries() == RangeSurgery.AllocateOutOf(old(Entries()), idx, n.Unpack())
    {
      hide UnpackAll, Merged, CanMerge, Ordered, AllValid, Touching, RangeSurgery.AllocateOutOf;
      ghost var ps := buffer[..count];
      var lhs, rhs := PiecesOf(buffer[idx], n, ps, idx);
      var mergeableBefore := idx != 0 && CanMerge(buffer[idx - 1], n);
      var mergeableAfter := idx != count - 1 && CanMerge(n, buffer[idx + 1]);
      MergeableMeaning(ps, idx, n);

      if lhs.Size() != 0 && rhs.Size() != 0 {          // Case 1
        Case1Words(ps, idx, n, lhs, rhs);
        WriteAndInsertTwo(idx, lhs, n, rhs);
      } else if lhs.Size() == 0 && rhs.Size() != 0 {
        AllocateLeft(idx, n, rhs, mergeableBefore);
      } else if lhs.Size() != 0 && rhs.Size() == 0 {
        AllocateRight(idx, n, lhs, mergeableAfter);
      } else {
        AllocateWhole(idx, n, mergeableBefore, mergeableAfter);
      }
    }

    /** Case 2: the new range starts where the entry does. */
    method AllocateLeft(idx: nat, n: MemoryRange, rhs: MemoryRange, mergeableBefore: bool)
      requires Fitting() && WellFormed(Entries()) && Fits(Entries(), idx, n.Unpack())
      requires count + Growth(Entries(), idx, n.Unpack()) <= capacity
      requires Entries()[idx].addr == n.Unpack().addr && rhs.Size() > 0
      requires rhs.Unpack() == RightPiece(Entries()[idx], n.Unpack())
      requires mergeableBefore == MergesBefore(Entries(), idx, n.Unpack())
      modifies this`count, buffer
      ensures Fitting() && Entries() == RangeSurgery.AllocateOutOf(old(Entries()), idx, n.Unpack())
    {
      hide UnpackAll, Merged, Ordered, AllValid, Touching, RangeSurgery.AllocateOutOf;
      ghost var ps := buffer[..count];
      if mergeableBefore {                             // Case 2a
        Case2aWords(ps, idx, n, rhs);
        WriteTwo(idx - 1, Merged(buffer[idx - 1], n), rhs);
      } else {                                         // Case 2b
        Case2bWords(ps, idx, n, rhs);
        WriteAndInsert(idx, n, rhs);
      }
    }

    /** Case 3: the new range ends where the entry does. */
    method AllocateRight(idx: nat, n: MemoryRange, lhs: MemoryRange, mergeableAfter: bool)
      requires Fitting() && WellFormed(Entries()) && Fits(Entries(), idx, n.Unpack())
      requires count + Growth(Entries(), idx, n.Unpack()) <= capacity
      requires Entries()[idx].End() == n.Unpack().End() && lhs.Size() > 0
      requires lhs.Unpack() == LeftPiece(Entries()[idx], n.Unpack())
      requires mergeableAfter == MergesAfter(Entries(), idx, n.Unpack())
      modifies this`count, buffer
      ensures Fitting() && Entries() == RangeSurgery.AllocateOutOf(old(Entries()), idx, n.Unpack())
    {
      hide UnpackAll, Merged, Ordered, AllValid, Touching, RangeSurgery.AllocateOutOf;
      ghost var ps := buffer[..count];
      if mergeableAfter {                              // Case 3a
        Case3aWords(ps, idx, n, lhs);
        WriteTwo(idx, lhs, Merged(buffer[idx + 1], n));
      } else {                                         // Case 3b
        Case3bWords(ps, idx, n, lhs);
        WriteAndInsert(idx, lhs, n);
      }
    }

    /** Case 4: the entry changes kind entirely and joins its neighbours where it can. */
    method AllocateWhole(idx: nat, n: MemoryRange, mergeableBefore: bool, mergeableAfter: bool)
      requires Fitting() && WellFormed(Entries()) && Fits(Entries(), idx, n.Unpack())
      requires Entries()[idx].addr == n.Unpack().addr && Entries()[idx].End() == n.Unpack().End()
      requires mergeableBefore == MergesBefore(Entries(), idx, n.Unpack())
      requires mergeableAfter == MergesAfter(Entries(), idx, n.Unpack())
      modifies this`count, buffer
      ensures Fitting() && Entries() == RangeSurgery.AllocateOutOf(old(Entries()), idx, n.Unpack())
    {
      hide UnpackAll, Merged, Ordered, AllValid, Touching, RangeSurgery.AllocateOutOf;
      if !mergeableBefore && !mergeableAfter {         // Case 4a
        Case4aWords(buffer[..count], idx, n);
        buffer[idx] := buffer[idx].(sizeAndType := n.sizeAndType);
      } else {
        JoinNeighbours(idx, n, mergeableBefore, mergeableAfter);
      }
    }

    /** Cases 4b, 4c and 4d. */
    method JoinNeighbours(idx: nat, n: MemoryRange, mergeableBefore: bool, mergeableAfter: bool)
      requires Fitting() && Whole(idx, n)
      requires mergeableBefore == MergesBefore(Entries(), idx, n.Unpack())
      requires mergeableAfter == MergesAfter(Entries(), idx, n.Unpack())
      requires mergeableBefore || mergeableAfter
      modifies this`count, buffer
      ensures Fitting() && Entries() == RangeSurgery.AllocateOutOf(old(Entries()), idx, n.Unpack())
    {
      hide Whole, UnpackAll, RangeSurgery.AllocateOutOf, MergesBefore, MergesAfter;
      if mergeableBefore && mergeableAfter {           // Case 4b
        MergeBoth(idx, n);
      } else if mergeableBefore {                      // Case 4c
        MergeBefore(idx, n);
      } else {                                         // Case 4d
        MergeAfter(idx, n);
      }
    }

    /** The entry is replaced whole. */
    ghost predicate Whole(idx: nat, n: MemoryRange)
      requires Fitting()
      reads this, buffer
    {
      WellFormed(Entries()) && Fits(Entries(), idx, n.Unpack())
      && Entries()[idx].addr == n.Unpack().addr && Entries()[idx].End() == n.Unpack().End()
    }

    method MergeBoth(idx: nat, n: MemoryRange)
      requires Fitting() && Whole(idx, n)
      requires MergesBefore(Entries(), idx, n.Unpack()) && MergesAfter(Entries(), idx, n.Unpack())
      modifies this`count, buffer
      ensures Fitting() && Entries() == RangeSurgery.AllocateOutOf(old(Entries()), idx, n.Unpack())
    {
      hide UnpackAll, Merged, Ordered, AllValid, Touching, RangeSurgery.AllocateOutOf;
      Case4bWords(buffer[..count], idx, n);
      JoinBoth(idx, n);
    }

    method MergeBefore(idx: nat, n: MemoryRange)
      requires Fitting() && Whole(idx, n)
      requires MergesBefore(Entries(), idx, n.Unpack()) && !MergesAfter(Entries(), idx, n.Unpack())
      modifies this`count, buffer
      ensures Fitting() && Entries() == RangeSurgery.AllocateOutOf(old(Entries()), idx, n.Unpack())
    {
      hide UnpackAll, Merged, Ordered, AllValid, Touching, RangeSurgery.AllocateOutOf;
      Case4cWords(buffer[..count], idx, n);
      JoinBefore(idx, n);
    }

    method MergeAfter(idx: nat, n: MemoryRange)
      requires Fitting() && Whole(idx, n)
      requires !MergesBefore(Entries(), idx, n.Unpack()) && MergesAfter(Entries(), idx, n.Unpack())
      modifies this`count, buffer
      ensures Fitting() && Entries() == RangeSurgery.AllocateOutOf(old(Entries()), idx, n.Unpack())
    {
      hide UnpackAll, Merged, Ordered, AllValid, Touching, RangeSurgery.AllocateOutOf;
      Case4dWords(buffer[..count], idx, n);
      JoinAfter(idx, n);
    }

    // Each case on the stored words yields what the same case yields on ranges.

    ghost static predicate WordsAgree(ps: seq<MemoryRange>, idx: nat, n: MemoryRange, qs: seq<MemoryRange>)
      requires Fits(UnpackAll(ps), idx, n.Unpack())
    {
      UnpackAll(qs) == RangeSurgery.AllocateOutOf(UnpackAll(ps), idx, n.Unpack())
    }

    static lemma Case1Words(ps: seq<MemoryRange>, idx: nat, n: MemoryRange, lhs: MemoryRange, rhs: MemoryRange)
      requires Fits(UnpackAll(ps), idx, n.Unpack()) && lhs.Size() > 0 && rhs.Size() > 0
      requires lhs.Unpack() == LeftPiece(ps[idx].Unpack(), n.Unpack())
      requires rhs.Unpack() == RightPiece(ps[idx].Unpack(), n.Unpack())
      ensures WordsAgree(ps, idx, n, ps[..idx] + [lhs, n, rhs] + ps[idx + 1..])
    {}

    static lemma Case2aWords(ps: seq<MemoryRange>, idx: nat, n: MemoryRange, rhs: MemoryRange)
      requires Fits(UnpackAll(ps), idx, n.Unpack()) && rhs.Size() > 0
      requires AllValid(UnpackAll(ps)) && MergesBefore(UnpackAll(ps), idx, n.Unpack())
      requires ps[idx].Unpack().addr == n.Unpack().addr && rhs.Unpack() == RightPiece(ps[idx].Unpack(), n.Unpack())
      ensures WordsAgree(ps, idx, n, ps[..idx - 1] + [Merged(ps[idx - 1], n), rhs] + ps[idx + 1..])
    {
      assert UnpackAll(ps)[idx - 1].Valid();
      MergedMeaning(ps[idx - 1], n);
    }

    static lemma Case2bWords(ps: seq<MemoryRange>, idx: nat, n: MemoryRange, rhs: MemoryRange)
      requires Fits(UnpackAll(ps), idx, n.Unpack()) && rhs.Size() > 0
      requires !MergesBefore(UnpackAll(ps), idx, n.Unpack())
      requires ps[idx].Unpack().addr == n.Unpack().addr && rhs.Unpack() == RightPiece(ps[idx].Unpack(), n.Unpack())
      ensures WordsAgree(ps, idx, n, ps[..idx] + [n, rhs] + ps[idx + 1..])
    {}

    static lemma Case3aWords(ps: seq<MemoryRange>, idx: nat, n: MemoryRange, lhs: MemoryRange)
      requires Fits(UnpackAll(ps), idx, n.Unpack()) && lhs.Size() > 0
      requires AllValid(UnpackAll(ps)) && MergesAfter(UnpackAll(ps), idx, n.Unpack())
      requires ps[idx].Unpack().End() == n.Unpack().End() && lhs.Unpack() == LeftPiece(ps[idx].Unpack(), n.Unpack())
      ensures WordsAgree(ps, idx, n, ps[..idx] + [lhs, Merged(ps[idx + 1], n)] + ps[idx + 2..])
    {
      assert UnpackAll(ps)[idx + 1].Valid();
      MergedMeaning(n, ps[idx + 1]);
    }

    static lemma Case3bWords(ps: seq<MemoryRange>, idx: nat, n: MemoryRange, lhs: MemoryRange)
      requires Fits(UnpackAll(ps), idx, n.Unpack()) && lhs.Size() > 0
      requires !MergesAfter(UnpackAll(ps), idx, n.Unpack())
      requires ps[idx].Unpack().End() == n.Unpack().End() && lhs.Unpack() == LeftPiece(ps[idx].Unpack(), n.Unpack())
      ensures WordsAgree(ps, idx, n, ps[..idx] + [lhs, n] + ps[idx + 1..])
    {}

    static lemma Case4aWords(ps: seq<MemoryRange>, idx: nat, n: MemoryRange)
      requires Fits(UnpackAll(ps), idx, n.Unpack())
      requires ps[idx].Unpack().addr == n.Unpack().addr && ps[idx].Unpack().End() == n.Unpack().End()
      requires !MergesBefore(UnpackAll(ps), idx, n.Unpack()) && !MergesAfter(UnpackAll(ps), idx, n.Unpack())
      ensures WordsAgree(ps, idx, n, ps[idx := ps[idx].(sizeAndType := n.sizeAndType)])
    {}

    static lemma Case4bWords(ps: seq<MemoryRange>, idx: nat, n: MemoryRange)
      requires Fits(UnpackAll(ps), idx, n.Unpack()) && AllValid(UnpackAll(ps))
      requires ps[idx].Unpack().addr == n.Unpack().addr && ps[idx].Unpack().End() == n.Unpack().End()
      requires MergesBefore(UnpackAll(ps), idx, n.Unpack()) && MergesAfter(UnpackAll(ps), idx, n.Unpack())
      ensures WordsAgree(ps, idx, n, ps[..idx - 1] + [Merged(Merged(ps[idx - 1], n), ps[idx + 1])] + ps[idx + 2..])
    {
      assert UnpackAll(ps)[idx - 1].Valid() && UnpackAll(ps)[idx + 1].Valid();
      MergedMeaning(ps[idx - 1], n);
      MergedMeaning(Merged(ps[idx - 1], n), ps[idx + 1]);
    }

    static lemma Case4cWords(ps: seq<MemoryRange>, idx: nat, n: MemoryRange)
      requires Fits(UnpackAll(ps), idx, n.Unpack()) && AllValid(UnpackAll(ps))
      requires ps[idx].Unpack().addr == n.Unpack().addr && ps[idx].Unpack().End() == n.Unpack().End()
      requires MergesBefore(UnpackAll(ps), idx, n.Unpack()) && !MergesAfter(UnpackAll(ps), idx, n.Unpack())
      ensures WordsAgree(ps, idx, n, ps[..idx - 1] + [Merged(ps[idx - 1], n)] + ps[idx + 1..])
    {
      assert UnpackAll(ps)[idx - 1].Valid();
      MergedMeaning(ps[idx - 1], n);
    }

    static lemma Case4dWords(ps: seq<MemoryRange>, idx: nat, n: MemoryRange)
      requires Fits(UnpackAll(ps), idx, n.Unpack()) && AllValid(UnpackAll(ps))
      requires ps[idx].Unpack().addr == n.Unpack().addr && ps[idx].Unpack().End() == n.Unpack().End()
      requires !MergesBefore(UnpackAll(ps), idx, n.Unpack()) && MergesAfter(UnpackAll(ps), idx, n.Unpack())
      ensures WordsAgree(ps, idx, n, ps[..idx] + [Merged(ps[idx + 1], n)] + ps[idx + 2..])
    {
      assert UnpackAll(ps)[idx + 1].Valid();
      MergedMeaning(n, ps[idx + 1]);
    }

    /** The two pieces that the new range leaves of the current one. */
    static method PiecesOf(current: MemoryRange, n: MemoryRange, ghost ps: seq<MemoryRange>, ghost idx: nat)
      returns (lhs: MemoryRange, rhs: MemoryRange)
      requires AllValid(UnpackAll(ps)) && Fits(UnpackAll(ps), idx, n.Unpack()) && current == ps[idx]
      ensures lhs.Unpack() == LeftPiece(current.Unpack(), n.Unpack())
      ensures rhs.Unpack() == RightPiece(current.Unpack(), n.Unpack())
    {
      assert UnpackAll(ps)[idx].Valid();
      EndMeaning(current);
      EndMeaning(n);
      lhs := MemoryRange(current.physicalAddress, Encode(n.physicalAddress - current.physicalAddress, current.Kind()));
      rhs := MemoryRange(n.End(), Encode(current.End() - n.End(), current.Kind()));
      EncodeKeeps(lhs.physicalAddress, n.physicalAddress - current.physicalAddress, current.Kind());
      EncodeKeeps(n.End(), current.End() - n.End(), current.Kind());
    }

    /** Mergeability of the stored entries is that of the ranges they stand for. */
    static lemma MergeableMeaning(ps: seq<MemoryRange>, idx: nat, n: MemoryRange)
      requires AllValid(UnpackAll(ps)) && Fits(UnpackAll(ps), idx, n.Unpack())
      ensures (idx != 0 && CanMerge(ps[idx - 1], n)) == MergesBefore(UnpackAll(ps), idx, n.Unpack())
      ensures (idx != |ps| - 1 && CanMerge(n, ps[idx + 1])) == MergesAfter(UnpackAll(ps), idx, n.Unpack())
      ensures idx != 0 ==> ps[idx - 1].Unpack().Valid()
      ensures idx != |ps| - 1 ==> ps[idx + 1].Unpack().Valid()
    {
      var es := UnpackAll(ps);
      EndMeaning(n);
      if idx != 0 { assert es[idx - 1].Valid(); EndMeaning(ps[idx - 1]); }
      if idx != |ps| - 1 { assert es[idx + 1].Valid(); }
    }

    // -------------------------------------------------------------------------
    // Allocation strategies
    // -------------------------------------------------------------------------

    /** The search loop of allocate_top_down: the entry, and where the block ends in it. */
    method SearchTopDown(bytes: nat, upper: nat) returns (i: int, allocatedEnd: nat)
      requires Fitting() && WellFormed(Entries())
      ensures i == Spec.PickTopDown(Entries(), count, bytes, upper) && |Entries()| == count
      ensures i >= 0 ==> allocatedEnd == Spec.Min(Entries()[i].End(), upper)
    {
      ghost var es := Entries();
      i, allocatedEnd := count, 0;
      hide WellFormed, UnpackAll, Spec.PickTopDown;
      while i > 0
        invariant 0 <= i <= count
        invariant Spec.PickTopDown(es, count, bytes, upper) == Spec.PickTopDown(es, i, bytes, upper)
      {
        Spec.PickStep(es, i, bytes, upper);
        i := i - 1;
        var mr := buffer[i];
        EntryAt(i);
        if mr.physicalAddress >= upper { continue; }
        if mr.Kind() != Free { continue; }
        var rangeEnd := Spec.Min(mr.End(), upper);
        if rangeEnd - mr.physicalAddress < bytes { continue; }
        return i, rangeEnd;
      }
      Spec.PickNone(es, bytes, upper);
      i := -1;
    }

    /** Mark a new block as allocated. */
    method Place(i: nat, address: nat, bytes: nat) returns (o: Spec.Outcome)
      requires Fitting() && WellFormed(Entries()) && bytes % 2 == 0
      requires Fits(Entries(), i, Range(address, bytes, Allocated))
      requires count + Growth(Entries(), i, Range(address, bytes, Allocated)) <= capacity
      modifies this`count, buffer
      ensures Fitting() && o == Spec.Ok(address)
      ensures Entries() == RangeSurgery.AllocateOutOf(old(Entries()), i, Range(address, bytes, Allocated))
    {
      hide WellFormed, Fits, Growth, RangeSurgery.AllocateOutOf, UnpackAll;
      var n := MemoryRange(address, Encode(bytes, Allocated));
      EncodeKeeps(address, bytes, Allocated);
      AllocateOutOf(i, n);
      return Spec.Ok(n.physicalAddress);
    }

    /** With no limit it adds one entry at most, and two otherwise. A limit keeps the kind bit clear. */
    method AllocateTopDown(pages: nat, upper: nat) returns (o: Spec.Outcome)
      requires Fitting() && WellFormed(Entries()) && Runs.EvenLimit(upper)
      requires count + Runs.TopDownGrowth(upper) <= capacity
      modifies this`count, buffer
      ensures Fitting() && (o, Entries()) == Runs.TopDown(old(Entries()), pages, upper, sizeBits)
    {
      var bytes := Runs.ByteSize(pages, sizeBits);
      if bytes <= pages { return Spec.Bug; }
      hide RangeSurgery.AllocateOutOf, Growth, WellFormed, Spec.PickTopDown, UnpackAll, Runs.ByteSize, Fits;
      hide Runs.TopDown, Spec.Min, Runs.EvenLimit, Runs.TopDownGrowth;
      Runs.TopDownByEntry(Entries(), pages, upper, sizeBits);
      var i, allocatedEnd := SearchTopDown(bytes, upper);
      if i < 0 { return Spec.NoMemory; }
      o := Place(i, allocatedEnd - bytes, bytes);
    }

    lemma EntryAt(i: nat)
      requires Fitting() && WellFormed(Entries()) && i < count
      ensures |Entries()| == count && Entries()[i] == buffer[i].Unpack()
      ensures Entries()[i].Valid() && buffer[i].End() == Entries()[i].End()
    {
      assert Entries()[i].Valid();
      EndMeaning(buffer[i]);
    }

    /** The search loop of allocate_within, from the entry that find_range yields. */
    method SearchWithin(bytes: nat, lower: nat, upper: nat) returns (i: int)
      requires Fitting() && WellFormed(Entries()) && lower < upper
      ensures i == Spec.WithinIndex(Entries(), bytes, lower, upper)
    {
      hide Ordered;
      ghost var es := Entries();
      i := FindRange(lower, true);
      if i < 0 { return -1; }
      ghost var first: nat := i;
      while i < count
        invariant first <= i <= count
        invariant Spec.PickWithin(es, first, bytes, lower, upper) == Spec.PickWithin(es, i, bytes, lower, upper)
      {
        EntryAt(i);
        var picked := buffer[i];
        var end := picked.End();
        if picked.physicalAddress > upper { return -1; }
        if picked.Kind() == Free {
          Spec.GapNeverUnderflows(es, lower, upper, i);
          var gap: nat := Spec.Min(end, upper) - Spec.Max(picked.physicalAddress, lower);
          if gap >= bytes { return; }
        }
        if end >= upper { return -1; }
        if upper - end < bytes { return -1; }
        i := i + 1;
      }
      return -1;
    }

    method AllocateWithin(pages: nat, lower: nat, upper: nat) returns (o: Spec.Outcome)
      requires Fitting() && WellFormed(Entries()) && count + 2 <= capacity
      requires lower % 2 == 0 && lower < ADDRESS_LIMIT && upper < ADDRESS_LIMIT
      modifies this`count, buffer
      ensures Fitting()
      ensures !Runs.SizeAccepted(pages, sizeBits) ==> o.Bug? && Entries() == old(Entries())
      ensures Runs.SizeAccepted(pages, sizeBits) ==>
                (o, Entries()) == Spec.AllocateWithin(old(Entries()), Runs.ByteSize(pages, sizeBits), lower, upper)
    {
      var bytes := Runs.ByteSize(pages, sizeBits);
      if bytes <= pages { return Spec.Bug; }
      Runs.ByteSizeInWord(pages, sizeBits);
      hide WellFormed, UnpackAll, Runs.ByteSize, Spec.AllocateWithin, Spec.Wrap;
      Spec.ChecksExact(Entries(), bytes, lower, upper);
      if lower >= upper { return Spec.Bug; }
      if Spec.Wrap(lower + bytes) > upper { return Spec.Bug; }
      if Spec.Wrap(lower + bytes) < lower { return Spec.Bug; }
      o := FindAndPlace(bytes, lower, upper);
    }

    /** The part of allocate_within behind its checks. */
    method FindAndPlace(bytes: nat, lower: nat, upper: nat) returns (o: Spec.Outcome)
      requires Fitting() && WellFormed(Entries()) && count + 2 <= capacity
      requires bytes > 0 && bytes % 2 == 0 && lower % 2 == 0 && lower + bytes <= upper < ADDRESS_LIMIT
      modifies this`count, buffer
      ensures Fitting() && (o, Entries()) == Spec.AllocateWithin(old(Entries()), bytes, lower, upper)
    {
      hide RangeSurgery.AllocateOutOf, Growth, WellFormed, UnpackAll, Spec.WithinIndex, Fits, Spec.AllocateWithin;
      Runs.WithinByEntry(Entries(), bytes, lower, upper);
      var i := SearchWithin(bytes, lower, upper);
      if i < 0 { return Spec.NoMemory; }
      EntryAt(i);
      o := Place(i, Spec.Max(lower, buffer[i].physicalAddress), bytes);
    }

    // -------------------------------------------------------------------------
    // Growing the buffer
    // -------------------------------------------------------------------------

    /** Make sure that any one operation fits. A new buffer at address 0 is taken for a failure. modelled is
        false for the two branches that are left out: no memory for the new buffer, and a second growth. */
    method MaybeGrowBuffer() returns (ready: bool, modelled: bool)
      requires Valid()
      modifies this, buffer
      ensures Fitting() && (buffer == old(buffer) || fresh(buffer))
      ensures Runs.MaybeGrow(old(State()))
              == if !modelled then Runs.Abandoned else if ready then Runs.Ready(State()) else Runs.Refused(State())
      ensures (modelled ==> Valid()) && (ready ==> modelled && count + 4 <= capacity)
    {
      hide WellFormed, UnpackAll, Runs.ByteSize, Spec.AllocateTopDown;
      var watermark := 4;
      if buffer != initial { watermark := watermark + 2; }
      if capacity - count >= watermark { return true, true; }

      ghost var s := State();
      var newBytes := Runs.PageRoundUp(capacity * 2 * Spec.ENTRY_SIZE);
      var pages := newBytes / Spec.PAGE_SIZE;
      var o := AllocateTopDown(pages, Spec.NO_LIMIT);
      if !o.Ok? { return false, false; }
      if o.address == 0 {
        lost := lost + [Runs.Block(0, Runs.ByteSize(pages, sizeBits))];
        RefusalKeeps(s);
        return false, true;
      }
      if buffer != initial { return false, false; }

      own := [Runs.Block(o.address, Runs.ByteSize(pages, sizeBits))];
      GrowthKeeps(s);
      ghost var ps := buffer[..count];
      var newBuffer := CopyEntries(newBytes / Spec.ENTRY_SIZE);
      buffer := newBuffer;
      capacity := newBytes / Spec.ENTRY_SIZE;
      assert buffer[..count] == ps;
      return true, true;
    }

    static lemma RefusalKeeps(s: Runs.Allocator)
      requires WellFormed(s.es) && |s.es| < s.capacity && Runs.MaybeGrow(s).Refused?
      ensures WellFormed(Runs.MaybeGrow(s).s.es) && |Runs.MaybeGrow(s).s.es| <= |s.es|
    {
      var i, b := Runs.RefusedGrowth(s);
      AllocateOutOfOverwrites(s.es, i, b.As(Allocated));
    }

    static lemma GrowthKeeps(s: Runs.Allocator)
      requires WellFormed(s.es) && |s.es| < s.capacity && s.own == [] && Runs.Sizable(s)
      requires Runs.MaybeGrow(s).Ready? && Runs.MaybeGrow(s).s != s
      ensures var t := Runs.MaybeGrow(s).s;
              WellFormed(t.es) && Runs.Sizable(t) && |t.es| + 6 <= t.capacity
    {
      var i := Runs.FirstGrowth(s);
      AllocateOutOfOverwrites(s.es, i, Runs.MaybeGrow(s).s.own[0].As(Allocated));
    }

    /** A fresh buffer that starts with the current entries. */
    method CopyEntries(newCapacity: nat) returns (newBuffer: array<MemoryRange>)
      requires Fitting() && count <= newCapacity
      ensures fresh(newBuffer) && newBuffer.Length == newCapacity
      ensures newBuffer[..count] == buffer[..count]
    {
      newBuffer := new MemoryRange[newCapacity];
      forall i | 0 <= i < count { newBuffer[i] := buffer[i]; }
    }

    // -------------------------------------------------------------------------
    // The public operations
    // -------------------------------------------------------------------------

    method BootAlloc(pages: nat) returns (r: Runs.Reply)
      requires Valid()
      modifies this, buffer
      ensures Fitting() && (buffer == old(buffer) || fresh(buffer))
      ensures r == Runs.BootAlloc(old(State()), pages).0
      ensures !r.Unmodelled? ==> Valid() && State() == Runs.BootAlloc(old(State()), pages).1
    {
      hide WellFormed, UnpackAll, Runs.MaybeGrow;
      var ready, modelled := MaybeGrowBuffer();
      if !ready { return if modelled then Runs.OutOfMemory else Runs.Unmodelled; }
      ghost var es := Entries();
      var o := AllocateTopDown(pages, Spec.NO_LIMIT);
      NoGrowKeeps(es, pages, sizeBits);
      return Runs.ReplyOf(o);
    }

    static lemma NoGrowKeeps(es: seq<Range>, pages: nat, width: Runs.Width)
      requires WellFormed(es)
      ensures WellFormed(Runs.NoGrow(es, pages, width).1) && |Runs.NoGrow(es, pages, width).1| <= |es| + 1
    {
      hide WellFormed, Runs.ByteSize, Fits;
      var (o, fs) := Runs.NoGrow(es, pages, width);
      if o.Ok? {
        var i := Runs.TopDownCarves(es, Runs.ByteSize(pages, width), Spec.NO_LIMIT);
        AllocateOutOfOverwrites(es, i, Range(o.address, Runs.ByteSize(pages, width), Allocated));
      }
    }

    /** The address is a multiple of two, so that the size of what is left below it keeps the kind bit clear.
        A block that runs past the address space is refused. */
    method BootAllocAt(address: nat, pages: nat) returns (r: Runs.Reply)
      requires Valid() && address % 2 == 0 && address < ADDRESS_LIMIT
      modifies this, buffer
      ensures Fitting() && (buffer == old(buffer) || fresh(buffer))
      ensures r == Runs.BootAllocAt(old(State()), address, pages).0
      ensures !r.Unmodelled? ==> Valid() && State() == Runs.BootAllocAt(old(State()), address, pages).1
    {
      hide WellFormed, UnpackAll, Runs.MaybeGrow, Runs.ByteSize, Spec.WithinIndex, RangeSurgery.AllocateOutOf;
      var ready, modelled := MaybeGrowBuffer();
      if !ready { return if modelled then Runs.OutOfMemory else Runs.Unmodelled; }
      ghost var es := Entries();
      Runs.ByteSizeInWord(pages, sizeBits);
      var upper := Spec.Wrap(address + Runs.ByteSize(pages, sizeBits));
      var o := AllocateWithin(pages, address, upper);
      if Runs.SizeAccepted(pages, sizeBits) { WithinKeeps(es, Runs.ByteSize(pages, sizeBits), address); }
      return Runs.ReplyOf(o);
    }

    static lemma WithinKeeps(es: seq<Range>, bytes: nat, address: nat)
      requires WellFormed(es) && 0 < bytes < ADDRESS_LIMIT && bytes % 2 == 0
      requires address % 2 == 0 && address < ADDRESS_LIMIT
      ensures var fs := Spec.AllocateWithin(es, bytes, address, Spec.Wrap(address + bytes)).1;
              WellFormed(fs) && |fs| <= |es| + 2
    {
      hide WellFormed, Fits;
      var upper := Spec.Wrap(address + bytes);
      var (o, fs) := Spec.AllocateWithin(es, bytes, address, upper);
      Spec.WindowCheckExact(es, bytes, address, upper);
      if o.Ok? {
        var i := Runs.WithinCarves(es, bytes, address, upper);
        AllocateOutOfOverwrites(es, i, Range(o.address, bytes, Allocated));
        EntryGrowth(es, i, Range(o.address, bytes, Allocated));
      }
    }

    /** The source checks neither that the size is not zero nor that it fits the address space. */
    method BootFree(address: nat, pages: nat) returns (r: Runs.Reply)
      requires Valid() && address % 2 == 0
      requires Runs.ByteSize(pages, sizeBits) > 0 && address + Runs.ByteSize(pages, sizeBits) < ADDRESS_LIMIT
      modifies this, buffer
      ensures Fitting() && (buffer == old(buffer) || fresh(buffer))
      ensures r == Runs.BootFree(old(State()), Runs.Block(address, Runs.ByteSize(pages, sizeBits))).0
      ensures !r.Unmodelled? ==>
                Valid() && State() == Runs.BootFree(old(State()), Runs.Block(address, Runs.ByteSize(pages, sizeBits))).1
    {
      hide WellFormed, UnpackAll, Runs.MaybeGrow, Runs.ByteSize, RangeSurgery.AllocateOutOf, Growth;
      var freed := MemoryRange(address, Encode(Runs.ByteSize(pages, sizeBits), Free));
      EncodeKeeps(address, Runs.ByteSize(pages, sizeBits), Free);
      EndMeaning(freed);
      var ready, modelled := MaybeGrowBuffer();
      if !ready {
        if !modelled { return Runs.Unmodelled; }
        lost := lost + [Runs.Block(address, Runs.ByteSize(pages, sizeBits))];
        return Runs.Leaked;
      }
      var i := FindRange(address, false);
      if i < 0 { return Runs.Panic; }
      EntryAt(i);
      ghost var es := Entries();
      if buffer[i].physicalAddress > address || buffer[i].End() < freed.End() || buffer[i].Kind() == Free {
        return Runs.Panic;
      }
      EntryGrowth(es, i, freed.Unpack());
      AllocateOutOfOverwrites(es, i, freed.Unpack());
      AllocateOutOf(i, freed);
      return Runs.Freed;
    }

    // -------------------------------------------------------------------------
    // Start-up
    // -------------------------------------------------------------------------

    /** If the buffer could not grow, nothing is appended and the caller is told ENOMEM. */
    method RangeAppend(mr: MemoryRange) returns (ready: bool, modelled: bool)
      requires Valid()
      modifies this, buffer
      ensures Fitting() && (buffer == old(buffer) || fresh(buffer))
      ensures match Runs.MaybeGrow(old(State()))
              case Abandoned => !modelled
              case Refused(t) => !ready && modelled && State() == t && Valid()
              case Ready(t) => ready && modelled && State() == t.(es := t.es + [mr.Unpack()]) && Roomy()
    {
      hide WellFormed, Runs.MaybeGrow;
      ready, modelled := MaybeGrowBuffer();
      if !ready { return; }
      ghost var ps := buffer[..count];
      RangeEmplaceAt(count, mr);
      assert buffer[..count] == ps + [mr];
    }

    /** The allocator starts from exactly the recorded entries, but for what it has taken itself: all that the
        bootloader reports in order, unless a growth was refused, which drops an entry. False stands for a
        growth that is not modelled. */
    method BootAllocInit(mm: seq<MapEntry>) returns (done: bool, ghost recorded: seq<Range>)
      requires Valid() && count == 0 && own == lost == [] && WellFormed(Reported(mm))
      modifies this, buffer
      ensures done ==> Valid() && Records(Entries(), recorded, own + lost)
      ensures done ==> Runs.Sound(Runs.World(State(), []))
      ensures done ==> Dropped(Reported(mm), recorded, |lost|) && (lost == [] ==> recorded == Reported(mm))
      ensures done ==> StartsFrom(Entries(), mm, own + lost, lost == [])
    {
      hide WellFormed, Records, Runs.AllHeld, Runs.MaybeGrow, Dropped, StartsFrom;
      EmptyRecords();
      assert Entries() == [] && own + lost == [];
      recorded := [];
      var i := 0;
      while i < |mm|
        invariant 0 <= i <= |mm| && Valid()
        invariant Records(Entries(), recorded, own + lost)
        invariant Dropped(Reported(mm[..i]), recorded, |lost|)
        invariant buffer == old(buffer) || fresh(buffer)
      {
        assert mm[..i + 1][..i] == mm[..i];
        ReportedPrefix(mm, i + 1);
        var k := KindOf(mm[i].memoryType);
        if k.Some? {
          ghost var r := Range(mm[i].physicalAddress, mm[i].size, k.value);
          assert Reported(mm[..i + 1]) == Reported(mm[..i]) + [r];
          var mr := MemoryRange(mm[i].physicalAddress, Encode(mm[i].size, k.value));
          ReportedEven(Reported(mm[..i]), r);
          EncodeKeeps(mr.physicalAddress, mm[i].size, k.value);
          ghost var s := State();
          var ready, modelled := RangeAppend(mr);
          if !modelled { return false, recorded; }
          AppendStep(s, Reported(mm[..i]), recorded, r);
          if ready { recorded := recorded + [r]; }
          RecordsSound(State(), recorded);
        } else {
          assert Reported(mm[..i + 1]) == Reported(mm[..i]) + [] == Reported(mm[..i]);
        }
        i := i + 1;
      }
      assert mm[..i] == mm;
      RecordsSound(State(), recorded);
      DroppedCount(Reported(mm), recorded, |lost|);
      RecordsReport(Entries(), mm, recorded, own + lost, |lost|);
      return true, recorded;
    }
  }
}
