/** What the operations of the boot allocator do to the memory map, on values. */
module BootAllocSpec {
  import opened Options
  import opened MemoryRanges
  import opened RangeSurgery

  const PAGE_SIZE: nat := 4096
  const ENTRY_SIZE: nat := 16
  const NO_LIMIT: nat := ADDRESS_LIMIT - 1

  function Wrap(x: int): nat { x % ADDRESS_LIMIT }
  function Min(a: int, b: int): int { if a < b then a else b }
  function Max(a: int, b: int): int { if a > b then a else b }

  // ---------------------------------------------------------------------------
  // Searching
  // ---------------------------------------------------------------------------

  /** The linear scan that find_range abbreviates: the entry that contains the address, or else, if
      asked for, the first entry above it; -1 if there is none. */
  function Scan(es: seq<Range>, i: nat, value: int, oneAbove: bool): (r: int)
    requires i <= |es|
    ensures r == -1 || i <= r < |es|
    ensures r >= 0 ==> es[r].Contains(value) || (oneAbove && value < es[r].addr)
    decreases |es| - i
  {
    if i == |es| then -1
    else if es[i].Contains(value) then i
    else if value < es[i].addr then (if oneAbove then i else -1)
    else Scan(es, i + 1, value, oneAbove)
  }

  /** The scan ends at an entry above the address. */
  lemma ScanStops(es: seq<Range>, i: nat, value: int, oneAbove: bool)
    requires i <= |es| && (i < |es| ==> value < es[i].addr)
    ensures Scan(es, i, value, oneAbove) == if i < |es| && oneAbove then i else -1
  {}

  /** The scan passes over entries that end at or below the address. */
  lemma {:induction false} ScanSkips(es: seq<Range>, i: nat, j: nat, value: int, oneAbove: bool)
    requires i <= j <= |es| && forall k :: i <= k < j ==> es[k].End() <= value && es[k].size > 0
    ensures Scan(es, i, value, oneAbove) == Scan(es, j, value, oneAbove)
    decreases j - i
  {
    if i < j { ScanSkips(es, i + 1, j, value, oneAbove); }
  }

  /** The scan finds the entry that contains the address. */
  lemma ScanFinds(es: seq<Range>, k: nat, value: int, oneAbove: bool)
    requires WellFormed(es) && k < |es| && es[k].Contains(value)
    ensures Scan(es, 0, value, oneAbove) == k
  {
    forall j | 0 <= j < k ensures es[j].End() <= value && es[j].size > 0 {
      assert es[j].Valid();
    }
    ScanSkips(es, 0, k, value, oneAbove);
  }

  /** Nothing before the scan's answer reaches beyond the address. */
  lemma {:induction false} ScanLowest(es: seq<Range>, i: nat, value: int, k: nat)
    requires WellFormed(es) && i <= k < |es| && value < es[k].End()
    ensures i <= Scan(es, i, value, true) <= k
    decreases |es| - i
  {
    assert es[i].Valid();
    if !es[i].Contains(value) && es[i].addr <= value {
      assert i < k;
      ScanLowest(es, i + 1, value, k);
    }
  }

  /** The topmost of the first n entries that can hold the request below the limit. */
  function PickTopDown(es: seq<Range>, n: nat, bytes: nat, upper: nat): (r: int)
    requires n <= |es|
    ensures -1 <= r < n
    ensures r >= 0 ==> Roomy(es[r], bytes, upper)
    ensures forall k :: Max(r, -1) < k < n ==> !Roomy(es[k], bytes, upper)
  {
    if n == 0 then -1
    else if Roomy(es[n - 1], bytes, upper) then n - 1
    else PickTopDown(es, n - 1, bytes, upper)
  }

  lemma PickNone(es: seq<Range>, bytes: nat, upper: nat)
    ensures PickTopDown(es, 0, bytes, upper) == -1
  {}

  lemma PickStep(es: seq<Range>, n: nat, bytes: nat, upper: nat)
    requires 0 < n <= |es|
    ensures PickTopDown(es, n, bytes, upper)
            == if Roomy(es[n - 1], bytes, upper) then n - 1 else PickTopDown(es, n - 1, bytes, upper)
  {}

  predicate Roomy(r: Range, bytes: nat, upper: nat) {
    r.addr < upper && r.kind == Free && bytes <= Min(r.End(), upper) - r.addr
  }

  /** The search of allocate_within from entry i on, with its early exits. */
  function PickWithin(es: seq<Range>, i: nat, bytes: nat, lower: nat, upper: nat): (r: int)
    requires i <= |es|
    ensures r == -1 || i <= r < |es|
    decreases |es| - i
  {
    if i == |es| then -1
    else if es[i].addr > upper then -1
    else if es[i].kind == Free && Min(es[i].End(), upper) - Max(es[i].addr, lower) >= bytes then i
    else if es[i].End() >= upper || upper - es[i].End() < bytes then -1
    else PickWithin(es, i + 1, bytes, lower, upper)
  }

  // ---------------------------------------------------------------------------
  // The two allocation strategies
  // ---------------------------------------------------------------------------

  datatype Outcome = Ok(address: nat) | NoMemory | Bug

  function AllocateTopDown(es: seq<Range>, bytes: nat, upper: nat): (Outcome, seq<Range>)
  {
    var i := PickTopDown(es, |es|, bytes, upper);
    if i < 0 then (NoMemory, es)
    else
      var n := Range(Min(es[i].End(), upper) - bytes, bytes, Allocated);
      (Ok(n.addr), AllocateOutOf(es, i, n))
  }

  function AllocateWithin(es: seq<Range>, bytes: nat, lower: nat, upper: nat): (Outcome, seq<Range>) {
    if lower >= upper || Wrap(lower + bytes) > upper || Wrap(lower + bytes) < lower then (Bug, es)
    else
      var i := WithinIndex(es, bytes, lower, upper);
      if i < 0 then (NoMemory, es)
      else
        var n := Range(Max(lower, es[i].addr), bytes, Allocated);
        if n.End() <= es[i].End() then (Ok(n.addr), AllocateOutOf(es, i, n)) else (Bug, es)
  }

  // ---------------------------------------------------------------------------
  // Both strategies are optimal and complete
  // ---------------------------------------------------------------------------

  /** The request could be placed at address a inside the window. */
  ghost predicate Placeable(es: seq<Range>, a: int, bytes: nat, lower: int, upper: int) {
    lower <= a && a + bytes <= upper && Run(es, a, a + bytes, Free)
  }

  /** In a canonical map a placement lies in an entry that has room for it. */
  lemma PlacementEntry(es: seq<Range>, a: int, bytes: nat, lower: int, upper: int) returns (i: nat)
    requires Canonical(es) && bytes > 0 && Placeable(es, a, bytes, lower, upper)
    ensures i < |es| && es[i].kind == Free && es[i].addr <= a && a + bytes <= es[i].End()
  {
    CanonicalRun(es, a, a + bytes, Free);
    i :| 0 <= i < |es| && es[i].addr <= a && a + bytes <= es[i].End() && es[i].kind == Free;
  }

  lemma RoomIsPlacement(es: seq<Range>, i: nat, a: int, bytes: nat, lower: int, upper: int)
    requires WellFormed(es) && i < |es| && es[i].kind == Free
    requires es[i].addr <= a && a + bytes <= es[i].End() && lower <= a && a + bytes <= upper
    ensures Placeable(es, a, bytes, lower, upper)
  {
    assert InOneEntry(es, a, a + bytes, Free);
    InOneEntryIsRun(es, a, a + bytes, Free);
  }

  /** Top-down allocation returns the highest possible placement, and none exactly when there is none. */
  lemma TopDownOptimal(es: seq<Range>, bytes: nat, upper: nat)
    requires Canonical(es) && bytes > 0
    ensures var (o, _) := AllocateTopDown(es, bytes, upper);
            match o
            case Ok(a) => Placeable(es, a, bytes, 0, upper)
                          && forall b :: Placeable(es, b, bytes, 0, upper) ==> b <= a
            case NoMemory => forall b :: !Placeable(es, b, bytes, 0, upper)
            case Bug => false
  {
    var i := PickTopDown(es, |es|, bytes, upper);
    if i >= 0 {
      RoomIsPlacement(es, i, Min(es[i].End(), upper) - bytes, bytes, 0, upper);
    }
    forall b | Placeable(es, b, bytes, 0, upper)
      ensures i >= 0 && b <= Min(es[i].End(), upper) - bytes
    {
      var k := PlacementEntry(es, b, bytes, 0, upper);
      assert Roomy(es[k], bytes, upper);
      assert k < i ==> es[k].End() <= es[i].addr;
    }
  }

  /** The search gives up, from entry i on, only if no later entry has room. */
  lemma {:induction false} PickWithinComplete(es: seq<Range>, i: nat, bytes: nat, lower: nat, upper: nat, k: nat)
    requires WellFormed(es) && i <= k < |es| && bytes > 0
    requires es[k].kind == Free && Max(es[k].addr, lower) + bytes <= Min(es[k].End(), upper)
    ensures i <= PickWithin(es, i, bytes, lower, upper) <= k
    decreases |es| - i
  {
    assert es[i].Valid();
    assert i < k ==> es[i].End() <= es[k].addr;
    if i < k { PickWithinComplete(es, i + 1, bytes, lower, upper, k); }
  }

  /** What it picks has room; the gap it computes never wraps below zero. */
  lemma {:induction false} PickWithinSound(es: seq<Range>, i: nat, bytes: nat, lower: nat, upper: nat)
    requires WellFormed(es) && i <= |es| && bytes > 0 && lower < upper
    requires i < |es| ==> lower < es[i].End()
    ensures var r := PickWithin(es, i, bytes, lower, upper);
            r >= 0 ==> es[r].kind == Free && Max(es[r].addr, lower) + bytes <= Min(es[r].End(), upper)
    decreases |es| - i
  {
    if i < |es| {
      assert es[i].Valid();
      if i + 1 < |es| { assert es[i].End() <= es[i + 1].addr && es[i + 1].Valid(); }
      PickWithinSound(es, i + 1, bytes, lower, upper);
    }
  }

  /** In every entry the bounded search looks at, up to the first one starting above the window, the
      gap computed in 64-bit words is a genuine non-negative difference. */
  lemma GapNeverUnderflows(es: seq<Range>, lower: nat, upper: nat, k: nat)
    requires WellFormed(es) && lower < upper && Scan(es, 0, lower, true) >= 0
    requires Scan(es, 0, lower, true) <= k < |es| && es[k].addr <= upper
    ensures Max(es[k].addr, lower) <= Min(es[k].End(), upper)
  {
    var f := Scan(es, 0, lower, true);
    assert es[f].Valid() && es[k].Valid();
    assert f < k ==> es[f].End() <= es[k].addr;
  }

  /** The window is refused exactly when the request is longer than it, whatever wraps around. */
  lemma WindowCheckExact(es: seq<Range>, bytes: nat, lower: nat, upper: nat)
    requires WellFormed(es) && 0 < bytes < ADDRESS_LIMIT && lower < ADDRESS_LIMIT && upper < ADDRESS_LIMIT
    ensures AllocateWithin(es, bytes, lower, upper).0.Bug? <==> lower + bytes > upper
  {
    if lower + bytes <= upper { WithinIndexSound(es, bytes, lower, upper); }
  }

  /** So do the three checks themselves. */
  lemma ChecksExact(es: seq<Range>, bytes: nat, lower: nat, upper: nat)
    requires 0 < bytes < ADDRESS_LIMIT && lower < ADDRESS_LIMIT && upper < ADDRESS_LIMIT
    ensures lower >= upper || Wrap(lower + bytes) > upper || Wrap(lower + bytes) < lower <==> lower + bytes > upper
    ensures lower + bytes > upper ==> AllocateWithin(es, bytes, lower, upper) == (Bug, es)
  {
    hide WithinIndex, AllocateOutOf;
  }

  /** The entry that bounded allocation settles on, -1 for none. */
  function WithinIndex(es: seq<Range>, bytes: nat, lower: nat, upper: nat): (r: int)
    ensures -1 <= r < |es|
  {
    var first := Scan(es, 0, lower, true);
    if first < 0 then -1 else PickWithin(es, first, bytes, lower, upper)
  }

  lemma WithinIndexSound(es: seq<Range>, bytes: nat, lower: nat, upper: nat)
    requires WellFormed(es) && bytes > 0 && lower + bytes <= upper < ADDRESS_LIMIT
    ensures var i := WithinIndex(es, bytes, lower, upper);
            i >= 0 ==> es[i].kind == Free && Max(es[i].addr, lower) + bytes <= Min(es[i].End(), upper)
  {
    var first := Scan(es, 0, lower, true);
    if first >= 0 {
      assert es[first].Valid();
      PickWithinSound(es, first, bytes, lower, upper);
    }
  }

  /** The early exits lose nothing: any placement lies at or above the one chosen. */
  lemma WithinIndexLowest(es: seq<Range>, bytes: nat, lower: nat, upper: nat, b: int)
    requires Canonical(es) && bytes > 0 && lower + bytes <= upper < ADDRESS_LIMIT
    requires Placeable(es, b, bytes, lower, upper)
    ensures var i := WithinIndex(es, bytes, lower, upper);
            i >= 0 && Max(lower, es[i].addr) <= b
  {
    hide Placeable, Canonical;
    var k := PlacementEntry(es, b, bytes, lower, upper);
    assert lower <= b && b + bytes <= upper by { hide *; PlaceableBounds(es, b, bytes, lower, upper); }
    assert WellFormed(es) by { CanonicalIsWellFormed(es); }
    ScanLowest(es, 0, lower, k);
    var first := Scan(es, 0, lower, true);
    PickWithinComplete(es, first, bytes, lower, upper, k);
    var i := PickWithin(es, first, bytes, lower, upper);
    assert i < k ==> es[i].End() <= es[k].addr;
  }

  lemma PlaceableBounds(es: seq<Range>, a: int, bytes: nat, lower: int, upper: int)
    requires Placeable(es, a, bytes, lower, upper)
    ensures lower <= a && a + bytes <= upper
  {}

  lemma CanonicalIsWellFormed(es: seq<Range>)
    requires Canonical(es)
    ensures WellFormed(es)
  {}

  /** Bounded allocation returns the lowest possible placement in the window, and none exactly when
      there is none. */
  lemma WithinOptimal(es: seq<Range>, bytes: nat, lower: nat, upper: nat)
    requires Canonical(es) && bytes > 0 && lower + bytes <= upper < ADDRESS_LIMIT
    ensures var (o, _) := AllocateWithin(es, bytes, lower, upper);
            match o
            case Ok(a) => Placeable(es, a, bytes, lower, upper)
                          && forall b :: Placeable(es, b, bytes, lower, upper) ==> a <= b
            case NoMemory => forall b :: !Placeable(es, b, bytes, lower, upper)
            case Bug => false
  {
    hide Placeable, Canonical, AllocateOutOf, PickWithin;
    assert WellFormed(es) by { CanonicalIsWellFormed(es); }
    WithinIndexSound(es, bytes, lower, upper);
    var i := WithinIndex(es, bytes, lower, upper);
    if i >= 0 { RoomIsPlacement(es, i, Max(lower, es[i].addr), bytes, lower, upper); }
    forall b | Placeable(es, b, bytes, lower, upper)
      ensures i >= 0 && Max(lower, es[i].addr) <= b
    {
      WithinIndexLowest(es, bytes, lower, upper, b);
    }
  }
}
