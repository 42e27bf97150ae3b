/** The memory map of the boot allocator as a value: a sorted list of disjoint ranges,
    the address map it denotes, and the facts about such lists that do not depend on any
    allocator operation. */
module MemoryRanges {

  import opened Options
  import opened Words

  const ADDRESS_LIMIT: nat := U64

  datatype Kind = Free | Allocated

  /** One entry of the map. The packed form, with the kind in the lowest bit of the size, is in
      module BootAlloc. */
  datatype Range = Range(addr: nat, size: nat, kind: Kind) {
    function End(): nat { addr + size }

    predicate Contains(x: int) { addr <= x < End() }

    /** Non-empty, even (the lowest bit of the size word holds the kind) and with an end that is
        still a 64-bit address. */
    predicate Valid() {
      size > 0 && addr % 2 == 0 && size % 2 == 0 && End() < ADDRESS_LIMIT
    }
  }

  ghost predicate AllValid(es: seq<Range>) {
    forall i :: 0 <= i < |es| ==> es[i].Valid()
  }

  ghost predicate Ordered(es: seq<Range>) {
    forall i, j :: 0 <= i < j < |es| ==> es[i].End() <= es[j].addr
  }

  ghost predicate WellFormed(es: seq<Range>) {
    AllValid(es) && Ordered(es)
  }

  predicate Touching(a: Range, b: Range) {
    a.End() == b.addr && a.kind == b.kind
  }

  /** No two neighbours could be merged into one entry. */
  ghost predicate Canonical(es: seq<Range>) {
    WellFormed(es) && forall i {:trigger es[i]} :: 0 <= i < |es| - 1 ==> !Touching(es[i], es[i + 1])
  }

  // ---------------------------------------------------------------------------
  // The address map
  // ---------------------------------------------------------------------------

  /** What the map says about one address: nothing, free or allocated. */
  ghost function Lookup(es: seq<Range>, x: int): Option<Kind> {
    if es == [] then None
    else if es[0].Contains(x) then Some(es[0].kind)
    else Lookup(es[1..], x)
  }

  lemma {:induction false} LookupConcat(a: seq<Range>, b: seq<Range>, x: int)
    ensures Lookup(a + b, x) == if Lookup(a, x).Some? then Lookup(a, x) else Lookup(b, x)
  {
    if a == [] {
      assert a + b == b;
    } else {
      assert (a + b)[1..] == a[1..] + b;
      LookupConcat(a[1..], b, x);
    }
  }

  /** Lookup finds an entry that contains the address, and only then answers. */
  lemma {:induction false} LookupWitness(es: seq<Range>, x: int) returns (i: nat)
    requires Lookup(es, x).Some?
    ensures i < |es| && es[i].Contains(x) && Lookup(es, x) == Some(es[i].kind)
  {
    if es[0].Contains(x) {
      i := 0;
    } else {
      i := LookupWitness(es[1..], x);
      i := i + 1;
    }
  }

  lemma {:induction false} LookupAt(es: seq<Range>, i: nat, x: int)
    requires Ordered(es) && i < |es| && es[i].Contains(x)
    ensures Lookup(es, x) == Some(es[i].kind)
  {
    if i > 0 {
      assert es[0].End() <= es[i].addr;
      LookupAt(es[1..], i - 1, x);
    }
  }

  lemma {:induction false} LookupGap(es: seq<Range>, x: int)
    requires forall i :: 0 <= i < |es| ==> !es[i].Contains(x)
    ensures Lookup(es, x) == None
  {
    if es != [] {
      LookupGap(es[1..], x);
    }
  }

  /** Every address from lo up to hi has kind k. */
  ghost predicate Run(es: seq<Range>, lo: int, hi: int, k: Kind) {
    forall x :: lo <= x < hi ==> Lookup(es, x) == Some(k)
  }

  /** The whole stretch lies in a single entry of kind k. */
  ghost predicate InOneEntry(es: seq<Range>, lo: int, hi: int, k: Kind) {
    exists i :: 0 <= i < |es| && es[i].addr <= lo && hi <= es[i].End() && es[i].kind == k
  }

  lemma InOneEntryIsRun(es: seq<Range>, lo: int, hi: int, k: Kind)
    requires Ordered(es) && InOneEntry(es, lo, hi, k)
    ensures Run(es, lo, hi, k)
  {
    var i :| 0 <= i < |es| && es[i].addr <= lo && hi <= es[i].End() && es[i].kind == k;
    forall x | lo <= x < hi ensures Lookup(es, x) == Some(k) {
      LookupAt(es, i, x);
    }
  }

  ghost predicate SeamAt(es: seq<Range>, i: int, x: int) {
    0 <= i < |es| - 1 && Touching(es[i], es[i + 1]) && es[i].End() == x
  }

  /** x is a boundary between two neighbours that touch and have the same kind. */
  ghost predicate Seam(es: seq<Range>, x: int) {
    exists i :: SeamAt(es, i, x)
  }

  lemma RunWithoutSeam(es: seq<Range>, lo: int, hi: int, k: Kind)
    requires WellFormed(es) && lo < hi && Run(es, lo, hi, k)
    requires forall x :: lo < x < hi ==> !Seam(es, x)
    ensures InOneEntry(es, lo, hi, k)
  {
    assert Lookup(es, lo) == Some(k);
    var i := LookupWitness(es, lo);
    if es[i].End() < hi {
      var x := es[i].End();
      assert Lookup(es, x) == Some(k);
      var j := LookupWitness(es, x);
      NextEntry(es, i, j);
      assert SeamAt(es, i, x);
      assert Seam(es, x);
    }
  }

  lemma InOneEntryHasNoSeam(es: seq<Range>, lo: int, hi: int, k: Kind, x: int)
    requires WellFormed(es) && InOneEntry(es, lo, hi, k) && lo < x < hi
    ensures !Seam(es, x)
  {
    var i :| 0 <= i < |es| && es[i].addr <= lo && hi <= es[i].End() && es[i].kind == k;
    forall j ensures !SeamAt(es, j, x) {}
  }

  /** A stretch lies in one entry exactly when it is a run with no seam strictly inside it. */
  lemma OneEntryIsSeamlessRun(es: seq<Range>, lo: int, hi: int, k: Kind)
    requires WellFormed(es) && lo < hi
    ensures InOneEntry(es, lo, hi, k) <==>
            Run(es, lo, hi, k) && forall x :: lo < x < hi ==> !Seam(es, x)
  {
    if InOneEntry(es, lo, hi, k) {
      InOneEntryIsRun(es, lo, hi, k);
      forall x | lo < x < hi ensures !Seam(es, x) { InOneEntryHasNoSeam(es, lo, hi, k, x); }
    } else if Run(es, lo, hi, k) && forall x :: lo < x < hi ==> !Seam(es, x) {
      RunWithoutSeam(es, lo, hi, k);
    }
  }

  /** The entry that contains the end address of entry i is the next one, and starts there. */
  lemma NextEntry(es: seq<Range>, i: nat, j: nat)
    requires WellFormed(es) && i < |es| && j < |es| && es[j].Contains(es[i].End())
    ensures j == i + 1 && es[j].addr == es[i].End()
  {
    if i + 1 < |es| { assert es[i].End() <= es[i + 1].addr && es[i + 1].Valid(); }
  }

  /** In a canonical map every run lies in one entry. */
  lemma CanonicalRun(es: seq<Range>, lo: int, hi: int, k: Kind)
    requires Canonical(es) && lo < hi && Run(es, lo, hi, k)
    ensures InOneEntry(es, lo, hi, k)
  {
    CanonicalSeams(es);
    RunWithoutSeam(es, lo, hi, k);
  }

  // ---------------------------------------------------------------------------
  // A canonical list is determined by the address map it denotes
  // ---------------------------------------------------------------------------

  ghost predicate SameMap(es: seq<Range>, fs: seq<Range>) {
    forall x: int :: Lookup(es, x) == Lookup(fs, x)
  }

  lemma CanonicalTail(es: seq<Range>)
    requires Canonical(es) && es != []
    ensures Canonical(es[1..])
  {
    var t := es[1..];
    forall i | 0 <= i < |t| - 1 ensures !Touching(t[i], t[i + 1]) {
      assert t[i] == es[i + 1] && t[i + 1] == es[i + 2];
    }
  }

  /** Below its first entry a well-formed list says nothing; at it, its kind. */
  lemma FirstEntry(es: seq<Range>, x: int)
    requires WellFormed(es) && es != [] && x <= es[0].addr
    ensures Lookup(es, x) == if x == es[0].addr then Some(es[0].kind) else None
  {
    assert es[0].Valid();
    if x < es[0].addr {
      forall i | 0 <= i < |es| ensures !es[i].Contains(x) {
        if i > 0 { assert es[0].End() <= es[i].addr; }
      }
      LookupGap(es, x);
    } else {
      LookupAt(es, 0, x);
    }
  }

  /** The first entry of a canonical list cannot be shorter than that of another list
      with the same map. */
  lemma FirstEntryMaximal(es: seq<Range>, fs: seq<Range>)
    requires Canonical(es) && WellFormed(fs) && es != [] && fs != []
    requires SameMap(es, fs) && es[0].addr == fs[0].addr && es[0].kind == fs[0].kind
    ensures fs[0].End() <= es[0].End()
  {
    assert es[0].Valid() && fs[0].Valid();
    if es[0].End() < fs[0].End() {
      var x := es[0].End();
      LookupAt(fs, 0, x);
      assert Lookup(es, x) == Some(fs[0].kind);
      var j := LookupWitness(es, x);
      NextEntry(es, 0, j);
      assert Touching(es[0], es[1]);
    }
  }

  lemma TailMap(es: seq<Range>, x: int)
    requires WellFormed(es) && es != []
    ensures Lookup(es[1..], x) == if x < es[0].End() then None else Lookup(es, x)
  {
    if x < es[0].End() {
      forall i | 0 <= i < |es[1..]| ensures !es[1..][i].Contains(x) {
        assert es[0].End() <= es[i + 1].addr;
      }
      LookupGap(es[1..], x);
    }
  }

  lemma EmptyMap(es: seq<Range>)
    requires WellFormed(es) && SameMap(es, [])
    ensures es == []
  {
    if es != [] {
      FirstEntry(es, es[0].addr);
      assert false;
    }
  }

  lemma {:induction false} CanonicalUnique(es: seq<Range>, fs: seq<Range>)
    requires Canonical(es) && Canonical(fs) && SameMap(es, fs)
    ensures es == fs
    decreases |es|
  {
    if es == [] {
      EmptyMap(fs);
    } else if fs == [] {
      EmptyMap(es);
    } else {
      var x, y := es[0].addr, fs[0].addr;
      FirstEntry(es, x); FirstEntry(fs, y);
      assert Lookup(es, x) == Lookup(fs, x) && Lookup(es, y) == Lookup(fs, y);
      if x < y { FirstEntry(fs, x); }
      if y < x { FirstEntry(es, y); }
      FirstEntryMaximal(es, fs);
      FirstEntryMaximal(fs, es);
      assert es[0] == fs[0];
      forall z: int ensures Lookup(es[1..], z) == Lookup(fs[1..], z) {
        TailMap(es, z); TailMap(fs, z);
        assert Lookup(es, z) == Lookup(fs, z);
      }
      CanonicalTail(es); CanonicalTail(fs);
      CanonicalUnique(es[1..], fs[1..]);
      assert es == [es[0]] + es[1..] && fs == [fs[0]] + fs[1..];
    }
  }

  // ---------------------------------------------------------------------------
  // Bytes
  // ---------------------------------------------------------------------------

  /** Bytes recorded with kind k. */
  ghost function Bytes(es: seq<Range>, k: Kind): nat {
    if es == [] then 0
    else (if es[0].kind == k then es[0].size else 0) + Bytes(es[1..], k)
  }

  lemma {:induction false} BytesConcat(a: seq<Range>, b: seq<Range>, k: Kind)
    ensures Bytes(a + b, k) == Bytes(a, k) + Bytes(b, k)
  {
    if a == [] {
      assert a + b == b;
    } else {
      assert (a + b)[1..] == a[1..] + b;
      BytesConcat(a[1..], b, k);
    }
  }

  // ---------------------------------------------------------------------------
  // Lists put together from parts
  // ---------------------------------------------------------------------------

  function Last(es: seq<Range>): Range
    requires es != []
  {
    es[|es| - 1]
  }

  lemma WellFormedConcat(a: seq<Range>, b: seq<Range>)
    requires a != [] && b != []
    ensures WellFormed(a + b) <==> WellFormed(a) && WellFormed(b) && Last(a).End() <= b[0].addr
  {
    var c := a + b;
    if WellFormed(c) {
      WellFormedParts(a, b);
    } else if WellFormed(a) && WellFormed(b) && Last(a).End() <= b[0].addr {
      forall i, j | 0 <= i < j < |c| ensures c[i].End() <= c[j].addr {
        if i < |a| <= j {
          assert a[i].Valid() && b[j - |a|].Valid() && Last(a).Valid() && b[0].Valid();
          assert i < |a| - 1 ==> a[i].End() <= Last(a).addr;
          assert j > |a| ==> b[0].End() <= b[j - |a|].addr;
        }
      }
    }
  }

  lemma WellFormedParts(a: seq<Range>, b: seq<Range>)
    requires WellFormed(a + b)
    ensures WellFormed(a) && WellFormed(b)
    ensures a != [] && b != [] ==> Last(a).End() <= b[0].addr
  {
    var c := a + b;
    forall i | 0 <= i < |a| ensures a[i].Valid() { assert c[i].Valid(); }
    forall i | 0 <= i < |b| ensures b[i].Valid() { assert c[|a| + i].Valid(); }
    forall i, j | 0 <= i < j < |a| ensures a[i].End() <= a[j].addr { assert c[i].End() <= c[j].addr; }
    forall i, j | 0 <= i < j < |b| ensures b[i].End() <= b[j].addr {
      assert c[|a| + i].End() <= c[|a| + j].addr;
    }
    if a != [] && b != [] { assert c[|a| - 1].End() <= c[|a|].addr; }
  }

  lemma SeamConcat(a: seq<Range>, b: seq<Range>, x: int)
    ensures Seam(a + b, x) <==>
            || Seam(a, x) || Seam(b, x)
            || (a != [] && b != [] && Touching(Last(a), b[0]) && b[0].addr == x)
  {
    var c := a + b;
    if Seam(c, x) {
      var i :| SeamAt(c, i, x);
      if i < |a| - 1 { assert SeamAt(a, i, x); }
      else if i >= |a| { assert SeamAt(b, i - |a|, x); }
    }
    if Seam(a, x) {
      var i :| SeamAt(a, i, x);
      assert SeamAt(c, i, x);
    }
    if Seam(b, x) {
      var i :| SeamAt(b, i, x);
      assert SeamAt(c, |a| + i, x);
    }
    if a != [] && b != [] && Touching(Last(a), b[0]) && b[0].addr == x {
      assert SeamAt(c, |a| - 1, x);
    }
  }

  /** No seam at all. */
  lemma CanonicalSeams(es: seq<Range>)
    requires WellFormed(es)
    ensures Canonical(es) <==> forall x: int :: !Seam(es, x)
  {
    if Canonical(es) {
      forall x: int ensures !Seam(es, x) {}
    } else {
      var i :| 0 <= i < |es| - 1 && Touching(es[i], es[i + 1]);
      assert SeamAt(es, i, es[i].End());
      assert Seam(es, es[i].End());
    }
  }

  lemma LookupBelowLast(es: seq<Range>, x: int)
    requires WellFormed(es) && Lookup(es, x).Some?
    ensures es != [] && es[0].addr <= x < Last(es).End()
  {
    var i := LookupWitness(es, x);
    assert Last(es).Valid() && es[0].Valid();
    assert i < |es| - 1 ==> es[i].End() <= Last(es).addr;
    assert 0 < i ==> es[0].End() <= es[i].addr;
  }

  lemma LookupTwo(a: Range, b: Range, x: int)
    ensures Lookup([a, b], x) == if a.Contains(x) then Some(a.kind) else Lookup([b], x)
  {
    assert [a, b][1..] == [b];
  }

  lemma LookupThree(a: Range, b: Range, c: Range, x: int)
    ensures Lookup([a, b, c], x) == if a.Contains(x) then Some(a.kind) else Lookup([b, c], x)
  {
    assert [a, b, c][1..] == [b, c];
  }

  lemma BytesTwo(a: Range, b: Range, k: Kind)
    ensures Bytes([a, b], k) == Bytes([a], k) + Bytes([b], k)
  {
    BytesConcat([a], [b], k);
    assert [a, b] == [a] + [b];
  }

  lemma BytesThree(a: Range, b: Range, c: Range, k: Kind)
    ensures Bytes([a, b, c], k) == Bytes([a], k) + Bytes([b, c], k)
  {
    BytesConcat([a], [b, c], k);
    assert [a, b, c] == [a] + [b, c];
  }
}
