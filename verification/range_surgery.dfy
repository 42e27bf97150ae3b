/** The nine-way split and merge of the boot allocator on values, and what it means. */
module RangeSurgery {
  import opened Options
  import opened MemoryRanges

  /** The two conditions that allocate_out_of insists on. */
  ghost predicate Fits(es: seq<Range>, i: nat, n: Range) {
    && i < |es|
    && n.Valid()
    && es[i].addr <= n.addr && n.End() <= es[i].End()
    && es[i].kind != n.kind
  }

  function LeftPiece(c: Range, n: Range): Range
    requires c.addr <= n.addr
  {
    Range(c.addr, n.addr - c.addr, c.kind)
  }

  function RightPiece(c: Range, n: Range): Range
    requires n.End() <= c.End()
  {
    Range(n.End(), c.End() - n.End(), c.kind)
  }

  predicate MergesBefore(es: seq<Range>, i: nat, n: Range)
    requires i < |es|
  {
    i > 0 && Touching(es[i - 1], n)
  }

  predicate MergesAfter(es: seq<Range>, i: nat, n: Range)
    requires i < |es|
  {
    i + 1 < |es| && Touching(n, es[i + 1])
  }

  function Merge(a: Range, b: Range): Range
    requires Touching(a, b)
  {
    Range(a.addr, a.size + b.size, a.kind)
  }

  /** Give the stretch n of entry i the opposite kind. */
  function AllocateOutOf(es: seq<Range>, i: nat, n: Range): seq<Range>
    requires i < |es| && es[i].addr <= n.addr && n.End() <= es[i].End()
  {
    var l, r := LeftPiece(es[i], n), RightPiece(es[i], n);
    var before, after := MergesBefore(es, i, n), MergesAfter(es, i, n);
    if l.size > 0 && r.size > 0 then              // case 1
      es[..i] + [l, n, r] + es[i + 1..]
    else if r.size > 0 then
      if before then                              // case 2a
        es[..i - 1] + [Merge(es[i - 1], n), r] + es[i + 1..]
      else                                        // case 2b
        es[..i] + [n, r] + es[i + 1..]
    else if l.size > 0 then
      if after then                               // case 3a
        es[..i] + [l, Merge(n, es[i + 1])] + es[i + 2..]
      else                                        // case 3b
        es[..i] + [l, n] + es[i + 1..]
    else if before && after then                  // case 4b
      es[..i - 1] + [Merge(Merge(es[i - 1], n), es[i + 1])] + es[i + 2..]
    else if before then                           // case 4c
      es[..i - 1] + [Merge(es[i - 1], n)] + es[i + 1..]
    else if after then                            // case 4d
      es[..i] + [Merge(n, es[i + 1])] + es[i + 2..]
    else                                          // case 4a
      es[..i] + [n] + es[i + 1..]
  }

  /** By how much the number of entries changes. */
  function Growth(es: seq<Range>, i: nat, n: Range): int
    requires i < |es|
  {
    (if es[i].addr < n.addr then 1 else if MergesBefore(es, i, n) then -1 else 0)
    + (if n.End() < es[i].End() then 1 else if MergesAfter(es, i, n) then -1 else 0)
  }

  lemma EntryGrowth(es: seq<Range>, i: nat, n: Range)
    requires Fits(es, i, n)
    ensures |AllocateOutOf(es, i, n)| == |es| + Growth(es, i, n)
    ensures -2 <= Growth(es, i, n) <= 2
  {}

  // ---------------------------------------------------------------------------
  // What the surgery means
  // ---------------------------------------------------------------------------

  ghost function Overwrite(old_: Option<Kind>, n: Range, x: int): Option<Kind> {
    if n.Contains(x) then Some(n.kind) else old_
  }

  ghost function Change(n: Range, k: Kind): int {
    if k == n.kind then n.size else 0 - n.size
  }

  /** fs is well-formed and denotes the map of es overwritten on exactly n; no two neighbours touch
      and agree in kind unless they did before; no byte is lost or gained. */
  ghost predicate Overwrites(es: seq<Range>, fs: seq<Range>, n: Range) {
    && WellFormed(fs)
    && (forall x: int :: Lookup(fs, x) == Overwrite(Lookup(es, x), n, x))
    && (forall x: int :: Seam(fs, x) ==> Seam(es, x))
    && (forall k: Kind :: Bytes(fs, k) == Bytes(es, k) + Change(n, k))
  }

  /** The same for the few entries that change, and their neighbours see nothing new. */
  ghost predicate Replaces(a: seq<Range>, m: seq<Range>, b: seq<Range>, m': seq<Range>, n: Range) {
    && m != [] && m' != []
    && Overwrites(m, m', n)
    && m'[0].addr == m[0].addr && Last(m').End() == Last(m).End()
    && (a != [] && Touching(Last(a), m'[0]) ==> Touching(Last(a), m[0]))
    && (b != [] && Touching(Last(m'), b[0]) ==> Touching(Last(m), b[0]))
  }

  lemma SpliceBehind(a: seq<Range>, m: seq<Range>, m': seq<Range>)
    requires m != [] && m' != [] && WellFormed(m') && m'[0].addr == m[0].addr && WellFormed(a + m)
    ensures WellFormed(a + m')
  {
    WellFormedParts(a, m);
    if a != [] { WellFormedConcat(a, m'); } else { assert a + m' == m'; }
  }

  lemma SpliceBefore(m: seq<Range>, b: seq<Range>, m': seq<Range>)
    requires m != [] && m' != [] && WellFormed(m') && Last(m').End() == Last(m).End() && WellFormed(m + b)
    ensures WellFormed(m' + b)
  {
    WellFormedParts(m, b);
    if b != [] { WellFormedConcat(m', b); } else { assert m' + b == m'; }
  }

  lemma SpliceWellFormed(a: seq<Range>, m: seq<Range>, b: seq<Range>, m': seq<Range>)
    requires m != [] && m' != [] && WellFormed(m')
    requires m'[0].addr == m[0].addr && Last(m').End() == Last(m).End()
    requires WellFormed(a + m + b)
    ensures WellFormed(a + m' + b)
  {
    hide Ordered, AllValid;
    WellFormedParts(a + m, b);
    SpliceBehind(a, m, m');
    hide WellFormed;
    SpliceBefore(a + m, b, a + m');
  }

  lemma SpliceSeam(a: seq<Range>, m: seq<Range>, b: seq<Range>, m': seq<Range>, n: Range, x: int)
    requires Replaces(a, m, b, m', n)
    ensures Seam(a + m' + b, x) ==> Seam(a + m + b, x)
  {
    SeamConcat(a + m, b, x); SeamConcat(a, m, x);
    SeamConcat(a + m', b, x); SeamConcat(a, m', x);
    assert Last(a + m) == Last(m) && Last(a + m') == Last(m');
  }

  lemma SpliceLookup(a: seq<Range>, m: seq<Range>, b: seq<Range>, m': seq<Range>, n: Range, x: int)
    requires Replaces(a, m, b, m', n)
    requires WellFormed(a + m + b)
    requires m[0].addr <= n.addr && n.End() <= Last(m).End()
    ensures Lookup(a + m' + b, x) == Overwrite(Lookup(a + m + b, x), n, x)
  {
    LookupConcat(a + m, b, x); LookupConcat(a, m, x);
    LookupConcat(a + m', b, x); LookupConcat(a, m', x);
    WellFormedParts(a + m, b); WellFormedParts(a, m);
    if n.Contains(x) && Lookup(a, x).Some? {
      LookupBelowLast(a, x);
    }
  }

  lemma SpliceBytes(a: seq<Range>, m: seq<Range>, b: seq<Range>, k: Kind)
    ensures Bytes(a + m + b, k) == Bytes(a, k) + Bytes(m, k) + Bytes(b, k)
  {
    BytesConcat(a + m, b, k); BytesConcat(a, m, k);
  }

  lemma Splice(a: seq<Range>, m: seq<Range>, b: seq<Range>, m': seq<Range>, n: Range)
    requires Replaces(a, m, b, m', n)
    requires WellFormed(a + m + b)
    requires m[0].addr <= n.addr && n.End() <= Last(m).End()
    ensures Overwrites(a + m + b, a + m' + b, n)
  {
    SpliceWellFormed(a, m, b, m');
    forall x: int ensures Lookup(a + m' + b, x) == Overwrite(Lookup(a + m + b, x), n, x) {
      SpliceLookup(a, m, b, m', n, x);
    }
    forall x: int ensures Seam(a + m' + b, x) ==> Seam(a + m + b, x) {
      SpliceSeam(a, m, b, m', n, x);
    }
    forall k: Kind ensures Bytes(a + m' + b, k) == Bytes(a + m + b, k) + Change(n, k) {
      SpliceBytes(a, m, b, k); SpliceBytes(a, m', b, k);
    }
  }

  // ---------------------------------------------------------------------------
  // The nine cases, each on the entries it touches
  // ---------------------------------------------------------------------------

  lemma SeamPair(a: Range, b: Range, x: int)
    ensures Seam([a, b], x) <==> Touching(a, b) && b.addr == x
  {
    SeamConcat([a], [b], x);
    assert [a, b] == [a] + [b];
  }

  lemma SeamTriple(a: Range, b: Range, c: Range, x: int)
    ensures Seam([a, b, c], x) <==> (Touching(a, b) && b.addr == x) || (Touching(b, c) && c.addr == x)
  {
    SeamConcat([a, b], [c], x);
    SeamPair(a, b, x);
    assert [a, b, c] == [a, b] + [c];
  }

  lemma Case1Lookup(c: Range, n: Range, x: int)
    requires c.Valid() && n.Valid() && c.kind != n.kind && c.addr < n.addr && n.End() < c.End()
    ensures Lookup([LeftPiece(c, n), n, RightPiece(c, n)], x) == Overwrite(Lookup([c], x), n, x)
  {
    LookupThree(LeftPiece(c, n), n, RightPiece(c, n), x); LookupTwo(n, RightPiece(c, n), x);
  }

  lemma Case1(c: Range, n: Range)
    requires c.Valid() && n.Valid() && c.kind != n.kind && c.addr < n.addr && n.End() < c.End()
    ensures Overwrites([c], [LeftPiece(c, n), n, RightPiece(c, n)], n)
  {
    var l, r := LeftPiece(c, n), RightPiece(c, n);
    hide Lookup;
    forall k: Kind ensures Bytes([l, n, r], k) == Bytes([c], k) + Change(n, k) {
      BytesThree(l, n, r, k); BytesTwo(n, r, k);
    }
    hide Bytes;
    forall x: int ensures Lookup([l, n, r], x) == Overwrite(Lookup([c], x), n, x) { Case1Lookup(c, n, x); }
    forall x: int ensures Seam([l, n, r], x) ==> Seam([c], x) { SeamTriple(l, n, r, x); }
  }

  lemma Case2aLookup(p: Range, c: Range, n: Range, x: int)
    requires p.Valid() && c.Valid() && n.Valid() && c.kind != n.kind
    requires Touching(p, n) && c.addr == n.addr && n.End() < c.End()
    ensures Lookup([Merge(p, n), RightPiece(c, n)], x) == Overwrite(Lookup([p, c], x), n, x)
  {
    LookupTwo(Merge(p, n), RightPiece(c, n), x); LookupTwo(p, c, x);
  }

  lemma Case2aBytes(p: Range, c: Range, n: Range, k: Kind)
    requires p.Valid() && c.Valid() && n.Valid() && c.kind != n.kind
    requires Touching(p, n) && c.addr == n.addr && n.End() < c.End()
    ensures Bytes([Merge(p, n), RightPiece(c, n)], k) == Bytes([p, c], k) + Change(n, k)
  {
    BytesTwo(Merge(p, n), RightPiece(c, n), k); BytesTwo(p, c, k);
  }

  lemma Case2a(p: Range, c: Range, n: Range)
    requires p.Valid() && c.Valid() && n.Valid() && c.kind != n.kind
    requires Touching(p, n) && c.addr == n.addr && n.End() < c.End()
    ensures Overwrites([p, c], [Merge(p, n), RightPiece(c, n)], n)
  {
    var q, r := Merge(p, n), RightPiece(c, n);
    hide Lookup, Bytes;
    forall k: Kind ensures Bytes([q, r], k) == Bytes([p, c], k) + Change(n, k) { Case2aBytes(p, c, n, k); }
    forall x: int ensures Lookup([q, r], x) == Overwrite(Lookup([p, c], x), n, x) { Case2aLookup(p, c, n, x); }
    forall x: int ensures Seam([q, r], x) ==> Seam([p, c], x) { SeamPair(q, r, x); }
  }

  lemma Case2b(c: Range, n: Range)
    requires c.Valid() && n.Valid() && c.kind != n.kind && c.addr == n.addr && n.End() < c.End()
    ensures Overwrites([c], [n, RightPiece(c, n)], n)
  {
    var r := RightPiece(c, n);
    forall x: int ensures Lookup([n, r], x) == Overwrite(Lookup([c], x), n, x) { LookupTwo(n, r, x); }
    forall x: int ensures Seam([n, r], x) ==> Seam([c], x) { SeamPair(n, r, x); }
    forall k: Kind ensures Bytes([n, r], k) == Bytes([c], k) + Change(n, k) { BytesTwo(n, r, k); }
  }

  lemma Case3aLookup(c: Range, s: Range, n: Range, x: int)
    requires c.Valid() && s.Valid() && n.Valid() && c.kind != n.kind
    requires Touching(n, s) && c.addr < n.addr && n.End() == c.End()
    ensures Lookup([LeftPiece(c, n), Merge(n, s)], x) == Overwrite(Lookup([c, s], x), n, x)
  {
    LookupTwo(LeftPiece(c, n), Merge(n, s), x); LookupTwo(c, s, x);
  }

  lemma Case3a(c: Range, s: Range, n: Range)
    requires c.Valid() && s.Valid() && n.Valid() && c.kind != n.kind
    requires Touching(n, s) && c.addr < n.addr && n.End() == c.End()
    ensures Overwrites([c, s], [LeftPiece(c, n), Merge(n, s)], n)
  {
    var l, q := LeftPiece(c, n), Merge(n, s);
    hide Lookup;
    forall k: Kind ensures Bytes([l, q], k) == Bytes([c, s], k) + Change(n, k) {
      BytesTwo(l, q, k); BytesTwo(c, s, k);
    }
    hide Bytes;
    forall x: int ensures Lookup([l, q], x) == Overwrite(Lookup([c, s], x), n, x) { Case3aLookup(c, s, n, x); }
    forall x: int ensures Seam([l, q], x) ==> Seam([c, s], x) { SeamPair(l, q, x); }
  }

  lemma Case3b(c: Range, n: Range)
    requires c.Valid() && n.Valid() && c.kind != n.kind && c.addr < n.addr && n.End() == c.End()
    ensures Overwrites([c], [LeftPiece(c, n), n], n)
  {
    var l := LeftPiece(c, n);
    forall x: int ensures Lookup([l, n], x) == Overwrite(Lookup([c], x), n, x) { LookupTwo(l, n, x); }
    forall x: int ensures Seam([l, n], x) ==> Seam([c], x) { SeamPair(l, n, x); }
    forall k: Kind ensures Bytes([l, n], k) == Bytes([c], k) + Change(n, k) { BytesTwo(l, n, k); }
  }

  lemma Case4a(c: Range, n: Range)
    requires c.Valid() && n.Valid() && c.kind != n.kind && c.addr == n.addr && n.End() == c.End()
    ensures Overwrites([c], [n], n)
  {
    forall x: int ensures Seam([n], x) ==> Seam([c], x) {}
    forall x: int ensures Lookup([n], x) == Overwrite(Lookup([c], x), n, x) {}
  }

  lemma Case4bLookup(p: Range, c: Range, s: Range, n: Range, x: int)
    requires p.Valid() && c.Valid() && s.Valid() && n.Valid() && c.kind != n.kind
    requires c.addr == n.addr && n.End() == c.End() && Touching(p, n) && Touching(n, s)
    ensures Lookup([Merge(Merge(p, n), s)], x) == Overwrite(Lookup([p, c, s], x), n, x)
  {
    LookupThree(p, c, s, x); LookupTwo(c, s, x);
  }

  lemma Case4b(p: Range, c: Range, s: Range, n: Range)
    requires p.Valid() && c.Valid() && s.Valid() && n.Valid() && c.kind != n.kind
    requires c.addr == n.addr && n.End() == c.End() && Touching(p, n) && Touching(n, s)
    ensures Overwrites([p, c, s], [Merge(Merge(p, n), s)], n)
  {
    var q := Merge(Merge(p, n), s);
    hide Lookup;
    forall k: Kind ensures Bytes([q], k) == Bytes([p, c, s], k) + Change(n, k) {
      BytesThree(p, c, s, k); BytesTwo(c, s, k);
    }
    hide Bytes;
    forall x: int ensures Lookup([q], x) == Overwrite(Lookup([p, c, s], x), n, x) { Case4bLookup(p, c, s, n, x); }
    forall x: int ensures Seam([q], x) ==> Seam([p, c, s], x) {}
  }

  lemma Case4c(p: Range, c: Range, n: Range)
    requires p.Valid() && c.Valid() && n.Valid() && c.kind != n.kind
    requires c.addr == n.addr && n.End() == c.End() && Touching(p, n)
    ensures Overwrites([p, c], [Merge(p, n)], n)
  {
    var q := Merge(p, n);
    forall x: int ensures Lookup([q], x) == Overwrite(Lookup([p, c], x), n, x) { LookupTwo(p, c, x); }
    forall x: int ensures Seam([q], x) ==> Seam([p, c], x) {}
    forall k: Kind ensures Bytes([q], k) == Bytes([p, c], k) + Change(n, k) { BytesTwo(p, c, k); }
  }

  lemma Case4d(c: Range, s: Range, n: Range)
    requires c.Valid() && s.Valid() && n.Valid() && c.kind != n.kind
    requires c.addr == n.addr && n.End() == c.End() && Touching(n, s)
    ensures Overwrites([c, s], [Merge(n, s)], n)
  {
    var q := Merge(n, s);
    forall x: int ensures Lookup([q], x) == Overwrite(Lookup([c, s], x), n, x) { LookupTwo(c, s, x); }
    forall x: int ensures Seam([q], x) ==> Seam([c, s], x) {}
    forall k: Kind ensures Bytes([q], k) == Bytes([c, s], k) + Change(n, k) { BytesTwo(c, s, k); }
  }

  /** Splice, with the old and new lists named. */
  lemma SpliceInto(es: seq<Range>, lo: nat, hi: nat, m': seq<Range>, fs: seq<Range>, n: Range)
    requires WellFormed(es) && lo < hi <= |es| && fs == es[..lo] + m' + es[hi..]
    requires Replaces(es[..lo], es[lo..hi], es[hi..], m', n)
    requires es[lo].addr <= n.addr && n.End() <= es[hi - 1].End()
    ensures Overwrites(es, fs, n)
  {
    hide Replaces, Overwrites, WellFormed;
    assert es == es[..lo] + es[lo..hi] + es[hi..];
    Splice(es[..lo], es[lo..hi], es[hi..], m', n);
  }

  lemma MiddleOverwrites(es: seq<Range>, i: nat, n: Range)
    requires WellFormed(es) && Fits(es, i, n)
    requires es[i].addr < n.addr && n.End() < es[i].End()
    ensures Overwrites(es, AllocateOutOf(es, i, n), n)
  {
    assert es[i].Valid() && es[i..i + 1] == [es[i]];
    Case1(es[i], n);
    SpliceInto(es, i, i + 1, [LeftPiece(es[i], n), n, RightPiece(es[i], n)], AllocateOutOf(es, i, n), n);
  }

  lemma LeftOverwrites(es: seq<Range>, i: nat, n: Range)
    requires WellFormed(es) && Fits(es, i, n)
    requires es[i].addr == n.addr && n.End() < es[i].End()
    ensures Overwrites(es, AllocateOutOf(es, i, n), n)
  {
    var r := RightPiece(es[i], n);
    if MergesBefore(es, i, n) {
      assert es[i - 1].Valid() && es[i].Valid() && es[i - 1..i + 1] == [es[i - 1], es[i]];
      Case2a(es[i - 1], es[i], n);
      SpliceInto(es, i - 1, i + 1, [Merge(es[i - 1], n), r], AllocateOutOf(es, i, n), n);
    } else {
      assert es[i].Valid() && es[i..i + 1] == [es[i]];
      Case2b(es[i], n);
      SpliceInto(es, i, i + 1, [n, r], AllocateOutOf(es, i, n), n);
    }
  }

  lemma RightOverwrites(es: seq<Range>, i: nat, n: Range)
    requires WellFormed(es) && Fits(es, i, n)
    requires es[i].addr < n.addr && n.End() == es[i].End()
    ensures Overwrites(es, AllocateOutOf(es, i, n), n)
  {
    var l := LeftPiece(es[i], n);
    if MergesAfter(es, i, n) {
      assert es[i].Valid() && es[i + 1].Valid() && es[i..i + 2] == [es[i], es[i + 1]];
      Case3a(es[i], es[i + 1], n);
      SpliceInto(es, i, i + 2, [l, Merge(n, es[i + 1])], AllocateOutOf(es, i, n), n);
    } else {
      assert es[i].Valid() && es[i..i + 1] == [es[i]];
      Case3b(es[i], n);
      SpliceInto(es, i, i + 1, [l, n], AllocateOutOf(es, i, n), n);
    }
  }

  lemma WholeOverwritesBefore(es: seq<Range>, i: nat, n: Range)
    requires WellFormed(es) && Fits(es, i, n) && MergesBefore(es, i, n)
    requires es[i].addr == n.addr && n.End() == es[i].End()
    ensures Overwrites(es, AllocateOutOf(es, i, n), n)
  {
    var p, c := es[i - 1], es[i];
    assert p.Valid() && c.Valid();
    if MergesAfter(es, i, n) {
      var s := es[i + 1];
      assert s.Valid() && es[i - 1..i + 2] == [p, c, s];
      Case4b(p, c, s, n);
      SpliceInto(es, i - 1, i + 2, [Merge(Merge(p, n), s)], AllocateOutOf(es, i, n), n);
    } else {
      assert es[i - 1..i + 1] == [p, c];
      Case4c(p, c, n);
      SpliceInto(es, i - 1, i + 1, [Merge(p, n)], AllocateOutOf(es, i, n), n);
    }
  }

  lemma WholeOverwritesAlone(es: seq<Range>, i: nat, n: Range)
    requires WellFormed(es) && Fits(es, i, n) && !MergesBefore(es, i, n)
    requires es[i].addr == n.addr && n.End() == es[i].End()
    ensures Overwrites(es, AllocateOutOf(es, i, n), n)
  {
    var c := es[i];
    assert c.Valid();
    if MergesAfter(es, i, n) {
      var s := es[i + 1];
      assert s.Valid() && es[i..i + 2] == [c, s];
      Case4d(c, s, n);
      SpliceInto(es, i, i + 2, [Merge(n, s)], AllocateOutOf(es, i, n), n);
    } else {
      assert es[i..i + 1] == [c];
      Case4a(c, n);
      SpliceInto(es, i, i + 1, [n], AllocateOutOf(es, i, n), n);
    }
  }

  /** All nine cases of the surgery refine one thing: overwriting the address map on n. */
  lemma AllocateOutOfOverwrites(es: seq<Range>, i: nat, n: Range)
    requires WellFormed(es) && Fits(es, i, n)
    ensures Overwrites(es, AllocateOutOf(es, i, n), n)
  {
    if es[i].addr < n.addr && n.End() < es[i].End() {
      MiddleOverwrites(es, i, n);
    } else if n.End() < es[i].End() {
      LeftOverwrites(es, i, n);
    } else if es[i].addr < n.addr {
      RightOverwrites(es, i, n);
    } else if MergesBefore(es, i, n) {
      WholeOverwritesBefore(es, i, n);
    } else {
      WholeOverwritesAlone(es, i, n);
    }
  }

  // ---------------------------------------------------------------------------
  // Consequences for stretches and for canonical lists
  // ---------------------------------------------------------------------------

  /** The new stretch lies in one entry. */
  lemma NewStretchInOneEntry(es: seq<Range>, i: nat, n: Range)
    requires WellFormed(es) && Fits(es, i, n)
    ensures InOneEntry(AllocateOutOf(es, i, n), n.addr, n.End(), n.kind)
  {
    var fs := AllocateOutOf(es, i, n);
    AllocateOutOfOverwrites(es, i, n);
    assert InOneEntry(es, n.addr, n.End(), es[i].kind);
    forall x | n.addr < x < n.End() ensures !Seam(fs, x) {
      InOneEntryHasNoSeam(es, n.addr, n.End(), es[i].kind, x);
    }
    RunWithoutSeam(fs, n.addr, n.End(), n.kind);
  }

  /** A stretch away from n that lay in one entry still does. */
  lemma OtherStretchKept(es: seq<Range>, i: nat, n: Range, lo: int, hi: int, k: Kind)
    requires WellFormed(es) && Fits(es, i, n)
    requires lo < hi && InOneEntry(es, lo, hi, k) && (hi <= n.addr || n.End() <= lo)
    ensures InOneEntry(AllocateOutOf(es, i, n), lo, hi, k)
  {
    var fs := AllocateOutOf(es, i, n);
    AllocateOutOfOverwrites(es, i, n);
    InOneEntryIsRun(es, lo, hi, k);
    forall x | lo < x < hi ensures !Seam(fs, x) { InOneEntryHasNoSeam(es, lo, hi, k, x); }
    assert Run(fs, lo, hi, k);
    RunWithoutSeam(fs, lo, hi, k);
  }

  lemma CanonicalKept(es: seq<Range>, i: nat, n: Range)
    requires Canonical(es) && Fits(es, i, n)
    ensures Canonical(AllocateOutOf(es, i, n))
  {
    AllocateOutOfOverwrites(es, i, n);
    CanonicalSeams(es);
    CanonicalSeams(AllocateOutOf(es, i, n));
  }

  function Opposite(k: Kind): Kind {
    if k == Free then Allocated else Free
  }

  /** Carving n out of a canonical list and giving it back restores the list, entry for entry. */
  lemma CarveAndGiveBack(es: seq<Range>, i: nat, n: Range, j: nat)
    requires Canonical(es) && Fits(es, i, n)
    requires Fits(AllocateOutOf(es, i, n), j, n.(kind := Opposite(n.kind)))
    ensures AllocateOutOf(AllocateOutOf(es, i, n), j, n.(kind := Opposite(n.kind))) == es
  {
    var fs := AllocateOutOf(es, i, n);
    var n' := n.(kind := Opposite(n.kind));
    var gs := AllocateOutOf(fs, j, n');
    AllocateOutOfOverwrites(es, i, n);
    CanonicalKept(es, i, n);
    AllocateOutOfOverwrites(fs, j, n');
    CanonicalKept(fs, j, n');
    forall x: int ensures Lookup(gs, x) == Lookup(es, x) {
      if n.Contains(x) { LookupAt(es, i, x); }
    }
    CanonicalUnique(gs, es);
  }
}
