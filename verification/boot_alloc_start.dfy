/** Every run from the start of the kernel hands out only memory that the bootloader reported free. */
module BootAllocStart {
  import opened Options
  import opened MemoryRanges
  import opened BootAllocRuns
  import opened BootAllocHistory
  import opened BootAllocInit

  /** Whatever is in use after a run lies in memory reported free, and nothing else has changed. */
  lemma OnlyFreeMemory(w: World, mm: seq<MapEntry>, ops: seq<Op>, complete: bool, x: int)
    requires Sound(w) && w.live == [] && StartsFrom(w.s.es, mm, w.s.own + w.s.lost, complete) && LegalRun(w, ops)
    ensures var v := Execute(w, ops).1;
            && (Covered(InUse(v), x) ==> ReportedFree(mm, x))
            && (!ReportedFree(mm, x) ==> Lookup(v.s.es, x) == Lookup(w.s.es, x))
  {
    hide Sound, LegalRun, Execute, Lookup, Covered, ReportedFree, ReportedTaken;
    var v := Execute(w, ops).1;
    assert InUse(w) == w.s.own + w.s.lost;
    RunSound(w, ops);
    RunMap(w, ops, x);
    assert Beneath(w.s.es, InUse(w), x) == Beneath(v.s.es, InUse(v), x);
  }
}
