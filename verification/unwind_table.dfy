/** The interpreter with its early exit finds the row that a full unwind table would give
    (section 6.4.1 of DWARF 5). */
module UnwindTable {
  import opened Words
  import opened DwarfEncoding
  import opened DwarfCfi

  // ---------------------------------------------------------------------------
  // The unwind table
  // ---------------------------------------------------------------------------

  /** One row for each location: a row is complete when the location advances. */
  function Table(p: seq<Insn>, s: Row, codeAlign: int): (rows: seq<Row>)
    ensures |rows| > 0
    decreases |p|
  {
    if p == [] then [s]
    else (if p[0].AdvanceLoc? then [s] else []) + Table(p[1..], Perform(p[0], s, codeAlign), codeAlign)
  }

  /** The locations only go up: no advance wraps around. */
  predicate Ascends(p: seq<Insn>, s: Row, codeAlign: int)
    decreases |p|
  {
    p == [] || (s.pc <= Perform(p[0], s, codeAlign).pc && Ascends(p[1..], Perform(p[0], s, codeAlign), codeAlign))
  }

  /** The last row at or below the target, looked for from the end of the whole table. */
  function LastRow(rows: seq<Row>, target: int): (r: Row)
    requires rows != [] && rows[0].pc <= target
    ensures r in rows && r.pc <= target
  {
    if rows[|rows| - 1].pc <= target then rows[|rows| - 1] else LastRow(rows[..|rows| - 1], target)
  }

  /** Where the program ends. */
  function FinalPc(p: seq<Insn>, s: Row, codeAlign: int): int {
    var rows := Table(p, s, codeAlign);
    rows[|rows| - 1].pc
  }

  // ---------------------------------------------------------------------------
  // Rows
  // ---------------------------------------------------------------------------

  lemma PerformKeeps(i: Insn, s: Row, codeAlign: int)
    ensures |Perform(i, s, codeAlign).rules| == |s.rules|
    ensures !i.AdvanceLoc? ==> Perform(i, s, codeAlign).pc == s.pc
    ensures i.AdvanceLoc? ==> Perform(i, s, codeAlign).(pc := s.pc) == s
  {}

  lemma {:induction false} TableStarts(p: seq<Insn>, s: Row, codeAlign: int)
    ensures Table(p, s, codeAlign)[0].pc == s.pc
    decreases |p|
  {
    if p != [] && !p[0].AdvanceLoc? { TableStarts(p[1..], Perform(p[0], s, codeAlign), codeAlign); }
  }

  lemma {:induction false} TableAscends(p: seq<Insn>, s: Row, codeAlign: int)
    requires Ascends(p, s, codeAlign)
    ensures forall k :: 0 <= k < |Table(p, s, codeAlign)| ==> s.pc <= Table(p, s, codeAlign)[k].pc
    decreases |p|
  {
    if p != [] { TableAscends(p[1..], Perform(p[0], s, codeAlign), codeAlign); }
  }

  lemma {:induction false} LastRowSkips(s: Row, rows: seq<Row>, target: int)
    requires rows != [] && s.pc <= target && rows[0].pc <= target
    ensures LastRow([s] + rows, target) == LastRow(rows, target)
    decreases |rows|
  {
    var all := [s] + rows;
    if rows[|rows| - 1].pc > target {
      assert all[..|all| - 1] == [s] + rows[..|rows| - 1];
      LastRowSkips(s, rows[..|rows| - 1], target);
    }
  }

  lemma {:induction false} LastRowStays(s: Row, rows: seq<Row>, target: int)
    requires s.pc <= target && forall k :: 0 <= k < |rows| ==> rows[k].pc > target
    ensures LastRow([s] + rows, target) == s
    decreases |rows|
  {
    var all := [s] + rows;
    if rows != [] {
      assert all[..|all| - 1] == [s] + rows[..|rows| - 1];
      LastRowStays(s, rows[..|rows| - 1], target);
    }
  }

  /** The table row at or below the target, by the first instruction. */
  lemma LastRowStep(p: seq<Insn>, s: Row, target: int, codeAlign: int)
    requires p != [] && s.pc <= target && Ascends(p, s, codeAlign)
    ensures Table(p, s, codeAlign)[0].pc <= target
    ensures FinalPc(p, s, codeAlign) == FinalPc(p[1..], Perform(p[0], s, codeAlign), codeAlign)
    ensures var next := Perform(p[0], s, codeAlign);
            if next.pc <= target
            then Table(p[1..], next, codeAlign)[0].pc <= target
                 && LastRow(Table(p, s, codeAlign), target) == LastRow(Table(p[1..], next, codeAlign), target)
            else LastRow(Table(p, s, codeAlign), target) == s && next.(pc := s.pc) == s
                 && FinalPc(p, s, codeAlign) > target
  {
    var next := Perform(p[0], s, codeAlign);
    var rows := Table(p[1..], next, codeAlign);
    PerformKeeps(p[0], s, codeAlign);
    TableStarts(p, s, codeAlign);
    TableStarts(p[1..], next, codeAlign);
    if !p[0].AdvanceLoc? {
      assert [] + rows == rows;
    } else if next.pc <= target {
      LastRowSkips(s, rows, target);
    } else {
      TableAscends(p[1..], next, codeAlign);
      LastRowStays(s, rows, target);
    }
  }

  /** How far a program advances, in units of the code alignment factor. */
  function TotalAdvance(p: seq<Insn>): int {
    if p == [] then 0 else (if p[0].AdvanceLoc? then p[0].delta else 0) + TotalAdvance(p[1..])
  }

  /** The program ends at the start plus all advances. */
  lemma {:induction false} FinalLocation(p: seq<Insn>, s: Row, codeAlign: int)
    requires 0 <= s.pc < U64
    ensures FinalPc(p, s, codeAlign) == (s.pc + TotalAdvance(p) * codeAlign) % U64
    decreases |p|
  {
    if p == [] {
      QuotientUnique(s.pc, U64, 0, s.pc);
    } else {
      hide Perform, FinalPc;
      var next := Perform(p[0], s, codeAlign);
      var delta := if p[0].AdvanceLoc? then p[0].delta else 0;
      PerformAdvances(p[0], s, codeAlign);
      FinalLocation(p[1..], next, codeAlign);
      FinalStep(p, s, codeAlign);
      WrapTwice(s.pc + delta * codeAlign, TotalAdvance(p[1..]) * codeAlign);
      Distributes(delta, TotalAdvance(p[1..]), codeAlign);
    }
  }

  lemma PerformAdvances(i: Insn, s: Row, codeAlign: int)
    requires 0 <= s.pc < U64
    ensures Perform(i, s, codeAlign).pc == (s.pc + (if i.AdvanceLoc? then i.delta else 0) * codeAlign) % U64
  {
    QuotientUnique(s.pc, U64, 0, s.pc);
  }

  lemma Distributes(a: int, b: int, c: int)
    ensures (a + b) * c == a * c + b * c
  {}

  lemma FinalStep(p: seq<Insn>, s: Row, codeAlign: int)
    requires p != []
    ensures FinalPc(p, s, codeAlign) == FinalPc(p[1..], Perform(p[0], s, codeAlign), codeAlign)
  {}

  lemma WrapTwice(a: int, b: int)
    ensures (a % U64 + b) % U64 == (a + b) % U64
  {
    var q, r := a / U64, a % U64;
    var h, l := (r + b) / U64, (r + b) % U64;
    assert a + b == (q + h) * U64 + l;
    QuotientUnique(a + b, U64, q + h, l);
  }

  // ---------------------------------------------------------------------------
  // Running the bytes
  // ---------------------------------------------------------------------------

  /** The run succeeds exactly if all instructions are good or the good ones pass the target, and then
      leaves the CFA and the register rules of the last row at or below the target. */
  predicate FindsRow(run: Execution, d: Listing, s: Row, target: int, codeAlign: int)
  {
    var rows := Table(d.p, s, codeAlign);
    rows[0].pc <= target
    && (run.Finished? <==> d.whole || FinalPc(d.p, s, codeAlign) > target)
    && (run.Finished? ==> var row := LastRow(rows, target); run.s.(pc := row.pc) == row)
  }

  /** The first instruction, run from its bytes. */
  lemma ExecuteStep(s: Row, bs: Bytes, target: int, codeAlign: int)
    requires bs != [] && s.pc <= target
    ensures var f := Fetch(bs, |s.rules|);
            var run := Execute(s, bs, target, codeAlign);
            if f.None? then !run.Finished?
            else var next := Perform(f.i, s, codeAlign);
                 |next.rules| == |s.rules| && run == Execute(next, bs[f.used..], target, codeAlign)
  {
    hide StepBytes, Fetch;
    var f := Fetch(bs, |s.rules|);
    StepPerforms(s, bs, codeAlign);
    if f.Insn? { PerformKeeps(f.i, s, codeAlign); }
  }

  lemma ExecutePast(s: Row, bs: Bytes, target: int, codeAlign: int)
    requires s.pc > target
    ensures Execute(s, bs, target, codeAlign) == Finished(s)
  {}

  /** No instruction is left, or none that is good. */
  lemma RowOfNothing(run: Execution, s: Row, whole: bool, target: int, codeAlign: int)
    requires s.pc <= target && if whole then run == Finished(s) else !run.Finished?
    ensures FindsRow(run, Listing([], whole), s, target, codeAlign)
  {}

  /** One instruction, and then what the rest of the run finds or, past the target, where it ends. */
  lemma RowOfFirst(run: Execution, d: Listing, s: Row, target: int, codeAlign: int)
    requires d.p != [] && s.pc <= target && Ascends(d.p, s, codeAlign)
    requires var next := Perform(d.p[0], s, codeAlign);
             if next.pc <= target
             then FindsRow(run, d.(p := d.p[1..]), next, target, codeAlign)
             else run == Finished(next)
    ensures FindsRow(run, d, s, target, codeAlign)
  {
    hide Table, LastRow, Perform, FinalPc;
    LastRowStep(d.p, s, target, codeAlign);
  }

  /** For all bytes whose good instructions ascend, although the interpreter stops at the first location
      past the target and builds no table. */
  lemma {:induction false} ExecuteFindsRow(s: Row, bs: Bytes, target: int, codeAlign: int)
    requires s.pc <= target && Ascends(Disassemble(bs, |s.rules|).p, s, codeAlign)
    ensures FindsRow(Execute(s, bs, target, codeAlign), Disassemble(bs, |s.rules|), s, target, codeAlign)
    decreases |bs|
  {
    hide Perform, FindsRow, Fetch, StepBytes;
    var d := Disassemble(bs, |s.rules|);
    var run := Execute(s, bs, target, codeAlign);
    if bs == [] {
      RowOfNothing(run, s, true, target, codeAlign);
    } else {
      ExecuteStep(s, bs, target, codeAlign);
      var f := Fetch(bs, |s.rules|);
      if f.None? {
        RowOfNothing(run, s, false, target, codeAlign);
      } else {
        var next := Perform(f.i, s, codeAlign);
        var rest := bs[f.used..];
        assert d.(p := d.p[1..]) == Disassemble(rest, |s.rules|);
        if next.pc <= target {
          ExecuteFindsRow(next, rest, target, codeAlign);
        } else {
          ExecutePast(next, rest, target, codeAlign);
        }
        RowOfFirst(run, d, s, target, codeAlign);
      }
    }
  }

  // ---------------------------------------------------------------------------
  // Two programs in a row
  // ---------------------------------------------------------------------------

  /** Running one program and then another from where it ended. */
  function ExecuteBoth(s: Row, common: Bytes, own: Bytes, target: int, codeAlign: int): Execution {
    var first := Execute(s, common, target, codeAlign);
    if first.Finished? then Execute(first.s, own, target, codeAlign) else first
  }

  /** The instructions of both, unless the first ones end in a bad one. */
  function DisassembleBoth(common: Bytes, own: Bytes, registers: nat): Listing {
    var first := Disassemble(common, registers);
    var second := Disassemble(own, registers);
    if first.whole then second.(p := first.p + second.p) else first
  }

  /** The first instruction of the first program. */
  lemma BothStep(s: Row, common: Bytes, own: Bytes, target: int, codeAlign: int)
    requires common != [] && s.pc <= target
    ensures var f := Fetch(common, |s.rules|);
            var d := DisassembleBoth(common, own, |s.rules|);
            var run := ExecuteBoth(s, common, own, target, codeAlign);
            if f.None? then !run.Finished? && d == Listing([], false)
            else var next := Perform(f.i, s, codeAlign);
                 d.p != [] && d.p[0] == f.i && |next.rules| == |s.rules|
                 && d.(p := d.p[1..]) == DisassembleBoth(common[f.used..], own, |s.rules|)
                 && run == ExecuteBoth(next, common[f.used..], own, target, codeAlign)
  {
    hide Perform, Execute, Fetch, StepBytes;
    ExecuteStep(s, common, target, codeAlign);
    var f := Fetch(common, |s.rules|);
    if f.Insn? {
      var rest := Disassemble(common[f.used..], |s.rules|);
      var q := Disassemble(own, |s.rules|).p;
      assert (([f.i] + rest.p) + q)[1..] == rest.p + q;
      assert ([f.i] + rest.p)[1..] == rest.p;
    }
  }

  lemma BothPast(s: Row, common: Bytes, own: Bytes, target: int, codeAlign: int)
    requires s.pc > target
    ensures ExecuteBoth(s, common, own, target, codeAlign) == Finished(s)
  {}

  lemma BothStart(s: Row, own: Bytes, target: int, codeAlign: int)
    requires s.pc <= target
    ensures ExecuteBoth(s, [], own, target, codeAlign) == Execute(s, own, target, codeAlign)
    ensures DisassembleBoth([], own, |s.rules|) == Disassemble(own, |s.rules|)
  {
    var d := Disassemble(own, |s.rules|);
    assert [] + d.p == d.p;
  }

  lemma {:induction false} BothFindRow(s: Row, common: Bytes, own: Bytes, target: int, codeAlign: int)
    requires s.pc <= target && Ascends(DisassembleBoth(common, own, |s.rules|).p, s, codeAlign)
    ensures FindsRow(ExecuteBoth(s, common, own, target, codeAlign), DisassembleBoth(common, own, |s.rules|),
                     s, target, codeAlign)
    decreases |common|
  {
    hide Perform, FindsRow, Fetch, ExecuteBoth, DisassembleBoth, Execute, Disassemble;
    var d := DisassembleBoth(common, own, |s.rules|);
    var run := ExecuteBoth(s, common, own, target, codeAlign);
    if common == [] {
      BothStart(s, own, target, codeAlign);
      ExecuteFindsRow(s, own, target, codeAlign);
    } else {
      BothStep(s, common, own, target, codeAlign);
      var f := Fetch(common, |s.rules|);
      if f.None? {
        RowOfNothing(run, s, false, target, codeAlign);
      } else {
        var next := Perform(f.i, s, codeAlign);
        if next.pc <= target {
          BothFindRow(next, common[f.used..], own, target, codeAlign);
        } else {
          BothPast(next, common[f.used..], own, target, codeAlign);
        }
        RowOfFirst(run, d, s, target, codeAlign);
      }
    }
  }
}
