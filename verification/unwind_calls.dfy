/** Unwinding inverts calling: wherever a function stands behind a call and some pushes, one step of the walk
    gives its caller's registers back. Registers have the numbers of x86-64, the stack pointer being 7 and the
    return address 16. */
module UnwindCalls {
  import opened Errors
  import opened Words
  import opened DwarfEncoding
  import opened DwarfCfi
  import opened EhCursor
  import opened UnwindTable
  import opened Unwind

  const REGISTERS: nat := 17

  /** A register that a function pushes, and how many bytes of code lead up to behind that push. */
  datatype Push = Push(reg: nat, length: nat)

  predicate GoodPushes(pushes: seq<Push>, start: nat) {
    && |pushes| <= 15
    && (forall i :: 0 <= i < |pushes| ==> pushes[i].reg < 16 && pushes[i].reg != 7 && pushes[i].length < 64)
    && (forall i, j :: 0 <= i < j < |pushes| ==> pushes[i].reg != pushes[j].reg)
    && LocationAfter(pushes, |pushes|, start) < U64
  }

  /** Where the first n pushes have been done. */
  function LocationAfter(pushes: seq<Push>, n: nat, start: nat): nat
    requires n <= |pushes|
  {
    if n == 0 then start else LocationAfter(pushes, n - 1, start) + pushes[n - 1].length
  }

  /** What compilers write for every function: before the first instruction, the frame's address is eight above
      the stack pointer and the return address lies right below it. */
  const COMMON: Bytes := [0x0C, 7, 8, 0x90, 1]

  /** What they write for the pushes from number k on. */
  function PushCode(pushes: seq<Push>, k: nat): seq<Insn>
    requires k <= |pushes|
    decreases |pushes| - k
  {
    if k == |pushes| then []
    else
      [AdvanceLoc(Packed, pushes[k].length), DefCfaOffset(8 * (k + 2)), OffsetAt(pushes[k].reg, k + 2)]
      + PushCode(pushes, k + 1)
  }

  /** The machine behind a call and n pushes: the words that the caller's registers have been saved to, counted
      down from the caller's stack pointer. All other registers are still the caller's. */
  ghost predicate Called(frame: seq<int>, caller: seq<int>, memory: int -> int, pushes: seq<Push>, n: nat) {
    && |frame| == |caller| == REGISTERS && n <= |pushes|
    && 8 * (n + 1) <= caller[7] < U64 && frame[7] == caller[7] - 8 * (n + 1)
    && memory(caller[7] - 8) == caller[16]
    && (forall i :: 0 <= i < n && i < |pushes| && pushes[i].reg < REGISTERS ==>
          memory(caller[7] - 16 - 8 * i) == caller[pushes[i].reg])
    && (forall r :: 0 <= r < 16 && r != 7 && !Pushed(pushes, n, r) ==> frame[r] == caller[r])
  }

  predicate Pushed(pushes: seq<Push>, n: nat, r: int)
    requires n <= |pushes|
  {
    exists i :: 0 <= i < n && pushes[i].reg == r
  }

  // ---------------------------------------------------------------------------
  // What the interpreter makes of the code
  // ---------------------------------------------------------------------------

  /** The rules behind n pushes. */
  function RulesAfter(pushes: seq<Push>, n: nat): (rules: seq<RegisterRule>)
    requires n <= |pushes|
    ensures |rules| == REGISTERS
  {
    if n == 0 then InitialRules(REGISTERS, 7)[16 := RegisterRule(AtOffset, 1)]
    else if pushes[n - 1].reg < REGISTERS
    then RulesAfter(pushes, n - 1)[pushes[n - 1].reg := RegisterRule(AtOffset, n + 1)]
    else RulesAfter(pushes, n - 1)
  }

  function RowAfter(pushes: seq<Push>, n: nat, start: nat): Row
    requires n <= |pushes|
  {
    Row(LocationAfter(pushes, n, start), 7, 8 * (n + 1), RulesAfter(pushes, n))
  }

  lemma {:induction false} RuleAt(pushes: seq<Push>, n: nat, start: nat, r: nat)
    requires n <= |pushes| && GoodPushes(pushes, start) && r < REGISTERS
    ensures var rule := RulesAfter(pushes, n)[r];
            && (r == 7 ==> rule.kind == IsCfa)
            && (r == 16 ==> rule == RegisterRule(AtOffset, 1))
            && (r < 16 && r != 7 && !Pushed(pushes, n, r) ==> rule.kind == SameValue)
            && forall i :: 0 <= i < n && pushes[i].reg == r ==> rule == RegisterRule(AtOffset, i + 2)
  {
    if n > 0 { RuleAt(pushes, n - 1, start, r); }
    assert n > 0 && Pushed(pushes, n - 1, r) ==> Pushed(pushes, n, r);
  }

  /** One instruction, run from its bytes. */
  lemma RunInsn(s: Row, i: Insn, rest: Bytes, target: int)
    requires s.pc <= target && GoodInsn(i, |s.rules|)
    ensures var next := Perform(i, s, 1);
            |next.rules| == |s.rules|
            && Execute(s, EncodeInsn(i, |s.rules|) + rest, target, 1) == Execute(next, rest, target, 1)
  {
    hide EncodeInsn, Fetch, Perform, GoodInsn;
    var e := EncodeInsn(i, |s.rules|);
    FetchInverts(i, rest, |s.rules|);
    ExecuteStep(s, e + rest, target, 1);
    assert (e + rest)[|e|..] == rest;
  }

  lemma CommonRow(s: Row, pushes: seq<Push>, start: nat, target: int)
    requires s.pc == start <= target && s.rules == InitialRules(REGISTERS, 7)
    ensures Execute(s, COMMON, target, 1) == Finished(RowAfter(pushes, 0, start))
  {
    hide InitialRules, StepBytes;
    assert Pow2(31) > 16 by { EightFold(); }
    hide Pow2;
    var cfa, ret := DefCfa(7, 8), OffsetAt(16, 1);
    assert EncodeInsn(cfa, REGISTERS) == [0xC, 7, 8] && EncodeInsn(ret, REGISTERS) == [0x90, 1];
    assert COMMON == EncodeInsn(cfa, REGISTERS) + [0x90, 1];
    RunInsn(s, cfa, [0x90, 1], target);
    assert [0x90, 1] == EncodeInsn(ret, REGISTERS) + [];
    RunInsn(Perform(cfa, s, 1), ret, [], target);
  }

  lemma PushCodeGood(pushes: seq<Push>, k: nat, start: nat)
    requires k <= |pushes| && GoodPushes(pushes, start)
    ensures GoodProgram(PushCode(pushes, k), REGISTERS)
    decreases |pushes| - k
  {
    EightFold();
    Pow2Values();
    hide Pow2;
    if k < |pushes| { PushCodeGood(pushes, k + 1, start); }
  }

  /** The three instructions of one push. */
  lemma PushBytes(pushes: seq<Push>, k: nat, start: nat)
    requires k < |pushes| && GoodPushes(pushes, start) && GoodProgram(PushCode(pushes, k), REGISTERS)
    ensures GoodProgram(PushCode(pushes, k + 1), REGISTERS)
    ensures var advance, cfa := AdvanceLoc(Packed, pushes[k].length), DefCfaOffset(8 * (k + 2));
            var save := OffsetAt(pushes[k].reg, k + 2);
            && GoodInsn(advance, REGISTERS) && GoodInsn(cfa, REGISTERS) && GoodInsn(save, REGISTERS)
            && EncodeProgram(PushCode(pushes, k), REGISTERS)
               == EncodeInsn(advance, REGISTERS)
                  + (EncodeInsn(cfa, REGISTERS)
                     + (EncodeInsn(save, REGISTERS) + EncodeProgram(PushCode(pushes, k + 1), REGISTERS)))
  {
    var advance, cfa := AdvanceLoc(Packed, pushes[k].length), DefCfaOffset(8 * (k + 2));
    var save, rest := OffsetAt(pushes[k].reg, k + 2), PushCode(pushes, k + 1);
    assert PushCode(pushes, k) == [advance, cfa, save] + rest;
    hide GoodInsn, EncodeInsn, PushCode;
    ThreeInsns(advance, cfa, save, rest);
  }

  lemma ThreeInsns(a: Insn, b: Insn, c: Insn, rest: seq<Insn>)
    requires GoodProgram([a, b, c] + rest, REGISTERS)
    ensures GoodInsn(a, REGISTERS) && GoodInsn(b, REGISTERS) && GoodInsn(c, REGISTERS) && GoodProgram(rest, REGISTERS)
    ensures EncodeProgram([a, b, c] + rest, REGISTERS)
            == EncodeInsn(a, REGISTERS)
               + (EncodeInsn(b, REGISTERS) + (EncodeInsn(c, REGISTERS) + EncodeProgram(rest, REGISTERS)))
  {
    hide GoodInsn, EncodeInsn;
    var p := [a, b, c] + rest;
    assert p[0] == a && p[1] == b && p[2] == c;
    forall i | 0 <= i < |rest| ensures GoodInsn(rest[i], REGISTERS) { assert rest[i] == p[i + 3]; }
    FirstInsn(c, rest);
    FirstInsn(b, [c] + rest);
    FirstInsn(a, [b] + ([c] + rest));
    assert p == [a] + ([b] + ([c] + rest));
  }

  lemma FirstInsn(i: Insn, p: seq<Insn>)
    requires GoodInsn(i, REGISTERS) && GoodProgram(p, REGISTERS)
    ensures GoodProgram([i] + p, REGISTERS)
    ensures EncodeProgram([i] + p, REGISTERS) == EncodeInsn(i, REGISTERS) + EncodeProgram(p, REGISTERS)
  {
    hide GoodInsn, EncodeInsn;
    assert ([i] + p)[1..] == p;
  }

  lemma LocationGrows(pushes: seq<Push>, k: nat, n: nat, start: nat)
    requires k <= n <= |pushes|
    ensures LocationAfter(pushes, k, start) <= LocationAfter(pushes, n, start)
    decreases n
  {
    if k < n { LocationGrows(pushes, k, n - 1, start); }
  }

  /** n pushes have been done at the target, and no more. */
  predicate StandsBehind(pushes: seq<Push>, n: nat, start: nat, target: int) {
    n <= |pushes| && LocationAfter(pushes, n, start) <= target
    && (n < |pushes| ==> target < LocationAfter(pushes, n + 1, start))
  }

  /** One push. */
  lemma PushPerformed(pushes: seq<Push>, k: nat, start: nat)
    requires k < |pushes| && GoodPushes(pushes, start)
    ensures var s := RowAfter(pushes, k, start);
            var a := Perform(AdvanceLoc(Packed, pushes[k].length), s, 1);
            var b := Perform(DefCfaOffset(8 * (k + 2)), a, 1);
            && a == s.(pc := LocationAfter(pushes, k + 1, start))
            && |s.rules| == |a.rules| == |b.rules| == REGISTERS
            && b.pc == LocationAfter(pushes, k + 1, start)
            && Perform(OffsetAt(pushes[k].reg, k + 2), b, 1) == RowAfter(pushes, k + 1, start)
  {
    LocationGrows(pushes, k + 1, |pushes|, start);
    var location := LocationAfter(pushes, k + 1, start);
    QuotientUnique(location, U64, 0, location);
  }

  /** Running the code of the pushes from number k on. */
  lemma {:induction false} PushesRun(pushes: seq<Push>, k: nat, n: nat, start: nat, target: int)
    requires GoodPushes(pushes, start) && k <= n && StandsBehind(pushes, n, start, target)
    requires GoodProgram(PushCode(pushes, k), REGISTERS)
    ensures var run := Execute(RowAfter(pushes, k, start), EncodeProgram(PushCode(pushes, k), REGISTERS), target, 1);
            run.Finished? && run.s.(pc := LocationAfter(pushes, n, start)) == RowAfter(pushes, n, start)
    decreases |pushes| - k
  {
    hide Execute, EncodeInsn, GoodInsn, Perform, RulesAfter, PushCode;
    var s := RowAfter(pushes, k, start);
    LocationGrows(pushes, k, n, start);
    if k < |pushes| {
      PushBytes(pushes, k, start);
      PushPerformed(pushes, k, start);
      var advance, cfa := AdvanceLoc(Packed, pushes[k].length), DefCfaOffset(8 * (k + 2));
      var save := OffsetAt(pushes[k].reg, k + 2);
      var rest := EncodeProgram(PushCode(pushes, k + 1), REGISTERS);
      var saved := EncodeInsn(save, REGISTERS) + rest;
      var a := Perform(advance, s, 1);
      RunInsn(s, advance, EncodeInsn(cfa, REGISTERS) + saved, target);
      if k == n {
        ExecutePast(a, EncodeInsn(cfa, REGISTERS) + saved, target, 1);
      } else {
        LocationGrows(pushes, k + 1, n, start);
        RunInsn(a, cfa, saved, target);
        RunInsn(Perform(cfa, a, 1), save, rest, target);
        PushesRun(pushes, k + 1, n, start, target);
      }
    } else {
      RunEnds(s, pushes, target);
    }
  }

  lemma RunEnds(s: Row, pushes: seq<Push>, target: int)
    requires s.pc <= target
    ensures Execute(s, EncodeProgram(PushCode(pushes, |pushes|), REGISTERS), target, 1) == Finished(s)
  {}

  // ---------------------------------------------------------------------------
  // The caller
  // ---------------------------------------------------------------------------

  /** The rules behind n pushes give the caller's registers back. */
  lemma RulesRestore(frame: seq<int>, caller: seq<int>, memory: int -> int, pushes: seq<Push>, n: nat, start: nat,
                     row: Row)
    requires GoodPushes(pushes, start) && Called(frame, caller, memory, pushes, n)
    requires row.cfaReg == 7 && row.cfaOffset == 8 * (n + 1) && row.rules == RulesAfter(pushes, n)
    ensures Caller(frame, row, -8, memory) == caller
  {
    hide RulesAfter;
    forall r: nat | r < REGISTERS ensures CallerValue(frame, row, -8, memory, r) == caller[r] {
      RuleAt(pushes, n, start, r);
      if r < 16 && Pushed(pushes, n, r) {
        var i :| 0 <= i < n && pushes[i].reg == r;
        InWord(caller[7] - 16 - 8 * i);
      }
      InWord(caller[7] - 8);
      InWord(caller[7]);
    }
  }

  lemma InWord(a: nat)
    requires a < U64
    ensures a % U64 == a
  {}

  /** A step of the walk for a function that stands behind a call and its first n pushes: the caller's registers,
      whatever the walk had for the frame's address before. */
  method UnwindCall(state: UnwindState, commonCode: EhData, ownCode: EhData, memory: int -> int,
                    ghost pushes: seq<Push>, ghost n: nat, ghost start: nat, ghost caller: seq<int>)
    returns (ret: Status)
    requires commonCode.Valid() && ownCode.Valid() && commonCode != ownCode
    requires commonCode.image.ptrSize == 8 && ownCode.image.ptrSize == 8
    requires state.frame.Length == REGISTERS && state.retReg == 16 && 0 <= state.cfaReg < REGISTERS && !state.end
    requires state.codeAlign == 1 && state.dataAlign == -8 && state.pc == start
    requires GoodPushes(pushes, start) && StandsBehind(pushes, n, start, state.ReturnAddress())
    requires Called(state.frame[..], caller, memory, pushes, n)
    requires commonCode.Rest() == COMMON && GoodProgram(PushCode(pushes, 0), REGISTERS)
    requires ownCode.Rest() == EncodeProgram(PushCode(pushes, 0), REGISTERS)
    modifies state`pc, state`cfaReg, state`cfaOffset, state`end, state.frame, commonCode, ownCode
    ensures ret == EOK && state.frame[..] == caller
    ensures state.end == (caller[16] == 0) && state.cfaReg == 7 && state.cfaOffset == 0
  {
    hide Execute, Caller, PushCode, RulesAfter, StandsBehind, GoodPushes;
    CallRow(Row(state.pc, state.cfaReg, state.cfaOffset, InitialRules(REGISTERS, 7)), pushes, n, start,
            state.ReturnAddress(), state.frame[..], caller, memory);
    ret := state.NextFrame(commonCode, ownCode, 7, memory);
  }

  /** What the two programs come to for such a function. */
  lemma CallRow(s: Row, pushes: seq<Push>, n: nat, start: nat, target: int, frame: seq<int>, caller: seq<int>,
                memory: int -> int)
    requires s.pc == start && s.rules == InitialRules(REGISTERS, 7)
    requires GoodPushes(pushes, start) && StandsBehind(pushes, n, start, target)
    requires Called(frame, caller, memory, pushes, n)
    ensures GoodProgram(PushCode(pushes, 0), REGISTERS)
    ensures var run := ExecuteBoth(s, COMMON, EncodeProgram(PushCode(pushes, 0), REGISTERS), target, 1);
            run.Finished? && 0 <= run.s.cfaReg < REGISTERS == |run.s.rules|
            && Caller(frame, run.s, -8, memory) == caller
  {
    hide Execute, Caller, PushCode, RulesAfter, GoodPushes, Called;
    LocationGrows(pushes, 0, n, start);
    PushCodeGood(pushes, 0, start);
    CommonRow(s, pushes, start, target);
    PushesRun(pushes, 0, n, start, target);
    var run := ExecuteBoth(s, COMMON, EncodeProgram(PushCode(pushes, 0), REGISTERS), target, 1);
    SizeOf(frame, caller, memory, pushes, n);
    RulesRestore(frame, caller, memory, pushes, n, start, run.s);
  }

  lemma SizeOf(frame: seq<int>, caller: seq<int>, memory: int -> int, pushes: seq<Push>, n: nat)
    requires Called(frame, caller, memory, pushes, n)
    ensures |frame| == REGISTERS && n <= |pushes|
  {}

  lemma PushOfFramePointer(pushes: seq<Push>, start: nat)
    requires pushes == [Push(6, 1)] && start + 1 < U64
    ensures GoodPushes(pushes, start) && GoodProgram(PushCode(pushes, 0), REGISTERS)
    ensures LocationAfter(pushes, 0, start) == start && LocationAfter(pushes, 1, start) == start + 1
    ensures EncodeProgram(PushCode(pushes, 0), REGISTERS) == [0x41, 0x0E, 0x10, 0x86, 2]
  {
    PushCodeGood(pushes, 0, start);
    PushBytes(pushes, 0, start);
    assert PushCode(pushes, 1) == [];
  }

  /** The usual prologue in bytes: push %rbp, of one byte, at the start of a function. Before it the stack pointer
      is 8 below the caller's, after it 16. */
  lemma FramePointerPushed(s: Row, target: nat, pushed: bool, frame: seq<int>, caller: seq<int>, memory: int -> int)
    requires 0 <= s.pc < U64 - 1 && s.rules == InitialRules(REGISTERS, 7)
    requires if pushed then target > s.pc else target == s.pc
    requires |frame| == |caller| == REGISTERS && 16 <= caller[7] < U64
    requires frame[7] == caller[7] - if pushed then 16 else 8
    requires memory(caller[7] - 8) == caller[16]
    requires if pushed then memory(caller[7] - 16) == caller[6] else frame[6] == caller[6]
    requires forall r :: 0 <= r < 16 && r != 6 && r != 7 ==> frame[r] == caller[r]
    ensures var run := ExecuteBoth(s, [0x0C, 7, 8, 0x90, 1], [0x41, 0x0E, 0x10, 0x86, 2], target, 1);
            run.Finished? && 0 <= run.s.cfaReg < REGISTERS == |run.s.rules|
            && Caller(frame, run.s, -8, memory) == caller
  {
    hide ExecuteBoth, Caller, PushCode, GoodPushes;
    var pushes, n := [Push(6, 1)], if pushed then 1 else 0;
    PushOfFramePointer(pushes, s.pc);
    assert pushed ==> Pushed(pushes, 1, 6) by { assert pushes[0].reg == 6; }
    CallRow(s, pushes, n, s.pc, target, frame, caller, memory);
  }
}
