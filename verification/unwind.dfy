/** The call frame interpreter, the search for a function's description, and one step of a stack walk. */
module Unwind {
  import opened Errors
  import opened Words
  import opened DwarfEncoding
  import opened DwarfCfi
  import opened EhCursor
  import opened UnwindTable

  // ---------------------------------------------------------------------------
  // Operands
  // ---------------------------------------------------------------------------

  function StatusOfStep(step: Step): Status {
    match step
    case Stepped(_, _) => EOK
    case Fault(e) => Error(e)
    case Unmodelled => Status.Unmodelled
  }

  function StatusOfRun(run: Execution): Status {
    match run
    case Finished(_) => EOK
    case Faulted(e) => Error(e)
    case LeftModel => Status.Unmodelled
  }

  lemma {:induction false} LebScanFits(bs: Bytes, n: nat)
    requires IsBytes(bs) && n <= |bs|
    ensures LebScan(bs, n).Decoded? ==> 0 <= LebScan(bs, n).value < Pow2(35)
    decreases |bs| - n
  {
    hide LebValue, Pow2;
    if n < |bs| && Shiftable(bs[n], 7 * n) {
      if bs[n] >= 128 {
        LebScanFits(bs, n + 1);
      } else {
        LebBound(bs[..n + 1]);
        Pow2Monotone(7 * (n + 1), 35);
      }
    }
  }

  /** Operands are decoded as absolute unsigned LEB128 values. */
  lemma UlebEncoded(image: Image, address: int, bs: Bytes)
    requires IsBytes(bs)
    ensures Encoded(image, ULEB128, address, bs) == Uleb(bs)
  {
    hide LebScan;
    LebScanFits(bs, 0);
    Pow2Values();
  }

  // ---------------------------------------------------------------------------
  // The caller's registers
  // ---------------------------------------------------------------------------

  /** The rules every frame starts with: the stack pointer was the CFA, all else is unchanged. */
  function InitialRules(registers: nat, spReg: nat): (rules: seq<RegisterRule>)
    ensures |rules| == registers
  {
    seq(registers, i => RegisterRule(if i == spReg then IsCfa else SameValue, 0))
  }

  /** The register of the caller that a rule describes, reading words from memory. */
  function CallerValue(frame: seq<int>, row: Row, dataAlign: int, memory: int -> int, i: nat): int
    requires 0 <= row.cfaReg < |frame| == |row.rules| && i < |frame|
  {
    var cfa := frame[row.cfaReg] + row.cfaOffset;
    match row.rules[i].kind
    case SameValue => frame[i]
    case AtOffset => memory((cfa + row.rules[i].offset * dataAlign) % U64)
    case IsCfa => cfa % U64
  }

  function Caller(frame: seq<int>, row: Row, dataAlign: int, memory: int -> int): (caller: seq<int>)
    requires 0 <= row.cfaReg < |frame| == |row.rules|
    ensures |caller| == |frame|
  {
    seq(|frame|, i requires 0 <= i < |frame| => CallerValue(frame, row, dataAlign, memory, i))
  }

  /** Every run leaves a CFA register that exists. */
  lemma {:induction false} ExecuteKeepsCfaReg(s: Row, bs: Bytes, target: int, codeAlign: int)
    requires IsBytes(bs) && 0 <= s.cfaReg < |s.rules|
    ensures var run := Execute(s, bs, target, codeAlign);
            run.Finished? ==> |run.s.rules| == |s.rules| && 0 <= run.s.cfaReg < |s.rules|
    decreases |bs|
  {
    if bs != [] && s.pc <= target {
      StepKeepsCfaReg(s, bs, codeAlign);
      var step := StepBytes(s, bs, codeAlign);
      hide StepBytes;
      if step.Stepped? { ExecuteKeepsCfaReg(step.s, bs[step.used..], target, codeAlign); }
    }
  }

  lemma StepKeepsCfaReg(s: Row, bs: Bytes, codeAlign: int)
    requires IsBytes(bs) && bs != [] && 0 <= s.cfaReg < |s.rules|
    ensures var step := StepBytes(s, bs, codeAlign);
            step.Stepped? ==> |step.s.rules| == |s.rules| && 0 <= step.s.cfaReg < |s.rules|
  {
    hide StepBytes, Fetch;
    StepPerforms(s, bs, codeAlign);
    var f := Fetch(bs, |s.rules|);
    FetchedRegister(bs, |s.rules|);
    if f.Insn? { PerformKeeps(f.i, s, codeAlign); }
  }

  lemma FetchedRegister(bs: Bytes, registers: nat)
    requires IsBytes(bs) && bs != []
    ensures var f := Fetch(bs, registers);
            f.Insn? && (f.i.DefCfa? || f.i.DefCfaRegister?) ==> 0 <= f.i.reg < registers
  {
    hide LebScan, LittleEndian;
    LebScanFits(bs[1..], 0);
  }

  /** A step of the walk succeeds exactly if all instructions are good or the good ones pass the return
      address, and then gives the caller's registers by the last row at or below it of the unwind table
      that the common and the function's own instructions describe. */
  lemma CallerByTable(frame: seq<int>, s: Row, common: Bytes, own: Bytes, target: int, codeAlign: int, dataAlign: int,
                      memory: int -> int)
    requires IsBytes(common) && IsBytes(own) && 0 <= s.cfaReg < |s.rules| == |frame|
    requires s.pc <= target && Ascends(DisassembleBoth(common, own, |s.rules|).p, s, codeAlign)
    ensures var d := DisassembleBoth(common, own, |s.rules|);
            var run := ExecuteBoth(s, common, own, target, codeAlign);
            var rows := Table(d.p, s, codeAlign);
            rows[0].pc <= target
            && (run.Finished? <==> d.whole || FinalPc(d.p, s, codeAlign) > target)
            && (run.Finished? ==>
                  var row := LastRow(rows, target);
                  0 <= row.cfaReg < |frame| == |row.rules| && 0 <= run.s.cfaReg < |frame| == |run.s.rules|
                  && Caller(frame, run.s, dataAlign, memory) == Caller(frame, row, dataAlign, memory))
  {
    hide Table, LastRow, Ascends, Disassemble, DisassembleBoth, Caller, CallerValue, FinalPc, Execute;
    BothFindRow(s, common, own, target, codeAlign);
    ExecuteKeepsCfaReg(s, common, target, codeAlign);
    var first := Execute(s, common, target, codeAlign);
    if first.Finished? { ExecuteKeepsCfaReg(first.s, own, target, codeAlign); }
    var run := ExecuteBoth(s, common, own, target, codeAlign);
    if run.Finished? {
      var rows := Table(DisassembleBoth(common, own, |s.rules|).p, s, codeAlign);
      CallerIgnoresLocation(frame, run.s, LastRow(rows, target), dataAlign, memory);
    }
  }

  lemma CallerIgnoresLocation(frame: seq<int>, a: Row, b: Row, dataAlign: int, memory: int -> int)
    requires a.(pc := b.pc) == b && 0 <= a.cfaReg < |frame| == |a.rules|
    ensures Caller(frame, a, dataAlign, memory) == Caller(frame, b, dataAlign, memory)
  {
    forall i | 0 <= i < |frame|
      ensures CallerValue(frame, a, dataAlign, memory, i) == CallerValue(frame, b, dataAlign, memory, i)
    {}
  }

  class UnwindState {
    const frame: array<int>
    var codeAlign: int
    var dataAlign: int
    var cfaOffset: int
    var pc: int
    var retReg: nat
    var cfaReg: int
    var end: bool

    constructor (frame: array<int>, codeAlign: int, dataAlign: int, pc: int, retReg: nat, cfaReg: int, cfaOffset: int)
      ensures this.frame == frame && this.codeAlign == codeAlign && this.dataAlign == dataAlign && this.pc == pc
      ensures this.retReg == retReg && this.cfaReg == cfaReg && this.cfaOffset == cfaOffset && !end
    {
      this.frame, this.codeAlign, this.dataAlign, this.pc := frame, codeAlign, dataAlign, pc;
      this.retReg, this.cfaReg, this.cfaOffset, this.end := retReg, cfaReg, cfaOffset, false;
    }

    /** Zero once the walk is over. */
    function ReturnAddress(): int
      requires retReg < frame.Length
      reads this, frame
    {
      if end then 0 else frame[retReg]
    }

    /** What the instructions change. */
    ghost function Current(rules: array<RegisterRule>): Row
      reads this, rules
    {
      Row(pc, cfaReg, cfaOffset, rules[..])
    }

    /** An operand. */
    method Operand(data: EhData) returns (ret: Status, value: int)
      requires data.Valid() && data.image.ptrSize <= 8
      modifies data
      ensures data.Valid() && data.cursor + data.bytesLeft == old(data.cursor + data.bytesLeft)
      ensures var d := Uleb(old(data.Rest()));
              ret == StatusOf(d) && (d.Decoded? ==> value == d.value && data.Consumed(d.used))
    {
      hide Uleb, Encoded;
      UlebEncoded(data.image, data.Address(), data.Rest());
      ret, value := data.DecodeValue(ULEB128);
    }

    /** An advance by little-endian bytes; too few of them are an error. */
    method AdvanceBy(ghost op: int, data: EhData, bytesNeeded: nat, ghost rules: array<RegisterRule>)
      returns (ret: Status)
      requires data.Valid() && bytesNeeded > 0
      modifies this`pc, data
      ensures data.Valid() && data.cursor + data.bytesLeft == old(data.cursor + data.bytesLeft)
      ensures var step := StepAdvance(old(Current(rules)), [op] + old(data.Rest()), bytesNeeded, codeAlign);
              ret == StatusOfStep(step)
              && (step.Stepped? ==> Current(rules) == step.s && data.Consumed(step.used - 1))
    {
      ghost var bs := [op] + data.Rest();
      if data.bytesLeft < bytesNeeded { return Error(EINVAL); }
      assert bs[1..1 + bytesNeeded] == data.Rest()[..bytesNeeded];
      var delta := data.ConsumeRaw(bytesNeeded);
      pc := (pc + delta * codeAlign) % U64;
      return EOK;
    }

    /** A rule for one register, the operation being in the high bits of the opcode and the register in the low ones. */
    method RegisterInstruction(opcode: int, rules: array<RegisterRule>, data: EhData) returns (ret: Status)
      requires data.Valid() && data.image.ptrSize <= 8 && (opcode / 64 == 2 || opcode / 64 == 3)
      modifies rules, data
      ensures data.Valid() && data.cursor + data.bytesLeft == old(data.cursor + data.bytesLeft)
      ensures var step := StepBytes(old(Current(rules)), [opcode] + old(data.Rest()), codeAlign);
              ret == StatusOfStep(step)
              && (step.Stepped? ==> Current(rules) == step.s && data.Consumed(step.used - 1))
    {
      hide Uleb;
      ghost var bs := [opcode] + data.Rest();
      assert bs[1..] == data.Rest();
      var reg := opcode % 64;
      var kind, value := AtOffset, 0;
      if opcode / 64 == 2 {
        ret, value := Operand(data);
        if ret != EOK { return; }
      } else {
        kind := SameValue;
      }
      if reg < rules.Length { rules[reg] := RegisterRule(kind, value); }
      return EOK;
    }

    /** A new register or offset for the CFA, or both. */
    method CfaInstruction(opcode: int, ghost rules: array<RegisterRule>, data: EhData) returns (ret: Status)
      requires data.Valid() && data.image.ptrSize <= 8 && 0xC <= opcode <= 0xE && rules.Length == frame.Length
      modifies this`cfaReg, this`cfaOffset, data
      ensures data.Valid() && data.cursor + data.bytesLeft == old(data.cursor + data.bytesLeft)
      ensures var step := StepBytes(old(Current(rules)), [opcode] + old(data.Rest()), codeAlign);
              ret == StatusOfStep(step)
              && (step.Stepped? ==> Current(rules) == step.s && data.Consumed(step.used - 1))
    {
      hide Uleb, StepAdvance, WithRule, Advanced;
      ghost var bs := [opcode] + data.Rest();
      assert bs[1..] == data.Rest();
      var value;
      ret, value := Operand(data);
      if opcode == 0xE {
        cfaOffset := value;
        return;
      }
      if ret != EOK { return; }
      if value >= frame.Length { return Error(EINVAL); }
      cfaReg := value;
      if opcode != 0xC { return EOK; }
      assert data.Rest() == bs[1 + Uleb(bs[1..]).used..];
      ret, value := Operand(data);
      cfaOffset := value;
    }

    /** One turn of the interpreter's loop. */
    method DwarfStep(rules: array<RegisterRule>, data: EhData) returns (ret: Status)
      requires data.Valid() && data.image.ptrSize <= 8 && data.bytesLeft > 0 && rules.Length == frame.Length
      modifies this`pc, this`cfaReg, this`cfaOffset, rules, data
      ensures data.Valid() && data.cursor + data.bytesLeft == old(data.cursor + data.bytesLeft)
      ensures var step := StepBytes(old(Current(rules)), old(data.Rest()), codeAlign);
              ret == StatusOfStep(step)
              && (step.Stepped? ==> Current(rules) == step.s && data.Consumed(step.used))
    {
      ghost var bs := data.Rest();
      var opcode;
      hide StepAdvance, Uleb;
      ret, opcode := data.ConsumeByte();
      assert bs == [opcode] + data.Rest();
      if opcode / 64 == 1 {
        pc := (pc + opcode % 64 * codeAlign) % U64;
      } else if opcode / 64 == 2 || opcode / 64 == 3 {
        ret := RegisterInstruction(opcode, rules, data);
      } else if opcode == 0 {
      } else if opcode == 2 || opcode == 3 || opcode == 4 {
        var bytesNeeded := (if opcode == 4 then opcode + 1 else opcode) - 1;
        ret := AdvanceBy(opcode, data, bytesNeeded, rules);
      } else if opcode == 0xC || opcode == 0xD || opcode == 0xE {
        ret := CfaInstruction(opcode, rules, data);
      } else {
        ret := Error(ENOSYS);
      }
    }

    /** All the instructions, or those up to the first location past the return address: for any bytes,
        what running them means, or the error found first. */
    method DwarfExec(rules: array<RegisterRule>, data: EhData) returns (ret: Status)
      requires data.Valid() && data.image.ptrSize <= 8 && retReg < frame.Length == rules.Length
      modifies this`pc, this`cfaReg, this`cfaOffset, rules, data
      ensures data.Valid() && data.cursor + data.bytesLeft == old(data.cursor + data.bytesLeft)
      ensures var run := Execute(old(Current(rules)), old(data.Rest()), ReturnAddress(), codeAlign);
              ret == StatusOfRun(run) && (run.Finished? ==> Current(rules) == run.s)
    {
      ghost var run := Execute(Current(rules), data.Rest(), ReturnAddress(), codeAlign);
      hide StepBytes;
      while data.bytesLeft > 0
        invariant data.Valid() && data.cursor + data.bytesLeft == old(data.cursor + data.bytesLeft)
        invariant run == Execute(Current(rules), data.Rest(), ReturnAddress(), codeAlign)
        decreases data.bytesLeft
      {
        if pc > ReturnAddress() { return EOK; }
        ret := DwarfStep(rules, data);
        if ret != EOK { return; }
      }
      return EOK;
    }

    /** The registers of the caller, one by one. */
    method ApplyRegRules(newFrame: array<int>, rules: array<RegisterRule>, spReg: nat, memory: int -> int)
      requires newFrame != frame && newFrame.Length == frame.Length == rules.Length && 0 <= cfaReg < frame.Length
      modifies this`cfaReg, this`cfaOffset, newFrame
      ensures newFrame[..] == Caller(frame[..], old(Current(rules)), dataAlign, memory)
      ensures cfaReg == spReg && cfaOffset == 0
    {
      ghost var row := Current(rules);
      for i := 0 to frame.Length
        invariant frame[..] == old(frame[..]) && Current(rules) == row
        invariant forall k :: 0 <= k < i ==> newFrame[k] == CallerValue(frame[..], row, dataAlign, memory, k)
      {
        match rules[i].kind
        case SameValue =>
          newFrame[i] := frame[i];
        case AtOffset =>
          var offset := frame[cfaReg] + cfaOffset;
          offset := offset + rules[i].offset * dataAlign;
          newFrame[i] := memory(offset % U64);
        case IsCfa =>
          newFrame[i] := (frame[cfaReg] + cfaOffset) % U64;
      }
      cfaReg, cfaOffset := spReg, 0;
    }

    /** One frame up, once the descriptions of the function have been found. A failed step ends the walk
        and leaves the registers alone. */
    method NextFrame(cieCode: EhData, fdeCode: EhData, spReg: nat, memory: int -> int) returns (ret: Status)
      requires cieCode.Valid() && fdeCode.Valid() && cieCode != fdeCode
      requires cieCode.image.ptrSize <= 8 && fdeCode.image.ptrSize <= 8
      requires retReg < frame.Length && spReg < frame.Length && 0 <= cfaReg < frame.Length
      modifies this`pc, this`cfaReg, this`cfaOffset, this`end, frame, cieCode, fdeCode
      ensures old(end) ==> ret == Error(EINVAL) && end && frame[..] == old(frame[..])
      ensures !old(end) ==>
                var s := Row(old(pc), old(cfaReg), old(cfaOffset), InitialRules(frame.Length, spReg));
                var run := ExecuteBoth(s, old(cieCode.Rest()), old(fdeCode.Rest()), old(ReturnAddress()), codeAlign);
                ret == StatusOfRun(run)
                && if run.Finished?
                   then 0 <= run.s.cfaReg < frame.Length == |run.s.rules|
                        && frame[..] == Caller(old(frame[..]), run.s, dataAlign, memory)
                        && end == (frame[retReg] == 0) && cfaReg == spReg && cfaOffset == 0
                   else end && frame[..] == old(frame[..])
    {
      if end { return Error(EINVAL); }
      ghost var s := Row(pc, cfaReg, cfaOffset, InitialRules(frame.Length, spReg));
      ghost var target := ReturnAddress();
      ghost var cie, fde := cieCode.Rest(), fdeCode.Rest();
      var newFrame := new int[frame.Length];
      var rules := new RegisterRule[frame.Length](i => RegisterRule(if i == spReg then IsCfa else SameValue, 0));
      hide Execute, Caller;
      assert rules[..] == s.rules;
      ret := DwarfExec(rules, cieCode);
      if ret != EOK { end := true; return; }
      ExecuteKeepsCfaReg(s, cie, target, codeAlign);
      ghost var first := Current(rules);
      ret := DwarfExec(rules, fdeCode);
      if ret != EOK { end := true; return; }
      ExecuteKeepsCfaReg(first, fde, target, codeAlign);
      ApplyRegRules(newFrame, rules, spReg, memory);
      CopyFrame(newFrame);
      end := ReturnAddress() == 0;
      return EOK;
    }

    method CopyFrame(newFrame: array<int>)
      requires newFrame != frame && newFrame.Length == frame.Length
      modifies frame
      ensures frame[..] == newFrame[..]
    {
      for i := 0 to frame.Length
        invariant newFrame[..] == old(newFrame[..])
        invariant forall k :: 0 <= k < i ==> frame[k] == newFrame[k]
      {
        frame[i] := newFrame[i];
      }
    }
  }
}
