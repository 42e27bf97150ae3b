/** Call frame instructions: as bytes and as an instruction list
    (sections 6.4 and 7.24 of DWARF 5). */
module DwarfCfi {
  import opened Errors
  import opened Words
  import opened DwarfEncoding

  // ---------------------------------------------------------------------------
  // The state that instructions change
  // ---------------------------------------------------------------------------

  datatype RuleKind = SameValue | AtOffset | IsCfa

  datatype RegisterRule = RegisterRule(kind: RuleKind, offset: int)

  /** A location with its CFA and register rules: the running state, and a row of the unwind table. */
  datatype Row = Row(pc: int, cfaReg: int, cfaOffset: int, rules: seq<RegisterRule>)

  function Advanced(s: Row, delta: int, codeAlign: int): Row {
    s.(pc := (s.pc + delta * codeAlign) % U64)
  }

  /** Rules for registers beyond the known ones are skipped. */
  function WithRule(s: Row, reg: int, rule: RegisterRule): Row {
    if 0 <= reg < |s.rules| then s.(rules := s.rules[reg := rule]) else s
  }

  // ---------------------------------------------------------------------------
  // Bytes
  // ---------------------------------------------------------------------------

  datatype Step = Stepped(s: Row, used: nat) | Fault(errno: Errno) | Unmodelled

  function FaultOf(d: Decoding): Step
    requires !d.Decoded?
  {
    if d.Failed? then Fault(d.errno) else Unmodelled
  }

  function Uleb(bs: Bytes): (d: Decoding)
    ensures d.Decoded? ==> 0 < d.used <= |bs|
  {
    LebScan(bs, 0)
  }

  /** One instruction at the start of bs. */
  function StepBytes(s: Row, bs: Bytes, codeAlign: int): (r: Step)
    requires bs != []
    ensures r.Stepped? ==> 0 < r.used <= |bs|
  {
    var op := bs[0];
    if op / 64 == 1 then Stepped(Advanced(s, op % 64, codeAlign), 1)
    else if op / 64 == 2 then
      var d := Uleb(bs[1..]);
      if d.Decoded? then Stepped(WithRule(s, op % 64, RegisterRule(AtOffset, d.value)), 1 + d.used) else FaultOf(d)
    else if op / 64 == 3 then Stepped(WithRule(s, op % 64, RegisterRule(SameValue, 0)), 1)
    else if op == 0 then Stepped(s, 1)
    else if op == 2 then StepAdvance(s, bs, 1, codeAlign)
    else if op == 3 then StepAdvance(s, bs, 2, codeAlign)
    else if op == 4 then StepAdvance(s, bs, 4, codeAlign)
    else if op == 0xC || op == 0xD then
      var d := Uleb(bs[1..]);
      if !d.Decoded? then FaultOf(d)
      else if d.value >= |s.rules| then Fault(EINVAL)
      else if op == 0xD then Stepped(s.(cfaReg := d.value), 1 + d.used)
      else
        var e := Uleb(bs[1 + d.used..]);
        if e.Decoded? then Stepped(s.(cfaReg := d.value, cfaOffset := e.value), 1 + d.used + e.used) else FaultOf(e)
    else if op == 0xE then
      var d := Uleb(bs[1..]);
      if d.Decoded? then Stepped(s.(cfaOffset := d.value), 1 + d.used) else FaultOf(d)
    else Fault(ENOSYS)
  }

  function StepAdvance(s: Row, bs: Bytes, width: nat, codeAlign: int): (r: Step)
    requires bs != [] && width > 0
    ensures r.Stepped? ==> 0 < r.used <= |bs|
  {
    if |bs| - 1 < width then Fault(EINVAL)
    else Stepped(Advanced(s, LittleEndian(bs[1..1 + width]), codeAlign), 1 + width)
  }

  datatype Execution = Finished(s: Row) | Faulted(errno: Errno) | LeftModel

  /** Instructions run until the bytes are used up or the location has passed the target. */
  function Execute(s: Row, bs: Bytes, target: int, codeAlign: int): Execution
    decreases |bs|
  {
    if bs == [] || s.pc > target then Finished(s)
    else
      match StepBytes(s, bs, codeAlign)
      case Fault(e) => Faulted(e)
      case Unmodelled => LeftModel
      case Stepped(next, used) => Execute(next, bs[used..], target, codeAlign)
  }

  // ---------------------------------------------------------------------------
  // Instructions
  // ---------------------------------------------------------------------------

  datatype Form = Packed | OneByte | TwoBytes | FourBytes

  datatype Insn =
    | Nop
    | AdvanceLoc(form: Form, delta: int)
    | OffsetAt(reg: int, offset: int)
    | Restore(reg: int)
    | DefCfa(reg: int, offset: int)
    | DefCfaRegister(reg: int)
    | DefCfaOffset(offset: int)

  function FormWidth(form: Form): nat {
    match form
    case Packed => 0
    case OneByte => 1
    case TwoBytes => 2
    case FourBytes => 4
  }

  /** Operands within reach of their encodings; LEB128 operands below 2^31. */
  predicate GoodInsn(i: Insn, registers: nat) {
    match i
    case Nop => true
    case AdvanceLoc(form, delta) => if form == Packed then 0 <= delta < 64 else 0 <= delta < Pow2(8 * FormWidth(form))
    case OffsetAt(reg, offset) => 0 <= reg < 64 && 0 <= offset < Pow2(31)
    case Restore(reg) => 0 <= reg < 64
    case DefCfa(reg, offset) => 0 <= reg < registers && reg < Pow2(31) && 0 <= offset < Pow2(31)
    case DefCfaRegister(reg) => 0 <= reg < registers && reg < Pow2(31)
    case DefCfaOffset(offset) => 0 <= offset < Pow2(31)
  }

  function EncodeInsn(i: Insn, registers: nat): (bs: Bytes)
    requires GoodInsn(i, registers)
    ensures |bs| > 0
  {
    match i
    case Nop => [0]
    case AdvanceLoc(form, delta) =>
      (match form
       case Packed => [64 + delta]
       case OneByte => [2] + EncodeFixed(delta, 1)
       case TwoBytes => [3] + EncodeFixed(delta, 2)
       case FourBytes => [4] + EncodeFixed(delta, 4))
    case OffsetAt(reg, offset) => [128 + reg] + EncodeUleb(offset)
    case Restore(reg) => [192 + reg]
    case DefCfa(reg, offset) => [0xC] + (EncodeUleb(reg) + EncodeUleb(offset))
    case DefCfaRegister(reg) => [0xD] + EncodeUleb(reg)
    case DefCfaOffset(offset) => [0xE] + EncodeUleb(offset)
  }

  predicate GoodProgram(p: seq<Insn>, registers: nat) {
    forall k :: 0 <= k < |p| ==> GoodInsn(p[k], registers)
  }

  function EncodeProgram(p: seq<Insn>, registers: nat): Bytes
    requires GoodProgram(p, registers)
  {
    if p == [] then [] else EncodeInsn(p[0], registers) + EncodeProgram(p[1..], registers)
  }

  /** What an instruction means. Restoring means keeping the value, as the unwinder has it. */
  function Perform(i: Insn, s: Row, codeAlign: int): Row {
    match i
    case Nop => s
    case AdvanceLoc(_, delta) => Advanced(s, delta, codeAlign)
    case OffsetAt(reg, offset) => WithRule(s, reg, RegisterRule(AtOffset, offset))
    case Restore(reg) => WithRule(s, reg, RegisterRule(SameValue, 0))
    case DefCfa(reg, offset) => s.(cfaReg := reg, cfaOffset := offset)
    case DefCfaRegister(reg) => s.(cfaReg := reg)
    case DefCfaOffset(offset) => s.(cfaOffset := offset)
  }

  // ---------------------------------------------------------------------------
  // Disassembly
  // ---------------------------------------------------------------------------

  datatype Fetched = Insn(i: Insn, used: nat) | None

  function FetchAdvance(form: Form, bs: Bytes): (f: Fetched)
    requires bs != [] && form != Packed
    ensures f.Insn? ==> 0 < f.used <= |bs|
  {
    var width := FormWidth(form);
    if |bs| - 1 < width then None else Fetched.Insn(AdvanceLoc(form, LittleEndian(bs[1..1 + width])), 1 + width)
  }

  function FetchCfa(bs: Bytes, registers: nat): (f: Fetched)
    requires bs != []
    ensures f.Insn? ==> 0 < f.used <= |bs|
  {
    var d := Uleb(bs[1..]);
    if !d.Decoded? || d.value >= registers then None
    else if bs[0] == 0xD then Fetched.Insn(DefCfaRegister(d.value), 1 + d.used)
    else
      var e := Uleb(bs[1 + d.used..]);
      if e.Decoded? then Fetched.Insn(DefCfa(d.value, e.value), 1 + d.used + e.used) else None
  }

  /** The instruction at the start of bs. */
  function Fetch(bs: Bytes, registers: nat): (f: Fetched)
    requires bs != []
    ensures f.Insn? ==> 0 < f.used <= |bs|
  {
    var op := bs[0];
    if op / 64 == 1 then Fetched.Insn(AdvanceLoc(Packed, op % 64), 1)
    else if op / 64 == 2 then
      var d := Uleb(bs[1..]);
      if d.Decoded? then Fetched.Insn(OffsetAt(op % 64, d.value), 1 + d.used) else None
    else if op / 64 == 3 then Fetched.Insn(Restore(op % 64), 1)
    else if op == 0 then Fetched.Insn(Nop, 1)
    else if op == 2 then FetchAdvance(OneByte, bs)
    else if op == 3 then FetchAdvance(TwoBytes, bs)
    else if op == 4 then FetchAdvance(FourBytes, bs)
    else if op == 0xC || op == 0xD then FetchCfa(bs, registers)
    else if op == 0xE then
      var d := Uleb(bs[1..]);
      if d.Decoded? then Fetched.Insn(DefCfaOffset(d.value), 1 + d.used) else None
    else None
  }

  /** The instructions up to the end, or up to the first one that is bad or unknown. */
  datatype Listing = Listing(p: seq<Insn>, whole: bool)

  function Disassemble(bs: Bytes, registers: nat): Listing
    decreases |bs|
  {
    if bs == [] then Listing([], true)
    else
      var f := Fetch(bs, registers);
      if f.None? then Listing([], false)
      else
        var rest := Disassemble(bs[f.used..], registers);
        rest.(p := [f.i] + rest.p)
  }

  /** The interpreter does what the instruction means, and stops exactly where there is none. */
  lemma StepPerforms(s: Row, bs: Bytes, codeAlign: int)
    requires bs != []
    ensures var f := Fetch(bs, |s.rules|);
            var step := StepBytes(s, bs, codeAlign);
            if f.Insn? then step == Stepped(Perform(f.i, s, codeAlign), f.used) else !step.Stepped?
  {
    hide Uleb, LittleEndian, Advanced, WithRule;
  }

  // ---------------------------------------------------------------------------
  // Disassembly inverts encoding
  // ---------------------------------------------------------------------------

  lemma UlebDecodes(v: nat, rest: Bytes)
    requires v < Pow2(31)
    ensures Uleb(EncodeUleb(v) + rest) == Decoded(v, |EncodeUleb(v)|)
  {
    UlebRoundTrip(v, rest, 8);
  }

  lemma FetchesAdvance(op: int, form: Form, delta: nat, rest: Bytes)
    requires form != Packed && delta < Pow2(8 * FormWidth(form))
    ensures FetchAdvance(form, ([op] + EncodeFixed(delta, FormWidth(form))) + rest)
            == Fetched.Insn(AdvanceLoc(form, delta), 1 + FormWidth(form))
  {
    hide LittleEndian, EncodeFixed, Pow2;
    var width := FormWidth(form);
    var bs := ([op] + EncodeFixed(delta, width)) + rest;
    assert bs[1..1 + width] == EncodeFixed(delta, width);
    EncodeFixedValue(delta, width);
    QuotientUnique(delta, Pow2(8 * width), 0, delta);
  }

  lemma FetchesOffset(reg: nat, offset: nat, rest: Bytes, registers: nat)
    requires reg < 64 && offset < Pow2(31)
    ensures var e := [128 + reg] + EncodeUleb(offset);
            Fetch(e + rest, registers) == Fetched.Insn(OffsetAt(reg, offset), |e|)
  {
    hide Uleb, EncodeUleb, Pow2;
    var bs := ([128 + reg] + EncodeUleb(offset)) + rest;
    assert bs[1..] == EncodeUleb(offset) + rest && bs[0] == 128 + reg;
    UlebDecodes(offset, rest);
  }

  lemma FetchesDefCfa(reg: nat, offset: nat, rest: Bytes, registers: nat)
    requires reg < registers && reg < Pow2(31) && offset < Pow2(31)
    ensures var e := [0xC] + (EncodeUleb(reg) + EncodeUleb(offset));
            Fetch(e + rest, registers) == Fetched.Insn(DefCfa(reg, offset), |e|)
  {
    hide Uleb, EncodeUleb, Pow2;
    var bs := ([0xC] + (EncodeUleb(reg) + EncodeUleb(offset))) + rest;
    assert bs[1..] == EncodeUleb(reg) + (EncodeUleb(offset) + rest) && bs[0] == 0xC;
    UlebDecodes(reg, EncodeUleb(offset) + rest);
    assert bs[1 + |EncodeUleb(reg)|..] == EncodeUleb(offset) + rest;
    UlebDecodes(offset, rest);
  }

  lemma FetchesOneOperand(op: int, v: nat, rest: Bytes, registers: nat)
    requires (op == 0xD && v < registers) || op == 0xE
    requires v < Pow2(31)
    ensures var e := [op] + EncodeUleb(v);
            Fetch(e + rest, registers) == Fetched.Insn(if op == 0xD then DefCfaRegister(v) else DefCfaOffset(v), |e|)
  {
    hide Uleb, EncodeUleb, Pow2;
    var bs := ([op] + EncodeUleb(v)) + rest;
    assert bs[1..] == EncodeUleb(v) + rest && bs[0] == op;
    UlebDecodes(v, rest);
  }

  lemma FetchesLocation(form: Form, delta: nat, rest: Bytes, registers: nat)
    requires GoodInsn(AdvanceLoc(form, delta), registers)
    ensures var e := EncodeInsn(AdvanceLoc(form, delta), registers);
            Fetch(e + rest, registers) == Fetched.Insn(AdvanceLoc(form, delta), |e|)
  {
    hide EncodeFixed, LittleEndian, Pow2;
    match form
    case Packed => assert ([64 + delta] + rest)[0] == 64 + delta;
    case OneByte => FetchesAdvance(2, form, delta, rest);
    case TwoBytes => FetchesAdvance(3, form, delta, rest);
    case FourBytes => FetchesAdvance(4, form, delta, rest);
  }

  /** An instruction is read back from its bytes, whatever follows them. */
  lemma FetchInverts(i: Insn, rest: Bytes, registers: nat)
    requires GoodInsn(i, registers)
    ensures var e := EncodeInsn(i, registers); Fetch(e + rest, registers) == Fetched.Insn(i, |e|)
  {
    hide EncodeFixed, LittleEndian, Pow2, Uleb, EncodeUleb, FetchAdvance, FetchCfa;
    match i
    case Nop => assert ([0] + rest)[0] == 0;
    case AdvanceLoc(form, delta) => FetchesLocation(form, delta, rest, registers);
    case OffsetAt(reg, offset) => FetchesOffset(reg, offset, rest, registers);
    case Restore(reg) => assert ([192 + reg] + rest)[0] == 192 + reg;
    case DefCfa(reg, offset) => FetchesDefCfa(reg, offset, rest, registers);
    case DefCfaRegister(reg) => FetchesOneOperand(0xD, reg, rest, registers);
    case DefCfaOffset(offset) => FetchesOneOperand(0xE, offset, rest, registers);
  }

  lemma {:induction false} DisassembleInverts(p: seq<Insn>, registers: nat)
    requires GoodProgram(p, registers)
    ensures Disassemble(EncodeProgram(p, registers), registers) == Listing(p, true)
  {
    hide GoodInsn, EncodeInsn, Fetch;
    if p != [] {
      var head := EncodeInsn(p[0], registers);
      var tail := EncodeProgram(p[1..], registers);
      FetchInverts(p[0], tail, registers);
      assert (head + tail)[|head|..] == tail;
      DisassembleInverts(p[1..], registers);
      assert [p[0]] + p[1..] == p;
    }
  }

  // ---------------------------------------------------------------------------
  // The opcodes in numbers
  // ---------------------------------------------------------------------------

  predicate IsByte(b: int) { 0 <= b < 256 }

  lemma OneGroup(v: int, rest: Bytes)
    requires 0 <= v < 128
    ensures Uleb([v] + rest) == Decoded(v, 1)
  {
    var bs := [v] + rest;
    assert bs[..1] == [v] && [v][1..] == [];
    assert LebValue([v]) == v;
  }

  /** The location moves on by the operand times the code alignment factor. */
  lemma AdvanceBytes(s: Row, a: int, b: int, c: int, d: int, rest: Bytes, codeAlign: int)
    requires IsByte(a) && IsByte(b) && IsByte(c) && IsByte(d)
    ensures a < 64 ==>
              StepBytes(s, [0x40 + a] + rest, codeAlign) == Stepped(s.(pc := (s.pc + a * codeAlign) % U64), 1)
    ensures StepBytes(s, [2, a] + rest, codeAlign) == Stepped(s.(pc := (s.pc + a * codeAlign) % U64), 2)
    ensures StepBytes(s, [3, a, b] + rest, codeAlign)
            == Stepped(s.(pc := (s.pc + (a + 0x100 * b) * codeAlign) % U64), 3)
    ensures StepBytes(s, [4, a, b, c, d] + rest, codeAlign)
            == Stepped(s.(pc := (s.pc + (a + 0x100 * b + 0x1_0000 * c + 0x100_0000 * d) * codeAlign) % U64), 5)
  {
    hide Uleb, WithRule, LittleEndian;
    FourLittle(a, b, c, d);
    assert ([2, a] + rest)[1..2] == [a];
    assert ([3, a, b] + rest)[1..3] == [a, b];
    assert ([4, a, b, c, d] + rest)[1..5] == [a, b, c, d];
  }

  /** Rules for registers, and none for unknown ones. */
  lemma RuleBytes(s: Row, reg: nat, v: int, rest: Bytes, codeAlign: int)
    requires reg < 64 && 0 <= v < 128
    ensures StepBytes(s, [0x80 + reg, v] + rest, codeAlign)
            == Stepped(if reg < |s.rules| then s.(rules := s.rules[reg := RegisterRule(AtOffset, v)]) else s, 2)
    ensures StepBytes(s, [0xC0 + reg] + rest, codeAlign)
            == Stepped(if reg < |s.rules| then s.(rules := s.rules[reg := RegisterRule(SameValue, 0)]) else s, 1)
  {
    hide Uleb;
    OneGroup(v, rest);
    assert ([0x80 + reg, v] + rest)[1..] == [v] + rest;
  }

  /** Where the frame's address comes from; unknown registers are refused. */
  lemma CfaBytes(s: Row, reg: int, v: int, rest: Bytes, codeAlign: int)
    requires 0 <= reg < 128 && 0 <= v < 128
    ensures StepBytes(s, [0xC, reg, v] + rest, codeAlign)
            == if reg < |s.rules| then Stepped(s.(cfaReg := reg, cfaOffset := v), 3) else Fault(EINVAL)
    ensures StepBytes(s, [0xD, reg] + rest, codeAlign)
            == if reg < |s.rules| then Stepped(s.(cfaReg := reg), 2) else Fault(EINVAL)
    ensures StepBytes(s, [0xE, v] + rest, codeAlign) == Stepped(s.(cfaOffset := v), 2)
  {
    hide Uleb, WithRule, Advanced, StepAdvance;
    OneGroup(reg, [v] + rest);
    OneGroup(reg, rest);
    OneGroup(v, rest);
    assert ([0xC, reg, v] + rest)[1..] == [reg] + ([v] + rest) && ([0xC, reg, v] + rest)[2..] == [v] + rest;
    assert ([0xD, reg] + rest)[1..] == [reg] + rest && ([0xE, v] + rest)[1..] == [v] + rest;
  }

  /** Nothing to do, and nothing that can be done. */
  lemma OtherBytes(s: Row, op: int, rest: Bytes, codeAlign: int)
    requires IsByte(op)
    ensures StepBytes(s, [0] + rest, codeAlign) == Stepped(s, 1)
    ensures op == 1 || 5 <= op < 0xC || 0xF <= op < 0x40 ==> StepBytes(s, [op] + rest, codeAlign) == Fault(ENOSYS)
    ensures 2 <= op <= 4 ==> StepBytes(s, [op], codeAlign) == Fault(EINVAL)
    ensures 0xC <= op <= 0xE || 0x80 <= op < 0xC0 ==> StepBytes(s, [op], codeAlign) == Fault(ERANGE)
  {
    hide WithRule, Advanced;
    assert [op][1..] == [];
  }
}
