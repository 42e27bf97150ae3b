/** The formatter: text is written piece by piece into a buffer of limited capacity. */
module Format {
  import opened Errors
  import opened Words
  import opened Ctype
  import opened Conversions
  import opened IntegerText
  import opened FormatRender

  const REPR_BUFFER_SIZE := 32

  /** Counting on in a word is counting on and then cutting down. */
  lemma CountOn(a: nat, b: nat, m: nat)
    requires m > 0
    ensures (a % m + b) % m == (a + b) % m
  {
    var q, r := a / m, a % m;
    var h, l := (r + b) / m, (r + b) % m;
    assert a == q * m + r && r + b == h * m + l;
    assert (q + h) * m == q * m + h * m;
    QuotientUnique(a + b, m, q + h, l);
  }

  class FormatBuffer {
    const buffer: array<char>
    const capacity: nat
    /** The counter is a size_t, and wraps at this number. */
    const countLimit: nat
    var bytesWritten: nat
    /** Everything written so far, whether or not it fitted. */
    ghost var text: string

    constructor (buffer: array<char>, capacity: nat, countLimit: nat)
      requires capacity <= buffer.Length && countLimit > 0
      ensures Valid() && text == ""
      ensures this.buffer == buffer && this.capacity == capacity && this.countLimit == countLimit
    {
      this.buffer, this.capacity, this.countLimit, bytesWritten, text := buffer, capacity, countLimit, 0, "";
    }

    /** The buffer holds as much of the text as fits, until the counter wraps. */
    ghost predicate Valid()
      reads this, buffer
    {
      && capacity <= buffer.Length && countLimit > 0 && bytesWritten == |text| % countLimit
      && (|text| <= countLimit ==> forall i :: 0 <= i < |text| && i < capacity ==> buffer[i] == text[i])
    }

    /** How the counter stands. */
    lemma Counter()
      requires Valid()
      ensures 0 <= bytesWritten < countLimit && (|text| < countLimit ==> bytesWritten == |text|)
    {
      if |text| < countLimit { QuotientUnique(|text|, countLimit, 0, |text|); }
    }

    method WriteOne(c: char)
      requires Valid()
      modifies this, buffer
      ensures Valid() && text == old(text) + [c]
      ensures buffer[capacity..] == old(buffer[capacity..])
    {
      Counter();
      CountOn(|text|, 1, countLimit);
      if bytesWritten < capacity { buffer[bytesWritten] := c; }
      bytesWritten := (bytesWritten + 1) % countLimit;
      text := text + [c];
    }

    method WriteMany(s: string)
      requires Valid()
      modifies this, buffer
      ensures Valid() && text == old(text) + s
      ensures buffer[capacity..] == old(buffer[capacity..])
    {
      Counter();
      CountOn(|text|, |s|, countLimit);
      if bytesWritten < capacity {
        var countToWrite := if |s| < capacity - bytesWritten then |s| else capacity - bytesWritten;
        forall i | 0 <= i < countToWrite { buffer[bytesWritten + i] := s[i]; }
      }
      bytesWritten := (bytesWritten + |s|) % countLimit;
      text := text + s;
    }

    method WriteRepeated(c: char, n: int)
      requires Valid()
      modifies this, buffer
      ensures Valid() && text == old(text) + Repeat(c, n)
      ensures buffer[capacity..] == old(buffer[capacity..])
    {
      var i := 0;
      while i < n
        invariant Valid() && 0 <= i && (i <= n || i == 0)
        invariant text == old(text) + Repeat(c, i)
        invariant buffer[capacity..] == old(buffer[capacity..])
      {
        WriteOne(c);
        i := i + 1;
      }
    }

    method WritePadding(fm: FormatSpec, reprSize: nat)
      requires Valid()
      modifies this, buffer
      ensures Valid() && text == old(text) + Padding(fm, reprSize)
      ensures buffer[capacity..] == old(buffer[capacity..])
    {
      if fm.minWidth <= reprSize { return; }
      WriteRepeated(if fm.leftJustify then ' ' else fm.padChar, fm.minWidth - reprSize);
    }

    method WriteInteger(fm: FormatSpec, word: Word)
      requires Valid() && KnownBase(fm.base)
      modifies this, buffer
      ensures Valid() && text == old(text) + IntegerText.Text(fm, word)
      ensures buffer[capacity..] == old(buffer[capacity..])
    {
      hide Body, Repeat, Valid;
      var value: nat, negative := word, false;
      if fm.isSigned && AsI64(word) < 0 {
        value, negative := Negate(word), true;
      }
      if fm.prepend || negative {
        WriteOne(if negative then '-' else fm.prependChar);
      }
      assert text == old(text) + Sign(fm, word);
      var repr := IntegerRepr(fm, value);
      if fm.leftJustify {
        WriteMany(repr);
        WritePadding(fm, |repr|);
        ThreeParts(old(text), Sign(fm, word), repr, Padding(fm, |repr|));
      } else {
        WritePadding(fm, |repr|);
        WriteMany(repr);
        ThreeParts(old(text), Sign(fm, word), Padding(fm, |repr|), repr);
      }
    }

    static lemma ThreeParts(a: string, b: string, c: string, d: string)
      ensures ((a + b) + c) + d == a + (b + (c + d))
    {}

    static lemma DigitBudget(v: nat, j: nat, base: nat)
      requires KnownBase(base) && v > 0 && v * Pow2(3 * j) < U64
      ensures j <= 21 && v / base * Pow2(3 * (j + 1)) < U64
    {
      EightDivides(v, base);
      BudgetStep(v, v / base, Pow2(3 * j));
      Pow2InWord(3 * j);
      NextPower(3 * j);
      assert 3 * (j + 1) == 3 * j + 3;
    }

    static lemma NextPower(n: nat)
      ensures Pow2(n + 3) == 8 * Pow2(n)
    {
      Pow2Adds(3, n);
      assert Pow2(3) == 8;
    }

    static lemma BudgetStep(v: nat, q: nat, p: nat)
      requires 8 * q <= v && v > 0 && v * p < U64
      ensures q * (8 * p) < U64 && p < U64
    {
      ProductMonotone(8 * q, v, p);
      ProductMonotone(1, v, p);
      assert q * (8 * p) == (8 * q) * p;
    }

    static lemma EightDivides(v: nat, base: nat)
      requires KnownBase(base)
      ensures 8 * (v / base) <= v
    {}

    /** The digits go backwards into a buffer of 32, which they never fill. */
    static method FillDigits(reprBuffer: array<char>, magnitude: nat, base: nat, upper: bool) returns (index: nat)
      requires reprBuffer.Length == REPR_BUFFER_SIZE && KnownBase(base) && magnitude < U64
      modifies reprBuffer
      ensures 10 <= index <= REPR_BUFFER_SIZE
      ensures reprBuffer[index..] == Digits(magnitude, base, upper)
    {
      hide DigitChar, Pow2, Digits;
      index := REPR_BUFFER_SIZE;
      var value: nat := magnitude;
      ghost var j := 0;
      NoDigitsYet(magnitude, base, upper);
      assert reprBuffer[index..] == [];
      while value > 0
        invariant 0 <= j <= 22 && index == REPR_BUFFER_SIZE - j && value * Pow2(3 * j) < U64
        invariant Digits(value, base, upper) + reprBuffer[index..] == Digits(magnitude, base, upper)
      {
        DigitBudget(value, j, base);
        ghost var before := reprBuffer[index..];
        var c := DigitChar(value % base, base, upper);
        index := index - 1;
        reprBuffer[index] := c;
        assert reprBuffer[index..] == [c] + before;
        LastDigit(value, base, upper, before);
        value := value / base;
        j := j + 1;
      }
      assert "" + reprBuffer[index..] == reprBuffer[index..];
    }

    static lemma LastDigit(v: nat, base: nat, upper: bool, before: string)
      requires KnownBase(base) && v > 0
      ensures Digits(v, base, upper) + before
              == Digits(v / base, base, upper) + ([DigitChar(v % base, base, upper)] + before)
    {}

    static lemma NoDigitsYet(v: nat, base: nat, upper: bool)
      requires KnownBase(base)
      ensures v * Pow2(3 * 0) == v && Digits(v, base, upper) + "" == Digits(v, base, upper)
      ensures Digits(0, base, upper) == ""
    {}

    /** repr_buffer[--index] = c */
    static method Prepend(reprBuffer: array<char>, index: nat, c: char) returns (before: nat)
      requires 0 < index <= reprBuffer.Length
      modifies reprBuffer
      ensures before == index - 1 && reprBuffer[before..] == [c] + old(reprBuffer[index..])
    {
      before := index - 1;
      reprBuffer[before] := c;
    }

    /** What write_integer assembles in its local buffer before any padding. */
    static method IntegerRepr(fm: FormatSpec, magnitude: nat) returns (repr: string)
      requires KnownBase(fm.base) && magnitude < U64
      ensures repr == Body(fm, magnitude)
    {
      hide Digits;
      var reprBuffer := new char[REPR_BUFFER_SIZE];
      var index := FillDigits(reprBuffer, magnitude, fm.base, fm.uppercase);
      DigitsOrNone(magnitude, fm.base, fm.uppercase);
      if index == REPR_BUFFER_SIZE { index := Prepend(reprBuffer, index, '0'); }
      assert reprBuffer[index..] == Numeral(magnitude, fm.base, fm.uppercase);
      if fm.alternateForm {
        if fm.base == 16 {
          index := Prepend(reprBuffer, index, if fm.uppercase then 'X' else 'x');
          index := Prepend(reprBuffer, index, '0');
        } else if fm.base == 8 {
          index := Prepend(reprBuffer, index, '0');
        }
      }
      repr := reprBuffer[index..];
    }

    static lemma DigitsOrNone(v: nat, base: nat, upper: bool)
      requires KnownBase(base)
      ensures Digits(v, base, upper) == "" <==> v == 0
    {}
  }

  // ---------------------------------------------------------------------------
  // Parsing a conversion
  // ---------------------------------------------------------------------------

  method ConsumeFlags(fmt: string) returns (fm: FormatSpec, rest: string)
    ensures (fm, rest) == Flags(fmt, PLAIN)
  {
    fm, rest := PLAIN, fmt;
    while rest != "" && IsFlag(rest[0])
      invariant Flags(rest, fm) == Flags(fmt, PLAIN)
      decreases |rest|
    {
      fm, rest := WithFlag(fm, rest[0]), rest[1..];
    }
  }

  method ConsumeDigits(fmt: string) returns (digits: string, rest: string)
    ensures digits == fmt[..DigitCount(fmt)] && rest == fmt[DigitCount(fmt)..]
  {
    var n := 0;
    while n < |fmt| && IsDigit(fmt[n])
      invariant n <= DigitCount(fmt) && DigitCount(fmt) == n + DigitCount(fmt[n..])
    {
      assert fmt[n..][1..] == fmt[n + 1..];
      n := n + 1;
    }
    return fmt[..n], fmt[n..];
  }

  method ParseNumber(fmt: string, args: seq<Arg>, required: bool) returns (f: Field)
    ensures f == NumberField(fmt, args, required)
  {
    if StartsWith(fmt, "*") {
      if args == [] || !args[0].IntArg? { return BadArgument; }
      return Field.Field(SignedWord(args[0].word, 32), fmt[1..], args[1..]);
    }
    var digits, rest := ConsumeDigits(fmt);
    if digits == "" {
      return if required then NoField(EINVAL) else Field.Field(0, fmt, args);
    }
    var p := StrToU64WithBase(digits, 10);
    return if p.Parsed? then Field.Field(p.value, rest, args) else NoField(p.errno);
  }

  // ---------------------------------------------------------------------------
  // Writing a conversion
  // ---------------------------------------------------------------------------

  /** What is left after a piece has been written. */
  datatype Progress = Continue(rest: string, args: seq<Arg>) | Stop(errno: Errno) | Stuck

  function ProgressOf(c: Conversion): Progress {
    match c
    case Converted(_, rest, args) => Continue(rest, args)
    case Refused(e) => Stop(e)
    case Unusable => Stuck
  }

  ghost function Written(c: Conversion): string {
    if c.Converted? then c.text else ""
  }

  method WriteInt(fb: FormatBuffer, fm: FormatSpec, fmt: string, args: seq<Arg>, bits: nat) returns (p: Progress)
    requires fb.Valid() && fm.base == 10 && !fm.isSigned && !fm.uppercase
    modifies fb, fb.buffer
    ensures fb.Valid() && fb.buffer[fb.capacity..] == old(fb.buffer[fb.capacity..])
    ensures var c := IntConversion(fm, fmt, args, bits);
            p == ProgressOf(c) && fb.text == old(fb.text) + Written(c)
  {
    if fmt == "" || fmt[0] !in "dioxXu" { return Stop(EINVAL); }
    if args == [] || !args[0].IntArg? { return Stuck; }
    if fmt[0] == 'd' || fmt[0] == 'i' {
      fb.WriteInteger(fm.(isSigned := true), SignedWord(args[0].word, bits));
    } else {
      fb.WriteInteger(fm.(base := BaseOf(fmt[0]), uppercase := fmt[0] == 'X'), UnsignedWord(args[0].word, bits));
    }
    return Continue(fmt[1..], args[1..]);
  }

  function Shown(fm: FormatSpec, s: string): string {
    if fm.hasPrecision && fm.precision < |s| then s[..fm.precision] else s
  }

  /** The characters of a string up to the precision. */
  method WriteShown(fb: FormatBuffer, fm: FormatSpec, s: string) returns (i: nat)
    requires fb.Valid()
    modifies fb, fb.buffer
    ensures fb.Valid() && fb.buffer[fb.capacity..] == old(fb.buffer[fb.capacity..])
    ensures i == |Shown(fm, s)| && fb.text == old(fb.text) + Shown(fm, s)
  {
    i := 0;
    while i < |s| && (!fm.hasPrecision || i < fm.precision)
      invariant 0 <= i <= |s| && (fm.hasPrecision ==> i <= fm.precision)
      invariant fb.Valid() && fb.buffer[fb.capacity..] == old(fb.buffer[fb.capacity..])
      invariant fb.text == old(fb.text) + s[..i]
    {
      fb.WriteOne(s[i]);
      assert s[..i + 1] == s[..i] + [s[i]];
      i := i + 1;
    }
    assert s[..i] == Shown(fm, s);
  }

  method WriteChars(fb: FormatBuffer, fm: FormatSpec, t: CText, longBits: nat) returns (ends: bool)
    requires fb.Valid()
    modifies fb, fb.buffer
    ensures fb.Valid() && fb.buffer[fb.capacity..] == old(fb.buffer[fb.capacity..])
    ensures ends <==> fm.minWidth < Pow2(longBits)
    ensures ends ==> fb.text == old(fb.text) + StringText(fm, t)
  {
    hide FormatBuffer.Valid, Pow2, Repeat;
    var s := if t.Null? then "<null>" else t.chars;
    var i := WriteShown(fb, fm, s);
    // while (i++ < min_width) write ' ', where i is a size_t and never reaches a width of more bits
    if fm.minWidth >= Pow2(longBits) { return false; }
    fb.WriteRepeated(' ', fm.minWidth - i);
    return true;
  }

  method WriteSized(fb: FormatBuffer, fm: FormatSpec, t: CText) returns (ends: bool)
    requires fb.Valid()
    modifies fb, fb.buffer
    ensures fb.Valid() && fb.buffer[fb.capacity..] == old(fb.buffer[fb.capacity..])
    ensures ends <==> fm.precision <= |SizedText(fm, t)|
    ensures ends ==> fb.text == old(fb.text) + SizedText(fm, t)
  {
    var s := if t.Null? then "<null-string>" else t.chars;
    var size := |s|;
    if fm.hasPrecision && fm.precision < |s| { size := fm.precision; }
    fb.WriteMany(s[..size]);
    // while (size < precision) write ' ', without any change to size
    return !(size < fm.precision);
  }

  /** An integer of the size that its length modifier says. */
  method WriteNumber(fb: FormatBuffer, fm: FormatSpec, fmt: string, args: seq<Arg>, longBits: nat) returns (p: Progress)
    requires fb.Valid() && fm.base == 10 && !fm.isSigned && !fm.uppercase && (longBits == 32 || longBits == 64)
    requires !("c" <= fmt) && !("s" <= fmt) && !("p" <= fmt)
    modifies fb, fb.buffer
    ensures fb.Valid() && fb.buffer[fb.capacity..] == old(fb.buffer[fb.capacity..])
    ensures var c := Dispatch(fm, fmt, args, longBits);
            p == ProgressOf(c) && (c.Converted? ==> fb.text == old(fb.text) + c.text)
  {
    hide IntConversion, StringText, SizedText, FormatBuffer.Valid, IntegerText.Text, Pow2;
    var rest, bits := fmt, 32;
    if StartsWith(fmt, "hh") {
      rest, bits := fmt[2..], 8;
    } else if StartsWith(fmt, "h") {
      rest, bits := fmt[1..], 16;
    } else if StartsWith(fmt, "ll") {
      rest, bits := fmt[2..], 64;
    } else if longBits == 64 && StartsWith(fmt, "z") {
      rest, bits := fmt[1..], 64;
    } else if StartsWith(fmt, "l") || StartsWith(fmt, "z") {
      rest, bits := fmt[1..], longBits;
    }
    assert Dispatch(fm, fmt, args, longBits) == IntConversion(fm, rest, args, bits);
    p := WriteInt(fb, fm, rest, args, bits);
  }

  method WriteConversion(fb: FormatBuffer, fm: FormatSpec, fmt: string, args: seq<Arg>, longBits: nat)
    returns (p: Progress)
    requires fb.Valid() && fm.base == 10 && !fm.isSigned && !fm.uppercase && (longBits == 32 || longBits == 64)
    modifies fb, fb.buffer
    ensures fb.Valid() && fb.buffer[fb.capacity..] == old(fb.buffer[fb.capacity..])
    ensures var c := Dispatch(fm, fmt, args, longBits);
            p == ProgressOf(c) && (c.Converted? ==> fb.text == old(fb.text) + c.text)
  {
    hide IntConversion, StringText, SizedText, FormatBuffer.Valid, IntegerText.Text, Pow2;
    if StartsWith(fmt, "c") {
      if args == [] || !args[0].IntArg? { return Stuck; }
      fb.WriteOne((args[0].word % 256) as char);
      return Continue(fmt[1..], args[1..]);
    }
    if StartsWith(fmt, "s") {
      if args == [] || !args[0].CharsArg? { return Stuck; }
      var ends := WriteChars(fb, fm, args[0].chars, longBits);
      if !ends { return Stuck; }
      return Continue(fmt[1..], args[1..]);
    }
    if StartsWith(fmt, "p") {
      if StartsWith(fmt[1..], "S") {
        assert "pS" <= fmt;
        if args == [] || !args[0].StringArg? { return Stuck; }
        var ends := WriteSized(fb, fm, args[0].text);
        if !ends { return Stuck; }
        return Continue(fmt[2..], args[1..]);
      }
      if args == [] || !args[0].IntArg? { return Stuck; }
      fb.WriteInteger(fm.(base := 16, minWidth := longBits / 4, padChar := '0'), UnsignedWord(args[0].word, longBits));
      return Continue(fmt[1..], args[1..]);
    }
    p := WriteNumber(fb, fm, fmt, args, longBits);
  }

  /** Everything after a lone percent sign. */
  method DoConversion(fb: FormatBuffer, fmt: string, args: seq<Arg>, longBits: nat) returns (p: Progress)
    requires fb.Valid() && (longBits == 32 || longBits == 64)
    modifies fb, fb.buffer
    ensures fb.Valid() && fb.buffer[fb.capacity..] == old(fb.buffer[fb.capacity..])
    ensures var c := Convert(fmt, args, longBits);
            p == ProgressOf(c) && (c.Converted? ==> fb.text == old(fb.text) + c.text)
  {
    hide FormatBuffer.Valid;
    var fm, rest := ConsumeFlags(fmt);
    var width := ParseNumber(rest, args, false);
    if width.NoField? { return Stop(width.errno); }
    if width.BadArgument? { return Stuck; }
    fm, rest := fm.(minWidth := width.value), width.rest;
    var left := width.args;
    if StartsWith(rest, ".") {
      var precision := ParseNumber(rest[1..], left, true);
      if precision.NoField? { return Stop(precision.errno); }
      if precision.BadArgument? { return Stuck; }
      fm, rest := fm.(hasPrecision := true, precision := precision.value), precision.rest;
      left := precision.args;
    }
    p := WriteConversion(fb, fm, rest, left, longBits);
  }

  // ---------------------------------------------------------------------------
  // vsnprintf
  // ---------------------------------------------------------------------------

  /** The int that is returned, negative for errors. */
  datatype Result = Returned(value: int) | Undefined

  /** One round of the main loop: plain text up to a percent sign, and what that stands for. */
  method WriteRound(fb: FormatBuffer, fmt: string, args: seq<Arg>, longBits: nat) returns (p: Progress)
    requires fb.Valid() && fmt != "" && (longBits == 32 || longBits == 64)
    modifies fb, fb.buffer
    ensures fb.Valid() && fb.buffer[fb.capacity..] == old(fb.buffer[fb.capacity..])
    ensures var whole := Render(fmt, args, longBits, old(fb.text));
            match p
            case Continue(rest, left) => whole == Render(rest, left, longBits, fb.text) && |rest| < |fmt|
            case Stop(e) => whole == Rejected(e)
            case Stuck => whole == Rendering.Undefined
  {
    hide FormatBuffer.Valid, Convert, Render;
    var n := NextPercent(fmt);
    ghost var before := fb.text;
    fb.WriteMany(fmt[..n]);
    var rest := fmt[n..];
    if rest == "" {
      RenderEnds(fmt, args, longBits, before);
      PlainRest(rest, args, longBits, fb.text);
      return Continue(rest, args);
    }
    if StartsWith(rest, "%%") {
      RenderPercent(fmt, args, longBits, before);
      fb.WriteOne('%');
      assert rest[2..] == fmt[n + 2..];
      return Continue(rest[2..], args);
    }
    assert rest[1..] == fmt[n + 1..];
    RenderConversion(fmt, args, longBits, before);
    p := DoConversion(fb, rest[1..], args, longBits);
  }

  /** The counter, of 32 bits or 64, cut down to an int is the length cut down to an int, which is the
      length exactly below 2^31. */
  lemma LengthReturned(length: nat, longBits: nat)
    requires longBits == 32 || longBits == 64
    ensures Narrow(length % Pow2(longBits), 32) == Narrow(length, 32)
    ensures Narrow(length, 32) == length <==> length < 0x8000_0000
  {
    Pow2Values();
    assert Pow2(32) == 2 * Pow2(31);
    hide Pow2;
    NarrowExact(length, 32);
    LowHalf(length);
  }

  lemma LowHalf(v: nat)
    ensures v % U64 % U32 == v % U32 && v % U32 % U32 == v % U32
  {
    var q, r := v / U64, v % U64;
    var h, l := r / U32, r % U32;
    assert v == (q * U32 + h) * U32 + l;
    QuotientUnique(v, U32, q * U32 + h, l);
  }

  /** The main loop. */
  method WriteAll(fb: FormatBuffer, format: string, args: seq<Arg>, longBits: nat) returns (p: Progress)
    requires fb.Valid() && (longBits == 32 || longBits == 64)
    modifies fb, fb.buffer
    ensures fb.Valid() && fb.buffer[fb.capacity..] == old(fb.buffer[fb.capacity..])
    ensures match Render(format, args, longBits, old(fb.text))
            case Rejected(e) => p == Stop(e)
            case Undefined => p == Stuck
            case Rendered(text) => p.Continue? && fb.text == text
  {
    var fmt, left := format, args;
    ghost var whole := Render(format, args, longBits, fb.text);
    assert fb.capacity <= fb.buffer.Length;
    hide Render, FormatBuffer.Valid;
    while fmt != ""
      invariant fb.Valid() && fb.capacity <= fb.buffer.Length
      invariant fb.buffer[fb.capacity..] == old(fb.buffer[fb.capacity..])
      invariant whole == Render(fmt, left, longBits, fb.text)
      decreases |fmt|
    {
      p := WriteRound(fb, fmt, left, longBits);
      if !p.Continue? { return; }
      fmt, left := p.rest, p.args;
    }
    PlainRest(fmt, left, longBits, fb.text);
    return Continue(fmt, left);
  }

  /** What a run that succeeds delivers. The low 32 bits of the length, as an int, which is the length
      exactly below 2^31; as much of the text as fits, terminated, unless the counter wrapped. */
  ghost predicate Delivered(text: string, r: Result, buffer: seq<char>, capacity: nat, longBits: nat)
    requires capacity <= |buffer|
  {
    && r == Returned(Narrow(|text|, 32)) && (r.value == |text| <==> |text| < 0x8000_0000)
    && (capacity > 0 ==> buffer[MinOf(|text| % Pow2(longBits), capacity - 1)] == '\0')
    && (capacity > 0 && |text| < Pow2(longBits) ==>
          var kept := MinOf(|text|, capacity - 1);
          buffer[..kept] == text[..kept] && buffer[kept] == '\0')
  }

  /** For every format, argument list and capacity. Nothing at or past the capacity is touched, whatever
      happens. */
  method Vsnprintf(buffer: array<char>, capacity: nat, format: string, args: seq<Arg>, longBits: nat)
    returns (r: Result)
    requires capacity <= buffer.Length && (longBits == 32 || longBits == 64)
    modifies buffer
    ensures buffer[capacity..] == old(buffer[capacity..])
    ensures match Render(format, args, longBits, "")
            case Rejected(e) => r == Returned(0 - Code(e))
            case Undefined => r == Result.Undefined
            case Rendered(text) => Delivered(text, r, buffer[..], capacity, longBits)
  {
    var fb := new FormatBuffer(buffer, capacity, Pow2(longBits));
    hide Render, FormatBuffer.Valid, Pow2, Delivered;
    var p := WriteAll(fb, format, args, longBits);
    if p.Stop? { return Returned(0 - Code(p.errno)); }
    if p.Stuck? { return Result.Undefined; }
    r := Finish(fb, longBits);
  }

  /** The terminator and the result. */
  method Finish(fb: FormatBuffer, ghost longBits: nat) returns (r: Result)
    requires fb.Valid() && (longBits == 32 || longBits == 64) && fb.countLimit == Pow2(longBits)
    modifies fb.buffer
    ensures fb.capacity <= fb.buffer.Length && fb.buffer[fb.capacity..] == old(fb.buffer[fb.capacity..])
    ensures Delivered(fb.text, r, fb.buffer[..], fb.capacity, longBits)
  {
    hide Narrow, Pow2;
    fb.Counter();
    LengthReturned(|fb.text|, longBits);
    if fb.capacity > 0 {
      var lastChar := MinOf(fb.bytesWritten, fb.capacity - 1);
      fb.buffer[lastChar] := '\0';
    }
    return Returned(Narrow(fb.bytesWritten, 32));
  }

  function MinOf(a: nat, b: nat): nat { if a < b then a else b }

  lemma PlainRest(fmt: string, args: seq<Arg>, longBits: nat, before: string)
    requires fmt == "" && (longBits == 32 || longBits == 64)
    ensures Render(fmt, args, longBits, before) == Rendered(before)
  {
    assert before + fmt == before;
  }

  method NextPercent(fmt: string) returns (n: nat)
    ensures n == PercentAt(fmt)
  {
    n := 0;
    while n < |fmt| && fmt[n] != '%'
      invariant n <= PercentAt(fmt) && PercentAt(fmt) == n + PercentAt(fmt[n..])
    {
      assert fmt[n..][1..] == fmt[n + 1..];
      n := n + 1;
    }
  }
}
