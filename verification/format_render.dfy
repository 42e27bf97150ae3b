/** What a format string and its arguments denote, with no regard to any buffer. */
module FormatRender {
  import opened Errors
  import opened Words
  import opened Ctype
  import opened Conversions
  import opened IntegerText

  type Word = w: nat | w < U64

  /** An argument as it is fetched: a promoted integer or a pointer value, the text of a C string up to
      its terminator, or the text of a sized string. No text stands for a null pointer. */
  datatype Arg = IntArg(word: Word) | CharsArg(chars: CText) | StringArg(text: CText)

  datatype CText = Null | Chars(chars: string)

  /** Undefined: an argument is missing or of the wrong sort, or a padding loop never ends: that of %pS does
      not advance, and that of %s counts in a word of longBits bits up to a width of 64. */
  datatype Rendering = Rendered(text: string) | Rejected(errno: Errno) | Undefined

  // ---------------------------------------------------------------------------
  // The parts of a conversion
  // ---------------------------------------------------------------------------

  predicate IsFlag(c: char) { c in "+- 0#" }

  function WithFlag(fm: FormatSpec, c: char): (r: FormatSpec)
    ensures SameNotation(r, fm)
  {
    if c == '+' || c == ' ' then fm.(prepend := true, prependChar := c)
    else if c == '-' then fm.(leftJustify := true)
    else if c == '0' then fm.(padChar := '0')
    else fm.(alternateForm := true)
  }

  predicate SameNotation(a: FormatSpec, b: FormatSpec) {
    a.base == b.base && a.isSigned == b.isSigned && a.uppercase == b.uppercase
  }

  function Flags(fmt: string, fm: FormatSpec): (r: (FormatSpec, string))
    ensures |r.1| <= |fmt| && SameNotation(r.0, fm)
  {
    if fmt != "" && IsFlag(fmt[0]) then Flags(fmt[1..], WithFlag(fm, fmt[0])) else (fm, fmt)
  }

  function DigitCount(fmt: string): (n: nat)
    ensures n <= |fmt|
  {
    if fmt != "" && IsDigit(fmt[0]) then 1 + DigitCount(fmt[1..]) else 0
  }

  /** A width or a precision. */
  datatype Field = Field(value: nat, rest: string, args: seq<Arg>) | NoField(errno: Errno) | BadArgument

  /** An int argument converted to an unsigned 64-bit word. */
  function SignedWord(w: Word, bits: nat): Word { Narrow(w, bits) % U64 }

  function UnsignedWord(w: Word, bits: nat): (u: Word)
  {
    RemainderBound(w, Pow2(bits));
    w % Pow2(bits)
  }

  lemma RemainderBound(a: nat, d: nat)
    requires d > 0
    ensures 0 <= a % d <= a
  {
    MultipleBound(a / d, d);
  }

  ghost function NumberField(fmt: string, args: seq<Arg>, required: bool): (f: Field)
    ensures f.Field? ==> |f.rest| <= |fmt|
  {
    if "*" <= fmt then
      if args == [] || !args[0].IntArg? then BadArgument
      else Field(SignedWord(args[0].word, 32), fmt[1..], args[1..])
    else
      var n := DigitCount(fmt);
      if n == 0 then (if required then NoField(EINVAL) else Field(0, fmt, args))
      else
        var p := ParseUnsigned(fmt[..n], 10);
        if p.Parsed? then Field(p.value, fmt[n..], args) else NoField(p.errno)
  }

  datatype Conversion = Converted(text: string, rest: string, args: seq<Arg>) | Refused(errno: Errno) | Unusable

  function BaseOf(c: char): nat { if c == 'x' || c == 'X' then 16 else if c == 'o' then 8 else 10 }

  function IntConversion(fm: FormatSpec, fmt: string, args: seq<Arg>, bits: nat): (c: Conversion)
    requires fm.base == 10 && !fm.isSigned && !fm.uppercase
    ensures c.Converted? ==> |c.rest| < |fmt|
  {
    if fmt == "" || fmt[0] !in "dioxXu" then Refused(EINVAL)
    else if args == [] || !args[0].IntArg? then Unusable
    else
      var (fm', value) :=
        if fmt[0] == 'd' || fmt[0] == 'i' then (fm.(isSigned := true), SignedWord(args[0].word, bits))
        else (fm.(base := BaseOf(fmt[0]), uppercase := fmt[0] == 'X'), UnsignedWord(args[0].word, bits));
      Converted(IntegerText.Text(fm', value), fmt[1..], args[1..])
  }

  function StringText(fm: FormatSpec, t: CText): string {
    var s := if t.Null? then "<null>" else t.chars;
    var shown := if fm.hasPrecision && fm.precision < |s| then s[..fm.precision] else s;
    shown + Repeat(' ', fm.minWidth - |shown|)
  }

  function SizedText(fm: FormatSpec, t: CText): string {
    var s := if t.Null? then "<null-string>" else t.chars;
    if fm.hasPrecision && fm.precision < |s| then s[..fm.precision] else s
  }

  /** The conversion proper, after flags, width and precision. */
  function Dispatch(fm: FormatSpec, fmt: string, args: seq<Arg>, longBits: nat): (c: Conversion)
    requires fm.base == 10 && !fm.isSigned && !fm.uppercase && (longBits == 32 || longBits == 64)
    ensures c.Converted? ==> |c.rest| < |fmt|
  {
    if "c" <= fmt then
      if args == [] || !args[0].IntArg? then Unusable
      else Converted([(args[0].word % 256) as char], fmt[1..], args[1..])
    else if "s" <= fmt then
      if args == [] || !args[0].CharsArg? || fm.minWidth >= Pow2(longBits) then Unusable
      else Converted(StringText(fm, args[0].chars), fmt[1..], args[1..])
    else if "pS" <= fmt then
      if args == [] || !args[0].StringArg? || |SizedText(fm, args[0].text)| < fm.precision then Unusable
      else Converted(SizedText(fm, args[0].text), fmt[2..], args[1..])
    else if "p" <= fmt then
      if args == [] || !args[0].IntArg? then Unusable
      else
        var fm' := fm.(base := 16, minWidth := longBits / 4, padChar := '0');
        Converted(IntegerText.Text(fm', UnsignedWord(args[0].word, longBits)), fmt[1..], args[1..])
    else if "hh" <= fmt then IntConversion(fm, fmt[2..], args, 8)
    else if "h" <= fmt then IntConversion(fm, fmt[1..], args, 16)
    else if "ll" <= fmt then IntConversion(fm, fmt[2..], args, 64)
    else if longBits == 64 && "z" <= fmt then IntConversion(fm, fmt[1..], args, 64)
    else if "l" <= fmt || "z" <= fmt then IntConversion(fm, fmt[1..], args, longBits)
    else IntConversion(fm, fmt, args, 32)
  }

  /** Everything after a lone percent sign. */
  ghost function Convert(fmt: string, args: seq<Arg>, longBits: nat): (c: Conversion)
    requires longBits == 32 || longBits == 64
    ensures c.Converted? ==> |c.rest| < |fmt|
  {
    var (fm, f) := Flags(fmt, PLAIN);
    match NumberField(f, args, false)
    case NoField(e) => Refused(e)
    case BadArgument => Unusable
    case Field(width, g, more) =>
      var fm1 := fm.(minWidth := width);
      if "." <= g then
        match NumberField(g[1..], more, true)
        case NoField(e) => Refused(e)
        case BadArgument => Unusable
        case Field(precision, h, left) =>
          Dispatch(fm1.(hasPrecision := true, precision := precision), h, left, longBits)
      else
        Dispatch(fm1, g, more, longBits)
  }

  function PercentAt(fmt: string): (n: nat)
    ensures n <= |fmt| && (n < |fmt| ==> fmt[n] == '%') && '%' !in fmt[..n]
  {
    if fmt == "" || fmt[0] == '%' then 0 else 1 + PercentAt(fmt[1..])
  }

  /** The text of the whole format, after what is there already. */
  ghost function Render(fmt: string, args: seq<Arg>, longBits: nat, before: string): Rendering
    requires longBits == 32 || longBits == 64
    decreases |fmt|
  {
    var n := PercentAt(fmt);
    var text := before + fmt[..n];
    if n == |fmt| then Rendered(text)
    else if "%%" <= fmt[n..] then Render(fmt[n + 2..], args, longBits, text + "%")
    else
      match Convert(fmt[n + 1..], args, longBits)
      case Refused(e) => Rejected(e)
      case Unusable => Undefined
      case Converted(piece, rest, left) => Render(rest, left, longBits, text + piece)
  }

  // The three ways on, one step at a time.

  lemma RenderEnds(fmt: string, args: seq<Arg>, longBits: nat, before: string)
    requires (longBits == 32 || longBits == 64) && PercentAt(fmt) == |fmt|
    ensures Render(fmt, args, longBits, before) == Rendered(before + fmt[..PercentAt(fmt)])
  {}

  lemma RenderPercent(fmt: string, args: seq<Arg>, longBits: nat, before: string)
    requires (longBits == 32 || longBits == 64) && PercentAt(fmt) < |fmt| && "%%" <= fmt[PercentAt(fmt)..]
    ensures var n := PercentAt(fmt);
            n + 2 <= |fmt|
            && Render(fmt, args, longBits, before) == Render(fmt[n + 2..], args, longBits, before + fmt[..n] + "%")
  {}

  lemma RenderConversion(fmt: string, args: seq<Arg>, longBits: nat, before: string)
    requires (longBits == 32 || longBits == 64) && PercentAt(fmt) < |fmt| && !("%%" <= fmt[PercentAt(fmt)..])
    ensures var n := PercentAt(fmt);
            var c := Convert(fmt[n + 1..], args, longBits);
            Render(fmt, args, longBits, before)
            == match c
               case Refused(e) => Rejected(e)
               case Unusable => Undefined
               case Converted(piece, rest, left) => Render(rest, left, longBits, before + fmt[..n] + piece)
  {
    hide Convert;
  }
}
