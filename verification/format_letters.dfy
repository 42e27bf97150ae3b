/** What each letter, modifier, flag and field of a format does, in terms of the text that comes out. */
module FormatLetters {
  import opened Errors
  import opened Words
  import opened Ctype
  import opened Conversions
  import opened IntegerText
  import opened FormatRender
  import opened FormatLength

  // ---------------------------------------------------------------------------
  // Taking a conversion apart
  // ---------------------------------------------------------------------------

  /** The length modifiers and how many bits of the argument they leave. */
  predicate Modifier(mod: string, bits: nat, longBits: nat) {
    && (longBits == 32 || longBits == 64)
    && ((mod == "hh" && bits == 8) || (mod == "h" && bits == 16) || (mod == "" && bits == 32)
        || (mod == "ll" && bits == 64) || (mod == "l" && bits == longBits) || (mod == "z" && bits == longBits))
  }

  lemma IntDispatch(fm: FormatSpec, mod: string, c: char, bits: nat, args: seq<Arg>, longBits: nat)
    requires fm.base == 10 && !fm.isSigned && !fm.uppercase && Modifier(mod, bits, longBits) && c in "dioxXu"
    ensures Dispatch(fm, mod + [c], args, longBits) == IntConversion(fm, [c], args, bits)
  {
    hide IntConversion, StringText, SizedText, IntegerText.Text, UnsignedWord, Pow2;
    var s := mod + [c];
    assert c != 'c' && c != 's' && c != 'p' && c != 'h' && c != 'l' && c != 'z';
    assert s[|mod|..] == [c] && (mod != "" ==> s[0] == mod[0]) && (mod == "" ==> s[0] == c);
    assert |mod| == 1 ==> s[1] == c;
    assert |mod| == 2 ==> s[..2] == mod && s[1] == mod[1];
    assert |mod| == 1 ==> s[..1] == mod;
  }

  /** A field of the width, the number of digits not mattering; nothing for no width. */
  function WidthText(w: nat): string { if w == 0 then "" else Digits(w, 10, false) }

  /** What does not start a flag, a field or a precision. */
  predicate StartsConversion(spec: string) { spec != "" && spec[0] !in "+- 0#*.%" && !IsDigit(spec[0]) }

  lemma FieldOfWidth(w: nat, rest: string, args: seq<Arg>)
    requires w < U64 && rest != "" && !IsDigit(rest[0]) && rest[0] != '*'
    ensures NumberField(WidthText(w) + rest, args, false) == Field(w, rest, args)
    ensures w > 0 ==> NumberField(WidthText(w) + rest, args, true) == Field(w, rest, args)
  {
    hide Digits, ParseDigits, DigitCount, ParseUnsigned;
    if w == 0 {
      assert "" + rest == rest;
      assert DigitCount(rest) == 0 by { NoDigits(rest); }
    } else {
      WidthNumber(w);
      FieldOfNumber(WidthText(w), w, rest, args);
    }
  }

  lemma NoDigits(s: string)
    requires s != "" && !IsDigit(s[0])
    ensures DigitCount(s) == 0
  {}

  predicate AllFlags(flags: string) { forall i :: 0 <= i < |flags| ==> flags[i] in "+- 0#" }

  /** What the flags ask for. */
  function FlaggedFrom(flags: string, fm: FormatSpec): (r: FormatSpec)
    ensures SameNotation(r, fm)
  {
    if flags == "" then fm else FlaggedFrom(flags[1..], WithFlag(fm, flags[0]))
  }

  function Flagged(flags: string): (r: FormatSpec)
    ensures SameNotation(r, PLAIN)
  {
    FlaggedFrom(flags, PLAIN)
  }

  lemma {:induction false} FlagsTaken(flags: string, fm: FormatSpec, rest: string)
    requires AllFlags(flags) && rest != "" && !IsFlag(rest[0])
    ensures Flags(flags + rest, fm) == (FlaggedFrom(flags, fm), rest)
  {
    if flags == "" {
      assert flags + rest == rest;
    } else {
      assert (flags + rest)[1..] == flags[1..] + rest && IsFlag(flags[0]);
      FlagsTaken(flags[1..], WithFlag(fm, flags[0]), rest);
    }
  }

  /** A precision; none for a negative number. */
  function PointText(p: int): string { if p < 0 then "" else "." + Numeral(p, 10, false) }

  function Precise(fm: FormatSpec, w: nat, p: int): (r: FormatSpec)
    ensures SameNotation(r, fm)
  {
    if p < 0 then fm.(minWidth := w) else fm.(minWidth := w, hasPrecision := true, precision := p)
  }

  lemma FieldOfPrecision(p: nat, rest: string, args: seq<Arg>)
    requires p < U64 && rest != "" && !IsDigit(rest[0]) && rest[0] != '*'
    ensures NumberField(Numeral(p, 10, false) + rest, args, true) == Field(p, rest, args)
  {
    if p > 0 {
      FieldOfWidth(p, rest, args);
    } else {
      var fmt := "0" + rest;
      assert fmt[1..] == rest && fmt[..1] == "0" && DigitCount(fmt) == 1 + DigitCount(rest);
      NoDigits(rest);
      ZeroReads();
    }
  }

  lemma ZeroReads()
    ensures ParseUnsigned("0", 10) == Parsed(0)
  {
    assert "0"[1..] == "";
    EmptyIsZero(10);
    hide ParseDigits;
  }

  lemma WidthStart(w: nat, spec: string)
    requires w < U64 && spec != "" && (spec[0] == '.' || StartsConversion(spec))
    ensures var s := WidthText(w) + spec; s != "" && !IsFlag(s[0]) && s[0] != '%'
  {
    if w > 0 {
      WidthNumber(w);
      assert IsDigit(WidthText(w)[0]);
    }
  }

  lemma PointStart(p: int, spec: string)
    requires StartsConversion(spec)
    ensures var s := PointText(p) + spec;
            s != "" && !IsDigit(s[0]) && s[0] != '*' && (s[0] == '.' || StartsConversion(s))
    ensures p < 0 ==> PointText(p) + spec == spec
    ensures p >= 0 ==> (PointText(p) + spec)[0] == '.' && (PointText(p) + spec)[1..] == Numeral(p, 10, false) + spec
  {}

  /** Any flags, a width, a precision and a conversion. */
  lemma ConversionOf(flags: string, w: nat, p: int, spec: string, args: seq<Arg>, longBits: nat)
    requires (longBits == 32 || longBits == 64) && AllFlags(flags) && w < U64 && p < U64 && StartsConversion(spec)
    ensures Convert(flags + (WidthText(w) + (PointText(p) + spec)), args, longBits)
            == Dispatch(Precise(Flagged(flags), w, p), spec, args, longBits)
  {
    hide Dispatch, NumberField, WidthText, PointText, Numeral, FlaggedFrom;
    var tail := PointText(p) + spec;
    PointStart(p, spec);
    WidthStart(w, tail);
    FlagsTaken(flags, PLAIN, WidthText(w) + tail);
    FieldOfWidth(w, tail, args);
    if p >= 0 { FieldOfPrecision(p, spec, args); }
  }

  // ---------------------------------------------------------------------------
  // Integers
  // ---------------------------------------------------------------------------

  /** The number that a conversion prints: the low bits of the argument, signed for two of the letters. */
  function Printed(c: char, word: Word, bits: nat): int
    requires bits > 0
  {
    var low := word % Pow2(bits);
    if (c == 'd' || c == 'i') && low >= Pow2(bits - 1) then low - Pow2(bits) else low
  }

  function LetterBase(c: char): nat {
    if c == 'x' || c == 'X' then 16 else if c == 'o' then 8 else 10
  }

  predicate Has(flags: string, c: char) { flags != "" && (flags[0] == c || Has(flags[1..], c)) }

  function Announcement(flags: string, c: char): string {
    if !Has(flags, '#') then "" else if c == 'x' then "0x" else if c == 'X' then "0X" else if c == 'o' then "0" else ""
  }

  /** The last plus sign or blank among the flags. */
  function LastSign(flags: string): string {
    if flags == "" then ""
    else
      var later := LastSign(flags[1..]);
      if later != "" then later else if flags[0] == '+' || flags[0] == ' ' then [flags[0]] else ""
  }

  function SignText(flags: string, v: int): string { if v < 0 then "-" else LastSign(flags) }

  /** A text in a field of a width. */
  function Laid(flags: string, w: nat, text: string): string {
    if Has(flags, '-') then text + Repeat(' ', w - |text|)
    else Repeat(if Has(flags, '0') then '0' else ' ', w - |text|) + text
  }

  function AbsOf(v: int): nat { if v < 0 then -v else v }

  /** The text of an integer conversion. The sign comes first and does not count towards the width. */
  function IntegerField(flags: string, w: nat, c: char, v: int): string {
    SignText(flags, v) + Laid(flags, w, Announcement(flags, c) + Numeral(AbsOf(v), LetterBase(c), c == 'X'))
  }

  /** What one flag adds. */
  function WithOne(fm: FormatSpec, left: bool, alternate: bool, zero: bool, sign: string): FormatSpec {
    fm.(leftJustify := fm.leftJustify || left, alternateForm := fm.alternateForm || alternate,
        padChar := if zero then '0' else fm.padChar, prepend := fm.prepend || sign != "",
        prependChar := if sign != "" then sign[0] else fm.prependChar)
  }

  lemma OneEffect(fm: FormatSpec, c: char)
    requires c in "+- 0#"
    ensures WithFlag(fm, c)
            == WithOne(fm, c == '-', c == '#', c == '0', if c == '+' || c == ' ' then [c] else "")
  {}

  lemma WithBoth(fm: FormatSpec, left: bool, alternate: bool, zero: bool, sign: string,
                 left': bool, alternate': bool, zero': bool, sign': string)
    ensures WithOne(WithOne(fm, left, alternate, zero, sign), left', alternate', zero', sign')
            == WithOne(fm, left || left', alternate || alternate', zero || zero', if sign' != "" then sign' else sign)
  {}

  lemma {:induction false} FlagEffects(flags: string, fm: FormatSpec)
    requires AllFlags(flags)
    ensures FlaggedFrom(flags, fm)
            == WithOne(fm, Has(flags, '-'), Has(flags, '#'), Has(flags, '0'), LastSign(flags))
    ensures |LastSign(flags)| <= 1
  {
    hide WithFlag, WithOne;
    if flags == "" {
      NoEffect(fm);
    } else {
      var c, rest := flags[0], flags[1..];
      var sign := if c == '+' || c == ' ' then [c] else "";
      OneEffect(fm, c);
      FlagEffects(rest, WithFlag(fm, c));
      WithBoth(fm, c == '-', c == '#', c == '0', sign, Has(rest, '-'), Has(rest, '#'), Has(rest, '0'), LastSign(rest));
    }
  }

  lemma NoEffect(fm: FormatSpec)
    ensures WithOne(fm, false, false, false, "") == fm
  {}

  /** The specification of an integer conversion, part by part. */
  lemma FlaggedParts(flags: string, w: nat, c: char, fm: FormatSpec)
    requires AllFlags(flags)
    requires fm == Flagged(flags).(minWidth := w, base := LetterBase(c), uppercase := c == 'X', isSigned := fm.isSigned,
                                   hasPrecision := fm.hasPrecision, precision := fm.precision)
    ensures fm.leftJustify == Has(flags, '-') && fm.alternateForm == Has(flags, '#')
    ensures fm.padChar == (if Has(flags, '0') then '0' else ' ') && fm.minWidth == w
    ensures LastSign(flags) == if fm.prepend then [fm.prependChar] else ""
  {
    hide FlaggedFrom, Has, LastSign;
    FlagEffects(flags, PLAIN);
  }

  lemma TextLaid(flags: string, w: nat, c: char, fm: FormatSpec, value: nat, v: int)
    requires AllFlags(flags) && value < U64 && c in "dioxXu"
    requires fm == Flagged(flags).(minWidth := w, base := LetterBase(c), uppercase := c == 'X', isSigned := fm.isSigned,
                                   hasPrecision := fm.hasPrecision, precision := fm.precision)
    requires (IsNegative(fm, value) <==> v < 0) && Magnitude(fm, value) == AbsOf(v)
    ensures IntegerText.Text(fm, value) == IntegerField(flags, w, c, v)
  {
    hide Digits, Repeat, IsNegative, Magnitude, Flagged, Has, LastSign, Numeral;
    FlaggedParts(flags, w, c, fm);
    BodyLaid(flags, c, fm, AbsOf(v));
    hide Body;
  }

  lemma BodyLaid(flags: string, c: char, fm: FormatSpec, m: nat)
    requires fm.base == LetterBase(c) && fm.uppercase == (c == 'X') && fm.alternateForm == Has(flags, '#')
    requires c in "dioxXu"
    ensures Body(fm, m) == Announcement(flags, c) + Numeral(m, LetterBase(c), c == 'X')
  {
    hide Digits, Has;
    var n := Numeral(m, LetterBase(c), c == 'X');
    assert "" + n == n;
  }

  lemma SignedValueOf(c: char, word: Word, bits: nat)
    requires (c == 'd' || c == 'i') && (bits == 8 || bits == 16 || bits == 32 || bits == 64)
    ensures var v := Printed(c, word, bits);
            -I64_MAX - 1 <= v <= I64_MAX && SignedWord(word, bits) == v % U64
  {
    hide Pow2, Narrow, Printed;
    HalfPower(bits);
    PrintedNarrow(c, word, bits);
  }

  lemma PrintedNarrow(c: char, word: Word, bits: nat)
    requires (c == 'd' || c == 'i') && bits > 0 && Pow2(bits) == 2 * Pow2(bits - 1)
    ensures var v := Printed(c, word, bits);
            v == Narrow(word, bits) && 0 - Pow2(bits - 1) <= v < Pow2(bits - 1)
  {
    hide Pow2;
    RemainderBelow(word, Pow2(bits));
  }

  lemma RemainderBelow(a: nat, d: nat)
    requires d > 0
    ensures 0 <= a % d < d
  {}

  lemma HalfPower(bits: nat)
    requires bits == 8 || bits == 16 || bits == 32 || bits == 64
    ensures Pow2(bits) == 2 * Pow2(bits - 1) && Pow2(bits - 1) <= I64_MAX + 1
  {
    Pow2Values();
    Pow2Monotone(bits - 1, 63);
    assert Pow2(64) == 2 * Pow2(63);
  }

  lemma UnsignedValueOf(c: char, word: Word, bits: nat)
    requires c in "oxXu" && 0 < bits
    ensures Printed(c, word, bits) == UnsignedWord(word, bits) >= 0
  {
    hide Pow2;
  }

  lemma SignedConverted(flags: string, w: nat, p: int, c: char, bits: nat, word: Word)
    requires AllFlags(flags) && (c == 'd' || c == 'i') && (bits == 8 || bits == 16 || bits == 32 || bits == 64)
    ensures IntConversion(Precise(Flagged(flags), w, p), [c], [IntArg(word)], bits)
            == Converted(IntegerField(flags, w, c, Printed(c, word, bits)), "", [])
  {
    hide IntegerText.Text, IntegerField, Printed, SignedWord, Flagged, Pow2, Precise;
    SignedValueOf(c, word, bits);
    SignedText(flags, w, p, c, Printed(c, word, bits));
    SignedStep(Precise(Flagged(flags), w, p), c, bits, word);
  }

  lemma SignedStep(fm: FormatSpec, c: char, bits: nat, word: Word)
    requires fm.base == 10 && !fm.isSigned && !fm.uppercase && (c == 'd' || c == 'i')
    ensures IntConversion(fm, [c], [IntArg(word)], bits)
            == Converted(IntegerText.Text(fm.(isSigned := true), SignedWord(word, bits)), "", [])
  {
    assert [IntArg(word)][1..] == [] && [c][1..] == "" && [c][0] == c;
    hide IntegerText.Text, SignedWord, Pow2;
  }

  lemma SignedText(flags: string, w: nat, p: int, c: char, v: int)
    requires AllFlags(flags) && (c == 'd' || c == 'i') && -I64_MAX - 1 <= v <= I64_MAX
    ensures IntegerText.Text(Precise(Flagged(flags), w, p).(isSigned := true), v % U64) == IntegerField(flags, w, c, v)
  {
    hide IntegerText.Text, IntegerField, Flagged, IsNegative, Magnitude;
    var fm := Precise(Flagged(flags), w, p).(isSigned := true);
    NegativeMagnitude(fm, v);
    TextLaid(flags, w, c, fm, v % U64, v);
  }

  lemma UnsignedConverted(flags: string, w: nat, p: int, c: char, bits: nat, word: Word)
    requires AllFlags(flags) && c in "oxXu" && (bits == 8 || bits == 16 || bits == 32 || bits == 64)
    ensures IntConversion(Precise(Flagged(flags), w, p), [c], [IntArg(word)], bits)
            == Converted(IntegerField(flags, w, c, Printed(c, word, bits)), "", [])
  {
    hide IntegerText.Text, IntegerField, Printed, UnsignedWord, Flagged, IsNegative, Magnitude, Pow2, Precise;
    UnsignedValueOf(c, word, bits);
    UnsignedText(flags, w, p, c, UnsignedWord(word, bits));
    UnsignedStep(Precise(Flagged(flags), w, p), c, bits, word);
  }

  lemma UnsignedStep(fm: FormatSpec, c: char, bits: nat, word: Word)
    requires fm.base == 10 && !fm.isSigned && !fm.uppercase && c in "oxXu"
    ensures IntConversion(fm, [c], [IntArg(word)], bits)
            == Converted(IntegerText.Text(fm.(base := LetterBase(c), uppercase := c == 'X'), UnsignedWord(word, bits)),
                         "", [])
  {
    assert [IntArg(word)][1..] == [] && [c][1..] == "" && [c][0] == c;
    hide IntegerText.Text, UnsignedWord, Pow2;
  }

  lemma UnsignedText(flags: string, w: nat, p: int, c: char, v: Word)
    requires AllFlags(flags) && c in "oxXu"
    ensures IntegerText.Text(Precise(Flagged(flags), w, p).(base := LetterBase(c), uppercase := c == 'X'), v)
            == IntegerField(flags, w, c, v)
  {
    hide IntegerText.Text, IntegerField, Flagged, IsNegative, Magnitude;
    var fm := Precise(Flagged(flags), w, p).(base := LetterBase(c), uppercase := c == 'X');
    PlainMagnitude(fm, v);
    TextLaid(flags, w, c, fm, v, v);
  }

  lemma PlainMagnitude(fm: FormatSpec, v: nat)
    requires !fm.isSigned && v < U64
    ensures !IsNegative(fm, v) && Magnitude(fm, v) == v
  {}

  /** Any flags, any width, any precision, which changes nothing, and every length modifier and letter. */
  lemma IntegerRendered(flags: string, w: nat, p: int, mod: string, c: char, bits: nat, longBits: nat, word: Word)
    requires AllFlags(flags) && w < U64 && p < U64 && Modifier(mod, bits, longBits) && c in "dioxXu"
    ensures Render("%" + (flags + (WidthText(w) + (PointText(p) + (mod + [c])))), [IntArg(word)], longBits, "")
            == Rendered(IntegerField(flags, w, c, Printed(c, word, bits)))
  {
    hide Dispatch, Convert, Render, IntegerField, Printed, WidthText, PointText, IntConversion, Flagged, Precise;
    var spec := mod + [c];
    LetterStarts(mod, c, bits, longBits);
    ConversionOf(flags, w, p, spec, [IntArg(word)], longBits);
    IntDispatch(Precise(Flagged(flags), w, p), mod, c, bits, [IntArg(word)], longBits);
    if c == 'd' || c == 'i' {
      SignedConverted(flags, w, p, c, bits, word);
    } else {
      UnsignedConverted(flags, w, p, c, bits, word);
    }
    FieldStarts(flags, w, p, spec);
    RenderOne(flags + (WidthText(w) + (PointText(p) + spec)), [IntArg(word)], longBits,
              IntegerField(flags, w, c, Printed(c, word, bits)));
  }

  lemma LetterStarts(mod: string, c: char, bits: nat, longBits: nat)
    requires Modifier(mod, bits, longBits) && c in "dioxXu"
    ensures StartsConversion(mod + [c])
  {
    assert (mod + [c])[0] == if mod == "" then c else mod[0];
  }

  lemma FieldStarts(flags: string, w: nat, p: int, spec: string)
    requires AllFlags(flags) && w < U64 && StartsConversion(spec)
    ensures var s := flags + (WidthText(w) + (PointText(p) + spec)); s != "" && s[0] != '%'
  {
    hide WidthText, PointText;
    var tail := PointText(p) + spec;
    PointStart(p, spec);
    WidthStart(w, tail);
    if flags != "" { assert (flags + (WidthText(w) + tail))[0] == flags[0]; }
  }

  /** No width and no precision. */
  lemma BareSpec(spec: string)
    ensures WidthText(0) + (PointText(-1) + spec) == spec && "" + spec == spec
  {}

  // ---------------------------------------------------------------------------
  // What the digits say
  // ---------------------------------------------------------------------------

  predicate LetterCase(c: char, upper: bool) { IsDigit(c) || if upper then 'A' <= c <= 'F' else 'a' <= c <= 'f' }

  /** Digits of the base in one case, denoting the number, with no leading zero. */
  predicate Denotes(t: string, v: nat, base: nat, upper: bool) {
    && t != "" && (t[0] == '0' ==> t == "0") && AllDigits(t, base) && Value(t, base) == v
    && forall i :: 0 <= i < |t| ==> LetterCase(t[i], upper)
  }

  lemma {:induction false} DigitsShape(v: nat, base: nat, upper: bool)
    requires KnownBase(base) && v > 0
    ensures var t := Digits(v, base, upper);
            t != "" && t[0] != '0' && forall i :: 0 <= i < |t| ==> LetterCase(t[i], upper)
  {
    DigitCharValue(v % base, base, upper);
    hide DigitChar;
    assert LetterCase(DigitChar(v % base, base, upper), upper) by { CharCase(v % base, base, upper); }
    if v / base > 0 {
      DigitsShape(v / base, base, upper);
    }
  }

  lemma CharCase(d: nat, base: nat, upper: bool)
    requires KnownBase(base) && d < base
    ensures LetterCase(DigitChar(d, base, upper), upper)
  {}

  lemma NumeralDenotes(v: nat, base: nat, upper: bool)
    requires KnownBase(base) && v < U64
    ensures Denotes(Numeral(v, base, upper), v, base, upper)
  {
    hide Digits, Value, AllDigits;
    NumeralValue(v, base, upper);
    AcceptableDigits(Numeral(v, base, upper), base);
    if v > 0 { DigitsShape(v, base, upper); }
  }

  lemma DigitsByOne(q: nat, r: nat, base: nat)
    requires KnownBase(base) && r < base && base * q + r > 0
    ensures Digits(base * q + r, base, false) == Digits(q, base, false) + [DigitChar(r, base, false)]
  {
    assert (base * q + r) / base == q && (base * q + r) % base == r;
  }

  lemma DigitTable(a: nat, base: nat)
    requires KnownBase(base) && a < base
    ensures DigitChar(a, base, false) == "0123456789abcdef"[a]
  {}

  lemma OneDigit(a: nat, base: nat)
    requires KnownBase(base) && a < base
    ensures Digits(a, base, false) == if a == 0 then "" else [DigitChar(a, base, false)]
  {
    hide DigitChar;
    if a > 0 { DigitsByOne(0, a, base); }
  }

  /** Of two digits the higher one comes first. */
  lemma TwoDigits(a: nat, b: nat, base: nat)
    requires KnownBase(base) && a < base && b < base
    ensures Numeral(base * a + b, base, false)
            == (if a == 0 then "" else ["0123456789abcdef"[a]]) + ["0123456789abcdef"[b]]
  {
    hide DigitChar, Digits;
    OneDigit(a, base);
    DigitTable(a, base);
    DigitTable(b, base);
    if base * a + b > 0 { DigitsByOne(a, b, base); }
  }

  /** Unsigned letters. */
  lemma LettersDenote(mod: string, c: char, bits: nat, longBits: nat, word: Word)
    requires Modifier(mod, bits, longBits) && c in "oxXu"
    ensures var r := Render("%" + (mod + [c]), [IntArg(word)], longBits, "");
            r.Rendered?
            && Denotes(r.text, word % Pow2(bits), if c == 'o' then 8 else if c == 'u' then 10 else 16, c == 'X')
  {
    hide Render, Denotes, Numeral, Pow2;
    IntegerRendered("", 0, -1, mod, c, bits, longBits, word);
    BareSpec(mod + [c]);
    PlainField(c, word % Pow2(bits));
    InWord(word, bits, longBits);
    NumeralDenotes(word % Pow2(bits), LetterBase(c), c == 'X');
  }

  lemma PlainField(c: char, v: nat)
    ensures IntegerField("", 0, c, v) == Numeral(v, LetterBase(c), c == 'X')
  {
    var n := Numeral(v, LetterBase(c), c == 'X');
    assert "" + n == n;
  }

  lemma InWord(word: Word, bits: nat, longBits: nat)
    ensures 0 <= word % Pow2(bits) < U64
  {
    RemainderBound(word, Pow2(bits));
  }

  /** Announced numbers, which are read back with their base detected. */
  lemma AnnouncedLetters(mod: string, c: char, bits: nat, longBits: nat, word: Word)
    requires Modifier(mod, bits, longBits) && (c == 'x' || c == 'o')
    ensures var r := Render("%#" + (mod + [c]), [IntArg(word)], longBits, "");
            r.Rendered? && (if c == 'x' then "0x" else "0") <= r.text
            && ParseUnsigned(r.text, 0) == Parsed(word % Pow2(bits))
  {
    hide Render, Numeral, ParseUnsigned, Pow2;
    IntegerRendered("#", 0, -1, mod, c, bits, longBits, word);
    BareSpec(mod + [c]);
    assert "%" + ("#" + (mod + [c])) == "%#" + (mod + [c]);
    InWord(word, bits, longBits);
    AnnouncedField(c, word % Pow2(bits));
  }

  lemma AnnouncedField(c: char, v: nat)
    requires (c == 'x' || c == 'o') && v < U64
    ensures (if c == 'x' then "0x" else "0") <= IntegerField("#", 0, c, v)
    ensures ParseUnsigned(IntegerField("#", 0, c, v), 0) == Parsed(v)
  {
    var fm := Flagged("#").(base := LetterBase(c));
    hide ParseUnsigned, Digits;
    PlainMagnitude(fm, v);
    TextLaid("#", 0, c, fm, v, v);
    UnsignedRoundTrip(fm, v);
    var n := Numeral(v, LetterBase(c), false);
    assert IntegerField("#", 0, c, v) == Announcement("#", c) + n;
  }

  /** Signed letters. */
  lemma SignedLetters(mod: string, c: char, bits: nat, longBits: nat, word: Word)
    requires Modifier(mod, bits, longBits) && (c == 'd' || c == 'i')
    ensures var r := Render("%" + (mod + [c]), [IntArg(word)], longBits, "");
            var low := word % Pow2(bits);
            r.Rendered?
            && ParseI64(r.text, 0) == Parsed(if low >= Pow2(bits - 1) then low - Pow2(bits) else low)
  {
    hide Render, Numeral, ParseI64, Pow2;
    IntegerRendered("", 0, -1, mod, c, bits, longBits, word);
    BareSpec(mod + [c]);
    SignedValueOf(c, word, bits);
    SignedFieldParses(c, Printed(c, word, bits));
  }

  lemma SignedFieldParses(c: char, v: int)
    requires (c == 'd' || c == 'i') && -I64_MAX - 1 <= v <= I64_MAX
    ensures ParseI64(IntegerField("", 0, c, v), 0) == Parsed(v)
  {
    var fm := PLAIN.(isSigned := true);
    hide ParseI64, Numeral, Digits;
    NegativeMagnitude(fm, v);
    TextLaid("", 0, c, fm, v % U64, v);
    SignedRoundTrip(fm, v);
  }
}
