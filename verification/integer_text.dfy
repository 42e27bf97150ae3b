/** The text of an integer, as the formatter writes it and the parser reads it back. */
module IntegerText {
  import opened Errors
  import opened Words
  import opened Ctype
  import opened Conversions

  datatype FormatSpec = FormatSpec(
    isSigned: bool, prepend: bool, uppercase: bool, leftJustify: bool, alternateForm: bool,
    hasPrecision: bool, padChar: char, prependChar: char, minWidth: nat, precision: nat, base: nat)

  const PLAIN := FormatSpec(false, false, false, false, false, false, ' ', '\0', 0, 0, 10)

  predicate KnownBase(base: nat) { base == 8 || base == 10 || base == 16 }

  function HexChar(upper: bool, d: nat): char
    requires d < 16
  {
    if upper then "0123456789ABCDEF"[d] else "0123456789abcdef"[d]
  }

  function DigitChar(d: nat, base: nat, upper: bool): char
    requires KnownBase(base) && d < base
  {
    if base == 16 then HexChar(upper, d) else ('0' as int + d) as char
  }

  /** The digits of v, none for zero. */
  function Digits(v: nat, base: nat, upper: bool): string
    requires KnownBase(base)
  {
    if v == 0 then "" else Digits(v / base, base, upper) + [DigitChar(v % base, base, upper)]
  }

  function Magnitude(fm: FormatSpec, value: nat): nat
    requires value < U64
  {
    if IsNegative(fm, value) then Negate(value) else value
  }

  predicate IsNegative(fm: FormatSpec, value: nat) { fm.isSigned && AsI64(value) < 0 }

  function Sign(fm: FormatSpec, value: nat): string {
    if IsNegative(fm, value) then "-" else if fm.prepend then [fm.prependChar] else ""
  }

  function Body(fm: FormatSpec, magnitude: nat): string
    requires KnownBase(fm.base)
  {
    (if !fm.alternateForm then "" else if fm.base == 16 then (if fm.uppercase then "0X" else "0x")
     else if fm.base == 8 then "0" else "")
    + (if magnitude == 0 then "0" else Digits(magnitude, fm.base, fm.uppercase))
  }

  function Repeat(c: char, n: int): string {
    if n <= 0 then "" else Repeat(c, n - 1) + [c]
  }

  function Padding(fm: FormatSpec, size: nat): string {
    Repeat(if fm.leftJustify then ' ' else fm.padChar, fm.minWidth - size)
  }

  /** The sign comes before any padding and does not count towards the width. */
  function Text(fm: FormatSpec, value: nat): string
    requires KnownBase(fm.base) && value < U64
  {
    var body := Body(fm, Magnitude(fm, value));
    if fm.leftJustify then Sign(fm, value) + (body + Padding(fm, |body|))
    else Sign(fm, value) + (Padding(fm, |body|) + body)
  }

  // ---------------------------------------------------------------------------
  // Reading back
  // ---------------------------------------------------------------------------

  lemma DigitCharValue(d: nat, base: nat, upper: bool)
    requires KnownBase(base) && d < base
    ensures IsXDigit(DigitChar(d, base, upper)) && DigitValue(DigitChar(d, base, upper)) == d
    ensures d > 0 ==> DigitChar(d, base, upper) != '0'
    ensures base == 10 ==> IsDigit(DigitChar(d, base, upper))
  {}

  lemma ValueAppend(t: string, c: char, base: nat)
    requires AllDigits(t, base) && IsXDigit(c) && DigitValue(c) < base
    ensures AllDigits(t + [c], base)
    ensures Value(t + [c], base) == NextNumber(Value(t, base), base, DigitValue(c))
  {
    hide IsXDigit, DigitValue;
    assert (t + [c])[..|t|] == t;
  }

  lemma DivisionRebuilds(v: nat, base: nat)
    requires KnownBase(base)
    ensures NextNumber(v / base, base, v % base) == v && v / base <= v && (v > 0 ==> v / base < v)
  {}

  lemma {:induction false} DigitsValue(v: nat, base: nat, upper: bool)
    requires KnownBase(base)
    ensures AllDigits(Digits(v, base, upper), base)
    ensures Value(Digits(v, base, upper), base) == v
  {
    hide IsXDigit, DigitValue, NextNumber, DigitChar;
    if v > 0 {
      DivisionRebuilds(v, base);
      DigitsValue(v / base, base, upper);
      DigitCharValue(v % base, base, upper);
      ValueAppend(Digits(v / base, base, upper), DigitChar(v % base, base, upper), base);
    }
  }

  /** The first decimal digit is a digit and not zero. */
  lemma {:induction false} FirstDigit(v: nat)
    requires v > 0
    ensures var s := Digits(v, 10, false); |s| > 0 && IsDigit(s[0]) && s[0] != '0'
  {
    DigitCharValue(v % 10, 10, false);
    if v >= 10 { FirstDigit(v / 10); }
  }

  /** The digits proper: a lone zero for zero. */
  function Numeral(v: nat, base: nat, upper: bool): string
    requires KnownBase(base)
  {
    if v == 0 then "0" else Digits(v, base, upper)
  }

  lemma NumeralValue(v: nat, base: nat, upper: bool)
    requires KnownBase(base) && v < U64
    ensures var d := Numeral(v, base, upper);
            |d| > 0 && Acceptable(d, base) && Value(d, base) == v && ParseDigits(d, base) == Parsed(v)
  {
    hide DigitValue, IsXDigit, NextNumber, DigitChar;
    DigitsValue(v, base, upper);
    ZeroDigit(base);
  }

  lemma DecimalAnnounced(v: nat)
    requires v < U64
    ensures ParseU64(Numeral(v, 10, false), 0) == Parsed(v)
  {
    hide ParseDigits;
    var d := Numeral(v, 10, false);
    if v == 0 {
      assert d[1..] == "";
      EmptyIsZero(8);
    } else {
      FirstDigit(v);
      NumeralValue(v, 10, false);
    }
  }

  lemma EmptyIsZero(base: nat)
    ensures ParseDigits("", base) == Parsed(0)
  {}

  /** The body of an unpadded number reads back as the number with the base detected. */
  lemma BodyParses(fm: FormatSpec, v: nat)
    requires KnownBase(fm.base) && v < U64 && !fm.uppercase
    requires fm.alternateForm <==> fm.base != 10
    ensures ParseU64(Body(fm, v), 0) == Parsed(v)
  {
    hide ParseDigits, Digits, AllDigits, Acceptable;
    var d := Numeral(v, fm.base, false);
    NumeralValue(v, fm.base, false);
    if fm.base == 16 {
      assert Body(fm, v) == "0x" + d;
      assert ("0x" + d)[2..] == d;
    } else if fm.base == 8 {
      assert Body(fm, v) == "0" + d;
      assert AllDigits(d, 8) by { AcceptableDigits(d, 8); }
      OctalAnnounced(d);
    } else {
      assert Body(fm, v) == d;
      DecimalAnnounced(v);
    }
  }

  lemma AcceptableDigits(s: string, base: nat)
    requires Acceptable(s, base)
    ensures AllDigits(s, base)
  {}

  /** The upper-case announcement 0X is not one that the parser knows: no number written that way reads back. */
  lemma UppercaseNeverParses(fm: FormatSpec, v: nat)
    requires fm.base == 16 && fm.alternateForm && fm.uppercase && v < U64
    ensures ParseU64(Body(fm, v), 0) == Failed(EINVAL)
  {
    var d := Numeral(v, 16, true);
    var s := "0X" + d;
    assert Body(fm, v) == s;
    var rest := s[1..];
    assert rest[0] == 'X' && !IsXDigit(rest[0]);
    assert rest[..0] == "" && Acceptable("", 8);
    assert !Acceptable(rest, 8);
    assert s[0] == '0' && s[1] == 'X';
  }

  lemma ZeroDigit(base: nat)
    requires KnownBase(base)
    ensures Acceptable("0", base) && Value("0", base) == 0
  {
    ValueAppend("", '0', base);
    hide Value;
    assert "" + "0" == "0";
  }

  /** An octal number is not mistaken for a hexadecimal or a binary one. */
  lemma OctalAnnounced(d: string)
    requires |d| > 0 && AllDigits(d, 8)
    ensures AnnouncedBase("0" + d) == (8, d)
  {
    var s := "0" + d;
    assert s[1] == d[0] && d[0] != 'x' && d[0] != 'b';
    assert s[1..] == d;
  }

  /** Unsigned numbers in every notation the parser detects read back unchanged. */
  lemma UnsignedRoundTrip(fm: FormatSpec, v: nat)
    requires KnownBase(fm.base) && v < U64 && !fm.isSigned && !fm.uppercase
    requires (fm.alternateForm <==> fm.base != 10) && fm.minWidth <= |Body(fm, v)|
    requires fm.prepend ==> fm.prependChar == '+'
    ensures ParseUnsigned(Text(fm, v), 0) == Parsed(v)
  {
    BodyParses(fm, v);
    BodyStart(fm, v);
    var body := Body(fm, v);
    assert Text(fm, v) == Sign(fm, v) + body;
    if fm.prepend { assert ("+" + body)[1..] == body; } else { assert "" + body == body; }
  }

  lemma BodyStart(fm: FormatSpec, v: nat)
    requires KnownBase(fm.base)
    ensures |Body(fm, v)| > 0 && Body(fm, v)[0] != '+' && Body(fm, v)[0] != '-'
  {
    if v > 0 {
      DigitsValue(v, fm.base, fm.uppercase);
      var d := Digits(v, fm.base, fm.uppercase);
      assert |d| > 0 && IsXDigit(d[0]);
    }
  }

  /** Signed numbers read back unchanged, the most negative one included. */
  lemma SignedRoundTrip(fm: FormatSpec, v: int)
    requires -I64_MAX - 1 <= v <= I64_MAX
    requires fm.isSigned && fm.base == 10 && !fm.alternateForm && !fm.uppercase
    requires fm.minWidth <= |Body(fm, Magnitude(fm, v % U64))|
    requires fm.prepend ==> fm.prependChar == '+'
    ensures ParseI64(Text(fm, v % U64), 0) == Parsed(v)
  {
    var w := v % U64;
    var m := Magnitude(fm, w);
    NegativeMagnitude(fm, v);
    BodyParses(fm, m);
    BodyStart(fm, m);
    hide Body, ParseI64, ParseU64, Magnitude, IsNegative;
    var body := Body(fm, m);
    assert Padding(fm, |body|) == "";
    assert Text(fm, w) == Sign(fm, w) + body;
    assert "" + body == body;
    SignParses(body, m);
  }

  lemma SignParses(body: string, m: nat)
    requires |body| > 0 && body[0] != '+' && body[0] != '-' && ParseU64(body, 0) == Parsed(m)
    ensures m <= I64_MAX + 1 ==> ParseI64("-" + body, 0) == Parsed(0 - m)
    ensures m <= I64_MAX ==> ParseI64("+" + body, 0) == Parsed(m) && ParseI64(body, 0) == Parsed(m)
  {
    hide ParseU64;
    assert ("-" + body)[1..] == body;
    assert ("+" + body)[1..] == body && ("+" + body)[0] == '+';
  }

  lemma NegativeMagnitude(fm: FormatSpec, v: int)
    requires -I64_MAX - 1 <= v <= I64_MAX && fm.isSigned
    ensures IsNegative(fm, v % U64) <==> v < 0
    ensures Magnitude(fm, v % U64) == if v < 0 then -v else v
  {}
}
