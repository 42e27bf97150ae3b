/** How long a formatted text can get, and what the caller of the formatter is told about it. */
module FormatLength {
  import opened Errors
  import opened Words
  import opened Ctype
  import opened Conversions
  import opened IntegerText
  import opened FormatRender
  import opened Format

  // ---------------------------------------------------------------------------
  // Lengths of pieces
  // ---------------------------------------------------------------------------

  lemma {:induction false} RepeatLength(c: char, n: int)
    ensures |Repeat(c, n)| == if n <= 0 then 0 else n
    decreases n
  {
    if n > 0 { RepeatLength(c, n - 1); }
  }

  lemma {:induction false} DigitsLength(v: nat, base: nat, upper: bool, k: nat)
    requires KnownBase(base) && v < Pow2(3 * k)
    ensures |Digits(v, base, upper)| <= k
  {
    if v > 0 {
      assert k > 0;
      Pow2Adds(3, 3 * (k - 1));
      assert Pow2(3) == 8 && 3 + 3 * (k - 1) == 3 * k;
      EighthBelow(v, base, Pow2(3 * (k - 1)));
      DigitsLength(v / base, base, upper, k - 1);
    }
  }

  lemma EighthBelow(v: nat, base: nat, p: nat)
    requires KnownBase(base) && v < 8 * p
    ensures 0 <= v / base < p
  {}

  lemma BodyLength(fm: FormatSpec, magnitude: nat)
    requires KnownBase(fm.base) && magnitude < U64
    ensures 0 < |Body(fm, magnitude)| <= 24
  {
    Pow2Values();
    Pow2Monotone(64, 66);
    DigitsLength(magnitude, fm.base, fm.uppercase, 22);
    hide Pow2, Digits;
    FormatBuffer.DigitsOrNone(magnitude, fm.base, fm.uppercase);
  }

  /** The sign is not counted towards the width. */
  lemma TextLength(fm: FormatSpec, value: nat)
    requires KnownBase(fm.base) && value < U64
    ensures var body := |Body(fm, Magnitude(fm, value))|;
            |IntegerText.Text(fm, value)| == |Sign(fm, value)| + if fm.minWidth > body then fm.minWidth else body
    ensures |IntegerText.Text(fm, value)| <= 25 + fm.minWidth
  {
    hide Body, Repeat;
    var body := Body(fm, Magnitude(fm, value));
    BodyLength(fm, Magnitude(fm, value));
    RepeatLength(if fm.leftJustify then ' ' else fm.padChar, fm.minWidth - |body|);
  }

  // ---------------------------------------------------------------------------
  // A bound that a caller can check
  // ---------------------------------------------------------------------------

  function ArgText(a: Arg): nat {
    match a
    case IntArg(_) => 0
    case CharsArg(t) => if t.Null? then |"<null>"| else |t.chars|
    case StringArg(t) => if t.Null? then |"<null-string>"| else |t.chars|
  }

  /** The lengths of all string arguments together. */
  function StringsTotal(args: seq<Arg>): nat {
    if args == [] then 0 else ArgText(args[0]) + StringsTotal(args[1..])
  }

  /** The width of the conversion after a percent sign. */
  ghost function Width(fmt: string, args: seq<Arg>): nat {
    var f := NumberField(Flags(fmt, PLAIN).1, args, false);
    if f.Field? then f.value else 0
  }

  /** The widths of all conversions together. */
  ghost function WidthsTotal(fmt: string, args: seq<Arg>, longBits: nat): nat
    requires longBits == 32 || longBits == 64
    decreases |fmt|
  {
    var n := PercentAt(fmt);
    if n == |fmt| then 0
    else if "%%" <= fmt[n..] then WidthsTotal(fmt[n + 2..], args, longBits)
    else
      var c := Convert(fmt[n + 1..], args, longBits);
      if c.Converted? then Width(fmt[n + 1..], args) + WidthsTotal(c.rest, c.args, longBits) else 0
  }

  /** Thirteen for each character of the format, and all widths and strings. Precisions only cut off. */
  ghost function Budget(fmt: string, args: seq<Arg>, longBits: nat): nat
    requires longBits == 32 || longBits == 64
  {
    13 * |fmt| + WidthsTotal(fmt, args, longBits) + StringsTotal(args)
  }

  /** A piece costs no more than its width, and the strings it uses up. */
  ghost predicate Affordable(c: Conversion, width: nat, args: seq<Arg>) {
    c.Converted? ==> |c.text| + StringsTotal(c.args) <= 25 + width + StringsTotal(args)
  }

  lemma IntAffordable(fm: FormatSpec, fmt: string, args: seq<Arg>, bits: nat)
    requires fm.base == 10 && !fm.isSigned && !fm.uppercase
    ensures Affordable(IntConversion(fm, fmt, args, bits), fm.minWidth, args)
  {
    hide IntegerText.Text, SignedWord, UnsignedWord;
    var c := IntConversion(fm, fmt, args, bits);
    if c.Converted? {
      if fmt[0] == 'd' || fmt[0] == 'i' {
        TextLength(fm.(isSigned := true), SignedWord(args[0].word, bits));
      } else {
        TextLength(fm.(base := BaseOf(fmt[0]), uppercase := fmt[0] == 'X'), UnsignedWord(args[0].word, bits));
      }
    }
  }

  lemma StringAffordable(fm: FormatSpec, t: CText)
    ensures |StringText(fm, t)| <= fm.minWidth + ArgText(CharsArg(t))
    ensures |SizedText(fm, t)| <= ArgText(StringArg(t))
  {
    hide Repeat;
    var s := if t.Null? then "<null>" else t.chars;
    var shown := if fm.hasPrecision && fm.precision < |s| then s[..fm.precision] else s;
    RepeatLength(' ', fm.minWidth - |shown|);
  }

  lemma PointerAffordable(fm: FormatSpec, word: Word, longBits: nat)
    requires longBits == 32 || longBits == 64
    ensures |IntegerText.Text(fm.(base := 16, minWidth := longBits / 4, padChar := '0'), word)| <= 25
  {
    hide IntegerText.Text, Body;
    var fm' := fm.(base := 16, minWidth := longBits / 4, padChar := '0');
    TextLength(fm', word);
    BodyLength(fm', Magnitude(fm', word));
  }

  lemma DispatchAffordable(fm: FormatSpec, fmt: string, args: seq<Arg>, longBits: nat)
    requires fm.base == 10 && !fm.isSigned && !fm.uppercase && (longBits == 32 || longBits == 64)
    ensures Affordable(Dispatch(fm, fmt, args, longBits), fm.minWidth, args)
  {
    hide IntConversion, StringText, SizedText, IntegerText.Text, UnsignedWord, Pow2, StartsWith;
    if args != [] {
      if args[0].CharsArg? { StringAffordable(fm, args[0].chars); }
      if args[0].StringArg? { StringAffordable(fm, args[0].text); }
      if args[0].IntArg? { PointerAffordable(fm, UnsignedWord(args[0].word, longBits), longBits); }
    }
    if |fmt| >= 1 { IntAffordable(fm, fmt[1..], args, 16); IntAffordable(fm, fmt[1..], args, longBits); }
    if |fmt| >= 1 { IntAffordable(fm, fmt[1..], args, 64); }
    if |fmt| >= 2 { IntAffordable(fm, fmt[2..], args, 8); IntAffordable(fm, fmt[2..], args, 64); }
    IntAffordable(fm, fmt, args, 32);
  }

  /** Reading a width or a precision uses up no string. */
  lemma FieldAffordable(fmt: string, args: seq<Arg>, required: bool)
    ensures var f := NumberField(fmt, args, required); f.Field? ==> StringsTotal(f.args) == StringsTotal(args)
  {
    hide SignedWord, DigitCount, ParseUnsigned;
  }

  lemma ConvertAffordable(fmt: string, args: seq<Arg>, longBits: nat)
    requires longBits == 32 || longBits == 64
    ensures Affordable(Convert(fmt, args, longBits), Width(fmt, args), args)
  {
    hide Dispatch, NumberField;
    var (fm, f) := Flags(fmt, PLAIN);
    var width := NumberField(f, args, false);
    FieldAffordable(f, args, false);
    if width.Field? {
      var fm1 := fm.(minWidth := width.value);
      var g := width.rest;
      if "." <= g {
        var precision := NumberField(g[1..], width.args, true);
        FieldAffordable(g[1..], width.args, true);
        if precision.Field? {
          var fm2 := fm1.(hasPrecision := true, precision := precision.value);
          DispatchAffordable(fm2, precision.rest, precision.args, longBits);
        }
      } else {
        DispatchAffordable(fm1, g, width.args, longBits);
      }
    }
  }

  lemma WidthsStep(fmt: string, args: seq<Arg>, longBits: nat, n: nat)
    requires (longBits == 32 || longBits == 64) && n == PercentAt(fmt) < |fmt|
    ensures "%%" <= fmt[n..] ==>
              n + 2 <= |fmt| && WidthsTotal(fmt, args, longBits) == WidthsTotal(fmt[n + 2..], args, longBits)
    ensures !("%%" <= fmt[n..]) ==>
              var c := Convert(fmt[n + 1..], args, longBits);
              c.Converted? ==>
                WidthsTotal(fmt, args, longBits)
                == Width(fmt[n + 1..], args) + WidthsTotal(c.rest, c.args, longBits)
  {
    hide Convert, Width;
  }

  /** A conversion costs 25 at most besides its width and its strings, and takes two characters at least. */
  lemma BudgetStep(fmt: string, args: seq<Arg>, longBits: nat, n: nat)
    requires (longBits == 32 || longBits == 64) && n == PercentAt(fmt) < |fmt| && !("%%" <= fmt[n..])
    ensures var c := Convert(fmt[n + 1..], args, longBits);
            c.Converted? ==> n + |c.text| + Budget(c.rest, c.args, longBits) <= Budget(fmt, args, longBits)
  {
    hide Convert, Width, StringsTotal, WidthsTotal;
    WidthsStep(fmt, args, longBits, n);
    ConvertAffordable(fmt[n + 1..], args, longBits);
  }

  lemma BudgetCovers(fmt: string, args: seq<Arg>, longBits: nat)
    requires longBits == 32 || longBits == 64
    ensures |fmt| <= Budget(fmt, args, longBits)
  {
    hide WidthsTotal, StringsTotal;
  }

  lemma BudgetPercent(fmt: string, args: seq<Arg>, longBits: nat, n: nat)
    requires (longBits == 32 || longBits == 64) && n == PercentAt(fmt) < |fmt| && "%%" <= fmt[n..]
    ensures n + 2 <= |fmt| && n + 1 + Budget(fmt[n + 2..], args, longBits) <= Budget(fmt, args, longBits)
  {
    hide StringsTotal, WidthsTotal;
    WidthsStep(fmt, args, longBits, n);
  }

  /** No text is longer than its budget. */
  lemma {:induction false} WithinBudget(fmt: string, args: seq<Arg>, longBits: nat, before: string)
    requires longBits == 32 || longBits == 64
    ensures var whole := Render(fmt, args, longBits, before);
            whole.Rendered? ==> |whole.text| <= |before| + Budget(fmt, args, longBits)
    decreases |fmt|
  {
    hide Convert, Budget, Render;
    var n := PercentAt(fmt);
    var text := before + fmt[..n];
    if n == |fmt| {
      RenderEnds(fmt, args, longBits, before);
      BudgetCovers(fmt, args, longBits);
    } else if "%%" <= fmt[n..] {
      RenderPercent(fmt, args, longBits, before);
      BudgetPercent(fmt, args, longBits, n);
      WithinBudget(fmt[n + 2..], args, longBits, text + "%");
    } else {
      RenderConversion(fmt, args, longBits, before);
      var c := Convert(fmt[n + 1..], args, longBits);
      BudgetStep(fmt, args, longBits, n);
      if c.Converted? { WithinBudget(c.rest, c.args, longBits, text + c.text); }
    }
  }

  lemma DeliveredWhole(text: string, r: Result, buffer: seq<char>, capacity: nat, longBits: nat)
    requires (longBits == 32 || longBits == 64) && capacity <= |buffer| && |text| < 0x8000_0000
    requires Delivered(text, r, buffer, capacity, longBits)
    ensures r == Returned(|text|)
    ensures |text| < capacity ==> buffer[..|text|] == text && buffer[|text|] == '\0'
    ensures |text| >= capacity > 0 ==> buffer[..capacity - 1] == text[..capacity - 1] && buffer[capacity - 1] == '\0'
  {
    Pow2Values();
    hide Pow2, Narrow;
    assert text[..|text|] == text;
  }

  /** A caller whose budget stays below 2^31 is told the length, and gets the text as far as it fits. */
  lemma BudgetSuffices(fmt: string, args: seq<Arg>, longBits: nat, r: Result, buffer: seq<char>, capacity: nat)
    requires longBits == 32 || longBits == 64
    requires Budget(fmt, args, longBits) < 0x8000_0000 && capacity <= |buffer|
    ensures var whole := Render(fmt, args, longBits, "");
            whole.Rendered? && Delivered(whole.text, r, buffer, capacity, longBits) ==>
              r == Returned(|whole.text|)
              && var n := |whole.text|;
                 && (n < capacity ==> buffer[..n] == whole.text && buffer[n] == '\0')
                 && (n >= capacity > 0 ==>
                       buffer[..capacity - 1] == whole.text[..capacity - 1] && buffer[capacity - 1] == '\0')
  {
    hide Render, Budget, Delivered;
    WithinBudget(fmt, args, longBits, "");
    var whole := Render(fmt, args, longBits, "");
    if whole.Rendered? && Delivered(whole.text, r, buffer, capacity, longBits) {
      DeliveredWhole(whole.text, r, buffer, capacity, longBits);
    }
  }

  // ---------------------------------------------------------------------------
  // Lengths that do not fit
  // ---------------------------------------------------------------------------

  lemma {:induction false} DecimalDigits(v: nat)
    ensures forall i :: 0 <= i < |Digits(v, 10, false)| ==> IsDigit(Digits(v, 10, false)[i])
  {
    if v > 0 {
      DecimalDigits(v / 10);
      DigitCharValue(v % 10, 10, false);
    }
  }

  lemma {:induction false} DigitCountExact(d: string, rest: string)
    requires (forall i :: 0 <= i < |d| ==> IsDigit(d[i])) && (rest == "" || !IsDigit(rest[0]))
    ensures DigitCount(d + rest) == |d|
  {
    if d == "" {
      assert d + rest == rest;
    } else {
      assert (d + rest)[1..] == d[1..] + rest;
      DigitCountExact(d[1..], rest);
    }
  }

  /** A number that does not start with a zero. */
  predicate PlainNumber(d: string) { d != "" && d[0] != '0' && forall i :: 0 <= i < |d| ==> IsDigit(d[i]) }

  lemma NumberParses(d: string)
    requires PlainNumber(d)
    ensures ParseUnsigned(d, 10) == ParseDigits(d, 10)
  {
    hide ParseDigits, ParseU64;
    assert IsDigit(d[0]);
    FixedBasePlain(d, 10);
  }

  lemma NoFlags(fmt: string)
    requires fmt != "" && IsDigit(fmt[0]) && fmt[0] != '0'
    ensures Flags(fmt, PLAIN) == (PLAIN, fmt)
  {}

  lemma FieldOfNumber(d: string, w: nat, rest: string, args: seq<Arg>)
    requires PlainNumber(d) && ParseDigits(d, 10) == Parsed(w) && (rest == "" || !IsDigit(rest[0]))
    ensures NumberField(d + rest, args, false) == Field(w, rest, args)
  {
    hide ParseDigits, ParseUnsigned, IsDigit, DigitCount;
    var fmt := d + rest;
    DigitCountExact(d, rest);
    NumberParses(d);
    assert fmt[0] == d[0] && fmt[..|d|] == d && fmt[|d|..] == rest;
    NotAStar(d);
  }

  lemma NotAStar(d: string)
    requires PlainNumber(d)
    ensures d[0] != '*' && d[0] != '%'
  {
    assert IsDigit(d[0]);
  }

  /** The decimal digits of a width are a plain number that is read back. */
  lemma WidthNumber(w: nat)
    requires 0 < w < U64
    ensures var d := Digits(w, 10, false); PlainNumber(d) && ParseDigits(d, 10) == Parsed(w)
  {
    FirstDigit(w);
    DecimalDigits(w);
    NumeralValue(w, 10, false);
    hide Digits, ParseDigits, IsDigit;
  }

  lemma DispatchSigned(fm: FormatSpec, args: seq<Arg>, longBits: nat)
    requires fm.base == 10 && !fm.isSigned && !fm.uppercase && (longBits == 32 || longBits == 64)
    ensures Dispatch(fm, "d", args, longBits) == IntConversion(fm, "d", args, 32)
  {
    hide IntConversion, StringText, SizedText, IntegerText.Text, UnsignedWord, Pow2;
    var s := "d";
    assert s[0] == 'd';
  }

  lemma SignedField(fm: FormatSpec, word: Word)
    requires fm.base == 10 && !fm.isSigned && !fm.uppercase
    ensures IntConversion(fm, "d", [IntArg(word)], 32)
            == Converted(IntegerText.Text(fm.(isSigned := true), SignedWord(word, 32)), "", [])
  {
    hide IntegerText.Text, SignedWord;
  }

  lemma WidthConverted(d: string, w: nat, word: Word, longBits: nat)
    requires PlainNumber(d) && ParseDigits(d, 10) == Parsed(w) && (longBits == 32 || longBits == 64)
    ensures Convert(d + "d", [IntArg(word)], longBits)
            == Converted(IntegerText.Text(PLAIN.(minWidth := w, isSigned := true), SignedWord(word, 32)), "", [])
  {
    var args := [IntArg(word)];
    var fmt := d + "d";
    assert IsDigit(d[0]) && fmt[0] == d[0];
    NoFlags(fmt);
    FieldOfNumber(d, w, "d", args);
    hide NumberField, IntegerText.Text, SignedWord, PlainNumber, ParseDigits, Dispatch, IsDigit, Flags;
    DispatchSigned(PLAIN.(minWidth := w), args, longBits);
    hide IntConversion;
    assert IntConversion(PLAIN.(minWidth := w), "d", args, 32)
           == Converted(IntegerText.Text(PLAIN.(minWidth := w, isSigned := true), SignedWord(word, 32)), "", []) by {
      SignedField(PLAIN.(minWidth := w), word);
    }
    var g := "d";
    assert g[0] != '.';
  }

  /** A number in a field of a given width. */
  lemma WidthRendered(w: nat, word: Word, longBits: nat)
    requires 0 < w < U64 && (longBits == 32 || longBits == 64)
    ensures Render("%" + Digits(w, 10, false) + "d", [IntArg(word)], longBits, "")
            == Rendered(IntegerText.Text(PLAIN.(minWidth := w, isSigned := true), SignedWord(word, 32)))
  {
    hide Digits, IntegerText.Text, SignedWord, Convert, Render, ParseDigits;
    var d := Digits(w, 10, false);
    WidthNumber(w);
    NotAStar(d);
    WidthConverted(d, w, word, longBits);
    RenderOne(d + "d", [IntArg(word)], longBits,
              IntegerText.Text(PLAIN.(minWidth := w, isSigned := true), SignedWord(word, 32)));
    assert "%" + d + "d" == "%" + (d + "d");
  }

  /** A format that is one conversion. */
  lemma RenderOne(spec: string, args: seq<Arg>, longBits: nat, text: string)
    requires longBits == 32 || longBits == 64
    requires spec != "" && spec[0] != '%' && Convert(spec, args, longBits) == Converted(text, "", [])
    ensures Render("%" + spec, args, longBits, "") == Rendered(text)
  {
    hide Convert;
    var fmt := "%" + spec;
    assert PercentAt(fmt) == 0 && fmt[..0] == "" && fmt[0..] == fmt && fmt[1] == spec[0] && fmt[1..] == spec;
    assert "" + "" + text == text;
    PlainRest("", [], longBits, text);
  }

  lemma {:induction false} RepeatAt(c: char, n: int, i: nat)
    requires i < n
    ensures |Repeat(c, n)| == n && Repeat(c, n)[i] == c
    decreases n
  {
    RepeatLength(c, n);
    if i < n - 1 { RepeatAt(c, n - 1, i); } else { RepeatLength(c, n - 1); }
  }

  /** A number in a field of w characters. */
  function WidthFormat(w: nat): string { "%" + Digits(w, 10, false) + "d" }

  lemma ZeroWord()
    ensures SignedWord(0, 32) == 0
  {
    Pow2Values();
    hide Pow2;
  }

  lemma ZeroText(w: nat)
    requires w > 0
    ensures IntegerText.Text(PLAIN.(minWidth := w, isSigned := true), 0) == Repeat(' ', w - 1) + "0"
  {
    hide Repeat, Digits;
    var fm := PLAIN.(minWidth := w, isSigned := true);
    assert Body(fm, 0) == "0" && Sign(fm, 0) == "" && Magnitude(fm, 0) == 0;
    assert "" + (Repeat(' ', w - 1) + "0") == Repeat(' ', w - 1) + "0";
  }

  /** Zero in a wide field: blanks, and a digit at the end. */
  lemma ZeroInField(w: nat, longBits: nat)
    requires 0 < w < U64 && (longBits == 32 || longBits == 64)
    ensures Render(WidthFormat(w), [IntArg(0)], longBits, "") == Rendered(Repeat(' ', w - 1) + "0")
  {
    WidthRendered(w, 0, longBits);
    ZeroWord();
    ZeroText(w);
    hide Digits, Render, SignedWord, IntegerText.Text, Repeat;
  }

  /** Its length. */
  lemma FieldLength(w: nat, longBits: nat)
    requires 0 < w < U64 && (longBits == 32 || longBits == 64)
    ensures var whole := Render(WidthFormat(w), [IntArg(0)], longBits, "");
            whole.Rendered? && |whole.text| == w
            && forall i :: 0 <= i < w - 1 ==> whole.text[i] == ' '
  {
    hide Render, WidthFormat;
    ZeroInField(w, longBits);
    var blanks := Repeat(' ', w - 1);
    RepeatLength(' ', w - 1);
    forall i | 0 <= i < w - 1 ensures blanks[i] == ' ' { RepeatAt(' ', w - 1, i); }
    hide Repeat;
  }

  lemma DigitsGrow(v: nat, s: string, d: nat, t: string)
    requires v > 0 && d < 10 && Digits(v, 10, false) == s && t == s + ["0123456789"[d]]
    ensures Digits(10 * v + d, 10, false) == t
  {
    assert DigitChar(d, 10, false) == "0123456789"[d];
  }

  lemma NegativeDigits()
    ensures Digits(2147483648, 10, false) == "2147483648"
  {
    assert Digits(2, 10, false) == "2";
    hide Digits;
    DigitsGrow(2, "2", 1, "21");
    DigitsGrow(21, "21", 4, "214");
    DigitsGrow(214, "214", 7, "2147");
    DigitsGrow(2147, "2147", 4, "21474");
    DigitsGrow(21474, "21474", 8, "214748");
    DigitsGrow(214748, "214748", 3, "2147483");
    DigitsGrow(2147483, "2147483", 6, "21474836");
    DigitsGrow(21474836, "21474836", 4, "214748364");
    DigitsGrow(214748364, "214748364", 8, "2147483648");
  }

  lemma SharedDigits()
    ensures Digits(4294967, 10, false) == "4294967"
  {
    assert Digits(4, 10, false) == "4";
    hide Digits;
    DigitsGrow(4, "4", 2, "42");
    DigitsGrow(42, "42", 9, "429");
    DigitsGrow(429, "429", 4, "4294");
    DigitsGrow(4294, "4294", 9, "42949");
    DigitsGrow(42949, "42949", 6, "429496");
    DigitsGrow(429496, "429496", 7, "4294967");
  }

  lemma ErrorDigits()
    ensures Digits(4294967268, 10, false) == "4294967268"
  {
    SharedDigits();
    hide Digits;
    DigitsGrow(4294967, "4294967", 2, "42949672");
    DigitsGrow(42949672, "42949672", 6, "429496726");
    DigitsGrow(429496726, "429496726", 8, "4294967268");
  }

  lemma WrappingDigits()
    ensures Digits(4294967301, 10, false) == "4294967301"
  {
    SharedDigits();
    hide Digits;
    DigitsGrow(4294967, "4294967", 3, "42949673");
    DigitsGrow(42949673, "42949673", 0, "429496730");
    DigitsGrow(429496730, "429496730", 1, "4294967301");
  }

  lemma FormatsSpelled()
    ensures WidthFormat(2147483648) == "%2147483648d"
    ensures WidthFormat(4294967268) == "%4294967268d"
    ensures WidthFormat(4294967301) == "%4294967301d"
  {
    hide Digits;
    NegativeDigits();
    ErrorDigits();
    WrappingDigits();
  }

  /** A field of 2^31 characters: the length comes back negative, which means an error. */
  lemma LengthComesBackNegative(longBits: nat)
    requires longBits == 32 || longBits == 64
    ensures var whole := Render("%2147483648d", [IntArg(0)], longBits, "");
            whole.Rendered? && |whole.text| == 0x8000_0000 && Narrow(|whole.text|, 32) == 0 - 0x8000_0000
  {
    hide Render, WidthFormat;
    FormatsSpelled();
    FieldLength(0x8000_0000, longBits);
    Pow2Values();
    hide Pow2;
  }

  /** A longer one: what comes back is the very value that a malformed format gives. */
  lemma LengthLooksLikeError(longBits: nat)
    requires longBits == 32 || longBits == 64
    ensures var whole := Render("%4294967268d", [IntArg(0)], longBits, "");
            whole.Rendered? && Narrow(|whole.text|, 32) == 0 - Code(EINVAL)
  {
    hide Render, WidthFormat;
    FormatsSpelled();
    FieldLength(4294967268, longBits);
    Pow2Values();
    hide Pow2;
  }

  /** On a 32-bit machine the counter wraps: five comes back, and the terminator lands in the blanks. */
  lemma CounterWraps(r: Result, buffer: seq<char>, capacity: nat)
    requires 5 < capacity <= |buffer|
    ensures var whole := Render("%4294967301d", [IntArg(0)], 32, "");
            whole.Rendered? && |whole.text| == 4294967301
            && (Delivered(whole.text, r, buffer, capacity, 32) ==>
                  r == Returned(5) && buffer[5] == '\0' && whole.text[5] == ' ')
  {
    hide Render, WidthFormat;
    FormatsSpelled();
    FieldLength(4294967301, 32);
    Pow2Values();
    hide Pow2;
  }

  lemma DispatchChars(fm: FormatSpec, t: CText, longBits: nat)
    requires fm.base == 10 && !fm.isSigned && !fm.uppercase && (longBits == 32 || longBits == 64)
    ensures Dispatch(fm, "s", [CharsArg(t)], longBits)
            == if fm.minWidth >= Pow2(longBits) then Unusable else Converted(StringText(fm, t), "", [])
  {
    hide IntConversion, StringText, SizedText, IntegerText.Text, UnsignedWord, Pow2;
    var s := "s";
    assert s[0] == 's';
  }

  lemma CharsConverted(d: string, w: nat, t: CText, longBits: nat)
    requires PlainNumber(d) && ParseDigits(d, 10) == Parsed(w) && (longBits == 32 || longBits == 64)
    ensures Convert(d + "s", [CharsArg(t)], longBits) == Dispatch(PLAIN.(minWidth := w), "s", [CharsArg(t)], longBits)
  {
    var args := [CharsArg(t)];
    var fmt := d + "s";
    assert IsDigit(d[0]) && fmt[0] == d[0];
    NoFlags(fmt);
    FieldOfNumber(d, w, "s", args);
    hide NumberField, PlainNumber, ParseDigits, Dispatch, IsDigit, Flags;
    var g := "s";
    assert g[0] != '.';
  }

  /** A string in a field of w characters: the padding ends exactly if the width fits the loop's counter. */
  lemma StringFieldEnds(w: nat, t: CText, longBits: nat)
    requires 0 < w < U64 && (longBits == 32 || longBits == 64)
    ensures Render("%" + (Digits(w, 10, false) + "s"), [CharsArg(t)], longBits, "")
            == if w >= Pow2(longBits) then Rendering.Undefined else Rendered(StringText(PLAIN.(minWidth := w), t))
  {
    hide Digits, StringText, Convert, Dispatch, ParseDigits, Pow2;
    var d := Digits(w, 10, false);
    WidthNumber(w);
    NotAStar(d);
    CharsConverted(d, w, t, longBits);
    DispatchChars(PLAIN.(minWidth := w), t, longBits);
    if w >= Pow2(longBits) {
      RenderNone(d + "s", [CharsArg(t)], longBits);
    } else {
      RenderOne(d + "s", [CharsArg(t)], longBits, StringText(PLAIN.(minWidth := w), t));
    }
  }

  lemma RenderNone(spec: string, args: seq<Arg>, longBits: nat)
    requires longBits == 32 || longBits == 64
    requires spec != "" && spec[0] != '%' && Convert(spec, args, longBits) == Unusable
    ensures Render("%" + spec, args, longBits, "") == Rendering.Undefined
  {
    hide Convert;
    var fmt := "%" + spec;
    assert PercentAt(fmt) == 0 && fmt[0..] == fmt && fmt[1] == spec[0] && fmt[1..] == spec;
  }
}
