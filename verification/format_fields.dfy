/** Strings, characters and pointers in a format, fields taken from the arguments, plain text, and formats that are
    refused. */
module FormatFields {
  import opened Errors
  import opened Words
  import opened Ctype
  import opened Conversions
  import opened IntegerText
  import opened FormatRender
  import opened FormatLength
  import opened FormatLetters

  // ---------------------------------------------------------------------------
  // Strings and characters
  // ---------------------------------------------------------------------------

  /** At most that many characters; all of them for a negative number. */
  function Cut(s: string, p: int): string { if 0 <= p < |s| then s[..p] else s }

  lemma OneRendered(spec: string, arg: Arg, longBits: nat, text: string)
    requires (longBits == 32 || longBits == 64) && spec != "" && spec[0] != '%'
    requires Convert(spec, [arg], longBits) == Converted(text, "", [])
    ensures Render("%" + spec, [arg], longBits, "") == Rendered(text)
  {
    hide Convert, Render;
    RenderOne(spec, [arg], longBits, text);
  }

  lemma DispatchString(fm: FormatSpec, arg: Arg, longBits: nat)
    requires fm.base == 10 && !fm.isSigned && !fm.uppercase && (longBits == 32 || longBits == 64)
    requires arg.CharsArg? && fm.minWidth < 0x1_0000_0000
    ensures Dispatch(fm, "s", [arg], longBits) == Converted(StringText(fm, arg.chars), "", [])
  {
    Pow2Values();
    hide Pow2, StringText;
    var s := "s";
    assert s[0] == 's' && s[1..] == "" && [arg][1..] == [];
  }

  /** A string, or its first characters, with blanks behind it up to the width, whatever the flags. A null pointer
      prints as a text of its own. */
  lemma StringRendered(flags: string, w: nat, p: int, t: CText, longBits: nat)
    requires (longBits == 32 || longBits == 64) && AllFlags(flags) && w < 0x1_0000_0000 && p < U64
    ensures var s := if t.Null? then "<null>" else t.chars;
            Render("%" + (flags + (WidthText(w) + (PointText(p) + "s"))), [CharsArg(t)], longBits, "")
            == Rendered(Laid("-", w, Cut(s, p)))
  {
    hide Dispatch, Convert, Render, WidthText, PointText, Repeat, FlaggedFrom;
    ConversionOf(flags, w, p, "s", [CharsArg(t)], longBits);
    DispatchString(Precise(Flagged(flags), w, p), CharsArg(t), longBits);
    FieldStarts(flags, w, p, "s");
    NoPrecision(flags);
    OneRendered(flags + (WidthText(w) + (PointText(p) + "s")), CharsArg(t), longBits,
                Laid("-", w, Cut(if t.Null? then "<null>" else t.chars, p)));
  }

  lemma NoPrecision(flags: string)
    requires AllFlags(flags)
    ensures var fm := Flagged(flags); !fm.hasPrecision && fm.precision == 0
  {
    FlagEffects(flags, PLAIN);
    hide FlaggedFrom;
  }

  lemma DispatchSized(fm: FormatSpec, arg: Arg, longBits: nat)
    requires fm.base == 10 && !fm.isSigned && !fm.uppercase && (longBits == 32 || longBits == 64)
    requires arg.StringArg? && fm.precision <= |SizedText(fm, arg.text)|
    ensures Dispatch(fm, "pS", [arg], longBits) == Converted(SizedText(fm, arg.text), "", [])
  {
    hide Pow2, SizedText;
    var s := "pS";
    assert s[0] == 'p' && s[1] == 'S' && s[2..] == "" && [arg][1..] == [];
  }

  /** A sized string, or the front of it, whatever the flags and the width. */
  lemma SizedRendered(flags: string, w: nat, p: int, t: CText, longBits: nat)
    requires (longBits == 32 || longBits == 64) && AllFlags(flags) && w < U64 && p < U64
    ensures var s := if t.Null? then "<null-string>" else t.chars;
            p <= |s| ==>
              Render("%" + (flags + (WidthText(w) + (PointText(p) + "pS"))), [StringArg(t)], longBits, "")
              == Rendered(Cut(s, p))
  {
    hide Dispatch, Convert, Render, WidthText, PointText, FlaggedFrom;
    var s := if t.Null? then "<null-string>" else t.chars;
    if p <= |s| {
      NoPrecision(flags);
      ConversionOf(flags, w, p, "pS", [StringArg(t)], longBits);
      DispatchSized(Precise(Flagged(flags), w, p), StringArg(t), longBits);
      FieldStarts(flags, w, p, "pS");
      OneRendered(flags + (WidthText(w) + (PointText(p) + "pS")), StringArg(t), longBits, Cut(s, p));
    }
  }

  lemma DispatchChar(fm: FormatSpec, word: Word, longBits: nat)
    requires fm.base == 10 && !fm.isSigned && !fm.uppercase && (longBits == 32 || longBits == 64)
    ensures Dispatch(fm, "c", [IntArg(word)], longBits) == Converted([(word % 0x100) as char], "", [])
  {
    hide Pow2;
    var s := "c";
    assert s[0] == 'c' && s[1..] == "" && [IntArg(word)][1..] == [];
  }

  /** The low byte of an argument as a character, whatever the flags, the width and the precision. */
  lemma CharRendered(flags: string, w: nat, p: int, word: Word, longBits: nat)
    requires (longBits == 32 || longBits == 64) && AllFlags(flags) && w < U64 && p < U64
    ensures Render("%" + (flags + (WidthText(w) + (PointText(p) + "c"))), [IntArg(word)], longBits, "")
            == Rendered([(word % 0x100) as char])
  {
    hide Dispatch, Convert, Render, WidthText, PointText, FlaggedFrom;
    ConversionOf(flags, w, p, "c", [IntArg(word)], longBits);
    DispatchChar(Precise(Flagged(flags), w, p), word, longBits);
    FieldStarts(flags, w, p, "c");
    OneRendered(flags + (WidthText(w) + (PointText(p) + "c")), IntArg(word), longBits, [(word % 0x100) as char]);
  }

  lemma DispatchPointer(fm: FormatSpec, word: Word, longBits: nat)
    requires fm.base == 10 && !fm.isSigned && !fm.uppercase && (longBits == 32 || longBits == 64)
    ensures var fm' := fm.(base := 16, minWidth := if longBits == 64 then 16 else 8, padChar := '0');
            Dispatch(fm, "p", [IntArg(word)], longBits)
            == Converted(IntegerText.Text(fm', UnsignedWord(word, longBits)), "", [])
  {
    hide Pow2, UnsignedWord, IntegerText.Text;
    var s := "p";
    assert s[0] == 'p' && s[1..] == "" && [IntArg(word)][1..] == [] && !("pS" <= s);
  }

  /** All digits of a pointer, with zeros in front, whatever the width and the precision. */
  lemma PointerRendered(flags: string, w: nat, p: int, word: Word, longBits: nat)
    requires (longBits == 32 || longBits == 64) && AllFlags(flags) && w < U64 && p < U64
    ensures Render("%" + (flags + (WidthText(w) + (PointText(p) + "p"))), [IntArg(word)], longBits, "")
            == Rendered(IntegerField("0" + flags, if longBits == 64 then 16 else 8, 'x', word % Pow2(longBits)))
  {
    hide Dispatch, Convert, Render, WidthText, PointText, FlaggedFrom, IntegerField, Pow2, IntegerText.Text;
    var v := word % Pow2(longBits);
    ConversionOf(flags, w, p, "p", [IntArg(word)], longBits);
    DispatchPointer(Precise(Flagged(flags), w, p), word, longBits);
    UnsignedValueOf('x', word, longBits);
    PointerText(flags, w, p, UnsignedWord(word, longBits), longBits);
    FieldStarts(flags, w, p, "p");
    OneRendered(flags + (WidthText(w) + (PointText(p) + "p")), IntArg(word), longBits,
                IntegerField("0" + flags, if longBits == 64 then 16 else 8, 'x', v));
  }

  lemma PointerText(flags: string, w: nat, p: int, v: Word, longBits: nat)
    requires (longBits == 32 || longBits == 64) && AllFlags(flags)
    ensures var digits := if longBits == 64 then 16 else 8;
            IntegerText.Text(Precise(Flagged(flags), w, p).(base := 16, minWidth := digits, padChar := '0'), v)
            == IntegerField("0" + flags, digits, 'x', v)
  {
    var digits := if longBits == 64 then 16 else 8;
    var fm := Precise(Flagged(flags), w, p).(base := 16, minWidth := digits, padChar := '0');
    FlagEffects(flags, PLAIN);
    FlagEffects("0" + flags, PLAIN);
    ZeroFirst(flags);
    PlainMagnitude(fm, v);
    hide IntegerText.Text, IntegerField, FlaggedFrom, Has, LastSign, IsNegative, Magnitude;
    TextLaid("0" + flags, digits, 'x', fm, v, v);
  }

  lemma ZeroFirst(flags: string)
    ensures var all := "0" + flags;
            && (AllFlags(flags) ==> AllFlags(all)) && LastSign(all) == LastSign(flags) && Has(all, '0')
            && Has(all, '-') == Has(flags, '-') && Has(all, '#') == Has(flags, '#')
  {
    assert ("0" + flags)[1..] == flags;
  }

  // ---------------------------------------------------------------------------
  // Fields from the arguments
  // ---------------------------------------------------------------------------

  /** A width taken from an int argument; a negative one becomes the 64-bit word of the same bits. */
  lemma StarRendered(k: Word, word: Word, longBits: nat)
    requires longBits == 32 || longBits == 64
    ensures Render("%*d", [IntArg(k), IntArg(word)], longBits, "")
            == Rendered(IntegerField("", Printed('d', k, 32) % U64, 'd', Printed('d', word, 32)))
  {
    hide Render, IntegerField, Printed, IntConversion, Pow2, SignedWord;
    var spec, args := "*d", [IntArg(k), IntArg(word)];
    assert spec[0] == '*' && spec[1..] == "d" && args[1..] == [IntArg(word)];
    assert !IsFlag('*');
    SignedValueOf('d', k, 32);
    var w := Printed('d', k, 32) % U64;
    assert "" + ['d'] == "d";
    IntDispatch(PLAIN.(minWidth := w), "", 'd', 32, [IntArg(word)], longBits);
    SignedConverted("", w, -1, 'd', 32, word);
    hide Dispatch;
    assert Convert(spec, args, longBits) == Dispatch(PLAIN.(minWidth := w), "d", [IntArg(word)], longBits);
    hide Convert;
    RenderOne(spec, args, longBits, IntegerField("", w, 'd', Printed('d', word, 32)));
    assert "%" + "*d" == "%*d";
  }

  /** A precision taken from an int argument. */
  lemma StarPrecision(k: Word, t: CText, longBits: nat)
    requires longBits == 32 || longBits == 64
    ensures var s := if t.Null? then "<null>" else t.chars;
            Render("%.*s", [IntArg(k), CharsArg(t)], longBits, "") == Rendered(Cut(s, Printed('d', k, 32) % U64))
  {
    hide Render, Printed, Pow2, SignedWord, Repeat;
    var spec, args := ".*s", [IntArg(k), CharsArg(t)];
    assert spec[0] == '.' && spec[1..] == "*s" && "*s"[1..] == "s" && args[1..] == [CharsArg(t)];
    assert !IsFlag('.') && DigitCount(spec) == 0;
    SignedValueOf('d', k, 32);
    var p := Printed('d', k, 32) % U64;
    var fm := PLAIN.(hasPrecision := true, precision := p);
    hide Dispatch;
    assert Convert(spec, args, longBits) == Dispatch(fm, "s", [CharsArg(t)], longBits);
    hide Convert;
    DispatchString(fm, CharsArg(t), longBits);
    var s := if t.Null? then "<null>" else t.chars;
    NoBlanks(Cut(s, p));
    RenderOne(spec, args, longBits, Cut(s, p));
    assert "%" + ".*s" == "%.*s";
  }

  lemma NoBlanks(shown: string)
    ensures shown + Repeat(' ', 0 - |shown|) == shown
  {}

  // ---------------------------------------------------------------------------
  // Plain text and refusals
  // ---------------------------------------------------------------------------

  lemma {:induction false} PercentAfter(t: string, fmt: string)
    requires '%' !in t
    ensures PercentAt(t + fmt) == |t| + PercentAt(fmt)
  {
    if t == "" {
      assert t + fmt == fmt;
    } else {
      assert (t + fmt)[1..] == t[1..] + fmt;
      PercentAfter(t[1..], fmt);
    }
  }

  /** Plain text stands for itself. */
  lemma PlainTextRendered(t: string, args: seq<Arg>, longBits: nat)
    requires (longBits == 32 || longBits == 64) && '%' !in t
    ensures Render(t, args, longBits, "") == Rendered(t)
  {
    hide Render, PercentAt;
    PercentAfter(t, "");
    NothingAfter();
    assert t + "" == t && "" + t == t && t[..|t|] == t;
    RenderEnds(t, args, longBits, "");
  }

  lemma NothingAfter()
    ensures PercentAt("") == 0 && PercentAt("%%") == 0
  {}

  /** Two percent signs stand for one. */
  lemma PercentRendered(t: string, args: seq<Arg>, longBits: nat)
    requires (longBits == 32 || longBits == 64) && '%' !in t
    ensures Render(t + "%%", args, longBits, "") == Rendered(t + "%")
  {
    hide Render, PercentAt;
    PercentAfter(t, "%%");
    NothingAfter();
    var fmt := t + "%%";
    assert fmt[|t|..] == "%%" && fmt[|t| + 2..] == "" && fmt[..|t|] == t && "" + t == t;
    RenderPercent(fmt, args, longBits, "");
    RenderEnds("", args, longBits, t + "%");
    assert t + "%" + "" == t + "%";
  }

  /** A conversion that is refused refuses the whole format. */
  lemma RefusedFirst(spec: string, e: Errno, args: seq<Arg>, longBits: nat)
    requires (longBits == 32 || longBits == 64) && (spec == "" || spec[0] != '%')
    requires Convert(spec, args, longBits) == Refused(e)
    ensures Render("%" + spec, args, longBits, "") == Rejected(e)
  {
    hide Render, Convert;
    var fmt := "%" + spec;
    assert fmt[0..] == fmt && fmt[1..] == spec && (spec != "" ==> fmt[1] == spec[0]) && PercentAt(fmt) == 0;
    RenderConversion(fmt, args, longBits, "");
  }

  lemma UnknownDispatched(c: char, args: seq<Arg>, longBits: nat)
    requires (longBits == 32 || longBits == 64) && c !in "csphlzdioxXu"
    ensures Dispatch(PLAIN, [c], args, longBits) == Dispatch(PLAIN, "", args, longBits) == Refused(EINVAL)
  {
    hide Pow2;
    var spec := [c];
    assert spec[0] == c;
  }

  /** An unknown letter is refused, and so is a format that ends in a percent sign; the code is that of EINVAL. */
  lemma UnknownRefused(c: char, args: seq<Arg>, longBits: nat)
    requires longBits == 32 || longBits == 64
    requires StartsConversion([c]) && c !in "csphlzdioxXu"
    ensures Render("%" + [c], args, longBits, "") == Rejected(EINVAL) == Render("%", args, longBits, "")
    ensures 0 - Code(EINVAL) == -28
  {
    hide Render, Dispatch;
    UnknownDispatched(c, args, longBits);
    NoDigits([c]);
    assert !IsFlag([c][0]) && DigitCount("") == 0;
    assert Convert([c], args, longBits) == Refused(EINVAL) && Convert("", args, longBits) == Refused(EINVAL);
    hide Convert;
    RefusedFirst([c], EINVAL, args, longBits);
    RefusedFirst("", EINVAL, args, longBits);
    assert "%" + "" == "%";
  }

  /** So is a precision without a number. */
  lemma PointRefused(rest: string, args: seq<Arg>, longBits: nat)
    requires (longBits == 32 || longBits == 64) && (rest == "" || (!IsDigit(rest[0]) && rest[0] != '*'))
    ensures Render("%" + ("." + rest), args, longBits, "") == Rejected(EINVAL)
  {
    hide Render, Dispatch;
    var spec := "." + rest;
    assert spec[0] == '.' && spec[1..] == rest && !IsFlag('.') && DigitCount(spec) == 0 == DigitCount(rest);
    assert Convert(spec, args, longBits) == Refused(EINVAL);
    hide Convert;
    RefusedFirst(spec, EINVAL, args, longBits);
  }

  /** So is a width that does not fit a 64-bit word, with the code of ERANGE. */
  lemma WideRefused(d: string, rest: string, args: seq<Arg>, longBits: nat)
    requires longBits == 32 || longBits == 64
    requires PlainNumber(d) && AllDigits(d, 10) && Value(d, 10) >= U64 && (rest == "" || !IsDigit(rest[0]))
    ensures Render("%" + (d + rest), args, longBits, "") == Rejected(ERANGE)
    ensures 0 - Code(ERANGE) == -72
  {
    hide Render, Value, DigitCount, ParseUnsigned;
    var fmt := d + rest;
    DigitCountExact(d, rest);
    NumberParses(d);
    NotAStar(d);
    assert ParseDigits(d, 10) == Failed(ERANGE) by { assert forall k :: 0 <= k < |d| ==> IsXDigit(d[k]); }
    assert fmt[0] == d[0] && fmt[..|d|] == d;
    NoFlags(fmt);
    assert Convert(fmt, args, longBits) == Refused(ERANGE);
    hide Convert;
    RefusedFirst(fmt, ERANGE, args, longBits);
  }
}
