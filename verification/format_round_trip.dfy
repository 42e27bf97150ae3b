/** Printing a parameter with its own format and parsing the text gives the parameter back. */
module FormatRoundTrip {
  import opened Words
  import opened Ctype
  import opened Conversions
  import opened IntegerText
  import opened FormatRender

  /** A format of one conversion, with no flags, width or precision. */
  lemma PlainConversion(spec: string, args: seq<Arg>, longBits: nat)
    requires longBits == 32 || longBits == 64
    requires spec != "" && spec[0] !in "+- 0#*.%" && !IsDigit(spec[0])
    ensures Convert(spec, args, longBits) == Dispatch(PLAIN, spec, args, longBits)
  {
    assert !IsFlag(spec[0]);
    assert DigitCount(spec) == 0;
  }

  lemma PlainRender(spec: string, args: seq<Arg>, longBits: nat, text: string, left: seq<Arg>)
    requires longBits == 32 || longBits == 64
    requires spec != "" && spec[0] !in "+- 0#*.%" && !IsDigit(spec[0])
    requires Dispatch(PLAIN, spec, args, longBits) == Converted(text, "", left)
    ensures Render("%" + spec, args, longBits, "") == Rendered(text)
  {
    hide Dispatch;
    var fmt := "%" + spec;
    PlainConversion(spec, args, longBits);
    assert PercentAt(fmt) == 0 && fmt[..0] == "" && fmt[0..] == fmt;
    assert fmt[1] == spec[0];
    assert fmt[1..] == spec;
    assert "" + "" + text == text;
    assert Render("", left, longBits, text) == Rendered(text) by {
      assert PercentAt("") == 0;
      assert text + "" == text;
    }
  }

  /** %d and %u, long or not. */
  function Spec(c: char, bits: nat): string { if bits == 64 then ['l', 'l', c] else [c] }

  lemma DispatchPlain(c: char, args: seq<Arg>, bits: nat, longBits: nat)
    requires (c == 'd' || c == 'u') && (bits == 32 || bits == 64) && (longBits == 32 || longBits == 64)
    ensures Dispatch(PLAIN, Spec(c, bits), args, longBits) == IntConversion(PLAIN, [c], args, bits)
  {
    hide IntConversion, StringText, SizedText, IntegerText.Text;
    var spec := Spec(c, bits);
    if bits == 64 {
      assert spec[2..] == [c] && spec[..2] == "ll" && spec[0] == 'l';
    } else {
      assert spec[0] == c;
    }
  }

  lemma SignedConversion(v: int, bits: nat, longBits: nat)
    requires longBits == 32 || longBits == 64
    requires (bits == 32 || bits == 64) && 0 - Pow2(bits - 1) <= v < Pow2(bits - 1)
    ensures Dispatch(PLAIN, Spec('d', bits), [IntArg(v % U64)], longBits)
            == Converted(IntegerText.Text(PLAIN.(isSigned := true), v % U64), "", [])
  {
    hide Dispatch, IntegerText.Text, Pow2;
    var args := [IntArg(v % U64)];
    NarrowedWord(v, bits);
    DispatchPlain('d', args, bits, longBits);
    assert ['d'][1..] == "" && args[1..] == [];
  }

  lemma SignedRendering(v: int, bits: nat, longBits: nat)
    requires longBits == 32 || longBits == 64
    requires (bits == 32 || bits == 64) && 0 - Pow2(bits - 1) <= v < Pow2(bits - 1)
    ensures Render("%" + Spec('d', bits), [IntArg(v % U64)], longBits, "")
            == Rendered(IntegerText.Text(PLAIN.(isSigned := true), v % U64))
  {
    hide Dispatch, IntegerText.Text, Render, Pow2;
    SignedConversion(v, bits, longBits);
    PlainRender(Spec('d', bits), [IntArg(v % U64)], longBits, IntegerText.Text(PLAIN.(isSigned := true), v % U64), []);
  }

  lemma NarrowedWord(v: int, bits: nat)
    requires (bits == 32 || bits == 64) && 0 - Pow2(bits - 1) <= v < Pow2(bits - 1)
    ensures SignedWord(v % U64, bits) == v % U64
  {
    Pow2Values();
    assert Pow2(64) == 2 * Pow2(63) && Pow2(32) == 2 * Pow2(31);
    hide Pow2;
    var w := if v < 0 then v + U64 else v;
    QuotientUnique(v, U64, if v < 0 then -1 else 0, w);
    if bits == 32 {
      QuotientUnique(w, U32, if v < 0 then U32 - 1 else 0, if v < 0 then v + U32 else v);
    } else {
      QuotientUnique(w, U64, 0, w);
    }
    assert Narrow(w, bits) == v;
  }

  lemma UnsignedConversion(v: nat, bits: nat, longBits: nat)
    requires longBits == 32 || longBits == 64
    requires (bits == 32 || bits == 64) && v < Pow2(bits) <= U64
    ensures Dispatch(PLAIN, Spec('u', bits), [IntArg(v)], longBits) == Converted(IntegerText.Text(PLAIN, v), "", [])
  {
    hide Dispatch, IntegerText.Text, Pow2;
    var args := [IntArg(v)];
    QuotientUnique(v, Pow2(bits), 0, v);
    assert UnsignedWord(v, bits) == v;
    DispatchPlain('u', args, bits, longBits);
    assert ['u'][1..] == "" && args[1..] == [];
  }

  lemma UnsignedRendering(v: nat, bits: nat, longBits: nat)
    requires longBits == 32 || longBits == 64
    requires (bits == 32 || bits == 64) && v < Pow2(bits) <= U64
    ensures Render("%" + Spec('u', bits), [IntArg(v)], longBits, "") == Rendered(IntegerText.Text(PLAIN, v))
  {
    hide Dispatch, IntegerText.Text, Render, Pow2;
    UnsignedConversion(v, bits, longBits);
    PlainRender(Spec('u', bits), [IntArg(v)], longBits, IntegerText.Text(PLAIN, v), []);
  }

  /** Signed parameters: %d up to 32 bits, %lld for 64. */
  lemma SignedParameter(v: int, bits: nat, longBits: nat)
    requires longBits == 32 || longBits == 64
    requires (bits == 32 || bits == 64) && 0 - Pow2(bits - 1) <= v < Pow2(bits - 1) && -I64_MAX - 1 <= v <= I64_MAX
    ensures var r := Render("%" + Spec('d', bits), [IntArg(v % U64)], longBits, "");
            r.Rendered? && ParseI64(r.text, 0) == Parsed(v)
  {
    SignedRendering(v, bits, longBits);
    SignedRoundTrip(PLAIN.(isSigned := true), v);
  }

  /** Unsigned parameters: %u up to 32 bits, %llu for 64. */
  lemma UnsignedParameter(v: nat, bits: nat, longBits: nat)
    requires longBits == 32 || longBits == 64
    requires (bits == 32 || bits == 64) && v < Pow2(bits) <= U64
    ensures var r := Render("%" + Spec('u', bits), [IntArg(v)], longBits, "");
            r.Rendered? && ParseUnsigned(r.text, 0) == Parsed(v)
  {
    UnsignedRendering(v, bits, longBits);
    UnsignedRoundTrip(PLAIN, v);
  }
}
