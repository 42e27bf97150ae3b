/** Parameters written out as a command line are restored by parsing it. */
module ParamRestore {
  import opened Options
  import opened Words
  import opened Ctype
  import opened Conversions
  import opened IntegerText
  import opened FormatRender
  import opened FormatRoundTrip
  import opened CommandLine
  import opened Params

  function PrintBits(t: ParamType): nat {
    match t
    case SignedParam(bits) => if bits == 64 then 64 else 32
    case UnsignedParam(bits) => if bits == 64 then 64 else 32
    case _ => 32
  }

  /** A value of the parameter's type; a string that needs no quotes. */
  predicate Printable(p: Param) {
    match p.paramType
    case SignedParam(bits) => p.value.Number? && 0 - Pow2(bits - 1) <= p.value.n < Pow2(bits - 1)
    case UnsignedParam(bits) => p.value.Number? && 0 <= p.value.n < Pow2(bits)
    case BoolParam => p.value.Flag?
    case StringParam => p.value.Str? && p.value.s != "" && GoodValue(Plain, p.value.s)
  }

  lemma WidthBounds(bits: Width)
    ensures bits < 64 ==> Pow2(bits) <= Pow2(32) == U32 && Pow2(bits - 1) <= Pow2(31)
    ensures Pow2(64) == U64 && Pow2(63) == I64_MAX + 1 && Pow2(32) == U32
  {
    Pow2Values();
    if bits < 64 { Pow2Monotone(bits, 32); Pow2Monotone(bits - 1, 31); }
  }

  /** What the getter of the parameter formats: %d, %u, %lld or %llu, and the text itself for strings. */
  ghost function GetText(p: Param, longBits: nat): string
    requires Printable(p) && (longBits == 32 || longBits == 64)
  {
    match p.paramType
    case SignedParam(bits) =>
      RenderedText(Render("%" + Spec('d', PrintBits(p.paramType)), [IntArg(p.value.n % U64)], longBits, ""))
    case UnsignedParam(bits) =>
      RenderedText(Render("%" + Spec('u', PrintBits(p.paramType)), [IntArg(p.value.n % U64)], longBits, ""))
    case BoolParam => RenderedText(Render("%" + Spec('d', 32), [IntArg(if p.value.b then 1 else 0)], longBits, ""))
    case StringParam => p.value.s
  }

  ghost function RenderedText(r: Rendering): string { if r.Rendered? then r.text else "" }

  /** Only digits and signs. */
  lemma NumberChars(fm: FormatSpec, w: Word)
    requires fm == PLAIN || fm == PLAIN.(isSigned := true)
    ensures GoodValue(Plain, IntegerText.Text(fm, w)) && IntegerText.Text(fm, w) != ""
  {
    hide Value, DigitValue, Digits, Magnitude, IsNegative, NextNumber;
    var m := Magnitude(fm, w);
    var body := Numeral(m, 10, false);
    NumeralChars(m);
    assert Body(fm, m) == "" + body == body;
    assert Padding(fm, |body|) == "";
    assert IntegerText.Text(fm, w) == Sign(fm, w) + ("" + body) == Sign(fm, w) + body;
    GoodSigned(Sign(fm, w), body);
  }

  lemma NumeralChars(m: nat)
    ensures var d := Numeral(m, 10, false); d != "" && forall i :: 0 <= i < |d| ==> IsXDigit(d[i])
  {
    hide Value, DigitValue, NextNumber;
    DigitsValue(m, 10, false);
  }

  lemma GoodSigned(sign: string, body: string)
    requires (sign == "" || sign == "-") && body != "" && forall i :: 0 <= i < |body| ==> IsXDigit(body[i])
    ensures GoodValue(Plain, sign + body) && sign + body != ""
  {
    var s := sign + body;
    forall i | 0 <= i < |s| ensures !IsSpace(s[i]) && s[i] != '"' {
      if i < |sign| { assert s[i] == '-'; } else { assert s[i] == body[i - |sign|]; }
    }
  }

  /** A switch is printed as one digit. */
  lemma SwitchText(name: string, b: bool, longBits: nat)
    requires longBits == 32 || longBits == 64
    ensures GetText(Param(name, BoolParam, Flag(b)), longBits) == if b then "1" else "0"
  {
    hide Render;
    var v := if b then 1 else 0;
    assert Pow2(31) > 1 by { HalfWord(); }
    SignedRendering(v, 32, longBits);
    NegativeMagnitude(PLAIN.(isSigned := true), v);
    assert Digits(1, 10, false) == "" + [DigitChar(1, 10, false)] == "1";
    hide Digits;
  }

  lemma SignedGetThenSet(v: int, bits: Width, longBits: nat)
    requires (longBits == 32 || longBits == 64) && 0 - Pow2(bits - 1) <= v < Pow2(bits - 1)
    ensures var p := Param("", SignedParam(bits), Number(v));
            var s := GetText(p, longBits);
            ValueSet(p.paramType, s) == Some(p.value) && GoodValue(Plain, s) && s != ""
  {
    hide Render, ParseI64, GoodValue, Pow2, IntegerText.Text;
    WidthBounds(bits);
    var b := if bits == 64 then 64 else 32;
    assert Pow2(31) == Pow2(32) / 2 by { HalfWord(); }
    SignedParameter(v, b, longBits);
    SignedRendering(v, b, longBits);
    NumberChars(PLAIN.(isSigned := true), v % U64);
  }

  lemma HalfWord()
    ensures Pow2(31) == 0x8000_0000 && Pow2(32) == U32 && Pow2(63) == I64_MAX + 1
  {
    Pow2Values();
  }

  lemma UnsignedGetThenSet(v: int, bits: Width, longBits: nat)
    requires (longBits == 32 || longBits == 64) && 0 <= v < Pow2(bits)
    ensures var p := Param("", UnsignedParam(bits), Number(v));
            var s := GetText(p, longBits);
            ValueSet(p.paramType, s) == Some(p.value) && GoodValue(Plain, s) && s != ""
  {
    hide Render, ParseUnsigned, GoodValue, Pow2, IntegerText.Text;
    WidthBounds(bits);
    var b := if bits == 64 then 64 else 32;
    UnsignedParameter(v, b, longBits);
    UnsignedRendering(v, b, longBits);
    NumberChars(PLAIN, v);
    assert v % U64 == v;
  }

  lemma BoolGetThenSet(v: bool, longBits: nat)
    requires longBits == 32 || longBits == 64
    ensures var p := Param("", BoolParam, Flag(v));
            var s := GetText(p, longBits);
            ValueSet(p.paramType, s) == Some(p.value) && GoodValue(Plain, s) && s != ""
  {
    hide Render, GoodValue;
    var n := if v then 1 else 0;
    HalfWord();
    SignedRendering(n, 32, longBits);
    NumberChars(PLAIN.(isSigned := true), n);
    OneDigit(n);
    BoolDigits(v);
  }

  lemma OneDigit(n: nat)
    requires n <= 1
    ensures IntegerText.Text(PLAIN.(isSigned := true), n) == if n == 1 then "1" else "0"
  {
    assert Digits(1, 10, false) == "1" by { assert Digits(0, 10, false) == ""; }
  }

  lemma BoolDigits(v: bool)
    ensures ParseBool(if v then "1" else "0") == Some(v)
  {
    LowerFixed("1");
    LowerFixed("0");
    ZeroIsNotTrue();
    hide Lower;
    TrueDigit("1");
    TrueDigit("0");
  }

  lemma TrueDigit(s: string)
    requires Lower(s) == s
    ensures s == "1" ==> IsOption(s, 0, 4)
    ensures s == "0" ==> IsOption(s, 4, 8)
  {
    hide Lower;
    assert BOOL_OPTIONS[3] == "1" && BOOL_OPTIONS[7] == "0";
  }

  lemma ZeroIsNotTrue()
    ensures !IsOption("0", 0, 4)
  {
    LowerFixed("0");
    hide Lower;
    forall j | 0 <= j < 4 ensures "0" != BOOL_OPTIONS[j] {
      assert "0"[0] == '0';
      assert BOOL_OPTIONS[j][0] != '0';
    }
  }

  /** Formatting a parameter and setting it from the text gives the value back. */
  lemma GetThenSet(p: Param, longBits: nat)
    requires Printable(p) && (longBits == 32 || longBits == 64)
    ensures var s := GetText(p, longBits);
            ValueSet(p.paramType, s) == Some(p.value) && GoodValue(Plain, s) && s != ""
  {
    hide Render, GoodValue, ParseI64, ParseUnsigned, ParseBool, Pow2;
    match p.paramType
    case SignedParam(bits) => SignedGetThenSet(p.value.n, bits, longBits);
    case UnsignedParam(bits) => UnsignedGetThenSet(p.value.n, bits, longBits);
    case BoolParam => BoolGetThenSet(p.value.b, longBits);
    case StringParam => GoodString(p);
  }

  lemma GoodString(p: Param)
    requires Printable(p) && p.paramType.StringParam?
    ensures GoodValue(Plain, p.value.s)
  {}

  // ---------------------------------------------------------------------------
  // Whole command lines
  // ---------------------------------------------------------------------------

  ghost predicate Restorable(ps: seq<Param>) {
    && (forall i :: 0 <= i < |ps| ==> Printable(ps[i]) && GoodKey(ps[i].name))
    && (forall i, j :: 0 <= i < j < |ps| ==> !SameName(ps[i].name, ps[j].name))
  }

  /** name=value for each parameter from k on, separated by blanks. */
  ghost function LineOf(ps: seq<Param>, k: nat, longBits: nat): Line
    requires k <= |ps| && Restorable(ps) && (longBits == 32 || longBits == 64)
    decreases |ps| - k
  {
    if k == |ps| then End
    else Item(ps[k].name, Plain, GetText(ps[k], longBits), " ", LineOf(ps, k + 1, longBits))
  }

  lemma {:induction false} LineOfGood(ps: seq<Param>, k: nat, longBits: nat)
    requires k <= |ps| && Restorable(ps) && (longBits == 32 || longBits == 64)
    ensures GoodLine(LineOf(ps, k, longBits))
    decreases |ps| - k
  {
    hide GetText, Printable;
    if k < |ps| {
      LineOfGood(ps, k + 1, longBits);
      GetThenSet(ps[k], longBits);
    }
  }

  ghost predicate SameShape(ps: seq<Param>, qs: seq<Param>) {
    |ps| == |qs| && forall i :: 0 <= i < |ps| ==> qs[i].name == ps[i].name && qs[i].paramType == ps[i].paramType
  }

  lemma ApplyOne(ps: seq<Param>, qs: seq<Param>, k: nat, longBits: nat)
    requires Restorable(ps) && SameShape(ps, qs) && k < |ps| && (longBits == 32 || longBits == 64)
    ensures Apply(qs, (ps[k].name, GetText(ps[k], longBits))) == qs[k := ps[k]]
  {
    hide GetText, Printable, ValueSet, FindParam, GoodKey;
    GetThenSet(ps[k], longBits);
    assert FindParam(ps[k].name, qs) == Some(k) by {
      SameNameReflexive(ps[k].name);
      forall j | 0 <= j < k ensures !SameName(qs[j].name, ps[k].name) {
        assert !SameName(ps[j].name, ps[k].name);
      }
    }
  }

  lemma SameNameReflexive(a: string)
    ensures SameName(a, a)
  {}

  lemma {:induction false} ApplyFrom(ps: seq<Param>, qs: seq<Param>, k: nat, longBits: nat)
    requires Restorable(ps) && SameShape(ps, qs) && k <= |ps| && (longBits == 32 || longBits == 64)
    ensures ApplyAll(ps[..k] + qs[k..], Pairs(LineOf(ps, k, longBits))) == ps
    decreases |ps| - k
  {
    hide Apply, GetText, Printable, GoodKey, SameName;
    var cs := ps[..k] + qs[k..];
    if k == |ps| {
      assert cs == ps;
    } else {
      ApplyOne(ps, cs, k, longBits);
      var pair := (ps[k].name, GetText(ps[k], longBits));
      var more := Pairs(LineOf(ps, k + 1, longBits));
      assert Pairs(LineOf(ps, k, longBits)) == [pair] + [] + more;
      assert [pair] + [] + more == [pair] + more && ([pair] + more)[1..] == more;
      assert cs[k := ps[k]] == ps[..k + 1] + qs[k + 1..];
      ApplyFrom(ps, qs, k + 1, longBits);
    }
  }

  /** Writing every parameter out as name=value, with its own format, and parsing that line sets every
      parameter to the value it had, whatever the parameters held before. */
  lemma LineRestoresParams(ps: seq<Param>, qs: seq<Param>, longBits: nat)
    requires Restorable(ps) && SameShape(ps, qs) && (longBits == 32 || longBits == 64)
    ensures var (pairs, tail) := Split(Trim(LineText(LineOf(ps, 0, longBits))));
            ApplyAll(qs, pairs) == ps && tail == ""
  {
    hide GoodLine, Restorable, LineText, Split;
    LineOfGood(ps, 0, longBits);
    LineStart(LineOf(ps, 0, longBits));
    SplitInvertsJoin(LineOf(ps, 0, longBits));
    ApplyFrom(ps, qs, 0, longBits);
    assert ps[..0] + qs[0..] == qs;
    NoTail(ps, 0, longBits);
  }

  lemma {:induction false} NoTail(ps: seq<Param>, k: nat, longBits: nat)
    requires k <= |ps| && Restorable(ps) && (longBits == 32 || longBits == 64)
    ensures TailOf(LineOf(ps, k, longBits)) == ""
    decreases |ps| - k
  {
    hide Restorable, GetText;
    if k < |ps| { NoTail(ps, k + 1, longBits); }
  }
}
