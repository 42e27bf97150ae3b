/** How texts are read as numbers, by what they start with. */
module NumberReadings {
  import opened Errors
  import opened Words
  import opened Ctype
  import opened Conversions

  /** The digits of either case. */
  lemma DigitTable(c: char)
    ensures IsXDigit(c) <==> c in "0123456789abcdefABCDEF"
    ensures forall i :: 0 <= i < 16 ==> IsXDigit("0123456789abcdef"[i]) && DigitValue("0123456789abcdef"[i]) == i
    ensures forall i :: 0 <= i < 16 ==> IsXDigit("0123456789ABCDEF"[i]) && DigitValue("0123456789ABCDEF"[i]) == i
    ensures IsDigit(c) <==> c in "0123456789"
  {}

  /** The base that is announced, and what is read in it. */
  lemma AnnouncedReadings(d: string)
    ensures ParseU64("0x" + d, 0) == ParseDigits(d, 16)
    ensures ParseU64("0b" + d, 0) == ParseDigits(d, 2)
    ensures d == "" || (d[0] != 'x' && d[0] != 'b') ==> ParseU64("0" + d, 0) == ParseDigits(d, 8)
    ensures d != "" && d[0] in "123456789" ==> ParseU64(d, 0) == ParseDigits(d, 10)
    ensures d == "" || d[0] !in "0123456789" ==> ParseU64(d, 0) == Failed(EINVAL)
  {
    hide ParseDigits;
    var x, b, o := "0x" + d, "0b" + d, "0" + d;
    assert x[2..] == d && x[1] == 'x';
    assert b[2..] == d && b[1] == 'b';
    assert o[1..] == d && (d != "" ==> o[1] == d[0]);
  }

  lemma DigitsOf(s: string, a: nat, c: char, b: nat, base: nat)
    requires |s| == 2 && IsXDigit(s[0]) && DigitValue(s[0]) == a && s[1] == c && IsXDigit(c) && DigitValue(c) == b
    requires a < base && b < base && 0 < base <= 16
    ensures ParseDigits(s, base) == Parsed(a * base + b)
  {
    EmptyValue(base);
    AppendDigit("", s[0], base, [s[0]]);
    AppendDigit([s[0]], c, base, s);
    assert 0 * base + a == a;
    hide Value, AllDigits, IsXDigit, DigitValue;
    ProductMonotone(a, 15, base);
  }

  /** Two digits in each of the bases. */
  lemma ReadingExamples()
    ensures ParseU64("0x1f", 0) == Parsed(31) && ParseU64("0b10", 0) == Parsed(2)
    ensures ParseU64("017", 0) == Parsed(15) && ParseU64("19", 0) == Parsed(19)
  {
    hide ParseDigits, ParseU64, DigitValue, IsXDigit;
    DigitTable('1');
    assert "0123456789abcdef"[1] == '1' && "0123456789abcdef"[15] == 'f' && "0123456789abcdef"[0] == '0';
    assert "0123456789abcdef"[7] == '7' && "0123456789abcdef"[9] == '9';
    AnnouncedReadings("1f"); DigitsOf("1f", 1, 'f', 15, 16);
    AnnouncedReadings("10"); DigitsOf("10", 1, '0', 0, 2);
    AnnouncedReadings("17"); DigitsOf("17", 1, '7', 7, 8);
    AnnouncedReadings("19"); DigitsOf("19", 1, '9', 9, 10);
    assert "0x" + "1f" == "0x1f" && "0b" + "10" == "0b10" && "0" + "17" == "017";
  }

  /** A sign in front of a text that has none: a plus sign changes nothing, and a minus sign negates, down to -2^63;
      unsigned numbers have none. */
  lemma SignReadings(t: string, base: nat)
    requires t == "" || (t[0] != '+' && t[0] != '-')
    ensures var r := ParseU64(t, base);
            && ParseI64(t, base) == ParseI64("+" + t, base)
               == (if r.Parsed? && r.value > 0x7FFF_FFFF_FFFF_FFFF then Failed(ERANGE) else r)
            && ParseI64("-" + t, base)
               == (if r.Failed? then r
                   else if r.value > 0x8000_0000_0000_0000 then Failed(ERANGE) else Parsed(0 - r.value))
            && ParseUnsigned(t, base) == ParseUnsigned("+" + t, base) == r
            && ParseUnsigned("-" + t, base) == ParseUnsigned("+-" + t, base) == Failed(EINVAL)
  {
    hide ParseU64;
    assert ("+" + t)[1..] == t && ("-" + t)[1..] == t && ("+-" + t)[1..] == "-" + t;
    assert ("+-" + t)[0] == '+' && ("+" + t)[0] == '+';
  }
}
