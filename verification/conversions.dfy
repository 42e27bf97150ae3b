/** Text to numbers. */
module Conversions {
  import opened Errors
  import opened Words
  import opened Ctype

  datatype Parse = Parsed(value: int) | Failed(errno: Errno)

  // ---------------------------------------------------------------------------
  // What a digit string denotes
  // ---------------------------------------------------------------------------

  /** The value of a hexadecimal digit of either case. */
  function DigitValue(c: char): (d: nat)
    requires IsXDigit(c)
    ensures d < 16
  {
    if IsDigit(c) then c as int - '0' as int else 10 + (ToLower(c) as int - 'a' as int)
  }

  predicate AllDigits(s: string, base: nat) {
    forall i :: 0 <= i < |s| ==> IsXDigit(s[i]) && DigitValue(s[i]) < base
  }

  function NextNumber(number: nat, base: nat, digit: nat): nat {
    number * base + digit
  }

  function Value(s: string, base: nat): nat
    requires AllDigits(s, base)
  {
    if s == [] then 0 else NextNumber(Value(s[..|s| - 1], base), base, DigitValue(s[|s| - 1]))
  }

  /** Only digits of the base, and the number fits in 64 bits. */
  predicate Acceptable(s: string, base: nat) {
    AllDigits(s, base) && Value(s, base) < U64
  }

  /** The whole string if it is acceptable. Otherwise the first offence decides: a character that is no
      digit at all, or else a digit too large for the base or a number too large for the word. */
  ghost function ParseDigits(s: string, base: nat): Parse {
    if Acceptable(s, base) then Parsed(Value(s, base))
    else if exists k :: 0 <= k < |s| && !IsXDigit(s[k]) && Acceptable(s[..k], base) then Failed(EINVAL)
    else Failed(ERANGE)
  }

  lemma {:induction false} AcceptablePrefix(s: string, k: nat, base: nat)
    requires Acceptable(s, base) && k <= |s| && base > 0
    ensures Acceptable(s[..k], base)
    decreases |s|
  {
    if k == |s| {
      assert s[..k] == s;
    } else {
      var t := s[..|s| - 1];
      ProductAtLeast(Value(t, base), base);
      assert Acceptable(t, base);
      AcceptablePrefix(t, k, base);
      assert t[..k] == s[..k];
    }
  }

  lemma AcceptableShorter(s: string, i: nat, k: nat, base: nat)
    requires i <= k <= |s| && base > 0
    ensures Acceptable(s[..k], base) ==> Acceptable(s[..i], base)
  {
    if Acceptable(s[..k], base) {
      AcceptablePrefix(s[..k], i, base);
      assert s[..k][..i] == s[..i];
    }
  }

  lemma ProductAtLeast(x: nat, y: nat)
    requires y > 0
    ensures x <= x * y
  {
    assert x * y == x + x * (y - 1);
  }

  /** The overflow test under wrap-around is exact: dividing the wrapped result gives the old number
      back exactly when the digit belongs to the base and nothing wrapped. */
  lemma OverflowTestExact(number: nat, base: nat, d: nat)
    requires number < U64 && base > 0 && d < 16
    ensures (number * base + d) % U64 / base == number <==> d < base && number * base + d < U64
  {
    var m := number * base;
    var q, next := (m + d) / U64, (m + d) % U64;
    assert m + d == q * U64 + next;
    if next / base == number {
      QuotientTimes(next, base);
      NothingWrapped(m, d, q, next % base);
    }
    if d < base && m + d < U64 {
      QuotientUnique(m + d, U64, 0, m + d);
      QuotientUnique(m + d, base, number, d);
    }
  }

  lemma QuotientTimes(v: nat, d: nat)
    requires d > 0
    ensures v == v / d * d + v % d && v % d < d
  {}

  lemma NothingWrapped(m: nat, d: nat, q: int, f: nat)
    requires m + d == q * U64 + (m + f) && d < 16 && m + f < U64
    ensures q == 0 && d == f
  {}

  lemma ValueStep(s: string, i: nat, base: nat)
    requires i < |s| && AllDigits(s[..i], base)
    ensures AllDigits(s[..i + 1], base) <==> IsXDigit(s[i]) && DigitValue(s[i]) < base
    ensures AllDigits(s[..i + 1], base) ==>
              Value(s[..i + 1], base) == Value(s[..i], base) * base + DigitValue(s[i])
  {
    var t := s[..i + 1];
    assert t[..i] == s[..i] && t[i] == s[i];
    if IsXDigit(s[i]) && DigitValue(s[i]) < base {
      forall j | 0 <= j < |t| ensures IsXDigit(t[j]) && DigitValue(t[j]) < base {
        if j < i { assert t[j] == s[..i][j]; }
      }
    }
  }

  /** One more character: the overflow test decides whether it is accepted. */
  lemma AcceptStep(s: string, i: nat, base: nat)
    requires base > 0 && i < |s| && Acceptable(s[..i], base)
    ensures !IsXDigit(s[i]) ==> !Acceptable(s[..i + 1], base)
    ensures IsXDigit(s[i]) ==>
              var number := Value(s[..i], base);
              var next := (number * base + DigitValue(s[i])) % U64;
              && (Acceptable(s[..i + 1], base) <==> next / base == number)
              && (Acceptable(s[..i + 1], base) ==> Value(s[..i + 1], base) == next)
  {
    hide DigitValue, IsXDigit;
    ValueStep(s, i, base);
    if IsXDigit(s[i]) {
      var number, d := Value(s[..i], base), DigitValue(s[i]);
      OverflowTestExact(number, base, d);
      hide Value, AllDigits;
      if d < base && number * base + d < U64 { QuotientUnique(number * base + d, U64, 0, number * base + d); }
    }
  }

  lemma NothingRead(s: string, base: nat)
    ensures Acceptable(s[..0], base) && Value(s[..0], base) == 0
  {}

  method DoStrToU64Unchecked(s: string, base: nat) returns (r: Parse)
    requires base > 0
    ensures r == ParseDigits(s, base)
  {
    var number: nat := 0;
    var i := 0;
    NothingRead(s, base);
    hide Acceptable, Value, ParseDigits;
    while i < |s|
      invariant 0 <= i <= |s|
      invariant Acceptable(s[..i], base) && number == Value(s[..i], base)
    {
      var c := s[i];
      AcceptStep(s, i, base);
      var next: nat;
      if IsDigit(c) {
        next := c as int - '0' as int;
      } else {
        if !IsXDigit(c) {
          Rejected(s, i, base);
          return Failed(EINVAL);
        }
        next := 10 + (ToLower(c) as int - 'a' as int);
      }
      next := (number * base + next) % U64;
      if next / base != number {
        Rejected(s, i, base);
        return Failed(ERANGE);
      }
      number := next;
      i := i + 1;
    }
    assert s[..i] == s;
    WholeRead(s, base);
    return Parsed(number);
  }

  lemma WholeRead(s: string, base: nat)
    requires Acceptable(s, base)
    ensures ParseDigits(s, base) == Parsed(Value(s, base))
  {}

  /** Where the accepted prefix ends, the failure is decided. */
  lemma Rejected(s: string, i: nat, base: nat)
    requires base > 0 && i < |s| && Acceptable(s[..i], base) && !Acceptable(s[..i + 1], base)
    ensures ParseDigits(s, base) == Failed(if IsXDigit(s[i]) then ERANGE else EINVAL)
  {
    if Acceptable(s, base) { AcceptablePrefix(s, i + 1, base); }
    forall k | 0 <= k < i ensures IsXDigit(s[k]) { assert s[..i][k] == s[k]; }
    forall k | i < k <= |s| ensures !Acceptable(s[..k], base) { AcceptableShorter(s, i + 1, k, base); }
  }

  // ---------------------------------------------------------------------------
  // Prefixes and signs
  // ---------------------------------------------------------------------------

  /** The base that the text announces, 0 for none, and what is left after the announcement. */
  method ConsumeBase(s: string) returns (base: nat, rest: string)
    ensures (base, rest) == AnnouncedBase(s)
  {
    if s == [] { return 0, s; }
    if StartsWith(s, "0x") { return 16, s[2..]; }
    if StartsWith(s, "0b") { return 2, s[2..]; }
    if StartsWith(s, "0") { return 8, s[1..]; }
    if IsDigit(s[0]) { return 10, s; }
    return 0, s;
  }

  ghost function AnnouncedBase(s: string): (nat, string) {
    if "0x" <= s then (16, s[2..])
    else if "0b" <= s then (2, s[2..])
    else if "0" <= s then (8, s[1..])
    else if |s| > 0 && IsDigit(s[0]) then (10, s)
    else (0, s)
  }

  /** An announcement is consumed even when the caller fixes the base. */
  ghost function ParseU64(s: string, base: nat): Parse {
    var (announced, rest) := AnnouncedBase(s);
    if base == 0 && announced == 0 then Failed(EINVAL)
    else ParseDigits(rest, if base != 0 then base else announced)
  }

  method DoStrToU64(s: string, base: nat) returns (r: Parse)
    ensures r == ParseU64(s, base)
  {
    var announced, rest := ConsumeBase(s);
    if base == 0 && announced == 0 { return Failed(EINVAL); }
    r := DoStrToU64Unchecked(rest, if base != 0 then base else announced);
  }

  // ---------------------------------------------------------------------------
  // Fixed bases
  // ---------------------------------------------------------------------------

  /** A leading zero, or any other leading digit. */
  lemma {:induction false} LeadingDigit(c: char, s: string, base: nat)
    requires base > 0 && IsXDigit(c)
    ensures AllDigits([c] + s, base) <==> DigitValue(c) < base && AllDigits(s, base)
    ensures AllDigits([c] + s, base) ==> Value([c] + s, base) >= DigitValue(c) + Value(s, base)
    ensures AllDigits([c] + s, base) && c == '0' ==> Value([c] + s, base) == Value(s, base)
    decreases |s|
  {
    var t := [c] + s;
    DigitsByOne(c, s, base);
    assert t[..0] == "";
    if AllDigits(t, base) && s != "" {
      var before := s[..|s| - 1];
      assert t[..|t| - 1] == [c] + before && t[|t| - 1] == s[|s| - 1];
      LeadingDigit(c, before, base);
      DigitsByOne(c, before, base);
      assert DigitValue('0') == 0;
      hide IsXDigit, DigitValue, AllDigits;
      LeadStep(DigitValue(c), Value(before, base), Value([c] + before, base), base);
    }
  }

  lemma LeadStep(lead: nat, low: nat, whole: nat, base: nat)
    requires base > 0 && whole >= lead + low
    ensures whole * base >= lead + low * base
  {
    ProductMonotone(lead + low, whole, base);
    assert (lead + low) * base == lead * base + low * base;
    ProductAtLeast(lead, base);
  }

  lemma DigitsByOne(c: char, s: string, base: nat)
    requires IsXDigit(c)
    ensures AllDigits([c] + s, base) <==> DigitValue(c) < base && AllDigits(s, base)
  {
    hide DigitValue;
    var t := [c] + s;
    assert t[0] == c;
    if AllDigits(t, base) {
      forall i | 0 <= i < |s| ensures IsXDigit(s[i]) && DigitValue(s[i]) < base { assert t[i + 1] == s[i]; }
    }
  }

  /** Where a text stops being acceptable. */
  lemma {:induction false} FirstOffence(s: string, n: nat, base: nat) returns (i: nat)
    requires 0 < n <= |s| && Acceptable("", base) && !Acceptable(s[..n], base)
    ensures i < n && Acceptable(s[..i], base) && !Acceptable(s[..i + 1], base)
  {
    hide Acceptable;
    assert s[..0] == "";
    if Acceptable(s[..n - 1], base) { i := n - 1; } else { i := FirstOffence(s, n - 1, base); }
  }

  lemma LeadingZeroParses(s: string, base: nat)
    requires base > 0
    ensures ParseDigits("0" + s, base) == ParseDigits(s, base)
  {
    var t := "0" + s;
    assert t == ['0'] + s;
    LeadingDigit('0', s, base);
    if !Acceptable(s, base) {
      assert s[..|s|] == s;
      var i := FirstOffence(s, |s|, base);
      Rejected(s, i, base);
      LeadingDigit('0', s[..i], base);
      LeadingDigit('0', s[..i + 1], base);
      assert t[..i + 1] == ['0'] + s[..i] && t[..i + 2] == ['0'] + s[..i + 1] && t[i + 1] == s[i];
      Rejected(t, i + 1, base);
    }
  }

  /** An announcement of two characters, the second of which is lost to a caller that fixes the base. */
  predicate AnnouncesTwo(s: string) { "0x" <= s || "0b" <= s }

  /** The same number, or no number. */
  predicate SameReading(a: Parse, b: Parse) { a == b || (a.Failed? && b.Failed?) }

  /** Without such an announcement, a fixed base reads the text as it stands. */
  lemma FixedBasePlain(s: string, base: nat)
    requires base > 0 && !AnnouncesTwo(s)
    ensures ParseU64(s, base) == ParseDigits(s, base)
  {
    if "0" <= s {
      assert s == "0" + s[1..];
      LeadingZeroParses(s[1..], base);
    }
  }

  /** What follows an announcement is acceptable if the whole is, and then denotes another number. */
  lemma AnnouncementCounts(s: string, base: nat)
    requires base > 0 && AnnouncesTwo(s) && Acceptable(s, base)
    ensures Acceptable(s[2..], base) && Value(s[2..], base) < Value(s, base)
  {
    assert IsXDigit(s[1]);
    assert s == ['0'] + s[1..] && s[1..] == ['b'] + s[2..];
    LeadingDigit('0', s[1..], base);
    LeadingDigit('b', s[2..], base);
    assert DigitValue('b') == 11;
  }

  /** A fixed base reads the text as it stands unless it starts with an announcement of two characters
      and an acceptable number follows, which is then read in place of the whole. */
  lemma FixedBaseExact(s: string, base: nat)
    requires base > 0
    ensures SameReading(ParseU64(s, base), ParseDigits(s, base)) <==> !(AnnouncesTwo(s) && Acceptable(s[2..], base))
  {
    if !AnnouncesTwo(s) {
      FixedBasePlain(s, base);
    } else if Acceptable(s, base) {
      AnnouncementCounts(s, base);
    }
  }

  lemma AppendDigit(s: string, c: char, base: nat, t: string)
    requires AllDigits(s, base) && IsXDigit(c) && DigitValue(c) < base && t == s + [c]
    ensures AllDigits(t, base) && Value(t, base) == Value(s, base) * base + DigitValue(c)
  {
    assert t[..|s|] == s && t[..|s| + 1] == t;
    ValueStep(t, |s|, base);
  }

  lemma EmptyValue(base: nat)
    ensures AllDigits("", base) && Value("", base) == 0
  {}

  lemma DigitsOfExample()
    ensures IsXDigit('0') && IsXDigit('b') && IsXDigit('1')
    ensures DigitValue('0') == 0 && DigitValue('b') == 11 && DigitValue('1') == 1
  {}

  lemma ValuesOfExample()
    ensures ParseDigits("1", 16) == Parsed(1) && ParseDigits("0b1", 16) == Parsed(0xb1)
  {
    DigitsOfExample();
    EmptyValue(16);
    hide Value, AllDigits, IsXDigit, DigitValue;
    AppendDigit("", '1', 16, "1");
    AppendDigit("", '0', 16, "0");
    AppendDigit("0", 'b', 16, "0b");
    AppendDigit("0b", '1', 16, "0b1");
  }

  /** The text 0b1 in base 16 is read as 1, not as 0xb1. */
  lemma FixedBaseLosesDigits()
    ensures ParseU64("0b1", 16) == Parsed(1) && ParseDigits("0b1", 16) == Parsed(0xb1)
  {
    ValuesOfExample();
    hide ParseDigits;
    var s := "0b1";
    assert s[2..] == "1" && s[..2] == "0b" && s[1] == 'b';
  }

  // ---------------------------------------------------------------------------
  // Signs and narrow types
  // ---------------------------------------------------------------------------

  /** The value of a 64-bit word read as a signed number. */
  function AsI64(u: nat): int { if u > I64_MAX then u - U64 else u }

  function Negate(u: nat): nat { (U64 - u) % U64 }

  /** The test on the negated word accepts exactly the magnitudes up to 2^63. */
  lemma NegationTestExact(u: nat)
    requires u < U64
    ensures AsI64(Negate(u)) > 0 <==> u > I64_MAX + 1
    ensures u <= I64_MAX + 1 ==> AsI64(Negate(u)) == 0 - u
  {}

  ghost function ParseI64(s: string, base: nat): Parse {
    var negative := "-" <= s;
    var r := ParseU64(if negative || "+" <= s then s[1..] else s, base);
    if r.Failed? then r
    else if negative then (if r.value <= I64_MAX + 1 then Parsed(-r.value) else Failed(ERANGE))
    else (if r.value <= I64_MAX then r else Failed(ERANGE))
  }

  method StrToI64WithBase(s: string, base: nat) returns (r: Parse)
    ensures r == ParseI64(s, base)
    ensures r.Parsed? ==> -I64_MAX - 1 <= r.value <= I64_MAX
  {
    var ures: nat;
    if StartsWith(s, "-") {
      r := DoStrToU64(s[1..], base);
      if r.Failed? { return r; }
      ures := r.value;
      NegationTestExact(ures);
      if AsI64(Negate(ures)) > 0 { return Failed(ERANGE); }
      ures := Negate(ures);
    } else {
      r := DoStrToU64(if StartsWith(s, "+") then s[1..] else s, base);
      if r.Failed? { return r; }
      ures := r.value;
      if ures > I64_MAX { return Failed(ERANGE); }
    }
    return Parsed(AsI64(ures));
  }

  ghost function ParseUnsigned(s: string, base: nat): Parse {
    var t := if "+" <= s then s[1..] else s;
    if "-" <= t then Failed(EINVAL) else ParseU64(t, base)
  }

  method StrToU64WithBase(s: string, base: nat) returns (r: Parse)
    ensures r == ParseUnsigned(s, base)
    ensures r.Parsed? ==> 0 <= r.value < U64
  {
    var t := if StartsWith(s, "+") then s[1..] else s;
    if StartsWith(t, "-") { return Failed(EINVAL); }
    r := DoStrToU64(t, base);
  }

  /** A value cut down to the low bits, and read as signed. */
  function Narrow(v: int, bits: nat): int {
    var low := v % Pow2(bits);
    if 2 * low >= Pow2(bits) then low - Pow2(bits) else low
  }

  lemma NarrowExact(v: int, bits: nat)
    requires bits > 0
    ensures Narrow(v, bits) == v <==> 0 - Pow2(bits - 1) <= v < Pow2(bits - 1)
  {
    if 0 <= v < Pow2(bits - 1) { QuotientUnique(v, Pow2(bits), 0, v); }
    if 0 - Pow2(bits - 1) <= v < 0 { QuotientUnique(v, Pow2(bits), -1, v + Pow2(bits)); }
  }

  /** The 8, 16 and 32-bit signed variants accept exactly the values of the narrow type. */
  method StrToIntWithBase(s: string, base: nat, bits: nat) returns (r: Parse)
    requires bits in {8, 16, 32}
    ensures var wide := ParseI64(s, base);
            r == if wide.Parsed? && !(0 - Pow2(bits - 1) <= wide.value < Pow2(bits - 1)) then Failed(ERANGE) else wide
  {
    r := StrToI64WithBase(s, base);
    if r.Failed? { return r; }
    NarrowExact(r.value, bits);
    if Narrow(r.value, bits) != r.value { return Failed(ERANGE); }
  }

  /** The 8, 16 and 32-bit unsigned variants accept exactly the values of the narrow type. */
  method StrToUIntWithBase(s: string, base: nat, bits: nat) returns (r: Parse)
    requires bits in {8, 16, 32}
    ensures var wide := ParseUnsigned(s, base);
            r == if wide.Parsed? && wide.value >= Pow2(bits) then Failed(ERANGE) else wide
  {
    r := StrToU64WithBase(s, base);
    if r.Failed? { return r; }
    if r.value < Pow2(bits) { QuotientUnique(r.value, Pow2(bits), 0, r.value); }
    if r.value % Pow2(bits) != r.value { return Failed(ERANGE); }
  }
}
