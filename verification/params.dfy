/** Kernel parameters and the command line that sets them. */
module Params {
  import opened Options
  import opened Words
  import opened Ctype
  import opened Conversions
  import opened IntegerText
  import opened FormatRender
  import opened FormatRoundTrip
  import opened CommandLine

  type Width = w: nat | w == 8 || w == 16 || w == 32 || w == 64 witness 8

  datatype ParamType = SignedParam(bits: Width) | UnsignedParam(bits: Width) | BoolParam | StringParam
  datatype ParamValue = Number(n: int) | Flag(b: bool) | Str(s: string)
  datatype Param = Param(name: string, paramType: ParamType, value: ParamValue)
  // ---------------------------------------------------------------------------
  // Names
  // ---------------------------------------------------------------------------

  function DashToUnderscore(c: char): char { if c == '-' then '_' else c }

  /** The comparison of the source, character by character. */
  predicate SameName(a: string, b: string) {
    |a| == |b| && forall i :: 0 <= i < |a| ==> DashToUnderscore(a[i]) == DashToUnderscore(b[i])
  }

  /** A dash and an underscore are the same; everything else must be equal. */
  lemma SameNameExact(a: string, b: string)
    ensures SameName(a, b) <==>
            |a| == |b| && forall i :: 0 <= i < |a| ==> a[i] == b[i] || (a[i] in "-_" && b[i] in "-_")
  {}

  method NamesEqual(a: string, b: string) returns (equal: bool)
    ensures equal == SameName(a, b)
  {
    if |a| != |b| { return false; }
    for i := 0 to |a|
      invariant forall j :: 0 <= j < i ==> DashToUnderscore(a[j]) == DashToUnderscore(b[j])
    {
      if DashToUnderscore(a[i]) != DashToUnderscore(b[i]) { return false; }
    }
    return true;
  }

  /** The first parameter of that name. */
  function FindParam(name: string, params: seq<Param>): (r: Option<nat>)
    ensures r.Some? ==> r.value < |params| && SameName(params[r.value].name, name)
    ensures r.Some? ==> forall i :: 0 <= i < r.value ==> !SameName(params[i].name, name)
    ensures r.None? ==> forall i :: 0 <= i < |params| ==> !SameName(params[i].name, name)
  {
    if params == [] then None
    else
      match FindParam(name, params[..|params| - 1])
      case Some(i) => Some(i)
      case None => if SameName(params[|params| - 1].name, name) then Some(|params| - 1) else None
  }

  // ---------------------------------------------------------------------------
  // Values
  // ---------------------------------------------------------------------------

  function Lower(s: string): (t: string)
    ensures |t| == |s| && forall i :: 0 <= i < |s| ==> t[i] == ToLower(s[i])
  {
    if s == "" then "" else Lower(s[..|s| - 1]) + [ToLower(s[|s| - 1])]
  }

  const BOOL_OPTIONS: seq<string> := ["y", "t", "on", "1", "n", "f", "off", "0"]
  const NUM_TRUE_OPTIONS := 4

  method EqualsCaseless(a: string, b: string) returns (equal: bool)
    ensures equal <==> Lower(a) == Lower(b)
  {
    if |a| != |b| { return false; }
    for i := 0 to |a|
      invariant forall j :: 0 <= j < i ==> ToLower(a[j]) == ToLower(b[j])
    {
      if ToLower(a[i]) != ToLower(b[i]) {
        assert Lower(a)[i] != Lower(b)[i];
        return false;
      }
    }
    return true;
  }

  ghost predicate IsOption(s: string, from: nat, to: nat)
    requires to <= |BOOL_OPTIONS|
  {
    exists j :: from <= j < to && Lower(s) == BOOL_OPTIONS[j]
  }

  /** Any of the first four spellings means true, any of the last four false, in either case of letters. */
  ghost function ParseBool(s: string): Option<bool> {
    if IsOption(s, 0, 4) then Some(true) else if IsOption(s, 4, 8) then Some(false) else None
  }

  lemma {:induction false} LowerFixed(s: string)
    requires forall i :: 0 <= i < |s| ==> !IsUpper(s[i])
    ensures Lower(s) == s
  {
    assert forall j :: 0 <= j < |s| ==> Lower(s)[j] == s[j];
  }

  /** Character by character in either case. */
  predicate EitherCase(s: string, lower: string, upper: string)
    requires |lower| == |upper|
  {
    |s| == |lower| && forall i :: 0 <= i < |s| ==> s[i] == lower[i] || s[i] == upper[i]
  }

  lemma LowerIs(s: string, lower: string, upper: string)
    requires |lower| == |upper|
    requires forall i :: 0 <= i < |lower| ==>
               if 'a' <= lower[i] <= 'z' then upper[i] as int == lower[i] as int - 32
               else lower[i] == upper[i] && IsDigit(lower[i])
    ensures Lower(s) == lower <==> EitherCase(s, lower, upper)
  {
    if EitherCase(s, lower, upper) {
      assert forall i :: 0 <= i < |s| ==> Lower(s)[i] == lower[i];
    }
    if Lower(s) == lower {
      forall i | 0 <= i < |s| ensures s[i] == lower[i] || s[i] == upper[i] { assert Lower(s)[i] == ToLower(s[i]); }
    }
  }

  lemma OptionsListed(s: string)
    ensures IsOption(s, 0, 4) <==> Lower(s) == "y" || Lower(s) == "t" || Lower(s) == "on" || Lower(s) == "1"
    ensures IsOption(s, 4, 8) <==> Lower(s) == "n" || Lower(s) == "f" || Lower(s) == "off" || Lower(s) == "0"
  {
    hide Lower;
    var o := BOOL_OPTIONS;
    assert o[0] == "y" && o[1] == "t" && o[2] == "on" && o[3] == "1";
    assert o[4] == "n" && o[5] == "f" && o[6] == "off" && o[7] == "0";
  }

  /** The spellings one by one. */
  lemma BoolSpellings(s: string)
    ensures ParseBool(s) == Some(true) <==>
            EitherCase(s, "y", "Y") || EitherCase(s, "t", "T") || EitherCase(s, "on", "ON") || s == "1"
    ensures ParseBool(s) == Some(false) <==>
            EitherCase(s, "n", "N") || EitherCase(s, "f", "F") || EitherCase(s, "off", "OFF") || s == "0"
  {
    OptionsListed(s);
    LowerIs(s, "y", "Y"); LowerIs(s, "t", "T"); LowerIs(s, "on", "ON"); LowerIs(s, "1", "1");
    LowerIs(s, "n", "N"); LowerIs(s, "f", "F"); LowerIs(s, "off", "OFF"); LowerIs(s, "0", "0");
    assert EitherCase(s, "1", "1") <==> s == "1";
    assert EitherCase(s, "0", "0") <==> s == "0";
    hide Lower, EitherCase, IsOption;
  }

  method StrToBool(s: string) returns (r: Option<bool>)
    ensures r == ParseBool(s)
  {
    hide Lower;
    var i := 0;
    while i < |BOOL_OPTIONS|
      invariant 0 <= i <= |BOOL_OPTIONS|
      invariant forall j :: 0 <= j < i ==> Lower(s) != BOOL_OPTIONS[j]
    {
      var equal := EqualsCaseless(s, BOOL_OPTIONS[i]);
      LowerFixed(BOOL_OPTIONS[i]);
      if equal { return Some(i < NUM_TRUE_OPTIONS); }
      i := i + 1;
    }
    return None;
  }

  predicate AllowsEmpty(t: ParamType) { t.BoolParam? }

  /** The value that the text sets, if the parameter takes it. */
  ghost function ValueSet(t: ParamType, s: string): Option<ParamValue> {
    match t
    case SignedParam(bits) =>
      var p := ParseI64(s, 0);
      if p.Parsed? && 0 - Pow2(bits - 1) <= p.value < Pow2(bits - 1) then Some(Number(p.value)) else None
    case UnsignedParam(bits) =>
      var p := ParseUnsigned(s, 0);
      if p.Parsed? && p.value < Pow2(bits) then Some(Number(p.value)) else None
    case BoolParam =>
      var b := if s == "" then Some(true) else ParseBool(s);
      if b.Some? then Some(Flag(b.value)) else None
    case StringParam => Some(Str(s))
  }

  method SetParam(t: ParamType, s: string) returns (r: Option<ParamValue>)
    ensures r == ValueSet(t, s)
  {
    match t
    case SignedParam(bits) =>
      var p: Parse;
      if bits == 64 { p := StrToI64WithBase(s, 0); SignedFits(); } else { p := StrToIntWithBase(s, 0, bits); }
      return if p.Parsed? then Some(Number(p.value)) else None;
    case UnsignedParam(bits) =>
      var p: Parse;
      if bits == 64 { p := StrToU64WithBase(s, 0); SignedFits(); } else { p := StrToUIntWithBase(s, 0, bits); }
      return if p.Parsed? then Some(Number(p.value)) else None;
    case BoolParam =>
      if s == "" { return Some(Flag(true)); }
      var b := StrToBool(s);
      return if b.Some? then Some(Flag(b.value)) else None;
    case StringParam =>
      return Some(Str(s));
  }

  lemma SignedFits()
    ensures Pow2(64) == U64 && Pow2(63) == I64_MAX + 1
  {
    Pow2Values();
  }

  /** One pair from the command line. A value that is refused, or missing where one is needed, changes nothing. */
  ghost function Apply(params: seq<Param>, pair: (string, string)): (r: seq<Param>)
    ensures |r| == |params|
    ensures forall i :: 0 <= i < |params| ==> r[i].name == params[i].name && r[i].paramType == params[i].paramType
  {
    match FindParam(pair.0, params)
    case None => params
    case Some(i) =>
      if pair.1 == "" && !AllowsEmpty(params[i].paramType) then params
      else
        match ValueSet(params[i].paramType, pair.1)
        case None => params
        case Some(v) => params[i := params[i].(value := v)]
  }

  /** A key alone: true for a switch, and nothing at all for other parameters. */
  lemma EmptyValue(params: seq<Param>, key: string, i: nat)
    requires FindParam(key, params) == Some(i)
    ensures i < |params|
    ensures Apply(params, (key, ""))
            == if params[i].paramType.BoolParam? then params[i := params[i].(value := Flag(true))] else params
  {
    hide FindParam, ParseI64, ParseUnsigned, ParseBool, Pow2;
  }

  lemma DashSets(before: ParamValue)
    ensures Apply([Param("foo_bar", StringParam, before)], ("foo-bar", "1"))
            == [Param("foo_bar", StringParam, Str("1"))]
  {
    var params := [Param("foo_bar", StringParam, before)];
    SameNameExact("foo_bar", "foo-bar");
    hide SameName;
    assert FindParam("foo-bar", params) == Some(0);
    hide FindParam;
  }

  ghost function ApplyAll(params: seq<Param>, pairs: seq<(string, string)>): (r: seq<Param>)
    ensures |r| == |params|
    decreases |pairs|
  {
    if pairs == [] then params else ApplyAll(Apply(params, pairs[0]), pairs[1..])
  }

  /** The pairs whose key names no parameter. */
  ghost function Unknown(params: seq<Param>, pairs: seq<(string, string)>): seq<(string, string)>
    decreases |pairs|
  {
    if pairs == [] then []
    else
      (if FindParam(pairs[0].0, params).None? then [pairs[0]] else [])
      + Unknown(Apply(params, pairs[0]), pairs[1..])
  }

  // ---------------------------------------------------------------------------
  // cmdline_parse
  // ---------------------------------------------------------------------------

  method CmdlineTrim(s: string) returns (t: string)
    ensures t == Trim(s)
  {
    t := s;
    while t != "" && IsSpace(t[0])
      invariant Trim(t) == Trim(s)
      decreases |t|
    {
      t := t[1..];
    }
  }

  method FindValueEnd(s: string, quoted: bool) returns (n: nat)
    ensures n == ValueLength(s, quoted)
  {
    n := 0;
    while n < |s| && !Ends(s[n], quoted)
      invariant n <= ValueLength(s, quoted) && ValueLength(s, quoted) == n + ValueLength(s[n..], quoted)
    {
      assert s[n..][1..] == s[n + 1..];
      n := n + 1;
    }
  }

  /** The inner loop: one key and its value, or the end marker. */
  method NextToken(line: string) returns (t: Token)
    ensures t == Scan(line, "")
  {
    hide IsSpace, Trim, ValueLength, Scan, StartsWith;
    var cmdline, key := line, "";
    while cmdline != ""
      invariant Scan(line, "") == Scan(cmdline, key)
      decreases |cmdline|
    {
      if StartsWith(cmdline, "--") {
        ScanMarker(cmdline, key);
        var rest := CmdlineTrim(cmdline[2..]);
        return EndMarker(rest);
      }
      if IsSpace(cmdline[0]) {
        ScanBare(key, cmdline);
        var rest := CmdlineTrim(cmdline);
        return Pair(key, "", rest);
      }
      ScanUnfolds(cmdline, key);
      if cmdline[0] == '=' {
        var text, quoted := cmdline[1..], false;
        if text != "" && text[0] == '"' { text, quoted := cmdline[2..], true; }
        var n := FindValueEnd(text, quoted);
        return Pair(key, text[..n], text[n..]);
      }
      key, cmdline := key + [cmdline[0]], cmdline[1..];
    }
    ScanBare(key, "");
    return Pair(key, "", "");
  }

  lemma ScanMarker(s: string, key: string)
    requires "--" <= s
    ensures Scan(s, key) == EndMarker(Trim(s[2..]))
  {}

  method LookUp(name: string, params: array<Param>) returns (r: Option<nat>)
    ensures r == FindParam(name, params[..])
  {
    var i := 0;
    while i < params.Length
      invariant 0 <= i <= params.Length && FindParam(name, params[..i]) == None
    {
      var equal := NamesEqual(params[i].name, name);
      assert params[..i + 1][..i] == params[..i];
      if equal {
        FoundEarly(name, params[..], i);
        return Some(i);
      }
      i := i + 1;
    }
    assert params[..i] == params[..];
    return None;
  }

  lemma FoundEarly(name: string, params: seq<Param>, i: nat)
    requires i < |params| && SameName(params[i].name, name) && FindParam(name, params[..i]) == None
    ensures FindParam(name, params) == Some(i)
  {
    forall j | 0 <= j < i ensures !SameName(params[j].name, name) { assert params[..i][j] == params[j]; }
  }

  /** Set the parameter of that name, if there is one and it takes the value. */
  method Dispatch(key: string, value: string, params: array<Param>) returns (known: bool)
    modifies params
    ensures params[..] == Apply(old(params[..]), (key, value))
    ensures known <==> FindParam(key, old(params[..])).Some?
  {
    hide ValueSet, FindParam;
    var i := LookUp(key, params);
    if i.None? { return false; }
    var p := params[i.value];
    if value != "" || AllowsEmpty(p.paramType) {
      var v := SetParam(p.paramType, value);
      if v.Some? { params[i.value] := p.(value := v.value); }
    }
    return true;
  }

  /** What one round contributes. */
  lemma OneRound(line: string, params: seq<Param>)
    requires Scan(line, "").Pair? && Scan(line, "").key != ""
    ensures var t := Scan(line, "");
            var (pairs, tail) := Split(line);
            var (more, tail') := Split(Trim(t.rest));
            var next := Apply(params, (t.key, t.value));
            && tail == tail'
            && ApplyAll(params, pairs) == ApplyAll(next, more)
            && Unknown(params, pairs) ==
               (if FindParam(t.key, params).None? then [(t.key, t.value)] else []) + Unknown(next, more)
  {
    hide Apply, Scan, FindParam, Trim;
    SplitStep(line);
    var t := Scan(line, "");
    var more := Split(Trim(t.rest)).0;
    assert ([(t.key, t.value)] + more)[1..] == more;
  }

  lemma LastRound(line: string, params: seq<Param>)
    requires var t := Scan(line, ""); t.EndMarker? || t.key == ""
    ensures Split(line) == ([], Scan(line, "").rest) && ApplyAll(params, []) == params && Unknown(params, []) == []
  {}

  /** Terminates on every line, because each round that goes on consumes text. */
  method CmdlineParse(line: string, params: array<Param>) returns (rest: string, unknown: seq<(string, string)>)
    modifies params
    ensures var (pairs, tail) := Split(Trim(line));
            rest == tail && params[..] == ApplyAll(old(params[..]), pairs) && unknown == Unknown(old(params[..]), pairs)
  {
    hide Apply, Scan, FindParam, Trim, ApplyAll, Unknown, IsSpace, Split;
    var cmdline := CmdlineTrim(line);
    unknown := [];
    ghost var all := Split(cmdline);
    ghost var before := params[..];
    while true
      invariant all.1 == Split(cmdline).1
      invariant ApplyAll(before, all.0) == ApplyAll(params[..], Split(cmdline).0)
      invariant Unknown(before, all.0) == unknown + Unknown(params[..], Split(cmdline).0)
      decreases |cmdline|
    {
      var t := NextToken(cmdline);
      if t.EndMarker? || t.key == "" {
        LastRound(cmdline, params[..]);
        return t.rest, unknown;
      }
      OneRound(cmdline, params[..]);
      var known := Dispatch(t.key, t.value, params);
      if !known { unknown := unknown + [(t.key, t.value)]; }
      cmdline := CmdlineTrim(t.rest);
    }
  }
}
