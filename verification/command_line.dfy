/** Splitting the kernel command line into parameters. */
module CommandLine {
  import opened Ctype

  // ---------------------------------------------------------------------------
  // Tokens
  // ---------------------------------------------------------------------------

  function Trim(s: string): (t: string)
    ensures |t| <= |s| && (t == "" || !IsSpace(t[0]))
    ensures s == "" || !IsSpace(s[0]) ==> t == s
  {
    if s != "" && IsSpace(s[0]) then Trim(s[1..]) else s
  }

  /** How many characters come before the first one that ends a value. */
  function ValueLength(s: string, quoted: bool): (n: nat)
    ensures n <= |s| && forall i :: 0 <= i < n ==> !Ends(s[i], quoted)
    ensures n < |s| ==> Ends(s[n], quoted)
  {
    if s == "" || Ends(s[0], quoted) then 0 else 1 + ValueLength(s[1..], quoted)
  }

  predicate Ends(c: char, quoted: bool) { if quoted then c == '"' else IsSpace(c) }

  /** Either the end marker, or a key with its value, possibly empty. */
  datatype Token = EndMarker(rest: string) | Pair(key: string, value: string, rest: string)

  /** The token at the start of s, of whose key the given part has been seen. */
  function Scan(s: string, key: string): (t: Token)
    ensures t.Pair? ==> |key| <= |t.key| && |t.rest| <= |s| && (t.key != key ==> |t.rest| < |s|)
    ensures t.EndMarker? ==> |t.rest| < |s|
  {
    if s == "" then Pair(key, "", "")
    else if "--" <= s then EndMarker(Trim(s[2..]))
    else if IsSpace(s[0]) then Pair(key, "", Trim(s))
    else if s[0] == '=' then
      var quoted := 1 < |s| && s[1] == '"';
      var text := if quoted then s[2..] else s[1..];
      var n := ValueLength(text, quoted);
      Pair(key, text[..n], text[n..])
    else Scan(s[1..], key + [s[0]])
  }

  /** Scanning, one character at a time. */
  lemma ScanUnfolds(s: string, key: string)
    requires s != "" && !("--" <= s) && !IsSpace(s[0])
    ensures s[0] != '=' ==> Scan(s, key) == Scan(s[1..], key + [s[0]])
    ensures s[0] == '=' ==>
              var quoted := 1 < |s| && s[1] == '"';
              var text := if quoted then s[2..] else s[1..];
              var n := ValueLength(text, quoted);
              Scan(s, key) == Pair(key, text[..n], text[n..])
  {}

  /** The pairs in order, and what is left for the init process. */
  function Split(s: string): (r: (seq<(string, string)>, string))
    decreases |s|
  {
    match Scan(s, "")
    case EndMarker(rest) => ([], rest)
    case Pair(key, value, rest) =>
      if key == "" then ([], rest)
      else
        var (more, tail) := Split(Trim(rest));
        ([(key, value)] + more, tail)
  }

  // ---------------------------------------------------------------------------
  // Lines put together from items
  // ---------------------------------------------------------------------------

  /** A key alone, with a value, or with a value in double quotes. */
  datatype Style = Bare | Plain | Quoted

  /** A command line in parts: items, each with the white space after it, and an optional tail. */
  datatype Line =
    | End
    | Tail(rest: string)
    | Item(key: string, style: Style, value: string, gap: string, next: Line)

  predicate Blank(s: string) { forall i :: 0 <= i < |s| ==> IsSpace(s[i]) }

  /** No white space and no equals sign, and no end marker. */
  predicate GoodKey(k: string) { k != "" && KeyChars(k) }

  predicate KeyChars(k: string) {
    && (forall i :: 0 <= i < |k| ==> !IsSpace(k[i]) && k[i] != '=')
    && (forall i :: 0 <= i < |k| - 1 ==> !(k[i] == '-' && k[i + 1] == '-'))
  }

  predicate GoodValue(style: Style, v: string) {
    match style
    case Bare => v == ""
    case Plain => (forall i :: 0 <= i < |v| ==> !IsSpace(v[i])) && (v == "" || v[0] != '"')
    case Quoted => '"' !in v
  }

  predicate GoodLine(l: Line) {
    match l
    case End => true
    case Tail(_) => true
    case Item(key, style, value, gap, next) =>
      GoodKey(key) && GoodValue(style, value) && Blank(gap) && (gap == "" ==> next == End) && GoodLine(next)
  }

  const QUOTE: string := ['"']

  function ValueText(style: Style, value: string): string {
    match style
    case Bare => ""
    case Plain => "=" + value
    case Quoted => "=" + QUOTE + value + QUOTE
  }

  function LineText(l: Line): string {
    match l
    case End => ""
    case Tail(rest) => "--" + rest
    case Item(key, style, value, gap, next) => key + (ValueText(style, value) + (gap + LineText(next)))
  }

  /** What is dispatched. The closing quote is not consumed with the value, so it comes back as a key of
      its own. */
  function Pairs(l: Line): seq<(string, string)> {
    match l
    case End => []
    case Tail(_) => []
    case Item(key, style, value, _, next) =>
      [(key, value)] + (if style == Quoted then [(QUOTE, "")] else []) + Pairs(next)
  }

  function TailOf(l: Line): string {
    match l
    case End => ""
    case Tail(rest) => Trim(rest)
    case Item(_, _, _, _, next) => TailOf(next)
  }

  lemma {:induction false} TrimBlank(a: string, b: string)
    requires Blank(a)
    ensures Trim(a + b) == Trim(b)
  {
    if a == "" {
      assert a + b == b;
    } else {
      assert (a + b)[1..] == a[1..] + b;
      TrimBlank(a[1..], b);
    }
  }

  /** A line never starts with white space. */
  lemma LineStart(l: Line)
    requires GoodLine(l)
    ensures Trim(LineText(l)) == LineText(l)
  {
    if l.Item? { assert LineText(l)[0] == l.key[0]; }
  }

  lemma {:induction false} ValueLengthExact(v: string, b: string, quoted: bool)
    requires forall i :: 0 <= i < |v| ==> !Ends(v[i], quoted)
    requires b == "" || Ends(b[0], quoted)
    ensures ValueLength(v + b, quoted) == |v|
  {
    if v == "" {
      assert v + b == b;
    } else {
      assert (v + b)[1..] == v[1..] + b;
      ValueLengthExact(v[1..], b, quoted);
    }
  }

  lemma ScanKeyChar(s: string, seen: string)
    requires s != "" && !IsSpace(s[0]) && s[0] != '='
    requires |s| > 1 ==> !(s[0] == '-' && s[1] == '-')
    ensures Scan(s, seen) == Scan(s[1..], seen + [s[0]])
  {
    if |s| > 1 { assert s[..2] != "--" by { assert s[..2][0] == s[0] && s[..2][1] == s[1]; } }
  }

  /** Scanning passes over a key up to what follows it. */
  lemma {:induction false} ScanKey(k: string, b: string, seen: string)
    requires KeyChars(k) && (b == "" || b[0] != '-')
    ensures Scan(k + b, seen) == Scan(b, seen + k)
  {
    hide Scan;
    if k == "" {
      assert k + b == b && seen + k == seen;
    } else {
      var s := k + b;
      assert s[1..] == k[1..] + b && s[0] == k[0];
      ScanKeyChar(s, seen);
      ScanKey(k[1..], b, seen + [k[0]]);
      assert seen + [k[0]] + k[1..] == seen + k;
    }
  }

  lemma ScanPlain(key: string, value: string, after: string)
    requires GoodValue(Plain, value) && (after == "" || IsSpace(after[0]))
    ensures Scan("=" + value + after, key) == Pair(key, value, after)
  {
    var text := value + after;
    var s := "=" + value + after;
    assert s[1..] == text && s[0] == '=';
    assert |s| > 1 ==> s[1] == text[0] != '"';
    assert !("--" <= s) && !IsSpace('=');
    ValueLengthExact(value, after, false);
    assert text[..|value|] == value && text[|value|..] == after;
    hide ValueLength, Scan, GoodValue;
    ScanUnfolds(s, key);
  }

  lemma ScanQuoted(key: string, value: string, after: string)
    requires GoodValue(Quoted, value)
    ensures Scan("=" + QUOTE + value + QUOTE + after, key) == Pair(key, value, QUOTE + after)
  {
    var s := "=" + QUOTE + value + QUOTE + after;
    assert s[2..] == value + (QUOTE + after);
    assert s[0] == '=' && s[1] == '"' && !("--" <= s);
    ValueLengthExact(value, QUOTE + after, true);
    var text := s[2..];
    assert text[..|value|] == value && text[|value|..] == QUOTE + after && !IsSpace('=');
    hide ValueLength, Scan, GoodValue;
    ScanUnfolds(s, key);
  }

  lemma ScanBare(key: string, after: string)
    requires after == "" || IsSpace(after[0])
    ensures Scan(after, key) == Pair(key, "", Trim(after))
  {
    assert !("--" <= after);
  }

  lemma TrimTwice(s: string)
    ensures Trim(Trim(s)) == Trim(s)
  {}

  /** An item yields its pair, and after a quoted value the closing quote remains. */
  lemma ScanItem(l: Line)
    requires GoodLine(l) && l.Item?
    ensures var t := Scan(LineText(l), "");
            && t.Pair? && t.key == l.key && t.value == l.value
            && Trim(t.rest) == if l.style == Quoted then QUOTE + (l.gap + LineText(l.next)) else LineText(l.next)
  {
    hide Scan, Trim, IsSpace;
    var after := l.gap + LineText(l.next);
    AfterItem(l);
    ScanKey(l.key, ValueText(l.style, l.value) + after, "");
    assert "" + l.key == l.key;
    match l.style
    case Bare =>
      assert ValueText(l.style, l.value) + after == after;
      ScanBare(l.key, after);
      TrimTwice(after);
    case Plain =>
      ScanPlain(l.key, l.value, after);
    case Quoted =>
      ScanQuoted(l.key, l.value, after);
      TrimQuote(after);
  }

  lemma TrimQuote(after: string)
    ensures Trim(QUOTE + after) == QUOTE + after
  {}

  lemma AfterItem(l: Line)
    requires GoodLine(l) && l.Item?
    ensures var after := l.gap + LineText(l.next);
            && (after == "" || (IsSpace(after[0]) && after[0] != '-')) && Trim(after) == LineText(l.next)
  {
    LineStart(l.next);
    TrimBlank(l.gap, LineText(l.next));
  }

  lemma SplitStep(s: string)
    requires Scan(s, "").Pair? && Scan(s, "").key != ""
    ensures var t := Scan(s, "");
            var (more, tail) := Split(Trim(t.rest));
            Split(s) == ([(t.key, t.value)] + more, tail)
  {}

  lemma SplitItem(l: Line)
    requires GoodLine(l) && l.Item?
    ensures var (more, tail) := Split(LineText(l.next));
            Split(LineText(l)) == ([(l.key, l.value)] + (if l.style == Quoted then [(QUOTE, "")] else []) + more, tail)
  {
    hide Scan, GoodLine, Split, LineText, Trim;
    ScanItem(l);
    KeyNotEmpty(l);
    SplitStep(LineText(l));
    var more := Split(LineText(l.next)).0;
    if l.style == Quoted {
      QuoteBeforeLine(l);
      assert [(l.key, l.value)] + ([(QUOTE, "")] + more) == [(l.key, l.value)] + [(QUOTE, "")] + more;
    } else {
      assert [(l.key, l.value)] + [] + more == [(l.key, l.value)] + more;
    }
  }

  lemma SplitTail(rest: string)
    ensures Split("--" + rest) == ([], Trim(rest))
  {
    assert ("--" + rest)[2..] == rest;
  }

  /** Every line put together from good items splits into exactly those items, in order, and its tail;
      only a quoted value brings one more pair, the closing quote. */
  lemma {:induction false} SplitInvertsJoin(l: Line)
    requires GoodLine(l)
    ensures Split(LineText(l)) == (Pairs(l), TailOf(l))
  {
    match l
    case End =>
    case Tail(rest) => SplitTail(rest);
    case Item(_, _, _, _, next) =>
      SplitInvertsJoin(next);
      SplitItem(l);
  }

  lemma QuoteBeforeLine(l: Line)
    requires GoodLine(l) && l.Item?
    ensures var s := QUOTE + (l.gap + LineText(l.next));
            var (more, tail) := Split(LineText(l.next));
            Split(s) == ([(QUOTE, "")] + more, tail)
  {
    hide Scan, GoodLine, LineText;
    var after := l.gap + LineText(l.next);
    AfterItem(l);
    QuoteAsKey(after);
    TrimTwice(after);
    SplitStep(QUOTE + after);
  }

  lemma KeyNotEmpty(l: Line)
    requires GoodLine(l) && l.Item?
    ensures l.key != ""
  {}

  lemma QuoteAsKey(after: string)
    requires after == "" || (IsSpace(after[0]) && after[0] != '-')
    ensures Scan(QUOTE + after, "") == Pair(QUOTE, "", Trim(after))
  {
    ScanKey(QUOTE, after, "");
    assert "" + QUOTE == QUOTE;
    ScanBare(QUOTE, after);
  }

  // ---------------------------------------------------------------------------
  // Lines in characters
  // ---------------------------------------------------------------------------

  /** An item, a quoted value, a switch, and what is left for the init process. */
  lemma LineSplits(k: string, v: string, quotedKey: string, quoted: string, switch: string, tail: string)
    requires GoodKey(k) && GoodKey(quotedKey) && GoodKey(switch)
    requires GoodValue(Plain, v) && '"' !in quoted && (tail == "" || !IsSpace(tail[0]))
    ensures var line := k + (("=" + v) + (" " + (quotedKey + (("=\"" + quoted + "\"")
                                                              + (" " + (switch + (" " + ("-- " + tail))))))));
            Split(line) == ([(k, v), (quotedKey, quoted), ("\"", ""), (switch, "")], tail)
  {
    var d := Item(switch, Bare, "", " ", Tail(" " + tail));
    var c := Item(quotedKey, Quoted, quoted, " ", d);
    var l := Item(k, Plain, v, " ", c);
    hide Split, GoodKey;
    GoodParts(k, v, quotedKey, quoted, switch, tail);
    assert LineText(d) == switch + (" " + ("-- " + tail)) by {
      assert "--" + (" " + tail) == "-- " + tail;
      assert "" + (" " + LineText(d.next)) == " " + LineText(d.next);
    }
    assert "=" + QUOTE + quoted + QUOTE == "=\"" + quoted + "\"";
    TrimBlank(" ", tail);
    assert TailOf(d) == TailOf(d.next) == tail;
    assert TailOf(l) == TailOf(l.next) == TailOf(c.next);
    LinePairs(l, c, d);
    SplitInvertsJoin(l);
  }

  lemma GoodParts(k: string, v: string, quotedKey: string, quoted: string, switch: string, tail: string)
    requires GoodKey(k) && GoodKey(quotedKey) && GoodKey(switch) && GoodValue(Plain, v) && '"' !in quoted
    ensures var d := Item(switch, Bare, "", " ", Tail(" " + tail));
            GoodLine(Item(k, Plain, v, " ", Item(quotedKey, Quoted, quoted, " ", d)))
  {
    hide GoodKey, IsSpace;
    var d := Item(switch, Bare, "", " ", Tail(" " + tail));
    var c := Item(quotedKey, Quoted, quoted, " ", d);
    OneBlank();
    assert GoodLine(d.next);
    assert GoodLine(d);
    assert GoodValue(Quoted, quoted);
    assert GoodLine(c);
  }

  lemma OneBlank()
    ensures Blank(" ")
  {}

  lemma LinePairs(l: Line, c: Line, d: Line)
    requires l.Item? && l.style == Plain && l.next == c && c.Item? && c.style == Quoted && c.next == d
    requires d.Item? && d.style == Bare && d.next.Tail?
    ensures Pairs(l) == [(l.key, l.value), (c.key, c.value), ("\"", ""), (d.key, d.value)]
  {
    assert Pairs(d) == [(d.key, d.value)] + [] + [];
    assert Pairs(c) == [(c.key, c.value)] + [("\"", "")] + Pairs(d);
    assert Pairs(l) == [(l.key, l.value)] + [] + Pairs(c);
  }

  /** Six characters separate items: space, tab, line feed, vertical tab, form feed and carriage return. */
  lemma Separators(c: char)
    ensures var (pairs, tail) := Split("a=1" + [c] + "b=2");
            tail == ""
            && pairs == if c in {' ', '\t', '\n', '\U{0B}', '\U{0C}', '\r'} then [("a", "1"), ("b", "2")]
                        else [("a", "1" + [c] + "b=2")]
  {
    var last := Item("b", Plain, "2", "", End);
    if IsSpace(c) {
      TwoItems(c, last);
      SplitInvertsJoin(Item("a", Plain, "1", [c], last));
    } else {
      OneItem(c);
      SplitInvertsJoin(Item("a", Plain, "1" + [c] + "b=2", "", End));
    }
    hide Split, LineText, GoodLine;
  }

  lemma TwoItems(c: char, last: Line)
    requires IsSpace(c) && last == Item("b", Plain, "2", "", End)
    ensures var l := Item("a", Plain, "1", [c], last);
            && GoodLine(l) && LineText(l) == "a=1" + [c] + "b=2" && TailOf(l) == ""
            && Pairs(l) == [("a", "1"), ("b", "2")]
  {
    assert LineText(last) == "b=2" && Pairs(last) == [("b", "2")] && GoodLine(last);
  }

  lemma OneItem(c: char)
    requires !IsSpace(c)
    ensures var l := Item("a", Plain, "1" + [c] + "b=2", "", End);
            && GoodLine(l) && LineText(l) == "a=1" + [c] + "b=2" && TailOf(l) == ""
            && Pairs(l) == [("a", "1" + [c] + "b=2")]
  {}
}
