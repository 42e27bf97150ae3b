/** Looking an address up in the emitted tables. */
module Symbols {
  import opened Tokens
  import opened TokenTables
  import opened SymbolTables
  import opened Words

  const NAME_BUFFER: nat := 128

  datatype Lookup = Found(offset: nat) | InvalidAddress | NoSymbols

  // ---------------------------------------------------------------------------
  // Decoding names
  // ---------------------------------------------------------------------------

  /** The length at the cursor, and the cursor behind it. */
  method GetCompressedSymbolLength(names: seq<nat>, cursor: nat) returns (len: nat, next: nat)
    requires cursor < |names| && (names[cursor] >= 128 ==> cursor + 1 < |names|)
    requires names[cursor] < 256
    ensures (len, next) == DecodeLength(names, cursor)
  {
    len, next := names[cursor], cursor + 1;
    if len >= LEB128_HAS_NEXT_BYTE {
      len := len % 128 + names[next] * 128;
      next := next + 1;
    }
  }

  function DecodeLength(names: seq<nat>, cursor: nat): (nat, nat)
    requires cursor < |names| && (names[cursor] >= 128 ==> cursor + 1 < |names|)
  {
    if names[cursor] >= 128
    then (names[cursor] % 128 + names[cursor + 1] * 128, cursor + 2)
    else (names[cursor], cursor + 1)
  }

  /** Decoding a length inverts encoding it, for one byte and for two. */
  lemma LengthDecodes(names: seq<nat>, cursor: nat, n: nat)
    requires n <= Leb128Max(2) && cursor + |EncodeLength(n)| <= |names|
    requires forall i :: 0 <= i < |EncodeLength(n)| ==> names[cursor + i] == EncodeLength(n)[i]
    ensures cursor < |names| && names[cursor] < 256 && (names[cursor] >= 128 ==> cursor + 1 < |names|)
    ensures DecodeLength(names, cursor) == (n, cursor + |EncodeLength(n)|)
  {
    assert names[cursor + 0] == EncodeLength(n)[0];
    if n > 127 { assert names[cursor + 1] == EncodeLength(n)[1]; }
  }

  lemma NameDecodes(streams: seq<Stream>, k: nat)
    requires k < |streams| && |streams[k]| <= Leb128Max(2)
    ensures var names, at := EncodeNames(streams), NameOffset(streams, k);
            && at < |names| && names[at] < 256 && (names[at] >= 128 ==> at + 1 < |names|)
            && var (len, next) := DecodeLength(names, at);
               && len == |streams[k]| && next + len == NameOffset(streams, k + 1) <= |names|
               && forall i :: 0 <= i < len ==> names[next + i] == streams[k][i]
  {
    hide EncodeNames, EncodeLength;
    NamePlace(streams, k);
    var names, at, prefix := EncodeNames(streams), NameOffset(streams, k), EncodeLength(|streams[k]|);
    var name := EncodeName(streams[k]);
    forall i | 0 <= i < |prefix| ensures names[at + i] == prefix[i] { assert name[i] == prefix[i]; }
    LengthDecodes(names, at, |streams[k]|);
    forall i | 0 <= i < |streams[k]| ensures names[at + |prefix| + i] == streams[k][i] {
      assert name[|prefix| + i] == streams[k][i];
      assert names[at + (|prefix| + i)] == name[|prefix| + i];
    }
  }

  lemma MarkerAt(t: Tables, streams: seq<Stream>, index: nat)
    requires HasNames(t, streams) && index < |streams|
    ensures index / 256 < |t.nameOffsets| && t.nameOffsets[index / 256] == NameOffset(streams, 256 * (index / 256))
    ensures t.names == EncodeNames(streams)
    ensures forall k :: 0 <= k < |streams| ==> |streams[k]| <= Leb128Max(2)
  {
    hide EncodeNames, NameOffset;
    assert index / 256 < (|streams| + 255) / 256;
  }

  /** The cursor of a name: a marker every 256 names, and a walk over the rest. */
  method GetCompressedSymbolNameCursor(t: Tables, index: nat, ghost streams: seq<Stream>) returns (cursor: nat)
    requires HasNames(t, streams) && index < |streams|
    ensures cursor == NameOffset(streams, index)
  {
    hide EncodeNames, HasNames, NameOffset;
    MarkerAt(t, streams, index);
    var block, steps := index / 256, index % 256;
    cursor := t.nameOffsets[block];
    var i := 0;
    while i < steps
      invariant 0 <= i <= steps && cursor == NameOffset(streams, 256 * block + i)
    {
      NameDecodes(streams, 256 * block + i);
      var len, next := GetCompressedSymbolLength(t.names, cursor);
      cursor := next + len;
      i := i + 1;
    }
  }

  // ---------------------------------------------------------------------------
  // Expanding tokens
  // ---------------------------------------------------------------------------

  lemma {:induction false} NoNulInToken(best: seq<Stream>, x: nat)
    requires Layered(best) && Defined(best, x) && !Literal(best, 0)
    ensures 0 !in ExpandToken(best, x)
    decreases Rank(best, x)
  {
    if !Literal(best, x) {
      NoNulInToken(best, best[x][0]);
      NoNulInToken(best, best[x][1]);
    }
  }

  /** Copy one token text up to its terminator. */
  method CopyToken(table: seq<nat>, at: nat, out: array<nat>, start: nat, ghost text: Stream) returns (end: nat)
    requires at + |text| < |table| && table[at + |text|] == 0 && 0 !in text
    requires forall i :: 0 <= i < |text| ==> table[at + i] == text[i]
    requires start + |text| <= out.Length
    modifies out
    ensures end == start + |text| && out[..end] == old(out[..start]) + text
  {
    forall j | at <= j < at + |text| ensures table[j] != 0 { assert table[at + (j - at)] == text[j - at]; }
    var token := at;
    end := start;
    while table[token] != 0
      invariant at <= token <= at + |text| && end == start + (token - at)
      invariant out[..end] == old(out[..start]) + text[..token - at]
      decreases at + |text| - token
    {
      ghost var i := token - at;
      assert table[at + i] == text[i];
      assert text[..i + 1] == text[..i] + [text[i]];
      out[end] := table[token];
      end, token := end + 1, token + 1;
    }
    assert text[..token - at] == text;
  }

  lemma {:induction false} ExpandSplit(best: seq<Stream>, ts: Stream, i: nat)
    requires Layered(best) && AllDefined(best, ts) && i < |ts|
    ensures AllDefined(best, ts[..i]) && AllDefined(best, ts[..i + 1])
    ensures Expand(best, ts[..i + 1]) == Expand(best, ts[..i]) + ExpandToken(best, ts[i])
    ensures |Expand(best, ts[..i + 1])| <= |Expand(best, ts)|
  {
    var l, m, r := ts[..i], [ts[i]], ts[i + 1..];
    assert ts[..i + 1] == l + m && ts == ts[..i + 1] + r && m == m + [];
    ExpandFirst(best, ts[i], []);
    assert m + [] == m && ExpandToken(best, ts[i]) + [] == ExpandToken(best, ts[i]);
    ExpandConcat(best, l, m);
    ExpandConcat(best, ts[..i + 1], r);
  }

  /** The texts of the first i tokens fill the buffer up to end. */
  ghost predicate WrittenSoFar(best: seq<Stream>, ts: Stream, i: nat, out: seq<nat>, end: nat) {
    && Layered(best) && AllDefined(best, ts) && i <= |ts| && AllDefined(best, ts[..i])
    && |Expand(best, ts)| < |out| && end == |Expand(best, ts[..i])| < |out|
    && out[..end] == Expand(best, ts[..i])
  }

  /** Copy the text of token i of a stream behind the texts of those before it. */
  method AppendToken(t: Tables, slot: nat, out: array<nat>, start: nat,
                     ghost best: seq<Stream>, ghost ts: Stream, ghost i: nat)
    returns (end: nat)
    requires HasTokens(t, best) && i < |ts| && slot == ts[i] && WrittenSoFar(best, ts, i, out[..], start)
    modifies out
    ensures WrittenSoFar(best, ts, i + 1, out[..], end)
  {
    StepFacts(t, best, ts, i, out[..], start);
    hide HasTokens, WrittenSoFar, ExpandToken, Expand, Layered, AllDefined, Defined;
    assert out[..][..start] == out[..start];
    end := CopyToken(t.tokenTable, t.tokenOffsets[slot], out, start, ExpandToken(best, ts[i]));
    assert out[..][..end] == out[..end];
    StepDone(best, ts, i, out[..], end);
  }

  lemma StepFacts(t: Tables, best: seq<Stream>, ts: Stream, i: nat, out: seq<nat>, start: nat)
    requires HasTokens(t, best) && i < |ts| && WrittenSoFar(best, ts, i, out, start)
    ensures Layered(best) && AllDefined(best, ts) && AllDefined(best, ts[..i]) && AllDefined(best, ts[..i + 1])
    ensures ts[i] < SLOTS == |t.tokenOffsets| && Defined(best, ts[i])
    ensures var at, text := t.tokenOffsets[ts[i]], ExpandToken(best, ts[i]);
            && at + |text| < |t.tokenTable| && t.tokenTable[at + |text|] == 0 && 0 !in text
            && (forall j :: 0 <= j < |text| ==> t.tokenTable[at + j] == text[j])
            && Expand(best, ts[..i + 1]) == Expand(best, ts[..i]) + text
    ensures start == |Expand(best, ts[..i])| && out[..start] == Expand(best, ts[..i])
    ensures |Expand(best, ts[..i + 1])| <= |Expand(best, ts)| < |out|
  {
    assert Layered(best) && !Literal(best, 0) && AllDefined(best, ts);
    hide TokenBytes, ExpandToken, Expand, Layered, AllDefined, Literal;
    ExpandSplit(best, ts, i);
    TokenReady(best, ts, i);
  }

  lemma StepDone(best: seq<Stream>, ts: Stream, i: nat, out: seq<nat>, end: nat)
    requires Layered(best) && AllDefined(best, ts) && i < |ts| && AllDefined(best, ts[..i + 1])
    requires |Expand(best, ts[..i + 1])| <= |Expand(best, ts)| < |out|
    requires end == |Expand(best, ts[..i + 1])| && out[..end] == Expand(best, ts[..i + 1])
    ensures WrittenSoFar(best, ts, i + 1, out, end)
  {}

  /** Length and tokens of a name are at its offset in the tables. */
  lemma NameReady(t: Tables, streams: seq<Stream>, k: nat)
    requires HasNames(t, streams) && k < |streams|
    ensures var at := NameOffset(streams, k);
            && at < |t.names| && t.names[at] < 256 && (t.names[at] >= 128 ==> at + 1 < |t.names|)
            && var (len, next) := DecodeLength(t.names, at);
               && len == |streams[k]| && next + len <= |t.names|
               && forall i :: 0 <= i < len ==> t.names[next + i] == streams[k][i]
  {
    hide EncodeNames, HasNames, NameOffset;
    MarkerAt(t, streams, k);
    NameDecodes(streams, k);
  }

  lemma TokensLayered(t: Tables, best: seq<Stream>)
    requires HasTokens(t, best)
    ensures Layered(best)
  {
    hide TokenBytes, Layered;
  }

  /** Expand the name at the cursor into the buffer. */
  method UncompressSymbol(t: Tables, cursor: nat, out: array<nat>,
                          ghost best: seq<Stream>, ghost streams: seq<Stream>, ghost k: nat)
    requires HasNames(t, streams) && HasTokens(t, best) && k < |streams| && AllDefined(best, streams[k])
    requires cursor == NameOffset(streams, k) && |Expand(best, streams[k])| < out.Length
    modifies out
    ensures var name := Expand(best, streams[k]);
            out[..|name| + 1] == name + [0]
  {
    hide EncodeNames, HasNames, HasTokens, NameOffset, Expand, Layered, AllDefined, DecodeLength;
    NameReady(t, streams, k);
    TokensLayered(t, best);
    var len, at := GetCompressedSymbolLength(t.names, cursor);
    var end := ExpandStream(t, at, len, out, best, streams[k]);
    out[end] := 0;
    assert out[..end + 1] == out[..end] + [0];
  }

  /** The texts of a whole stream, one after the other. */
  method ExpandStream(t: Tables, at: nat, len: nat, out: array<nat>, ghost best: seq<Stream>, ghost ts: Stream)
    returns (end: nat)
    requires HasTokens(t, best) && AllDefined(best, ts) && |Expand(best, ts)| < out.Length
    requires len == |ts| && at + len <= |t.names| && forall i :: 0 <= i < len ==> t.names[at + i] == ts[i]
    modifies out
    ensures end == |Expand(best, ts)| < out.Length && out[..end] == Expand(best, ts)
  {
    NothingYet(best, ts, out[..]);
    hide HasTokens, WrittenSoFar, Expand, Layered, AllDefined;
    var i := 0;
    end := 0;
    while i < len
      invariant 0 <= i <= len && WrittenSoFar(best, ts, i, out[..], end)
    {
      end := AppendToken(t, t.names[at + i], out, end, best, ts, i);
      i := i + 1;
    }
    AllWritten(best, ts, out[..], end);
    assert out[..][..end] == out[..end];
  }

  lemma AllWritten(best: seq<Stream>, ts: Stream, out: seq<nat>, end: nat)
    requires WrittenSoFar(best, ts, |ts|, out, end)
    ensures Layered(best) && AllDefined(best, ts) && end == |Expand(best, ts)| < |out| && out[..end] == Expand(best, ts)
  {
    assert ts[..|ts|] == ts;
  }

  /** The text of the next token is in the table, terminated. */
  lemma TokenReady(best: seq<Stream>, ts: Stream, i: nat)
    requires Layered(best) && AllDefined(best, ts) && i < |ts| && !Literal(best, 0)
    ensures ts[i] < SLOTS && Defined(best, ts[i])
    ensures var table, at, text := TokenBytes(best, SLOTS), |TokenBytes(best, ts[i])|, ExpandToken(best, ts[i]);
            && at + |text| < |table| && table[at + |text|] == 0 && 0 !in text
            && forall j :: 0 <= j < |text| ==> table[at + j] == text[j]
  {
    hide TokenBytes;
    SlotReady(best, ts, i);
    TokenPlace(best, ts[i]);
  }

  lemma NothingYet(best: seq<Stream>, ts: Stream, out: seq<nat>)
    requires Layered(best) && AllDefined(best, ts) && |Expand(best, ts)| < |out|
    ensures WrittenSoFar(best, ts, 0, out, 0)
  {}

  lemma SlotReady(best: seq<Stream>, ts: Stream, i: nat)
    requires Layered(best) && AllDefined(best, ts) && i < |ts| && !Literal(best, 0)
    ensures ts[i] < SLOTS && SlotText(best, ts[i]) == ExpandToken(best, ts[i]) && 0 !in ExpandToken(best, ts[i])
  {
    NoNulInToken(best, ts[i]);
  }

  // ---------------------------------------------------------------------------
  // The lookup
  // ---------------------------------------------------------------------------

  /** The last entry at or below the address, which the first one is. */
  method FindAddress(addresses: seq<nat>, rel: nat) returns (begin: nat)
    requires addresses != [] && addresses[0] <= rel
    requires forall i, j :: 0 <= i < j < |addresses| ==> addresses[i] <= addresses[j]
    ensures begin < |addresses| && addresses[begin] <= rel
    ensures forall i :: begin < i < |addresses| ==> rel < addresses[i]
  {
    begin := 0;
    var end := |addresses|;
    while end - begin > 1
      invariant 0 <= begin < end <= |addresses| && addresses[begin] <= rel
      invariant end < |addresses| ==> rel < addresses[end]
    {
      var i := begin + (end - begin) / 2;
      if addresses[i] <= rel { begin := i; } else { end := i; }
    }
  }

  /** Index k is the last symbol at or below the address. */
  ghost predicate LastAtOrBelow(symbols: seq<Symbol>, k: nat, address: int) {
    k < |symbols| && symbols[k].address <= address && forall i :: k < i < |symbols| ==> address < symbols[i].address
  }

  /** The address that 32 bits of distance from the first symbol leave of an address. */
  function Seen(symbols: seq<Symbol>, address: int): int
    requires symbols != []
  {
    symbols[0].address + (address - symbols[0].address) % U32
  }

  /** It is the address itself exactly from the first symbol on for 4 GiB. */
  lemma SeenExact(symbols: seq<Symbol>, address: int)
    requires symbols != []
    ensures Seen(symbols, address) == address <==> symbols[0].address <= address < symbols[0].address + U32
  {}

  /** The tables are those of these symbols. */
  ghost predicate Answerable(t: Tables, symbols: seq<Symbol>, startOfText: nat) {
    GoodSymbols(symbols, startOfText) && t.base == FirstAddress(symbols) - startOfText
  }

  lemma RelativeSearch(t: Tables, symbols: seq<Symbol>, best: seq<Stream>, streams: seq<Stream>,
                       startOfText: nat, textBegin: nat, address: nat)
    requires Describes(t, symbols, best, streams) && symbols != [] && Answerable(t, symbols, startOfText)
    ensures var rel := (address - (t.base + textBegin)) % U32;
            var seen := Seen(symbols, address - textBegin + startOfText);
            && |t.addresses| == |symbols| && t.addresses[0] <= rel
            && (forall i, j :: 0 <= i < j < |t.addresses| ==> t.addresses[i] <= t.addresses[j])
            && (forall i :: 0 <= i < |symbols| ==> t.addresses[i] - rel == symbols[i].address - seen)
  {
    hide Means, HasNames, HasTokens;
    assert address - (t.base + textBegin) == address - textBegin + startOfText - symbols[0].address;
  }

  /** For every address. */
  method SymbolLookupByAddress(
      t: Tables, textBegin: nat, textEnd: nat, address: nat, out: array<nat>,
      ghost symbols: seq<Symbol>, ghost startOfText: nat, ghost best: seq<Stream>, ghost streams: seq<Stream>)
    returns (r: Lookup, ghost k: nat)
    requires Describes(t, symbols, best, streams)
    requires Answerable(t, symbols, startOfText) && out.Length == NAME_BUFFER
    modifies out
    ensures r == InvalidAddress <==> !(textBegin <= address <= textEnd)
    ensures r == NoSymbols <==> textBegin <= address <= textEnd && symbols == []
    ensures textBegin <= address <= textEnd && symbols != [] ==>
              var seen := Seen(symbols, address - textBegin + startOfText);
              && LastAtOrBelow(symbols, k, seen) && r == Found(seen - symbols[k].address)
              && |symbols[k].name| < NAME_BUFFER && out[..|symbols[k].name| + 1] == symbols[k].name + [0]
  {
    k := 0;
    if !(textBegin <= address <= textEnd) { return InvalidAddress, 0; }
    if t.count == 0 { return NoSymbols, 0; }
    var rel := (address - (t.base + textBegin)) % U32;
    RelativeSearch(t, symbols, best, streams, startOfText, textBegin, address);
    StreamFacts(symbols, best, streams, startOfText);
    hide Means, HasNames, HasTokens, HasAddresses, Layered, Expand, AllDefined, GoodSymbols, Seen;
    var begin := FindAddress(t.addresses, rel);
    k := begin;
    WriteName(t, begin, out, symbols, best, streams);
    return Found(rel - t.addresses[begin]), begin;
  }

  /** Find the name of a symbol and expand it. */
  method WriteName(t: Tables, k: nat, out: array<nat>,
                   ghost symbols: seq<Symbol>, ghost best: seq<Stream>, ghost streams: seq<Stream>)
    requires Describes(t, symbols, best, streams)
    requires k < |streams| == |symbols| && out.Length == NAME_BUFFER
    requires forall j :: 0 <= j < |streams| ==> |streams[j]| <= |symbols[j].name| <= MAX_SYMBOL_LENGTH
    modifies out
    ensures out[..|symbols[k].name| + 1] == symbols[k].name + [0]
  {
    hide Means, HasNames, HasTokens, HasAddresses, Layered, Expand, AllDefined;
    ExpandedName(t, symbols, best, streams, k, out);
    var cursor := GetCompressedSymbolNameCursor(t, k, streams);
    UncompressSymbol(t, cursor, out, best, streams, k);
  }

  lemma ExpandedName(t: Tables, symbols: seq<Symbol>, best: seq<Stream>, streams: seq<Stream>, k: nat, out: array<nat>)
    requires Describes(t, symbols, best, streams) && k < |streams| && out.Length == NAME_BUFFER
    requires |symbols[k].name| <= MAX_SYMBOL_LENGTH
    ensures Layered(best) && AllDefined(best, streams[k]) && Expand(best, streams[k]) == symbols[k].name
    ensures |Expand(best, streams[k])| < out.Length
  {
    assert Expand(best, streams[k]) == Names(symbols)[k];
  }

  lemma StreamFacts(symbols: seq<Symbol>, best: seq<Stream>, streams: seq<Stream>, startOfText: nat)
    requires Means(best, streams, Names(symbols)) && GoodSymbols(symbols, startOfText)
    ensures |streams| == |symbols|
    ensures forall k :: 0 <= k < |streams| ==>
              && AllDefined(best, streams[k]) && Expand(best, streams[k]) == symbols[k].name
              && |streams[k]| <= |symbols[k].name| <= MAX_SYMBOL_LENGTH
  {
    forall k | 0 <= k < |streams|
      ensures && AllDefined(best, streams[k]) && Expand(best, streams[k]) == symbols[k].name
              && |streams[k]| <= |symbols[k].name| <= MAX_SYMBOL_LENGTH
    {
      ExpandAtLeast(best, streams[k]);
      assert Expand(best, streams[k]) == Names(symbols)[k];
    }
  }

  /** End to end: tables are generated from a sorted symbol list, the kernel is loaded anywhere, and an
      address is looked up. The answer is the name of the last symbol at or below the address, and the
      distance to it, with the address taken as 32 bits of distance from the first symbol leave it. */
  method GenerateAndLookUp(symbols: seq<Symbol>, startOfText: nat, textBegin: nat, textEnd: nat, address: nat)
    returns (emitted: bool, r: Lookup, out: array<nat>, ghost k: nat)
    requires GoodSymbols(symbols, startOfText)
    ensures SmallText(symbols, startOfText) ==> emitted
    ensures emitted ==>
              && out.Length == NAME_BUFFER
              && (r == InvalidAddress <==> !(textBegin <= address <= textEnd))
              && (r == NoSymbols <==> textBegin <= address <= textEnd && symbols == [])
              && (textBegin <= address <= textEnd && symbols != [] ==>
                    var linked := address - textBegin + startOfText;
                    var seen := Seen(symbols, linked);
                    && LastAtOrBelow(symbols, k, seen) && r == Found(seen - symbols[k].address)
                    && out[..|symbols[k].name| + 1] == symbols[k].name + [0]
                    && (symbols[0].address <= linked < symbols[0].address + U32 ==> seen == linked))
  {
    hide GoodSymbols, Describes, Seen, LastAtOrBelow, NumbersFit, SmallText;
    out := new nat[NAME_BUFFER];
    var e: Emission;
    ghost var best, streams;
    e, best, streams := EmitTables(symbols, startOfText);
    if SmallText(symbols, startOfText) { SmallTextFits(symbols, startOfText, best, streams); }
    if e.Stopped? { return false, NoSymbols, out, 0; }
    if symbols != [] { SeenExact(symbols, address - textBegin + startOfText); }
    r, k := SymbolLookupByAddress(e.tables, textBegin, textEnd, address, out, symbols, startOfText, best, streams);
    emitted := true;
  }
}
