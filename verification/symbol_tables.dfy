/** The symbol tables that the generator emits and the kernel is linked with. */
module SymbolTables {
  import opened Tokens
  import opened TokenTables
  import opened Words

  const LEB128_HAS_NEXT_BYTE := 128
  const MAX_SYMBOL_LENGTH := 127

  datatype Symbol = Symbol(name: Stream, address: nat)

  datatype Tables = Tables(
    count: nat, names: seq<nat>, nameOffsets: seq<nat>, tokenTable: seq<nat>, tokenOffsets: seq<nat>,
    addresses: seq<nat>, base: int)

  // ---------------------------------------------------------------------------
  // Names
  // ---------------------------------------------------------------------------

  function Leb128Max(bytes: nat): nat { if bytes == 1 then 127 else 16383 }

  /** One byte up to 127, two up to 16383. */
  function EncodeLength(n: nat): seq<nat> {
    if n <= Leb128Max(1) then [n] else [LEB128_HAS_NEXT_BYTE + n % 128, n / 128 % 128]
  }

  /** Lengths in numbers: the low seven bits first, with the high bit set if another byte follows. */
  lemma LengthBytes(n: nat)
    requires n < 0x4000
    ensures EncodeLength(n) == if n < 0x80 then [n] else [0x80 + n % 0x80, n / 0x80]
  {}

  function EncodeName(ts: Stream): seq<nat> { EncodeLength(|ts|) + ts }

  function EncodeNames(streams: seq<Stream>): seq<nat> {
    if streams == [] then [] else EncodeNames(streams[..|streams| - 1]) + EncodeName(streams[|streams| - 1])
  }

  function NameOffset(streams: seq<Stream>, k: nat): nat
    requires k <= |streams|
  {
    |EncodeNames(streams[..k])|
  }

  lemma NextNameOffset(streams: seq<Stream>, k: nat)
    requires k < |streams|
    ensures EncodeNames(streams[..k + 1]) == EncodeNames(streams[..k]) + EncodeName(streams[k])
    ensures NameOffset(streams, k + 1) == NameOffset(streams, k) + |EncodeName(streams[k])|
  {
    assert streams[..k + 1][..k] == streams[..k];
  }

  lemma {:induction false} NamesPrefix(streams: seq<Stream>, k: nat, n: nat)
    requires k <= n <= |streams|
    ensures EncodeNames(streams[..k]) <= EncodeNames(streams[..n])
    decreases n
  {
    if k < n {
      NamesPrefix(streams, k, n - 1);
      NextNameOffset(streams, n - 1);
    }
  }

  /** Where a name lies in the blob. */
  lemma NamePlace(streams: seq<Stream>, k: nat)
    requires k < |streams|
    ensures var names, at, name := EncodeNames(streams), NameOffset(streams, k), EncodeName(streams[k]);
            && at + |name| == NameOffset(streams, k + 1) <= |names|
            && forall i :: 0 <= i < |name| ==> names[at + i] == name[i]
  {
    assert streams[..|streams|] == streams;
    NamesPrefix(streams, k + 1, |streams|);
    NextNameOffset(streams, k);
    PrefixPlace(EncodeNames(streams[..k]), EncodeName(streams[k]), EncodeNames(streams));
  }

  lemma PrefixPlace(a: seq<nat>, b: seq<nat>, whole: seq<nat>)
    requires a + b <= whole
    ensures |a| + |b| <= |whole| && forall i :: 0 <= i < |b| ==> whole[|a| + i] == b[i]
  {
    forall i | 0 <= i < |b| ensures whole[|a| + i] == b[i] { assert whole[|a| + i] == (a + b)[|a| + i]; }
  }

  // ---------------------------------------------------------------------------
  // Tokens
  // ---------------------------------------------------------------------------

  /** unwind_compound of one slot: nothing for an empty one. */
  function SlotText(best: seq<Stream>, t: nat): Stream
    requires Layered(best) && t < SLOTS
  {
    if best[t] == [] then [] else ExpandToken(best, t)
  }

  /** The texts of the first n slots, each with its terminator. */
  function TokenBytes(best: seq<Stream>, n: nat): seq<nat>
    requires Layered(best) && n <= SLOTS
  {
    if n == 0 then [] else TokenBytes(best, n - 1) + (SlotText(best, n - 1) + [0])
  }

  lemma PrefixGrows(a: seq<nat>, b: seq<nat>, more: seq<nat>)
    requires a <= b
    ensures a <= b + more
  {}

  lemma {:induction false} TokenPrefix(best: seq<Stream>, t: nat, n: nat)
    requires Layered(best) && t <= n <= SLOTS
    ensures TokenBytes(best, t) <= TokenBytes(best, n)
    decreases n
  {
    hide TokenBytes, Layered, SlotText;
    if t < n {
      TokenPrefix(best, t, n - 1);
      NextToken(best, n - 1);
      PrefixGrows(TokenBytes(best, t), TokenBytes(best, n - 1), SlotText(best, n - 1) + [0]);
    }
  }

  /** Where the text of a slot lies in the token table. */
  lemma TokenPlace(best: seq<Stream>, t: nat)
    requires Layered(best) && t < SLOTS
    ensures var table, at, text := TokenBytes(best, SLOTS), |TokenBytes(best, t)|, SlotText(best, t);
            && at + |text| < |table| && table[at + |text|] == 0
            && forall i :: 0 <= i < |text| ==> table[at + i] == text[i]
  {
    hide Layered, SlotText, TokenBytes;
    TokenPrefix(best, t + 1, SLOTS);
    NextToken(best, t);
    TerminatedPlace(TokenBytes(best, t), SlotText(best, t), TokenBytes(best, SLOTS));
  }

  lemma TerminatedPlace(before: seq<nat>, text: seq<nat>, table: seq<nat>)
    requires before + (text + [0]) <= table
    ensures var at := |before|;
            && at + |text| < |table| && table[at + |text|] == 0
            && forall i :: 0 <= i < |text| ==> table[at + i] == text[i]
  {
    var item := text + [0];
    PrefixPlace(before, item, table);
    assert item[|text|] == 0;
    forall i | 0 <= i < |text| ensures table[|before| + i] == text[i] { assert item[i] == text[i]; }
  }

  lemma NextToken(best: seq<Stream>, t: nat)
    requires Layered(best) && t < SLOTS
    ensures TokenBytes(best, t + 1) == TokenBytes(best, t) + (SlotText(best, t) + [0])
  {}

  /** Short tokens make a table that 16-bit offsets reach. */
  lemma {:induction false} TokenBytesBound(best: seq<Stream>, n: nat, m: nat)
    requires Layered(best) && n <= SLOTS && ShortTokens(best, m)
    ensures |TokenBytes(best, n)| <= n * (m + 1)
  {
    if n > 0 {
      TokenBytesBound(best, n - 1, m);
      assert best[n - 1] != [] ==> Defined(best, n - 1);
      assert n * (m + 1) == (n - 1) * (m + 1) + (m + 1);
    }
  }

  /** A stream is no longer than what it stands for. */
  lemma {:induction false} ExpandAtLeast(best: seq<Stream>, ts: Stream)
    requires Layered(best) && AllDefined(best, ts)
    ensures |ts| <= |Expand(best, ts)|
  {
    if ts != [] {
      ExpandTokenNotEmpty(best, ts[0]);
      ExpandAtLeast(best, ts[1..]);
    }
  }

  lemma {:induction false} NamesBound(streams: seq<Stream>, n: nat)
    requires n <= |streams| && forall k :: 0 <= k < |streams| ==> |streams[k]| <= MAX_SYMBOL_LENGTH
    ensures NameOffset(streams, n) <= 128 * n
  {
    if n > 0 {
      NextNameOffset(streams, n - 1);
      NamesBound(streams, n - 1);
    } else {
      assert streams[..0] == [];
    }
  }

  // ---------------------------------------------------------------------------
  // What correct tables look like
  // ---------------------------------------------------------------------------

  ghost function Names(symbols: seq<Symbol>): (r: seq<Stream>)
    ensures |r| == |symbols| && forall k :: 0 <= k < |symbols| ==> r[k] == symbols[k].name
  {
    seq(|symbols|, k requires 0 <= k < |symbols| => symbols[k].name)
  }

  /** The blob of names, with a marker for every 256 of them. */
  ghost predicate HasNames(t: Tables, streams: seq<Stream>) {
    && t.names == EncodeNames(streams)
    && (forall k :: 0 <= k < |streams| ==> 0 < |streams[k]| <= Leb128Max(2))
    && |t.nameOffsets| == (|streams| + 255) / 256
    && (forall j :: 0 <= j < |t.nameOffsets| ==>
          256 * j <= |streams| && t.nameOffsets[j] == NameOffset(streams, 256 * j))
  }

  /** The token texts, none with a NUL inside. */
  ghost predicate HasTokens(t: Tables, best: seq<Stream>) {
    && Layered(best) && !Literal(best, 0)
    && t.tokenTable == TokenBytes(best, SLOTS) && |t.tokenOffsets| == SLOTS
    && (forall j :: 0 <= j < SLOTS ==> t.tokenOffsets[j] == |TokenBytes(best, j)|)
  }

  ghost predicate HasAddresses(t: Tables, symbols: seq<Symbol>) {
    && |t.addresses| == |symbols|
    && (forall k :: 0 <= k < |symbols| ==> t.addresses[k] == symbols[k].address - symbols[0].address)
  }

  ghost predicate Describes(t: Tables, symbols: seq<Symbol>, best: seq<Stream>, streams: seq<Stream>) {
    && Means(best, streams, Names(symbols)) && t.count == |symbols|
    && HasNames(t, streams) && HasTokens(t, best) && HasAddresses(t, symbols)
  }

  /** What the generator is given: nm sorts by address; longer names are refused; no name has a NUL; what is
      not in the text section is dropped. */
  ghost predicate GoodSymbols(symbols: seq<Symbol>, startOfText: nat) {
    && (forall k :: 0 <= k < |symbols| ==> 0 < |symbols[k].name| <= MAX_SYMBOL_LENGTH)
    && (forall k, i :: 0 <= k < |symbols| && 0 <= i < |symbols[k].name| ==> 0 < symbols[k].name[i] < SLOTS)
    && (forall j, k :: 0 <= j < k < |symbols| ==> symbols[j].address <= symbols[k].address)
    && (symbols != [] ==> startOfText <= symbols[0].address)
  }

  /** Emitted numbers are checked against their width; an exceeded one stops the generator. */
  predicate Fits16(v: int) { v <= 0xFFFF }
  predicate Fits32(v: int) { v <= 0xFFFF_FFFF }

  function FirstAddress(symbols: seq<Symbol>): nat { if symbols == [] then 0 else symbols[0].address }

  ghost predicate MarkersFit(streams: seq<Stream>) {
    forall j: nat :: 256 * j < |streams| ==> Fits32(NameOffset(streams, 256 * j))
  }

  predicate AddressesFit(symbols: seq<Symbol>) {
    forall k :: 0 <= k < |symbols| ==> Fits32(symbols[k].address - symbols[0].address)
  }

  /** Everything that is checked against 32 bits. */
  ghost predicate NumbersFit(symbols: seq<Symbol>, streams: seq<Stream>, startOfText: nat) {
    Fits32(|symbols|) && MarkersFit(streams) && AddressesFit(symbols)
    && Fits32(FirstAddress(symbols) - startOfText)
  }

  /** The generator stops exactly if there are 2^32 symbols, a marker or a distance reaches 2^32, or the first
      symbol lies as far behind the start of the text. */
  lemma StopsExactly(symbols: seq<Symbol>, streams: seq<Stream>, startOfText: nat)
    ensures NumbersFit(symbols, streams, startOfText) <==>
            && |symbols| < 0x1_0000_0000
            && (forall j: nat :: 256 * j < |streams| ==> NameOffset(streams, 256 * j) < 0x1_0000_0000)
            && (forall k :: 0 <= k < |symbols| ==> symbols[k].address - symbols[0].address < 0x1_0000_0000)
            && (symbols != [] ==> symbols[0].address - startOfText < 0x1_0000_0000)
  {
    hide NameOffset;
  }

  /** The length prefix and the tokens of one name. */
  method EmitName(tokens: Stream) returns (repr: seq<nat>)
    requires 0 < |tokens| <= Leb128Max(2)
    ensures repr == EncodeName(tokens)
  {
    var nameLen := |tokens|;
    repr := [];
    if nameLen <= Leb128Max(1) {
      repr := repr + [nameLen];
    } else {
      repr := repr + [LEB128_HAS_NEXT_BYTE + nameLen % 128];
      repr := repr + [nameLen / 128 % 128];
    }
    repr := repr + tokens;
  }

  lemma MarkerCount(idx: nat)
    ensures idx % 256 == 0 ==> 256 * ((idx + 255) / 256) == idx && (idx + 256) / 256 == (idx + 255) / 256 + 1
    ensures idx % 256 != 0 ==> (idx + 256) / 256 == (idx + 255) / 256
  {}

  method EmitNames(streams: seq<Stream>) returns (names: seq<nat>, markers: seq<nat>)
    requires forall k :: 0 <= k < |streams| ==> 0 < |streams[k]| <= Leb128Max(2)
    ensures names == EncodeNames(streams)
    ensures |markers| == (|streams| + 255) / 256
    ensures forall j :: 0 <= j < |markers| ==>
              256 * j <= |streams| && markers[j] == NameOffset(streams, 256 * j)
  {
    hide EncodeNames, EncodeName;
    names, markers := [], [];
    var byteOffset, idx := 0, 0;
    NoNames(streams);
    while idx < |streams|
      invariant 0 <= idx <= |streams| && names == EncodeNames(streams[..idx]) && byteOffset == |names|
      invariant |markers| == (idx + 255) / 256
      invariant forall j :: 0 <= j < |markers| ==>
        256 * j <= |streams| && markers[j] == NameOffset(streams, 256 * j)
    {
      MarkerCount(idx);
      NextNameOffset(streams, idx);
      if idx % 256 == 0 { markers := markers + [byteOffset]; }
      var repr := EmitName(streams[idx]);
      byteOffset := byteOffset + |repr|;
      names := names + repr;
      idx := idx + 1;
    }
    assert streams[..idx] == streams;
  }

  lemma NoNames(streams: seq<Stream>)
    ensures EncodeNames(streams[..0]) == []
  {}

  /** The table and the offsets of the first n slots. */
  ghost predicate SlotsEmitted(best: seq<Stream>, n: nat, table: seq<nat>, offsets: seq<nat>) {
    && Layered(best) && n <= SLOTS
    && table == TokenBytes(best, n) && |offsets| == n
    && forall j :: 0 <= j < n ==> offsets[j] == |TokenBytes(best, j)| && Fits16(offsets[j])
  }

  lemma OffsetFits(best: seq<Stream>, t: nat)
    requires Layered(best) && t <= SLOTS && ShortTokens(best, MAX_SYMBOL_LENGTH)
    ensures Fits16(|TokenBytes(best, t)|)
  {
    hide TokenBytes, ShortTokens, Layered;
    TokenBytesBound(best, t, MAX_SYMBOL_LENGTH);
    assert MAX_SYMBOL_LENGTH + 1 == 128;
  }

  method EmitSlot(best: seq<Stream>, t: nat, table: seq<nat>, offsets: seq<nat>)
    returns (table': seq<nat>, offsets': seq<nat>)
    requires SlotsEmitted(best, t, table, offsets) && t < SLOTS && ShortTokens(best, MAX_SYMBOL_LENGTH)
    ensures SlotsEmitted(best, t + 1, table', offsets')
  {
    hide TokenBytes, ShortTokens, SlotText, Layered;
    OffsetFits(best, t);
    NextToken(best, t);
    var unwound := SlotText(best, t);
    offsets' := offsets + [|table|];
    table' := table + (unwound + [0]);
  }

  method EmitTokens(best: seq<Stream>) returns (table: seq<nat>, offsets: seq<nat>)
    requires Layered(best) && ShortTokens(best, MAX_SYMBOL_LENGTH)
    ensures SlotsEmitted(best, SLOTS, table, offsets)
  {
    table, offsets := [], [];
    var t := 0;
    assert SlotsEmitted(best, 0, table, offsets);
    hide SlotsEmitted;
    while t < SLOTS
      invariant 0 <= t <= SLOTS && SlotsEmitted(best, t, table, offsets)
    {
      table, offsets := EmitSlot(best, t, table, offsets);
      t := t + 1;
    }
  }

  method CollectNames(symbols: seq<Symbol>) returns (names: seq<Stream>)
    ensures names == Names(symbols)
  {
    names := [];
    var k := 0;
    while k < |symbols|
      invariant 0 <= k <= |symbols| && names == Names(symbols)[..k]
    {
      names := names + [symbols[k].name];
      k := k + 1;
    }
  }

  /** The markers, each checked. */
  method EmitMarkers(streams: seq<Stream>, markers: seq<nat>) returns (ok: bool)
    requires |markers| == (|streams| + 255) / 256
    requires forall j :: 0 <= j < |markers| ==> 256 * j <= |streams| && markers[j] == NameOffset(streams, 256 * j)
    ensures ok <==> MarkersFit(streams)
    ensures ok ==> forall j :: 0 <= j < |markers| ==> Fits32(markers[j])
  {
    hide NameOffset;
    var i := 0;
    while i < |markers|
      invariant 0 <= i <= |markers| && forall j :: 0 <= j < i ==> Fits32(markers[j])
    {
      if markers[i] > 0xFFFF_FFFF {
        assert 256 * i < |streams| && !Fits32(NameOffset(streams, 256 * i));
        return false;
      }
      i := i + 1;
    }
    forall j: nat | 256 * j < |streams| ensures Fits32(NameOffset(streams, 256 * j)) {
      assert j < |markers|;
    }
    return true;
  }

  method EmitAddresses(symbols: seq<Symbol>, ghost startOfText: nat) returns (ok: bool, addresses: seq<nat>)
    requires GoodSymbols(symbols, startOfText)
    ensures ok <==> AddressesFit(symbols)
    ensures ok ==> |addresses| == |symbols|
    ensures ok ==> forall j :: 0 <= j < |symbols| ==>
              addresses[j] == symbols[j].address - symbols[0].address && Fits32(addresses[j])
  {
    addresses := [];
    var k := 0;
    while k < |symbols|
      invariant 0 <= k <= |symbols| && |addresses| == k
      invariant forall j :: 0 <= j < k ==>
        addresses[j] == symbols[j].address - symbols[0].address && Fits32(addresses[j])
    {
      assert k > 0 ==> symbols[0].address <= symbols[k].address;
      var offset := symbols[k].address - symbols[0].address;
      if offset > 0xFFFF_FFFF { return false, addresses; }
      addresses := addresses + [offset];
      k := k + 1;
    }
    return true, addresses;
  }

  /** The names meet what the interning asks of them. */
  lemma NamesGood(symbols: seq<Symbol>, startOfText: nat)
    requires GoodSymbols(symbols, startOfText)
    ensures forall k :: 0 <= k < |symbols| ==>
              InSlots(Names(symbols)[k]) && 0 < |Names(symbols)[k]| <= MAX_SYMBOL_LENGTH && 0 !in Names(symbols)[k]
  {
    forall k | 0 <= k < |symbols|
      ensures InSlots(Names(symbols)[k]) && 0 < |Names(symbols)[k]| <= MAX_SYMBOL_LENGTH && 0 !in Names(symbols)[k]
    {
      assert forall i :: 0 <= i < |symbols[k].name| ==> 0 < symbols[k].name[i] < SLOTS;
    }
  }

  lemma StreamsShort(best: seq<Stream>, streams: seq<Stream>, names: seq<Stream>)
    requires Means(best, streams, names)
    requires forall k :: 0 <= k < |names| ==> 0 < |names[k]| <= MAX_SYMBOL_LENGTH
    ensures forall k :: 0 <= k < |streams| ==> 0 < |streams[k]| <= MAX_SYMBOL_LENGTH
  {
    forall k | 0 <= k < |streams| ensures 0 < |streams[k]| <= MAX_SYMBOL_LENGTH {
      assert Expand(best, streams[k]) == names[k];
      ExpandAtLeast(best, streams[k]);
    }
  }

  datatype Emission = Emitted(tables: Tables) | Stopped

  /** The table loops of the generator, and the names as they are stored. The generator stops exactly if a
      number exceeds its width; the offsets of 16 bits never do. */
  method EmitTables(symbols: seq<Symbol>, startOfText: nat)
    returns (e: Emission, ghost best: seq<Stream>, ghost streams: seq<Stream>)
    requires GoodSymbols(symbols, startOfText)
    ensures Means(best, streams, Names(symbols))
    ensures e.Stopped? <==> !NumbersFit(symbols, streams, startOfText)
    ensures e.Emitted? ==> Describes(e.tables, symbols, best, streams)
    ensures e.Emitted? ==> e.tables.base == FirstAddress(symbols) - startOfText
    ensures e.Emitted? ==> forall k :: 0 <= k < |e.tables.addresses| ==> Fits32(e.tables.addresses[k])
    ensures e.Emitted? ==> forall k :: 0 <= k < |e.tables.nameOffsets| ==> Fits32(e.tables.nameOffsets[k])
    ensures e.Emitted? ==> forall k :: 0 <= k < |e.tables.tokenOffsets| ==> Fits16(e.tables.tokenOffsets[k])
  {
    hide EncodeNames, TokenBytes, ShortTokens, Layered, GoodSymbols, Means, MarkersFit, AddressesFit;
    NamesGood(symbols, startOfText);
    var names := CollectNames(symbols);
    var table := new TokenTable(names, MAX_SYMBOL_LENGTH);
    best, streams := table.best, table.symbols;
    if |symbols| > 0xFFFF_FFFF { return Stopped, best, streams; }
    StreamsShort(best, streams, names);
    var blob, markers := EmitNames(table.symbols);
    SameCount(best, streams, names);
    var ok := EmitMarkers(table.symbols, markers);
    if !ok { return Stopped, best, streams; }
    var tokens, offsets := EmitTokens(table.best);
    var addresses;
    ok, addresses := EmitAddresses(symbols, startOfText);
    if !ok { return Stopped, best, streams; }
    var base: int := FirstAddress(symbols) - startOfText;
    if base > 0xFFFF_FFFF { return Stopped, best, streams; }
    e := Emitted(Tables(|symbols|, blob, markers, tokens, offsets, addresses, base));
  }

  lemma SameCount(best: seq<Stream>, streams: seq<Stream>, names: seq<Stream>)
    requires Means(best, streams, names)
    ensures |streams| == |names| && Layered(best)
  {}

  /** Up to 2^24 symbols, within 4 GiB from the start of the text. */
  predicate SmallText(symbols: seq<Symbol>, startOfText: nat) {
    |symbols| <= 0x100_0000 && forall k :: 0 <= k < |symbols| ==> symbols[k].address - startOfText < U32
  }

  /** The generator does not stop on those. */
  lemma SmallTextFits(symbols: seq<Symbol>, startOfText: nat, best: seq<Stream>, streams: seq<Stream>)
    requires GoodSymbols(symbols, startOfText) && Means(best, streams, Names(symbols))
    requires SmallText(symbols, startOfText)
    ensures NumbersFit(symbols, streams, startOfText)
  {
    NamesGood(symbols, startOfText);
    StreamsShort(best, streams, Names(symbols));
    SameCount(best, streams, Names(symbols));
    hide Means, NameOffset, Layered;
    forall j: nat | 256 * j < |streams| ensures Fits32(NameOffset(streams, 256 * j)) {
      NamesBound(streams, 256 * j);
    }
  }
}
