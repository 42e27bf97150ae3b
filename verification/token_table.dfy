/** Token interning: the most frequent pair of neighbours becomes one token, round after round. */
module TokenTables {
  import opened Tokens

  ghost function ReplaceAll(symbols: seq<Stream>, a: nat, b: nat, x: nat): (r: seq<Stream>)
    ensures |r| == |symbols| && forall k :: 0 <= k < |symbols| ==> r[k] == Replace(symbols[k], a, b, x)
  {
    seq(|symbols|, k requires 0 <= k < |symbols| => Replace(symbols[k], a, b, x))
  }

  /** Each symbol still means its name. */
  ghost predicate Means(best: seq<Stream>, symbols: seq<Stream>, names: seq<Stream>) {
    && Layered(best) && |symbols| == |names|
    && (forall k :: 0 <= k < |symbols| ==> AllDefined(best, symbols[k]))
    && (forall k :: 0 <= k < |symbols| ==> Expand(best, symbols[k]) == names[k])
  }

  /** No token stands for more than m characters. */
  ghost predicate ShortTokens(best: seq<Stream>, m: nat)
    requires Layered(best)
  {
    forall t: nat :: Defined(best, t) ==> |ExpandToken(best, t)| <= m
  }

  /** No new literals. */
  ghost predicate OnlyLiteralsOf(before: seq<Stream>, best: seq<Stream>)
    requires |best| == SLOTS && |before| == SLOTS
  {
    forall t: nat :: Literal(best, t) ==> Literal(before, t)
  }

  /** The compound slots all lie above x. */
  ghost predicate FilledDownTo(best: seq<Stream>, x: int)
    requires |best| == SLOTS
  {
    forall t :: 0 <= t < SLOTS && |best[t]| == 2 ==> x < t
  }

  lemma FillKeepsMeans(best: seq<Stream>, symbols: seq<Stream>, names: seq<Stream>, x: nat, a: nat, b: nat)
    requires Means(best, symbols, names) && x < SLOTS && best[x] == [] && Defined(best, a) && Defined(best, b)
    requires FilledDownTo(best, x)
    ensures Means(best[x := [a, b]], symbols, names)
  {
    FillLayered(best, x, a, b);
    forall k | 0 <= k < |symbols|
      ensures AllDefined(best[x := [a, b]], symbols[k]) && Expand(best[x := [a, b]], symbols[k]) == names[k]
    {
      FillKeepsStream(best, x, a, b, symbols[k]);
    }
  }

  lemma ReplaceKeepsMeans(best: seq<Stream>, symbols: seq<Stream>, names: seq<Stream>, a: nat, b: nat, x: nat)
    requires Means(best, symbols, names) && Compound(best, x) && best[x] == [a, b]
    ensures Means(best, ReplaceAll(symbols, a, b, x), names)
  {
    forall k | 0 <= k < |symbols|
      ensures AllDefined(best, Replace(symbols[k], a, b, x)) && Expand(best, Replace(symbols[k], a, b, x)) == names[k]
    {
      ReplaceKeepsMeaning(best, symbols[k], a, b, x);
    }
  }

  /** Two neighbours in a stream together stand for no more than the whole stream does. */
  lemma {:induction false} PairWithinStream(best: seq<Stream>, ts: Stream, i: nat)
    requires Layered(best) && AllDefined(best, ts) && i + 1 < |ts|
    ensures |ExpandToken(best, ts[i])| + |ExpandToken(best, ts[i + 1])| <= |Expand(best, ts)|
  {
    if i > 0 { PairWithinStream(best, ts[1..], i - 1); }
  }

  lemma FillKeepsShort(best: seq<Stream>, x: nat, a: nat, b: nat, m: nat)
    requires Layered(best) && x < SLOTS && best[x] == [] && Defined(best, a) && Defined(best, b)
    requires FilledDownTo(best, x) && ShortTokens(best, m)
    requires |ExpandToken(best, a)| + |ExpandToken(best, b)| <= m
    ensures Layered(best[x := [a, b]]) && ShortTokens(best[x := [a, b]], m)
  {
    var best' := best[x := [a, b]];
    FillLayered(best, x, a, b);
    forall t: nat | Defined(best', t) ensures |ExpandToken(best', t)| <= m {
      if t == x {
        FillKeepsToken(best, x, a, b, a);
        FillKeepsToken(best, x, a, b, b);
      } else {
        assert Defined(best, t);
        FillKeepsToken(best, x, a, b, t);
      }
    }
  }

  lemma {:induction false} ReplaceAllShortens(symbols: seq<Stream>, a: nat, b: nat, x: nat)
    ensures TotalLength(ReplaceAll(symbols, a, b, x)) <= TotalLength(symbols)
    ensures (exists k :: 0 <= k < |symbols| && Occurs(symbols[k], a, b)) ==>
              TotalLength(ReplaceAll(symbols, a, b, x)) < TotalLength(symbols)
  {
    if symbols != [] {
      ReplaceShortens(symbols[0], a, b, x);
      ReplaceAllShortens(symbols[1..], a, b, x);
      assert ReplaceAll(symbols, a, b, x)[1..] == ReplaceAll(symbols[1..], a, b, x);
      if exists k :: 0 <= k < |symbols| && Occurs(symbols[k], a, b) {
        var k :| 0 <= k < |symbols| && Occurs(symbols[k], a, b);
        if k > 0 { assert Occurs(symbols[1..][k - 1], a, b); }
      }
    }
  }

  /** No pair occurs more often, and of those that occur as often it is the one with the lowest second token, and
      among these the lowest first one. */
  ghost predicate MostFrequent(symbols: seq<Stream>, a: nat, b: nat) {
    forall c: nat, d: nat :: c < 256 && d < 256 ==>
      var times, most := CountAll(symbols, PairIndex(c, d)), CountAll(symbols, PairIndex(a, b));
      times <= most && (times == most ==> b < d || (b == d && a <= c))
  }

  lemma MostFrequentPair(symbols: seq<Stream>, index: nat)
    requires index < PAIRS
    requires forall p :: 0 <= p < PAIRS ==> CountAll(symbols, p) <= CountAll(symbols, index)
    requires forall p :: 0 <= p < index ==> CountAll(symbols, p) < CountAll(symbols, index)
    ensures MostFrequent(symbols, index % 256, index / 256)
  {
    hide CountAll;
    assert PairIndex(index % 256, index / 256) == index;
  }

  class TokenTable {
    var symbols: seq<Stream>
    const multibyte: array<int>
    var best: seq<Stream>

    ghost predicate Counted()
      reads this, multibyte
    {
      multibyte.Length == PAIRS && forall p :: 0 <= p < PAIRS ==> multibyte[p] == CountAll(symbols, p)
    }

    ghost predicate Valid(names: seq<Stream>, m: nat)
      reads this, multibyte
    {
      Counted() && Means(best, symbols, names) && ShortTokens(best, m)
    }

    /** __for_each_token without its recording part. */
    method UpdateCounts(tokens: Stream, addend: int)
      requires multibyte.Length == PAIRS && InSlots(tokens)
      modifies multibyte
      ensures forall p :: 0 <= p < PAIRS ==> multibyte[p] == old(multibyte[p]) + addend * Count(tokens, p)
    {
      var i := 0;
      while i < |tokens| - 1
        invariant 0 <= i <= |tokens|
        invariant forall p :: 0 <= p < PAIRS ==>
          multibyte[p] + addend * Count(tokens[i..], p) == old(multibyte[p]) + addend * Count(tokens, p)
      {
        var q := PairIndex(tokens[i], tokens[i + 1]);
        ghost var before := multibyte[..];
        multibyte[q] := multibyte[q] + addend;
        forall p | 0 <= p < PAIRS
          ensures multibyte[p] + addend * Count(tokens[i + 1..], p) == old(multibyte[p]) + addend * Count(tokens, p)
        {
          assert before[p] + addend * Count(tokens[i..], p) == old(multibyte[p]) + addend * Count(tokens, p);
          CountStep(tokens, i, p, addend);
        }
        i := i + 1;
      }
    }

    /** __remove_symbol */
    method RemoveSymbol(tokens: Stream)
      requires multibyte.Length == PAIRS && InSlots(tokens)
      modifies multibyte
      ensures forall p :: 0 <= p < PAIRS ==> multibyte[p] == old(multibyte[p]) - Count(tokens, p)
    {
      hide Count, InSlots;
      UpdateCounts(tokens, -1);
    }

    /** __add_symbol without its recording part. */
    method AddCounts(tokens: Stream)
      requires multibyte.Length == PAIRS && InSlots(tokens)
      modifies multibyte
      ensures forall p :: 0 <= p < PAIRS ==> multibyte[p] == old(multibyte[p]) + Count(tokens, p)
    {
      hide Count, InSlots;
      UpdateCounts(tokens, 1);
    }

    static lemma CountStep(tokens: Stream, i: nat, p: nat, addend: int)
      requires i + 1 < |tokens|
      ensures addend * Count(tokens[i..], p)
              == (if PairIndex(tokens[i], tokens[i + 1]) == p then addend else 0) + addend * Count(tokens[i + 1..], p)
    {
      var here := if PairIndex(tokens[i], tokens[i + 1]) == p then 1 else 0;
      CountOne(tokens, i, p);
      hide Count, PairIndex;
      assert addend * (here + Count(tokens[i + 1..], p)) == addend * here + addend * Count(tokens[i + 1..], p);
    }

    static lemma CountOne(tokens: Stream, i: nat, p: nat)
      requires i + 1 < |tokens|
      ensures Count(tokens[i..], p)
              == (if PairIndex(tokens[i], tokens[i + 1]) == p then 1 else 0) + Count(tokens[i + 1..], p)
    {
      hide PairIndex;
      var ts := tokens[i..];
      assert ts[1..] == tokens[i + 1..] && ts[0] == tokens[i] && ts[1] == tokens[i + 1];
    }

    /** The recording part: every character seen gets a literal slot. */
    method RecordLiterals(tokens: Stream)
      requires |best| == SLOTS && InSlots(tokens)
      requires forall t :: 0 <= t < SLOTS ==> best[t] == [] || best[t] == [t]
      modifies this`best
      ensures |best| == SLOTS && forall t :: 0 <= t < SLOTS ==> best[t] == if t in tokens then [t] else old(best)[t]
    {
      var i := 0;
      while i < |tokens|
        invariant 0 <= i <= |tokens| && |best| == SLOTS
        invariant forall t :: 0 <= t < SLOTS ==> best[t] == if t in tokens[..i] then [t] else old(best)[t]
      {
        best := best[tokens[i] := [tokens[i]]];
        assert tokens[..i + 1] == tokens[..i] + [tokens[i]];
        i := i + 1;
      }
      assert tokens[..i] == tokens;
    }

    /** The first index with the highest count. */
    method MostUsed() returns (index: nat, score: int)
      requires multibyte.Length == PAIRS && forall p :: 0 <= p < PAIRS ==> multibyte[p] >= 0
      ensures index < PAIRS && score == multibyte[index]
      ensures forall p :: 0 <= p < PAIRS ==> multibyte[p] <= score
      ensures forall p :: 0 <= p < index ==> multibyte[p] < score
    {
      index, score := 0, -1;
      var i := 0;
      while i < PAIRS
        invariant 0 <= i <= PAIRS && 0 <= index < PAIRS
        invariant if i == 0 then score == -1 else index < i && score == multibyte[index]
        invariant forall p :: 0 <= p < i ==> multibyte[p] <= score
        invariant forall p :: 0 <= p < index ==> multibyte[p] < score
      {
        if multibyte[i] > score { index, score := i, multibyte[i]; }
        i := i + 1;
      }
    }

    /** The inner loop of __compress_with_compound_token: the tokens are replaced in place, and the counts
        of the symbol are taken out before its first change. */
    method ReplaceTokens(original: Stream, a: nat, b: nat, x: nat) returns (tokens: Stream, didCompress: bool)
      requires multibyte.Length == PAIRS && InSlots(original) && x < SLOTS && x != a && x != b
      modifies multibyte
      ensures tokens == Replace(original, a, b, x) && InSlots(tokens) && (!didCompress ==> tokens == original)
      ensures forall p :: 0 <= p < PAIRS ==>
                multibyte[p] == old(multibyte[p]) - (if didCompress then Count(original, p) else 0)
    {
      hide Replace, Count, InSlots;
      tokens, didCompress := original, false;
      var i := 0;
      assert tokens[0..] == tokens && tokens[..0] == [];
      while i < |tokens| - 1
        invariant 0 <= i <= |tokens| && InSlots(tokens)
        invariant tokens[..i] + Replace(tokens[i..], a, b, x) == Replace(original, a, b, x)
        invariant !didCompress ==> tokens == original
        invariant forall p :: 0 <= p < PAIRS ==>
          multibyte[p] == old(multibyte[p]) - (if didCompress then Count(original, p) else 0)
        decreases |tokens| - i, |tokens|
      {
        ReplaceStep(tokens, i, a, b, x);
        if tokens[i] != a || tokens[i + 1] != b {
          i := i + 1;
        } else {
          if !didCompress {
            RemoveSymbol(tokens);
            didCompress := true;
          }
          ReplacedInSlots(tokens, i, x);
          tokens := tokens[..i] + [x] + tokens[i + 2..];
        }
      }
      ReplaceShort(tokens[i..], a, b, x);
      assert tokens[..i] + tokens[i..] == tokens;
    }

    /** The loop body of __compress_with_compound_token for one symbol. */
    method CompressSymbol(k: nat, a: nat, b: nat, x: nat)
      requires Counted() && k < |symbols| && InSlots(symbols[k]) && x < SLOTS && x != a && x != b
      modifies this`symbols, multibyte
      ensures Counted() && symbols == old(symbols)[k := Replace(old(symbols)[k], a, b, x)]
    {
      hide Replace, Count, InSlots, CountAll;
      var tokens, didCompress := ReplaceTokens(symbols[k], a, b, x);
      symbols := symbols[k := tokens];
      if didCompress { AddCounts(tokens); }
      forall p | 0 <= p < PAIRS ensures multibyte[p] == CountAll(symbols, p) {
        CountAllUpdate(old(symbols), k, tokens, p);
      }
    }

    static lemma ReplacedInSlots(tokens: Stream, i: nat, x: nat)
      requires InSlots(tokens) && i + 1 < |tokens| && x < SLOTS
      ensures InSlots(tokens[..i] + [x] + tokens[i + 2..])
    {}

    static lemma ReplaceShort(ts: Stream, a: nat, b: nat, x: nat)
      requires |ts| < 2
      ensures Replace(ts, a, b, x) == ts
    {}

    static lemma ReplaceStep(tokens: Stream, i: nat, a: nat, b: nat, x: nat)
      requires i + 1 < |tokens| && x != a
      ensures tokens[i] == a && tokens[i + 1] == b ==>
                var ts := tokens[..i] + [x] + tokens[i + 2..];
                ts[..i] + Replace(ts[i..], a, b, x) == tokens[..i] + Replace(tokens[i..], a, b, x)
      ensures tokens[i] != a || tokens[i + 1] != b ==>
                tokens[..i + 1] + Replace(tokens[i + 1..], a, b, x) == tokens[..i] + Replace(tokens[i..], a, b, x)
    {
      if tokens[i] == a && tokens[i + 1] == b {
        var ts := tokens[..i] + [x] + tokens[i + 2..];
        assert ts[..i] == tokens[..i] && ts[i..] == [x] + tokens[i + 2..];
        assert tokens[i..][2..] == tokens[i + 2..];
        assert ([x] + tokens[i + 2..])[1..] == tokens[i + 2..];
      } else {
        assert tokens[i..][1..] == tokens[i + 1..];
        assert tokens[..i + 1] == tokens[..i] + [tokens[i]];
      }
    }

    method CompressWithCompoundToken(x: nat)
      requires Counted() && |best| == SLOTS && x < SLOTS && |best[x]| == 2 && x !in best[x]
      requires forall k :: 0 <= k < |symbols| ==> InSlots(symbols[k])
      modifies this`symbols, multibyte
      ensures Counted() && symbols == ReplaceAll(old(symbols), best[x][0], best[x][1], x)
    {
      var a, b := best[x][0], best[x][1];
      var k := 0;
      while k < |symbols|
        invariant 0 <= k <= |symbols| == |old(symbols)| && Counted()
        invariant forall j :: 0 <= j < |symbols| ==>
          symbols[j] == if j < k then Replace(old(symbols)[j], a, b, x) else old(symbols)[j]
      {
        CompressSymbol(k, a, b, x);
        k := k + 1;
      }
    }

    /** The pair a, b has got slot x, is gone from all symbols, and they are shorter. */
    ghost predicate Interned(was: seq<Stream>, streams: seq<Stream>, x: nat, a: nat, b: nat)
      requires x < |was|
      reads this
    {
      && best == was[x := [a, b]]
      && (forall k :: 0 <= k < |symbols| ==> !Occurs(symbols[k], a, b))
      && TotalLength(symbols) < TotalLength(streams)
    }

    /** Give the pair a slot and replace it everywhere. */
    method InternPair(x: nat, a: nat, b: nat, ghost names: seq<Stream>, ghost m: nat, ghost k: nat)
      requires Valid(names, m) && x < SLOTS && best[x] == [] && FilledDownTo(best, x)
      requires a < SLOTS && b < SLOTS && Defined(best, a) && Defined(best, b)
      requires |ExpandToken(best, a)| + |ExpandToken(best, b)| <= m
      requires k < |symbols| && Occurs(symbols[k], a, b)
      modifies this, multibyte
      ensures Valid(names, m) && Interned(old(best), old(symbols), x, a, b)
    {
      hide Means, ShortTokens, CountAll, ExpandToken, Replace, Occurs, TotalLength;
      MeaningFacts(names);
      FillKeepsMeans(best, symbols, names, x, a, b);
      FillKeepsShort(best, x, a, b, m);
      best := best[x := [a, b]];
      ReplaceKeepsMeans(best, symbols, names, a, b, x);
      ReplaceAllShortens(symbols, a, b, x);
      MeaningFacts(names);
      CompressWithCompoundToken(x);
      forall j | 0 <= j < |symbols| ensures !Occurs(symbols[j], a, b) {
        ReplaceRemoves(old(symbols)[j], a, b, x);
      }
    }

    lemma MeaningFacts(names: seq<Stream>)
      requires Means(best, symbols, names)
      ensures Layered(best) && |best| == SLOTS && |symbols| == |names|
      ensures forall k :: 0 <= k < |symbols| ==> InSlots(symbols[k])
    {}

    /** One round of __optimize. Unless nothing is left to do, the most frequent pair of all gets a slot
        and disappears, and the streams get shorter. */
    method OptimizeRound(x: nat, ghost names: seq<Stream>, ghost m: nat) returns (done: bool)
      requires Valid(names, m) && x < SLOTS && best[x] == [] && FilledDownTo(best, x)
      requires forall k :: 0 <= k < |names| ==> |names[k]| <= m
      modifies this, multibyte
      ensures Valid(names, m)
      ensures done ==>
                best == old(best) && symbols == old(symbols) && forall p :: 0 <= p < PAIRS ==> CountAll(symbols, p) == 0
      ensures !done ==>
                exists a: nat, b: nat ::
                  && Interned(old(best), old(symbols), x, a, b)
                  && MostFrequent(old(symbols), a, b)
    {
      hide Means, ShortTokens, CountAll, ExpandToken, Interned, Layered;
      var index, score := MostUsed();
      if score == 0 { return true; }
      var a, b := index % 256, index / 256;
      assert PairIndex(a, b) == index;
      MeaningFacts(names);
      ghost var k := PairIsDefined(names, a, b);
      MostFrequentPair(symbols, index);
      InternPair(x, a, b, names, m, k);
      return false;
    }

    lemma PairIsDefined(names: seq<Stream>, a: nat, b: nat) returns (k: nat)
      requires Counted() && Means(best, symbols, names) && a < SLOTS && b < SLOTS
      requires CountAll(symbols, PairIndex(a, b)) > 0
      ensures k < |symbols| && Occurs(symbols[k], a, b)
      ensures Defined(best, a) && Defined(best, b)
      ensures |ExpandToken(best, a)| + |ExpandToken(best, b)| <= |names[k]|
    {
      CountAllPositive(symbols, PairIndex(a, b));
      k :| k < |symbols| && Count(symbols[k], PairIndex(a, b)) > 0;
      assert AllDefined(best, symbols[k]);
      CountPositive(symbols[k], a, b);
      var i :| 0 <= i < |symbols[k]| && OccursAt(symbols[k], i, a, b);
      PairWithinStream(best, symbols[k], i);
    }

    /** __optimize: from the highest slot down, every empty slot gets a pair, until there is none left. */
    method Optimize(ghost names: seq<Stream>, ghost m: nat)
      requires Valid(names, m) && FilledDownTo(best, SLOTS - 1)
      requires forall k :: 0 <= k < |names| ==> |names[k]| <= m
      modifies this, multibyte
      ensures Valid(names, m) && OnlyLiteralsOf(old(best), best)
      ensures (forall t :: 0 <= t < SLOTS ==> best[t] != [])
              || (forall p :: 0 <= p < PAIRS ==> CountAll(symbols, p) == 0)
    {
      hide Means, ShortTokens, ReplaceAll, Layered, Counted;
      var i := SLOTS;
      LayeredSize(names, m);
      while i > 0
        invariant 0 <= i <= SLOTS && Valid(names, m) && |best| == SLOTS && FilledDownTo(best, i - 1)
        invariant OnlyLiteralsOf(old(best), best)
        invariant forall t :: i <= t < SLOTS ==> best[t] != []
      {
        i := i - 1;
        if best[i] == [] {
          var done := OptimizeRound(i, names, m);
          LayeredSize(names, m);
          if done { return; }
        } else {
          assert FilledDownTo(best, i - 1);
        }
      }
    }

    lemma LayeredSize(names: seq<Stream>, m: nat)
      requires Valid(names, m)
      ensures |best| == SLOTS
    {}

    /** From the characters of the names, interned tokens that mean the same names. */
    constructor (names: seq<Stream>, ghost m: nat)
      requires forall k :: 0 <= k < |names| ==> InSlots(names[k]) && |names[k]| <= m
      requires m > 0
      ensures Valid(names, m)
      ensures (forall k :: 0 <= k < |names| ==> 0 !in names[k]) ==> !Literal(best, 0)
      ensures (forall t :: 0 <= t < SLOTS ==> best[t] != [])
              || (forall p :: 0 <= p < PAIRS ==> CountAll(symbols, p) == 0)
    {
      symbols := names;
      multibyte := new int[PAIRS](_ => 0);
      best := seq(SLOTS, _ => []);
      new;
      AddSymbols();
      forall j | 0 <= j < |names| ensures Expand(best, names[j]) == names[j] {
        ExpandLiterals(best, names[j]);
      }
      hide CountAll, Expand, ExpandToken;
      Optimize(names, m);
    }

    /** Only literals, those of the first k symbols. */
    ghost predicate Recorded(k: nat)
      requires k <= |symbols|
      reads this
    {
      && |best| == SLOTS && (forall t :: 0 <= t < SLOTS ==> best[t] == [] || best[t] == [t])
      && (forall j :: 0 <= j < k ==> AllDefined(best, symbols[j]))
      && ((forall j :: 0 <= j < k ==> 0 !in symbols[j]) ==> best[0] == [])
    }

    ghost predicate CountedUpTo(k: nat)
      requires k <= |symbols|
      reads this, multibyte
    {
      multibyte.Length == PAIRS && forall p :: 0 <= p < PAIRS ==> multibyte[p] == CountAll(symbols[..k], p)
    }

    /** The loop of the initializer, which adds every symbol. */
    method AddSymbols()
      requires |best| == SLOTS && (forall t :: 0 <= t < SLOTS ==> best[t] == [])
      requires multibyte.Length == PAIRS && forall p :: 0 <= p < PAIRS ==> multibyte[p] == 0
      requires forall k :: 0 <= k < |symbols| ==> InSlots(symbols[k])
      modifies this`best, multibyte
      ensures Recorded(|symbols|) && Counted()
    {
      var k := 0;
      assert symbols[..0] == [];
      assert Recorded(0) && CountedUpTo(0);
      hide Recorded, CountedUpTo;
      while k < |symbols|
        invariant 0 <= k <= |symbols| && Recorded(k) && CountedUpTo(k)
      {
        AddSymbol(k);
        k := k + 1;
      }
      AllAdded();
    }

    lemma AllAdded()
      requires CountedUpTo(|symbols|)
      ensures Counted()
    {
      assert symbols[..|symbols|] == symbols;
    }

    /** __add_symbol, recording what it sees. */
    method AddSymbol(k: nat)
      requires k < |symbols| && InSlots(symbols[k]) && Recorded(k) && CountedUpTo(k)
      modifies this`best, multibyte
      ensures Recorded(k + 1) && CountedUpTo(k + 1)
    {
      AddCounts(symbols[k]);
      RecordLiterals(symbols[k]);
      forall p | 0 <= p < PAIRS ensures multibyte[p] == CountAll(symbols[..k + 1], p) {
        CountAllConcat(symbols[..k], [symbols[k]], p);
        assert symbols[..k + 1] == symbols[..k] + [symbols[k]];
        CountAllOne(symbols[k], p);
      }
    }

    static lemma CountAllOne(ts: Stream, p: nat)
      ensures CountAll([ts], p) == Count(ts, p)
    {
      var one := [ts];
      assert one[1..] == [];
    }

    static lemma {:induction false} ExpandLiterals(b: seq<Stream>, ts: Stream)
      requires Layered(b) && AllDefined(b, ts) && forall t :: 0 <= t < SLOTS ==> |b[t]| < 2
      ensures Expand(b, ts) == ts
    {
      if ts != [] { ExpandLiterals(b, ts[1..]); }
    }
  }
}
