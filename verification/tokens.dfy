/** Token streams: what a compressed name means, how often pairs occur, and what replacing a pair does. */
module Tokens {

  const SLOTS: nat := 256
  const PAIRS: nat := 0x1_0000

  type Stream = seq<nat>

  // ---------------------------------------------------------------------------
  // Slots
  // ---------------------------------------------------------------------------

  /** A slot is empty, a literal that stands for its own number, or a compound of two slots. */
  predicate Literal(best: seq<Stream>, t: nat)
    requires |best| == SLOTS
  {
    t < SLOTS && best[t] == [t]
  }

  predicate Compound(best: seq<Stream>, t: nat)
    requires |best| == SLOTS
  {
    t < SLOTS && |best[t]| == 2
  }

  predicate Defined(best: seq<Stream>, t: nat)
    requires |best| == SLOTS
  {
    Literal(best, t) || Compound(best, t)
  }

  /** Every compound slot refers only to literals or to compound slots with a higher number. */
  predicate Layered(best: seq<Stream>) {
    && |best| == SLOTS
    && (forall t :: 0 <= t < SLOTS ==> best[t] == [] || Literal(best, t) || Compound(best, t))
    && (forall t, j :: 0 <= t < SLOTS && |best[t]| == 2 && 0 <= j < 2 ==>
          Literal(best, best[t][j]) || (Compound(best, best[t][j]) && t < best[t][j]))
  }

  function Rank(best: seq<Stream>, t: nat): nat
    requires |best| == SLOTS && t < SLOTS
  {
    if Literal(best, t) then 0 else SLOTS - t
  }

  predicate AllDefined(best: seq<Stream>, ts: Stream)
    requires |best| == SLOTS
  {
    forall i :: 0 <= i < |ts| ==> Defined(best, ts[i])
  }

  /** The characters of one slot. */
  function ExpandToken(best: seq<Stream>, t: nat): Stream
    requires Layered(best) && Defined(best, t)
    decreases Rank(best, t)
  {
    if Literal(best, t) then [t]
    else ExpandToken(best, best[t][0]) + ExpandToken(best, best[t][1])
  }

  /** The characters of a stream. */
  function Expand(best: seq<Stream>, ts: Stream): Stream
    requires Layered(best) && AllDefined(best, ts)
  {
    if ts == [] then [] else ExpandToken(best, ts[0]) + Expand(best, ts[1..])
  }

  lemma {:induction false} ExpandConcat(best: seq<Stream>, a: Stream, b: Stream)
    requires Layered(best) && AllDefined(best, a) && AllDefined(best, b)
    ensures AllDefined(best, a + b) && Expand(best, a + b) == Expand(best, a) + Expand(best, b)
  {
    assert AllDefined(best, a + b);
    if a == [] {
      assert a + b == b;
    } else {
      assert (a + b)[1..] == a[1..] + b;
      ExpandConcat(best, a[1..], b);
    }
  }

  lemma ExpandTokenNotEmpty(best: seq<Stream>, t: nat)
    requires Layered(best) && Defined(best, t)
    ensures |ExpandToken(best, t)| > 0
    decreases Rank(best, t)
  {
    if !Literal(best, t) { ExpandTokenNotEmpty(best, best[t][0]); }
  }

  /** Filling an empty slot below all compound ones changes no meaning. */
  lemma {:induction false} FillKeepsToken(best: seq<Stream>, x: nat, a: nat, b: nat, t: nat)
    requires Layered(best) && x < SLOTS && best[x] == [] && Defined(best, t) && Defined(best, a) && Defined(best, b)
    requires forall c :: 0 <= c < SLOTS && |best[c]| == 2 ==> x < c
    ensures var best' := best[x := [a, b]];
            Layered(best') && Defined(best', t) && ExpandToken(best', t) == ExpandToken(best, t)
    decreases Rank(best, t)
  {
    FillLayered(best, x, a, b);
    if !Literal(best, t) {
      FillKeepsToken(best, x, a, b, best[t][0]);
      FillKeepsToken(best, x, a, b, best[t][1]);
    }
  }

  lemma FillLayered(best: seq<Stream>, x: nat, a: nat, b: nat)
    requires Layered(best) && x < SLOTS && best[x] == [] && Defined(best, a) && Defined(best, b)
    requires forall c :: 0 <= c < SLOTS && |best[c]| == 2 ==> x < c
    ensures Layered(best[x := [a, b]])
    ensures forall t: nat :: Defined(best, t) ==> t != x && Defined(best[x := [a, b]], t)
  {
    var best' := best[x := [a, b]];
    forall t: nat | Defined(best, t) ensures t != x && Defined(best', t) {}
  }

  lemma {:induction false} FillKeepsStream(best: seq<Stream>, x: nat, a: nat, b: nat, ts: Stream)
    requires Layered(best) && x < SLOTS && best[x] == [] && AllDefined(best, ts) && Defined(best, a) && Defined(best, b)
    requires forall c :: 0 <= c < SLOTS && |best[c]| == 2 ==> x < c
    ensures var best' := best[x := [a, b]];
            Layered(best') && AllDefined(best', ts) && Expand(best', ts) == Expand(best, ts)
  {
    FillLayered(best, x, a, b);
    if ts != [] {
      FillKeepsToken(best, x, a, b, ts[0]);
      FillKeepsStream(best, x, a, b, ts[1..]);
    }
  }

  // ---------------------------------------------------------------------------
  // Replacing a pair
  // ---------------------------------------------------------------------------

  /** Replace the pair a, b by x, from left to right. */
  function Replace(ts: Stream, a: nat, b: nat, x: nat): Stream {
    if |ts| < 2 then ts
    else if ts[0] == a && ts[1] == b then [x] + Replace(ts[2..], a, b, x)
    else [ts[0]] + Replace(ts[1..], a, b, x)
  }

  predicate OccursAt(ts: Stream, i: nat, a: nat, b: nat) {
    i + 1 < |ts| && ts[i] == a && ts[i + 1] == b
  }

  predicate Occurs(ts: Stream, a: nat, b: nat) {
    exists i :: 0 <= i < |ts| && OccursAt(ts, i, a, b)
  }

  lemma OccursSplit(ts: Stream, a: nat, b: nat)
    requires |ts| >= 2
    ensures Occurs(ts, a, b) <==> (ts[0] == a && ts[1] == b) || Occurs(ts[1..], a, b)
  {
    if Occurs(ts, a, b) {
      var i :| 0 <= i < |ts| && OccursAt(ts, i, a, b);
      if i > 0 { assert OccursAt(ts[1..], i - 1, a, b); }
    }
    if ts[0] == a && ts[1] == b { assert OccursAt(ts, 0, a, b); }
    if Occurs(ts[1..], a, b) {
      var i :| 0 <= i < |ts[1..]| && OccursAt(ts[1..], i, a, b);
      assert OccursAt(ts, i + 1, a, b);
    }
  }

  /** The pair is gone, provided that x is new. */
  lemma {:induction false} ReplaceRemoves(ts: Stream, a: nat, b: nat, x: nat)
    requires x != a && x != b
    ensures !Occurs(Replace(ts, a, b, x), a, b)
    ensures var rs := Replace(ts, a, b, x); rs != [] <==> ts != []
    ensures ts != [] ==> var r := Replace(ts, a, b, x)[0]; r == ts[0] || r == x
    decreases |ts|
  {
    if |ts| >= 2 {
      var rs := Replace(ts, a, b, x);
      ReplaceRemoves(if ts[0] == a && ts[1] == b then ts[2..] else ts[1..], a, b, x);
      if |rs| >= 2 { OccursSplit(rs, a, b); }
    }
  }

  lemma ReplaceUnfolds(ts: Stream, a: nat, b: nat, x: nat)
    requires |ts| >= 2
    ensures Replace(ts, a, b, x)
            == if ts[0] == a && ts[1] == b then [x] + Replace(ts[2..], a, b, x) else [ts[0]] + Replace(ts[1..], a, b, x)
  {}

  /** Strictly shorter if the pair occurs, and never longer. */
  lemma {:induction false} ReplaceShortens(ts: Stream, a: nat, b: nat, x: nat)
    ensures |Replace(ts, a, b, x)| <= |ts|
    ensures Occurs(ts, a, b) ==> |Replace(ts, a, b, x)| < |ts|
    ensures !Occurs(ts, a, b) ==> Replace(ts, a, b, x) == ts
    decreases |ts|
  {
    if |ts| >= 2 {
      OccursSplit(ts, a, b);
      ReplaceUnfolds(ts, a, b, x);
      assert [ts[0]] + ts[1..] == ts;
      hide Replace, Occurs;
      if ts[0] == a && ts[1] == b { ReplaceShortens(ts[2..], a, b, x); } else { ReplaceShortens(ts[1..], a, b, x); }
    }
  }

  /** The leftmost occurrence is replaced first, and the search goes on behind it. */
  lemma {:induction false} ReplaceLeftmost(ts: Stream, i: nat, a: nat, b: nat, x: nat)
    requires OccursAt(ts, i, a, b) && forall j :: 0 <= j < i ==> !OccursAt(ts, j, a, b)
    ensures Replace(ts, a, b, x) == ts[..i] + [x] + Replace(ts[i + 2..], a, b, x)
    decreases i
  {
    ReplaceUnfolds(ts, a, b, x);
    hide Replace;
    if i == 0 {
      assert ts[..0] + [x] == [x];
    } else {
      forall j | 0 <= j < i - 1 ensures !OccursAt(ts[1..], j, a, b) { assert !OccursAt(ts, j + 1, a, b); }
      assert !OccursAt(ts, 0, a, b);
      ReplaceLeftmost(ts[1..], i - 1, a, b, x);
      var rest := Replace(ts[i + 2..], a, b, x);
      assert ts[1..][i + 1..] == ts[i + 2..];
      assert [ts[0]] + ts[1..][..i - 1] == ts[..i];
      assert [ts[0]] + (ts[1..][..i - 1] + [x] + rest) == [ts[0]] + ts[1..][..i - 1] + [x] + rest;
    }
  }

  lemma ExpandPair(best: seq<Stream>, x: nat, a: nat, b: nat)
    requires Layered(best) && Compound(best, x) && best[x] == [a, b]
    ensures Defined(best, x) && Defined(best, a) && Defined(best, b)
    ensures ExpandToken(best, x) == ExpandToken(best, a) + ExpandToken(best, b)
  {
    assert best[x][0] == a && best[x][1] == b;
  }

  lemma ExpandFirst(best: seq<Stream>, t: nat, rest: Stream)
    requires Layered(best) && Defined(best, t) && AllDefined(best, rest)
    ensures AllDefined(best, [t] + rest) && Expand(best, [t] + rest) == ExpandToken(best, t) + Expand(best, rest)
  {
    assert ([t] + rest)[1..] == rest;
  }

  /** The meaning stays, if x means what the pair means. */
  lemma {:induction false} ReplaceKeepsMeaning(best: seq<Stream>, ts: Stream, a: nat, b: nat, x: nat)
    requires Layered(best) && AllDefined(best, ts) && Compound(best, x) && best[x] == [a, b]
    ensures AllDefined(best, Replace(ts, a, b, x))
    ensures Expand(best, Replace(ts, a, b, x)) == Expand(best, ts)
    decreases |ts|
  {
    hide Layered, ExpandToken;
    if |ts| >= 2 {
      if ts[0] == a && ts[1] == b {
        ReplaceKeepsMeaning(best, ts[2..], a, b, x);
        ExpandPair(best, x, a, b);
        ExpandFirst(best, x, Replace(ts[2..], a, b, x));
        assert ts[1..][1..] == ts[2..];
      } else {
        ReplaceKeepsMeaning(best, ts[1..], a, b, x);
        ExpandFirst(best, ts[0], Replace(ts[1..], a, b, x));
      }
    }
  }

  // ---------------------------------------------------------------------------
  // Counting pairs
  // ---------------------------------------------------------------------------

  function PairIndex(a: nat, b: nat): nat { b * 256 + a }

  /** How often the pair with that index occurs next to each other. */
  function Count(ts: Stream, p: nat): nat {
    if |ts| < 2 then 0
    else (if PairIndex(ts[0], ts[1]) == p then 1 else 0) + Count(ts[1..], p)
  }

  function CountAll(symbols: seq<Stream>, p: nat): nat {
    if symbols == [] then 0 else Count(symbols[0], p) + CountAll(symbols[1..], p)
  }

  lemma {:induction false} CountAllConcat(a: seq<Stream>, b: seq<Stream>, p: nat)
    ensures CountAll(a + b, p) == CountAll(a, p) + CountAll(b, p)
  {
    if a == [] {
      assert a + b == b;
    } else {
      assert (a + b)[1..] == a[1..] + b;
      CountAllConcat(a[1..], b, p);
    }
  }

  /** Changing one stream changes the count by the difference. */
  lemma CountAllUpdate(symbols: seq<Stream>, k: nat, ts: Stream, p: nat)
    requires k < |symbols|
    ensures CountAll(symbols[k := ts], p) == CountAll(symbols, p) - Count(symbols[k], p) + Count(ts, p)
  {
    assert symbols == symbols[..k] + ([symbols[k]] + symbols[k + 1..]);
    assert symbols[k := ts] == symbols[..k] + ([ts] + symbols[k + 1..]);
    CountAllConcat(symbols[..k], [symbols[k]] + symbols[k + 1..], p);
    CountAllConcat(symbols[..k], [ts] + symbols[k + 1..], p);
    assert ([symbols[k]] + symbols[k + 1..])[1..] == symbols[k + 1..];
    assert ([ts] + symbols[k + 1..])[1..] == symbols[k + 1..];
  }

  /** Where the pair occurs. */
  ghost function Places(ts: Stream, a: nat, b: nat): set<nat> { set i: nat | i < |ts| && OccursAt(ts, i, a, b) }

  lemma PlacesShift(ts: Stream, a: nat, b: nat)
    requires ts != []
    ensures Places(ts, a, b)
            == (if OccursAt(ts, 0, a, b) then {0} else {}) + (set i: nat | i in Places(ts[1..], a, b) :: i + 1)
  {
    forall i: nat | i in Places(ts, a, b) && i > 0 ensures i - 1 in Places(ts[1..], a, b) {
      assert OccursAt(ts[1..], i - 1, a, b);
    }
    forall i: nat | i in Places(ts[1..], a, b) ensures i + 1 in Places(ts, a, b) {
      assert OccursAt(ts, i + 1, a, b);
    }
    forall i: nat | i in Places(ts, a, b) && i > 0
      ensures i in (set j: nat | j in Places(ts[1..], a, b) :: j + 1)
    {
      assert i - 1 in Places(ts[1..], a, b);
    }
  }

  lemma {:induction false} ShiftedSize(s: set<nat>)
    ensures |set i: nat | i in s :: i + 1| == |s|
  {
    var t := set i: nat | i in s :: i + 1;
    if s != {} {
      var x :| x in s;
      var rest := set i: nat | i in s - {x} :: i + 1;
      ShiftedSize(s - {x});
      forall k | k in t ensures k in rest + {x + 1} {
        var i: nat :| i in s && k == i + 1;
        if i != x { assert i in s - {x}; }
      }
      assert t == rest + {x + 1};
    }
  }

  /** The count is the number of places, overlapping ones included. */
  lemma {:induction false} CountsPlaces(ts: Stream, a: nat, b: nat)
    requires InSlots(ts) && a < SLOTS && b < SLOTS
    ensures Count(ts, PairIndex(a, b)) == |Places(ts, a, b)|
  {
    if |ts| < 2 {
      assert Places(ts, a, b) == {};
    } else {
      CountsPlaces(ts[1..], a, b);
      PlacesShift(ts, a, b);
      ShiftedSize(Places(ts[1..], a, b));
      assert PairIndex(ts[0], ts[1]) == PairIndex(a, b) <==> OccursAt(ts, 0, a, b);
    }
  }

  predicate InSlots(ts: Stream) { forall i :: 0 <= i < |ts| ==> ts[i] < SLOTS }

  lemma {:induction false} CountPositive(ts: Stream, a: nat, b: nat)
    requires InSlots(ts) && a < SLOTS && b < SLOTS
    ensures Count(ts, PairIndex(a, b)) > 0 <==> Occurs(ts, a, b)
  {
    if |ts| >= 2 {
      CountPositive(ts[1..], a, b);
      OccursSplit(ts, a, b);
      assert PairIndex(ts[0], ts[1]) == PairIndex(a, b) ==> ts[0] == a && ts[1] == b;
    }
  }

  lemma {:induction false} CountAllPositive(symbols: seq<Stream>, p: nat)
    ensures CountAll(symbols, p) > 0 <==> exists k :: 0 <= k < |symbols| && Count(symbols[k], p) > 0
  {
    if symbols != [] {
      CountAllPositive(symbols[1..], p);
      assert forall k :: 0 <= k < |symbols[1..]| ==> symbols[1..][k] == symbols[k + 1];
      if exists k :: 0 <= k < |symbols| && Count(symbols[k], p) > 0 {
        var k :| 0 <= k < |symbols| && Count(symbols[k], p) > 0;
        if k > 0 { assert Count(symbols[1..][k - 1], p) > 0; }
      }
      if CountAll(symbols[1..], p) > 0 {
        var k :| 0 <= k < |symbols[1..]| && Count(symbols[1..][k], p) > 0;
        assert Count(symbols[k + 1], p) > 0;
      }
    }
  }

  function TotalLength(symbols: seq<Stream>): nat {
    if symbols == [] then 0 else |symbols[0]| + TotalLength(symbols[1..])
  }
}
