/**
  The Bech32 checksum (BIP 173 and BIP 350): a recurrence over 30-bit states, and what it detects.
  Facts about single words are small lemmas; the arguments above them never look at bits.
 */
module Bech32 {

  /** A five-bit data symbol. */
  type Symbol = v: bv32 | v < 32 witness 0

  function Generator(index: nat): bv32
    requires index < 5
  {
    if index == 0 then 0x3b6a57b2 else if index == 1 then 0x26508e6d else if index == 2 then 0x1ea119fa
    else if index == 3 then 0x3d4233dd else 0x2a1462b3
  }

  function Xor(a: bv32, b: bv32): bv32 {
    a ^ b
  }

  predicate BitSet(top: bv32, n: nat)
    requires n < 5
  {
    (top >> n) & 1 == 1
  }

  /** The generators selected by the first n of the five top bits. */
  function Selected(top: bv32, n: nat): bv32
    requires n <= 5
  {
    if n == 0 then 0
    else if BitSet(top, n - 1) then Xor(Selected(top, n - 1), Generator(n - 1))
    else Selected(top, n - 1)
  }

  function Picked(c: bv32): bv32 {
    Selected(c >> 25, 5)
  }

  /** The shifted state with the picked generators g and the next symbol v folded in. */
  function Absorb(c: bv32, g: bv32, v: bv32): bv32 {
    ((c & 0x1ffffff) << 5) ^ v ^ g
  }

  /** One step of the checksum. */
  function Next(c: bv32, v: bv32): bv32 {
    Absorb(c, Picked(c), v)
  }

  function PolymodFrom(c: bv32, values: seq<Symbol>): bv32
    decreases |values|
  {
    if values == [] then c else PolymodFrom(Next(c, values[0]), values[1..])
  }

  function PolymodOf(values: seq<Symbol>): bv32 {
    PolymodFrom(1, values)
  }

  /** The loop of bech32Polymod. */
  method Polymod(values: seq<Symbol>) returns (checksum: bv32)
    ensures checksum == PolymodOf(values)
  {
    checksum := 1;
    for i := 0 to |values|
      invariant PolymodFrom(checksum, values[i..]) == PolymodOf(values)
    {
      assert values[i..][0] == values[i] && values[i..][1..] == values[i + 1..];
      checksum := PolymodStep(checksum, values[i]);
    }
  }

  /** The body of that loop: shift, fold the symbol in, then the generators the top bits select. */
  method PolymodStep(c: bv32, value: Symbol) returns (checksum: bv32)
    ensures checksum == Next(c, value)
  {
    hide Absorb, Selected, BitSet, Generator, Xor;
    var top := c >> 25;
    checksum := ((c & 0x1ffffff) << 5) ^ value;
    ghost var start := checksum;
    FoldNone(start, top);
    for index := 0 to 5
      invariant checksum == Xor(start, Selected(top, index))
    {
      FoldOne(start, top, index);
      if BitSet(top, index) {
        checksum := Xor(checksum, Generator(index));
      }
    }
    FoldAll(c, value);
  }

  lemma FoldNone(start: bv32, top: bv32)
    ensures Xor(start, Selected(top, 0)) == start
  {
    XorZero(start);
  }

  lemma FoldOne(start: bv32, top: bv32, n: nat)
    requires n < 5
    ensures BitSet(top, n) ==> Xor(start, Selected(top, n + 1)) == Xor(Xor(start, Selected(top, n)), Generator(n))
    ensures !BitSet(top, n) ==> Selected(top, n + 1) == Selected(top, n)
  {
    hide BitSet, Generator, Xor;
    XorMoves(start, Selected(top, n), Generator(n));
  }

  lemma FoldAll(c: bv32, v: Symbol)
    ensures Xor(((c & 0x1ffffff) << 5) ^ v, Selected(c >> 25, 5)) == Next(c, v)
  {
    hide Selected;
  }

  lemma XorMoves(a: bv32, b: bv32, c: bv32)
    ensures Xor(Xor(a, b), c) == Xor(a, Xor(b, c))
  {
  }

  lemma XorZero(a: bv32)
    ensures a ^ 0 == a
  {
  }

  // ---------------------------------------------------------------- words

  /** Equal top symbols. */
  ghost predicate SameTop(c: bv32, d: bv32) {
    c >> 25 == d >> 25
  }

  /** States that can differ only in their j lowest symbols. */
  ghost predicate AgreeAbove(c: bv32, d: bv32, j: nat) {
    if j == 0 then c == d
    else if j == 1 then c >> 5 == d >> 5
    else if j == 2 then c >> 10 == d >> 10
    else if j == 3 then c >> 15 == d >> 15
    else if j == 4 then c >> 20 == d >> 20
    else if j == 5 then SameTop(c, d)
    else true
  }

  lemma Narrow1(c: bv32, d: bv32) requires AgreeAbove(c, d, 1) ensures SameTop(c, d) {}
  lemma Narrow2(c: bv32, d: bv32) requires AgreeAbove(c, d, 2) ensures SameTop(c, d) {}
  lemma Narrow3(c: bv32, d: bv32) requires AgreeAbove(c, d, 3) ensures SameTop(c, d) {}
  lemma Narrow4(c: bv32, d: bv32) requires AgreeAbove(c, d, 4) ensures SameTop(c, d) {}
  lemma Narrow5(c: bv32, d: bv32) requires AgreeAbove(c, d, 5) ensures SameTop(c, d) {}
  lemma Equal0(c: bv32, d: bv32) requires AgreeAbove(c, d, 0) ensures c == d && SameTop(c, d) {}

  lemma AgreeingTops(c: bv32, d: bv32, j: nat)
    requires j <= 5 && AgreeAbove(c, d, j)
    ensures SameTop(c, d)
  {
    hide AgreeAbove, SameTop;
    if j == 0 { Equal0(c, d); } else if j == 1 { Narrow1(c, d); } else if j == 2 { Narrow2(c, d); }
    else if j == 3 { Narrow3(c, d); } else if j == 4 { Narrow4(c, d); } else { Narrow5(c, d); }
  }

  lemma Grow0(c: bv32, g: bv32, v: Symbol, w: Symbol)
    ensures AgreeAbove(Absorb(c, g, v), Absorb(c, g, w), 1) {}
  lemma Grow1(c: bv32, d: bv32, g: bv32, v: Symbol, w: Symbol)
    requires AgreeAbove(c, d, 1) ensures AgreeAbove(Absorb(c, g, v), Absorb(d, g, w), 2) {}
  lemma Grow2(c: bv32, d: bv32, g: bv32, v: Symbol, w: Symbol)
    requires AgreeAbove(c, d, 2) ensures AgreeAbove(Absorb(c, g, v), Absorb(d, g, w), 3) {}
  lemma Grow3(c: bv32, d: bv32, g: bv32, v: Symbol, w: Symbol)
    requires AgreeAbove(c, d, 3) ensures AgreeAbove(Absorb(c, g, v), Absorb(d, g, w), 4) {}
  lemma Grow4(c: bv32, d: bv32, g: bv32, v: Symbol, w: Symbol)
    requires AgreeAbove(c, d, 4) ensures AgreeAbove(Absorb(c, g, v), Absorb(d, g, w), 5) {}
  lemma Grow5(c: bv32, d: bv32) ensures AgreeAbove(c, d, 6) {}

  lemma SamePicked(c: bv32, d: bv32)
    requires SameTop(c, d)
    ensures Picked(c) == Picked(d)
  {
    hide Selected;
  }

  /** A step moves a difference up by one symbol. */
  lemma DifferenceMovesUp(c: bv32, d: bv32, v: Symbol, w: Symbol, j: nat)
    requires j <= 5 && AgreeAbove(c, d, j)
    ensures AgreeAbove(Next(c, v), Next(d, w), j + 1)
  {
    hide AgreeAbove, SameTop, Picked, Absorb;
    AgreeingTops(c, d, j);
    SamePicked(c, d);
    var g := Picked(c);
    if j == 0 { Equal0(c, d); Grow0(c, g, v, w); } else if j == 1 { Grow1(c, d, g, v, w); } else if j == 2 { Grow2(c, d, g, v, w); }
    else if j == 3 { Grow3(c, d, g, v, w); } else if j == 4 { Grow4(c, d, g, v, w); } else { Grow5(Next(c, v), Next(d, w)); }
  }

  lemma AbsorbSeparates(c: bv32, d: bv32, g: bv32, v: Symbol, w: Symbol)
    requires SameTop(c, d) && Absorb(c, g, v) == Absorb(d, g, w)
    ensures c == d && v == w
  {
  }

  /** With equal tops, equal next states come from equal states and equal symbols. */
  lemma StepSeparates(c: bv32, d: bv32, v: Symbol, w: Symbol)
    requires SameTop(c, d) && Next(c, v) == Next(d, w)
    ensures c == d && v == w
  {
    hide SameTop, Picked, Absorb;
    SamePicked(c, d);
    AbsorbSeparates(c, d, Picked(c), v, w);
  }

  ghost predicate Bounded(c: bv32) {
    c < 0x4000_0000
  }

  /** The generators' five low bits, written out for the five top bits of a state. */
  function LowPicked(c: bv32): bv32 {
    (if (c >> 25) & 1 == 1 then 0x12 else 0) ^ (if (c >> 26) & 1 == 1 then 0x0d else 0)
    ^ (if (c >> 27) & 1 == 1 then 0x1a else 0) ^ (if (c >> 28) & 1 == 1 then 0x1d else 0)
    ^ (if (c >> 29) & 1 == 1 then 0x13 else 0)
  }

  function AllPicked(c: bv32): bv32 {
    (if (c >> 25) & 1 == 1 then 0x3b6a57b2 else 0) ^ (if (c >> 26) & 1 == 1 then 0x26508e6d else 0)
    ^ (if (c >> 27) & 1 == 1 then 0x1ea119fa else 0) ^ (if (c >> 28) & 1 == 1 then 0x3d4233dd else 0)
    ^ (if (c >> 29) & 1 == 1 then 0x2a1462b3 else 0)
  }

  lemma TopBits(c: bv32)
    ensures ((c >> 25) >> 0) & 1 == (c >> 25) & 1
    ensures ((c >> 25) >> 1) & 1 == (c >> 26) & 1
    ensures ((c >> 25) >> 2) & 1 == (c >> 27) & 1
    ensures ((c >> 25) >> 3) & 1 == (c >> 28) & 1
    ensures ((c >> 25) >> 4) & 1 == (c >> 29) & 1
  {
  }

  lemma PickedOut(c: bv32)
    ensures Picked(c) == AllPicked(c)
  {
    var top := c >> 25;
    TopBits(c);
    assert Selected(top, 1) == if BitSet(top, 0) then Xor(Selected(top, 0), Generator(0)) else Selected(top, 0);
    assert Selected(top, 2) == if BitSet(top, 1) then Xor(Selected(top, 1), Generator(1)) else Selected(top, 1);
    assert Selected(top, 3) == if BitSet(top, 2) then Xor(Selected(top, 2), Generator(2)) else Selected(top, 2);
    assert Selected(top, 4) == if BitSet(top, 3) then Xor(Selected(top, 3), Generator(3)) else Selected(top, 3);
    assert Selected(top, 5) == if BitSet(top, 4) then Xor(Selected(top, 4), Generator(4)) else Selected(top, 4);
  }

  lemma LowOfAll(c: bv32)
    ensures AllPicked(c) & 31 == LowPicked(c)
  {
  }

  lemma AllPickedBounded(c: bv32)
    ensures Bounded(AllPicked(c))
  {
  }

  lemma AbsorbLow(c: bv32, d: bv32, g: bv32, h: bv32, v: Symbol)
    requires Absorb(c, g, v) == Absorb(d, h, v)
    ensures g & 31 == h & 31
  {
  }

  lemma AbsorbBounded(c: bv32, g: bv32, v: Symbol)
    requires Bounded(g)
    ensures Bounded(Absorb(c, g, v))
  {
  }

  /** The five low-bit columns are independent, so they reveal the top symbol. */
  lemma LowReveals(c: bv32, d: bv32)
    requires Bounded(c) && Bounded(d) && LowPicked(c) == LowPicked(d)
    ensures SameTop(c, d)
  {
  }

  /** No two states are ever merged. */
  lemma StepInjective(c: bv32, d: bv32, v: Symbol)
    requires Bounded(c) && Bounded(d) && Next(c, v) == Next(d, v)
    ensures c == d
  {
    hide SameTop, Picked, Absorb, Bounded, AllPicked, LowPicked;
    PickedOut(c);
    PickedOut(d);
    LowOfAll(c);
    LowOfAll(d);
    AbsorbLow(c, d, Picked(c), Picked(d), v);
    LowReveals(c, d);
    StepSeparates(c, d, v, v);
  }

  lemma NextBounded(c: bv32, v: Symbol)
    ensures Bounded(Next(c, v))
  {
    hide Picked, Absorb, Bounded, AllPicked;
    PickedOut(c);
    AllPickedBounded(c);
    AbsorbBounded(c, Picked(c), v);
  }

  // ---------------------------------------------------------------- what the checksum detects

  lemma {:induction false} PolymodAppend(c: bv32, s: seq<Symbol>, t: seq<Symbol>)
    ensures PolymodFrom(c, s + t) == PolymodFrom(PolymodFrom(c, s), t)
    decreases |s|
  {
    if s == [] {
      assert s + t == t;
    } else {
      PolymodAppend(Next(c, s[0]), s[1..], t);
      assert (s + t)[0] == s[0] && (s + t)[1..] == s[1..] + t;
    }
  }

  lemma {:induction false} PolymodBounded(c: bv32, s: seq<Symbol>)
    requires Bounded(c)
    ensures Bounded(PolymodFrom(c, s))
    decreases |s|
  {
    hide Bounded, Next;
    if s != [] {
      NextBounded(c, s[0]);
      PolymodBounded(Next(c, s[0]), s[1..]);
    }
  }

  /** Different states stay different under any common continuation, however long. */
  lemma {:induction false} DifferenceSurvives(c: bv32, d: bv32, s: seq<Symbol>)
    requires Bounded(c) && Bounded(d) && c != d
    ensures PolymodFrom(c, s) != PolymodFrom(d, s)
    decreases |s|
  {
    hide Bounded, Next;
    if s != [] {
      NextBounded(c, s[0]);
      NextBounded(d, s[0]);
      if Next(c, s[0]) == Next(d, s[0]) {
        StepInjective(c, d, s[0]);
      }
      DifferenceSurvives(Next(c, s[0]), Next(d, s[0]), s[1..]);
    }
  }

  /** Up to six symbols fit in a state, so different windows of that length lead to different states. */
  lemma {:induction false} WindowSeparates(c: bv32, d: bv32, s: seq<Symbol>, t: seq<Symbol>, j: nat)
    requires |s| == |t| && j + |s| <= 6 && AgreeAbove(c, d, j) && (c != d || s != t)
    ensures PolymodFrom(c, s) != PolymodFrom(d, t)
    decreases |s|
  {
    hide AgreeAbove, SameTop, Next;
    if s == [] {
    } else {
      var c', d' := Next(c, s[0]), Next(d, t[0]);
      AgreeingTops(c, d, j);
      DifferenceMovesUp(c, d, s[0], t[0], j);
      assert s == [s[0]] + s[1..] && t == [t[0]] + t[1..];
      if c' == d' {
        StepSeparates(c, d, s[0], t[0]);
      }
      WindowSeparates(c', d', s[1..], t[1..], j + 1);
    }
  }

  /**
    Two symbol lists that agree outside a window of at most six consecutive places never have the
    same checksum, for any length: single substitutions, swaps of neighbours and short bursts are
    all detected.
   */
  lemma BurstDetected(pre: seq<Symbol>, s: seq<Symbol>, t: seq<Symbol>, post: seq<Symbol>)
    requires |s| == |t| <= 6 && s != t
    ensures PolymodOf(pre + s + post) != PolymodOf(pre + t + post)
  {
    hide Bounded, Next, AgreeAbove;
    var c := PolymodFrom(1, pre);
    OneIsBounded();
    PolymodBounded(1, pre);
    AgreeSelf(c);
    WindowSeparates(c, c, s, t, 0);
    PolymodBounded(c, s);
    PolymodBounded(c, t);
    DifferenceSurvives(PolymodFrom(c, s), PolymodFrom(c, t), post);
    PolymodAppend(1, pre, s);
    PolymodAppend(1, pre, t);
    PolymodAppend(1, pre + s, post);
    PolymodAppend(1, pre + t, post);
  }

  lemma OneIsBounded()
    ensures Bounded(1)
  {
  }

  lemma AgreeSelf(c: bv32)
    ensures AgreeAbove(c, c, 0)
  {
  }

  /** A single substitution, anywhere in a list of any length, changes the checksum. */
  lemma SubstitutionDetected(s: seq<Symbol>, i: nat, v: Symbol)
    requires i < |s| && s[i] != v
    ensures PolymodOf(s[i := v]) != PolymodOf(s)
  {
    BurstDetected(s[..i], [s[i]], [v], s[i + 1..]);
    assert s == s[..i] + [s[i]] + s[i + 1..];
    assert s[i := v] == s[..i] + [v] + s[i + 1..];
  }

  /** The same, by position: lists that differ, and only within six consecutive places. */
  lemma DifferenceDetected(s: seq<Symbol>, t: seq<Symbol>, a: nat)
    requires |s| == |t| && s != t && a <= |s|
    requires forall i :: 0 <= i < |s| && !(a <= i < a + 6) ==> s[i] == t[i]
    ensures PolymodOf(s) != PolymodOf(t)
  {
    var b := if a + 6 <= |s| then a + 6 else |s|;
    var pre, post := s[..a], s[b..];
    assert t[..a] == pre && t[b..] == post;
    assert s == pre + s[a..b] + post;
    assert t == pre + t[a..b] + post;
    BurstDetected(pre, s[a..b], t[a..b], post);
  }
}
