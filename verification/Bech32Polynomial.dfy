/**
  The Bech32 checksum as BIP 173 defines it: a state is a polynomial of degree five over GF(32), and a
  step multiplies it by x, adds the symbol and reduces modulo the generator polynomial.
 */
module Bech32Polynomial {
  import opened Bech32

  /** Twice an element of GF(32), whose elements are polynomials modulo x^5 + x^3 + 1. */
  function Doubled(a: bv32): bv32 {
    ((a << 1) & 31) ^ (if a & 16 == 16 then 9 else 0)
  }

  /** The product in GF(32). */
  function Times(a: bv32, b: bv32): bv32 {
    (if b & 1 == 1 then a else 0)
    ^ (if b & 2 == 2 then Doubled(a) else 0)
    ^ (if b & 4 == 4 then Doubled(Doubled(a)) else 0)
    ^ (if b & 8 == 8 then Doubled(Doubled(Doubled(a))) else 0)
    ^ (if b & 16 == 16 then Doubled(Doubled(Doubled(Doubled(a)))) else 0)
  }

  /** The coefficient of x^k: the symbol at that place. */
  function Coefficient(c: bv32, k: nat): bv32 {
    if k == 0 then c & 31 else if k == 1 then (c >> 5) & 31 else if k == 2 then (c >> 10) & 31
    else if k == 3 then (c >> 15) & 31 else if k == 4 then (c >> 20) & 31 else (c >> 25) & 31
  }

  lemma Absorbs(c: bv32, g: bv32, v: Symbol)
    requires Bounded(c)
    ensures Coefficient(Absorb(c, g, v), 5) == Xor(Coefficient(c, 4), Coefficient(g, 5))
    ensures Coefficient(Absorb(c, g, v), 4) == Xor(Coefficient(c, 3), Coefficient(g, 4))
    ensures Coefficient(Absorb(c, g, v), 3) == Xor(Coefficient(c, 2), Coefficient(g, 3))
    ensures Coefficient(Absorb(c, g, v), 2) == Xor(Coefficient(c, 1), Coefficient(g, 2))
    ensures Coefficient(Absorb(c, g, v), 1) == Xor(Coefficient(c, 0), Coefficient(g, 1))
    ensures Coefficient(Absorb(c, g, v), 0) == Xor(v, Coefficient(g, 0))
  {
  }

  // The picked words are the top coefficient times the generator polynomial
  // x^6 + 29 x^5 + 22 x^4 + 20 x^3 + 21 x^2 + 29 x + 18, without its leading term.
  lemma Picked5(c: bv32) requires Bounded(c) ensures Coefficient(AllPicked(c), 5) == Times(29, c >> 25) {}
  lemma Picked4(c: bv32) requires Bounded(c) ensures Coefficient(AllPicked(c), 4) == Times(22, c >> 25) {}
  lemma Picked3(c: bv32) requires Bounded(c) ensures Coefficient(AllPicked(c), 3) == Times(20, c >> 25) {}
  lemma Picked2(c: bv32) requires Bounded(c) ensures Coefficient(AllPicked(c), 2) == Times(21, c >> 25) {}
  lemma Picked1(c: bv32) requires Bounded(c) ensures Coefficient(AllPicked(c), 1) == Times(29, c >> 25) {}
  lemma Picked0(c: bv32) requires Bounded(c) ensures Coefficient(AllPicked(c), 0) == Times(18, c >> 25) {}

  lemma TopCoefficient(c: bv32)
    requires Bounded(c)
    ensures c >> 25 == Coefficient(c, 5)
  {
  }

  /** One step, coefficient by coefficient: multiplication by x, the new symbol, and the reduction by the
      top coefficient's multiple of the generator. */
  lemma StepIsReduction(c: bv32, v: Symbol)
    requires Bounded(c)
    ensures
      var t, d := Coefficient(c, 5), Next(c, v);
      && Coefficient(d, 5) == Xor(Coefficient(c, 4), Times(29, t))
      && Coefficient(d, 4) == Xor(Coefficient(c, 3), Times(22, t))
      && Coefficient(d, 3) == Xor(Coefficient(c, 2), Times(20, t))
      && Coefficient(d, 2) == Xor(Coefficient(c, 1), Times(21, t))
      && Coefficient(d, 1) == Xor(Coefficient(c, 0), Times(29, t))
      && Coefficient(d, 0) == Xor(v, Times(18, t))
  {
    hide Picked, Absorb, AllPicked, Times, Bounded, Coefficient, Xor;
    PickedOut(c);
    TopCoefficient(c);
    Picked0(c);
    Picked1(c);
    Picked2(c);
    Picked3(c);
    Picked4(c);
    Picked5(c);
    Absorbs(c, Picked(c), v);
  }

  // ---------------------------------------------------------------- six symbols that settle a checksum

  /** A symbol taken in below the others. */
  function Taken(e: bv32, v: bv32): bv32 {
    (e << 5) ^ v
  }

  /** The state has j symbols at most. */
  ghost predicate Fits(e: bv32, j: nat) {
    if j == 0 then e == 0 else if j == 1 then e < 0x20 else if j == 2 then e < 0x400 else if j == 3 then e < 0x8000
    else if j == 4 then e < 0x10_0000 else if j == 5 then e < 0x200_0000 else Bounded(e)
  }

  lemma TakenFits0(e: bv32, v: Symbol) requires Fits(e, 0) ensures Fits(Taken(e, v), 1) && Fits(e, 5) {}
  lemma TakenFits1(e: bv32, v: Symbol) requires Fits(e, 1) ensures Fits(Taken(e, v), 2) && Fits(e, 5) {}
  lemma TakenFits2(e: bv32, v: Symbol) requires Fits(e, 2) ensures Fits(Taken(e, v), 3) && Fits(e, 5) {}
  lemma TakenFits3(e: bv32, v: Symbol) requires Fits(e, 3) ensures Fits(Taken(e, v), 4) && Fits(e, 5) {}
  lemma TakenFits4(e: bv32, v: Symbol) requires Fits(e, 4) ensures Fits(Taken(e, v), 5) && Fits(e, 5) {}
  lemma TakenFits5(e: bv32, v: Symbol) requires Fits(e, 5) ensures Fits(Taken(e, v), 6) {}

  lemma TakenFits(e: bv32, v: Symbol, j: nat)
    requires j < 6 && Fits(e, j)
    ensures Fits(Taken(e, v), j + 1) && Fits(e, 5)
  {
    hide Fits, Taken;
    if j == 0 { TakenFits0(e, v); } else if j == 1 { TakenFits1(e, v); } else if j == 2 { TakenFits2(e, v); }
    else if j == 3 { TakenFits3(e, v); } else if j == 4 { TakenFits4(e, v); } else { TakenFits5(e, v); }
  }

  lemma SameTopAbove(c: bv32, e: bv32)
    requires Fits(e, 5)
    ensures Xor(c, e) >> 25 == c >> 25
  {
  }

  lemma SamePickedAbove(c: bv32, e: bv32)
    requires Fits(e, 5)
    ensures Picked(Xor(c, e)) == Picked(c)
  {
    hide Selected, Xor, Fits;
    SameTopAbove(c, e);
  }

  lemma AbsorbDifference(c: bv32, e: bv32, g: bv32, v: Symbol)
    requires Fits(e, 5)
    ensures Absorb(Xor(c, e), g, v) == Xor(Absorb(c, g, 0), Taken(e, v))
  {
  }

  /** A difference below the top symbol moves up by one symbol and takes the new symbol in. */
  lemma DifferenceMoves(c: bv32, e: bv32, v: Symbol)
    requires Fits(e, 5)
    ensures Next(Xor(c, e), v) == Xor(Next(c, 0), Taken(e, v))
  {
    hide Absorb, Picked, Xor, Taken, Fits;
    SamePickedAbove(c, e);
    AbsorbDifference(c, e, Picked(c), v);
  }

  function ZeroSymbols(n: nat): (s: seq<Symbol>)
    ensures |s| == n && forall i :: 0 <= i < n ==> s[i] == 0
  {
    seq(n, _ => 0)
  }

  /** Symbols taken in one after the other. */
  function AllTaken(e: bv32, s: seq<Symbol>): bv32
    decreases |s|
  {
    if s == [] then e else AllTaken(Taken(e, s[0]), s[1..])
  }

  /** Symbols after a state change what as many zeros give by exactly those symbols. */
  lemma {:induction false} SymbolsAfter(c: bv32, e: bv32, s: seq<Symbol>, j: nat)
    requires j + |s| <= 6 && Fits(e, j)
    ensures PolymodFrom(Xor(c, e), s) == Xor(PolymodFrom(c, ZeroSymbols(|s|)), AllTaken(e, s))
    decreases |s|
  {
    hide Next, Xor, Taken, Fits;
    if s != [] {
      TakenFits(e, s[0], j);
      DifferenceMoves(c, e, s[0]);
      SymbolsAfter(Next(c, 0), Taken(e, s[0]), s[1..], j + 1);
      assert ZeroSymbols(|s|)[1..] == ZeroSymbols(|s| - 1);
    }
  }

  /** The six symbols that bring a list to a wanted checksum. */
  function ChecksumSymbols(s: seq<Symbol>, wanted: bv32): (r: seq<Symbol>)
    ensures |r| == 6
  {
    SixOf(Xor(PolymodOf(s + ZeroSymbols(6)), wanted))
  }

  /** The six symbols of a state, the top one first. */
  function SixOf(p: bv32): (r: seq<Symbol>)
    ensures |r| == 6
  {
    [(p >> 25) & 31, (p >> 20) & 31, (p >> 15) & 31, (p >> 10) & 31, (p >> 5) & 31, p & 31]
  }

  lemma {:induction false} AllTakenSteps(e: bv32, a: Symbol, b: Symbol, s: seq<Symbol>)
    ensures AllTaken(e, [a, b] + s) == AllTaken(Taken(Taken(e, a), b), s)
  {
    hide Taken;
    assert ([a, b] + s)[1..] == [b] + s && ([b] + s)[1..] == s;
  }

  lemma TakenBack(p: bv32)
    requires Bounded(p)
    ensures
      Taken(Taken(Taken(Taken(Taken(Taken(0, (p >> 25) & 31), (p >> 20) & 31), (p >> 15) & 31), (p >> 10) & 31), (p >> 5) & 31), p & 31) == p
  {
  }

  /** Taking the symbols of a state in again gives that state. */
  lemma SixTakenBack(p: bv32)
    requires Bounded(p)
    ensures AllTaken(0, SixOf(p)) == p
  {
    var r := SixOf(p);
    TakenBack(p);
    SixTaken(r[0], r[1], r[2], r[3], r[4], r[5]);
    assert r == [r[0], r[1]] + ([r[2], r[3]] + ([r[4], r[5]] + []));
    hide Taken;
  }

  lemma SixTaken(a: Symbol, b: Symbol, c: Symbol, d: Symbol, e: Symbol, f: Symbol)
    ensures
      AllTaken(0, [a, b] + ([c, d] + ([e, f] + []))) == Taken(Taken(Taken(Taken(Taken(Taken(0, a), b), c), d), e), f)
  {
    hide Taken;
    AllTakenSteps(0, a, b, [c, d] + ([e, f] + []));
    AllTakenSteps(Taken(Taken(0, a), b), c, d, [e, f] + []);
    AllTakenSteps(Taken(Taken(Taken(Taken(0, a), b), c), d), e, f, []);
  }

  lemma XorBounded(a: bv32, b: bv32)
    requires Bounded(a) && Bounded(b)
    ensures Bounded(Xor(a, b))
  {
  }

  lemma XorTwice(a: bv32, b: bv32)
    ensures Xor(a, Xor(a, b)) == b && Xor(a, 0) == a
  {
  }

  /** With its checksum symbols a list has exactly the wanted checksum. */
  lemma ChecksumSettles(s: seq<Symbol>, wanted: bv32)
    requires Bounded(wanted)
    ensures PolymodOf(s + ChecksumSymbols(s, wanted)) == wanted
  {
    hide Bounded, Next, Xor, SixOf, Fits, PolymodFrom, AllTaken;
    var c := PolymodFrom(1, s);
    var zeros := PolymodFrom(c, ZeroSymbols(6));
    var r := ChecksumSymbols(s, wanted);
    PolymodAppend(1, s, ZeroSymbols(6));
    PolymodAppend(1, s, r);
    OneIsBounded();
    PolymodBounded(1, s + ZeroSymbols(6));
    XorBounded(zeros, wanted);
    SixTakenBack(Xor(zeros, wanted));
    XorTwice(c, 0);
    ZeroFits();
    SymbolsAfter(c, 0, r, 0);
    XorTwice(zeros, wanted);
  }

  lemma ZeroFits()
    ensures Fits(0, 0)
  {
  }
}
