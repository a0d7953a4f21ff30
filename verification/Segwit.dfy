/** validSegwitMainnet: which Bech32 and Bech32m addresses are accepted, and that near misses are not. */
module Segwit {
  import opened Wrappers
  import opened Alphabets
  import opened Bech32
  import opened ConvertBits

  const ALPHABET: string := "qpzry9x8gf2tvdw0s3jn54khce6mua7l"
  const BECH32: bv32 := 1
  const BECH32M: bv32 := 0x2bc830a3

  /** bech32Hrp("bc"): high bits, a zero, low bits. */
  const HRP: seq<Symbol> := [3, 3, 0, 2, 3]

  function Pack(b4: bool, b3: bool, b2: bool, b1: bool, b0: bool): (v: Symbol) {
    (if b4 then 16 else 0) | (if b3 then 8 else 0) | (if b2 then 4 else 0) | (if b1 then 2 else 0) | (if b0 then 1 else 0)
  }

  lemma PackInjective(b4: bool, b3: bool, b2: bool, b1: bool, b0: bool, c4: bool, c3: bool, c2: bool, c1: bool, c0: bool)
    requires Pack(b4, b3, b2, b1, b0) == Pack(c4, c3, c2, c1, c0)
    ensures b4 == c4 && b3 == c3 && b2 == c2 && b1 == c1 && b0 == c0
  {
  }

  /** An alphabet position as a five-bit symbol. */
  function SymbolOf(i: int): Symbol {
    Pack(i / 16 % 2 == 1, i / 8 % 2 == 1, i / 4 % 2 == 1, i / 2 % 2 == 1, i % 2 == 1)
  }

  lemma SymbolInjective(i: int, j: int)
    requires 0 <= i < 32 && 0 <= j < 32 && SymbolOf(i) == SymbolOf(j)
    ensures i == j
  {
    hide Pack, SymbolOf;
    SymbolBits(i, j);
    FiveBits(i);
    FiveBits(j);
  }

  lemma SymbolBits(i: int, j: int)
    requires SymbolOf(i) == SymbolOf(j)
    ensures i / 16 % 2 == j / 16 % 2 && i / 8 % 2 == j / 8 % 2 && i / 4 % 2 == j / 4 % 2 && i / 2 % 2 == j / 2 % 2 && i % 2 == j % 2
  {
    hide Pack;
    PackInjective(i / 16 % 2 == 1, i / 8 % 2 == 1, i / 4 % 2 == 1, i / 2 % 2 == 1, i % 2 == 1,
                  j / 16 % 2 == 1, j / 8 % 2 == 1, j / 4 % 2 == 1, j / 2 % 2 == 1, j % 2 == 1);
  }

  lemma FiveBits(i: int)
    requires 0 <= i < 32
    ensures i == 16 * (i / 16 % 2) + 8 * (i / 8 % 2) + 4 * (i / 4 % 2) + 2 * (i / 2 % 2) + i % 2
  {
  }

  function Symbols(data: seq<int>): (s: seq<Symbol>)
    ensures |s| == |data| && forall i :: 0 <= i < |data| ==> s[i] == SymbolOf(data[i])
  {
    seq(|data|, i requires 0 <= i < |data| => SymbolOf(data[i]))
  }

  /** The alphabet positions of the part after the separator. */
  function DataOf(normalized: string): seq<int> {
    Positions(ALPHABET, normalized[LastIndexOf(normalized, '1') + 1..])
  }

  ghost predicate ValidProgram(version: int, data: seq<int>) {
    exists program: seq<nat> ::
      && Regroups(data, 5, program, 8)
      && 2 <= |program| <= 40
      && (version != 0 || |program| == 20 || |program| == 32)
  }

  /** Acceptance of the data part: version, program and checksum. */
  ghost predicate AcceptsData(data: seq<int>) {
    && |data| >= 7
    && (forall i :: 0 <= i < |data| ==> data[i] >= 0)
    && data[0] <= 16
    && PolymodOf(HRP + Symbols(data)) == (if data[0] == 0 then BECH32 else BECH32M)
    && ValidProgram(data[0], data[1..|data| - 6])
  }

  /** Acceptance of a lower-case address. */
  ghost predicate Accepts(normalized: string) {
    var separator := LastIndexOf(normalized, '1');
    separator >= 1 && normalized[..separator] == "bc" && AcceptsData(DataOf(normalized))
  }

  /** The whole check; lower and upper stand for toLowerCase and toUpperCase. */
  method ValidSegwitMainnet(address: string, lower: string -> string, upper: string -> string) returns (valid: bool)
    ensures valid <==> (address == lower(address) || address == upper(address)) && Accepts(lower(address))
  {
    hide AcceptsData, LastIndexOf, Positions;
    if address != lower(address) && address != upper(address) {
      return false;
    }
    var normalized := lower(address);
    var separator := LastIndexOf(normalized, '1');
    if separator < 1 || normalized[..separator] != "bc" {
      return false;
    }
    valid := ValidData(Positions(ALPHABET, normalized[separator + 1..]));
  }

  /** The checks on the alphabet positions after the separator. */
  method ValidData(data: seq<int>) returns (valid: bool)
    requires forall i :: 0 <= i < |data| ==> -1 <= data[i] < 32
    ensures valid <==> AcceptsData(data)
  {
    hide PolymodOf, Symbols, Regroups, ValidProgram;
    if |data| < 7 || exists i :: 0 <= i < |data| && data[i] < 0 {
      return false;
    }
    var witnessVersion := data[0];
    if witnessVersion > 16 {
      return false;
    }
    var checksum := Polymod(HRP + Symbols(data));
    if checksum != (if witnessVersion == 0 then BECH32 else BECH32M) {
      return false;
    }
    var program := Convert(data[1..|data| - 6], 5, 8);
    ProgramDetermined(data[0], data[1..|data| - 6], program);
    if program.None? || |program.value| < 2 || |program.value| > 40 {
      return false;
    }
    valid := witnessVersion != 0 || |program.value| == 20 || |program.value| == 32;
  }

  lemma ProgramDetermined(version: int, data: seq<int>, program: Option<seq<nat>>)
    requires program.Some? ==> Regroups(data, 5, program.value, 8)
    requires program.None? ==> forall out: seq<nat> :: !Regroups(data, 5, out, 8)
    ensures ValidProgram(version, data) <==>
      program.Some? && 2 <= |program.value| <= 40 && (version != 0 || |program.value| == 20 || |program.value| == 32)
  {
    hide Regroups;
    forall out: seq<nat> | Regroups(data, 5, out, 8) && program.Some? ensures out == program.value {
      RegroupingUnique(data, 5, out, program.value, 8);
    }
  }

  lemma DataPart(s: string)
    requires Accepts(s)
    ensures |s| >= 10 && s[..3] == "bc1" && DataOf(s) == Positions(ALPHABET, s[3..]) && Spelled(ALPHABET, s[3..])
  {
    hide PolymodOf, Symbols, ValidProgram;
    var separator := LastIndexOf(s, '1');
    assert separator == |s[..separator]| == 2;
    assert s[..3] == s[..2] + [s[2]];
    assert forall i :: 0 <= i < |s[3..]| ==> DataOf(s)[i] == IndexOf(ALPHABET, s[3..][i]);
  }

  /**
    Two distinct lower-case texts of one length that differ only within six consecutive characters,
    and whose witness versions are both zero or both not, are never both accepted.
   */
  lemma NearMissRejected(s: string, t: string, k: nat)
    requires |s| == |t| && s != t && k <= |s|
    requires forall i :: 0 <= i < |s| && !(k <= i < k + 6) ==> s[i] == t[i]
    requires Accepts(s) && Accepts(t) ==> (DataOf(s)[0] == 0 <==> DataOf(t)[0] == 0)
    ensures !(Accepts(s) && Accepts(t))
  {
    if Accepts(s) && Accepts(t) {
      DataPart(s);
      DataPart(t);
      SymbolListsDiffer(s, t, k);
    }
  }

  lemma SameSymbolsSameText(s: string, t: string)
    requires |s| == |t| >= 3 && s[..3] == t[..3] && Spelled(ALPHABET, s[3..]) && Spelled(ALPHABET, t[3..])
    requires HRP + Symbols(Positions(ALPHABET, s[3..])) == HRP + Symbols(Positions(ALPHABET, t[3..]))
    ensures s == t
  {
    hide SymbolOf;
    var ps, pt := Positions(ALPHABET, s[3..]), Positions(ALPHABET, t[3..]);
    var xs, ys := HRP + Symbols(ps), HRP + Symbols(pt);
    forall i | 0 <= i < |ps| ensures ps[i] == pt[i] {
      assert xs[5 + i] == SymbolOf(ps[i]) && ys[5 + i] == SymbolOf(pt[i]);
      SymbolInjective(ps[i], pt[i]);
    }
    PositionsInjective(ALPHABET, s[3..], t[3..]);
    assert s == s[..3] + s[3..] && t == t[..3] + t[3..];
  }

  lemma SymbolListsDiffer(s: string, t: string, k: nat)
    requires |s| == |t| && s != t && k <= |s| && |s| >= 10
    requires forall i :: 0 <= i < |s| && !(k <= i < k + 6) ==> s[i] == t[i]
    requires s[..3] == t[..3] && Spelled(ALPHABET, s[3..]) && Spelled(ALPHABET, t[3..])
    ensures PolymodOf(HRP + Symbols(Positions(ALPHABET, s[3..]))) != PolymodOf(HRP + Symbols(Positions(ALPHABET, t[3..])))
  {
    hide PolymodOf, SymbolOf;
    var ps, pt := Positions(ALPHABET, s[3..]), Positions(ALPHABET, t[3..]);
    var xs, ys := HRP + Symbols(ps), HRP + Symbols(pt);
    if xs == ys {
      SameSymbolsSameText(s, t);
    }
    var a := k + 2;
    forall i | 0 <= i < |xs| && !(a <= i < a + 6) ensures xs[i] == ys[i] {
      if i >= 5 {
        assert s[i - 2] == t[i - 2];
        assert s[3..][i - 5] == t[3..][i - 5];
      }
    }
    DifferenceDetected(xs, ys, a);
  }
}
