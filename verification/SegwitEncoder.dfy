/**
  The segwit address encoder of BIP 173 and BIP 350, written apart from the check, and that the check
  accepts its addresses and no others.
 */
module SegwitEncoder {
  import opened Nonlinear
  import opened Alphabets
  import opened Bech32
  import opened Bech32Polynomial
  import opened ConvertBits
  import opened Segwit

  // ---------------------------------------------------------------- characters

  /** The character table of BIP 173. */
  function CharOf(p: int): char
    requires 0 <= p < 32
  {
    match p
    case 0 => 'q'
    case 1 => 'p'
    case 2 => 'z'
    case 3 => 'r'
    case 4 => 'y'
    case 5 => '9'
    case 6 => 'x'
    case 7 => '8'
    case 8 => 'g'
    case 9 => 'f'
    case 10 => '2'
    case 11 => 't'
    case 12 => 'v'
    case 13 => 'd'
    case 14 => 'w'
    case 15 => '0'
    case 16 => 's'
    case 17 => '3'
    case 18 => 'j'
    case 19 => 'n'
    case 20 => '5'
    case 21 => '4'
    case 22 => 'k'
    case 23 => 'h'
    case 24 => 'c'
    case 25 => 'e'
    case 26 => '6'
    case 27 => 'm'
    case 28 => 'u'
    case 29 => 'a'
    case 30 => '7'
    case _ => 'l'
  }

  function PositionOfChar(c: char): int {
    match c
    case 'q' => 0
    case 'p' => 1
    case 'z' => 2
    case 'r' => 3
    case 'y' => 4
    case '9' => 5
    case 'x' => 6
    case '8' => 7
    case 'g' => 8
    case 'f' => 9
    case '2' => 10
    case 't' => 11
    case 'v' => 12
    case 'd' => 13
    case 'w' => 14
    case '0' => 15
    case 's' => 16
    case '3' => 17
    case 'j' => 18
    case 'n' => 19
    case '5' => 20
    case '4' => 21
    case 'k' => 22
    case 'h' => 23
    case 'c' => 24
    case 'e' => 25
    case '6' => 26
    case 'm' => 27
    case 'u' => 28
    case 'a' => 29
    case '7' => 30
    case 'l' => 31
    case _ => -1
  }

  lemma CharBack(p: int)
    requires 0 <= p < 32
    ensures PositionOfChar(CharOf(p)) == p && CharOf(p) != '1'
  {
  }

  lemma AlphabetIs(p: int)
    requires 0 <= p < 32
    ensures |ALPHABET| == 32 && ALPHABET[p] == CharOf(p)
  {
    if p < 8 {
      assert ALPHABET[0] == 'q' && ALPHABET[1] == 'p' && ALPHABET[2] == 'z' && ALPHABET[3] == 'r' && ALPHABET[4] == 'y' && ALPHABET[5] == '9' && ALPHABET[6] == 'x' && ALPHABET[7] == '8';
    } else if p < 16 {
      assert ALPHABET[8] == 'g' && ALPHABET[9] == 'f' && ALPHABET[10] == '2' && ALPHABET[11] == 't' && ALPHABET[12] == 'v' && ALPHABET[13] == 'd' && ALPHABET[14] == 'w' && ALPHABET[15] == '0';
    } else if p < 24 {
      assert ALPHABET[16] == 's' && ALPHABET[17] == '3' && ALPHABET[18] == 'j' && ALPHABET[19] == 'n' && ALPHABET[20] == '5' && ALPHABET[21] == '4' && ALPHABET[22] == 'k' && ALPHABET[23] == 'h';
    } else {
      assert ALPHABET[24] == 'c' && ALPHABET[25] == 'e' && ALPHABET[26] == '6' && ALPHABET[27] == 'm' && ALPHABET[28] == 'u' && ALPHABET[29] == 'a' && ALPHABET[30] == '7' && ALPHABET[31] == 'l';
    }
  }

  lemma CharPosition(p: int)
    requires 0 <= p < 32
    ensures IndexOf(ALPHABET, CharOf(p)) == p
  {
    hide CharOf, PositionOfChar, IndexOf;
    AlphabetIs(p);
    CharBack(p);
    var i := IndexOf(ALPHABET, CharOf(p));
    assert ALPHABET[p] == CharOf(p);
    AlphabetIs(i);
    CharBack(i);
  }

  function Chars(data: seq<int>): (text: string)
    requires forall i :: 0 <= i < |data| ==> 0 <= data[i] < 32
    ensures |text| == |data| && forall i :: 0 <= i < |data| ==> text[i] == CharOf(data[i])
  {
    seq(|data|, i requires 0 <= i < |data| => CharOf(data[i]))
  }

  lemma CharsPositions(data: seq<int>)
    requires forall i :: 0 <= i < |data| ==> 0 <= data[i] < 32
    ensures Positions(ALPHABET, Chars(data)) == data && Spelled(ALPHABET, Chars(data)) && '1' !in Chars(data)
  {
    hide CharOf, IndexOf, PositionOfChar;
    forall i | 0 <= i < |data| ensures IndexOf(ALPHABET, Chars(data)[i]) == data[i] && Chars(data)[i] != '1' {
      CharPosition(data[i]);
      CharBack(data[i]);
    }
  }

  // ---------------------------------------------------------------- symbols and positions

  function PositionOf(v: Symbol): (p: int)
    ensures 0 <= p < 32
  {
    (if v & 16 == 16 then 16 else 0) + (if v & 8 == 8 then 8 else 0) + (if v & 4 == 4 then 4 else 0)
    + (if v & 2 == 2 then 2 else 0) + (if v & 1 == 1 then 1 else 0)
  }

  lemma PackBack(v: Symbol)
    ensures Pack(v & 16 == 16, v & 8 == 8, v & 4 == 4, v & 2 == 2, v & 1 == 1) == v
  {
  }

  lemma BitsBack(b4: bool, b3: bool, b2: bool, b1: bool, b0: bool)
    ensures
      var p := (if b4 then 16 else 0) + (if b3 then 8 else 0) + (if b2 then 4 else 0) + (if b1 then 2 else 0) + (if b0 then 1 else 0);
      (p / 16 % 2 == 1) == b4 && (p / 8 % 2 == 1) == b3 && (p / 4 % 2 == 1) == b2 && (p / 2 % 2 == 1) == b1 && (p % 2 == 1) == b0
  {
  }

  lemma SymbolBack(v: Symbol)
    ensures SymbolOf(PositionOf(v)) == v
  {
    hide Pack;
    PackBack(v);
    BitsBack(v & 16 == 16, v & 8 == 8, v & 4 == 4, v & 2 == 2, v & 1 == 1);
  }

  function PositionsOf(s: seq<Symbol>): (r: seq<int>)
    ensures |r| == |s| && forall i :: 0 <= i < |s| ==> r[i] == PositionOf(s[i])
  {
    seq(|s|, i requires 0 <= i < |s| => PositionOf(s[i]))
  }

  lemma SymbolsBack(s: seq<Symbol>)
    ensures Symbols(PositionsOf(s)) == s
  {
    hide SymbolOf, PositionOf;
    forall i | 0 <= i < |s| ensures Symbols(PositionsOf(s))[i] == s[i] {
      SymbolBack(s[i]);
    }
  }

  lemma SymbolsAppend(a: seq<int>, b: seq<int>)
    ensures Symbols(a + b) == Symbols(a) + Symbols(b)
  {
    hide SymbolOf;
  }

  // ---------------------------------------------------------------- addresses

  /** The human-readable part "bc", expanded as BIP 173 does: high bits, zero, low bits. */
  function ExpandedHrp(): seq<int> {
    [98 / 32, 99 / 32, 0, 98 % 32, 99 % 32]
  }

  lemma HrpIs()
    ensures Symbols(ExpandedHrp()) == HRP
  {
    assert ExpandedHrp() == [3, 3, 0, 2, 3];
    SmallSymbols();
  }

  lemma SmallSymbols()
    ensures SymbolOf(0) == 0 && SymbolOf(2) == 2 && SymbolOf(3) == 3
  {
  }

  /** Bech32 for version zero, Bech32m for the others. */
  function Wanted(version: int): bv32 {
    if version == 0 then 1 else 0x2bc8_30a3
  }

  predicate IsProgram(version: int, program: seq<nat>) {
    && 0 <= version <= 16
    && (forall i :: 0 <= i < |program| ==> program[i] < 256)
    && 2 <= |program| <= 40
    && (version == 0 ==> |program| == 20 || |program| == 32)
  }

  /** The version and the program in groups of five bits. */
  function Payload(version: int, program: seq<nat>): seq<int> {
    [version] + Encode(program, 8, 5)
  }

  function Data(version: int, program: seq<nat>): seq<int> {
    var payload := Payload(version, program);
    payload + PositionsOf(ChecksumSymbols(HRP + Symbols(payload), Wanted(version)))
  }

  lemma DataInRange(version: int, program: seq<nat>)
    requires IsProgram(version, program)
    ensures forall i :: 0 <= i < |Data(version, program)| ==> 0 <= Data(version, program)[i] < 32
  {
    hide PositionOf, ChecksumSymbols, Symbols;
    ProgramGroups(program);
  }

  lemma ProgramGroups(program: seq<nat>)
    requires forall i :: 0 <= i < |program| ==> program[i] < 256
    ensures Regroups(Encode(program, 8, 5), 5, program, 8)
    ensures forall i :: 0 <= i < |Encode(program, 8, 5)| ==> Encode(program, 8, 5)[i] < 32
  {
    assert Pow2(8) == 256 && Pow2(5) == 32;
    hide Encode;
    DecodeEncode(program, 8, 5);
  }

  /** The address of a version and a program. */
  function Address(version: int, program: seq<nat>): string
    requires IsProgram(version, program)
  {
    DataInRange(version, program);
    "bc1" + Chars(Data(version, program))
  }

  lemma ChecksumFits(version: int, program: seq<nat>)
    ensures PolymodOf(HRP + Symbols(Data(version, program))) == Wanted(version)
  {
    hide Symbols, PolymodOf, ChecksumSymbols, Bounded;
    var payload := Payload(version, program);
    var checks := ChecksumSymbols(HRP + Symbols(payload), Wanted(version));
    SymbolsBack(checks);
    SymbolsAppend(payload, PositionsOf(checks));
    assert HRP + Symbols(Data(version, program)) == (HRP + Symbols(payload)) + checks;
    WantedBounded(version);
    ChecksumSettles(HRP + Symbols(payload), Wanted(version));
  }

  lemma WantedBounded(version: int)
    ensures Bounded(Wanted(version))
  {
  }

  /** Only one list of that length, version and program has the wanted checksum. */
  lemma ChecksumUnique(data: seq<int>, version: int, program: seq<nat>)
    requires IsProgram(version, program) && |data| == |Data(version, program)|
    requires forall i :: 0 <= i < |data| ==> 0 <= data[i] < 32
    requires |Payload(version, program)| <= |data| && data[..|Payload(version, program)|] == Payload(version, program)
    requires PolymodOf(HRP + Symbols(data)) == Wanted(version)
    ensures data == Data(version, program)
  {
    hide SymbolOf, PolymodOf, Payload, ChecksumSymbols, PositionOf;
    var other, k := Data(version, program), |Payload(version, program)|;
    DataInRange(version, program);
    ChecksumFits(version, program);
    var xs, ys := HRP + Symbols(data), HRP + Symbols(other);
    forall i | 0 <= i < |xs| && !(k + 5 <= i < k + 5 + 6) ensures xs[i] == ys[i] {
      if i >= 5 {
        assert data[i - 5] == data[..k][i - 5] == other[i - 5];
      }
    }
    if xs != ys {
      DifferenceDetected(xs, ys, k + 5);
    }
    forall i | 0 <= i < |data| ensures data[i] == other[i] {
      assert xs[i + 5] == SymbolOf(data[i]) && ys[i + 5] == SymbolOf(other[i]);
      SymbolInjective(data[i], other[i]);
    }
  }

  /** Every encoded address is accepted. */
  lemma AddressAccepted(version: int, program: seq<nat>)
    requires IsProgram(version, program)
    ensures Accepts(Address(version, program))
  {
    hide Data, Chars, CharOf, Symbols, PolymodOf, LastIndexOf, Positions, ValidProgram;
    var data := Data(version, program);
    DataInRange(version, program);
    CharsPositions(data);
    SeparatorAtTwo(Chars(data));
    ChecksumFits(version, program);
    DataParts(version, program);
    ProgramIsValid(version, program);
  }

  lemma SeparatorAtTwo(tail: string)
    requires '1' !in tail
    ensures LastIndexOf("bc1" + tail, '1') == 2 && ("bc1" + tail)[..2] == "bc" && ("bc1" + tail)[3..] == tail
  {
    hide LastIndexOf;
    var text := "bc1" + tail;
    var i := LastIndexOf(text, '1');
    assert text[2] == '1';
    if i > 2 {
      InTail(text, 2, i);
    } else if i < 2 {
      InTail(text, i, 2);
    }
  }

  lemma InTail(text: string, i: int, k: int)
    requires -1 <= i < k < |text|
    ensures text[k] in text[i + 1..]
  {
    assert text[i + 1..][k - i - 1] == text[k];
  }

  lemma DataParts(version: int, program: seq<nat>)
    ensures
      var data := Data(version, program);
      |data| >= 7 && data[0] == version && data[1..|data| - 6] == Encode(program, 8, 5)
  {
    hide Encode, ChecksumSymbols, PositionOf, Symbols;
    var data, groups := Data(version, program), Encode(program, 8, 5);
    assert data[..|groups| + 1] == [version] + groups;
    assert data[1..|data| - 6] == data[..|groups| + 1][1..];
  }

  lemma ProgramIsValid(version: int, program: seq<nat>)
    requires IsProgram(version, program)
    ensures ValidProgram(version, Encode(program, 8, 5))
  {
    hide Encode, Regroups;
    ProgramGroups(program);
  }

  /** Every accepted text is the address of its version and program. */
  lemma AcceptedIsAddress(text: string) returns (version: int, program: seq<nat>)
    requires Accepts(text)
    ensures IsProgram(version, program) && text == Address(version, program)
  {
    hide Symbols, PolymodOf, LastIndexOf, Regroups, Chars, CharOf, Encode, IndexOf;
    var data := DataOf(text);
    DataPart(text);
    version := data[0];
    var groups := data[1..|data| - 6];
    program :| Regroups(groups, 5, program, 8) && 2 <= |program| <= 40 && (version != 0 || |program| == 20 || |program| == 32);
    RegroupedBytes(groups, program);
    DataBelow(text);
    DataParts(version, program);
    assert data[..1 + |groups|] == [version] + groups;
    ChecksumUnique(data, version, program);
    DataInRange(version, program);
    CharsPositions(data);
    PositionsInjective(ALPHABET, text[3..], Chars(data));
    assert text == text[..3] + text[3..];
  }

  lemma DataBelow(text: string)
    requires Accepts(text)
    ensures forall i :: 0 <= i < |DataOf(text)| ==> 0 <= DataOf(text)[i] < 32
  {
    hide Symbols, PolymodOf, ValidProgram;
    AlphabetIs(0);
  }

  lemma RegroupedBytes(groups: seq<int>, program: seq<nat>)
    requires Regroups(groups, 5, program, 8)
    ensures (forall i :: 0 <= i < |program| ==> program[i] < 256) && Encode(program, 8, 5) == groups
  {
    hide Encode;
    assert Pow2(8) == 256;
    EncodeDecode(groups, 5, program, 8);
  }

  /** The check accepts exactly the addresses of witness versions 0 to 16 and their programs. */
  lemma AcceptsExactlyAddresses(text: string)
    ensures Accepts(text) <==>
      exists version: int, program: seq<nat> :: IsProgram(version, program) && text == Address(version, program)
  {
    hide Accepts, Address, IsProgram;
    if Accepts(text) {
      var version, program := AcceptedIsAddress(text);
    }
    if version: int, program: seq<nat> :| IsProgram(version, program) && text == Address(version, program) {
      AddressAccepted(version, program);
    }
  }
}
