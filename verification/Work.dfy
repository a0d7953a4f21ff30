/**
  Exact work: assigned targets, the expected hashes they credit, and the decimal contract.
 */
module Work {
  import opened Nonlinear
  import opened Wrappers
  import opened Digits
  import opened Uint256Arithmetic

  datatype WorkError =
    | InvalidTargetLength
    | ZeroTarget
    | InvalidCreditedWorkDecimal
    | CreditedWorkOverflow

  const ZERO_BYTES: seq<Byte> :=
    [0, 0, 0, 0, 0, 0, 0, 0, 0, 0, 0, 0, 0, 0, 0, 0, 0, 0, 0, 0, 0, 0, 0, 0, 0, 0, 0, 0, 0, 0, 0, 0]

  /** A fixed-width, most-significant-byte-first, non-zero target. */
  type AssignedTarget = b: seq<Byte> | |b| == 32 && b != ZERO_BYTES
    witness var b: seq<Byte> := ZERO_BYTES[31 := 1]; assert b[31] != ZERO_BYTES[31]; b

  /** Exact expected hashes, never zero. */
  type CreditedWork = x: Uint256 | x != ZERO witness ONE

  /** The number a target denotes. */
  function TargetValue(t: seq<Byte>): nat {
    Numeral(t, 256)
  }

  /** Expected hashes per accepted result: floor(2^256 / (target + 1)). */
  function ExpectedHashes(target: nat): nat {
    TWO_256 / (target + 1)
  }

  method ParseTarget(bytes: seq<Byte>) returns (r: Result<AssignedTarget, WorkError>)
    ensures r.Ok? <==> |bytes| == 32 && TargetValue(bytes) != 0
    ensures r.Ok? ==> r.value == bytes
    ensures r == Err(InvalidTargetLength) <==> |bytes| != 32
  {
    if |bytes| != 32 {
      return Err(InvalidTargetLength);
    }
    ZeroBytesValue();
    if bytes == ZERO_BYTES {
      return Err(ZeroTarget);
    }
    NonZeroTarget(bytes);
    r := Ok(bytes);
  }

  lemma ZeroBytesValue()
    ensures |ZERO_BYTES| == 32 && TargetValue(ZERO_BYTES) == 0
  {
    AllZero(ZERO_BYTES);
  }

  lemma {:induction false} AllZero(s: seq<nat>)
    requires forall i :: 0 <= i < |s| ==> s[i] == 0
    ensures Numeral(s, 256) == 0
  {
    if s != [] {
      AllZero(s[..|s| - 1]);
    }
  }

  lemma NonZeroTarget(t: seq<Byte>)
    requires |t| == 32 && t != ZERO_BYTES
    ensures TargetValue(t) != 0
  {
    ZeroBytesValue();
    if TargetValue(t) == 0 {
      NumeralInjective(t, ZERO_BYTES, 256);
    }
  }

  /** u64::from_be_bytes. */
  function LimbOfBytes(chunk: seq<Byte>): (limb: Limb)
    requires |chunk| == 8
  {
    NumeralBound(chunk, 256);
    assert Power(256, 8) == LIMB;
    Numeral(chunk, 256)
  }

  method FromBeBytes(bytes: seq<Byte>) returns (x: Uint256)
    requires |bytes| == 32
    ensures Value(x) == Numeral(bytes, 256)
  {
    x := ZERO;
    for i := 0 to 4
      invariant forall k :: 0 <= k < i ==> x[3 - k] == LimbOfBytes(bytes[8 * k..8 * k + 8])
    {
      x := x[3 - i := LimbOfBytes(bytes[8 * i..8 * i + 8])];
    }
    ChunksDenote(bytes, x);
  }

  lemma ChunksDenote(bytes: seq<Byte>, x: Uint256)
    requires |bytes| == 32
    requires forall k :: 0 <= k < 4 ==> x[3 - k] == LimbOfBytes(bytes[8 * k..8 * k + 8])
    ensures Value(x) == Numeral(bytes, 256)
  {
    hide Numeral, LimbOfBytes, Value;
    NumeralEmpty(256);
    ChunkStep(bytes, 0);
    ChunkStep(bytes, 1);
    ChunkStep(bytes, 2);
    ChunkStep(bytes, 3);
    assert bytes[..0] == [] && bytes[..32] == bytes;
    Expand(x);
  }

  lemma ChunkStep(bytes: seq<Byte>, k: nat)
    requires |bytes| == 32 && k < 4
    ensures Numeral(bytes[..8 * k + 8], 256) == Numeral(bytes[..8 * k], 256) * LIMB + LimbOfBytes(bytes[8 * k..8 * k + 8])
  {
    assert Power(256, 8) == LIMB;
    NumeralAppend(bytes[..8 * k], bytes[8 * k..8 * k + 8], 256);
    assert bytes[..8 * k] + bytes[8 * k..8 * k + 8] == bytes[..8 * k + 8];
  }

  /**
    Work credited for a target, computed without ever holding 2^256.  The two impossible branches
    of the source are proved impossible here.
   */
  method CreditedWorkOf(t: AssignedTarget) returns (work: CreditedWork)
    ensures Value(work) == ExpectedHashes(TargetValue(t))
  {
    var target := FromBeBytes(t);
    Constants();
    ValueBound(target);
    NonZeroTarget(t);
    ghost var n := Value(target);
    if target == MAX {
      DivModUnique(TWO_256, n + 1, 1, 0);
      return ONE;
    }
    if n == TWO_256 - 1 {
      ValueInjective(target, MAX);
    }
    var divisor := CheckedAdd(target, ONE);
    if divisor.None? {
      assert false;
    }
    var quotient := Divide(BitwiseNot(target), divisor.value);
    BitwiseNotValue(target);
    OneMoreThanComplement(n);
    var maybeWork := CheckedAdd(quotient, ONE);
    if maybeWork.None? {
      assert false;
    }
    work := maybeWork.value;
  }

  lemma OneMoreThanComplement(n: nat)
    requires 0 < n < TWO_256
    ensures (TWO_256 - 1 - n) / (n + 1) + 1 == ExpectedHashes(n)
    ensures 1 <= ExpectedHashes(n) <= TWO_256 / 2
  {
    DivAddMultiple(TWO_256 - 1 - n, 1, n + 1);
    assert TWO_256 - 1 - n + 1 * (n + 1) == TWO_256;
    LargerTargetNeverMoreWork(1, n);
    DivBelow(TWO_256 - 1 - n, n + 1);
  }

  /** A larger target never gives more work. */
  lemma LargerTargetNeverMoreWork(low: nat, high: nat)
    requires low <= high
    ensures ExpectedHashes(high) <= ExpectedHashes(low)
  {
    var p, q := ExpectedHashes(low), ExpectedHashes(high);
    assert TWO_256 == p * (low + 1) + TWO_256 % (low + 1);
    assert TWO_256 == q * (high + 1) + TWO_256 % (high + 1);
    DivBelow(TWO_256, high + 1);
    if q > p {
      MulMono(p + 1, q, low + 1);
      MulMono(low + 1, high + 1, q);
    }
  }

  /** Every target credits at least one hash and at most 2^255. */
  lemma CreditIsNonZero(t: AssignedTarget)
    ensures 1 <= ExpectedHashes(TargetValue(t)) <= TWO_256 / 2
  {
    NonZeroTarget(t);
    NumeralBound(t, 256);
    assert Power(256, 8) == LIMB;
    PowerAdd(256, 8, 8);
    PowerAdd(256, 16, 16);
    OneMoreThanComplement(TargetValue(t));
  }

  // ---------------------------------------------------------------- decimal contract

  predicate IsDigit(c: char) {
    '0' <= c <= '9'
  }

  function DigitOf(c: char): (d: nat)
    requires IsDigit(c)
    ensures d < 10
  {
    (c - '0') as nat
  }

  function CharOf(d: nat): (c: char)
    requires d < 10
    ensures IsDigit(c) && DigitOf(c) == d
  {
    '0' + d as char
  }

  function DigitsOfText(text: string): (s: seq<nat>)
    requires forall i :: 0 <= i < |text| ==> IsDigit(text[i])
    ensures |s| == |text| && Within(s, 10)
    ensures forall i :: 0 <= i < |text| ==> s[i] == DigitOf(text[i])
  {
    seq(|text|, i requires 0 <= i < |text| => DigitOf(text[i]))
  }

  function TextOfDigits(s: seq<nat>): (text: string)
    requires Within(s, 10)
    ensures |text| == |s| && forall i :: 0 <= i < |s| ==> IsDigit(text[i]) && DigitOf(text[i]) == s[i]
  {
    seq(|s|, i requires 0 <= i < |s| => CharOf(s[i]))
  }

  /** Non-empty, all digits, no leading zero. */
  predicate CanonicalDecimal(text: string) {
    && text != ""
    && text[0] != '0'
    && forall i :: 0 <= i < |text| ==> IsDigit(text[i])
  }

  function DecimalValue(text: string): nat
    requires forall i :: 0 <= i < |text| ==> IsDigit(text[i])
  {
    Numeral(DigitsOfText(text), 10)
  }

  /** The canonical decimal text of a number. */
  function Decimal(n: nat): string {
    if n == 0 then "0" else
      NumeralOfDigits(n, 10);
      TextOfDigits(DigitsOf(n, 10))
  }

  /** Printing a non-zero number gives a canonical text that reads back as that number. */
  lemma PrintThenParse(n: nat)
    requires n > 0
    ensures CanonicalDecimal(Decimal(n)) && DecimalValue(Decimal(n)) == n
  {
    hide Numeral, DigitsOf;
    NumeralOfDigits(n, 10);
    TextReadsBack(DigitsOf(n, 10));
  }

  lemma TextReadsBack(s: seq<nat>)
    requires Within(s, 10) && Shortest(s) && s != []
    ensures CanonicalDecimal(TextOfDigits(s)) && DigitsOfText(TextOfDigits(s)) == s
  {
    assert DigitOf(TextOfDigits(s)[0]) != 0;
  }

  /** Reading a canonical text and printing the number gives the same text. */
  lemma ParseThenPrint(text: string)
    requires CanonicalDecimal(text)
    ensures DecimalValue(text) > 0 && Decimal(DecimalValue(text)) == text
  {
    hide Numeral, DigitsOf;
    var s := DigitsOfText(text);
    DigitsWriteBack(text);
    LeadingDigitCounts(s, 10);
    DigitsOfNumeral(s, 10);
    NumeralOfDigits(DecimalValue(text), 10);
  }

  lemma DigitsWriteBack(text: string)
    requires CanonicalDecimal(text)
    ensures DigitsOfText(text)[0] != 0 && TextOfDigits(DigitsOfText(text)) == text
  {
    assert forall i :: 0 <= i < |text| ==> CharOf(DigitOf(text[i])) == text[i];
  }

  /** The printing loop: repeated division by ten, digits collected from the low end. */
  method ToDecimalString(x: Uint256) returns (text: string)
    ensures text == Decimal(Value(x))
  {
    Constants();
    if x == ZERO {
      return "0";
    }
    if Value(x) == 0 {
      ValueInjective(x, ZERO);
    }
    var remaining := x;
    var digits: seq<nat> := [];
    while remaining != ZERO
      invariant Within(digits, 10)
      invariant DigitsOf(Value(remaining), 10) + Reverse(digits) == DigitsOf(Value(x), 10)
      decreases Value(remaining)
    {
      if Value(remaining) == 0 {
        ValueInjective(remaining, ZERO);
      }
      DivBelow(Value(remaining), 10);
      ghost var n, before := Value(remaining), digits;
      var quotient, digit := DivideSmall(remaining, 10);
      digits := digits + [digit];
      remaining := quotient;
      assert DigitsOf(n, 10) == DigitsOf(n / 10, 10) + [digit];
      assert Reverse(digits) == [digit] + Reverse(before);
    }
    assert DigitsOf(0, 10) + Reverse(digits) == Reverse(digits);
    NumeralOfDigits(Value(x), 10);
    text := TextOfDigits(Reverse(digits));
  }

  /** Parsing succeeds exactly on canonical texts below 2^256, and the two failures are told apart. */
  method ParseCreditedWork(text: string) returns (r: Result<CreditedWork, WorkError>)
    ensures r.Ok? <==> CanonicalDecimal(text) && DecimalValue(text) < TWO_256
    ensures r.Ok? ==> Value(r.value) == DecimalValue(text)
    ensures r.Err? ==> r.error == if CanonicalDecimal(text) then CreditedWorkOverflow else InvalidCreditedWorkDecimal
  {
    if !CanonicalDecimal(text) {
      return Err(InvalidCreditedWorkDecimal);
    }
    Constants();
    ParseThenPrint(text);
    var parsed := ZERO;
    ghost var s := DigitsOfText(text);
    for i := 0 to |text|
      invariant Value(parsed) == Numeral(s[..i], 10)
    {
      var next := CheckedMulSmallAdd(parsed, 10, DigitOf(text[i]));
      assert s[..i + 1][..i] == s[..i];
      if next.None? {
        NumeralPrefix(s, i + 1, 10);
        return Err(CreditedWorkOverflow);
      }
      parsed := next.value;
    }
    assert s[..|text|] == s;
    ValueBound(parsed);
    r := Ok(parsed);
  }

  /** Progress also admits the single text "0". */
  method ParseVerifiedProgress(text: string) returns (r: Result<Uint256, WorkError>)
    ensures r.Ok? <==> text == "0" || (CanonicalDecimal(text) && DecimalValue(text) < TWO_256)
    ensures r.Ok? ==> Decimal(Value(r.value)) == text
  {
    if text == "0" {
      Constants();
      return Ok(ZERO);
    }
    var work := ParseCreditedWork(text);
    if work.Err? {
      return Err(work.error);
    }
    ParseThenPrint(text);
    r := Ok(work.value);
  }
}
