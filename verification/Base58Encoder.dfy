/** The Base58Check encoder, written apart from the decoder, and that the check accepts its addresses and
    no others. */
module Base58Encoder {
  import opened Digits
  import opened Alphabets
  import opened Base58

  /** The character of a base-58 digit: digits, capitals and small letters in order, without 0, I, O and l. */
  function CharOf(d: nat): char
    requires d < 58
  {
    if d < 9 then '1' + d as char
    else if d < 17 then 'A' + (d - 9) as char
    else if d < 22 then 'J' + (d - 17) as char
    else if d < 33 then 'P' + (d - 22) as char
    else if d < 44 then 'a' + (d - 33) as char
    else 'm' + (d - 44) as char
  }

  /** A run of consecutive characters. */
  ghost predicate RunFrom(text: string, first: char) {
    forall i :: 0 <= i < |text| ==> text[i] as int == first as int + i
  }

  lemma Runs()
    ensures RunFrom("123456789", '1')
    ensures RunFrom("ABCDEFGH", 'A')
    ensures RunFrom("JKLMN", 'J')
    ensures RunFrom("PQRSTUVWXYZ", 'P')
    ensures RunFrom("abcdefghijk", 'a')
    ensures RunFrom("mnopqrstuvwxyz", 'm')
  {
  }

  /** The alphabet is six such runs. */
  lemma AlphabetIs()
    ensures |ALPHABET| == 58 && forall d: nat :: d < 58 ==> ALPHABET[d] == CharOf(d)
  {
    Runs();
    forall k: nat | k < 58 ensures ALPHABET[k] == CharOf(k) {
      SameCode(ALPHABET[k], CharOf(k));
    }
  }

  lemma SameCode(c: char, d: char)
    ensures c as int == d as int ==> c == d
  {
  }

  lemma CharsDiffer(c: nat, d: nat)
    requires c < d < 58
    ensures CharOf(c) < CharOf(d)
  {
  }

  /** Each character stands for its own digit. */
  lemma CharPosition(d: nat)
    requires d < 58
    ensures IndexOf(ALPHABET, CharOf(d)) == d
  {
    AlphabetIs();
    var i := IndexOf(ALPHABET, CharOf(d));
    assert ALPHABET[d] == CharOf(d);
    if i < d {
      CharsDiffer(i, d);
    } else if d < i {
      CharsDiffer(d, i);
    }
  }

  function Chars(digits: seq<nat>): (text: string)
    requires Within(digits, 58)
    ensures |text| == |digits| && forall i :: 0 <= i < |digits| ==> text[i] == CharOf(digits[i])
  {
    seq(|digits|, i requires 0 <= i < |digits| => CharOf(digits[i]))
  }

  function Ones(n: nat): (text: string)
    ensures |text| == n && forall i :: 0 <= i < n ==> text[i] == '1'
  {
    seq(n, _ => '1')
  }

  /** How many zero bytes a list starts with. */
  function LeadingZeroBytes(b: seq<Byte>): (k: nat)
    ensures k <= |b| && (forall i :: 0 <= i < k ==> b[i] == 0) && (k < |b| ==> b[k] != 0)
  {
    if b == [] || b[0] != 0 then 0 else 1 + LeadingZeroBytes(b[1..])
  }

  /** One '1' per leading zero byte, then the base-58 digits of the big-endian number. */
  function Encoded(b: seq<Byte>): string {
    var n := Numeral(b, 256);
    NumeralOfDigits(n, 58);
    Ones(LeadingZeroBytes(b)) + Chars(DigitsOf(n, 58))
  }

  /** Every byte list is decoded back from its encoding. */
  lemma DecodedEncoded(b: seq<Byte>)
    ensures Spelled(ALPHABET, Encoded(b)) && Decoded(Encoded(b)) == b
  {
    hide Numeral, DigitsOf, Spelled, LeadingOnes;
    var n, k := Numeral(b, 256), LeadingZeroBytes(b);
    NumeralOfDigits(n, 58);
    var digits := DigitsOf(n, 58);
    TextDigits(k, digits);
    ZerosInFront(k, digits);
    StrippedBytes(b);
  }

  lemma ZerosInFront(k: nat, digits: seq<nat>)
    ensures Numeral(Zeros(k) + digits, 58) == Numeral(digits, 58)
  {
    hide Numeral;
    LeadingZeros(Zeros(k) + digits, k, 58);
    assert (Zeros(k) + digits)[k..] == digits;
  }

  /** The zero bytes in front and the shortest bytes of the number make up the list. */
  lemma StrippedBytes(b: seq<Byte>)
    ensures b == Zeros(LeadingZeroBytes(b)) + DigitsOf(Numeral(b, 256), 256)
  {
    hide Numeral, DigitsOf;
    var k := LeadingZeroBytes(b);
    LeadingZeros(b, k, 256);
    DigitsOfNumeral(b[k..], 256);
    assert b == Zeros(k) + b[k..];
  }

  lemma TextDigits(k: nat, digits: seq<nat>)
    requires Within(digits, 58) && Shortest(digits)
    ensures
      var text := Ones(k) + Chars(digits);
      Spelled(ALPHABET, text) && DigitsOfText(text) == Zeros(k) + digits && LeadingOnes(text) == k
  {
    hide IndexOf, CharOf;
    var text := Ones(k) + Chars(digits);
    OneIsFirst();
    forall i | 0 <= i < |text|
      ensures IndexOf(ALPHABET, text[i]) == (Zeros(k) + digits)[i]
    {
      if i >= k {
        CharPosition(digits[i - k]);
      }
    }
    if digits != [] {
      CharPosition(digits[0]);
      assert text[k] == CharOf(digits[0]);
    }
  }

  lemma OneIsFirst()
    ensures IndexOf(ALPHABET, '1') == 0 && CharOf(0) == '1'
  {
    CharPosition(0);
  }

  /** Every text over the alphabet is the encoding of what it decodes to. */
  lemma EncodedDecoded(text: string)
    requires Spelled(ALPHABET, text)
    ensures Encoded(Decoded(text)) == text
  {
    hide Decoded, Encoded;
    DecodedEncoded(Decoded(text));
    DecodedInjective(Encoded(Decoded(text)), text);
  }

  /** The address of a version and a hash: the checksum is the first four bytes of the double digest. */
  function Address(version: Byte, hash: seq<Byte>, sha256: seq<Byte> -> seq<Byte>): string
    requires |sha256(sha256([version] + hash))| >= 4
  {
    var payload := [version] + hash;
    Encoded(payload + sha256(sha256(payload))[..4])
  }

  /** The check accepts exactly the addresses of pay-to-key-hash and pay-to-script-hash payloads. */
  lemma AcceptsExactlyAddresses(text: string, sha256: seq<Byte> -> seq<Byte>)
    requires forall b :: |sha256(b)| == 32
    ensures Accepted(text, sha256) <==>
      exists version: Byte, hash: seq<Byte> ::
        (version == 0x00 || version == 0x05) && |hash| == 20 && text == Address(version, hash, sha256)
  {
    hide Decoded, Encoded;
    if Accepted(text, sha256) {
      var b := Decoded(text);
      var version, hash := b[0], b[1..21];
      assert b[..21] == [version] + hash && b == b[..21] + b[21..];
      EncodedDecoded(text);
      assert text == Address(version, hash, sha256);
    }
    if version: Byte, hash: seq<Byte> :|
      (version == 0x00 || version == 0x05) && |hash| == 20 && text == Address(version, hash, sha256)
    {
      var payload := [version] + hash;
      var b := payload + sha256(sha256(payload))[..4];
      DecodedEncoded(b);
      assert b[..21] == payload && b[21..] == sha256(sha256(payload))[..4];
    }
  }
}
