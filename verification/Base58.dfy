/** The Base58 decoding of validBase58CheckMainnet, and that it never confuses two addresses. */
module Base58 {
  import opened Nonlinear
  import opened Wrappers
  import opened Digits
  import opened Alphabets

  const ALPHABET: string := "123456789" + "ABCDEFGH" + "JKLMN" + "PQRSTUVWXYZ" + "abcdefghijk" + "mnopqrstuvwxyz"

  /** How many characters '1' a text starts with. */
  function LeadingOnes(text: string): (n: nat)
    ensures n <= |text|
    ensures forall i :: 0 <= i < n ==> text[i] == '1'
    ensures n < |text| ==> text[n] != '1'
  {
    if text == "" || text[0] != '1' then 0 else 1 + LeadingOnes(text[1..])
  }

  /** The base-58 digits of a text over the alphabet. */
  function DigitsOfText(text: string): (s: seq<nat>)
    requires Spelled(ALPHABET, text)
    ensures |s| == |text| && Within(s, 58)
    ensures forall i :: 0 <= i < |text| ==> s[i] == IndexOf(ALPHABET, text[i])
  {
    seq(|text|, i requires 0 <= i < |text| => IndexOf(ALPHABET, text[i]))
  }

  /** Digits all below 256, as bytes. */
  function Bytes(s: seq<nat>): (b: seq<Byte>)
    requires Within(s, 256)
    ensures b == s
  {
    seq(|s|, i requires 0 <= i < |s| => s[i])
  }

  /** One zero byte per leading '1', then the big-endian bytes of the base-58 value. */
  function Decoded(text: string): seq<Byte>
    requires Spelled(ALPHABET, text)
  {
    var n := Numeral(DigitsOfText(text), 58);
    NumeralOfDigits(n, 256);
    Zeros(LeadingOnes(text)) + Bytes(DigitsOf(n, 256))
  }

  /** The three loops of the source. */
  method Decode(address: string) returns (r: Option<seq<Byte>>)
    ensures r.Some? <==> Spelled(ALPHABET, address)
    ensures r.Some? ==> r.value == Decoded(address)
  {
    hide Numeral, DigitsOf;
    var numeric := ReadNumeral(address);
    if numeric.None? {
      return None;
    }
    var decoded := BytesOfNumber(numeric.value);
    NumeralOfDigits(numeric.value, 256);
    decoded := PrependZeros(address, decoded);
    r := Some(decoded);
  }

  /** The accumulating loop: multiply by 58 and add the next digit, or stop at a foreign character. */
  method ReadNumeral(address: string) returns (r: Option<nat>)
    ensures r.Some? <==> Spelled(ALPHABET, address)
    ensures r.Some? ==> r.value == Numeral(DigitsOfText(address), 58)
  {
    hide Numeral, IndexOf;
    var numeric: nat := 0;
    EmptyNumeral();
    for i := 0 to |address|
      invariant Spelled(ALPHABET, address[..i]) && numeric == Numeral(DigitsOfText(address[..i]), 58)
    {
      var digit := IndexOf(ALPHABET, address[i]);
      if digit < 0 {
        return None;
      }
      NextDigit(address, i);
      numeric := numeric * 58 + digit;
    }
    assert address[..|address|] == address;
    r := Some(numeric);
  }

  lemma EmptyNumeral()
    ensures Numeral(DigitsOfText(""), 58) == 0
  {
  }

  lemma NextDigit(address: string, i: nat)
    requires i < |address| && Spelled(ALPHABET, address[..i]) && IndexOf(ALPHABET, address[i]) >= 0
    ensures Spelled(ALPHABET, address[..i + 1])
    ensures Numeral(DigitsOfText(address[..i + 1]), 58)
      == Numeral(DigitsOfText(address[..i]), 58) * 58 + IndexOf(ALPHABET, address[i])
  {
    hide Numeral, IndexOf;
    var digit := IndexOf(ALPHABET, address[i]);
    assert DigitsOfText(address[..i + 1]) == DigitsOfText(address[..i]) + [digit];
    NumeralAppendOne(DigitsOfText(address[..i]), digit, 58);
  }

  /** The low byte moves to the front until nothing is left. */
  method BytesOfNumber(n: nat) returns (decoded: seq<Byte>)
    ensures decoded == DigitsOf(n, 256)
  {
    var numeric := n;
    decoded := [];
    while numeric > 0
      invariant DigitsOf(numeric, 256) + decoded == DigitsOf(n, 256)
    {
      DivBelow(numeric, 256);
      ghost var before := decoded;
      decoded := [numeric % 256] + decoded;
      assert DigitsOf(numeric / 256, 256) + decoded == (DigitsOf(numeric / 256, 256) + [numeric % 256]) + before;
      numeric := numeric / 256;
    }
    assert DigitsOf(0, 256) + decoded == decoded;
  }

  method PrependZeros(address: string, body: seq<Byte>) returns (decoded: seq<Byte>)
    ensures decoded == Zeros(LeadingOnes(address)) + body
  {
    decoded := body;
    var i := 0;
    assert Zeros(0) + body == body;
    while i < |address| && address[i] == '1'
      invariant 0 <= i <= LeadingOnes(address) && decoded == Zeros(i) + body
    {
      assert [0] + Zeros(i) == Zeros(i + 1);
      assert [0] + (Zeros(i) + body) == ([0] + Zeros(i)) + body;
      decoded := [0] + decoded;
      i := i + 1;
    }
  }

  lemma {:induction false} LeadingZeros(s: seq<nat>, k: nat, b: nat)
    requires k <= |s| && forall i :: 0 <= i < k ==> s[i] == 0
    ensures Numeral(s, b) == Numeral(s[k..], b)
    decreases |s|
  {
    if k == |s| {
      AllZeroNumeral(s, b);
      assert s[k..] == [];
    } else {
      var n := |s| - 1;
      LeadingZeros(s[..n], k, b);
      assert s[..n][k..] == s[k..][..|s[k..]| - 1];
      assert s[k..][|s[k..]| - 1] == s[n];
    }
  }

  lemma {:induction false} AllZeroNumeral(s: seq<nat>, b: nat)
    requires forall i :: 0 <= i < |s| ==> s[i] == 0
    ensures Numeral(s, b) == 0
  {
    if s != [] {
      AllZeroNumeral(s[..|s| - 1], b);
    }
  }

  lemma OneIsZero()
    ensures IndexOf(ALPHABET, '1') == 0
    ensures forall c :: IndexOf(ALPHABET, c) == 0 ==> c == '1'
  {
    assert ALPHABET[0] == '1';
  }

  /** The decoded bytes are big-endian for the base-58 value, and start with exactly one zero per leading '1'. */
  lemma DecodedDenotes(text: string)
    requires Spelled(ALPHABET, text)
    ensures Numeral(Decoded(text), 256) == Numeral(DigitsOfText(text), 58)
    ensures LeadingOnes(text) <= |Decoded(text)|
    ensures forall i :: 0 <= i < LeadingOnes(text) ==> Decoded(text)[i] == 0
    ensures LeadingOnes(text) < |Decoded(text)| ==> Decoded(text)[LeadingOnes(text)] != 0
  {
    var n, k := Numeral(DigitsOfText(text), 58), LeadingOnes(text);
    NumeralOfDigits(n, 256);
    var body := Bytes(DigitsOf(n, 256));
    assert Decoded(text) == Zeros(k) + body;
    LeadingZeros(Decoded(text), k, 256);
    assert Decoded(text)[k..] == body;
  }

  /** The text is rebuilt from its number of leading '1's and its value. */
  lemma TextFromValue(text: string)
    requires Spelled(ALPHABET, text)
    ensures
      var digits := DigitsOfText(text);
      var k := LeadingOnes(text);
      digits[k..] == DigitsOf(Numeral(digits, 58), 58) && forall i :: 0 <= i < k ==> digits[i] == 0
  {
    var digits, k := DigitsOfText(text), LeadingOnes(text);
    OneIsZero();
    LeadingZeros(digits, k, 58);
    assert Shortest(digits[k..]);
    DigitsOfNumeral(digits[k..], 58);
  }

  /** Distinct texts decode to distinct byte lists. */
  lemma DecodedInjective(s: string, t: string)
    requires Spelled(ALPHABET, s) && Spelled(ALPHABET, t) && Decoded(s) == Decoded(t)
    ensures s == t
  {
    hide Decoded, Numeral, DigitsOf;
    DecodedDenotes(s);
    DecodedDenotes(t);
    SameLeading(Decoded(s), LeadingOnes(s), LeadingOnes(t));
    TextFromValue(s);
    TextFromValue(t);
    var a, b, k := DigitsOfText(s), DigitsOfText(t), LeadingOnes(s);
    assert a == a[..k] + a[k..] && b == b[..k] + b[k..];
    assert a[..k] == b[..k];
    assert Positions(ALPHABET, s) == a && Positions(ALPHABET, t) == b;
    PositionsInjective(ALPHABET, s, t);
  }

  lemma SameLeading(d: seq<Byte>, j: nat, k: nat)
    requires j <= |d| && k <= |d|
    requires (forall i :: 0 <= i < j ==> d[i] == 0) && (j < |d| ==> d[j] != 0)
    requires (forall i :: 0 <= i < k ==> d[i] == 0) && (k < |d| ==> d[k] != 0)
    ensures j == k
  {
  }

  // ---------------------------------------------------------------- the check around it

  /** validBase58CheckMainnet; sha256 stands for the digest. */
  method ValidBase58CheckMainnet(address: string, sha256: seq<Byte> -> seq<Byte>) returns (valid: bool)
    ensures valid <==> Accepted(address, sha256)
  {
    var decoded := Decode(address);
    if decoded.None? {
      return false;
    }
    var bytes := decoded.value;
    if |bytes| != 25 || (bytes[0] != 0x00 && bytes[0] != 0x05) {
      return false;
    }
    var digest := sha256(sha256(bytes[..21]));
    valid := |digest| >= 4 && bytes[21..] == digest[..4];
  }

  ghost predicate Accepted(address: string, sha256: seq<Byte> -> seq<Byte>) {
    && Spelled(ALPHABET, address)
    && var bytes := Decoded(address);
    && |bytes| == 25 && (bytes[0] == 0x00 || bytes[0] == 0x05)
    && var digest := sha256(sha256(bytes[..21]));
    && |digest| >= 4 && bytes[21..] == digest[..4]
  }

  /** A version and payload have at most one accepted spelling. */
  lemma OneSpellingPerPayload(s: string, t: string, sha256: seq<Byte> -> seq<Byte>)
    requires Accepted(s, sha256) && Accepted(t, sha256) && Decoded(s)[..21] == Decoded(t)[..21]
    ensures s == t
  {
    hide Decoded;
    var a, b := Decoded(s), Decoded(t);
    assert a == a[..21] + a[21..] && b == b[..21] + b[21..];
    DecodedInjective(s, t);
  }
}
