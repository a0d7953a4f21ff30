/**
  The texts canonical JSON is made of: quoted strings and integers, over UTF-16 code units.  Both
  are self-delimiting, which is what makes the whole printer injective.
 */
module JsonText {
  import opened Digits

  /** One UTF-16 code unit. */
  type CodeUnit = n: nat | n < 0x1_0000
  type Text = seq<CodeUnit>

  const QUOTE: CodeUnit := 34
  const COMMA: CodeUnit := 44
  const MINUS: CodeUnit := 45
  const ZERO_DIGIT: CodeUnit := 48
  const COLON: CodeUnit := 58
  const OPEN_BRACKET: CodeUnit := 91
  const BACKSLASH: CodeUnit := 92
  const CLOSE_BRACKET: CodeUnit := 93
  const LETTER_U: CodeUnit := 117
  const OPEN_BRACE: CodeUnit := 123
  const CLOSE_BRACE: CodeUnit := 125

  lemma Peel<T>(a: T, s: seq<T>, b: T, t: seq<T>)
    requires [a] + s == [b] + t
    ensures a == b && s == t
  {
    assert ([a] + s)[1..] == s && ([b] + t)[1..] == t;
    assert ([a] + s)[0] == a && ([b] + t)[0] == b;
  }

  lemma PeelText(a: Text, s: Text, b: Text, t: Text)
    requires |a| == |b| && a + s == b + t
    ensures a == b && s == t
  {
    assert (a + s)[..|a|] == a && (b + t)[..|b|] == b;
    assert (a + s)[|a|..] == s && (b + t)[|b|..] == t;
  }

  // ---------------------------------------------------------------- integers

  predicate IsDigitUnit(u: CodeUnit) {
    48 <= u <= 57
  }

  function DigitUnits(s: seq<nat>): (t: Text)
    requires Within(s, 10)
    ensures |t| == |s| && forall i :: 0 <= i < |s| ==> t[i] == 48 + s[i]
  {
    seq(|s|, i requires 0 <= i < |s| => 48 + s[i])
  }

  function NatText(n: nat): (t: Text)
    ensures t != [] && forall i :: 0 <= i < |t| ==> IsDigitUnit(t[i])
  {
    if n == 0 then [ZERO_DIGIT] else
      NumeralOfDigits(n, 10);
      DigitUnits(DigitsOf(n, 10))
  }

  /** JSON.stringify of an integer. */
  function IntText(n: int): (t: Text)
    ensures t != [] && (t[0] == MINUS || IsDigitUnit(t[0]))
  {
    if n < 0 then [MINUS] + NatText(-n) else NatText(n)
  }

  lemma NatTextInjective(m: nat, n: nat)
    requires NatText(m) == NatText(n)
    ensures m == n
  {
    NatTextDenotes(m);
    NatTextDenotes(n);
  }

  /** The digits a run of digit units stands for. */
  ghost function DigitValues(t: Text): (s: seq<nat>)
    ensures |s| == |t|
  {
    seq(|t|, i requires 0 <= i < |t| => if t[i] >= 48 then t[i] - 48 else 0)
  }

  lemma NatTextDenotes(n: nat)
    ensures Numeral(DigitValues(NatText(n)), 10) == n
  {
    var s := DigitValues(NatText(n));
    if n == 0 {
      assert s == [0] && [0][..0] == [];
      assert Numeral([0], 10) == Numeral([0][..0], 10) * 10 + 0;
    } else {
      NumeralOfDigits(n, 10);
      assert s == DigitsOf(n, 10);
    }
  }

  ghost predicate NoDigitFirst(s: Text) {
    s == [] || !IsDigitUnit(s[0])
  }

  ghost predicate AllDigits(a: Text) {
    forall i :: 0 <= i < |a| ==> IsDigitUnit(a[i])
  }

  /** Where two readings of one text split it differently, the longer first part reaches into the second. */
  lemma Overlap(a: Text, s: Text, b: Text, t: Text)
    requires a + s == b + t && |a| < |b|
    ensures s != [] && s[0] == b[|a|]
  {
    assert |a + s| == |b + t|;
    assert (a + s)[|a|] == s[0] && (b + t)[|a|] == b[|a|];
  }

  /** Digits end where the first other unit starts. */
  lemma DigitRunEnds(a: Text, s: Text, b: Text, t: Text)
    requires a + s == b + t && NoDigitFirst(s) && NoDigitFirst(t) && AllDigits(a) && AllDigits(b)
    ensures a == b && s == t
  {
    if |a| < |b| {
      Overlap(a, s, b, t);
    } else if |b| < |a| {
      Overlap(b, t, a, s);
    } else {
      PeelText(a, s, b, t);
    }
  }

  lemma IntTextInjective(m: int, n: int, s: Text, t: Text)
    requires IntText(m) + s == IntText(n) + t && NoDigitFirst(s) && NoDigitFirst(t)
    ensures m == n && s == t
  {
    hide NatText;
    SameSign(m, n, s, t);
    if m < 0 {
      MinusPeels(NatText(-m), s, NatText(-n), t);
      DigitRunEnds(NatText(-m), s, NatText(-n), t);
      NatTextInjective(-m, -n);
    } else {
      DigitRunEnds(NatText(m), s, NatText(n), t);
      NatTextInjective(m, n);
    }
  }

  lemma MinusPeels(a: Text, s: Text, b: Text, t: Text)
    requires ([MINUS] + a) + s == ([MINUS] + b) + t
    ensures a + s == b + t
  {
    assert ([MINUS] + a) + s == [MINUS] + (a + s) && ([MINUS] + b) + t == [MINUS] + (b + t);
    Peel(MINUS, a + s, MINUS, b + t);
  }

  lemma SameSign(m: int, n: int, s: Text, t: Text)
    requires IntText(m) + s == IntText(n) + t
    ensures m < 0 <==> n < 0
  {
    hide NatText;
    assert (IntText(m) + s)[0] == IntText(m)[0] && (IntText(n) + t)[0] == IntText(n)[0];
  }

  // ---------------------------------------------------------------- strings

  predicate HighSurrogate(u: CodeUnit) {
    0xD800 <= u <= 0xDBFF
  }

  predicate LowSurrogate(u: CodeUnit) {
    0xDC00 <= u <= 0xDFFF
  }

  function HexDigit(d: nat): (u: CodeUnit)
    requires d < 16
  {
    if d < 10 then 48 + d else 87 + d
  }

  function UnicodeEscape(u: CodeUnit): (t: Text)
    ensures |t| == 6 && t[0] == BACKSLASH && t[1] == LETTER_U
  {
    [BACKSLASH, LETTER_U, HexDigit(u / 4096), HexDigit(u / 256 % 16), HexDigit(u / 16 % 16), HexDigit(u % 16)]
  }

  lemma UnicodeEscapeInjective(u: CodeUnit, v: CodeUnit)
    requires UnicodeEscape(u) == UnicodeEscape(v)
    ensures u == v
  {
    var a, b := UnicodeEscape(u), UnicodeEscape(v);
    assert a[2] == b[2] && a[3] == b[3] && a[4] == b[4] && a[5] == b[5];
    HexParts(u);
    HexParts(v);
  }

  lemma HexParts(u: CodeUnit)
    ensures u == 4096 * (u / 4096) + 256 * (u / 256 % 16) + 16 * (u / 16 % 16) + u % 16
  {
    assert u == 16 * (u / 16) + u % 16;
    assert u / 16 / 16 == u / 256 && u / 256 / 16 == u / 4096;
  }

  /** The second unit of a two-unit escape, or 0 when there is none. */
  function ShortEscape(u: CodeUnit): (e: CodeUnit)
    ensures e != LETTER_U
  {
    if u == 8 then 98 else if u == 9 then 116 else if u == 10 then 110 else if u == 12 then 102
    else if u == 13 then 114 else if u == QUOTE then QUOTE else if u == BACKSLASH then BACKSLASH else 0
  }

  /** How many units of s its first token stands for. */
  function TokenWidth(s: Text): (n: nat)
    requires s != []
    ensures 1 <= n <= |s|
  {
    if |s| >= 2 && HighSurrogate(s[0]) && LowSurrogate(s[1]) then 2 else 1
  }

  /** The token JSON.stringify writes for the start of s: a pair, an escape, or the unit itself. */
  function Token(s: Text): (t: Text)
    requires s != []
    ensures t != []
  {
    var u := s[0];
    if TokenWidth(s) == 2 then s[..2]
    else if ShortEscape(u) != 0 then [BACKSLASH, ShortEscape(u)]
    else if u < 32 || HighSurrogate(u) || LowSurrogate(u) then UnicodeEscape(u)
    else [u]
  }

  function Escape(s: Text): Text
    decreases |s|
  {
    if s == [] then [] else Token(s) + Escape(s[TokenWidth(s)..])
  }

  /** JSON.stringify of a string. */
  function Quote(s: Text): (t: Text)
    ensures |t| >= 2 && t[0] == QUOTE
  {
    [QUOTE] + Escape(s) + [QUOTE]
  }

  /** A token never looks like a closing quote, and starts with a backslash only when it escapes. */
  lemma TokenStart(s: Text)
    requires s != []
    ensures Token(s)[0] != QUOTE
    ensures Token(s)[0] == BACKSLASH <==> |Token(s)| != TokenWidth(s)
    ensures |Token(s)| == TokenWidth(s) ==> Token(s) == s[..TokenWidth(s)]
    ensures |Token(s)| == TokenWidth(s) ==> (TokenWidth(s) == 2 <==> HighSurrogate(s[0]))
  {
  }

  /** What follows a token cannot change what it stands for. */
  lemma TokenInjective(s: Text, t: Text, x: Text, y: Text)
    requires s != [] && t != [] && Token(s) + x == Token(t) + y
    ensures TokenWidth(s) == TokenWidth(t) && s[..TokenWidth(s)] == t[..TokenWidth(t)] && x == y
  {
    TokenStart(s);
    TokenStart(t);
    var a, b := Token(s), Token(t);
    assert (a + x)[0] == a[0] && (b + y)[0] == b[0];
    if a[0] == BACKSLASH {
      assert (a + x)[1] == a[1] && (b + y)[1] == b[1];
      PeelText(a, x, b, y);
      if |a| == 6 {
        assert a == UnicodeEscape(s[0]) && b == UnicodeEscape(t[0]);
        UnicodeEscapeInjective(s[0], t[0]);
      } else {
        assert a[1] == ShortEscape(s[0]) && b[1] == ShortEscape(t[0]);
      }
      assert s[..1] == [s[0]] && t[..1] == [t[0]];
    } else {
      PeelText(a, x, b, y);
    }
  }

  lemma {:induction false} EscapeInjective(s: Text, t: Text, x: Text, y: Text)
    requires Escape(s) + ([QUOTE] + x) == Escape(t) + ([QUOTE] + y)
    ensures s == t && x == y
    decreases |s| + |t|
  {
    hide Token, TokenWidth, Escape;
    EscapeStart(s, x);
    EscapeStart(t, y);
    if s == [] && t == [] {
      EscapeEmpty(x);
      EscapeEmpty(y);
      Peel(QUOTE, x, QUOTE, y);
    } else if s != [] && t != [] {
      var n, m := TokenWidth(s), TokenWidth(t);
      var restS, restT := Escape(s[n..]) + ([QUOTE] + x), Escape(t[m..]) + ([QUOTE] + y);
      EscapeStep(s, [QUOTE] + x);
      EscapeStep(t, [QUOTE] + y);
      TokenInjective(s, t, restS, restT);
      EscapeInjective(s[n..], t[m..], x, y);
      assert s == s[..n] + s[n..] && t == t[..m] + t[m..];
    }
  }

  lemma EscapeEmpty(x: Text)
    ensures Escape([]) + ([QUOTE] + x) == [QUOTE] + x
  {
  }

  lemma EscapeStep(s: Text, rest: Text)
    requires s != []
    ensures Escape(s) + rest == Token(s) + (Escape(s[TokenWidth(s)..]) + rest)
  {
    hide Token, TokenWidth;
  }

  lemma EscapeStart(s: Text, x: Text)
    ensures (Escape(s) + ([QUOTE] + x))[0] == QUOTE <==> s == []
  {
    if s != [] {
      TokenStart(s);
      assert (Escape(s) + ([QUOTE] + x))[0] == Token(s)[0];
    }
  }

  /** A quoted string ends at its closing quote, wherever it stands in a text. */
  lemma QuoteInjective(s: Text, t: Text, x: Text, y: Text)
    requires Quote(s) + x == Quote(t) + y
    ensures s == t && x == y
  {
    var a, b := Escape(s) + ([QUOTE] + x), Escape(t) + ([QUOTE] + y);
    assert Quote(s) + x == [QUOTE] + a && Quote(t) + y == [QUOTE] + b;
    Peel(QUOTE, a, QUOTE, b);
    EscapeInjective(s, t, x, y);
  }
}
