/**
  Positional numerals, most significant digit first, in any base.  Bytes, Base58 symbols and
  decimal digits are all read through this module.
 */
module Digits {
  import opened Nonlinear

  type Byte = n: nat | n < 256

  function Zeros(n: nat): (z: seq<Byte>)
    ensures |z| == n && forall i :: 0 <= i < n ==> z[i] == 0
  {
    seq(n, _ => 0)
  }

  ghost predicate Within(s: seq<nat>, b: nat) {
    forall i :: 0 <= i < |s| ==> s[i] < b
  }

  /** The number a digit sequence denotes, read left to right. */
  function Numeral(s: seq<nat>, b: nat): nat {
    if s == [] then 0 else Numeral(s[..|s| - 1], b) * b + s[|s| - 1]
  }

  /** No leading zero: the only spelling of its number. */
  predicate Shortest(s: seq<nat>) {
    s == [] || s[0] != 0
  }

  /** The digits of n with no leading zero; zero has no digits. */
  function DigitsOf(n: nat, b: nat): (s: seq<nat>)
    requires b >= 2
  {
    if n == 0 then [] else
      DivBelow(n, b);
      DigitsOf(n / b, b) + [n % b]
  }

  lemma NumeralEmpty(b: nat)
    ensures Numeral([], b) == 0
  {
  }

  lemma {:induction false} NumeralAppend(s: seq<nat>, t: seq<nat>, b: nat)
    ensures Power(b, |t|) >= 0
    ensures Numeral(s + t, b) == Numeral(s, b) * Power(b, |t|) + Numeral(t, b)
  {
    if t == [] {
      assert s + t == s;
    } else {
      var front, last := t[..|t| - 1], t[|t| - 1];
      NumeralAppend(s, front, b);
      assert (s + t)[..|s + t| - 1] == s + front;
      ShiftedSum(Numeral(s, b), Power(b, |front|), Numeral(front, b), b);
    }
  }

  lemma ShiftedSum(n: int, p: int, f: int, b: int)
    requires p >= 0 && b >= 0
    ensures b * p >= 0 && (n * p + f) * b == n * (b * p) + f * b
  {
    MulMono(0, b, p);
    MulAssociates(n, p, b);
  }

  lemma NumeralAppendOne(s: seq<nat>, digit: nat, b: nat)
    ensures Numeral(s + [digit], b) == Numeral(s, b) * b + digit
  {
    assert (s + [digit])[..|s|] == s;
  }

  lemma {:induction false} NumeralBound(s: seq<nat>, b: nat)
    requires b > 0 && Within(s, b)
    ensures Numeral(s, b) < Power(b, |s|)
  {
    if s != [] {
      NumeralBound(s[..|s| - 1], b);
      RoomForDigit(Numeral(s[..|s| - 1], b), Power(b, |s| - 1), s[|s| - 1], b);
    }
  }

  lemma RoomForDigit(n: nat, p: nat, digit: nat, b: nat)
    requires n < p && digit < b
    ensures n * b + digit < b * p
  {
    MulMono(n + 1, p, b);
  }

  /** More digits never make the number smaller. */
  lemma {:induction false} NumeralPrefix(s: seq<nat>, k: nat, b: nat)
    requires k <= |s| && b > 0
    ensures Numeral(s[..k], b) <= Numeral(s, b)
  {
    if k == |s| {
      assert s[..k] == s;
    } else {
      NumeralPrefix(s[..|s| - 1], k, b);
      assert s[..|s| - 1][..k] == s[..k];
      MulMono(1, b, Numeral(s[..|s| - 1], b));
    }
  }

  /** Among sequences of one length, the number determines the digits. */
  lemma {:induction false} NumeralInjective(s: seq<nat>, t: seq<nat>, b: nat)
    requires b > 0 && |s| == |t| && Within(s, b) && Within(t, b) && Numeral(s, b) == Numeral(t, b)
    ensures s == t
  {
    if s != [] {
      var n := |s| - 1;
      DivModUnique(Numeral(s, b), b, Numeral(s[..n], b), s[n]);
      DivModUnique(Numeral(t, b), b, Numeral(t[..n], b), t[n]);
      NumeralInjective(s[..n], t[..n], b);
      assert s == s[..n] + [s[n]] && t == t[..n] + [t[n]];
    }
  }

  /** A shortest numeral is recovered from its number. */
  lemma {:induction false} DigitsOfNumeral(s: seq<nat>, b: nat)
    requires b >= 2 && Within(s, b) && Shortest(s)
    ensures DigitsOf(Numeral(s, b), b) == s
  {
    if s != [] {
      var n := |s| - 1;
      DigitsOfNumeral(s[..n], b);
      DivModUnique(Numeral(s, b), b, Numeral(s[..n], b), s[n]);
      assert s == s[..n] + [s[n]];
      if s[..n] == [] {
      } else {
        LeadingDigitCounts(s[..n], b);
        MulMono(1, b, Numeral(s[..n], b));
      }
    }
  }

  lemma {:induction false} LeadingDigitCounts(s: seq<nat>, b: nat)
    requires b > 0 && s != [] && s[0] != 0
    ensures Numeral(s, b) > 0
  {
    assert s[..1] == [s[0]];
    assert Numeral([s[0]], b) == Numeral([s[0]][..0], b) * b + s[0] == s[0];
    NumeralPrefix(s, 1, b);
  }

  lemma AppendDigit(front: seq<nat>, digit: nat, b: nat)
    requires Within(front, b) && Shortest(front) && digit < b && (front != [] || digit != 0)
    ensures Within(front + [digit], b) && Shortest(front + [digit])
  {
  }

  /** Every number has shortest digits, and they denote it. */
  lemma {:induction false} NumeralOfDigits(n: nat, b: nat)
    requires b >= 2
    ensures Numeral(DigitsOf(n, b), b) == n && Within(DigitsOf(n, b), b) && Shortest(DigitsOf(n, b))
    ensures n > 0 ==> DigitsOf(n, b) != []
    decreases n
  {
    if n > 0 {
      DivBelow(n, b);
      var q, front := n / b, DigitsOf(n / b, b);
      assert n == q * b + n % b;
      NumeralOfDigits(q, b);
      NumeralAppendOne(front, n % b, b);
      AppendDigit(front, n % b, b);
    }
  }

  /** A numeral with no leading zero is at least the weight of its first digit. */
  lemma {:induction false} LeadingDigitWeight(s: seq<nat>, b: nat)
    requires b > 0 && s != [] && s[0] != 0
    ensures Power(b, |s| - 1) <= Numeral(s, b)
  {
    if |s| > 1 {
      var front := s[..|s| - 1];
      LeadingDigitWeight(front, b);
      MulMono(Power(b, |s| - 2), Numeral(front, b), b);
    } else {
      LeadingDigitCounts(s, b);
    }
  }
}
