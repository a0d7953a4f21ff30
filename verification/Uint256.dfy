/**
  The four-limb unsigned integer of the work module: limbs of 64 bits, least significant first.
  Every operation is the limb loop of the source; every contract speaks of the represented value.
 */
module Uint256Arithmetic {
  import opened Nonlinear
  import opened Wrappers

  const LIMB: nat := 0x1_0000_0000_0000_0000
  const TWO_256: nat := 0x1_0000_0000_0000_0000_0000_0000_0000_0000_0000_0000_0000_0000_0000_0000_0000_0000

  type Limb = n: nat | n < 0x1_0000_0000_0000_0000
  type Uint256 = s: seq<Limb> | |s| == 4 witness [0, 0, 0, 0]

  const ZERO: Uint256 := [0, 0, 0, 0]
  const ONE: Uint256 := [1, 0, 0, 0]
  const MAX: Uint256 := [LIMB - 1, LIMB - 1, LIMB - 1, LIMB - 1]

  /** The weight of limb i, 2^(64 i). */
  ghost function Weight(i: nat): (w: nat)
    ensures w > 0
  {
    if i == 0 then 1 else LIMB * Weight(i - 1)
  }

  /** The value of the i least significant limbs. */
  ghost function Low(s: seq<Limb>, i: nat): nat
    requires i <= |s|
  {
    if i == 0 then 0 else Low(s, i - 1) + s[i - 1] * Weight(i - 1)
  }

  ghost function Value(x: Uint256): nat {
    Low(x, 4)
  }

  lemma {:induction false} LowBound(s: seq<Limb>, i: nat)
    requires i <= |s|
    ensures Low(s, i) < Weight(i)
  {
    if i > 0 {
      LowBound(s, i - 1);
      MulMono(s[i - 1], LIMB - 1, Weight(i - 1));
    }
  }

  /** Low looks only at the limbs it counts. */
  lemma {:induction false} LowFrame(s: seq<Limb>, t: seq<Limb>, i: nat)
    requires i <= |s| && i <= |t| && s[..i] == t[..i]
    ensures Low(s, i) == Low(t, i)
  {
    if i > 0 {
      assert s[..i - 1] == s[..i][..i - 1] == t[..i - 1];
      assert s[i - 1] == s[..i][i - 1] == t[i - 1];
      LowFrame(s, t, i - 1);
    }
  }

  lemma ValueBound(x: Uint256)
    ensures Value(x) < TWO_256
  {
    LowBound(x, 4);
    assert Weight(4) == TWO_256;
  }

  lemma Expand(x: Uint256)
    ensures Value(x) == x[0] + LIMB * x[1] + LIMB * LIMB * x[2] + LIMB * LIMB * LIMB * x[3]
  {
    assert Weight(0) == 1 && Weight(1) == LIMB && Weight(2) == LIMB * LIMB && Weight(3) == LIMB * LIMB * LIMB;
    assert Low(x, 1) == Low(x, 0) + x[0] * Weight(0);
    assert Low(x, 2) == Low(x, 1) + x[1] * Weight(1);
    assert Low(x, 3) == Low(x, 2) + x[2] * Weight(2);
    assert Low(x, 4) == Low(x, 3) + x[3] * Weight(3);
  }

  /** Equal values have equal limbs, so comparing limbs compares values. */
  lemma ValueInjective(x: Uint256, y: Uint256)
    requires Value(x) == Value(y)
    ensures x == y
  {
    LowInjective(x, y, 4);
    assert x[..4] == x && y[..4] == y;
  }

  lemma {:induction false} LowInjective(x: Uint256, y: Uint256, n: nat)
    requires n <= 4 && Low(x, n) == Low(y, n)
    ensures x[..n] == y[..n]
  {
    if n > 0 {
      LowBound(x, n - 1);
      LowBound(y, n - 1);
      DivModUnique(Low(x, n), Weight(n - 1), x[n - 1], Low(x, n - 1));
      DivModUnique(Low(y, n), Weight(n - 1), y[n - 1], Low(y, n - 1));
      LowInjective(x, y, n - 1);
      assert x[..n] == x[..n - 1] + [x[n - 1]] && y[..n] == y[..n - 1] + [y[n - 1]];
    }
  }

  /** The four-limb integer with a given value. */
  ghost function OfValue(n: nat): (x: Uint256)
    requires n < TWO_256
    ensures Value(x) == n
  {
    var x: Uint256 := [n % LIMB, n / LIMB % LIMB, n / LIMB / LIMB % LIMB, n / LIMB / LIMB / LIMB];
    Expand(x);
    x
  }

  lemma OfValueInverse(x: Uint256)
    ensures Value(x) < TWO_256 && OfValue(Value(x)) == x
  {
    ValueBound(x);
    ValueInjective(OfValue(Value(x)), x);
  }

  lemma Constants()
    ensures Value(ZERO) == 0 && Value(ONE) == 1 && Value(MAX) == TWO_256 - 1
  {
    Expand(ZERO);
    Expand(ONE);
    Expand(MAX);
  }

  /** One column of an addition, subtraction or product: c is carried in, c' carried out. */
  lemma Column(s: seq<Limb>, i: nat, total: int, digit: int, carry: int)
    requires i < |s| && s[i] == digit && total == digit + LIMB * carry
    ensures Low(s, i + 1) + carry * Weight(i + 1) == Low(s, i) + total * Weight(i)
  {
    var w := Weight(i);
    assert (digit + LIMB * carry) * w == digit * w + carry * (LIMB * w);
  }

  /** The same for a carry that is a flag. */
  lemma FlagColumn(s: seq<Limb>, i: nat, total: int, digit: int, flag: bool)
    requires i < |s| && s[i] == digit && total == digit + (if flag then LIMB else 0)
    ensures Low(s, i + 1) + (if flag then Weight(i + 1) else 0) == Low(s, i) + total * Weight(i)
  {
    Column(s, i, total, digit, if flag then 1 else 0);
  }

  ghost function SumColumn(x: int, y: int, carry: bool): int {
    x + y + if carry then 1 else 0
  }

  ghost function DifferenceColumn(x: int, y: int, borrow: bool): int {
    x - y - if borrow then 1 else 0
  }

  lemma WeighSum(x: int, y: int, carry: bool, w: int)
    ensures SumColumn(x, y, carry) * w == x * w + y * w + if carry then w else 0
  {
  }

  lemma WeighDifference(x: int, y: int, borrow: bool, w: int)
    ensures DifferenceColumn(x, y, borrow) * w == x * w - y * w - if borrow then w else 0
  {
  }

  function OverflowingAdd(x: Limb, y: Limb): (r: (Limb, bool))
    ensures r.0 + (if r.1 then LIMB else 0) == x + y
  {
    ((x + y) % LIMB, x + y >= LIMB)
  }

  function OverflowingSub(x: Limb, y: Limb): (r: (Limb, bool))
    ensures r.0 - (if r.1 then LIMB else 0) == x - y
  {
    ((x - y) % LIMB, x < y)
  }

  method CheckedAdd(x: Uint256, y: Uint256) returns (r: Option<Uint256>)
    ensures r.Some? <==> Value(x) + Value(y) < TWO_256
    ensures r.Some? ==> Value(r.value) == Value(x) + Value(y)
  {
    var sum: Uint256 := ZERO;
    var carry := false;
    for i := 0 to 4
      invariant Low(sum, i) + (if carry then Weight(i) else 0) == Low(x, i) + Low(y, i)
    {
      var (partial, firstCarry) := OverflowingAdd(x[i], y[i]);
      var (total, secondCarry) := OverflowingAdd(partial, if carry then 1 else 0);
      ghost var before := sum;
      WeighSum(x[i], y[i], carry, Weight(i));
      ghost var column := SumColumn(x[i], y[i], carry);
      sum := sum[i := total];
      carry := firstCarry || secondCarry;
      LowFrame(before, sum, i);
      FlagColumn(sum, i, column, total, carry);
    }
    assert Weight(4) == TWO_256;
    ValueBound(sum);
    r := if carry then None else Some(sum);
  }

  method CheckedMulSmallAdd(x: Uint256, multiplier: Limb, addend: Limb) returns (r: Option<Uint256>)
    ensures r.Some? <==> Value(x) * multiplier + addend < TWO_256
    ensures r.Some? ==> Value(r.value) == Value(x) * multiplier + addend
  {
    var product: Uint256 := ZERO;
    var carry: nat := addend;
    for i := 0 to 4
      invariant carry < LIMB
      invariant Low(product, i) + carry * Weight(i) == Low(x, i) * multiplier + addend
    {
      // No 128-bit wrap: (2^64 - 1)^2 + 2^64 - 1 stays below 2^128.
      SmallProductFits(x[i], multiplier, carry);
      var value := x[i] * multiplier + carry;
      ghost var before, c := product, carry;
      product := product[i := value % LIMB];
      carry := value / LIMB;
      LowFrame(before, product, i);
      Column(product, i, value, value % LIMB, carry);
      ProductColumn(Low(x, i), x[i], multiplier, c, Weight(i));
    }
    assert Weight(4) == TWO_256;
    ValueBound(product);
    if carry > 0 {
      MulMono(1, carry, TWO_256);
    }
    r := if carry == 0 then Some(product) else None;
  }

  lemma SmallProductFits(limb: Limb, multiplier: Limb, carry: Limb)
    ensures 0 <= limb * multiplier + carry < LIMB * LIMB
    ensures 0 <= (limb * multiplier + carry) / LIMB < LIMB
  {
    MulMono(0, limb, multiplier);
    MulMono(limb, LIMB - 1, multiplier);
  }

  lemma ProductColumn(low: nat, limb: nat, multiplier: nat, carry: nat, w: nat)
    ensures (limb * multiplier + carry) * w + low * multiplier == (low + limb * w) * multiplier + carry * w
  {
  }

  function BitwiseNot(x: Uint256): (r: Uint256) {
    [LIMB - 1 - x[0], LIMB - 1 - x[1], LIMB - 1 - x[2], LIMB - 1 - x[3]]
  }

  lemma BitwiseNotValue(x: Uint256)
    ensures Value(BitwiseNot(x)) == TWO_256 - 1 - Value(x)
  {
    Expand(x);
    Expand(BitwiseNot(x));
  }

  /** x | 1. */
  function OrOne(x: Limb): (r: Limb)
    ensures r == x + (if x % 2 == 0 then 1 else 0)
  {
    if x % 2 == 0 then x + 1 else x
  }

  /** limb << 1 in 64 bits, and limb >> 63. */
  function ShiftLimb(limb: Limb): (r: (Limb, bool))
    ensures r.0 % 2 == 0 && 2 * limb == r.0 + (if r.1 then LIMB else 0)
  {
    ((2 * limb) % LIMB, limb / 0x8000_0000_0000_0000 == 1)
  }

  /** Doubles the value and drops what passes the top limb. */
  method ShiftLeftOne(x: Uint256) returns (r: Uint256)
    ensures Value(r) == 2 * Value(x) - (if Value(x) >= TWO_256 / 2 then TWO_256 else 0)
  {
    var shifted: Uint256 := ZERO;
    var carry := false;
    for i := 0 to 4
      invariant Low(shifted, i) + (if carry then Weight(i) else 0) == 2 * Low(x, i)
    {
      var (doubled, carryOut) := ShiftLimb(x[i]);
      ghost var before := shifted;
      WeighSum(x[i], x[i], carry, Weight(i));
      ghost var column := SumColumn(x[i], x[i], carry);
      shifted := shifted[i := if carry then OrOne(doubled) else doubled];
      carry := carryOut;
      LowFrame(before, shifted, i);
      FlagColumn(shifted, i, column, shifted[i], carry);
    }
    assert Weight(4) == TWO_256;
    ValueBound(shifted);
    r := shifted;
  }

  /** Subtracts modulo 2^256; the borrow out says whether the true difference was negative. */
  method Subtract(x: Uint256, y: Uint256) returns (r: Uint256, ghost borrowed: bool)
    ensures borrowed <==> Value(x) < Value(y)
    ensures Value(r) == Value(x) - Value(y) + (if Value(x) < Value(y) then TWO_256 else 0)
  {
    var difference: Uint256 := ZERO;
    var borrow := false;
    for i := 0 to 4
      invariant Low(difference, i) - (if borrow then Weight(i) else 0) == Low(x, i) - Low(y, i)
    {
      var (partial, firstBorrow) := OverflowingSub(x[i], y[i]);
      var (total, secondBorrow) := OverflowingSub(partial, if borrow then 1 else 0);
      ghost var before := difference;
      WeighDifference(x[i], y[i], borrow, Weight(i));
      ghost var column := DifferenceColumn(x[i], y[i], borrow);
      difference := difference[i := total];
      borrow := firstBorrow || secondBorrow;
      LowFrame(before, difference, i);
      Column(difference, i, column, total, if borrow then -1 else 0);
    }
    assert Weight(4) == TWO_256;
    ValueBound(difference);
    ValueBound(x);
    ValueBound(y);
    r, borrowed := difference, borrow;
  }

  /** The limb comparison of the source, most significant limb first: -1, 0 or 1. */
  method Compare(x: Uint256, y: Uint256) returns (c: int)
    ensures c == if Value(x) < Value(y) then -1 else if Value(x) == Value(y) then 0 else 1
  {
    var i := 4;
    while i > 0
      invariant 0 <= i <= 4
      invariant x[i..] == y[i..]
    {
      i := i - 1;
      if x[i] != y[i] {
        HighLimbDecides(x, y, i);
        HighLimbDecides(y, x, i);
        return if x[i] < y[i] then -1 else 1;
      }
      assert x[i..] == [x[i]] + x[i + 1..] && y[i..] == [y[i]] + y[i + 1..];
    }
    assert x == x[0..] == y[0..] == y;
    c := 0;
  }

  lemma HighLimbDecides(x: Uint256, y: Uint256, i: nat)
    requires i < 4 && x[i + 1..] == y[i + 1..]
    ensures x[i] < y[i] ==> Value(x) < Value(y)
  {
    if x[i] < y[i] {
      LowBound(x, i);
      HigherColumnWins(Low(x, i), x[i], Low(y, i), y[i], Weight(i));
      HigherLimbsKeepOrder(x, y, i + 1, 4);
    }
  }

  lemma HigherColumnWins(low: nat, limb: nat, low': nat, limb': nat, w: nat)
    requires low < w && limb < limb'
    ensures low + limb * w < low' + limb' * w
  {
    MulMono(limb + 1, limb', w);
  }

  lemma {:induction false} HigherLimbsKeepOrder(x: Uint256, y: Uint256, i: nat, n: nat)
    requires i <= n <= 4 && x[i..] == y[i..] && Low(x, i) < Low(y, i)
    ensures Low(x, n) < Low(y, n)
  {
    if i < n {
      HigherLimbsKeepOrder(x, y, i, n - 1);
      assert x[n - 1] == x[i..][n - 1 - i] == y[n - 1];
    }
  }

  // ---------------------------------------------------------------- bits

  lemma {:induction false} WeightIsPow2(k: nat)
    ensures Weight(k) == Pow2(64 * k)
  {
    if k > 0 {
      WeightIsPow2(k - 1);
      Pow2Add(64, 64 * (k - 1));
      assert Pow2(64) == LIMB by { Pow2Of64(); }
    }
  }

  lemma Pow2Of64()
    ensures Pow2(64) == LIMB
  {
    assert Pow2(4) == 16;
    Pow2Square(4, 16);
    Pow2Square(8, 0x100);
    Pow2Square(16, 0x1_0000);
    Pow2Square(32, 0x1_0000_0000);
  }

  lemma Pow2Square(n: nat, v: nat)
    requires Pow2(n) == v
    ensures Pow2(2 * n) == v * v
  {
    Pow2Add(n, n);
  }

  /** Above limb k the value is that limb plus a multiple of 2^64. */
  lemma {:induction false} SplitAt(x: Uint256, k: nat, n: nat) returns (high: nat)
    requires k < n <= 4
    ensures Low(x, n) == Low(x, k) + (x[k] + LIMB * high) * Weight(k)
  {
    if n == k + 1 {
      high := 0;
    } else {
      var h := SplitAt(x, k, n - 1);
      WeightProduct(k, n - 1 - k);
      high := h + x[n - 1] * Weight(n - 2 - k);
      NextLimbAbove(x[k], h, x[n - 1], Weight(k), Weight(n - 2 - k));
    }
  }

  lemma NextLimbAbove(limb: int, h: int, next: int, w: int, v: int)
    ensures (limb + LIMB * (h + next * v)) * w == (limb + LIMB * h) * w + next * (w * (LIMB * v))
  {
    var t := LIMB * (next * v);
    assert (limb + LIMB * (h + next * v)) * w == (limb + LIMB * h) * w + t * w;
    MoveFactor(next, v, w);
  }

  lemma MoveFactor(next: int, v: int, w: int)
    ensures (LIMB * (next * v)) * w == next * (w * (LIMB * v))
  {
    assert (next * v) * w == next * (w * v);
  }

  lemma {:induction false} WeightProduct(k: nat, m: nat)
    ensures Weight(k + m) == Weight(k) * Weight(m)
  {
    if m > 0 {
      WeightProduct(k, m - 1);
      assert LIMB * (Weight(k) * Weight(m - 1)) == Weight(k) * (LIMB * Weight(m - 1));
    }
  }

  function Bit(x: Uint256, index: nat): (b: bool)
    requires index < 256
  {
    BitOf(x[index / 64], index % 64) == 1
  }

  /** The limb test reads the bit of the whole value. */
  lemma BitIsValueBit(x: Uint256, index: nat)
    requires index < 256
    ensures Bit(x, index) <==> BitOf(Value(x), index) == 1
  {
    var k, j := index / 64, index % 64;
    var high := SplitAt(x, k, 4);
    var w := Weight(k);
    LowBound(x, k);
    DivModUnique(Value(x), w, x[k] + LIMB * high, Low(x, k));
    WeightIsPow2(k);
    Pow2Add(64 * k, j);
    DivDiv(Value(x), w, Pow2(j));
    LowBits(x[k], high, j);
  }

  lemma LowBits(limb: Limb, high: nat, j: nat)
    requires j < 64
    ensures BitOf(limb + LIMB * high, j) == BitOf(limb, j)
  {
    Pow2Of64();
    Pow2Add(63 - j, j + 1);
    var m := Pow2(63 - j) * high;
    FactorOut(Pow2(63 - j), Pow2(j), high);
    DivAddMultiple(limb, 2 * m, Pow2(j));
    DivAddMultiple(limb / Pow2(j), m, 2);
  }

  lemma FactorOut(a: int, c: int, h: int)
    ensures (a * (2 * c)) * h == (2 * (a * h)) * c
  {
    MulAssociates(a, c, h);
    MulAssociates(a, h, c);
  }

  /** limb | (1 << j). */
  function OrBit(limb: Limb, j: nat): (r: Limb)
    requires j < 64
  {
    if BitOf(limb, j) == 1 then limb else
      ClearBitHasRoom(limb, j);
      limb + Pow2(j)
  }

  lemma ClearBitHasRoom(limb: Limb, j: nat)
    requires j < 64 && BitOf(limb, j) == 0
    ensures limb + Pow2(j) < LIMB
  {
    var p, m := Pow2(j), Pow2(63 - j);
    assert LIMB == m * (2 * p) by {
      Pow2Of64();
      Pow2Add(63 - j, j + 1);
    }
    EvenQuotientHasRoom(limb, m, p);
  }

  lemma EvenQuotientHasRoom(limb: nat, m: nat, p: nat)
    requires p > 0 && (limb / p) % 2 == 0 && limb < m * (2 * p)
    ensures limb + p < m * (2 * p)
  {
    var h := limb / p / 2;
    assert limb == (2 * h) * p + limb % p;
    if h < m {
      MulMono(h + 1, m, 2 * p);
    } else {
      MulMono(m, h, 2 * p);
    }
  }

  /** Setting a clear bit adds its weight. */
  method SetBit(x: Uint256, index: nat) returns (r: Uint256)
    requires index < 256
    ensures Value(r) == Value(x) + (if BitOf(Value(x), index) == 1 then 0 else Pow2(index))
  {
    var k, j := index / 64, index % 64;
    r := x[k := OrBit(x[k], j)];
    BitIsValueBit(x, index);
    if BitOf(x[k], j) == 1 {
      assert r == x;
    } else {
      LimbChange(x, r, k);
      BitWeight(k, j);
    }
  }

  lemma BitWeight(k: nat, j: nat)
    ensures Pow2(j) * Weight(k) == Pow2(64 * k + j)
  {
    WeightIsPow2(k);
    Pow2Add(64 * k, j);
  }

  lemma LimbChange(x: Uint256, y: Uint256, k: nat)
    requires k < 4 && y == x[k := y[k]]
    ensures Value(y) == Value(x) + (y[k] - x[k]) * Weight(k)
  {
    LowFrame(x, y, k);
    assert (y[k] - x[k]) * Weight(k) == y[k] * Weight(k) - x[k] * Weight(k);
    HigherLimbsShift(x, y, k, 4);
  }

  lemma {:induction false} HigherLimbsShift(x: Uint256, y: Uint256, k: nat, n: nat)
    requires k < n <= 4 && y == x[k := y[k]]
    ensures Low(y, n) - Low(x, n) == Low(y, k + 1) - Low(x, k + 1)
  {
    if n > k + 1 {
      HigherLimbsShift(x, y, k, n - 1);
    }
  }

  // ---------------------------------------------------------------- division

  /**
    What schoolbook division holds after it has consumed the bits from 255 down to i: the
    remainder never exceeds the consumed prefix of the dividend, so doubling it and bringing the
    next bit in stays below 2^256 even when the divisor itself is above 2^255.
   */
  lemma NextRemainderFits(n: nat, r: nat, i: nat)
    requires n < TWO_256 && i > 0 && r <= n / Pow2(i)
    ensures 2 * r + BitOf(n, i - 1) <= n / Pow2(i - 1) < TWO_256
  {
    PrefixStep(n, i - 1);
    DivBelow(n, Pow2(i - 1));
  }

  /** One bit of long division, on the quotient and remainder of the consumed prefix. */
  lemma DivideStep(n: nat, d: nat, i: nat)
    requires d > 0 && i > 0
    ensures
      var (prefix, next) := (n / Pow2(i), n / Pow2(i - 1));
      var r := 2 * (prefix % d) + BitOf(n, i - 1);
      if r < d then next / d == 2 * (prefix / d) && next % d == r
      else next / d == 2 * (prefix / d) + 1 && next % d == r - d
  {
    PrefixStep(n, i - 1);
    var prefix, next := n / Pow2(i), n / Pow2(i - 1);
    var q, r := prefix / d, 2 * (prefix % d) + BitOf(n, i - 1);
    assert prefix == q * d + prefix % d;
    if r < d {
      assert next == (2 * q) * d + r;
      DivModUnique(next, d, 2 * q, r);
    } else {
      assert next == (2 * q + 1) * d + (r - d);
      DivModUnique(next, d, 2 * q + 1, r - d);
    }
  }

  /** Schoolbook binary division: exactly the floor quotient, for every non-zero divisor. */
  method Divide(x: Uint256, divisor: Uint256) returns (quotient: Uint256)
    requires divisor != ZERO
    ensures Value(divisor) != 0 && Value(quotient) == Value(x) / Value(divisor)
  {
    hide Value, BitOf, Pow2;
    Constants();
    if Value(divisor) == 0 {
      ValueInjective(divisor, ZERO);
    }
    quotient := ZERO;
    var remainder: Uint256 := ZERO;
    ghost var n, d, q := Value(x), Value(divisor), 0;
    NothingConsumed(x, d);
    var i: nat := 256;
    while i > 0
      invariant i <= 256 && q == n / Pow2(i) / d
      invariant Value(remainder) == n / Pow2(i) % d
      invariant Value(quotient) == q * Pow2(i)
    {
      DivideStep(n, d, i);
      ModAtMost(n / Pow2(i), d);
      i := i - 1;
      remainder := BringDownBit(x, i, remainder);
      QuotientBitIsClear(q, i);
      q := 2 * q;
      var c := Compare(remainder, divisor);
      if c < 0 {
        continue;
      }
      ghost var borrowed;
      remainder, borrowed := Subtract(remainder, divisor);
      assert !borrowed;
      quotient := SetBit(quotient, i);
      q := q + 1;
    }
    NothingLeft(n, q);
  }

  lemma NothingLeft(n: nat, q: nat)
    ensures n / Pow2(0) == n && q * Pow2(0) == q
  {
  }

  /** Doubles the remainder and adds the next dividend bit, without losing a top bit. */
  method BringDownBit(x: Uint256, i: nat, remainder: Uint256) returns (r: Uint256)
    requires i < 256 && Value(remainder) <= Value(x) / Pow2(i + 1)
    ensures Value(r) == 2 * Value(remainder) + BitOf(Value(x), i)
  {
    hide Value, Bit, BitOf, Pow2;
    ValueBound(x);
    NextRemainderFits(Value(x), Value(remainder), i + 1);
    r := ShiftLeftOne(remainder);
    BitIsValueBit(x, i);
    if Bit(x, i) {
      r := SetLowBit(r);
    }
  }

  lemma Pow2Of256()
    ensures Pow2(256) == TWO_256
  {
    WeightIsPow2(4);
    assert Weight(4) == TWO_256;
  }

  lemma NothingConsumed(x: Uint256, d: nat)
    requires d > 0
    ensures Value(x) / Pow2(256) == 0 && 0 / d == 0 && 0 % d == 0
  {
    Pow2Of256();
    ValueBound(x);
    DivModUnique(Value(x), TWO_256, 0, Value(x));
    DivModUnique(0, d, 0, 0);
  }

  lemma ModAtMost(n: nat, d: nat)
    requires d > 0
    ensures n % d <= n
  {
    DivBelow(n, d);
    MulMono(0, n / d, d);
  }

  lemma QuotientBitIsClear(q: nat, i: nat)
    ensures q * Pow2(i + 1) == (2 * q) * Pow2(i) && BitOf(q * Pow2(i + 1), i) == 0
    ensures (2 * q + 1) * Pow2(i) == (2 * q) * Pow2(i) + Pow2(i)
  {
    assert q * Pow2(i + 1) == (2 * q) * Pow2(i);
    DivModUnique(q * Pow2(i + 1), Pow2(i), 2 * q, 0);
  }

  /** remainder.0[0] |= 1, on a value whose low bit the shift has cleared. */
  method SetLowBit(x: Uint256) returns (r: Uint256)
    ensures Value(r) == Value(x) + (if Value(x) % 2 == 0 then 1 else 0)
  {
    hide Value;
    r := x[0 := OrOne(x[0])];
    LimbChange(x, r, 0);
    LowLimbParity(x);
  }

  /** The low limb tells whether the value is odd. */
  lemma LowLimbParity(x: Uint256)
    ensures Value(x) % 2 == x[0] % 2
  {
    var high := SplitAt(x, 0, 4);
    assert Value(x) == x[0] + ((LIMB / 2) * high) * 2;
    DivAddMultiple(x[0], (LIMB / 2) * high, 2);
  }

  /** One 128-by-64-bit division; the quotient fits a limb. */
  function DivideColumn(rest: nat, limb: Limb, divisor: Limb): (r: (Limb, nat))
    requires rest < divisor
    ensures rest * LIMB + limb == r.0 * divisor + r.1 && r.1 < divisor
  {
    QuotientLimbFits(rest, limb, divisor);
    ((rest * LIMB + limb) / divisor, (rest * LIMB + limb) % divisor)
  }

  /** Division by one limb, from the most significant limb down. */
  method DivideSmall(x: Uint256, divisor: Limb) returns (quotient: Uint256, remainder: Limb)
    requires divisor > 0
    ensures Value(quotient) == Value(x) / divisor && remainder == Value(x) % divisor
  {
    quotient := ZERO;
    var rest: nat := 0;
    Constants();
    var i: nat := 4;
    while i > 0
      invariant i <= 4 && rest < divisor
      invariant quotient[..i] == ZERO[..i]
      invariant Value(x) == Value(quotient) * divisor + rest * Weight(i) + Low(x, i)
    {
      i := i - 1;
      ghost var before, r := quotient, rest;
      var (digit, next) := DivideColumn(rest, x[i], divisor);
      quotient := quotient[i := digit];
      rest := next;
      assert before[i] == ZERO[..i + 1][i] == 0;
      assert quotient[..i] == before[..i + 1][..i] == ZERO[..i];
      LimbChange(before, quotient, i);
      DivisionColumn(Value(before), digit, divisor, Weight(i), r, rest, x[i]);
    }
    DivModUnique(Value(x), divisor, Value(quotient), rest);
    remainder := rest;
  }

  lemma QuotientLimbFits(rest: nat, limb: Limb, divisor: nat)
    requires rest < divisor
    ensures 0 <= (rest * LIMB + limb) / divisor < LIMB
  {
    var dividend := rest * LIMB + limb;
    var q := dividend / divisor;
    DivBelow(dividend, divisor);
    if q >= LIMB {
      MulMono(LIMB, q, divisor);
    }
  }

  lemma DivisionColumn(q: nat, digit: nat, d: nat, w: nat, r: nat, r': nat, limb: nat)
    requires r * LIMB + limb == digit * d + r'
    ensures q * d + r * (LIMB * w) + limb * w == (q + digit * w) * d + r' * w
  {
    assert (r * LIMB + limb) * w == r * (LIMB * w) + limb * w;
    assert (digit * d + r') * w == (digit * w) * d + r' * w;
  }
}
