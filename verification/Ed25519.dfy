/**
  Ed25519 field code: square-and-multiply exponentiation, and point decompression as in section
  5.1.3 of RFC 8032.  Exactness of decompression rests on one hypothesis, that 2^255 - 19 is prime.
 */
module Ed25519 {
  import opened Nonlinear
  import opened Wrappers
  import opened PrimeField

  /** 2^255 - 19 */
  const P: nat := 0x7fff_ffff_ffff_ffff_ffff_ffff_ffff_ffff_ffff_ffff_ffff_ffff_ffff_ffff_ffff_ffed
  /** P == 8 K + 5 */
  const K: nat := 0xfff_ffff_ffff_ffff_ffff_ffff_ffff_ffff_ffff_ffff_ffff_ffff_ffff_ffff_ffff_fffd

  // ---------------------------------------------------------------- the field

  /** The remainder of JavaScript's big integers: it has the sign of the dividend. */
  function JsRemainder(a: int, b: nat): int
    requires b > 0
  {
    if a >= 0 then a % b else -((-a) % b)
  }

  function Field(value: int): (r: nat)
    ensures r < P && r == value % P
  {
    var reduced := JsRemainder(value, P);
    NegativeRemainder(value);
    if reduced < 0 then reduced + P else reduced
  }

  lemma NegativeRemainder(a: int)
    ensures var r := JsRemainder(a, P); a % P == if r < 0 then r + P else r
  {
    if a >= 0 {
      return;
    }
    var q, r := (-a) / P, (-a) % P;
    if r == 0 {
      DivModUnique(a, P, -q, 0);
    } else {
      assert a == (-q - 1) * P + (P - r);
      DivModUnique(a, P, -q - 1, P - r);
    }
  }

  function Mul(a: int, b: int): (r: nat)
    ensures r < P
  {
    Field(a * b)
  }

  function Plus(a: int, b: int): (r: nat)
    ensures r < P
  {
    Field(a + b)
  }

  ghost function Exp(b: int, n: nat): (r: nat)
    ensures r < P
  {
    Power(b, n) % P
  }

  /** Square-and-multiply computes exactly base^exponent mod P, for every base and exponent. */
  method FieldPower(base: int, exponent: nat) returns (result: nat)
    ensures result == Exp(base, exponent)
  {
    hide Power;
    result := 1;
    var factor := Field(base);
    var remaining := exponent;
    StartPower(base, exponent);
    while remaining > 0
      invariant result < P
      invariant Cong(result * Power(factor, remaining), Power(base, exponent), P)
    {
      PowerHalf(result, factor, remaining);
      if remaining % 2 == 1 {
        result := Field(result * factor);
      }
      factor := Field(factor * factor);
      remaining := remaining / 2;
    }
    EndPower(result, factor, base, exponent);
  }

  lemma StartPower(base: int, exponent: nat)
    ensures Cong(1 * Power(base % P, exponent), Power(base, exponent), P)
  {
    CongMod(base, P);
    CongPower(base % P, base, exponent, P);
  }

  lemma EndPower(result: nat, factor: int, base: int, exponent: nat)
    requires result < P && Cong(result * Power(factor, 0), Power(base, exponent), P)
    ensures result == Power(base, exponent) % P
  {
    DivModUnique(result, P, 0, result);
  }

  /** One round keeps result * factor^remaining. */
  lemma PowerHalf(result: int, factor: int, n: nat)
    requires n > 0
    ensures
      var result' := if n % 2 == 1 then (result * factor) % P else result;
      Cong(result' * Power((factor * factor) % P, n / 2), result * Power(factor, n), P)
  {
    var h := n / 2;
    var square := factor * factor;
    CongMod(square, P);
    CongPower(square % P, square, h, P);
    PowerDouble(factor, h);
    if n % 2 == 1 {
      CongMod(result * factor, P);
      CongMul((result * factor) % P, result * factor, Power(square % P, h), Power(square, h), P);
      assert Power(factor, n) == factor * Power(factor, 2 * h);
      MulAssociates(result, factor, Power(factor, 2 * h));
    } else {
      CongMul(result, result, Power(square % P, h), Power(square, h), P);
    }
  }

  // ---------------------------------------------------------------- the curve

  datatype EdwardsPoint = EdwardsPoint(x: nat, y: nat)

  /** The constant d of the curve, -121665 / 121666. */
  ghost function CurveConstant(): (d: nat)
    ensures d < P
  {
    Mul(-121665, Exp(121666, P - 2))
  }

  /** The square root of minus one the code uses. */
  ghost function RootOfMinusOne(): nat {
    Exp(2, (P - 1) / 4)
  }

  ghost function Numerator(y: int): nat {
    Plus(Mul(y, y), -1)
  }

  ghost function Denominator(y: int): (r: nat)
    ensures r < P
  {
    Plus(CurveConstant() * Mul(y, y), 1)
  }

  /** The value whose square root is the other coordinate. */
  ghost function XSquared(y: int): (a: nat)
    ensures a < P
  {
    Mul(Numerator(y), Exp(Denominator(y), P - 2))
  }

  ghost function RootCandidate(a: nat): (x: nat)
    ensures x < P
  {
    var x := Exp(a, (P + 3) / 8);
    if Mul(x, x) == a then x else Mul(x, RootOfMinusOne())
  }

  ghost function Decompressed(y: nat, sign: int): Option<EdwardsPoint> {
    var a := XSquared(y);
    var x := RootCandidate(a);
    if Mul(x, x) != a || (x == 0 && sign == 1) then None
    else Some(EdwardsPoint(if x % 2 != sign then Mul(-1, x) else x, y))
  }

  /** -x^2 + y^2 = 1 + d x^2 y^2 */
  ghost predicate OnCurve(x: int, y: int) {
    Cong(y * y - x * x, 1 + CurveConstant() * (x * x) * (y * y), P)
  }

  method MaybeDecompress(y: nat, sign: int) returns (r: Option<EdwardsPoint>)
    ensures r == Decompressed(y, sign)
  {
    hide Power, Mul, Plus, Exp, Field;
    var inverse := FieldPower(121666, P - 2);
    var d := Mul(-121665, inverse);
    var sqrtM1 := FieldPower(2, (P - 1) / 4);

    var ySquared := Mul(y, y);
    var numerator := Plus(ySquared, -1);
    var denominator := Plus(d * ySquared, 1);
    var denominatorInverse := FieldPower(denominator, P - 2);
    var xSquared := Mul(numerator, denominatorInverse);
    var x := FieldPower(xSquared, (P + 3) / 8);
    if Mul(x, x) != xSquared {
      x := Mul(x, sqrtM1);
    }
    if Mul(x, x) != xSquared {
      return None;
    }
    if x == 0 && sign == 1 {
      return None;
    }
    if x % 2 != sign {
      x := Mul(-1, x);
    }
    r := Some(EdwardsPoint(x, y));
  }

  // ---------------------------------------------------------------- what needs no hypothesis

  lemma NegatedSquare(x: int)
    ensures Mul(Mul(-1, x), Mul(-1, x)) == Mul(x, x)
  {
    CongMod(-1 * x, P);
    CongMul(Mul(-1, x), -1 * x, Mul(-1, x), -1 * x, P);
    assert (-1 * x) * (-1 * x) == x * x;
  }

  lemma Negated(x: int)
    requires 0 < x < P
    ensures Mul(-1, x) == P - x
  {
    DivModUnique(-x, P, -1, P - x);
  }

  /** A decompressed point has a reduced coordinate whose square is the computed value and whose low
      bit is the sign. */
  lemma DecompressedShape(y: nat, sign: int)
    requires sign == 0 || sign == 1
    requires Decompressed(y, sign).Some?
    ensures
      var point := Decompressed(y, sign).value;
      point.y == y && point.x < P && point.x % 2 == sign && Mul(point.x, point.x) == XSquared(y)
  {
    hide XSquared, RootCandidate, Mul;
    var x := RootCandidate(XSquared(y));
    if x % 2 != sign {
      NegatedSquare(x);
      if x > 0 {
        Negated(x);
      }
    }
  }

  // ---------------------------------------------------------------- square roots modulo a prime 8k + 5

  lemma InverseByPower(a: int, p: nat)
    requires Prime(p) && !Vanishes(a, p)
    ensures Cong(a * Power(a, p - 2), 1, p)
  {
    Fermat(a, p);
  }

  lemma EqualSquares(x: int, z: int, p: nat)
    requires Prime(p) && Cong(x * x, z * z, p)
    ensures Cong(x, z, p) || Cong(x, -z, p)
  {
    CongDifference(x * x, z * z, p);
    assert x * x - z * z == (x - z) * (x + z);
    CongDifference(x, z, p);
    CongDifference(x, -z, p);
    if !Vanishes(x - z, p) && !Vanishes(x + z, p) {
      NoZeroDivisor(x - z, x + z, p);
    }
  }

  lemma VanishesMul(a: int, b: int, p: nat)
    requires Vanishes(a, p)
    ensures Vanishes(a * b, p)
  {
    DivModUnique(0, p, 0, 0);
    CongMul(a, 0, b, b, p);
  }

  lemma CongVanishes(a: int, b: int, p: nat)
    requires Cong(a, b, p)
    ensures Vanishes(a, p) <==> Vanishes(b, p)
  {
  }

  /** A non-zero square to the power (p - 1) / 4 is one or minus one. */
  lemma QuarterPower(a: int, s: int, p: nat, k: nat)
    requires Prime(p) && p == 8 * k + 5 && Cong(s * s, a, p) && !Vanishes(a, p)
    ensures Cong(Power(a, 2 * k + 1), 1, p) || Cong(Power(a, 2 * k + 1), -1, p)
  {
    hide Prime, Power, Vanishes, Cong;
    CongVanishes(s * s, a, p);
    if Vanishes(s, p) {
      VanishesMul(s, s, p);
    }
    Fermat(s, p);
    var t := Power(a, 2 * k + 1);
    PowerDouble(s, 4 * k + 2);
    PowerDouble(a, 2 * k + 1);
    CongPower(s * s, a, 4 * k + 2, p);
    CongTransitive(t * t, Power(s, 8 * k + 4), 1 * 1, p);
    EqualSquares(t, 1, p);
  }

  lemma CongTransitive(a: int, b: int, c: int, p: nat)
    requires Cong(b, a, p) && Cong(b, c, p)
    ensures Cong(a, c, p)
  {
  }

  /** A square's power (p + 3) / 8 squares to it or to its negation. */
  lemma EighthPower(a: int, s: int, p: nat, k: nat)
    requires Prime(p) && p == 8 * k + 5 && Cong(s * s, a, p)
    ensures var c := Power(a, k + 1); Cong(c * c, a, p) || Cong(c * c, -a, p)
  {
    hide Prime, Vanishes, Cong;
    var c, t := Power(a, k + 1), Power(a, 2 * k + 1);
    PowerDouble(a, k + 1);
    assert c * c == t * a;
    if Vanishes(a, p) {
      VanishesMul(a, t, p);
      BothVanish(t * a, a, p);
    } else {
      QuarterPower(a, s, p, k);
      CongSame(a, p);
      if Cong(t, 1, p) {
        CongMul(t, 1, a, a, p);
      } else {
        CongMul(t, -1, a, a, p);
      }
    }
  }

  lemma CongSame(a: int, p: nat)
    requires p > 0
    ensures Cong(a, a, p)
  {
  }

  lemma BothVanish(a: int, b: int, p: nat)
    requires Vanishes(a, p) && Vanishes(b, p)
    ensures Cong(a, b, p)
  {
  }

  /** Two to the power (p - 1) / 4 turns a root of -a into a root of a. */
  lemma TurnedRoot(c: int, a: int, p: nat, k: nat)
    requires Prime(p) && p == 8 * k + 5 && Cong(c * c, -a, p)
    ensures var i := Power(2, 2 * k + 1); Cong((c * i) * (c * i), a, p)
  {
    hide Prime, Power, Cong;
    var i := Power(2, 2 * k + 1);
    PowerDouble(2, 2 * k + 1);
    TwoIsNotASquare(p, k);
    CongMul(c * c, -a, i * i, -1, p);
    FourFactors(c, c, i, i);
  }

  // ---------------------------------------------------------------- decompression is exact

  lemma Reduced(a: int)
    requires 0 <= a < P
    ensures a % P == a
  {
    DivModUnique(a, P, 0, a);
  }

  lemma MulCong(a: int, b: int, c: int, d: int)
    requires Cong(a, c, P) && Cong(b, d, P)
    ensures Cong(Mul(a, b), c * d, P)
  {
    CongMod(a * b, P);
    CongMul(a, c, b, d, P);
  }

  /** A square modulo P, and only a square, gets a candidate that squares to it. */
  lemma CandidateIsRoot(a: nat, s: int)
    requires Prime(P) && a < P && Cong(s * s, a, P)
    ensures var x := RootCandidate(a); Mul(x, x) == a
  {
    hide Prime, Power, Mul, Exp;
    var c := Power(a, K + 1);
    var i := Power(2, 2 * K + 1);
    EighthPower(a, s, P, K);
    var x := Exp(a, K + 1);
    ExpCong(a, K + 1);
    ExpCong(2, 2 * K + 1);
    if Cong(c * c, a, P) {
      SquareIs(x, c, a);
    } else {
      TurnedRoot(c, a, P, K);
      MulCong(x, Exp(2, 2 * K + 1), c, i);
      SquareIs(Mul(x, Exp(2, 2 * K + 1)), c * i, a);
    }
  }

  lemma ExpCong(b: int, n: nat)
    ensures Cong(Exp(b, n), Power(b, n), P)
  {
    CongMod(Power(b, n), P);
  }

  lemma SquareIs(x: int, c: int, a: nat)
    requires Cong(x, c, P) && Cong(c * c, a, P) && a < P
    ensures Mul(x, x) == a
  {
    MulCong(x, x, c, c);
    Reduced(a);
    Reduced(Mul(x, x));
  }

  /** The curve equation holds exactly when x^2 times the denominator is the numerator. */
  lemma CurveIsQuotient(x: int, y: int)
    ensures OnCurve(x, y) <==> Cong(x * x * Denominator(y), Numerator(y), P)
  {
    hide Mul, Plus, CurveConstant, Cong;
    var d, u, v := CurveConstant(), x * x, y * y;
    MulIs(y, y);
    PlusIs(Mul(y, y), -1, v, -1);
    CongSame(d, P);
    CongMul(d, d, Mul(y, y), v, P);
    PlusIs(d * Mul(y, y), 1, d * v, 1);
    CongSame(u, P);
    CongMul(u, u, Denominator(y), d * v + 1, P);
    CurveAlgebra(d, u, v);
    Difference(v - u, 1 + d * u * v, v - 1, u * (d * v + 1));
    CongBoth(u * Denominator(y), u * (d * v + 1), Numerator(y), v - 1);
  }

  lemma CongBoth(a: int, b: int, c: int, d: int)
    requires Cong(a, b, P) && Cong(c, d, P)
    ensures Cong(a, c, P) <==> Cong(d, b, P)
  {
  }

  lemma MulIs(a: int, b: int)
    ensures Cong(Mul(a, b), a * b, P)
  {
    CongMod(a * b, P);
  }

  lemma PlusIs(a: int, b: int, c: int, d: int)
    requires Cong(a, c, P) && b == d
    ensures Cong(Plus(a, b), c + d, P)
  {
    CongMod(a + b, P);
    CongAdd(a, c, b, d, P);
  }

  lemma CurveAlgebra(d: int, u: int, v: int)
    ensures (v - u) - (1 + d * u * v) == (v - 1) - u * (d * v + 1)
  {
    assert u * (d * v + 1) == d * u * v + u;
  }

  lemma Difference(a: int, b: int, c: int, d: int)
    requires a - b == c - d
    ensures Cong(a, b, P) <==> Cong(c, d, P)
  {
    CongDifference(a, b, P);
    CongDifference(c, d, P);
  }

  // ---------------------------------------------------------------- the denominator never vanishes

  /** Twice a non-zero square is not a square. */
  lemma TwiceSquareIsNotASquare(u: int, c: int, p: nat, k: nat)
    requires Prime(p) && p == 8 * k + 5 && !Vanishes(c, p)
    ensures !Cong(u * u, 2 * (c * c), p)
  {
    hide Prime, Power, Vanishes;
    if Cong(u * u, 2 * (c * c), p) {
      var h := 4 * k + 2;
      SmallDoesNotVanish(2, p);
      NoZeroDivisor(c, c, p);
      NoZeroDivisor(2, c * c, p);
      CongVanishes(u * u, 2 * (c * c), p);
      if Vanishes(u, p) {
        VanishesMul(u, u, p);
      }
      Fermat(u, p);
      Fermat(c, p);
      PowerDouble(u, h);
      PowerDouble(c, h);
      CongPower(u * u, 2 * (c * c), h, p);
      PowerOfProduct(2, c * c, h);
      TwoIsNotASquare(p, k);
      OneIsNotMinusOne(p);
      CongMul(Power(2, h), -1, Power(c, 2 * h), 1, p);
    }
  }

  lemma OneIsNotMinusOne(p: nat)
    requires p > 2
    ensures !Cong(1, -1, p)
  {
    DivModUnique(1, p, 0, 1);
    DivModUnique(-1, p, -1, p - 1);
  }

  /** d is -121665 / 121666. */
  lemma CurveConstantIs()
    requires Prime(P)
    ensures Cong(121666 * CurveConstant(), -121665, P)
  {
    hide Prime, Power, Mul, Exp, CurveConstant;
    var d, power := CurveConstant(), Power(121666, P - 2);
    SmallDoesNotVanish(121666, P);
    InverseByPower(121666, P);
    ExpCong(121666, P - 2);
    ConstantIsProduct();
    CongMul(-121665, -121665, Exp(121666, P - 2), power, P);
    CongMul(121666, 121666, d, -121665 * power, P);
    CongMul(-121665, -121665, 121666 * power, 1, P);
    SwapFactors(121666, -121665, power);
  }

  lemma ConstantIsProduct()
    ensures Cong(CurveConstant(), -121665 * Exp(121666, P - 2), P)
  {
    hide Exp;
    MulIs(-121665, Exp(121666, P - 2));
  }

  /** A square root of 121665 * 60833 modulo P. */
  const ROOT: nat := 0x1363_d8e8_ec57_7bbb_f4be_3f00_bde6_099b_00b3_b80e_6fbf_0a28_352e_73cc_eaa0_b6b5
  const ROOT_QUOTIENT: nat := 0x2ef_f248_1e0b_5590_e684_c866_b567_7796_9476_bb1d_ad46_a3bf_6159_434b_e43c_a478

  lemma RootSquared()
    ensures Cong(ROOT * ROOT, 121665 * 60833, P)
  {
    assert ROOT * ROOT == 121665 * 60833 + ROOT_QUOTIENT * P;
    CongSelf(121665 * 60833, ROOT_QUOTIENT, P);
  }

  /** 1 + d y^2 is never zero: otherwise twice a square would be a square, as 121666 = 2 * 60833. */
  lemma DenominatorNeverVanishes(y: int)
    requires Prime(P)
    ensures Denominator(y) != 0
  {
    hide Prime, Mul, Plus, CurveConstant, Vanishes;
    if Denominator(y) == 0 {
      var d, v := CurveConstant(), y * y;
      MulIs(y, y);
      CongMul(d, d, Mul(y, y), v, P);
      PlusIs(d * Mul(y, y), 1, d * v, 1);
      CongDifference(d * v, -1, P);
      CurveConstantIs();
      NonSquareEquation(d, v);
      RootSquared();
      CongMul(ROOT * ROOT, 121665 * 60833, v, v, P);
      FourFactors(ROOT, ROOT, y, y);
      SmallDoesNotVanish(60833, P);
      assert Cong((ROOT * y) * (ROOT * y), 2 * (60833 * 60833), P);
      TwiceSquareIsNotASquare(ROOT * y, 60833, P, K);
    }
  }

  lemma NonSquareEquation(d: int, v: int)
    requires Cong(121666 * d, -121665, P) && Cong(d * v, -1, P)
    ensures Cong(121665 * 60833 * v, 2 * (60833 * 60833), P)
  {
    CongMul(121666 * d, -121665, -60833 * v, -60833 * v, P);
    CongMul(d * v, -1, -121666 * 60833, -121666 * 60833, P);
    assert (121666 * d) * (-60833 * v) == (d * v) * (-121666 * 60833) by {
      assert (121666 * d) * (-60833 * v) == -121666 * 60833 * (d * v);
    }
  }

  // ---------------------------------------------------------------- exactness

  /** The curve equation says exactly that x is a square root of the computed value. */
  lemma OnCurveExactly(x: int, y: int)
    requires Prime(P)
    ensures OnCurve(x, y) <==> Mul(x, x) == XSquared(y)
  {
    hide Mul, Denominator, Numerator, Exp, OnCurve, Power, Prime, Cong;
    var u, n, e := x * x, Numerator(y), Denominator(y);
    var inverse := Exp(e, P - 2);
    CurveIsQuotient(x, y);
    DenominatorNeverVanishes(y);
    SmallDoesNotVanish(e, P);
    InverseByPower(e, P);
    ExpCong(e, P - 2);
    QuotientExactly(u, n, e, inverse, Power(e, P - 2));
    MulIs(x, x);
    MulIs(n, inverse);
    ReducedEqual(Mul(x, x), u, Mul(n, inverse), n * inverse);
  }

  lemma ReducedEqual(a: int, b: int, c: int, d: int)
    requires 0 <= a < P && 0 <= c < P && Cong(a, b, P) && Cong(c, d, P)
    ensures a == c <==> Cong(b, d, P)
  {
    Reduced(a);
    Reduced(c);
  }

  lemma QuotientExactly(u: int, n: int, e: int, inverse: int, power: int)
    requires Prime(P) && !Vanishes(e, P) && Cong(inverse, power, P) && Cong(e * power, 1, P)
    ensures Cong(u * e, n, P) <==> Cong(u, n * inverse, P)
  {
    hide Prime, Vanishes;
    CongMul(e, e, inverse, power, P);
    CongMul(n, n, e * inverse, 1, P);
    Rotate(n, e, inverse);
    assert Cong((n * inverse) * e, n, P);
    if Cong(u, n * inverse, P) {
      CongMul(u, n * inverse, e, e, P);
    } else if Cong(u * e, n, P) {
      Cancel(u, n * inverse, e, P);
    }
  }

  lemma Rotate(n: int, e: int, inverse: int)
    ensures n * (e * inverse) == (n * inverse) * e
  {
  }

  /** Of the two roots of a value exactly one is even, unless both are zero. */
  lemma RootByParity(x: int, z: int)
    requires Prime(P) && 0 <= x < P && 0 <= z < P && Mul(x, x) == Mul(z, z) && x % 2 == z % 2
    ensures x == z
  {
    hide Prime, Mul, Cong;
    SquaresCong(x, z);
    EqualSquares(x, z, P);
    SignedResidue(x, z);
  }

  lemma SquaresCong(x: int, z: int)
    requires Mul(x, x) == Mul(z, z)
    ensures Cong(x * x, z * z, P)
  {
  }

  lemma SignedResidue(x: int, z: int)
    requires 0 <= x < P && 0 <= z < P && (Cong(x, z, P) || Cong(x, -z, P))
    ensures x == z || x == P - z
  {
    Reduced(x);
    Reduced(z);
    if z > 0 {
      DivModUnique(-z, P, -1, P - z);
    }
  }

  /** Decompression finds a point exactly when the curve has one with that y and that parity, and it
      finds that point. */
  lemma DecompressExactly(x: nat, y: nat, sign: int)
    requires Prime(P) && x < P && (sign == 0 || sign == 1)
    ensures Decompressed(y, sign) == Some(EdwardsPoint(x, y)) <==> OnCurve(x, y) && x % 2 == sign
  {
    hide Prime, OnCurve, XSquared, RootCandidate, Mul, Denominator;
    var a := XSquared(y);
    OnCurveExactly(x, y);
    if OnCurve(x, y) && x % 2 == sign {
      RootOf(x, a);
      var z := RootCandidate(a);
      if z == 0 {
        ZeroRoot(x);
      } else {
        DecompressedShape(y, sign);
        RootByParity(x, Decompressed(y, sign).value.x);
      }
    } else if Decompressed(y, sign).Some? {
      DecompressedShape(y, sign);
    }
  }

  lemma RootOf(x: nat, a: nat)
    requires Prime(P) && a < P && Mul(x, x) == a
    ensures var z := RootCandidate(a); Mul(z, z) == a
  {
    hide Prime, RootCandidate;
    CongMod(x * x, P);
    CandidateIsRoot(a, x);
  }

  /** Zero has one root. */
  lemma ZeroRoot(x: nat)
    requires Prime(P) && x < P && Mul(x, x) == Mul(0, 0)
    ensures x == 0
  {
    hide Prime;
    EqualSquares(x, 0, P);
    Reduced(x);
    Reduced(0);
  }
}
