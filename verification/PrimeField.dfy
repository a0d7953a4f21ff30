/**
  Arithmetic modulo a number, and what follows when that number is prime: Fermat's little theorem
  and the square root of minus one that two provides.
 */
module PrimeField {
  import opened Nonlinear

  /** a and b leave the same remainder. */
  ghost predicate Cong(a: int, b: int, m: nat) {
    m > 0 && a % m == b % m
  }

  lemma CongDifference(a: int, b: int, m: nat)
    requires m > 0
    ensures Cong(a, b, m) <==> (a - b) % m == 0
  {
    var q := a / m - b / m;
    assert a - b == q * m + (a % m - b % m);
    if a % m == b % m {
      DivModUnique(a - b, m, q, 0);
    } else if a % m > b % m {
      DivModUnique(a - b, m, q, a % m - b % m);
    } else {
      assert a - b == (q - 1) * m + (m + a % m - b % m);
      DivModUnique(a - b, m, q - 1, m + a % m - b % m);
    }
  }

  lemma CongMod(a: int, m: nat)
    requires m > 0
    ensures Cong(a % m, a, m)
  {
    DivModUnique(a % m, m, 0, a % m);
  }

  lemma CongSelf(a: int, k: int, m: nat)
    requires m > 0
    ensures Cong(a + k * m, a, m)
  {
    DivAddMultiple(a, k, m);
  }

  lemma CongMul(a: int, b: int, c: int, d: int, m: nat)
    requires Cong(a, b, m) && Cong(c, d, m)
    ensures Cong(a * c, b * d, m)
  {
    hide Cong;
    var j := CongQuotient(a, b, m);
    var k := CongQuotient(c, d, m);
    ProductOfSums(b, j, d, k, m);
    CongSelf(b * d, j * d + k * b + j * k * m, m);
  }

  /** Congruent numbers differ by a multiple. */
  lemma CongQuotient(a: int, b: int, m: nat) returns (q: int)
    requires Cong(a, b, m)
    ensures m > 0 && a == b + q * m
  {
    q := a / m - b / m;
    SubtractProducts(a / m, b / m, m);
  }

  lemma AddProducts(x: int, y: int, m: int)
    ensures (x + y) * m == x * m + y * m
  {
  }

  lemma SubtractProducts(x: int, y: int, m: int)
    ensures (x - y) * m == x * m - y * m
  {
  }

  lemma ProductOfSums(b: int, j: int, d: int, k: int, m: int)
    ensures (b + j * m) * (d + k * m) == b * d + (j * d + k * b + j * k * m) * m
  {
  }

  lemma CongAdd(a: int, b: int, c: int, d: int, m: nat)
    requires Cong(a, b, m) && Cong(c, d, m)
    ensures Cong(a + c, b + d, m) && Cong(a - c, b - d, m)
  {
    hide Cong;
    var j := CongQuotient(a, b, m);
    var k := CongQuotient(c, d, m);
    AddProducts(j, k, m);
    SubtractProducts(j, k, m);
    CongSelf(b + d, j + k, m);
    CongSelf(b - d, j - k, m);
  }

  lemma {:induction false} CongPower(a: int, b: int, n: nat, m: nat)
    requires Cong(a, b, m)
    ensures Cong(Power(a, n), Power(b, n), m)
  {
    if n > 0 {
      CongPower(a, b, n - 1, m);
      CongMul(a, b, Power(a, n - 1), Power(b, n - 1), m);
    }
  }

  lemma {:induction false} PowerOfProduct(a: int, b: int, n: nat)
    ensures Power(a * b, n) == Power(a, n) * Power(b, n)
  {
    if n > 0 {
      PowerOfProduct(a, b, n - 1);
      FourFactors(a, b, Power(a, n - 1), Power(b, n - 1));
    }
  }

  lemma FourFactors(a: int, b: int, x: int, y: int)
    ensures (a * b) * (x * y) == (a * x) * (b * y)
  {
  }

  lemma PowerDouble(a: int, n: nat)
    ensures Power(a, 2 * n) == Power(a, n) * Power(a, n) && Power(a * a, n) == Power(a, 2 * n)
  {
    PowerAdd(a, n, n);
    PowerOfProduct(a, a, n);
  }

  // ---------------------------------------------------------------- primes

  ghost predicate Vanishes(a: int, p: nat) {
    p > 0 && a % p == 0
  }

  /** A product vanishes only when a factor does. */
  ghost predicate Prime(p: nat) {
    p >= 2 && forall a: int, b: int :: Vanishes(a * b, p) ==> Vanishes(a, p) || Vanishes(b, p)
  }

  lemma NoZeroDivisor(a: int, b: int, p: nat)
    requires Prime(p) && !Vanishes(a, p) && !Vanishes(b, p)
    ensures !Vanishes(a * b, p)
  {
    assert Vanishes(a * b, p) ==> Vanishes(a, p) || Vanishes(b, p);
  }

  lemma Cancel(a: int, b: int, c: int, p: nat)
    requires Prime(p) && !Vanishes(c, p) && Cong(a * c, b * c, p)
    ensures Cong(a, b, p)
  {
    CongDifference(a * c, b * c, p);
    assert a * c - b * c == (a - b) * c;
    CongDifference(a, b, p);
    if !Vanishes(a - b, p) {
      NoZeroDivisor(a - b, c, p);
    }
  }

  lemma SmallDoesNotVanish(i: int, p: nat)
    requires 0 < i < p
    ensures !Vanishes(i, p)
  {
    DivModUnique(i, p, 0, i);
  }

  // ---------------------------------------------------------------- Fermat's little theorem

  ghost function Product(s: set<nat>): nat {
    if s == {} then 1 else
      var x :| x in s;
      x * Product(s - {x})
  }

  lemma {:induction false} ProductRemove(s: set<nat>, x: nat)
    requires x in s
    ensures Product(s) == x * Product(s - {x})
    decreases |s|
  {
    var y :| y in s && Product(s) == y * Product(s - {y});
    if y != x {
      ProductRemove(s - {y}, x);
      ProductRemove(s - {x}, y);
      assert s - {y} - {x} == s - {x} - {y};
      SwapFactors(x, y, Product(s - {x} - {y}));
    }
  }

  lemma SwapFactors(x: int, y: int, r: int)
    ensures y * (x * r) == x * (y * r)
  {
  }

  /** The numbers from 1 to p - 1. */
  ghost function Units(p: nat): (u: set<nat>)
    ensures forall i: nat :: i in u <==> 0 < i < p
    ensures p > 0 ==> |u| == p - 1
  {
    if p <= 1 then {} else Units(p - 1) + {p - 1}
  }

  function Times(a: int, i: nat, p: nat): nat
    requires p > 0
  {
    (a * i) % p
  }

  ghost function Image(s: set<nat>, a: int, p: nat): set<nat>
    requires p > 0
  {
    set i | i in s :: Times(a, i, p)
  }

  lemma TimesInjective(a: int, i: nat, j: nat, p: nat)
    requires Prime(p) && !Vanishes(a, p) && 0 < i < p && 0 < j < p && Times(a, i, p) == Times(a, j, p)
    ensures i == j
  {
    assert a * i == i * a && a * j == j * a;
    Cancel(i, j, a, p);
    DivModUnique(i, p, 0, i);
    DivModUnique(j, p, 0, j);
  }

  lemma TimesIsUnit(a: int, i: nat, p: nat)
    requires Prime(p) && !Vanishes(a, p) && 0 < i < p
    ensures 0 < Times(a, i, p) < p
  {
    SmallDoesNotVanish(i, p);
    NoZeroDivisor(a, i, p);
  }

  /** Multiplication by a permutes units: no two of them meet. */
  lemma {:induction false} ImageSize(s: set<nat>, a: int, p: nat)
    requires Prime(p) && !Vanishes(a, p) && s <= Units(p)
    ensures |Image(s, a, p)| == |s| && Image(s, a, p) <= Units(p)
    decreases |s|
  {
    if s == {} {
      assert Image(s, a, p) == {};
    } else {
      hide Prime, Vanishes, Units, Image, Times;
      var x :| x in s;
      ImageSize(s - {x}, a, p);
      ImageGrows(s, x, a, p);
      OneMore(s, x);
    }
  }

  /** Multiplying every unit of a set by a multiplies the product by a power of a. */
  lemma {:induction false} ImageProduct(s: set<nat>, a: int, p: nat)
    requires Prime(p) && !Vanishes(a, p) && s <= Units(p)
    ensures Cong(Product(Image(s, a, p)), Power(a, |s|) * Product(s), p)
    decreases |s|
  {
    hide Prime, Vanishes, Product, Units, Image, Cong, Times, Power;
    if s == {} {
      EmptyImage(a, p);
    } else {
      var x :| x in s;
      var rest := s - {x};
      OneMore(s, x);
      ImageProduct(rest, a, p);
      ImageStep(s, x, a, p);
      ProductRemove(s, x);
      PowerStep(a, |rest|);
      OneMoreFactor(a, x, Product(Image(rest, a, p)), Power(a, |rest|), Product(rest), p,
                    Product(Image(s, a, p)), Power(a, |s|), Product(s));
    }
  }

  lemma EmptyImage(a: int, p: nat)
    requires Prime(p)
    ensures Cong(Product(Image({}, a, p)), Power(a, 0) * Product({}), p)
  {
    assert Image({}, a, p) == {};
  }

  lemma ImageStep(s: set<nat>, x: nat, a: int, p: nat)
    requires Prime(p) && !Vanishes(a, p) && s <= Units(p) && x in s
    ensures Product(Image(s, a, p)) == Times(a, x, p) * Product(Image(s - {x}, a, p))
  {
    hide Prime, Vanishes, Product, Units, Image, Times;
    var y := Times(a, x, p);
    ImageGrows(s, x, a, p);
    ProductRemove(Image(s, a, p), y);
    assert Image(s, a, p) - {y} == Image(s - {x}, a, p);
  }

  lemma OneMore(s: set<nat>, x: nat)
    requires x in s
    ensures |s| == |s - {x}| + 1
  {
  }

  lemma PowerStep(a: int, n: nat)
    ensures Power(a, n + 1) == a * Power(a, n)
  {
  }

  lemma OneMoreFactor(
      a: int, x: nat, image: int, power: int, product: int, p: nat, image': int, power': int, product': int)
    requires Cong(image, power * product, p)
    requires image' == Times(a, x, p) * image && power' == a * power && product' == x * product
    ensures Cong(image', power' * product', p)
  {
    CongMod(a * x, p);
    CongMul(Times(a, x, p), a * x, image, power * product, p);
    FourFactors(a, x, power, product);
  }

  lemma ImageGrows(s: set<nat>, x: nat, a: int, p: nat)
    requires Prime(p) && !Vanishes(a, p) && s <= Units(p) && x in s
    ensures
      var y := Times(a, x, p);
      y in Units(p) && y !in Image(s - {x}, a, p) && Image(s, a, p) == Image(s - {x}, a, p) + {y}
  {
    hide Times, Vanishes, Prime;
    TimesIsUnit(a, x, p);
    forall i | i in s - {x} ensures Times(a, i, p) != Times(a, x, p) {
      if Times(a, i, p) == Times(a, x, p) {
        TimesInjective(a, i, x, p);
      }
    }
    assert s == (s - {x}) + {x};
  }

  lemma {:induction false} ProductDoesNotVanish(s: set<nat>, p: nat)
    requires Prime(p) && s <= Units(p)
    ensures !Vanishes(Product(s), p)
    decreases |s|
  {
    if s == {} {
      SmallDoesNotVanish(1, p);
    } else {
      var x :| x in s;
      ProductRemove(s, x);
      ProductDoesNotVanish(s - {x}, p);
      SmallDoesNotVanish(x, p);
      NoZeroDivisor(x, Product(s - {x}), p);
    }
  }

  lemma {:induction false} FullSubset(s: set<nat>, t: set<nat>)
    requires s <= t && |s| == |t|
    ensures s == t
    decreases |s|
  {
    if s != {} {
      var x :| x in s;
      FullSubset(s - {x}, t - {x});
      assert s == (s - {x}) + {x} && t == (t - {x}) + {x};
    }
  }

  /** Fermat's little theorem. */
  lemma Fermat(a: int, p: nat)
    requires Prime(p) && !Vanishes(a, p)
    ensures Cong(Power(a, p - 1), 1, p)
  {
    hide Product, Image, Prime, Vanishes;
    PrimeAtLeastTwo(p);
    var u := Units(p);
    ImageSize(u, a, p);
    ImageProduct(u, a, p);
    FullSubset(Image(u, a, p), u);
    ProductDoesNotVanish(u, p);
    Cancel(1, Power(a, p - 1), Product(u), p);
  }

  lemma PrimeAtLeastTwo(p: nat)
    requires Prime(p)
    ensures p >= 2
  {
  }

  // ---------------------------------------------------------------- two is not a square

  ghost function Factorial(n: nat): int {
    if n == 0 then 1 else n * Factorial(n - 1)
  }

  /** 2 * 4 * ... * 2n */
  ghost function Evens(n: nat): int {
    if n == 0 then 1 else (2 * n) * Evens(n - 1)
  }

  /** 1 * 3 * ... * (2n - 1) */
  ghost function Odds(n: nat): int {
    if n == 0 then 1 else (2 * n - 1) * Odds(n - 1)
  }

  /** (p - 1) * (p - 3) * ... , t factors */
  ghost function TopEvens(p: nat, t: nat): int {
    if t == 0 then 1 else (p - (2 * t - 1)) * TopEvens(p, t - 1)
  }

  lemma {:induction false} EvensAreDoubled(n: nat)
    ensures Evens(n) == Power(2, n) * Factorial(n)
  {
    if n > 0 {
      EvensAreDoubled(n - 1);
      FourFactors(2, n, Power(2, n - 1), Factorial(n - 1));
    }
  }

  lemma {:induction false} EvensAndOdds(n: nat)
    ensures Factorial(2 * n) == Evens(n) * Odds(n)
  {
    if n > 0 {
      EvensAndOdds(n - 1);
      assert Factorial(2 * n) == (2 * n) * ((2 * n - 1) * Factorial(2 * n - 2));
      FourFactors(2 * n, 2 * n - 1, Evens(n - 1), Odds(n - 1));
      MulAssociates(2 * n, 2 * n - 1, Factorial(2 * n - 2));
    }
  }

  lemma {:induction false} EvensSplit(n: nat, t: nat)
    requires t <= n
    ensures Evens(2 * n) == Evens(2 * n - t) * TopEvens(4 * n + 1, t)
  {
    if t > 0 {
      EvensSplit(n, t - 1);
      var e, f, u := Evens(2 * n - t), 2 * (2 * n - t + 1), TopEvens(4 * n + 1, t - 1);
      assert Evens(2 * n - t + 1) == f * e && TopEvens(4 * n + 1, t) == f * u;
      SwapFactors(e, f, u);
      MulAssociates(f, e, u);
    }
  }

  lemma {:induction false} TopEvensAreNegatedOdds(p: nat, t: nat)
    requires p > 0
    ensures Cong(TopEvens(p, t), Power(-1, t) * Odds(t), p)
  {
    if t > 0 {
      TopEvensAreNegatedOdds(p, t - 1);
      var o := 2 * t - 1;
      assert p - o == -o + 1 * p;
      CongSelf(-o, 1, p);
      CongMul(p - o, -o, TopEvens(p, t - 1), Power(-1, t - 1) * Odds(t - 1), p);
      assert -o == (-1) * o;
      FourFactors(-1, o, Power(-1, t - 1), Odds(t - 1));
    }
  }

  lemma {:induction false} OddPowerOfMinusOne(n: nat)
    ensures Power(-1, 2 * n + 1) == -1
  {
    if n > 0 {
      OddPowerOfMinusOne(n - 1);
      assert Power(-1, 2 * n + 1) == -1 * (-1 * Power(-1, 2 * n - 1));
    }
  }

  lemma {:induction false} FactorialDoesNotVanish(n: nat, p: nat)
    requires Prime(p) && n < p
    ensures !Vanishes(Factorial(n), p)
  {
    if n == 0 {
      SmallDoesNotVanish(1, p);
    } else {
      FactorialDoesNotVanish(n - 1, p);
      SmallDoesNotVanish(n, p);
      NoZeroDivisor(n, Factorial(n - 1), p);
    }
  }

  /** For a prime 4n + 1 with n odd, two to the power 2n is minus one. */
  lemma TwoIsNotASquare(p: nat, k: nat)
    requires Prime(p) && p == 8 * k + 5
    ensures Cong(Power(2, 4 * k + 2), -1, p)
  {
    hide Factorial, Evens, Odds, TopEvens, Power, Vanishes;
    var n := 2 * k + 1;
    var f := Factorial(2 * n);
    EvensAreDoubled(2 * n);
    EvensSplit(n, n);
    TopEvensAreNegatedOdds(p, n);
    CongMul(Evens(n), Evens(n), TopEvens(p, n), Power(-1, n) * Odds(n), p);
    OddPowerOfMinusOne(k);
    EvensAndOdds(n);
    SwapFactors(-1, Evens(n), Odds(n));
    FactorialDoesNotVanish(2 * n, p);
    Cancel(Power(2, 2 * n), -1, f, p);
  }
}
