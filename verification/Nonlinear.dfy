/**
  Integer facts about products, quotients and remainders that the components share.
  Each is stated for the variables it needs, so that a caller names the instance it uses.
 */
module Nonlinear {

  /** The quotient and remainder of a Euclidean division are the only pair that fits. */
  lemma DivModUnique(n: int, d: int, q: int, r: int)
    requires d > 0 && n == q * d + r && 0 <= r < d
    ensures n / d == q && n % d == r
  {
    var q', r' := n / d, n % d;
    assert n == q' * d + r';
    assert (q - q') * d == r' - r;
    if q > q' {
      MulMono(1, q - q', d);
    } else if q < q' {
      MulMono(q - q', -1, d);
    }
  }

  lemma MulMono(x: int, y: int, k: int)
    requires x <= y && 0 <= k
    ensures x * k <= y * k
  {
  }

  lemma MulAssociates(x: int, y: int, z: int)
    ensures x * (y * z) == (x * y) * z
  {
  }

  lemma MulStrict(x: int, y: int, k: int)
    requires x < y && 0 < k
    ensures x * k < y * k
  {
  }

  /** Dividing by a product is dividing twice. */
  lemma DivDiv(n: nat, a: nat, b: nat)
    requires a > 0 && b > 0
    ensures a * b > 0 && n / (a * b) == n / a / b
  {
    var q, r := n / a, n % a;
    var u, v := q / b, q % b;
    assert n == q * a + r && q == u * b + v;
    Regroup(u, b, v, a);
    TwoDigits(v, b, r, a);
    DivModUnique(n, a * b, u, v * a + r);
  }

  lemma Regroup(u: int, b: int, v: int, a: int)
    ensures (u * b + v) * a == u * (a * b) + v * a
  {
    MulAssociates(u, b, a);
  }

  /** A two-digit number with digits below b and a is below a * b. */
  lemma TwoDigits(v: int, b: int, r: int, a: int)
    requires 0 <= v < b && 0 <= r < a
    ensures 0 <= v * a + r < a * b
  {
    MulMono(v, b - 1, a);
    MulMono(0, v, a);
  }

  lemma DivBelow(n: nat, d: nat)
    requires d > 0
    ensures 0 <= n / d <= n
    ensures d > 1 && n > 0 ==> n / d < n
  {
    var q := n / d;
    assert n == q * d + n % d;
    if q < 0 {
      MulMono(q, -1, d);
    }
    if q > 0 && d > 1 {
      MulMono(2, d, q);
    } else {
      MulMono(1, d, q);
    }
  }

  /** A multiple added to the dividend moves to the quotient. */
  lemma DivAddMultiple(n: int, k: int, d: int)
    requires d > 0
    ensures (n + k * d) / d == n / d + k
    ensures (n + k * d) % d == n % d
  {
    assert n + k * d == (n / d + k) * d + n % d;
    DivModUnique(n + k * d, d, n / d + k, n % d);
  }

  function Power(b: int, n: nat): (r: int)
    ensures b > 0 ==> r > 0
  {
    if n == 0 then 1 else b * Power(b, n - 1)
  }

  lemma {:induction false} PowerAdd(b: int, m: nat, n: nat)
    ensures Power(b, m + n) == Power(b, m) * Power(b, n)
  {
    if m > 0 {
      PowerAdd(b, m - 1, n);
      MulAssociates(b, Power(b, m - 1), Power(b, n));
    }
  }

  function Pow2(n: nat): (r: nat)
    ensures r > 0
  {
    Power(2, n)
  }

  lemma Pow2Add(m: nat, n: nat)
    ensures Pow2(m + n) == Pow2(m) * Pow2(n)
  {
    PowerAdd(2, m, n);
  }

  /** The bit of weight 2^i of a natural number. */
  function BitOf(n: nat, i: nat): (b: nat)
    ensures b == 0 || b == 1
  {
    (n / Pow2(i)) % 2
  }

  /** Taking one more bit off the bottom: n / 2^i is twice n / 2^(i+1) plus bit i. */
  lemma PrefixStep(n: nat, i: nat)
    ensures n / Pow2(i) == 2 * (n / Pow2(i + 1)) + BitOf(n, i)
  {
    DivDiv(n, Pow2(i), 2);
    assert Pow2(i + 1) == Pow2(i) * 2;
  }
}
