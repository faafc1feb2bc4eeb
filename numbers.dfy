/** Integer facts the scorer rests on: the floor square root that bounds the
    divisor search, Euclidean division, and the greatest common divisor. */
module Numbers {

  /** Floor square root: the largest r with r * r <= n (what the source gets
      from truncating Math.Sqrt of a non-negative int). */
  function ISqrt(n: nat): (r: nat)
    ensures r * r <= n < (r + 1) * (r + 1)
  {
    if n == 0 then 0
    else
      var s := ISqrt(n - 1);
      if (s + 1) * (s + 1) <= n then
        assert (s + 2) * (s + 2) == (s + 1) * (s + 1) + 2 * s + 3;
        s + 1
      else s
  }

  lemma MulAtLeast(a: int, k: int)
    requires a >= 0 && k >= 1
    ensures a * k >= a
  {
  }

  lemma MulMonotone(a: int, b: int, c: int, d: int)
    requires 0 <= a <= c && 0 <= b <= d
    ensures a * b <= c * d
  {
    assert a * b <= a * d;
    assert a * d <= c * d;
  }

  /** Euclidean division is unique: any q, r with n == d * q + r and
      0 <= r < d are the quotient and the remainder. */
  lemma {:induction false} DivModUnique(n: int, d: int, q: int, r: int)
    requires d >= 1 && n == d * q + r && 0 <= r < d
    ensures n / d == q && n % d == r
  {
    var q', r' := n / d, n % d;
    assert n == d * q' + r' && 0 <= r' < d;
    assert d * (q - q') == r' - r;
    if q - q' >= 1 {
      MulAtLeast(d, q - q');
      assert false;
    } else if q' - q >= 1 {
      MulAtLeast(d, q' - q);
      assert false;
    }
  }

  /** A divisor d of n >= 1 comes with its cofactor n / d, which divides n
      too and gives d back. */
  lemma DivisorPair(n: nat, d: nat)
    requires n >= 1 && d >= 1 && n % d == 0
    ensures n / d >= 1 && d * (n / d) == n
    ensures n % (n / d) == 0 && n / (n / d) == d
  {
    var q := n / d;
    assert n == d * q;
    DivModUnique(n, q, d, 0);
  }

  /** A positive multiple of d is at least d. */
  lemma DivisorAtMost(d: nat, g: nat)
    requires d >= 1 && g >= 1 && g % d == 0
    ensures d <= g
  {
    DivisorPair(g, d);
    MulAtLeast(d, g / d);
  }

  /** Subtracting a multiple of d does not change divisibility by d. */
  lemma ModDifference(x: nat, y: nat, d: nat)
    requires d >= 1 && x >= y && y % d == 0
    ensures x % d == 0 <==> (x - y) % d == 0
  {
    var k := y / d;
    assert y == d * k;
    var q, r := x / d, x % d;
    assert x - y == d * (q - k) + r;
    DivModUnique(x - y, d, q - k, r);
  }

  /** Greatest common divisor by Euclid's subtraction rule. */
  function Gcd(a: nat, b: nat): (g: nat)
    requires a >= 1 && b >= 1
    ensures 1 <= g <= a && g <= b
    decreases a + b
  {
    if a == b then a
    else if a > b then Gcd(a - b, b)
    else Gcd(a, b - a)
  }

  /** The divisors of Gcd(a, b) are exactly the common divisors of a and b. */
  lemma {:induction false} GcdCommonDivisors(a: nat, b: nat, d: nat)
    requires a >= 1 && b >= 1 && d >= 1
    ensures (a % d == 0 && b % d == 0) <==> Gcd(a, b) % d == 0
    decreases a + b
  {
    if a == b {
    } else if a > b {
      GcdCommonDivisors(a - b, b, d);
      if b % d == 0 { ModDifference(a, b, d); }
    } else {
      GcdCommonDivisors(a, b - a, d);
      if a % d == 0 { ModDifference(b, a, d); }
    }
  }

  /** d is a common divisor of a and b other than 1. */
  predicate SharedDivisor(d: nat, a: nat, b: nat) {
    d >= 2 && a % d == 0 && b % d == 0
  }

  /** Two positive numbers have a common divisor other than 1 exactly when
      their gcd exceeds 1. */
  lemma CommonDivisorIffGcd(a: nat, b: nat)
    requires a >= 1 && b >= 1
    ensures (exists d :: SharedDivisor(d, a, b)) <==> Gcd(a, b) > 1
  {
    var g := Gcd(a, b);
    if g > 1 {
      DivModUnique(g, g, 1, 0);
      GcdCommonDivisors(a, b, g);
      assert SharedDivisor(g, a, b);
    } else if exists d :: SharedDivisor(d, a, b) {
      var d :| SharedDivisor(d, a, b);
      GcdCommonDivisors(a, b, d);
      DivisorAtMost(d, g);
      assert false;
    }
  }
}
