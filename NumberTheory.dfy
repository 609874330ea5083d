/** Euclid's greatest common divisor and the least common multiple built on
    it, over the non-negative integers the scheduler feeds them (task periods). */
module NumberTheory {

  /** `d` is a positive divisor of `n`. */
  predicate Divides(d: int, n: int) {
    d > 0 && n % d == 0
  }

  /** Euclid's recursion; `Gcd(a, 0) == a`. On non-negative operands the
      C remainder and Dafny's Euclidean remainder agree. */
  function Gcd(a: nat, b: nat): nat
    decreases b
  {
    if b == 0 then a else Gcd(b, a % b)
  }

  /** `a * b / gcd(a, b)`, evaluated in unbounded arithmetic. */
  function Lcm(a: nat, b: nat): nat
    requires a > 0
  {
    GcdDividesBoth(a, b);
    a * b / Gcd(a, b)
  }

  // ---------------------------------------------------------------------
  // Arithmetic helpers

  lemma MultipleMod(d: int, k: int)
    requires d > 0
    ensures (d * k) % d == 0 && (d * k) / d == k
  {
    var m := d * k;
    var q, r := m / d, m % d;
    assert m == d * q + r && 0 <= r < d;
    assert d * (k - q) == r;
    if k - q >= 1 {
      assert false;
    } else if k - q <= -1 {
      assert false;
    }
  }

  lemma DividesLinear(d: int, x: int, k: int, y: int)
    requires Divides(d, x) && Divides(d, y)
    ensures Divides(d, x * k + y)
  {
    var qx, qy := x / d, y / d;
    assert x == d * qx;
    assert y == d * qy;
    assert x * k + y == d * (qx * k + qy);
    MultipleMod(d, qx * k + qy);
  }

  lemma DividesTransitive(a: int, b: int, c: int)
    requires Divides(a, b) && Divides(b, c)
    ensures Divides(a, c)
  {
    DividesLinear(a, b, c / b, 0);
    assert c == b * (c / b);
  }

  // ---------------------------------------------------------------------
  // Properties of Gcd and Lcm

  /** For `a > 0`, `gcd(a, b)` is positive and divides both operands. */
  lemma {:induction false} GcdDividesBoth(a: nat, b: nat)
    requires a > 0
    ensures Gcd(a, b) > 0
    ensures Divides(Gcd(a, b), a) && Divides(Gcd(a, b), b)
    decreases b
  {
    if b == 0 {
      assert a % a == 0 by { MultipleMod(a, 1); }
    } else {
      GcdDividesBoth(b, a % b);
      var g := Gcd(b, a % b);
      assert a == b * (a / b) + a % b;
      DividesLinear(g, b, a / b, a % b);
    }
  }

  /** Every common divisor of `a` and `b` divides `gcd(a, b)`. */
  lemma {:induction false} GcdIsGreatest(a: nat, b: nat, d: int)
    requires a > 0
    requires Divides(d, a) && Divides(d, b)
    ensures Divides(d, Gcd(a, b))
    decreases b
  {
    if b != 0 {
      assert a % b == a + b * -(a / b);
      DividesLinear(d, b, -(a / b), a);
      GcdIsGreatest(b, a % b, d);
    }
  }

  /** For positive `a` and `b`, `lcm(a, b)` is a positive common multiple. */
  lemma LcmIsCommonMultiple(a: nat, b: nat)
    requires a > 0 && b > 0
    ensures Lcm(a, b) > 0
    ensures Divides(a, Lcm(a, b)) && Divides(b, Lcm(a, b))
  {
    GcdDividesBoth(a, b);
    var g := Gcd(a, b);
    var qa, qb := a / g, b / g;
    assert a == g * qa && b == g * qb;
    assert qa > 0 && qb > 0;
    assert a * b == g * (qa * b);
    MultipleMod(g, qa * b);
    assert Lcm(a, b) == qa * b;
    assert qa * b == a * qb;
    MultipleMod(a, qb);
    MultipleMod(b, qa);
    assert b * qa == qa * b;
  }

  /** Bezout coefficients for `gcd(a, b)`, following Euclid's recursion. */
  lemma {:induction false} Bezout(a: nat, b: nat) returns (x: int, y: int)
    requires a > 0
    ensures a * x + b * y == Gcd(a, b)
    decreases b
  {
    if b == 0 {
      x, y := 1, 0;
    } else {
      var x', y' := Bezout(b, a % b);
      var q := a / b;
      assert a % b == a - b * q;
      assert b * x' + (a - b * q) * y' == Gcd(a, b);
      x, y := y', x' - q * y';
      assert a * x + b * y == b * x' + (a - b * q) * y';
    }
  }

  lemma CancelFactor(g: int, p: int, q: int)
    requires g > 0 && p * g == q * g
    ensures p == q
  {
  }

  lemma LcmTimesGcd(a: nat, b: nat)
    requires a > 0 && b > 0
    ensures Lcm(a, b) * Gcd(a, b) == a * b
  {
    GcdDividesBoth(a, b);
    var g := Gcd(a, b);
    var qb := b / g;
    assert b == g * qb;
    MulRegroup(a, g, qb);
    MultipleMod(g, a * qb);
    assert Lcm(a, b) == a * qb;
  }

  lemma MulRegroup(a: int, g: int, q: int)
    ensures a * (g * q) == g * (a * q) == (a * q) * g
  {
  }

  lemma CombineMultiples(a: int, b: int, m: int, x: int, y: int, s: int, u: int)
    requires m == a * s && m == b * u
    ensures m * (a * x + b * y) == a * b * (u * x + s * y)
  {
  }

  /** `lcm(a, b)` divides every common multiple of `a` and `b`, so it is the
      least positive one. */
  lemma LcmDividesCommonMultiple(a: nat, b: nat, m: int)
    requires a > 0 && b > 0
    requires Divides(a, m) && Divides(b, m)
    ensures Divides(Lcm(a, b), m)
  {
    GcdDividesBoth(a, b);
    LcmIsCommonMultiple(a, b);
    var g, l := Gcd(a, b), Lcm(a, b);
    var x, y := Bezout(a, b);
    var s, u := m / a, m / b;
    assert m == a * s && m == b * u;
    var z := u * x + s * y;
    CombineMultiples(a, b, m, x, y, s, u);
    assert m * g == a * b * z;
    LcmTimesGcd(a, b);
    assert a * b * z == (l * z) * g;
    CancelFactor(g, m, l * z);
    MultipleMod(l, z);
  }
}
