/** Divisibility, greatest common divisors, congruence and modular powers. */
module NumberTheory {
  import opened Bytes

  // ----- division -----------------------------------------------------------------------------

  lemma MultipleIsAtLeast(d: nat, k: int)
    requires k >= 1
    ensures d * k >= d
  {
    assert d * k == d + d * (k - 1);
  }

  lemma DivisionIsUnique(x: int, d: nat, q: int, r: nat)
    requires d > 0 && x == d * q + r && r < d
    ensures x / d == q && x % d == r
  {
    var q', r' := x / d, x % d;
    assert x == d * q' + r';
    assert d * (q - q') == r' - r && d * (q' - q) == r - r';
    if q > q' {
      MultipleIsAtLeast(d, q - q');
    } else if q < q' {
      MultipleIsAtLeast(d, q' - q);
    }
  }

  lemma AddMultiple(x: int, k: int, m: nat)
    requires m > 0
    ensures (x + m * k) % m == x % m
  {
    assert x + m * k == m * (x / m + k) + x % m;
    DivisionIsUnique(x + m * k, m, x / m + k, x % m);
  }

  predicate Divides(d: nat, n: int) {
    d > 0 && n % d == 0
  }

  lemma MultipleIsDivisible(d: nat, k: int)
    requires d > 0
    ensures Divides(d, d * k)
  {
    AddMultiple(0, k, d);
  }

  // ----- congruence ----------------------------------------------------------------------------

  predicate Congruent(a: int, b: int, m: nat)
    requires m > 0
  {
    a % m == b % m
  }

  lemma DifferenceIsMultiple(a: int, b: int, m: nat)
    requires m > 0 && Congruent(a, b, m)
    ensures a == b + m * (a / m - b / m) && Divides(m, a - b)
  {
    assert a - b == m * (a / m - b / m);
    MultipleIsDivisible(m, a / m - b / m);
  }

  lemma MultipleApart(a: int, b: int, m: nat)
    requires Divides(m, a - b)
    ensures Congruent(a, b, m)
  {
    AddMultiple(b, (a - b) / m, m);
  }

  lemma CongruentProducts(a: int, a': int, b: int, b': int, m: nat)
    requires m > 0 && Congruent(a, a', m) && Congruent(b, b', m)
    ensures Congruent(a * b, a' * b', m)
  {
    DifferenceIsMultiple(a, a', m);
    DifferenceIsMultiple(b, b', m);
    var s, t := a / m - a' / m, b / m - b' / m;
    ExpandProduct(a', b', s, t, m);
    AddMultiple(a' * b', a' * t + b' * s + m * s * t, m);
  }

  lemma ExpandProduct(a: int, b: int, s: int, t: int, m: int)
    ensures (a + m * s) * (b + m * t) == a * b + m * (a * t + b * s + m * s * t)
  {
    calc {
      (a + m * s) * (b + m * t);
      a * b + a * (m * t) + (m * s) * b + (m * s) * (m * t);
      { assert a * (m * t) == m * (a * t) && (m * s) * b == m * (b * s); }
      a * b + m * (a * t) + m * (b * s) + (m * s) * (m * t);
      { assert (m * s) * (m * t) == m * (m * s * t); }
      a * b + m * (a * t) + m * (b * s) + m * (m * s * t);
      a * b + m * (a * t + b * s + m * s * t);
    }
  }

  lemma CongruentSums(a: int, a': int, c: int, m: nat)
    requires m > 0 && Congruent(a, a', m)
    ensures Congruent(a + c, a' + c, m)
  {
    DifferenceIsMultiple(a, a', m);
    MultipleApart(a + c, a' + c, m);
  }

  // Reducing by a multiple of m does not change the residue modulo m.
  lemma ReductionKeepsResidue(x: int, n: nat, m: nat)
    requires n > 0 && Divides(m, n)
    ensures Congruent(x % n, x, m)
  {
    var k := n / m;
    assert n == m * k;
    var q := x / n;
    assert x == x % n + n * q;
    assert n * q == m * (k * q);
    AddMultiple(x % n, k * q, m);
  }

  // ----- the greatest common divisor -----------------------------------------------------------

  function Gcd(a: nat, b: nat): nat
    decreases b
  {
    if b == 0 then a else Gcd(b, a % b)
  }

  lemma DividesRemainder(d: nat, a: nat, b: nat)
    requires b > 0 && Divides(d, b)
    ensures Divides(d, a % b) <==> Divides(d, a)
  {
    ReductionKeepsResidue(a, b, d);
  }

  // The common divisors of a and b are exactly the divisors of their gcd.
  lemma {:induction false} GcdIsGreatest(a: nat, b: nat, d: nat)
    requires d > 0
    ensures Divides(d, Gcd(a, b)) <==> Divides(d, a) && Divides(d, b)
    decreases b
  {
    if b == 0 {
      MultipleIsDivisible(d, 0);
    } else {
      GcdIsGreatest(b, a % b, d);
      if Divides(d, b) {
        DividesRemainder(d, a, b);
      }
    }
  }

  lemma {:induction false} GcdIsPositive(a: nat, b: nat)
    requires a > 0 || b > 0
    ensures Gcd(a, b) > 0
    decreases b
  {
    if b != 0 {
      GcdIsPositive(b, a % b);
    }
  }

  lemma GcdDivides(a: nat, b: nat)
    requires a > 0 || b > 0
    ensures Divides(Gcd(a, b), a) && Divides(Gcd(a, b), b)
  {
    GcdIsPositive(a, b);
    var g := Gcd(a, b);
    MultipleIsDivisible(g, 1);
    GcdIsGreatest(a, b, g);
  }

  // ----- powers ----------------------------------------------------------------------------------

  function ModPow(base: nat, exponent: nat, m: nat): (r: nat)
    requires m > 0
    ensures r < m
  {
    Pow(base, exponent) % m
  }

  lemma {:induction false} PowOfSum(x: nat, a: nat, b: nat)
    ensures Pow(x, a + b) == Pow(x, a) * Pow(x, b)
    decreases a
  {
    if a != 0 {
      PowOfSum(x, a - 1, b);
      assert x * (Pow(x, a - 1) * Pow(x, b)) == (x * Pow(x, a - 1)) * Pow(x, b);
    }
  }

  lemma {:induction false} PowOfPow(x: nat, a: nat, b: nat)
    ensures Pow(Pow(x, a), b) == Pow(x, a * b)
    decreases b
  {
    if b == 0 {
      assert a * b == 0;
    } else {
      PowOfPow(x, a, b - 1);
      PowOfSum(x, a, a * (b - 1));
      assert a + a * (b - 1) == a * b;
    }
  }

  lemma {:induction false} PowOfResidue(x: nat, e: nat, m: nat)
    requires m > 0
    ensures Congruent(Pow(x % m, e), Pow(x, e), m)
    decreases e
  {
    if e != 0 {
      PowOfResidue(x, e - 1, m);
      ReductionKeepsSelf(x, m);
      CongruentProducts(x % m, x, Pow(x % m, e - 1), Pow(x, e - 1), m);
    }
  }

  lemma ReductionKeepsSelf(x: nat, m: nat)
    requires m > 0
    ensures Congruent(x % m, x, m)
  {
    MultipleIsDivisible(m, 1);
    ReductionKeepsResidue(x, m, m);
  }

  // Raising a modular power again multiplies the exponents, so two exponents commute.
  lemma ModPowOfModPow(x: nat, a: nat, b: nat, m: nat)
    requires m > 0
    ensures ModPow(ModPow(x, a, m), b, m) == ModPow(x, a * b, m)
  {
    PowOfResidue(Pow(x, a), b, m);
    PowOfPow(x, a, b);
  }
}
