/** Integer arithmetic modulo a prime: the scalar field of the voting group. Group elements are
    written by their discrete logarithm, so a point is a residue and scalar multiplication is `*`. */
module PrimeField {

  predicate DividesExactly(d: int, n: int)
  {
    d != 0 && n % d == 0
  }

  ghost predicate IsPrime(q: int) {
    q >= 2 && forall d :: 1 < d < q ==> !DividesExactly(d, q)
  }

  predicate Congruent(a: int, b: int, q: int)
    requires q > 0
  {
    a % q == b % q
  }

  /** A known difference of a multiple of q is a congruence. */
  lemma {:induction false} CongruentIntro(a: int, b: int, k: int, q: int)
    requires q > 0
    requires a == b + k * q
    ensures Congruent(a, b, q)
    decreases if k >= 0 then k else -k
  {
    if k > 0 {
      CongruentIntro(a - q, b, k - 1, q);
      ShiftByModulus(a - q, q);
    } else if k < 0 {
      CongruentIntro(a + q, b, k + 1, q);
      ShiftByModulus(a, q);
    }
  }

  lemma ShiftByModulus(a: int, q: int)
    requires q > 0
    ensures (a + q) % q == a % q
  {
    var d := (a + q) / q - a / q;
    assert q == d * q + ((a + q) % q - a % q);
    assert d >= 2 ==> d * q >= 2 * q;
    assert d <= 0 ==> d * q <= 0;
    assert d == 1;
  }

  /** The multiple of q that separates two congruent numbers. */
  function Quotient(a: int, b: int, q: int): (k: int)
    requires q > 0
    requires Congruent(a, b, q)
    ensures a == b + k * q
  {
    assert a == a / q * q + a % q;
    assert b == b / q * q + b % q;
    a / q - b / q
  }

  lemma CongruentMod(a: int, q: int)
    requires q > 0
    ensures Congruent(a % q, a, q)
  {
    CongruentIntro(a % q, a, -(a / q), q);
  }

  lemma CongruentAdd(a: int, b: int, c: int, d: int, q: int)
    requires q > 0
    requires Congruent(a, b, q) && Congruent(c, d, q)
    ensures Congruent(a + c, b + d, q) && Congruent(a - c, b - d, q)
  {
    var k, l := Quotient(a, b, q), Quotient(c, d, q);
    CongruentIntro(a + c, b + d, k + l, q);
    CongruentIntro(a - c, b - d, k - l, q);
  }

  lemma CongruentMul(a: int, b: int, c: int, d: int, q: int)
    requires q > 0
    requires Congruent(a, b, q) && Congruent(c, d, q)
    ensures Congruent(a * c, b * d, q)
  {
    var k, l := Quotient(a, b, q), Quotient(c, d, q);
    Distribute(d, l, q, a);
    Distribute(b, k, q, d);
    assert a * c == b * d + (k * d) * q + (l * a) * q;
    Distribute2(k * d, l * a, q);
    CongruentIntro(a * c, b * d, k * d + l * a, q);
  }

  lemma Distribute(b: int, k: int, q: int, d: int)
    ensures (b + k * q) * d == d * (b + k * q) == b * d + (k * d) * q
  {
  }

  lemma Distribute2(k: int, l: int, q: int)
    ensures (k + l) * q == k * q + l * q
  {
  }

  /** Extended Euclid: the greatest common divisor with its Bezout coefficients. */
  function ExtendedGcd(a: nat, b: nat): (r: (int, int, int))
    requires a > 0 || b > 0
    ensures r.0 > 0 && r.0 == r.1 * a + r.2 * b
    ensures DividesExactly(r.0, a) && DividesExactly(r.0, b)
    decreases b
  {
    if b == 0 then (a, 1, 0) else
      var (g, u, v) := ExtendedGcd(b, a % b);
      assert DividesExactly(g, a) by { DividesStep(g, a, b); }
      assert v * a + (u - a / b * v) * b == u * b + v * (a % b) by { BezoutStep(a, b, a / b, a % b, u, v); }
      (g, v, u - a / b * v)
  }

  lemma BezoutStep(a: int, b: int, k: int, r: int, u: int, v: int)
    requires a == k * b + r
    ensures v * a + (u - k * v) * b == u * b + v * r
  {
    Distribute(r, k, b, v);
    assert (k * v) * b + (u - k * v) * b == u * b by { Distribute2(k * v, u - k * v, b); }
  }

  lemma DividesStep(g: int, a: nat, b: nat)
    requires g > 0 && b > 0
    requires DividesExactly(g, b) && DividesExactly(g, a % b)
    ensures DividesExactly(g, a)
  {
    var k, l := b / g, (a % b) / g;
    assert b == k * g && a % b == l * g;
    assert a == a / b * b + a % b;
    assert a / b * (k * g) == (a / b * k) * g;
    assert a == (a / b * k + l) * g;
    CongruentIntro(a, 0, a / b * k + l, g);
  }

  /** The inverse used by scalar division; 0 stands for the undefined inverse of 0. */
  function Inverse(a: int, q: int): (r: int)
    requires q > 0
  {
    if a % q == 0 then 0 else ExtendedGcd(a % q, q).1 % q
  }

  lemma InverseIsInverse(a: int, q: int)
    requires IsPrime(q)
    requires a % q != 0
    ensures Congruent(a * Inverse(a, q), 1, q)
  {
    var (g, u, v) := ExtendedGcd(a % q, q);
    assert g <= a % q by {
      var m := (a % q) / g;
      assert a % q == m * g;
      assert m <= 0 ==> m * g <= 0;
      assert m >= 1 ==> m * g >= g;
    }
    assert DividesExactly(g, q);
    assert g == 1;
    CongruentIntro(u * (a % q), 1, -v, q);
    CongruentMod(u, q);
    CongruentMod(a, q);
    CongruentMul(a, a % q, u % q, u, q);
  }

  /** A prime field has no zero divisors. */
  lemma NonzeroProduct(a: int, b: int, q: int)
    requires IsPrime(q)
    requires a % q != 0 && b % q != 0
    ensures (a * b) % q != 0
  {
    var i := Inverse(a, q);
    InverseIsInverse(a, q);
    CongruentMul(a * i, 1, b, b, q);
    assert (a * b) * i == (a * i) * b;
    if (a * b) % q == 0 {
      CongruentMul(a * b, 0, i, i, q);
      assert false;
    }
  }

  /** Cancelling a nonzero factor. */
  lemma Cancel(c: int, a: int, b: int, q: int)
    requires IsPrime(q)
    requires c % q != 0
    requires Congruent(c * a, c * b, q)
    ensures Congruent(a, b, q)
  {
    var i := Inverse(c, q);
    InverseIsInverse(c, q);
    CongruentMul(c * a, c * b, i, i, q);
    UndoFactor(c, i, a, q);
    UndoFactor(c, i, b, q);
  }

  lemma UndoFactor(c: int, i: int, a: int, q: int)
    requires q > 0 && Congruent(c * i, 1, q)
    ensures Congruent(c * a * i, a, q)
  {
    CongruentMul(c * i, 1, a, a, q);
    assert c * a * i == c * i * a;
  }

  // ----- There are primes of any size

  function Factorial(n: nat): (f: nat)
    ensures f >= 1
  {
    if n == 0 then 1 else AtLeastOne(n, Factorial(n - 1))
  }

  function AtLeastOne(a: nat, b: nat): (c: nat)
    requires a >= 1 && b >= 1
    ensures c == a * b && c >= 1
  {
    a * b
  }

  lemma MultipleDivides(d: int, k: int)
    requires d > 0
    ensures DividesExactly(d, k * d)
  {
    CongruentIntro(k * d, 0, k, d);
  }

  lemma {:induction false} FactorialDivisible(n: nat, d: nat)
    requires 1 <= d <= n
    ensures DividesExactly(d, Factorial(n))
  {
    var rest := Factorial(n - 1);
    if d == n {
      MultipleDivides(d, rest);
      assert rest * d == n * rest;
    } else {
      FactorialDivisible(n - 1, d);
      var k := rest / d;
      assert rest == k * d;
      assert n * (k * d) == (n * k) * d;
      MultipleDivides(d, n * k);
    }
  }

  lemma DividesTransitive(a: int, b: int, c: int)
    requires a > 0 && b > 0 && DividesExactly(a, b) && DividesExactly(b, c)
    ensures DividesExactly(a, c)
  {
    var k, l := b / a, c / b;
    assert b == k * a && c == l * b;
    assert l * (k * a) == (l * k) * a;
    MultipleDivides(a, l * k);
  }

  /** A divisor between 2 and n, and then the least one, which is prime. */
  lemma {:induction false} PrimeDivisor(n: nat, d: nat) returns (p: nat)
    requires 2 <= d <= n && DividesExactly(d, n)
    ensures IsPrime(p) && p <= d && DividesExactly(p, n)
    decreases d
  {
    if c :| 1 < c < d && DividesExactly(c, d) {
      DividesTransitive(c, d, n);
      p := PrimeDivisor(n, c);
    } else {
      p := d;
    }
  }

  /** Beyond every number there is a prime. */
  lemma PrimeAbove(n: nat) returns (p: nat)
    ensures IsPrime(p) && p > n
  {
    var m := Factorial(n) + 1;
    assert m % m == 0;
    p := PrimeDivisor(m, m);
    if p <= n {
      FactorialDivisible(n, p);
      CongruentAdd(Factorial(n), 0, 1, 1, p);
      assert 1 % p == 1 by { SmallMod(1, p); }
      assert false;
    }
  }

  lemma SmallMod(a: int, q: int)
    requires 0 <= a < q
    ensures a % q == a
  {
  }
}
