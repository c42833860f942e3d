/** Lagrange interpolation at zero over a prime field, and its use to recombine the partial
    decryptions of an ElGamal pair. */
module Interpolation {
  import opened PrimeField

  // ----- Polynomials, by their coefficients from degree 0 up

  function Eval(f: seq<int>, x: int): int {
    if f == [] then 0 else f[0] + x * Eval(f[1..], x)
  }

  function Evals(f: seq<int>, xs: seq<int>): (ys: seq<int>) {
    seq(|xs|, i requires 0 <= i < |xs| => Eval(f, xs[i]))
  }

  /** Synthetic division by (X - b). */
  function DivideByRoot(f: seq<int>, b: int): (g: seq<int>)
    ensures |g| == if |f| == 0 then 0 else |f| - 1
  {
    if |f| <= 1 then [] else [Eval(f[1..], b)] + DivideByRoot(f[1..], b)
  }

  lemma {:induction false} DivisionIdentity(f: seq<int>, b: int, x: int)
    ensures Eval(f, x) == Eval(f, b) + (x - b) * Eval(DivideByRoot(f, b), x)
  {
    if |f| <= 1 {
      assert |f| == 1 ==> f[1..] == [];
    } else {
      var h := f[1..];
      DivisionIdentity(h, b, x);
      var hb, g := Eval(h, b), Eval(DivideByRoot(h, b), x);
      assert DivideByRoot(f, b)[1..] == DivideByRoot(h, b);
      assert Eval(DivideByRoot(f, b), x) == hb + x * g;
      RootStep(f[0], x, b, hb, g);
    }
  }

  lemma RootStep(c: int, x: int, b: int, hb: int, g: int)
    ensures c + x * (hb + (x - b) * g) == c + b * hb + (x - b) * (hb + x * g)
  {
    assert x * (hb + (x - b) * g) == x * hb + x * ((x - b) * g);
    assert (x - b) * (hb + x * g) == (x - b) * hb + (x - b) * (x * g);
    assert (x - b) * hb == x * hb - b * hb;
    assert x * ((x - b) * g) == (x - b) * (x * g) by { Swap3(x, x - b, g); }
  }

  lemma Swap3(a: int, b: int, c: int)
    ensures a * (b * c) == b * (a * c)
  {
    assert (a * b) * c == a * (b * c);
    assert (b * a) * c == b * (a * c);
  }

  lemma Associate(a: int, b: int, c: int)
    ensures a * (b * c) == (a * b) * c
  {
  }

  // ----- Sums

  function Sum(s: seq<int>): int {
    if s == [] then 0 else s[0] + Sum(s[1..])
  }

  lemma {:induction false} SumLast(s: seq<int>)
    requires s != []
    ensures Sum(s) == Sum(s[..|s| - 1]) + s[|s| - 1]
  {
    if |s| > 1 {
      SumLast(s[1..]);
      assert s[1..][..|s| - 2] == s[..|s| - 1][1..];
    } else {
      assert s[1..] == [] && s[..0] == [];
    }
  }

  lemma {:induction false} SumCongruent(s: seq<int>, t: seq<int>, q: int)
    requires q > 0 && |s| == |t|
    requires forall i :: 0 <= i < |s| ==> Congruent(s[i], t[i], q)
    ensures Congruent(Sum(s), Sum(t), q)
  {
    if s != [] {
      SumCongruent(s[1..], t[1..], q);
      CongruentAdd(s[0], t[0], Sum(s[1..]), Sum(t[1..]), q);
    }
  }

  /** a times the first sequence plus b times the second, element by element. */
  function Linear(a: int, s: seq<int>, b: int, t: seq<int>): (u: seq<int>)
    requires |s| == |t|
  {
    seq(|s|, i requires 0 <= i < |s| => a * s[i] + b * t[i])
  }

  function Scaled(a: int, s: seq<int>): (u: seq<int>) {
    seq(|s|, i requires 0 <= i < |s| => a * s[i])
  }

  lemma Spread(a: int, x: int, y: int)
    ensures a * (x + y) == a * x + a * y
  {
  }

  /** Sums are linear. */
  lemma {:induction false} SumLinear(a: int, s: seq<int>, b: int, t: seq<int>)
    requires |s| == |t|
    ensures Sum(Linear(a, s, b, t)) == a * Sum(s) + b * Sum(t)
  {
    if s != [] {
      SumLinear(a, s[1..], b, t[1..]);
      assert Linear(a, s, b, t)[1..] == Linear(a, s[1..], b, t[1..]);
      Spread(a, s[0], Sum(s[1..]));
      Spread(b, t[0], Sum(t[1..]));
    }
  }

  lemma {:induction false} SumScaled(a: int, s: seq<int>)
    ensures Sum(Scaled(a, s)) == a * Sum(s)
  {
    if s != [] {
      SumScaled(a, s[1..]);
      assert Scaled(a, s)[1..] == Scaled(a, s[1..]);
      Spread(a, s[0], Sum(s[1..]));
    }
  }

  // ----- Lagrange weights at zero

  /** Product of the abscissas except the i-th. */
  function Numerator(xs: seq<int>, i: int): int {
    if xs == [] then 1
    else (if i == 0 then 1 else xs[0]) * Numerator(xs[1..], i - 1)
  }

  /** Product of (x_j - x) over the abscissas except the i-th. */
  function Denominator(xs: seq<int>, i: int, x: int): int {
    if xs == [] then 1
    else (if i == 0 then 1 else xs[0] - x) * Denominator(xs[1..], i - 1, x)
  }

  function Weight(xs: seq<int>, i: int, q: int): int
    requires q > 0 && 0 <= i < |xs|
  {
    Numerator(xs, i) * Inverse(Denominator(xs, i, xs[i]), q)
  }

  function Weights(xs: seq<int>, q: int): (ws: seq<int>)
    requires q > 0
  {
    seq(|xs|, i requires 0 <= i < |xs| => Weight(xs, i, q))
  }

  function Pointwise(a: seq<int>, b: seq<int>): (c: seq<int>)
    requires |a| == |b|
  {
    seq(|a|, i requires 0 <= i < |a| => a[i] * b[i])
  }

  /** The value at zero of the interpolating polynomial through (xs[i], ys[i]). */
  function InterpolateAtZero(xs: seq<int>, ys: seq<int>, q: int): (r: int)
    requires q > 0 && |xs| == |ys|
  {
    Sum(Pointwise(Weights(xs, q), ys)) % q
  }

  ghost predicate DistinctMod(xs: seq<int>, q: int)
    requires q > 0
  {
    forall i, j :: 0 <= i < j < |xs| ==> (xs[j] - xs[i]) % q != 0
  }

  lemma NonzeroDifference(a: int, b: int, q: int)
    requires q > 0 && (a - b) % q != 0
    ensures (b - a) % q != 0
  {
    if (b - a) % q == 0 {
      CongruentAdd(0, 0, b - a, 0, q);
      assert false;
    }
  }

  lemma {:induction false} DenominatorNonzero(xs: seq<int>, i: int, x: int, q: int)
    requires IsPrime(q)
    requires forall j :: 0 <= j < |xs| && j != i ==> (xs[j] - x) % q != 0
    ensures Denominator(xs, i, x) % q != 0
  {
    if xs != [] {
      DenominatorNonzero(xs[1..], i - 1, x, q);
      NonzeroProduct(if i == 0 then 1 else xs[0] - x, Denominator(xs[1..], i - 1, x), q);
    }
  }

  /** Weight times denominator is numerator. */
  lemma WeightDefinition(xs: seq<int>, i: int, q: int)
    requires IsPrime(q) && DistinctMod(xs, q) && 0 <= i < |xs|
    ensures Denominator(xs, i, xs[i]) % q != 0
    ensures Congruent(Denominator(xs, i, xs[i]) * Weight(xs, i, q), Numerator(xs, i), q)
  {
    var d, n := Denominator(xs, i, xs[i]), Numerator(xs, i);
    forall j | 0 <= j < |xs| && j != i
      ensures (xs[j] - xs[i]) % q != 0
    {
      if j < i { NonzeroDifference(xs[i], xs[j], q); }
    }
    DenominatorNonzero(xs, i, xs[i], q);
    InverseIsInverse(d, q);
    CongruentMul(d * Inverse(d, q), 1, n, n, q);
    assert d * (n * Inverse(d, q)) == n * (d * Inverse(d, q)) by { Swap3(d, n, Inverse(d, q)); }
    assert d * Inverse(d, q) * n == n * (d * Inverse(d, q));
  }

  lemma {:induction false} ProductsLast(xs: seq<int>, i: int, x: int)
    requires xs != [] && i != |xs| - 1
    ensures Numerator(xs, i) == Numerator(xs[..|xs| - 1], i) * xs[|xs| - 1]
    ensures Denominator(xs, i, x) == Denominator(xs[..|xs| - 1], i, x) * (xs[|xs| - 1] - x)
  {
    var ys := xs[..|xs| - 1];
    if |xs| > 1 {
      ProductsLast(xs[1..], i - 1, x);
      assert xs[1..][..|xs| - 2] == ys[1..];
      var f, g := if i == 0 then 1 else xs[0], if i == 0 then 1 else xs[0] - x;
      Associate(f, Numerator(ys[1..], i - 1), xs[|xs| - 1]);
      Associate(g, Denominator(ys[1..], i - 1, x), xs[|xs| - 1] - x);
    } else {
      assert xs[1..] == [] && ys == [];
    }
  }

  /** Dropping a node b rescales the weight of every other node by x_b / (x_b - x_i). */
  lemma WeightRatio(n': int, d': int, w': int, xb: int, xi: int, n: int, d: int, w: int, q: int)
    requires IsPrime(q)
    requires n == n' * xb && d == d' * (xb - xi)
    requires d' % q != 0
    requires Congruent(d * w, n, q) && Congruent(d' * w', n', q)
    ensures Congruent(w * (xb - xi), w' * xb, q)
  {
    CongruentMul(d' * w', n', xb, xb, q);
    assert d' * (w * (xb - xi)) == d * w by { Swap3(d', w, xb - xi); }
    assert d' * (w' * xb) == (d' * w') * xb;
    Cancel(d', w * (xb - xi), w' * xb, q);
  }

  lemma WeightDropLast(xs: seq<int>, i: int, q: int)
    requires IsPrime(q) && DistinctMod(xs, q) && 0 <= i < |xs| - 1
    ensures Congruent(Weight(xs, i, q) * (xs[|xs| - 1] - xs[i]), Weight(xs[..|xs| - 1], i, q) * xs[|xs| - 1], q)
  {
    var ys := xs[..|xs| - 1];
    WeightDefinition(xs, i, q);
    WeightDefinition(ys, i, q);
    ProductsLast(xs, i, xs[i]);
    WeightRatio(Numerator(ys, i), Denominator(ys, i, xs[i]), Weight(ys, i, q), xs[|xs| - 1], xs[i],
                Numerator(xs, i), Denominator(xs, i, xs[i]), Weight(xs, i, q), q);
  }

  lemma WeightDropFirst(xs: seq<int>, i: int, q: int)
    requires IsPrime(q) && DistinctMod(xs, q) && 0 < i < |xs|
    ensures Congruent(Weight(xs, i, q) * (xs[0] - xs[i]), Weight(xs[1..], i - 1, q) * xs[0], q)
  {
    var ys, x, n', d' := xs[1..], xs[i], Numerator(xs[1..], i - 1), Denominator(xs[1..], i - 1, xs[i]);
    DistinctSlices(xs, q);
    WeightDefinition(xs, i, q);
    WeightDefinition(ys, i - 1, q);
    assert ys[i - 1] == x;
    ProductsFirst(xs, i, x);
    WeightRatio(n', d', Weight(ys, i - 1, q), xs[0], x,
                Numerator(xs, i), Denominator(xs, i, x), Weight(xs, i, q), q);
  }

  lemma ProductsFirst(xs: seq<int>, i: int, x: int)
    requires xs != [] && i != 0
    ensures Numerator(xs, i) == Numerator(xs[1..], i - 1) * xs[0]
    ensures Denominator(xs, i, x) == Denominator(xs[1..], i - 1, x) * (xs[0] - x)
  {
  }

  lemma DistinctSlices(xs: seq<int>, q: int)
    requires q > 0 && DistinctMod(xs, q) && xs != []
    ensures DistinctMod(xs[1..], q) && DistinctMod(xs[..|xs| - 1], q)
  {
    forall i, j | 0 <= i < j < |xs| - 1
      ensures (xs[1..][j] - xs[1..][i]) % q != 0
    {
      assert (xs[j + 1] - xs[i + 1]) % q != 0;
    }
  }

  /** The weights sum to one, by Neville's recursion on the two outer nodes. */
  lemma {:induction false} WeightsSumToOne(xs: seq<int>, q: int)
    requires IsPrime(q) && DistinctMod(xs, q) && xs != []
    ensures Congruent(Sum(Weights(xs, q)), 1, q)
    decreases |xs|
  {
    var n, ws := |xs|, Weights(xs, q);
    if n == 1 {
      SingleWeight(xs, q);
    } else {
      var a, b := xs[0], xs[n - 1];
      DistinctSlices(xs, q);
      WeightsSumToOne(xs[..n - 1], q);
      WeightsSumToOne(xs[1..], q);
      TowardsLast(xs, q);
      TowardsFirst(xs, q);
      SumOfDifference(xs, b, a, q);
      CancelOuter(a, b, Sum(ws), Sum(Towards(xs, b, q)), Sum(Towards(xs, a, q)), Sum(Weights(xs[..n - 1], q)),
          Sum(Weights(xs[1..], q)), q);
    }
  }

  lemma SingleWeight(xs: seq<int>, q: int)
    requires IsPrime(q) && |xs| == 1
    ensures Congruent(Sum(Weights(xs, q)), 1, q)
  {
    assert xs[1..] == [];
    assert Numerator(xs, 0) == 1 * Numerator(xs[1..], -1) == 1;
    assert Denominator(xs, 0, xs[0]) == 1 * Denominator(xs[1..], -1, xs[0]) == 1;
    InverseIsInverse(1, q);
    assert Weights(xs, q)[1..] == [];
  }

  lemma Differences(w: int, a: int, b: int, x: int)
    ensures (b - a) * w + 1 * (w * (a - x)) == w * (b - x)
  {
  }

  lemma CancelOuter(a: int, b: int, w: int, toB: int, toA: int, front: int, back: int, q: int)
    requires IsPrime(q) && (b - a) % q != 0
    requires (b - a) * w == toB - toA
    requires Congruent(toB, b * front, q) && Congruent(toA, a * back, q)
    requires Congruent(front, 1, q) && Congruent(back, 1, q)
    ensures Congruent(w, 1, q)
  {
    CongruentMul(b, b, front, 1, q);
    CongruentMul(a, a, back, 1, q);
    CongruentAdd(toB, b, toA, a, q);
    Cancel(b - a, w, 1, q);
  }

  /** Every weight times its distance from c. */
  function Towards(xs: seq<int>, c: int, q: int): (r: seq<int>)
    requires q > 0
  {
    seq(|xs|, i requires 0 <= i < |xs| => Weight(xs, i, q) * (c - xs[i]))
  }

  /** Moving from a to b costs every weight the same distance. */
  lemma SumOfDifference(xs: seq<int>, b: int, a: int, q: int)
    requires q > 0
    ensures (b - a) * Sum(Weights(xs, q)) == Sum(Towards(xs, b, q)) - Sum(Towards(xs, a, q))
  {
    hide Weight, Sum;
    var ws, toA, toB := Weights(xs, q), Towards(xs, a, q), Towards(xs, b, q);
    forall i | 0 <= i < |xs|
      ensures toB[i] == Linear(b - a, ws, 1, toA)[i]
    {
      Differences(ws[i], a, b, xs[i]);
    }
    assert toB == Linear(b - a, ws, 1, toA);
    SumLinear(b - a, ws, 1, toA);
  }

  lemma LastTerm(xs: seq<int>, i: int, q: int)
    requires IsPrime(q) && DistinctMod(xs, q) && 0 <= i < |xs| - 1
    ensures Congruent(Towards(xs, xs[|xs| - 1], q)[i], Scaled(xs[|xs| - 1], Weights(xs[..|xs| - 1], q))[i], q)
  {
    assert q > 0;
    hide Congruent, Weight, IsPrime;
    WeightDropLast(xs, i, q);
    Commute(Weight(xs[..|xs| - 1], i, q), xs[|xs| - 1]);
  }

  lemma Commute(a: int, b: int)
    ensures a * b == b * a
  {
  }

  lemma FirstTerm(xs: seq<int>, i: int, q: int)
    requires IsPrime(q) && DistinctMod(xs, q) && 0 < i < |xs|
    ensures Congruent(Towards(xs, xs[0], q)[i], Scaled(xs[0], Weights(xs[1..], q))[i - 1], q)
  {
    assert q > 0;
    hide Congruent, Weight, IsPrime;
    WeightDropFirst(xs, i, q);
    Commute(Weight(xs[1..], i - 1, q), xs[0]);
  }

  lemma OwnTerm(xs: seq<int>, i: int, q: int)
    requires q > 0 && 0 <= i < |xs|
    ensures Towards(xs, xs[i], q)[i] == 0
  {
    ZeroFactor(Weight(xs, i, q), 1);
  }

  lemma TowardsLast(xs: seq<int>, q: int)
    requires IsPrime(q) && DistinctMod(xs, q) && |xs| > 1
    ensures Congruent(Sum(Towards(xs, xs[|xs| - 1], q)), xs[|xs| - 1] * Sum(Weights(xs[..|xs| - 1], q)), q)
  {
    var n, b, front := |xs|, xs[|xs| - 1], Weights(xs[..|xs| - 1], q);
    var toB, scaled := Towards(xs, xs[|xs| - 1], q), Scaled(b, front);
    SumLast(toB);
    OwnTerm(xs, n - 1, q);
    hide Congruent, Weight, Sum, IsPrime;
    forall i | 0 <= i < n - 1
      ensures Congruent(toB[..n - 1][i], scaled[i], q)
    {
      LastTerm(xs, i, q);
    }
    SumCongruent(toB[..n - 1], scaled, q);
    SumScaled(b, front);
  }

  lemma TowardsFirst(xs: seq<int>, q: int)
    requires IsPrime(q) && DistinctMod(xs, q) && |xs| > 1
    ensures Congruent(Sum(Towards(xs, xs[0], q)), xs[0] * Sum(Weights(xs[1..], q)), q)
  {
    var n, a, back := |xs|, xs[0], Weights(xs[1..], q);
    var toA, scaled := Towards(xs, xs[0], q), Scaled(a, back);
    assert Sum(toA) == toA[0] + Sum(toA[1..]);
    OwnTerm(xs, 0, q);
    hide Congruent, Weight, Sum, IsPrime;
    forall i | 0 <= i < n - 1
      ensures Congruent(toA[1..][i], scaled[i], q)
    {
      FirstTerm(xs, i + 1, q);
    }
    SumCongruent(toA[1..], scaled, q);
    SumScaled(a, back);
  }

  /** Interpolation at zero through any |xs| distinct nodes recovers the constant coefficient of every
      polynomial with at most |xs| coefficients. */
  lemma {:induction false} InterpolationExact(xs: seq<int>, f: seq<int>, q: int)
    requires IsPrime(q) && DistinctMod(xs, q)
    requires xs != [] && |f| <= |xs|
    ensures Congruent(Sum(Pointwise(Weights(xs, q), Evals(f, xs))), Eval(f, 0), q)
    decreases |xs|
  {
    var n, ws, us := |xs|, Weights(xs, q), Pointwise(Weights(xs, q), Evals(f, xs));
    var b := xs[n - 1];
    var c, g := Eval(f, b), DivideByRoot(f, b);
    // us[i] == c * ws[i] - ws[i] * (b - xs[i]) * g(xs[i])
    var rest := seq(n, i requires 0 <= i < n => ws[i] * (b - xs[i]) * Eval(g, xs[i]));
    forall i | 0 <= i < n
      ensures us[i] == Linear(c, ws, -1, rest)[i]
    {
      DivisionIdentity(f, b, xs[i]);
      SplitTerm(ws[i], c, xs[i], b, Eval(g, xs[i]));
    }
    assert us == Linear(c, ws, -1, rest);
    SumLinear(c, ws, -1, rest);
    WeightsSumToOne(xs, q);
    DivisionIdentity(f, b, 0);
    RestOfDivision(xs, g, rest, q);
    CombineDivision(Sum(us), c, Sum(ws), Sum(rest), b, Eval(g, 0), q);
  }

  lemma SplitTerm(w: int, c: int, x: int, b: int, e: int)
    ensures w * (c + (x - b) * e) == c * w + (-1) * (w * (b - x) * e)
  {
    assert w * (c + (x - b) * e) == c * w + w * ((x - b) * e);
    Associate(w, b - x, e);
    assert (x - b) * e == -((b - x) * e);
    assert w * (-((b - x) * e)) == -(w * ((b - x) * e));
  }

  lemma CombineDivision(u: int, c: int, w: int, r: int, b: int, g: int, q: int)
    requires q > 0 && u == c * w + (-1) * r
    requires Congruent(w, 1, q) && Congruent(r, b * g, q)
    ensures Congruent(u, c + (0 - b) * g, q)
  {
    CongruentMul(c, c, w, 1, q);
    CongruentAdd(c * w, c, r, b * g, q);
    assert (0 - b) * g == -(b * g);
  }

  lemma {:induction false} RestOfDivision(xs: seq<int>, g: seq<int>, rest: seq<int>, q: int)
    requires IsPrime(q) && DistinctMod(xs, q) && xs != [] && |rest| == |xs|
    requires |g| < |xs|
    requires forall i :: 0 <= i < |xs| ==> rest[i] == Weights(xs, q)[i] * (xs[|xs| - 1] - xs[i]) * Eval(g, xs[i])
    ensures Congruent(Sum(rest), xs[|xs| - 1] * Eval(g, 0), q)
    decreases |xs|, 0
  {
    var n, b := |xs|, xs[|xs| - 1];
    SumLast(rest);
    assert rest[n - 1] == 0 by { ZeroFactor(Weights(xs, q)[n - 1], Eval(g, b)); }
    hide Congruent, Eval, Weight;
    if n > 1 {
      var ys := xs[..n - 1];
      var inner := Pointwise(Weights(ys, q), Evals(g, ys));
      var scaled := Scaled(b, inner);
      forall i | 0 <= i < n - 1
        ensures Congruent(rest[..n - 1][i], scaled[i], q)
      {
        RescaleAt(xs, g, i, q);
      }
      SumCongruent(rest[..n - 1], scaled, q);
      SumScaled(b, inner);
      InterpolationExact(ys, g, q);
      CongruentMul(b, b, Sum(inner), Eval(g, 0), q);
    } else {
      assert rest[..0] == [] && g == [];
    }
  }

  lemma ZeroFactor(w: int, e: int)
    ensures w * 0 * e == 0
  {
  }

  lemma RescaleAt(xs: seq<int>, g: seq<int>, i: nat, q: int)
    requires IsPrime(q) && DistinctMod(xs, q) && i < |xs| - 1
    ensures Congruent(Weights(xs, q)[i] * (xs[|xs| - 1] - xs[i]) * Eval(g, xs[i]),
                      xs[|xs| - 1] * Pointwise(Weights(xs[..|xs| - 1], q), Evals(g, xs[..|xs| - 1]))[i], q)
  {
    var b, ys := xs[|xs| - 1], xs[..|xs| - 1];
    WeightDropLast(xs, i, q);
    Rescale(Weight(xs, i, q), b - xs[i], Weight(ys, i, q), b, Eval(g, xs[i]), q);
  }

  lemma Rescale(w: int, d: int, w': int, b: int, e: int, q: int)
    requires q > 0 && Congruent(w * d, w' * b, q)
    ensures Congruent(w * d * e, b * (w' * e), q)
  {
    CongruentMul(w * d, w' * b, e, e, q);
    Swap3(b, w', e);
    Associate(w', b, e);
  }
}
