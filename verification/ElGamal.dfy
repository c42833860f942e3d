/** ElGamal pairs over the voting group, threshold decryption and re-encryption. */
module ElGamal {
  import opened Wrappers
  import opened Sequences
  import opened PrimeField
  import opened Interpolation

  /** An ElGamal pair, each point written by its discrete logarithm to the group's base. */
  datatype Pair = Pair(K: int, C: int)

  function Encrypt(message: int, ephemeral: int, pubkey: int, q: int): (p: Pair)
    requires q > 0
  {
    Pair(ephemeral % q, (ephemeral * pubkey + message) % q)
  }

  /** What the holder of the whole secret reads in a pair. */
  function Decrypt(secret: int, p: Pair, q: int): (m: int)
    requires q > 0
  {
    (p.C - secret * p.K) % q
  }

  /** One node's contribution: the same expression with its share of the secret. */
  function PartialDecrypt(share: int, p: Pair, q: int): (v: int)
    requires q > 0
  {
    (p.C - share * p.K) % q
  }

  function Abscissas(indexes: seq<int>): (xs: seq<int>) {
    seq(|indexes|, i requires 0 <= i < |indexes| => indexes[i] + 1)
  }

  /** Recombination of public shares: interpolation at zero over x = index + 1. A share with a negative
      index is not a share, and all of them are needed. */
  function RecoverCommit(indexes: seq<int>, values: seq<int>, q: int): (r: Option<int>)
    requires q > 0 && |indexes| == |values|
  {
    if exists i :: 0 <= i < |indexes| && indexes[i] < 0 then None
    else Some(InterpolateAtZero(Abscissas(indexes), values, q))
  }

  lemma SmallResidue(d: int, q: int)
    requires 0 < d < q
    ensures d % q != 0 && (-d) % q != 0
  {
    if (-d) % q == 0 {
      CongruentAdd(0, 0, -d, 0, q);
      assert false;
    }
  }

  lemma AbscissasDistinct(indexes: seq<int>, q: int)
    requires q > 0 && Distinct(indexes)
    requires forall i :: 0 <= i < |indexes| ==> 0 <= indexes[i] < q
    ensures DistinctMod(Abscissas(indexes), q)
  {
    var xs := Abscissas(indexes);
    forall i, j | 0 <= i < j < |xs|
      ensures (xs[j] - xs[i]) % q != 0
    {
      var d := xs[j] - xs[i];
      if d > 0 { SmallResidue(d, q); } else { SmallResidue(-d, q); }
    }
  }

  /** Recombining the partial values of any |indexes| distinct nodes opens the pair exactly as the whole
      secret f(0) would, for every key polynomial with at most that many coefficients. */
  lemma ThresholdDecryption(f: seq<int>, indexes: seq<int>, values: seq<int>, p: Pair, q: int)
    requires IsPrime(q)
    requires indexes != [] && |values| == |indexes| && |f| <= |indexes|
    requires Distinct(indexes) && forall i :: 0 <= i < |indexes| ==> 0 <= indexes[i] < q
    requires forall i :: 0 <= i < |indexes| ==> values[i] == PartialDecrypt(Eval(f, indexes[i] + 1), p, q)
    ensures RecoverCommit(indexes, values, q) == Some(Decrypt(Eval(f, 0), p, q))
  {
    var xs := Abscissas(indexes);
    var ws, shares := Weights(xs, q), Pointwise(Weights(xs, q), Evals(f, xs));
    AbscissasDistinct(indexes, q);
    SumOfShares(ws, Evals(f, xs), values, p, q);
    WeightsSumToOne(xs, q);
    InterpolationExact(xs, f, q);
    CombineShares(Sum(Pointwise(ws, values)), Sum(ws), Sum(shares), p, Eval(f, 0), q);
  }

  lemma CombineShares(total: int, one: int, shared: int, p: Pair, secret: int, q: int)
    requires q > 0 && Congruent(total, p.C * one + (-p.K) * shared, q)
    requires Congruent(one, 1, q) && Congruent(shared, secret, q)
    ensures total % q == Decrypt(secret, p, q)
  {
    CongruentMul(p.C, p.C, one, 1, q);
    CongruentMul(-p.K, -p.K, shared, secret, q);
    CongruentAdd(p.C * one, p.C, (-p.K) * shared, (-p.K) * secret, q);
    assert (-p.K) * secret == -(secret * p.K);
  }

  lemma SumOfShares(ws: seq<int>, ys: seq<int>, values: seq<int>, p: Pair, q: int)
    requires q > 0 && |ws| == |ys| == |values|
    requires forall i :: 0 <= i < |ws| ==> values[i] == PartialDecrypt(ys[i], p, q)
    ensures Congruent(Sum(Pointwise(ws, values)), p.C * Sum(ws) + (-p.K) * Sum(Pointwise(ws, ys)), q)
  {
    var shares, sent := Pointwise(ws, ys), Pointwise(ws, values);
    var exact := Linear(p.C, ws, -p.K, shares);
    forall i | 0 <= i < |ws|
      ensures Congruent(sent[i], exact[i], q)
    {
      WeightedShare(ws[i], ys[i], p, q);
    }
    hide Congruent, Sum, Linear, Pointwise, PartialDecrypt;
    SumCongruent(sent, exact, q);
    SumLinear(p.C, ws, -p.K, shares);
  }

  lemma WeightedShare(w: int, y: int, p: Pair, q: int)
    requires q > 0
    ensures Congruent(w * PartialDecrypt(y, p, q), p.C * w + (-p.K) * (w * y), q)
  {
    var exact := p.C - y * p.K;
    CongruentMod(exact, q);
    CongruentMul(w, w, exact % q, exact, q);
    ShareIdentity(w, p.C, y, p.K);
  }

  lemma ShareIdentity(w: int, c: int, y: int, k: int)
    ensures w * (c - y * k) == c * w + (-k) * (w * y)
  {
    assert w * (c - y * k) == w * c - w * (y * k);
    Associate(w, y, k);
  }

  /** Encryption under the distributed key is undone by the secret it belongs to. */
  lemma EncryptThenDecrypt(m: int, r: int, secret: int, pubkey: int, q: int)
    requires q > 0 && Congruent(pubkey, secret, q)
    ensures Decrypt(secret, Encrypt(m, r, pubkey, q), q) == m % q
  {
    CongruentMod(r, q);
    CongruentMul(secret, pubkey, r % q, r, q);
    BlindingCancels(m, r * pubkey, secret * (r % q), q);
  }

  lemma BlindingCancels(m: int, b: int, c: int, q: int)
    requires q > 0 && Congruent(c, b, q)
    ensures ((b + m) % q - c) % q == m % q
  {
    CongruentMod(b + m, q);
    CongruentAdd((b + m) % q, b + m, c, b, q);
  }

  /** `out` is `p` blinded again with the scalar r. */
  predicate Blinds(p: Pair, out: Pair, r: int, pubkey: int, q: int)
    requires q > 0
  {
    Congruent(out.K, p.K + r, q) && Congruent(out.C, p.C + r * pubkey, q)
  }

  ghost predicate IsReencryption(p: Pair, out: Pair, pubkey: int, q: int)
    requires q > 0
  {
    exists r :: Blinds(p, out, r, pubkey, q)
  }

  lemma ReencryptionKeepsPlaintext(p: Pair, out: Pair, secret: int, pubkey: int, q: int)
    requires q > 0 && Congruent(pubkey, secret, q)
    requires IsReencryption(p, out, pubkey, q)
    ensures Decrypt(secret, out, q) == Decrypt(secret, p, q)
  {
    var r :| Blinds(p, out, r, pubkey, q);
    CongruentMul(secret, secret, out.K, p.K + r, q);
    CongruentMul(r, r, pubkey, secret, q);
    CongruentAdd(p.C, p.C, r * pubkey, r * secret, q);
    CongruentAdd(out.C, p.C + r * secret, secret * out.K, secret * (p.K + r), q);
    assert p.C + r * secret - secret * (p.K + r) == p.C - secret * p.K;
  }
}
