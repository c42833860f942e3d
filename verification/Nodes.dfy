/** What the shuffling and decrypting nodes compute from the ballot lists they read. */
module Nodes {
  import opened Wrappers
  import opened Interpolation
  import opened ElGamal
  import opened Suffragia
  import opened Blocks
  import opened Ledger
  import opened Invariant
  import opened Runs
  import opened Tally
  import opened Lifecycle
  import Dkg

  // ----- Ballot lists and their rows

  /** Every ballot has exactly the pairs of the first one. */
  predicate Uniform(cvs: seq<Ciphervote>) {
    cvs != [] && forall i :: 0 <= i < |cvs| ==> |cvs[i]| == |cvs[0]|
  }

  /** Every row reaches the given width. */
  predicate Reach(m: Matrix, width: nat) {
    forall j :: 0 <= j < |m| ==> |m[j]| >= width
  }

  /** The first `width` entries of every row. */
  function Trimmed(m: Matrix, width: nat): (r: Matrix)
    requires Reach(m, width)
  {
    seq(|m|, j requires 0 <= j < |m| => m[j][..width])
  }

  lemma TrimWhole(m: Matrix, width: nat)
    requires SameRows(m, |m|, width)
    ensures Trimmed(m, width) == m
  {
    forall j | 0 <= j < |m|
      ensures Trimmed(m, width)[j] == m[j]
    {
    }
  }

  /** The ballots under the columns of two row lists, as many as the first row is long; none when the lists
      differ in length or are empty, or when a row is too short to be read. Longer rows are cut. */
  method CiphervotesFromPairs(X: Matrix, Y: Matrix) returns (r: Option<seq<Ciphervote>>)
    ensures r.Some? <==> |X| == |Y| && X != [] && Reach(X, |X[0]|) && Reach(Y, |X[0]|)
    ensures r.Some? && |X[0]| == 0 ==> r.value == []
    ensures r.Some? && |X[0]| > 0 ==>
              Uniform(r.value) && KRows(r.value) == Trimmed(X, |X[0]|) && CRows(r.value) == Trimmed(Y, |X[0]|)
  {
    if |X| != |Y| { return None; }
    if |X| == 0 { return None; }
    var NQ, k := |X|, |X[0]|;
    var res: seq<Ciphervote> := [];
    for j := 0 to NQ
      invariant forall b :: 0 <= b < j ==> |X[b]| >= k && |Y[b]| >= k
    {
      // an index out of range stops the node
      if |X[j]| < k || |Y[j]| < k { return None; }
    }
    for i := 0 to k
      invariant |res| == i
      invariant forall a :: 0 <= a < i ==> |res[a]| == NQ
      invariant forall a, j :: 0 <= a < i && 0 <= j < NQ ==> res[a][j] == Pair(X[j][a], Y[j][a])
    {
      var cv: Ciphervote := [];
      for j := 0 to NQ
        invariant |cv| == j && forall b :: 0 <= b < j ==> cv[b] == Pair(X[b][i], Y[b][i])
      {
        cv := cv + [Pair(X[j][i], Y[j][i])];
      }
      res := res + [cv];
    }
    if k > 0 {
      assert Uniform(res) && |res[0]| == NQ;
      forall j | 0 <= j < NQ
        ensures KRows(res)[j] == Trimmed(X, k)[j] && CRows(res)[j] == Trimmed(Y, k)[j]
      {
      }
    }
    return Some(res);
  }

  /** The rows of a uniform list determine it; so turning a list to rows and back is the identity. */
  lemma RowsDetermineBallots(a: seq<Ciphervote>, b: seq<Ciphervote>)
    requires Uniform(a) && Uniform(b) && a[0] != []
    requires KRows(a) == KRows(b) && CRows(a) == CRows(b)
    ensures a == b
  {
    assert |a[0]| == |KRows(a)| == |KRows(b)| == |b[0]|;
    assert |a| == |KRows(a)[0]| == |KRows(b)[0]| == |b|;
    forall i | 0 <= i < |a|
      ensures a[i] == b[i]
    {
      forall j | 0 <= j < |a[0]|
        ensures a[i][j] == b[i][j]
      {
        assert a[i][j].K == KRows(a)[j][i] == KRows(b)[j][i] == b[i][j].K;
        assert a[i][j].C == CRows(a)[j][i] == CRows(b)[j][i] == b[i][j].C;
      }
    }
  }

  // ----- Equality of two ballots

  method Equal(c: Ciphervote, other: Ciphervote) returns (eq: bool)
    ensures eq <==> c == other
  {
    if |c| != |other| { return false; }
    for i := 0 to |c|
      invariant forall j :: 0 <= j < i ==> c[j] == other[j]
    {
      if c[i].K != other[i].K || c[i].C != other[i].C { return false; }
    }
    eq := true;
  }

  // ----- A node's shares

  /** The shares of one node for a shuffled list: one partial decryption for every pair of every ballot. */
  method PublicShares(q: Modulus, share: int, ballots: seq<Ciphervote>) returns (unit: PubsharesUnit)
    ensures SameShape(unit, ballots)
    ensures forall i, j :: 0 <= i < |ballots| && 0 <= j < |ballots[i]| ==>
              unit[i][j] == PartialDecrypt(share, ballots[i][j], q)
  {
    hide PartialDecrypt;
    unit := [];
    for i := 0 to |ballots|
      invariant |unit| == i
      invariant forall a :: 0 <= a < i ==> |unit[a]| == |ballots[a]|
      invariant forall a, b :: 0 <= a < i && 0 <= b < |ballots[a]| ==>
                unit[a][b] == PartialDecrypt(share, ballots[a][b], q)
    {
      var ballot, shares: seq<int> := ballots[i], [];
      for j := 0 to |ballot|
        invariant |shares| == j && forall b :: 0 <= b < j ==> shares[b] == PartialDecrypt(share, ballot[b], q)
      {
        shares := shares + [PartialDecrypt(share, ballot[j], q)];
      }
      unit := unit + [shares];
    }
  }

  /** A node whose share is its point of the key polynomial submits an honest unit, of a shape that the
      contract accepts. */
  method HonestNode(q: Modulus, key: seq<int>, index: nat, ballots: seq<Ciphervote>) returns (unit: PubsharesUnit)
    requires index < q
    ensures SameShape(unit, ballots) && HonestUnit(q, key, ballots, index, unit)
  {
    hide PartialDecrypt, Eval;
    unit := PublicShares(q, Eval(key, index + 1), ballots);
  }

  /** A node computes its shares once, from the shuffled form it reads at point m, and submits them until
      they are in. Whenever the transaction runs, the shares still fit: it is accepted exactly while shares
      are collected and neither the node nor its index has submitted; and the shares are honest for the
      ballots that the contract then decrypts. */
  lemma SharesNeverStale(env: Env, run: Run, m: nat, n: nat, key: seq<int>)
    requires ValidThreshold(env) && AdmissibleRun(env, run) && m <= n < |run|
    requires run[n].RegisterPubShares? && run[n].form in At(env, run, m).forms && run[n].form in At(env, run, n).forms
    requires var f, tx := At(env, run, m).forms[run[n].form], run[n];
             && f.status == ShuffledBallots && f.shuffles != [] && SameShape(tx.pubshares, LastBallots(f))
             && HonestUnit(env.q, key, LastBallots(f), tx.index, tx.pubshares)
             && env.sharesSigned(tx.publicKey, tx.form, tx.index, tx.pubshares, tx.signature)
    ensures var g, tx := At(env, run, n).forms[run[n].form], run[n];
            && (Apply(env, At(env, run, n), tx).ok <==>
                  && g.status == ShuffledBallots && tx.publicKey in g.roster
                  && tx.publicKey !in g.units.pubKeys && tx.index !in g.units.indexes)
            && g.shuffles != [] && SameShape(tx.pubshares, LastBallots(g))
            && HonestUnit(env.q, key, LastBallots(g), tx.index, tx.pubshares)
  {
    hide Apply, At, CastLog, AdmissibleRun, HonestUnit, SameShape, SharesAllowed;
    FormOnlyAdvances(env, run, m, n, run[n].form);
    SharesVerdict(env, At(env, run, n), run[n]);
    SharesStillFit(env, At(env, run, m).forms[run[n].form], At(env, run, n).forms[run[n].form], run[n]);
  }

  lemma SharesStillFit(env: Env, f: Form, g: Form, tx: Tx)
    requires tx.RegisterPubShares? && f.shuffles != [] && g.shuffles == f.shuffles
    requires SameShape(tx.pubshares, LastBallots(f))
    requires env.sharesSigned(tx.publicKey, tx.form, tx.index, tx.pubshares, tx.signature)
    ensures SharesAllowed(env, g, tx) <==>
              && g.status == ShuffledBallots && tx.publicKey in g.roster
              && tx.publicKey !in g.units.pubKeys && tx.index !in g.units.indexes
  {
  }

  lemma SharesVerdict(env: Env, st: Store, tx: Tx)
    requires tx.RegisterPubShares? && tx.form in st.forms
    ensures Apply(env, st, tx).ok <==> SharesAllowed(env, st.forms[tx.form], tx)
  {
  }

  // ----- The key polynomial and the form

  /** The key generation of the form's roster and the contract take the threshold from the same function of
      the same number, so a key polynomial with one coefficient for each needed node has exactly as many
      coefficients as the contract combines shares. */
  lemma KeyFitsForm(env: Env, run: Run, form: Key, lib: Dkg.Library, actions: seq<Dkg.Action>, i: nat, key: seq<int>)
    requires ValidThreshold(env) && AdmissibleRun(env, run) && form in After(env, run).forms
    requires lib.threshold == env.threshold
    requires Dkg.OneStart(actions) && i < |actions| && actions[i].ReceiveStart?
    requires |actions[i].start.addresses| == |After(env, run).forms[form].roster|
    requires Dkg.Schedule(lib, actions).worker != Dkg.Absent
    requires |key| == Dkg.Schedule(lib, actions).threshold
    ensures |key| == After(env, run).forms[form].threshold
  {
    ReachableInv(env, run);
    hide After, AdmissibleRun, Dkg.Schedule;
    Dkg.StartedThreshold(lib, actions, i);
    assert FormInv(env, After(env, run).forms[form]);
  }
}
