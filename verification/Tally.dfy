/** Conservation of votes: the published ballots are exactly the last ballot of every voter. */
module Tally {
  import opened Wrappers
  import opened Sequences
  import opened PrimeField
  import opened Interpolation
  import opened ElGamal
  import opened Configuration
  import opened BallotReader
  import opened Suffragia
  import opened Blocks
  import opened Ledger
  import opened Invariant
  import opened Runs

  // ----- What is assumed of an accepted shuffle proof

  ghost predicate SameRows(m: Matrix, rows: nat, width: nat) {
    |m| == rows && forall j :: 0 <= j < rows ==> |m[j]| == width
  }

  /** The output columns are the input columns, permuted and re-encrypted pair by pair. */
  ghost predicate IsShuffle(q: Modulus, pubkey: int, X: Matrix, Y: Matrix, XX: Matrix, YY: Matrix) {
    && |X| > 0
    && SameRows(X, |X|, |X[0]|) && SameRows(Y, |X|, |X[0]|) && SameRows(XX, |X|, |X[0]|) && SameRows(YY, |X|, |X[0]|)
    && exists order: seq<nat> :: ShufflesBy(q, pubkey, X, Y, XX, YY, order)
  }

  ghost predicate ShufflesBy(q: Modulus, pubkey: int, X: Matrix, Y: Matrix, XX: Matrix, YY: Matrix, order: seq<nat>)
    requires |X| > 0
    requires SameRows(X, |X|, |X[0]|) && SameRows(Y, |X|, |X[0]|) && SameRows(XX, |X|, |X[0]|)
              && SameRows(YY, |X|, |X[0]|)
  {
    && |order| == |X[0]| && IsPermutation(order)
    && forall j, i :: 0 <= j < |X| && 0 <= i < |X[0]| ==>
         && order[i] < |X[0]|
         && IsReencryption(Pair(X[j][order[i]], Y[j][order[i]]), Pair(XX[j][i], YY[j][i]), pubkey, q)
  }

  /** As many ballots as before, and as many chunks. The contract compares neither. */
  predicate SameSize(a: seq<Ciphervote>, b: seq<Ciphervote>) {
    a != [] && b != [] && |a| == |b| && |a[0]| == |b[0]|
  }

  /** A proof that verifies, for a list of the same size and the random vector that the contract derives,
      is the proof of a shuffle. */
  ghost predicate SoundProver(env: Env) {
    forall form: Key, pubkey: int, input: seq<Ciphervote>, s: ShuffleInstance ::
      Proves(env, Some(pubkey), input, s) && SameSize(input, s.ballots)
      && env.vector(form, s.ballots, |input[0]|) == Some(s.vector)
      ==> IsShuffle(env.q, pubkey, KRows(input), CRows(input), KRows(s.ballots), CRows(s.ballots))
  }

  /** Every accepted shuffle has the size of its input. */
  ghost predicate SizesKept(f: Form, log: Log) {
    forall r :: 0 <= r < |f.shuffles| ==> SameSize(InputOf(f, log, r), f.shuffles[r].ballots)
  }

  // ----- Plaintexts

  /** The points under the first n pairs of a ballot. */
  function Plain(q: Modulus, secret: int, cv: Ciphervote, n: nat): (points: seq<int>)
    requires n <= |cv|
  {
    seq(n, j requires 0 <= j < n => Decrypt(secret, cv[j], q))
  }

  function Plains(q: Modulus, secret: int, cvs: seq<Ciphervote>): (r: seq<seq<int>>)
    requires Rectangular(cvs)
    ensures |r| == |cvs|
  {
    seq(|cvs|, i requires 0 <= i < |cvs| => Plain(q, secret, cvs[i], |cvs[0]|))
  }

  /** A shuffle keeps the number of ballots, their width, and the multiset of their plaintexts. */
  lemma ShuffleKeepsPlaintexts(q: Modulus, pubkey: int, secret: int, a: seq<Ciphervote>, b: seq<Ciphervote>)
    requires Congruent(pubkey, secret, q) && Rectangular(a) && Rectangular(b)
    requires IsShuffle(q, pubkey, KRows(a), CRows(a), KRows(b), CRows(b))
    ensures |a| == |b| && |a[0]| == |b[0]|
    ensures multiset(Plains(q, secret, a)) == multiset(Plains(q, secret, b))
  {
    var X, Y, XX, YY := KRows(a), CRows(a), KRows(b), CRows(b);
    var order :| ShufflesBy(q, pubkey, X, Y, XX, YY, order);
    assert |X[0]| == |a| && |XX[0]| == |b|;
    PermutationFacts(order);
    var before, after := Plains(q, secret, a), Plains(q, secret, b);
    forall i | 0 <= i < |b|
      ensures order[i] < |a| && after[i] == before[order[i]]
    {
      assert order[i] in order;
      PlainOfShuffled(q, pubkey, secret, a, b, order, i);
    }
    ImageMultiset(order, after, Range(|a|), before);
  }

  lemma PlainOfShuffled(q: Modulus, pubkey: int, secret: int, a: seq<Ciphervote>, b: seq<Ciphervote>, order: seq<nat>,
      i: nat)
    requires Congruent(pubkey, secret, q) && Rectangular(a) && Rectangular(b) && |a| == |b| && |a[0]| == |b[0]|
    requires |order| == |a| && i < |a| && order[i] < |a|
    requires forall j, i :: 0 <= j < |a[0]| && 0 <= i < |a| ==>
               && order[i] < |a|
               && IsReencryption(Pair(KRows(a)[j][order[i]], CRows(a)[j][order[i]]),
                   Pair(KRows(b)[j][i], CRows(b)[j][i]), pubkey, q)
    ensures Plain(q, secret, b[i], |b[0]|) == Plain(q, secret, a[order[i]], |a[0]|)
  {
    hide Decrypt, IsReencryption, Congruent;
    forall j | 0 <= j < |a[0]|
      ensures Decrypt(secret, b[i][j], q) == Decrypt(secret, a[order[i]][j], q)
    {
      var p, out := Pair(KRows(a)[j][order[i]], CRows(a)[j][order[i]]), Pair(KRows(b)[j][i], CRows(b)[j][i]);
      assert p == a[order[i]][j] && out == b[i][j];
      ReencryptionKeepsPlaintext(p, out, secret, pubkey, q);
    }
  }

  /** The cast votes have one pair for each chunk. */
  lemma VotesSized(f: Form, log: Log)
    requires FullSized(f, log)
    ensures forall i :: 0 <= i < |LatestVotes(log).ciphervotes| ==>
              |LatestVotes(log).ciphervotes[i]| == ChunksPerBallot(f.ballotSize)
  {
    LatestVotesCorrect(log);
    hide LatestVotes;
    forall i | 0 <= i < |LatestVotes(log).ciphervotes|
      ensures |LatestVotes(log).ciphervotes[i]| == ChunksPerBallot(f.ballotSize)
    {
      LastBallotSized(f, log, LatestVotes(log).voterIDs[i]);
    }
  }

  lemma VerifiedIsShuffle(env: Env, form: Key, pubkey: int, input: seq<Ciphervote>, s: ShuffleInstance)
    requires SoundProver(env) && Proves(env, Some(pubkey), input, s) && SameSize(input, s.ballots)
    requires env.vector(form, s.ballots, |input[0]|) == Some(s.vector)
    ensures IsShuffle(env.q, pubkey, KRows(input), CRows(input), KRows(s.ballots), CRows(s.ballots))
  {
  }

  lemma ProvesRectangular(env: Env, pubkey: Option<int>, input: seq<Ciphervote>, s: ShuffleInstance)
    requires Proves(env, pubkey, input, s)
    ensures Rectangular(input) && Rectangular(s.ballots)
  {
  }

  /** One verified shuffle of the right size. */
  lemma VerifiedKeepsPlaintexts(env: Env, form: Key, pubkey: int, secret: int, input: seq<Ciphervote>,
      s: ShuffleInstance)
    requires SoundProver(env) && Proves(env, Some(pubkey), input, s) && SameSize(input, s.ballots)
    requires env.vector(form, s.ballots, |input[0]|) == Some(s.vector) && Congruent(pubkey, secret, env.q)
    ensures Rectangular(input) && Rectangular(s.ballots)
    ensures multiset(Plains(env.q, secret, input)) == multiset(Plains(env.q, secret, s.ballots))
  {
    ProvesRectangular(env, Some(pubkey), input, s);
    hide Proves, SoundProver, IsShuffle, Rectangular, Plains;
    VerifiedIsShuffle(env, form, pubkey, input, s);
    ShuffleKeepsPlaintexts(env.q, pubkey, secret, input, s.ballots);
  }

  lemma FirstInput(env: Env, key: Key, f: Form, log: Log)
    requires Chained(env, key, f, log) && FullSized(f, log) && f.shuffles != []
    ensures Rectangular(InputOf(f, log, 0)) && |InputOf(f, log, 0)[0]| == ChunksPerBallot(f.ballotSize)
  {
    VotesSized(f, log);
    hide LatestVotes;
    assert Linked(env, key, f, log, 0);
  }

  lemma LinkAt(env: Env, key: Key, f: Form, log: Log, r: nat)
    requires Chained(env, key, f, log) && SizesKept(f, log) && r < |f.shuffles|
    ensures Proves(env, f.pubkey, InputOf(f, log, r), f.shuffles[r])
              && SameSize(InputOf(f, log, r), f.shuffles[r].ballots)
    ensures env.vector(key, f.shuffles[r].ballots, ChunksPerBallot(f.ballotSize)) == Some(f.shuffles[r].vector)
  {
    hide LatestVotes, Proves;
    assert Linked(env, key, f, log, r);
  }

  /** All shuffles together keep the plaintexts of the cast votes, and their sizes. */
  lemma {:induction false} ShufflesKeepPlaintexts(env: Env, key: Key, f: Form, secret: int, log: Log, r: nat)
    requires SoundProver(env) && Chained(env, key, f, log) && FullSized(f, log) && SizesKept(f, log)
    requires f.shuffles != [] && r <= |f.shuffles|
    requires f.pubkey.Some? && Congruent(f.pubkey.value, secret, env.q)
    ensures Rectangular(InputOf(f, log, 0)) && Rectangular(InputOf(f, log, r))
    ensures |InputOf(f, log, r)[0]| == ChunksPerBallot(f.ballotSize)
    ensures multiset(Plains(env.q, secret, InputOf(f, log, r))) == multiset(Plains(env.q, secret, InputOf(f, log, 0)))
  {
    hide LatestVotes, SoundProver, FullSized, Congruent, Plains, Proves, Rectangular, Chained, SizesKept;
    if r == 0 {
      FirstInput(env, key, f, log);
    } else {
      ShufflesKeepPlaintexts(env, key, f, secret, log, r - 1);
      LinkAt(env, key, f, log, r - 1);
      VerifiedKeepsPlaintexts(env, key, f.pubkey.value, secret, InputOf(f, log, r - 1), f.shuffles[r - 1]);
    }
  }

  // ----- Decryption

  /** The bytes embedded in a list of points. */
  function Embedded(env: Env, points: seq<int>): (r: Option<string>) {
    if points == [] then Some("")
    else
      var front, last := Embedded(env, points[..|points| - 1]), env.data(points[|points| - 1]);
      if front.None? || last.None? then None else Some(front.value + last.value)
  }

  /** Every submitted share is a node's true partial decryption under the key polynomial. */
  ghost predicate HonestShares(env: Env, f: Form, key: seq<int>)
    requires Decryptable(f)
  {
    forall u :: 0 <= u < |f.units.indexes| ==>
        HonestUnit(env.q, key, LastBallots(f), f.units.indexes[u], f.units.pubshares[u])
  }

  ghost predicate HonestUnit(q: Modulus, key: seq<int>, ballots: seq<Ciphervote>, index: int, unit: PubsharesUnit)
    requires SameShape(unit, ballots)
  {
    && 0 <= index < q
    && forall i, j :: 0 <= i < |ballots| && 0 <= j < |ballots[i]| ==>
         unit[i][j] == PartialDecrypt(Eval(key, index + 1), ballots[i][j], q)
  }

  lemma ChunkDecrypts(env: Env, f: Form, key: seq<int>, i: nat, j: nat)
    requires IsPrime(env.q) && Decryptable(f) && HonestShares(env, f, key)
    requires Distinct(f.units.indexes) && f.units.indexes != [] && |key| <= |f.units.indexes|
    requires i < |LastBallots(f)| && j < |LastBallots(f)[i]|
    ensures DecryptChunk(env, f, i, j) == env.data(Decrypt(Eval(key, 0), LastBallots(f)[i][j], env.q))
  {
    hide Decrypt, PartialDecrypt, Eval, IsPrime, RecoverCommit;
    var indexes, values := f.units.indexes, SharesAt(f, i, j);
    forall u | 0 <= u < |indexes|
      ensures 0 <= indexes[u] < env.q
      ensures values[u] == PartialDecrypt(Eval(key, indexes[u] + 1), LastBallots(f)[i][j], env.q)
    {
      assert HonestUnit(env.q, key, LastBallots(f), indexes[u], f.units.pubshares[u]);
    }
    ThresholdDecryption(key, indexes, values, LastBallots(f)[i][j], env.q);
  }

  lemma {:induction false} TextDecrypts(env: Env, f: Form, key: seq<int>, i: nat, n: nat)
    requires IsPrime(env.q) && Decryptable(f) && HonestShares(env, f, key)
    requires Distinct(f.units.indexes) && f.units.indexes != [] && |key| <= |f.units.indexes|
    requires i < |LastBallots(f)| && n <= |LastBallots(f)[0]|
    ensures DecryptText(env, f, i, n) == Embedded(env, Plain(env.q, Eval(key, 0), LastBallots(f)[i], n))
  {
    hide HonestShares, DecryptChunk, Decrypt, Eval, IsPrime;
    if n > 0 {
      var cv, secret := LastBallots(f)[i], Eval(key, 0);
      TextDecrypts(env, f, key, i, n - 1);
      ChunkDecrypts(env, f, key, i, n - 1);
      assert Plain(env.q, secret, cv, n)[..n - 1] == Plain(env.q, secret, cv, n - 1);
    }
  }

  /** The ballot under a list of points. */
  function BallotUnder(env: Env, c: Config, points: seq<int>): (b: Results) {
    Unmarshaled(c, Embedded(env, points).GetOr("")).ballot
  }

  lemma RevealedIsPlain(env: Env, f: Form, key: seq<int>)
    requires IsPrime(env.q) && Revealed(env, f).Some? && HonestShares(env, f, key)
    requires Distinct(f.units.indexes) && f.units.indexes != [] && |key| <= |f.units.indexes|
    ensures var plains := Plains(env.q, Eval(key, 0), LastBallots(f));
            && |Revealed(env, f).value| == |plains|
            && forall i :: 0 <= i < |plains| ==>
                 Embedded(env, plains[i]).Some? && Revealed(env, f).value[i] == BallotUnder(env, f.config, plains[i])
  {
    hide HonestShares, DecryptText, Embedded, Unmarshaled, Eval, IsPrime, Plain;
    forall i | 0 <= i < |LastBallots(f)|
      ensures BallotText(env, f, i) == Embedded(env, Plains(env.q, Eval(key, 0), LastBallots(f))[i])
    {
      TextDecrypts(env, f, key, i, |LastBallots(f)[0]|);
    }
  }

  // ----- Conservation

  /** A list of everyone who cast a ballot, each once. */
  ghost predicate Voters(log: Log, voters: seq<string>) {
    Distinct(voters) && forall v :: v in voters <==> LastBallot(log, v).Some?
  }

  /** The ballot that a voter cast last, as the secret key reads it. */
  function VoterBallot(env: Env, f: Form, secret: int, log: Log, voter: string): (b: Results) {
    var cv := LastBallot(log, voter).GetOr([]);
    BallotUnder(env, f.config, Plain(env.q, secret, cv, |cv|))
  }

  function VoterBallots(env: Env, f: Form, secret: int, log: Log, voters: seq<string>): (bs: seq<Results>) {
    seq(|voters|, i requires 0 <= i < |voters| => VoterBallot(env, f, secret, log, voters[i]))
  }

  lemma SameVoters(log: Log, a: seq<string>, b: seq<string>)
    requires Voters(log, a) && Voters(log, b)
    ensures multiset(a) == multiset(b)
  {
    DistinctMultiplicity(a);
    DistinctMultiplicity(b);
    forall x
      ensures multiset(a)[x] == multiset(b)[x]
    {
      assert x in a <==> x in multiset(a);
      assert x in b <==> x in multiset(b);
    }
  }

  /** The plaintexts of the latest votes are the voters' last ballots. */
  lemma LatestPlains(env: Env, f: Form, secret: int, log: Log)
    requires FullSized(f, log) && Rectangular(LatestVotes(log).ciphervotes)
    ensures var votes := LatestVotes(log);
            && |votes.voterIDs| == |votes.ciphervotes|
            && forall i :: 0 <= i < |votes.voterIDs| ==>
                 BallotUnder(env, f.config, Plains(env.q, secret, votes.ciphervotes)[i])
                   == VoterBallot(env, f, secret, log, votes.voterIDs[i])
  {
    LatestVotesCorrect(log);
    VotesSized(f, log);
    hide BallotUnder, LatestVotes, LastBallot;
  }

  lemma {:induction false} LastBallotSized(f: Form, log: Log, voter: string)
    requires FullSized(f, log) && LastBallot(log, voter).Some?
    ensures |LastBallot(log, voter).value| == ChunksPerBallot(f.ballotSize)
  {
    if log[|log| - 1].voterID != voter {
      LastBallotSized(f, log[..|log| - 1], voter);
    }
  }

  lemma FormConservation(env: Env, form: Key, f: Form, log: Log, key: seq<int>, voters: seq<string>)
    requires IsPrime(env.q) && SoundProver(env) && FormInv(env, f) && f.status == ResultAvailable
    requires Revealed(env, f) == Some(f.decrypted) && FullSized(f, log) && Chained(env, form, f, log)
    requires SizesKept(f, log)
    requires |key| <= f.threshold && Congruent(f.pubkey.value, Eval(key, 0), env.q)
    requires HonestShares(env, f, key)
    requires Voters(log, voters)
    ensures multiset(f.decrypted) == multiset(VoterBallots(env, f, Eval(key, 0), log, voters))
  {
    hide IsPrime, SoundProver, SettingsInv, ShufflesInv, Chained, FullSized, SizesKept, HonestShares, Embedded, Plains;
    hide BallotUnder, Revealed, VoterBallot, Eval, Congruent, Voters;
    var secret, votes := Eval(key, 0), LatestVotes(log);
    RevealedIsPlain(env, f, key);
    ShufflesKeepPlaintexts(env, form, f, secret, log, |f.shuffles|);
    assert InputOf(f, log, |f.shuffles|) == LastBallots(f);
    LatestPlains(env, f, secret, log);
    hide LatestVotes;
    ConservationStep(env, f, secret, log, Plains(env.q, secret, LastBallots(f)),
        Plains(env.q, secret, votes.ciphervotes), voters);
  }

  lemma ConservationStep(env: Env, f: Form, secret: int, log: Log, last: seq<seq<int>>, first: seq<seq<int>>,
      voters: seq<string>)
    requires multiset(last) == multiset(first) && |f.decrypted| == |last| && |first| == |LatestVotes(log).voterIDs|
    requires forall i :: 0 <= i < |last| ==> f.decrypted[i] == BallotUnder(env, f.config, last[i])
    requires forall i :: 0 <= i < |first| ==>
               BallotUnder(env, f.config, first[i]) == VoterBallot(env, f, secret, log, LatestVotes(log).voterIDs[i])
    requires Voters(log, voters)
    ensures multiset(f.decrypted) == multiset(VoterBallots(env, f, secret, log, voters))
  {
    hide BallotUnder, VoterBallot, LatestVotes;
    var ids := LatestVotes(log).voterIDs;
    var listed := VoterBallots(env, f, secret, log, ids);
    ImageMultiset(last, f.decrypted, first, listed);
    LatestVotesCorrect(log);
    SameVoters(log, ids, voters);
    ImageMultiset(ids, listed, voters, VoterBallots(env, f, secret, log, voters));
  }

  // ----- When a result can be published

  /** The voter's last ballot decrypts to points that all carry bytes. */
  predicate Legible(env: Env, secret: int, log: Log, voter: string) {
    var cv := LastBallot(log, voter).GetOr([]);
    Embedded(env, Plain(env.q, secret, cv, |cv|)).Some?
  }

  lemma RevealedWhenLegible(env: Env, f: Form, key: seq<int>)
    requires IsPrime(env.q) && Decryptable(f) && HonestShares(env, f, key)
    requires Distinct(f.units.indexes) && f.units.indexes != [] && |key| <= |f.units.indexes|
    ensures Revealed(env, f).Some? <==>
              forall p :: p in Plains(env.q, Eval(key, 0), LastBallots(f)) ==> Embedded(env, p).Some?
  {
    hide HonestShares, DecryptText, Embedded, Unmarshaled, Eval, IsPrime, Plain;
    var plains := Plains(env.q, Eval(key, 0), LastBallots(f));
    forall i | 0 <= i < |LastBallots(f)|
      ensures BallotText(env, f, i) == Embedded(env, plains[i])
    {
      TextDecrypts(env, f, key, i, |LastBallots(f)[0]|);
    }
    if Revealed(env, f).Some? {
      forall p | p in plains
        ensures Embedded(env, p).Some?
      {
        var i :| 0 <= i < |plains| && plains[i] == p;
        assert BallotText(env, f, i).Some?;
      }
    } else {
      var i :| 0 <= i < |LastBallots(f)| && BallotText(env, f, i).None?;
      assert plains[i] in plains;
    }
  }

  lemma SameElements<T>(a: seq<T>, b: seq<T>)
    requires multiset(a) == multiset(b)
    ensures forall x :: x in a <==> x in b
  {
    forall x
      ensures x in a <==> x in b
    {
      assert x in multiset(a) <==> x in multiset(b);
    }
  }

  lemma VotesLegible(env: Env, f: Form, secret: int, log: Log, voters: seq<string>)
    requires FullSized(f, log) && Rectangular(LatestVotes(log).ciphervotes) && Voters(log, voters)
    ensures (forall p :: p in Plains(env.q, secret, LatestVotes(log).ciphervotes) ==> Embedded(env, p).Some?)
       <==> (forall v :: v in voters ==> Legible(env, secret, log, v))
  {
    var votes := LatestVotes(log);
    var plains := Plains(env.q, secret, votes.ciphervotes);
    LatestVotesCorrect(log);
    VotesSized(f, log);
    hide LatestVotes, LastBallot, Embedded, Plain;
    forall i | 0 <= i < |votes.voterIDs|
      ensures Legible(env, secret, log, votes.voterIDs[i]) <==> Embedded(env, plains[i]).Some?
      ensures plains[i] in plains && votes.voterIDs[i] in voters
    {
      assert votes.voterIDs[i] in votes.voterIDs;
    }
    if forall p :: p in plains ==> Embedded(env, p).Some? {
      forall v | v in voters
        ensures Legible(env, secret, log, v)
      {
        var i :| 0 <= i < |votes.voterIDs| && votes.voterIDs[i] == v;
      }
    }
  }

  /** A result can be published exactly when the last ballot of every voter decrypts to points that carry
      bytes. A single ballot that does not keeps all the others unpublished. */
  lemma PublishableWhenLegible(env: Env, form: Key, f: Form, log: Log, key: seq<int>, voters: seq<string>)
    requires IsPrime(env.q) && SoundProver(env) && FormInv(env, f) && f.status == PubSharesSubmitted
    requires FullSized(f, log) && Chained(env, form, f, log) && SizesKept(f, log)
    requires |key| <= f.threshold && Congruent(f.pubkey.value, Eval(key, 0), env.q)
    requires HonestShares(env, f, key)
    requires Voters(log, voters)
    ensures Revealed(env, f).Some? <==> forall v :: v in voters ==> Legible(env, Eval(key, 0), log, v)
  {
    hide IsPrime, SoundProver, SettingsInv, ShufflesInv, Chained, FullSized, SizesKept, HonestShares, Embedded, Plains;
    hide Revealed, Eval, Congruent, Voters, LatestVotes, Legible;
    var secret, n := Eval(key, 0), |f.shuffles|;
    FormDecryptable(env, f);
    RevealedWhenLegible(env, f, key);
    ShufflesKeepPlaintexts(env, form, f, secret, log, n);
    assert InputOf(f, log, n) == LastBallots(f) && InputOf(f, log, 0) == LatestVotes(log).ciphervotes;
    SameElements(Plains(env.q, secret, LastBallots(f)), Plains(env.q, secret, LatestVotes(log).ciphervotes));
    VotesLegible(env, f, secret, log, voters);
  }

  // ----- Over whole runs

  /** A form of a run with the secret key's polynomial: the assumptions on the group, the proofs, the
      thresholds, the hashes, the number of casts, the key and the shares. */
  ghost predicate Keyed(env: Env, run: Run, form: Key, key: seq<int>) {
    && IsPrime(env.q) && SoundProver(env) && ValidThreshold(env)
    && AdmissibleRun(env, run) && NoCollision(env, After(env, run).forms.Keys)
    && form in After(env, run).forms && |CastLog(env, run, form)| <= COUNT_LIMIT
    && var f := After(env, run).forms[form];
       && |key| <= f.threshold && f.pubkey.Some? && Congruent(f.pubkey.value, Eval(key, 0), env.q)
       && (Decryptable(f) ==> HonestShares(env, f, key))
  }

  /** The form's result is published, after shuffles of whatever size. */
  ghost predicate PublishedAtAnySize(env: Env, run: Run, form: Key, key: seq<int>) {
    Keyed(env, run, form, key) && After(env, run).forms[form].status == ResultAvailable
  }

  /** The form's result is published, after shuffles that kept their sizes. */
  ghost predicate Published(env: Env, run: Run, form: Key, key: seq<int>) {
    && PublishedAtAnySize(env, run, form, key)
    && SizesKept(After(env, run).forms[form], CastLog(env, run, form))
  }

  /** Conservation of votes over whole runs. When a form's result is available, its published ballots
      are, with multiplicity, the last accepted ballot of each voter identifier and nothing else. */
  lemma TallyConservation(env: Env, run: Run, form: Key, key: seq<int>, voters: seq<string>)
    requires Published(env, run, form, key) && Voters(CastLog(env, run, form), voters)
    ensures var f := After(env, run).forms[form];
            multiset(f.decrypted) == multiset(VoterBallots(env, f, Eval(key, 0), CastLog(env, run, form), voters))
  {
    hide SettingsInv, ShufflesInv, UnitsInv, PhaseInv, IsPrime, SoundProver, Revealed, HonestShares, Eval, Congruent;
    hide Chained, FullSized, SizesKept, VoterBallots, Represents;
    ReachableInv(env, run);
    RunRecorded(env, run, form);
    hide After, CastLog, AdmissibleRun;
    FormDecryptable(env, After(env, run).forms[form]);
    FormConservation(env, form, After(env, run).forms[form], CastLog(env, run, form), key, voters);
  }

  /** At any point of a run where all shares are in, the owner can publish the result exactly when every
      voter's last ballot is legible. */
  lemma CombineWhenLegible(env: Env, run: Run, form: Key, key: seq<int>, voters: seq<string>, userID: string)
    requires Keyed(env, run, form, key) && Voters(CastLog(env, run, form), voters)
    requires After(env, run).forms[form].status == PubSharesSubmitted
    requires SizesKept(After(env, run).forms[form], CastLog(env, run, form))
    ensures Apply(env, After(env, run), CombineShares(form, userID)).ok <==>
              && Listed(After(env, run).forms[form].owners, userID)
              && forall v :: v in voters ==> Legible(env, Eval(key, 0), CastLog(env, run, form), v)
  {
    hide SettingsInv, ShufflesInv, UnitsInv, PhaseInv, IsPrime, SoundProver, HonestShares, Eval, Congruent;
    hide Chained, FullSized, SizesKept, Represents, Legible;
    ReachableInv(env, run);
    RunRecorded(env, run, form);
    hide After, CastLog, AdmissibleRun, NoCollision;
    FormDecryptable(env, After(env, run).forms[form]);
    PublishableWhenLegible(env, form, After(env, run).forms[form], CastLog(env, run, form), key, voters);
    hide Revealed;
  }

  lemma FormDecryptable(env: Env, f: Form)
    requires FormInv(env, f) && (f.status == PubSharesSubmitted || f.status == ResultAvailable)
    ensures Decryptable(f)
  {
  }
}
