/** A shuffling node: it reads the form, shuffles what it read, submits, and tries again until its
    shuffle is accepted or there are enough of them. Meanwhile the chain goes on. */
module Shuffling {
  import opened Wrappers
  import opened Sequences
  import opened ElGamal
  import opened Configuration
  import opened Suffragia
  import opened Blocks
  import opened Ledger
  import opened Invariant
  import opened Runs
  import opened Tally
  import opened Lifecycle
  import Contract
  import Nodes

  datatype Rows = Rows(X: Matrix, Y: Matrix)

  /** What the node calls: the shuffle of some rows with given coins, its proof, and the node's key. Proving
      and signing can fail. */
  datatype Library = Library(
    publicKey: Key,
    shuffle: (Option<int>, Matrix, Matrix, nat) -> Rows,
    proof: (Option<int>, Matrix, Matrix, nat, seq<int>) -> Option<string>,
    sign: (Key, seq<Ciphervote>) -> Option<string>)

  ghost predicate SameShapes(X: Matrix, Y: Matrix) {
    X != [] && SameRows(X, |X|, |X[0]|) && SameRows(Y, |X|, |X[0]|)
  }

  ghost predicate KeepsShape(lib: Library) {
    forall pubkey, X, Y, coins :: SameShapes(X, Y) ==>
      var out := lib.shuffle(pubkey, X, Y, coins);
      SameRows(out.X, |X|, |X[0]|) && SameRows(out.Y, |X|, |X[0]|)
  }

  /** Proofs and signatures of an honest node, when it makes them, verify, and the random vector has the
      length asked for. */
  ghost predicate Complete(env: Env, lib: Library) {
    KeepsShape(lib) && ProofsVerify(env, lib) && SignaturesVerify(env, lib) && VectorsFit(env)
  }

  ghost predicate ProofsVerify(env: Env, lib: Library) {
    forall pubkey: Option<int>, X: Matrix, Y: Matrix, coins: nat, vector: seq<int> ::
      pubkey.Some? && SameShapes(X, Y) && |X[0]| >= 2 && lib.proof(pubkey, X, Y, coins, vector).Some? ==>
        var out := lib.shuffle(pubkey, X, Y, coins);
        env.prove(pubkey, X, Y, out.X, out.Y, vector, lib.proof(pubkey, X, Y, coins, vector).value)
  }

  ghost predicate SignaturesVerify(env: Env, lib: Library) {
    forall form, ballots :: lib.sign(form, ballots).Some? ==>
      env.shuffleSigned(lib.publicKey, form, ballots, lib.sign(form, ballots).value)
  }

  ghost predicate VectorsFit(env: Env) {
    forall form, ballots, n :: env.vector(form, ballots, n).Some? ==> |env.vector(form, ballots, n).value| == n
  }

  /** The ballots read can be transposed: there is one, none is shorter than the first, which has a pair. */
  predicate Shufflable(input: Option<seq<Ciphervote>>) {
    input.Some? && Rectangular(input.value) && input.value[0] != []
  }

  /** The rows of the ballots are the shuffled rows of the input. */
  predicate ShuffleOf(lib: Library, pubkey: Option<int>, input: seq<Ciphervote>, coins: nat, ballots: seq<Ciphervote>)
    requires Rectangular(input)
  {
    && Rectangular(ballots)
    && Rows(KRows(ballots), CRows(ballots)) == lib.shuffle(pubkey, KRows(input), CRows(input), coins)
  }

  method GetShuffledBallots(lib: Library, f: Form, blocks: BlockStore, coins: nat) returns (r: Option<seq<Ciphervote>>)
    requires KeepsShape(lib) && AllPaired(blocks)
    ensures r.Some? <==> Shufflable(ShuffleInput(f, blocks))
    ensures r.Some? ==> ShuffleOf(lib, f.pubkey, ShuffleInput(f, blocks).value, coins, r.value)
                        && |r.value| == |ShuffleInput(f, blocks).value|
  {
    var round, ciphervotes := |f.shuffles|, [];
    if round == 0 {
      var suff := ReadSuffragia(f.index, blocks);
      if suff.None? { return None; }
      ciphervotes := suff.value.ciphervotes;
    } else {
      ciphervotes := f.shuffles[round - 1].ballots;
    }
    var fits := Contract.IsRectangular(ciphervotes);
    if !fits || ciphervotes[0] == [] { return None; }
    var X, Y := Contract.CiphervotesToPairs(ciphervotes);
    assert SameShapes(X, Y);
    var out := lib.shuffle(f.pubkey, X, Y, coins);
    r := Nodes.CiphervotesFromPairs(out.X, out.Y);
    Nodes.TrimWhole(out.X, |X[0]|);
    Nodes.TrimWhole(out.Y, |X[0]|);
    assert |KRows(r.value)[0]| == |X[0]|;
  }

  /** The transaction that an honest node makes of what it read. */
  predicate MadeBy(env: Env, lib: Library, f: Form, blocks: BlockStore, coins: nat, tx: Tx) {
    && tx.ShuffleBallots? && Shufflable(ShuffleInput(f, blocks))
    && tx.round == |f.shuffles| && tx.publicKey == lib.publicKey
    && ShuffleOf(lib, f.pubkey, ShuffleInput(f, blocks).value, coins, tx.ballots)
    && env.vector(tx.form, tx.ballots, ChunksPerBallot(f.ballotSize)) == Some(tx.vector)
    && ProofOf(lib, f, ShuffleInput(f, blocks).value, coins, tx.vector) == Some(tx.proof)
    && lib.sign(tx.form, tx.ballots) == Some(tx.signature)
  }

  function ProofOf(lib: Library, f: Form, input: seq<Ciphervote>, coins: nat, vector: seq<int>): (r: Option<string>)
    requires Rectangular(input)
  {
    lib.proof(f.pubkey, KRows(input), CRows(input), coins, vector)
  }

  /** A list that was shuffled gets no transaction: no random vector, no proof or no signature. */
  predicate NoTxFor(env: Env, lib: Library, form: Key, f: Form, input: seq<Ciphervote>, coins: nat,
      ballots: seq<Ciphervote>)
    requires Rectangular(input)
  {
    var e := env.vector(form, ballots, ChunksPerBallot(f.ballotSize));
    e.None? || ProofOf(lib, f, input, coins, e.value).None? || lib.sign(form, ballots).None?
  }

  /** No transaction can be made: the transaction manager fails, the ballots cannot be read or transposed, or
      the shuffled list gets no transaction. */
  ghost predicate CannotMake(env: Env, lib: Library, form: Key, f: Form, blocks: BlockStore, coins: nat,
      managed: bool)
  {
    var input := ShuffleInput(f, blocks);
    managed && Shufflable(input) ==>
      exists ballots ::
        && ShuffleOf(lib, f.pubkey, input.value, coins, ballots) && |ballots| == |input.value|
        && NoTxFor(env, lib, form, f, input.value, coins, ballots)
  }

  method MakeTx(env: Env, lib: Library, form: Key, userID: string, f: Form, blocks: BlockStore, coins: nat,
      managed: bool)
    returns (r: Option<Tx>)
    requires KeepsShape(lib) && AllPaired(blocks)
    ensures r.Some? ==>
              managed && MadeBy(env, lib, f, blocks, coins, r.value) && r.value.form == form && r.value.userID == userID
    ensures r.None? ==> CannotMake(env, lib, form, f, blocks, coins, managed)
  {
    var ballots := GetShuffledBallots(lib, f, blocks, coins);
    if ballots.None? { return None; }
    var input := ShuffleInput(f, blocks).value;
    var e := env.vector(form, ballots.value, ChunksPerBallot(f.ballotSize));
    if e.None? { return None; }
    var proof := ProofOf(lib, f, input, coins, e.value);
    if proof.None? { return None; }
    var signature := lib.sign(form, ballots.value);
    if signature.None? { return None; }
    if !managed { return None; }
    return Some(ShuffleBallots(
      form, userID, |f.shuffles|, ballots.value, e.value, proof.value, lib.publicKey, signature.value, []));
  }

  // ----- The loop

  /** One turn of the loop: the form and the blocks as they were read, the coins of the shuffle, and what its
      surroundings answered: whether the manager made the transaction, the pool took it, the nonce was synced
      after the pool refused it, it was seen accepted in time, and the manager synced after it was not. */
  datatype Attempt = Attempt(
    form: Option<Form>, blocks: BlockStore, coins: nat,
    managed: bool, added: bool, nonceSynced: bool, accepted: bool, resynced: bool)

  datatype Ended = Enough | OwnAccepted | Failed | Running

  /** The form read calls for another shuffle. */
  predicate Wanted(a: Attempt) {
    a.form.Some? && |a.form.value.shuffles| < a.form.value.threshold && a.form.value.status == Closed
  }

  /** The turn submitted a transaction in vain, and the loop goes on. */
  predicate Denied(a: Attempt) { (a.added || a.nonceSynced) && !a.accepted && a.resynced }

  /** The turn stops before it submits anything. */
  ghost predicate StopsEarly(env: Env, lib: Library, form: Key, a: Attempt) {
    a.form.Some? ==>
      var f := a.form.value;
      && |f.shuffles| < f.threshold
      && (f.status == Closed ==> CannotMake(env, lib, form, f, a.blocks, a.coins, a.managed))
  }

  /** A transaction that the node made in a turn. */
  ghost predicate MadeIn(env: Env, lib: Library, form: Key, userID: string, a: Attempt, tx: Tx) {
    && Wanted(a) && a.managed && tx.ShuffleBallots? && tx.form == form && tx.userID == userID
    && MadeBy(env, lib, a.form.value, a.blocks, a.coins, tx)
  }

  /** The loop, for as many turns as the attempts tell of, with the transactions it handed to the pool, one a
      turn. Every turn but the last was denied; the last one decides how the loop ended. */
  method HandleStartShuffle(env: Env, lib: Library, form: Key, userID: string, synced: bool, attempts: seq<Attempt>)
    returns (ended: Ended, txs: seq<Tx>)
    requires KeepsShape(lib) && forall i :: 0 <= i < |attempts| ==> AllPaired(attempts[i].blocks)
    ensures |txs| <= |attempts|
    ensures forall i :: 0 <= i < |txs| ==>
              && MadeIn(env, lib, form, userID, attempts[i], txs[i])
              && attempts[i].form.value.status == Closed
              && |attempts[i].form.value.shuffles| < attempts[i].form.value.threshold
    ensures forall i :: 0 <= i < |txs| - 1 ==>
              (attempts[i].added || attempts[i].nonceSynced) && !attempts[i].accepted && attempts[i].resynced
    ensures match ended
            case OwnAccepted =>
              txs != [] && var a := attempts[|txs| - 1]; (a.added || a.nonceSynced) && a.accepted
            case Running => |txs| == |attempts| && (txs != [] ==> Denied(attempts[|txs| - 1]))
            case Enough =>
              && |txs| < |attempts| && attempts[|txs|].form.Some? && (txs != [] ==> Denied(attempts[|txs| - 1]))
              && |attempts[|txs|].form.value.shuffles| >= attempts[|txs|].form.value.threshold
            case Failed =>
              || (!synced && txs == [])
              || (|txs| < |attempts| && StopsEarly(env, lib, form, attempts[|txs|])
                  && (txs != [] ==> Denied(attempts[|txs| - 1])))
              || (txs != [] && var a := attempts[|txs| - 1];
                    (!a.added && !a.nonceSynced) || (!a.accepted && !a.resynced))
  {
    hide ShuffleInput, MadeBy, CannotMake;
    txs := [];
    if !synced { return Failed, txs; }
    for i := 0 to |attempts|
      invariant |txs| == i
      invariant forall k :: 0 <= k < i ==> MadeIn(env, lib, form, userID, attempts[k], txs[k]) && Denied(attempts[k])
    {
      var a := attempts[i];
      if a.form.None? { return Failed, txs; }
      var f := a.form.value;
      var round := |f.shuffles|;
      if round >= f.threshold { return Enough, txs; }
      if f.status != Closed { return Failed, txs; }
      var tx := MakeTx(env, lib, form, userID, f, a.blocks, a.coins, a.managed);
      if tx.None? { return Failed, txs; }
      MadeIsShuffle(env, lib, f, a.blocks, a.coins, tx.value);
      txs := txs + [tx.value];
      if !a.added {
        if !a.nonceSynced { return Failed, txs; }
      }
      if a.accepted { return OwnAccepted, txs; }
      if !a.resynced { return Failed, txs; }
    }
    return Running, txs;
  }

  lemma MadeIsShuffle(env: Env, lib: Library, f: Form, blocks: BlockStore, coins: nat, tx: Tx)
    requires MadeBy(env, lib, f, blocks, coins, tx)
    ensures tx.ShuffleBallots?
  {
  }

  // ----- The race

  /** Nobody was faster: the round is still the node's, and the node may still take part. */
  predicate RaceOpen(g: Form, tx: Tx)
    requires tx.ShuffleBallots?
  {
    && g.status == Closed && tx.round == |g.shuffles|
    && Listed(g.owners, tx.userID) && tx.publicKey in g.roster
    && (forall i :: 0 <= i < |g.shuffles| ==> g.shuffles[i].shuffler != tx.publicKey)
    && !(exists i :: 0 <= i < |tx.previous| && tx.previous[i] == Previous(CONTRACT_NAME, FORM_ARG))
  }

  lemma HonestProofVerifies(env: Env, lib: Library, f: Form, blocks: BlockStore, coins: nat, tx: Tx)
    requires Complete(env, lib) && f.pubkey.Some? && MadeBy(env, lib, f, blocks, coins, tx)
    ensures SameSize(ShuffleInput(f, blocks).value, tx.ballots)
    ensures |tx.ballots| >= 2 ==>
              Proves(env, f.pubkey, ShuffleInput(f, blocks).value,
                  ShuffleInstance(tx.ballots, tx.proof, tx.vector, tx.publicKey))
  {
    var input := ShuffleInput(f, blocks).value;
    var X, Y := KRows(input), CRows(input);
    assert SameShapes(X, Y);
    var out := lib.shuffle(f.pubkey, X, Y, coins);
    assert out.X == KRows(tx.ballots);
    assert |out.X| == |X| && |out.X[0]| == |X[0]|;
    assert |KRows(tx.ballots)[0]| == |tx.ballots|;
  }

  /** An honest node reads a closed form at point m and its ballots at point l; its transaction runs at
      point n. However much the chain did in between, it is accepted exactly when the race for its round
      is still open and there are two ballots: its proof, vector and signature always pass. */
  lemma AcceptedWhenRaceOpen(env: Env, lib: Library, run: Run, m: nat, l: nat, n: nat, coins: nat)
    requires ValidThreshold(env) && AdmissibleRun(env, run) && m <= l <= n < |run| && Complete(env, lib)
    requires run[n].ShuffleBallots? && run[n].form in At(env, run, m).forms && run[n].form in At(env, run, n).forms
    requires At(env, run, m).forms[run[n].form].status == Closed
    requires NoCollision(env, At(env, run, n).forms.Keys) && |CastLog(env, run[..m], run[n].form)| <= COUNT_LIMIT
    requires MadeBy(env, lib, At(env, run, m).forms[run[n].form], At(env, run, l).blocks, coins, run[n])
    ensures Apply(env, At(env, run, n), run[n]).ok <==>
              RaceOpen(At(env, run, n).forms[run[n].form], run[n]) && |run[n].ballots| >= 2
  {
    hide After, CastLog, AdmissibleRun, Complete, MadeBy, Proves, ShuffleInput, NoCollision;
    var key, tx := run[n].form, run[n];
    var f, g := At(env, run, m).forms[key], At(env, run, n).forms[key];
    FormOnlyAdvances(env, run, m, n, key);
    ClosedHasKey(env, run, m, key);
    if |g.shuffles| == tx.round {
      RoundOf(env, lib, f, At(env, run, l).blocks, coins, tx);
      StaleReadsHarmless(env, run, m, l, n, key);
      HonestChecks(env, lib, f, At(env, run, l).blocks, g, At(env, run, n).blocks, coins, tx);
    }
    ShuffleVerdict(env, At(env, run, n), tx);
  }

  lemma RoundOf(env: Env, lib: Library, f: Form, blocks: BlockStore, coins: nat, tx: Tx)
    requires MadeBy(env, lib, f, blocks, coins, tx)
    ensures tx.round == |f.shuffles|
  {
  }

  lemma ClosedHasKey(env: Env, run: Run, m: nat, key: Key)
    requires ValidThreshold(env) && AdmissibleRun(env, run) && m <= |run|
    requires key in At(env, run, m).forms && At(env, run, m).forms[key].status == Closed
    ensures At(env, run, m).forms[key].pubkey.Some?
  {
    AdmissiblePrefix(env, run, m);
    ReachableInv(env, run[..m]);
    assert FormInv(env, At(env, run, m).forms[key]);
  }

  lemma ShuffleVerdict(env: Env, st: Store, tx: Tx)
    requires tx.ShuffleBallots? && tx.form in st.forms
    ensures Apply(env, st, tx).ok <==> ShuffleAllowed(env, st.forms[tx.form], st.blocks, tx)
    ensures ShuffleAllowed(env, st.forms[tx.form], st.blocks, tx) ==> tx.round == |st.forms[tx.form].shuffles|
  {
  }

  lemma HonestChecks(env: Env, lib: Library, f: Form, blocks: BlockStore, g: Form, now: BlockStore, coins: nat, tx: Tx)
    requires Complete(env, lib) && f.pubkey.Some? && MadeBy(env, lib, f, blocks, coins, tx)
    requires SameSettings(f, g) && ShuffleInput(f, blocks) == ShuffleInput(g, now)
    ensures ShuffleAllowed(env, g, now, tx) <==> RaceOpen(g, tx) && |tx.ballots| >= 2
  {
    HonestProofVerifies(env, lib, f, blocks, coins, tx);
    hide Proves, ShuffleInput;
  }

  // ----- The least shuffle

  /** A list is a shuffle of itself. */
  lemma SelfShuffle(q: Modulus, pubkey: int, X: Matrix, Y: Matrix)
    requires SameShapes(X, Y)
    ensures IsShuffle(q, pubkey, X, Y, X, Y)
  {
    var order := Range(|X[0]|);
    forall p: Pair
      ensures IsReencryption(p, p, pubkey, q)
    {
      assert Blinds(p, p, 0, pubkey, q);
    }
    assert ShufflesBy(q, pubkey, X, Y, X, Y, order);
  }
}
