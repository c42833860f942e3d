/** Whole runs of the contract from the empty store, and their history. */
module Runs {
  import opened Wrappers
  import opened Configuration
  import opened Suffragia
  import opened Blocks
  import opened Ledger
  import opened Invariant

  type Run = seq<Tx>

  function Front(run: Run): (r: Run)
    requires run != []
  {
    run[..|run| - 1]
  }

  function Last(run: Run): Tx
    requires run != []
  {
    run[|run| - 1]
  }

  /** The store after a sequence of transactions, accepted or not. */
  ghost function After(env: Env, run: Run): (st: Store) {
    if run == [] then EMPTY_STORE else Apply(env, After(env, Front(run)), Last(run)).store
  }

  /** Every transaction is admissible where it runs. */
  ghost predicate AdmissibleRun(env: Env, run: Run) {
    run != [] ==> AdmissibleRun(env, Front(run)) && Admissible(After(env, Front(run)), Last(run))
  }

  /** The accepted casts on one form, in order. */
  ghost function CastLog(env: Env, run: Run, key: Key): (log: Log) {
    if run == [] then []
    else NextLog(env, After(env, Front(run)), Last(run), key, CastLog(env, Front(run), key))
  }

  ghost function NextLog(env: Env, st: Store, tx: Tx, key: Key, log: Log): (r: Log) {
    if tx.CastVote? && tx.form == key && Apply(env, st, tx).ok then log + [Vote(tx.voterID, tx.ballot)] else log
  }

  lemma {:induction false} ReachableInv(env: Env, run: Run)
    requires ValidThreshold(env) && AdmissibleRun(env, run)
    ensures Inv(env, After(env, run))
  {
    if run == [] {
      EmptyStoreInv(env);
    } else {
      ReachableInv(env, Front(run));
      ApplyKeepsInv(env, After(env, Front(run)), Last(run));
    }
  }

  // ----- One step, seen from one form

  /** The transaction changes this stored form, if anything. */
  predicate Targets(tx: Tx, key: Key) {
    NamesForm(tx) && !tx.DeleteForm? && tx.form == key
  }

  /** Only its creation makes a form appear, and no form disappears. */
  lemma StepKeys(env: Env, st: Store, tx: Tx, key: Key)
    requires ValidThreshold(env) && Inv(env, st) && Admissible(st, tx)
    ensures var after := Apply(env, st, tx).store;
            && st.forms.Keys <= after.forms.Keys
            && (key in after.forms && key !in st.forms ==>
                  tx.CreateForm? && tx.key == key && after.blocks == st.blocks
                  && after.forms[key] == NewForm(env, SciperToInt(tx.userID).GetOr(0), tx.config, tx.roster))
  {
    hide FormInv, NextForm, BlocksAfter, NewForm, ValidConfig, AllPaired, IndexStored;
    if tx.CreateForm? {
      CreateKeepsInv(env, st, tx);
    } else if tx.DeleteForm? {
      if tx.form in st.forms { NobodyIsListed(st.forms[tx.form].owners); }
    }
  }

  /** A form that the transaction does not target stays as it is. */
  lemma StepElsewhere(env: Env, st: Store, tx: Tx, key: Key)
    requires Admissible(st, tx) && key in st.forms && !Targets(tx, key)
    ensures var after := Apply(env, st, tx).store;
            && key in after.forms && after.forms[key] == st.forms[key]
            && (after.blocks == st.blocks
                || (tx.CastVote? && tx.form in st.forms && CastAllowed(env, st.forms[tx.form], st.blocks, tx)
                    && after.blocks == BlocksAfter(env, st.forms[tx.form], st.blocks, tx)))
  {
    hide NextForm, NewForm, ValidConfig;
    if tx.DeleteForm? && tx.form in st.forms { NobodyIsListed(st.forms[tx.form].owners); }
  }

  /** The blocks of a form carry its hash. */
  ghost predicate OwnBlocks(env: Env, key: Key, f: Form) {
    forall i :: 0 <= i < |f.index.suffragiaIDs| ==> CarriesHash(env, key, f.index.suffragiaIDs[i])
  }

  predicate CarriesHash(env: Env, key: Key, id: Key) {
    |id| >= 4 && id[4..] == Prefix(env.sha256(key), 28)
  }

  lemma BlockIdCarriesHash(env: Env, key: Key, count: nat)
    ensures CarriesHash(env, key, BlockId(env.sha256, key, count))
  {
  }

  /** No two stored forms have hashes with the same first 28 bytes. */
  ghost predicate NoCollision(env: Env, keys: set<Key>) {
    forall a, b :: a in keys && b in keys && a != b ==> Prefix(env.sha256(a), 28) != Prefix(env.sha256(b), 28)
  }

  /** Every stored ballot has one pair for each chunk. */
  ghost predicate FullSized(f: Form, log: Log) {
    forall i :: 0 <= i < |log| ==> |log[i].ciphervote| == ChunksPerBallot(f.ballotSize)
  }

  function InputOf(f: Form, log: Log, r: nat): (input: seq<Ciphervote>)
    requires r <= |f.shuffles|
  {
    if r == 0 then LatestVotes(log).ciphervotes else f.shuffles[r - 1].ballots
  }

  /** Every accepted shuffle was proved against its predecessor, the first one against the cast votes, with
      the random vector that the contract derives. */
  ghost predicate Chained(env: Env, key: Key, f: Form, log: Log) {
    forall r :: 0 <= r < |f.shuffles| ==> Linked(env, key, f, log, r)
  }

  ghost predicate Linked(env: Env, key: Key, f: Form, log: Log, r: nat)
    requires r < |f.shuffles|
  {
    var s := f.shuffles[r];
    && |InputOf(f, log, r)| >= 2 && Proves(env, f.pubkey, InputOf(f, log, r), s)
    && env.vector(key, s.ballots, ChunksPerBallot(f.ballotSize)) == Some(s.vector)
  }

  ghost predicate Recorded(env: Env, key: Key, f: Form, blocks: BlockStore, log: Log) {
    && OwnBlocks(env, key, f)
    && (f.status == ResultAvailable ==> Revealed(env, f) == Some(f.decrypted))
    && FullSized(f, log)
    && (f.status == Initial ==> log == [])
    && (|log| <= COUNT_LIMIT ==> Represents(env.sha256, key, f.index, blocks, log) && Chained(env, key, f, log))
  }

  // ----- A step on the form itself

  lemma NewFormRecorded(env: Env, key: Key, sciper: int, config: Config, roster: seq<Key>, blocks: BlockStore)
    ensures Recorded(env, key, NewForm(env, sciper, config, roster), blocks, [])
  {
  }

  lemma CastRecorded(env: Env, key: Key, f: Form, blocks: BlockStore, log: Log, tx: Tx)
    requires FormInv(env, f) && Recorded(env, key, f, blocks, log)
    requires tx.CastVote? && tx.form == key && CastAllowed(env, f, blocks, tx)
    ensures Recorded(env, key, NextForm(env, f, blocks, tx).value, BlocksAfter(env, f, blocks, tx),
                     log + [Vote(tx.voterID, tx.ballot)])
  {
    hide BlockId, Represents, Revealed;
    var g := NextForm(env, f, blocks, tx).value;
    BlockIdCarriesHash(env, key, f.index.ballotCount);
    if |log| < COUNT_LIMIT {
      CastKeepsLog(env.sha256, key, f.index, blocks, log, Vote(tx.voterID, tx.ballot));
    }
  }

  lemma RevealedFrame(env: Env, f: Form, g: Form)
    requires g.config == f.config && g.shuffles == f.shuffles && g.units == f.units
    ensures Revealed(env, g) == Revealed(env, f)
  {
    if Decryptable(f) {
      forall i | 0 <= i < |LastBallots(f)|
        ensures BallotText(env, g, i) == BallotText(env, f, i)
      {
        DecryptTextFrame(env, f, g, i, |LastBallots(f)[0]|);
      }
      hide BallotText;
      if Revealed(env, f).Some? {
        assert Revealed(env, g).value == Revealed(env, f).value;
      }
    }
  }

  lemma {:induction false} DecryptTextFrame(env: Env, f: Form, g: Form, i: nat, n: nat)
    requires g.shuffles == f.shuffles && g.units == f.units
    requires Decryptable(f) && i < |LastBallots(f)| && n <= |LastBallots(f)[0]|
    ensures DecryptText(env, g, i, n) == DecryptText(env, f, i, n)
  {
    if n > 0 {
      DecryptTextFrame(env, f, g, i, n - 1);
      assert SharesAt(g, i, n - 1) == SharesAt(f, i, n - 1);
    }
  }

  /** The list that a shuffle was checked against is the one the history calls for. */
  lemma ShuffleInputRecorded(env: Env, key: Key, f: Form, blocks: BlockStore, log: Log)
    requires Represents(env.sha256, key, f.index, blocks, log)
    ensures ShuffleInput(f, blocks) == Some(InputOf(f, log, |f.shuffles|))
  {
    BlocksRefineLog(env.sha256, key, f.index, blocks, log);
  }

  lemma ShuffleRecorded(env: Env, key: Key, f: Form, blocks: BlockStore, log: Log, tx: Tx)
    requires FormInv(env, f) && Recorded(env, key, f, blocks, log)
    requires tx.ShuffleBallots? && tx.form == key && ShuffleAllowed(env, f, blocks, tx)
    ensures Recorded(env, key, NextForm(env, f, blocks, tx).value, blocks, log)
  {
    hide Represents, Revealed, Proves;
    var g := NextForm(env, f, blocks, tx).value;
    if |log| <= COUNT_LIMIT {
      ShuffleInputRecorded(env, key, f, blocks, log);
      forall r | 0 <= r < |g.shuffles|
        ensures Linked(env, key, g, log, r)
      {
        assert InputOf(g, log, r) == InputOf(f, log, r);
        if r < |f.shuffles| { assert Linked(env, key, f, log, r); }
      }
    }
  }

  lemma OtherRecorded(env: Env, key: Key, f: Form, blocks: BlockStore, log: Log, tx: Tx)
    requires FormInv(env, f) && Recorded(env, key, f, blocks, log)
    requires NamesForm(tx) && !tx.DeleteForm? && !tx.CastVote? && !tx.ShuffleBallots? && tx.form == key
    requires NextForm(env, f, blocks, tx).Some?
    ensures Recorded(env, key, NextForm(env, f, blocks, tx).value, blocks, log)
  {
    hide Represents, Revealed, Proves, LatestVotes;
    var g := NextForm(env, f, blocks, tx).value;
    assert g.shuffles == f.shuffles && g.index == f.index && g.ballotSize == f.ballotSize && g.config == f.config;
    if g.status == ResultAvailable {
      RevealedFrame(env, f, g);
    }
    if |log| <= COUNT_LIMIT {
      forall r | 0 <= r < |g.shuffles|
        ensures Linked(env, key, g, log, r)
      {
        assert Linked(env, key, f, log, r);
        assert g.pubkey == f.pubkey;
      }
    }
  }

  // ----- A step seen from any form

  /** A cast on another form writes none of this form's blocks. */
  lemma ForeignCastRecorded(env: Env, key: Key, f: Form, other: Key, h: Form, blocks: BlockStore, log: Log, tx: Tx)
    requires Prefix(env.sha256(key), 28) != Prefix(env.sha256(other), 28)
    requires OwnBlocks(env, other, h) && Recorded(env, key, f, blocks, log)
    requires tx.CastVote? && tx.form == other && CastAllowed(env, h, blocks, tx)
    ensures Recorded(env, key, f, BlocksAfter(env, h, blocks, tx), log)
  {
    hide BlockId, Revealed, Chained, LatestVotes;
    var target := Target(env.sha256, other, h.index, blocks).value.0;
    BlockIdCarriesHash(env, other, h.index.ballotCount);
    assert CarriesHash(env, other, target);
    if |log| <= COUNT_LIMIT {
      forall b | 0 <= b < BlockCount(|log|)
        ensures f.index.suffragiaIDs[b] != target
      {
        assert CarriesHash(env, key, f.index.suffragiaIDs[b]);
      }
    }
  }

  lemma StepRecorded(env: Env, st: Store, tx: Tx, key: Key, log: Log)
    requires ValidThreshold(env) && Inv(env, st) && Admissible(st, tx)
    requires NoCollision(env, st.forms.Keys)
    requires forall k :: k in st.forms ==> OwnBlocks(env, k, st.forms[k])
    requires if key in st.forms then Recorded(env, key, st.forms[key], st.blocks, log) else log == []
    ensures var after := Apply(env, st, tx).store;
            if key in after.forms then
              Recorded(env, key, after.forms[key], after.blocks, NextLog(env, st, tx, key, log))
            else NextLog(env, st, tx, key, log) == []
  {
    hide Recorded, NextForm, BlocksAfter, NewForm, FormInv, OwnBlocks, CastAllowed;
    StepKeys(env, st, tx, key);
    var after := Apply(env, st, tx).store;
    if key !in st.forms {
      if key in after.forms {
        NewFormRecorded(env, key, SciperToInt(tx.userID).GetOr(0), tx.config, tx.roster, after.blocks);
      }
    } else if !Targets(tx, key) {
      StepElsewhere(env, st, tx, key);
      if after.blocks != st.blocks {
        ForeignCastRecorded(env, key, st.forms[key], tx.form, st.forms[tx.form], st.blocks, log, tx);
      }
    } else {
      TargetRecorded(env, st, tx, log);
    }
  }

  lemma TargetRecorded(env: Env, st: Store, tx: Tx, log: Log)
    requires Inv(env, st) && NamesForm(tx) && !tx.DeleteForm? && tx.form in st.forms
    requires Recorded(env, tx.form, st.forms[tx.form], st.blocks, log)
    ensures var after := Apply(env, st, tx).store;
            tx.form in after.forms
            && Recorded(env, tx.form, after.forms[tx.form], after.blocks, NextLog(env, st, tx, tx.form, log))
  {
    hide Recorded, FormInv;
    var f := st.forms[tx.form];
    if NextForm(env, f, st.blocks, tx).Some? {
      if tx.CastVote? {
        CastRecorded(env, tx.form, f, st.blocks, log, tx);
      } else if tx.ShuffleBallots? {
        ShuffleRecorded(env, tx.form, f, st.blocks, log, tx);
      } else {
        OtherRecorded(env, tx.form, f, st.blocks, log, tx);
      }
    }
  }

  lemma StepOwnBlocks(env: Env, st: Store, tx: Tx, key: Key)
    requires ValidThreshold(env) && Inv(env, st) && Admissible(st, tx)
    requires key in st.forms ==> OwnBlocks(env, key, st.forms[key])
    ensures var after := Apply(env, st, tx).store;
            key in after.forms ==> OwnBlocks(env, key, after.forms[key])
  {
    hide FormInv, NewForm, BlockId;
    StepKeys(env, st, tx, key);
    if key !in st.forms {
      if key in Apply(env, st, tx).store.forms {
        NewFormRecorded(env, key, SciperToInt(tx.userID).GetOr(0), tx.config, tx.roster, st.blocks);
      }
    } else if !Targets(tx, key) {
      StepElsewhere(env, st, tx, key);
    } else {
      if NextForm(env, st.forms[key], st.blocks, tx).Some? {
        NextFormOwnBlocks(env, st.forms[key], st.blocks, tx);
      }
    }
  }

  lemma NextFormOwnBlocks(env: Env, f: Form, blocks: BlockStore, tx: Tx)
    requires NamesForm(tx) && !tx.DeleteForm? && OwnBlocks(env, tx.form, f) && NextForm(env, f, blocks, tx).Some?
    ensures OwnBlocks(env, tx.form, NextForm(env, f, blocks, tx).value)
  {
    hide BlockId;
    BlockIdCarriesHash(env, tx.form, f.index.ballotCount);
    if !tx.CastVote? {
      assert NextForm(env, f, blocks, tx).value.index == f.index;
    }
  }

  lemma {:induction false} RunOwnBlocks(env: Env, run: Run, key: Key)
    requires ValidThreshold(env) && AdmissibleRun(env, run)
    ensures key in After(env, run).forms ==> OwnBlocks(env, key, After(env, run).forms[key])
  {
    hide Apply, OwnBlocks;
    if run != [] {
      RunOwnBlocks(env, Front(run), key);
      ReachableInv(env, Front(run));
      StepOwnBlocks(env, After(env, Front(run)), Last(run), key);
    }
  }

  /** The history of a form in any run: its blocks hold its accepted casts, its shuffles are chained to
      them, and a published result is what its shares decrypt to. */
  lemma {:induction false} RunRecorded(env: Env, run: Run, key: Key)
    requires ValidThreshold(env) && AdmissibleRun(env, run)
    requires NoCollision(env, After(env, run).forms.Keys)
    ensures var st := After(env, run);
            if key in st.forms then Recorded(env, key, st.forms[key], st.blocks, CastLog(env, run, key))
            else CastLog(env, run, key) == []
  {
    hide Apply, OwnBlocks, Recorded, NextLog, Inv, Admissible;
    if run != [] {
      var st := After(env, Front(run));
      ReachableInv(env, Front(run));
      StepKeys(env, st, Last(run), key);
      RunRecorded(env, Front(run), key);
      forall k | k in st.forms
        ensures OwnBlocks(env, k, st.forms[k])
      {
        RunOwnBlocks(env, Front(run), k);
      }
      StepRecorded(env, st, Last(run), key, CastLog(env, Front(run), key));
    }
  }
}
