/** Safety over whole runs: phases, shuffle rounds, share bookkeeping, roles, and stale reads. */
module Lifecycle {
  import opened Wrappers
  import opened Sequences
  import opened Suffragia
  import opened Blocks
  import opened Ledger
  import opened Invariant
  import opened Runs

  // ----- One step

  /** A form stays in its phase, enters the next one, or is canceled. */
  predicate Advances(s: Status, t: Status) {
    t == s || t == Canceled || (t != Canceled && Phase(t) == Phase(s) + 1)
  }

  /** What is fixed when the form is created, and the key once the form has one. */
  predicate SameSettings(f: Form, g: Form) {
    && g.config == f.config && g.ballotSize == f.ballotSize && g.threshold == f.threshold && g.roster == f.roster
    && (f.pubkey.Some? ==> g.pubkey == f.pubkey)
  }

  lemma NextFormAdvances(env: Env, f: Form, blocks: BlockStore, tx: Tx)
    requires FormInv(env, f) && NamesForm(tx) && !tx.DeleteForm? && NextForm(env, f, blocks, tx).Some?
    ensures var g := NextForm(env, f, blocks, tx).value;
            && Advances(f.status, g.status)
            && f.shuffles <= g.shuffles && SameSettings(f, g)
            && (Phase(f.status) >= 3 ==> g.shuffles == f.shuffles)
            && (Phase(f.status) >= 2 ==> g.index == f.index)
  {
    hide Revealed, SettingsInv, ShufflesInv, UnitsInv, BlockId;
  }

  lemma TargetStep(env: Env, st: Store, tx: Tx, key: Key)
    requires Targets(tx, key) && key in st.forms
    ensures var o, next := Apply(env, st, tx), NextForm(env, st.forms[key], st.blocks, tx);
            && (o.ok <==> next.Some?)
            && key in o.store.forms && o.store.forms[key] == next.GetOr(st.forms[key])
  {
    hide NextForm, BlocksAfter;
  }

  /** What a step does to any stored form. */
  lemma StepAdvances(env: Env, st: Store, tx: Tx, key: Key)
    requires ValidThreshold(env) && Inv(env, st) && Admissible(st, tx) && key in st.forms
    ensures var after := Apply(env, st, tx).store;
            && key in after.forms
            && Advances(st.forms[key].status, after.forms[key].status)
            && st.forms[key].shuffles <= after.forms[key].shuffles && SameSettings(st.forms[key], after.forms[key])
            && (Phase(st.forms[key].status) >= 3 ==> after.forms[key].shuffles == st.forms[key].shuffles)
            && (Phase(st.forms[key].status) >= 2 ==>
                  after.forms[key].index == st.forms[key].index
                      && (tx.CastVote? && tx.form == key ==> !Apply(env, st, tx).ok))
  {
    hide FormInv, NextForm, Apply, SameSettings;
    var f := st.forms[key];
    if Targets(tx, key) {
      TargetStep(env, st, tx, key);
      if NextForm(env, f, st.blocks, tx).Some? {
        NextFormAdvances(env, f, st.blocks, tx);
        if tx.CastVote? { CastNeedsOpen(env, f, st.blocks, tx); }
      } else {
        SettingsReflexive(f);
      }
    } else {
      StepElsewhere(env, st, tx, key);
      SettingsReflexive(f);
    }
  }

  lemma SettingsReflexive(f: Form)
    ensures SameSettings(f, f)
  {
  }

  lemma CastNeedsOpen(env: Env, f: Form, blocks: BlockStore, tx: Tx)
    requires tx.CastVote? && NextForm(env, f, blocks, tx).Some?
    ensures f.status == Open
  {
  }

  // ----- Prefixes of a run

  /** The store after the first n transactions. */
  ghost function At(env: Env, run: Run, n: nat): (st: Store)
    requires n <= |run|
  {
    After(env, run[..n])
  }

  lemma {:induction false} AdmissiblePrefix(env: Env, run: Run, n: nat)
    requires AdmissibleRun(env, run) && n <= |run|
    ensures AdmissibleRun(env, run[..n])
  {
    if n < |run| {
      AdmissiblePrefix(env, Front(run), n);
      assert Front(run)[..n] == run[..n];
    } else {
      assert run[..n] == run;
    }
  }

  lemma AtStep(env: Env, run: Run, n: nat)
    requires ValidThreshold(env) && AdmissibleRun(env, run) && n < |run|
    ensures Inv(env, At(env, run, n)) && Admissible(At(env, run, n), run[n])
    ensures At(env, run, n + 1) == Apply(env, At(env, run, n), run[n]).store
    ensures forall key :: CastLog(env, run[..n + 1], key)
                       == NextLog(env, At(env, run, n), run[n], key, CastLog(env, run[..n], key))
  {
    hide Apply, Inv, Admissible, NextLog;
    AdmissiblePrefix(env, run, n + 1);
    AdmissiblePrefix(env, run, n);
    ReachableInv(env, run[..n]);
    assert Front(run[..n + 1]) == run[..n] && Last(run[..n + 1]) == run[n];
  }

  // ----- Monotonicity between two points of a run

  /** Between two points of a run a form's phase does not fall, its accepted shuffles only grow, its
      settings and key stay, from the moment it is closed its ballots are frozen, and from the end of the
      shuffle its shuffles are. A canceled form stays canceled. */
  lemma {:induction false} FormOnlyAdvances(env: Env, run: Run, m: nat, n: nat, key: Key)
    requires ValidThreshold(env) && AdmissibleRun(env, run) && m <= n <= |run|
    requires key in At(env, run, m).forms
    ensures key in At(env, run, n).forms
    ensures var f, g := At(env, run, m).forms[key], At(env, run, n).forms[key];
            && Phase(f.status) <= Phase(g.status)
            && f.shuffles <= g.shuffles && SameSettings(f, g)
            && (Phase(f.status) >= 3 ==> g.shuffles == f.shuffles)
            && (Phase(f.status) >= 2 ==>
                g.index == f.index && CastLog(env, run[..n], key) == CastLog(env, run[..m], key))
    decreases n - m
  {
    hide Apply, Inv, Admissible, After, CastLog;
    if m < n {
      FormOnlyAdvances(env, run, m, n - 1, key);
      AtStep(env, run, n - 1);
      StepAdvances(env, At(env, run, n - 1), run[n - 1], key);
    }
  }

  /** A form in a phase after the first was in the phase before it at an earlier point; so a result is
      reached only through every earlier phase, in order. */
  lemma {:induction false} PhaseBefore(env: Env, run: Run, n: nat, key: Key) returns (m: nat)
    requires ValidThreshold(env) && AdmissibleRun(env, run) && n <= |run|
    requires key in At(env, run, n).forms
    requires 0 < Phase(At(env, run, n).forms[key].status) <= 5
    ensures m < n && key in At(env, run, m).forms
    ensures Phase(At(env, run, m).forms[key].status) == Phase(At(env, run, n).forms[key].status) - 1
  {
    hide Apply, Inv, Admissible;
    assert run[..0] == [];
    if n > 0 {
      AtStep(env, run, n - 1);
      var st := At(env, run, n - 1);
      StepKeys(env, st, run[n - 1], key);
      if key in st.forms {
        StepAdvances(env, st, run[n - 1], key);
        if st.forms[key].status == At(env, run, n).forms[key].status {
          m := PhaseBefore(env, run, n - 1, key);
        } else {
          m := n - 1;
        }
      }
    }
  }

  // ----- Stale reads

  lemma {:induction false} KeysGrow(env: Env, run: Run, m: nat, n: nat)
    requires ValidThreshold(env) && AdmissibleRun(env, run) && m <= n <= |run|
    ensures At(env, run, m).forms.Keys <= At(env, run, n).forms.Keys
  {
    hide After, CastLog;
    forall key | key in At(env, run, m).forms
      ensures key in At(env, run, n).forms
    {
      FormOnlyAdvances(env, run, m, n, key);
    }
  }

  lemma RecordedAt(env: Env, run: Run, n: nat, key: Key)
    requires ValidThreshold(env) && AdmissibleRun(env, run) && n <= |run|
    requires NoCollision(env, At(env, run, n).forms.Keys) && key in At(env, run, n).forms
    ensures Recorded(env, key, At(env, run, n).forms[key], At(env, run, n).blocks, CastLog(env, run[..n], key))
  {
    AdmissiblePrefix(env, run, n);
    RunRecorded(env, run[..n], key);
  }

  /** What a form closed at point m holds can be read from the blocks at any later point l. */
  lemma ReadLater(env: Env, run: Run, m: nat, l: nat, key: Key)
    requires ValidThreshold(env) && AdmissibleRun(env, run) && m <= l <= |run|
    requires NoCollision(env, At(env, run, l).forms.Keys)
    requires key in At(env, run, m).forms && At(env, run, m).forms[key].status == Closed
    requires |CastLog(env, run[..m], key)| <= COUNT_LIMIT
    ensures ReadVotes(At(env, run, m).forms[key].index, At(env, run, l).blocks)
              == Some(LatestVotes(CastLog(env, run[..m], key)))
  {
    hide At, CastLog, AdmissibleRun, NoCollision, Chained, Revealed, OwnBlocks, FullSized, Represents;
    FormOnlyAdvances(env, run, m, l, key);
    RecordedAt(env, run, l, key);
    BlocksRefineLog(env.sha256, key, At(env, run, l).forms[key].index, At(env, run, l).blocks,
        CastLog(env, run[..l], key));
  }

  lemma SameInput(f: Form, g: Form, before: BlockStore, after: BlockStore)
    requires f.index == g.index && f.shuffles <= g.shuffles && |f.shuffles| == |g.shuffles|
    requires ReadVotes(f.index, before) == ReadVotes(f.index, after)
    ensures ShuffleInput(f, before) == ShuffleInput(g, after)
  {
  }

  /** A node reads a closed form at point m, the ballot blocks at a later point l, and its transaction
      runs at point n. If the contract then still expects the round the node worked on, the list that
      the node shuffled is the list that the contract checks the proof against. */
  lemma StaleReadsHarmless(env: Env, run: Run, m: nat, l: nat, n: nat, key: Key)
    requires ValidThreshold(env) && AdmissibleRun(env, run) && m <= l <= n <= |run|
    requires NoCollision(env, At(env, run, n).forms.Keys)
    requires key in At(env, run, m).forms && At(env, run, m).forms[key].status == Closed
    requires |CastLog(env, run[..m], key)| <= COUNT_LIMIT
    requires key in At(env, run, n).forms
              && |At(env, run, n).forms[key].shuffles| == |At(env, run, m).forms[key].shuffles|
    ensures ShuffleInput(At(env, run, m).forms[key], At(env, run, l).blocks)
         == ShuffleInput(At(env, run, n).forms[key], At(env, run, n).blocks)
  {
    hide At, CastLog, AdmissibleRun, ReadVotes, LatestVotes, ShuffleInput;
    KeysGrow(env, run, l, n);
    ReadLater(env, run, m, l, key);
    ReadLater(env, run, m, n, key);
    FormOnlyAdvances(env, run, m, n, key);
    SameInput(At(env, run, m).forms[key], At(env, run, n).forms[key], At(env, run, l).blocks, At(env, run, n).blocks);
  }

  /** Nodes race for a round, and one wins: once a shuffle for some round of a form was accepted, every
      later transaction for that round is rejected. */
  lemma OneShufflePerRound(env: Env, run: Run, m: nat, n: nat)
    requires ValidThreshold(env) && AdmissibleRun(env, run) && m < n < |run|
    requires run[m].ShuffleBallots? && run[n].ShuffleBallots? && run[m].form == run[n].form
              && run[m].round == run[n].round
    requires Apply(env, At(env, run, m), run[m]).ok
    ensures !Apply(env, At(env, run, n), run[n]).ok
  {
    var key := run[m].form;
    AtStep(env, run, m);
    AtStep(env, run, n);
    ShuffleAdvances(env, At(env, run, m), run[m]);
    FormOnlyAdvances(env, run, m + 1, n, key);
    hide After, CastLog, AdmissibleRun, Inv;
    if Apply(env, At(env, run, n), run[n]).ok {
      ShuffleAdvances(env, At(env, run, n), run[n]);
      assert false;
    }
  }

  lemma ShuffleAdvances(env: Env, st: Store, tx: Tx)
    requires tx.ShuffleBallots? && Apply(env, st, tx).ok
    ensures var after := Apply(env, st, tx).store;
            && tx.form in st.forms && tx.form in after.forms
            && tx.round == |st.forms[tx.form].shuffles| && |after.forms[tx.form].shuffles| == tx.round + 1
  {
  }

  // ----- One voter is not enough

  lemma {:induction false} OneVoter(log: Log, voter: string)
    requires forall i :: 0 <= i < |log| ==> log[i].voterID == voter
    ensures |LatestVotes(log).ciphervotes| <= 1
    ensures forall v :: v in LatestVotes(log).voterIDs ==> v == voter
  {
    if log != [] {
      OneVoter(log[..|log| - 1], voter);
    }
  }

  /** However often one voter cast, a form whose log names a single voter identifier never gets past
      Closed, other than by being canceled. */
  lemma SingleVoterStaysClosed(env: Env, run: Run, key: Key, voter: string)
    requires ValidThreshold(env) && AdmissibleRun(env, run) && NoCollision(env, After(env, run).forms.Keys)
    requires key in After(env, run).forms && |CastLog(env, run, key)| <= COUNT_LIMIT
    requires forall i :: 0 <= i < |CastLog(env, run, key)| ==> CastLog(env, run, key)[i].voterID == voter
    ensures Phase(After(env, run).forms[key].status) in {0, 1, 2, 6}
    ensures After(env, run).forms[key].shuffles == []
  {
    ReachableInv(env, run);
    RunRecorded(env, run, key);
    OneVoter(CastLog(env, run, key), voter);
    hide After, CastLog, Represents, Revealed, LatestVotes, Proves;
    var f, log := After(env, run).forms[key], CastLog(env, run, key);
    assert f.shuffles != [] ==> Linked(env, key, f, log, 0);
  }

  /** Closing counts casts, not voters: an owner can close an open form exactly when it received at
      least two casts, even from one voter. */
  lemma CloseCountsCasts(env: Env, run: Run, key: Key, userID: string)
    requires ValidThreshold(env) && AdmissibleRun(env, run) && NoCollision(env, After(env, run).forms.Keys)
    requires key in After(env, run).forms && |CastLog(env, run, key)| < COUNT_LIMIT
    ensures var f := After(env, run).forms[key];
            Apply(env, After(env, run), CloseForm(key, userID)).ok <==>
              f.status == Open && Listed(f.owners, userID) && |CastLog(env, run, key)| >= 2
  {
    RunRecorded(env, run, key);
    CountOfLog(env.sha256, key, After(env, run).forms[key].index, After(env, run).blocks, CastLog(env, run, key));
    hide After, CastLog, Recorded, AdmissibleRun, NoCollision;
  }

  lemma CountOfLog(sha256: string -> string, key: Key, x: Index, blocks: BlockStore, log: Log)
    requires Represents(sha256, key, x, blocks, log) && |log| < COUNT_LIMIT
    ensures x.ballotCount == |log|
  {
  }

  // ----- Facts of every reachable store

  /** Each roster member shuffles at most once, never more often than the threshold, and the phase tells
      how many shuffles there are. */
  lemma ShufflePhase(env: Env, run: Run, key: Key)
    requires ValidThreshold(env) && AdmissibleRun(env, run) && key in After(env, run).forms
    requires After(env, run).forms[key].roster != []
    ensures var f := After(env, run).forms[key];
            && Distinct(Shufflers(f)) && AllIn(Shufflers(f), f.roster)
            && |f.shuffles| <= f.threshold <= |f.roster|
            && (f.status == Closed ==> |f.shuffles| < f.threshold)
            && (3 <= Phase(f.status) <= 5 ==> |f.shuffles| == f.threshold)
  {
    ReachableInv(env, run);
    hide After;
    var f := After(env, run).forms[key];
    assert FormInv(env, f);
    assert 1 <= env.threshold(|f.roster|) <= |f.roster|;
  }

  /** The share lists stay parallel, with distinct members and indexes, every unit shaped like the last
      shuffled list; decryption starts with exactly the threshold of units and reads nothing out of range. */
  lemma ShareBookkeeping(env: Env, run: Run, key: Key)
    requires ValidThreshold(env) && AdmissibleRun(env, run) && key in After(env, run).forms
    ensures var f := After(env, run).forms[key];
            && |f.units.pubshares| == |f.units.pubKeys| == |f.units.indexes|
            && Distinct(f.units.pubKeys) && AllIn(f.units.pubKeys, f.roster) && Distinct(f.units.indexes)
            && (forall u :: 0 <= u < |f.units.pubshares| ==>
                f.shuffles != [] && SameShape(f.units.pubshares[u], LastBallots(f)))
            && (4 <= Phase(f.status) <= 5 ==> |f.units.pubshares| == f.threshold && Decryptable(f))
  {
    ReachableInv(env, run);
    hide After;
    assert FormInv(env, After(env, run).forms[key]);
  }

  /** The metadata names every stored form and the administrator list exactly once; administrators are
      never all removed, nor are the owners of a form. */
  lemma IndexAndRoles(env: Env, run: Run)
    requires ValidThreshold(env) && AdmissibleRun(env, run)
    ensures var st := After(env, run);
            && Distinct(st.metadata)
            && (forall k :: k in st.metadata <==> k in st.forms || (k == ADMIN_LIST_ID && st.admins.Some?))
            && (st.admins.Some? ==> st.admins.value != [] && Distinct(st.admins.value) && AllScipers(st.admins.value))
            && (forall k :: k in st.forms ==> st.forms[k].owners != [] && AllScipers(st.forms[k].owners))
  {
    ReachableInv(env, run);
    hide After;
    var st := After(env, run);
    assert forall k :: k in st.metadata <==> k in Elements(st.metadata);
    forall k | k in st.forms
      ensures st.forms[k].owners != [] && AllScipers(st.forms[k].owners)
    {
      assert FormInv(env, st.forms[k]);
    }
  }
}
