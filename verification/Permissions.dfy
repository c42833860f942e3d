/** Who may do what, and what it does: every command of the contract in terms of the fields of the stored form
    and the spelling of user identifiers, and where the entries of a form come from over whole runs. */
module Permissions {
  import opened Wrappers
  import Sequences
  import opened Text
  import opened Configuration
  import opened Suffragia
  import opened Blocks
  import opened Ledger
  import opened Invariant
  import opened Runs
  import opened Lifecycle
  import opened Persons

  // ----- Users

  /** The identifier names someone in the list. */
  ghost predicate Among(list: seq<int>, userID: string) {
    exists n :: n in list && Names(userID, n)
  }

  /** The identifier names someone. */
  ghost predicate Person(userID: string) {
    exists n :: Names(userID, n)
  }

  lemma ListedIsAmong(list: seq<int>, userID: string)
    ensures Listed(list, userID) <==> Among(list, userID)
  {
    hide Names, SciperToInt;
    if SciperToInt(userID).Some? {
      SciperSpelling(userID, SciperToInt(userID).value);
    }
    if Among(list, userID) {
      var n :| n in list && Names(userID, n);
      SciperSpelling(userID, n);
    }
  }

  lemma ParsedIsPerson(userID: string)
    ensures SciperToInt(userID).Some? <==> Person(userID)
    ensures SciperToInt(userID).Some? ==> Names(userID, SciperToInt(userID).value)
  {
    hide Names, SciperToInt;
    if SciperToInt(userID).Some? {
      SciperSpelling(userID, SciperToInt(userID).value);
    }
    if Person(userID) {
      var n :| Names(userID, n);
      SciperSpelling(userID, n);
    }
  }

  // ----- Casting

  /** The least number of 29-byte chunks that hold a ballot of the given size. */
  predicate FillsChunks(chunks: nat, ballotSize: nat) {
    29 * chunks >= ballotSize && (chunks > 0 ==> 29 * (chunks - 1) < ballotSize)
  }

  lemma ChunksFill(chunks: nat, ballotSize: nat)
    ensures chunks == ChunksPerBallot(ballotSize) <==> FillsChunks(chunks, ballotSize)
  {
  }

  lemma TargetReadable(env: Env, f: Form, blocks: BlockStore, key: Key)
    requires AllPaired(blocks) && IndexStored(f, blocks)
    ensures var t := Target(env.sha256, key, f.index, blocks); t.Some? && Paired(t.value.1)
  {
  }

  /** A cast is accepted exactly from a registered voter, on an open form, with the form's number of chunks. It
      changes nothing of the form but where its ballots are. */
  lemma CastRule(env: Env, st: Store, tx: Tx)
    requires Inv(env, st) && tx.CastVote?
    ensures var o := Apply(env, st, tx);
            && (o.ok <==>
                  && tx.form in st.forms && st.forms[tx.form].status == Open
                  && Among(st.forms[tx.form].voters, tx.voterID)
                  && FillsChunks(|tx.ballot|, st.forms[tx.form].ballotSize))
            && (!o.ok ==> o.store == st)
            && (o.ok ==>
                  && tx.form in o.store.forms && o.store.admins == st.admins && o.store.metadata == st.metadata
                  && o.store.forms == st.forms[tx.form := st.forms[tx.form].(index := o.store.forms[tx.form].index)])
  {
    if tx.form in st.forms {
      var f := st.forms[tx.form];
      ListedIsAmong(f.voters, tx.voterID);
      ChunksFill(|tx.ballot|, f.ballotSize);
      TargetReadable(env, f, st.blocks, tx.form);
      hide Listed, Among, Target, NextIndex, NextBlocks, ChunksPerBallot, FillsChunks, FormInv;
    }
  }

  // ----- Shuffling

  /** Every check on a shuffle transaction, in the order of the code. */
  ghost predicate ShuffleChecks(env: Env, f: Form, blocks: BlockStore, tx: Tx)
    requires tx.ShuffleBallots?
  {
    && (forall i :: 0 <= i < |tx.previous| ==> tx.previous[i] != Previous("go.dedis.ch/dela.Evoting", "evoting:arg"))
    && f.status == Closed && Among(f.owners, tx.userID) && tx.round == |f.shuffles|
    && tx.publicKey in f.roster
    && (forall r :: 0 <= r < |f.shuffles| ==> f.shuffles[r].shuffler != tx.publicKey)
    && env.shuffleSigned(tx.publicKey, tx.form, tx.ballots, tx.signature)
    && FillsChunks(|tx.vector|, f.ballotSize) && env.vector(tx.form, tx.ballots, |tx.vector|) == Some(tx.vector)
    && tx.ballots != []
    && var input := if f.shuffles == [] then ReadVotes(f.index, blocks) else Some(Votes([], LastBallots(f)));
       && input.Some? && |input.value.ciphervotes| >= 2
       && Aligned(input.value.ciphervotes) && Aligned(tx.ballots)
       && env.prove(f.pubkey, KRows(input.value.ciphervotes), CRows(input.value.ciphervotes),
                    KRows(tx.ballots), CRows(tx.ballots), tx.vector, tx.proof)
  }

  /** No ballot has fewer pairs than the first. */
  predicate Aligned(cvs: seq<Ciphervote>)
    ensures Aligned(cvs) ==> Rectangular(cvs)
  {
    cvs != [] && forall i :: 0 <= i < |cvs| ==> |cvs[i]| >= |cvs[0]|
  }

  lemma ChecksAreAll(env: Env, f: Form, blocks: BlockStore, tx: Tx)
    requires tx.ShuffleBallots?
    ensures ShuffleAllowed(env, f, blocks, tx) <==> ShuffleChecks(env, f, blocks, tx)
  {
    ListedIsAmong(f.owners, tx.userID);
    ChunksFill(|tx.vector|, f.ballotSize);
    hide Listed, Among, ChunksPerBallot, FillsChunks, ReadVotes, KRows, CRows;
  }

  /** A shuffle, honest or not, is accepted exactly when it passes every check, its signature included. It adds
      one instance, and ends the phase at the threshold. */
  lemma ShuffleRule(env: Env, st: Store, tx: Tx)
    requires tx.ShuffleBallots?
    ensures var o := Apply(env, st, tx);
            && (o.ok <==> tx.form in st.forms && ShuffleChecks(env, st.forms[tx.form], st.blocks, tx))
            && (!o.ok ==> o.store == st)
            && (o.ok ==>
                  var f := st.forms[tx.form];
                  var shuffles := f.shuffles + [ShuffleInstance(tx.ballots, tx.proof, tx.vector, tx.publicKey)];
                  o.store == st.(forms := st.forms[tx.form := f.(
                    shuffles := shuffles, status := if |shuffles| >= f.threshold then ShuffledBallots else Closed)]))
  {
    hide ShuffleAllowed, ShuffleChecks;
    if tx.form in st.forms {
      ChecksAreAll(env, st.forms[tx.form], st.blocks, tx);
      if ShuffleAllowed(env, st.forms[tx.form], st.blocks, tx) {
        ShuffledWhenClosed(env, st.forms[tx.form], st.blocks, tx);
      }
    }
  }

  lemma ShuffledWhenClosed(env: Env, f: Form, blocks: BlockStore, tx: Tx)
    requires tx.ShuffleBallots? && ShuffleAllowed(env, f, blocks, tx)
    ensures f.status == Closed
  {
  }

  // ----- Shares

  /** Every check on a submission of shares. */
  ghost predicate ShareChecks(env: Env, f: Form, tx: Tx)
    requires tx.RegisterPubShares?
  {
    && f.status == ShuffledBallots && tx.publicKey in f.roster
    && env.sharesSigned(tx.publicKey, tx.form, tx.index, tx.pubshares, tx.signature)
    && f.shuffles != [] && |tx.pubshares| == |LastBallots(f)|
    && (forall i :: 0 <= i < |LastBallots(f)| ==> |tx.pubshares[i]| == |LastBallots(f)[i]|)
    && (forall u :: 0 <= u < |f.units.pubKeys| ==> f.units.pubKeys[u] != tx.publicKey)
    && (forall u :: 0 <= u < |f.units.indexes| ==> f.units.indexes[u] != tx.index)
  }

  /** Shares, honest or not, are accepted exactly when they pass every check, the signature included. */
  lemma SharesRule(env: Env, st: Store, tx: Tx)
    requires tx.RegisterPubShares?
    ensures var o := Apply(env, st, tx);
            && (o.ok <==> tx.form in st.forms && ShareChecks(env, st.forms[tx.form], tx))
            && (!o.ok ==> o.store == st)
            && (o.ok ==>
                  var f := st.forms[tx.form];
                  var u := PubsharesUnits(f.units.pubshares + [tx.pubshares], f.units.pubKeys + [tx.publicKey],
                                          f.units.indexes + [tx.index]);
                  o.store == st.(forms := st.forms[tx.form := f.(
                    units := u,
                    status := if |u.pubshares| >= f.threshold then PubSharesSubmitted else ShuffledBallots)]))
  {
    if tx.form in st.forms {
      var f := st.forms[tx.form];
      assert SharesAllowed(env, f, tx) <==> ShareChecks(env, f, tx);
    }
  }

  // ----- Phases

  /** Opening: an owner, an initial form, and a key from the key generation. */
  lemma OpenRule(env: Env, st: Store, tx: Tx)
    requires Inv(env, st) && tx.OpenForm?
    ensures var o := Apply(env, st, tx);
            && (o.ok <==>
                  && tx.form in st.forms && st.forms[tx.form].status == Initial
                  && Among(st.forms[tx.form].owners, tx.userID) && tx.dkgKey.Some?)
            && o.store == if o.ok
                          then st.(forms :=
                              st.forms[tx.form := st.forms[tx.form].(status := Open, pubkey := tx.dkgKey)])
                          else st
  {
    if tx.form in st.forms {
      ListedIsAmong(st.forms[tx.form].owners, tx.userID);
      assert FormInv(env, st.forms[tx.form]);
      hide Listed, Among, SettingsInv, ShufflesInv, UnitsInv;
    }
  }

  /** Closing: an owner, an open form, and a counter above one. */
  lemma CloseRule(env: Env, st: Store, tx: Tx)
    requires tx.CloseForm?
    ensures var o := Apply(env, st, tx);
            && (o.ok <==>
                  && tx.form in st.forms && st.forms[tx.form].status == Open
                  && Among(st.forms[tx.form].owners, tx.userID) && st.forms[tx.form].index.ballotCount > 1)
            && o.store == if o.ok then st.(forms := st.forms[tx.form := st.forms[tx.form].(status := Closed)]) else st
  {
    if tx.form in st.forms {
      ListedIsAmong(st.forms[tx.form].owners, tx.userID);
      hide Listed, Among;
    }
  }

  /** Publishing: an owner, all shares, and every ballot decrypts. */
  lemma CombineRule(env: Env, st: Store, tx: Tx)
    requires tx.CombineShares?
    ensures var o := Apply(env, st, tx);
            && (o.ok <==>
                  && tx.form in st.forms && st.forms[tx.form].status == PubSharesSubmitted
                  && Among(st.forms[tx.form].owners, tx.userID) && Revealed(env, st.forms[tx.form]).Some?)
            && o.store == if o.ok
                          then st.(forms := st.forms[tx.form := st.forms[tx.form].(
                                 status := ResultAvailable, decrypted := Revealed(env, st.forms[tx.form]).value)])
                          else st
  {
    hide Revealed;
    if tx.form in st.forms {
      ListedIsAmong(st.forms[tx.form].owners, tx.userID);
      hide Listed, Among;
    }
  }

  /** Canceling: an owner, in any phase. */
  lemma CancelRule(env: Env, st: Store, tx: Tx)
    requires tx.CancelForm?
    ensures var o := Apply(env, st, tx);
            && (o.ok <==> tx.form in st.forms && Among(st.forms[tx.form].owners, tx.userID))
            && o.store == if o.ok then st.(forms := st.forms[tx.form := st.forms[tx.form].(status := Canceled)]) else st
  {
    if tx.form in st.forms {
      ListedIsAmong(st.forms[tx.form].owners, tx.userID);
      hide Listed, Among;
    }
  }

  /** Creating: an administrator and a valid configuration. The new form is empty, owned by its creator alone,
      with nobody registered to vote. */
  lemma CreateRule(env: Env, st: Store, tx: Tx)
    requires Inv(env, st) && tx.CreateForm? && Admissible(st, tx)
    ensures var o := Apply(env, st, tx);
            && (o.ok <==> st.admins.Some? && Among(st.admins.value, tx.userID) && ValidConfig(tx.config))
            && (!o.ok ==> o.store == st)
            && (o.ok ==>
                  && tx.key in o.store.forms && tx.key !in st.forms
                  && var f := o.store.forms[tx.key];
                     && o.store == st.(forms := st.forms[tx.key := f], metadata := st.metadata + [tx.key])
                     && f.config == tx.config && f.roster == tx.roster && f.threshold == env.threshold(|tx.roster|)
                     && f.ballotSize == BallotSize(tx.config) && f.status == Initial && f.pubkey.None?
                     && f.index == Index([], 0) && f.shuffles == [] && f.units == PubsharesUnits([], [], [])
                     && f.decrypted == [] && f.voters == []
                     && |f.owners| == 1 && Names(tx.userID, f.owners[0]))
  {
    ParsedIsPerson(tx.userID);
    if st.admins.Some? { ListedIsAmong(st.admins.value, tx.userID); }
    CreateKeepsInv(env, st, tx);
    hide Inv, Names, ValidConfig, BallotSize, Among, Person, Canonical;
  }

  // ----- Roles

  /** The list gains one entry of the person. */
  ghost predicate Gains(before: seq<int>, after: seq<int>, userID: string) {
    exists n :: Names(userID, n) && after == before + [n]
  }

  /** The list loses one entry of the person. */
  ghost predicate Loses(before: seq<int>, after: seq<int>, userID: string) {
    exists n :: Names(userID, n) && n in before && multiset(after) == multiset(before) - multiset{n}
  }

  lemma GainIs(list: seq<int>, userID: string)
    requires SciperToInt(userID).Some?
    ensures Gains(list, list + [SciperToInt(userID).value], userID)
  {
    ParsedIsPerson(userID);
  }

  lemma LossIs(list: seq<int>, userID: string)
    requires Listed(list, userID)
    ensures Loses(list, RemoveFirst(list, SciperToInt(userID).value), userID)
  {
    ParsedIsPerson(userID);
    RemoveFirstRemoves(list, SciperToInt(userID).value);
  }

  /** The four role commands on a form: only an owner may give them, for a person, and a removal needs someone
      to remove; the last owner stays. Only the named list changes, by one entry of that person. */
  lemma RoleRule(env: Env, st: Store, tx: Tx)
    requires tx.AddVoter? || tx.RemoveVoter? || tx.AddOwner? || tx.RemoveOwner?
    ensures var o := Apply(env, st, tx);
            && (o.ok <==>
                  && tx.form in st.forms && Among(st.forms[tx.form].owners, tx.performing) && Person(tx.target)
                  && (tx.RemoveVoter? ==> Among(st.forms[tx.form].voters, tx.target))
                  && (tx.RemoveOwner? ==>
                      Among(st.forms[tx.form].owners, tx.target) && |st.forms[tx.form].owners| >= 2))
            && (!o.ok ==> o.store == st)
            && (o.ok ==>
                  && tx.form in o.store.forms
                  && var f, g := st.forms[tx.form], o.store.forms[tx.form];
                     && o.store == st.(forms := st.forms[tx.form := g])
                     && g == f.(owners := g.owners, voters := g.voters)
                     && (if tx.AddVoter? then Gains(f.voters, g.voters, tx.target)
                         else if tx.RemoveVoter? then Loses(f.voters, g.voters, tx.target)
                         else g.voters == f.voters)
                     && (if tx.AddOwner? then Gains(f.owners, g.owners, tx.target)
                         else if tx.RemoveOwner? then Loses(f.owners, g.owners, tx.target)
                         else g.owners == f.owners))
  {
    ParsedIsPerson(tx.target);
    if tx.form in st.forms {
      var f := st.forms[tx.form];
      ListedIsAmong(f.owners, tx.performing);
      ListedIsAmong(f.owners, tx.target);
      ListedIsAmong(f.voters, tx.target);
      if SciperToInt(tx.target).Some? {
        GainIs(f.owners, tx.target);
        GainIs(f.voters, tx.target);
      }
      if Listed(f.voters, tx.target) { LossIs(f.voters, tx.target); }
      if Listed(f.owners, tx.target) { LossIs(f.owners, tx.target); }
      assert Listed(f.voters, tx.target) || Listed(f.owners, tx.target) ==> SciperToInt(tx.target).Some?;
      hide Listed, Among, Person, Names, Gains, Loses, SciperToInt, RemoveFirst;
    }
  }

  /** The administrator list: the first command creates it for whoever it names; later ones need an
      administrator, keep the list duplicate-free, and never empty it. */
  lemma AdminRule(env: Env, st: Store, tx: Tx)
    requires Inv(env, st) && (tx.AddAdmin? || tx.RemoveAdmin?)
    ensures var o := Apply(env, st, tx);
            && (o.ok <==>
                  if st.admins.None? then tx.AddAdmin? && Person(tx.target)
                  else && Among(st.admins.value, tx.performing)
                       && (if tx.AddAdmin? then Person(tx.target) && !Among(st.admins.value, tx.target)
                           else Among(st.admins.value, tx.target) && |st.admins.value| >= 2))
            && (!o.ok ==> o.store == st)
            && (o.ok ==>
                  && o.store.admins.Some? && o.store.forms == st.forms && o.store.blocks == st.blocks
                  && o.store.metadata == (if st.admins.None? then st.metadata + ["EVOTAdminList"] else st.metadata)
                  && var before := st.admins.GetOr([]);
                     if tx.AddAdmin? then Gains(before, o.store.admins.value, tx.target)
                     else Loses(before, o.store.admins.value, tx.target))
  {
    hide Inv, Among, Person, Names, Gains, Loses, RemoveFirst, SciperToInt;
    AdminsKeepInv(env, st, tx);
    ParsedIsPerson(tx.target);
    var list := st.admins.GetOr([]);
    ListedIsAmong(list, tx.performing);
    ListedIsAmong(list, tx.target);
    if SciperToInt(tx.target).Some? { GainIs(list, tx.target); }
    if Listed(list, tx.target) { LossIs(list, tx.target); }
    AdminListed(env, st);
    assert st.admins.None? && SciperToInt(tx.target).Some? ==>
        [] + [SciperToInt(tx.target).value] == [SciperToInt(tx.target).value];
  }

  lemma AdminListed(env: Env, st: Store)
    requires Inv(env, st)
    ensures ADMIN_LIST_ID in st.metadata <==> st.admins.Some?
  {
    hide FormInv;
    assert ADMIN_LIST_ID in st.metadata <==> ADMIN_LIST_ID in Sequences.Elements(st.metadata);
  }

  // ----- Over whole runs

  /** At any point of a run a cast is accepted exactly from a person registered at that point, on an open form,
      with the form's number of chunks. */
  lemma CastAcceptedAt(env: Env, run: Run, n: nat)
    requires ValidThreshold(env) && AdmissibleRun(env, run) && n < |run| && run[n].CastVote?
    ensures var st, tx := At(env, run, n), run[n];
            Apply(env, st, tx).ok <==>
              && tx.form in st.forms && st.forms[tx.form].status == Open
              && Among(st.forms[tx.form].voters, tx.voterID)
              && FillsChunks(|tx.ballot|, st.forms[tx.form].ballotSize)
  {
    AtStep(env, run, n);
    hide Apply, Inv, At, Among, FillsChunks;
    CastRule(env, At(env, run, n), run[n]);
  }

  /** The same transactions lead to the same points. */
  lemma AtFront(env: Env, run: Run, n: nat)
    requires run != [] && n < |run|
    ensures At(env, run, n) == At(env, Front(run), n)
    ensures n < |run| - 1 ==> run[n] == Front(run)[n]
  {
    assert run[..n] == Front(run)[..n];
  }

  lemma LastStep(env: Env, run: Run)
    requires ValidThreshold(env) && AdmissibleRun(env, run) && run != []
    ensures var st := At(env, run, |run| - 1);
            && st == After(env, Front(run)) && Inv(env, st) && Admissible(st, Last(run))
            && After(env, run) == Apply(env, st, Last(run)).store
  {
    hide Apply, Inv, Admissible;
    ReachableInv(env, Front(run));
    assert run[..|run| - 1] == Front(run);
  }

  /** Transaction n of the run is the accepted cast v on the form, by a person registered at that point. */
  ghost predicate CastBy(env: Env, run: Run, n: nat, key: Key, v: Vote) {
    && n < |run| && run[n] == CastVote(key, v.voterID, v.ciphervote)
    && key in At(env, run, n).forms
    && At(env, run, n).forms[key].status == Open
    && Among(At(env, run, n).forms[key].voters, v.voterID)
  }

  /** Every entry of a form's cast log was cast while its person was registered and the form was open. */
  lemma {:induction false} LoggedWhileRegistered(env: Env, run: Run, key: Key, k: nat) returns (n: nat)
    requires ValidThreshold(env) && AdmissibleRun(env, run) && k < |CastLog(env, run, key)|
    ensures CastBy(env, run, n, key, CastLog(env, run, key)[k])
  {
    hide Apply, Inv, Admissible, Among, At;
    var log := CastLog(env, Front(run), key);
    LastStep(env, run);
    if k < |log| {
      n := LoggedWhileRegistered(env, Front(run), key, k);
      AtFront(env, run, n);
    } else {
      n := |run| - 1;
      CastRule(env, After(env, Front(run)), Last(run));
    }
  }

  /** Transaction n of the run is the node's own shuffle for round r, by command of someone who was an owner. */
  ghost predicate ShuffledBy(env: Env, run: Run, n: nat, key: Key, r: nat, s: ShuffleInstance) {
    && n < |run| && run[n].ShuffleBallots? && run[n].form == key && run[n].round == r
    && run[n].publicKey == s.shuffler && run[n].ballots == s.ballots && run[n].proof == s.proof
    && env.shuffleSigned(s.shuffler, key, s.ballots, run[n].signature)
    && key in At(env, run, n).forms
    && s.shuffler in At(env, run, n).forms[key].roster && Among(At(env, run, n).forms[key].owners, run[n].userID)
  }

  /** What a step does to a form's shuffles, shares and lists: nothing, unless it is the command for it. */
  lemma StepLists(env: Env, st: Store, tx: Tx, key: Key)
    requires ValidThreshold(env) && Inv(env, st) && Admissible(st, tx) && key in Apply(env, st, tx).store.forms
    ensures var o, g := Apply(env, st, tx), Apply(env, st, tx).store.forms[key];
            if key !in st.forms then
              && tx.CreateForm? && o.ok && tx.key == key
              && g.shuffles == [] && g.units == PubsharesUnits([], [], []) && g.voters == []
            else var f := st.forms[key];
              && (g.shuffles == f.shuffles || (o.ok && tx.ShuffleBallots? && tx.form == key))
              && (g.units == f.units || (o.ok && tx.RegisterPubShares? && tx.form == key))
              && (g.voters == f.voters || (o.ok && (tx.AddVoter? || tx.RemoveVoter?) && tx.form == key))
              && (g.owners == f.owners || (o.ok && (tx.AddOwner? || tx.RemoveOwner?) && tx.form == key))
  {
    hide Inv, FormInv, BlocksAfter, ValidConfig, Revealed;
    StepKeys(env, st, tx, key);
    if key !in st.forms {
      CreateKeepsInv(env, st, tx);
    } else if !Targets(tx, key) {
      StepElsewhere(env, st, tx, key);
    } else {
      hide ShuffleAllowed, SharesAllowed, CastAllowed, Listed, NextIndex;
    }
  }

  /** Every accepted shuffle of a form was signed by its shuffler, a member of the roster. */
  lemma {:induction false} ShufflesSigned(env: Env, run: Run, key: Key, r: nat) returns (n: nat)
    requires ValidThreshold(env) && AdmissibleRun(env, run)
    requires key in After(env, run).forms && r < |After(env, run).forms[key].shuffles|
    ensures ShuffledBy(env, run, n, key, r, After(env, run).forms[key].shuffles[r])
  {
    hide Apply, Inv, Admissible, Among, At;
    assert run != [];
    LastStep(env, run);
    var st, tx := After(env, Front(run)), Last(run);
    StepLists(env, st, tx, key);
    ShuffleAtLast(env, st, tx, key);
    if key in st.forms && r < |st.forms[key].shuffles| {
      n := ShufflesSigned(env, Front(run), key, r);
      AtFront(env, run, n);
    } else {
      n := |run| - 1;
    }
  }

  lemma ShuffleAtLast(env: Env, st: Store, tx: Tx, key: Key)
    requires key in st.forms
    ensures tx.ShuffleBallots? && tx.form == key && Apply(env, st, tx).ok ==>
              var f := st.forms[key];
              && tx.round == |f.shuffles| && env.shuffleSigned(tx.publicKey, key, tx.ballots, tx.signature)
              && tx.publicKey in f.roster && Among(f.owners, tx.userID)
              && key in Apply(env, st, tx).store.forms
              && Apply(env, st, tx).store.forms[key].shuffles
                 == f.shuffles + [ShuffleInstance(tx.ballots, tx.proof, tx.vector, tx.publicKey)]
  {
    hide Apply, Among;
    if tx.ShuffleBallots? { ShuffleRule(env, st, tx); }
  }

  /** Transaction n of the run is the node's own submission of shares. */
  ghost predicate SubmittedBy(env: Env, run: Run, n: nat, key: Key, node: Key, index: int, unit: PubsharesUnit) {
    && n < |run| && run[n].RegisterPubShares? && run[n].form == key
    && run[n].publicKey == node && run[n].index == index && run[n].pubshares == unit
    && env.sharesSigned(node, key, index, unit, run[n].signature)
    && key in At(env, run, n).forms && node in At(env, run, n).forms[key].roster
  }

  lemma SharesAtLast(env: Env, st: Store, tx: Tx, key: Key)
    requires key in st.forms
    ensures tx.RegisterPubShares? && tx.form == key && Apply(env, st, tx).ok ==>
              var f, u := st.forms[key], st.forms[key].units;
              && env.sharesSigned(tx.publicKey, key, tx.index, tx.pubshares, tx.signature) && tx.publicKey in f.roster
              && key in Apply(env, st, tx).store.forms
              && Apply(env, st, tx).store.forms[key].units
                 == PubsharesUnits(u.pubshares + [tx.pubshares], u.pubKeys + [tx.publicKey], u.indexes + [tx.index])
  {
    hide Apply;
    if tx.RegisterPubShares? { SharesRule(env, st, tx); }
  }

  lemma UnitsParallel(env: Env, st: Store, key: Key)
    requires Inv(env, st) && key in st.forms
    ensures var u := st.forms[key].units; |u.pubshares| == |u.pubKeys| == |u.indexes|
  {
    assert FormInv(env, st.forms[key]);
  }

  /** Every accepted unit of shares was signed by its node, a member of the roster. */
  lemma {:induction false} SharesSigned(env: Env, run: Run, key: Key, k: nat) returns (n: nat)
    requires ValidThreshold(env) && AdmissibleRun(env, run) && key in After(env, run).forms
    requires var u := After(env, run).forms[key].units; k < |u.pubshares| && k < |u.pubKeys| && k < |u.indexes|
    ensures var u := After(env, run).forms[key].units;
            SubmittedBy(env, run, n, key, u.pubKeys[k], u.indexes[k], u.pubshares[k])
  {
    hide Apply, Inv, Admissible, At;
    assert run != [];
    LastStep(env, run);
    var st, tx := After(env, Front(run)), Last(run);
    StepLists(env, st, tx, key);
    SharesAtLast(env, st, tx, key);
    UnitsParallel(env, st, key);
    if k < |st.forms[key].units.pubshares| {
      n := SharesSigned(env, Front(run), key, k);
      AtFront(env, run, n);
    } else {
      n := |run| - 1;
    }
  }

  /** Transaction n of the run made the person an owner: the creation of the form, by the person, or the command
      of someone who was an owner then. */
  ghost predicate MadeOwner(env: Env, run: Run, n: nat, key: Key, owner: int) {
    && n < |run|
    && (if run[n].CreateForm? then run[n].key == key && Names(run[n].userID, owner)
        else && run[n].AddOwner? && run[n].form == key && Names(run[n].target, owner)
             && key in At(env, run, n).forms && Among(At(env, run, n).forms[key].owners, run[n].performing))
  }

  lemma NamesOne(userID: string, m: int, n: int)
    requires Names(userID, m) && Names(userID, n)
    ensures m == n
  {
    DecimalRoundTrip(m);
    DecimalRoundTrip(n);
  }

  lemma LossIsSubset(before: seq<int>, after: seq<int>, userID: string)
    requires Loses(before, after, userID)
    ensures forall x :: x in after ==> x in before
  {
    hide Names;
    forall x | x in after
      ensures x in before
    {
      assert x in multiset(after);
      assert x in multiset(before);
    }
  }

  /** A list after a step has nobody new but the person added. */
  lemma GainedOrKept(before: seq<int>, after: seq<int>, userID: string, x: int)
    requires x in after && x !in before
    ensures !Loses(before, after, userID)
    ensures Gains(before, after, userID) ==> Names(userID, x)
  {
    hide Names, Loses;
    if Loses(before, after, userID) { LossIsSubset(before, after, userID); }
  }

  lemma OwnerAtLast(env: Env, st: Store, tx: Tx, key: Key, x: int)
    requires ValidThreshold(env) && Inv(env, st) && Admissible(st, tx)
    requires key in Apply(env, st, tx).store.forms && x in Apply(env, st, tx).store.forms[key].owners
    requires key in st.forms ==> x !in st.forms[key].owners
    ensures if tx.CreateForm? then tx.key == key && Names(tx.userID, x)
            else && tx.AddOwner? && tx.form == key && Names(tx.target, x)
                 && key in st.forms && Among(st.forms[key].owners, tx.performing)
  {
    hide Apply, Inv, Admissible, Among, Names, Gains, Loses, Person;
    StepLists(env, st, tx, key);
    if key !in st.forms {
      CreateRule(env, st, tx);
    } else {
      RoleRule(env, st, tx);
      GainedOrKept(st.forms[key].owners, Apply(env, st, tx).store.forms[key].owners, tx.target, x);
    }
  }

  /** Every owner of a form is its creator, or was added by someone who was an owner then. */
  lemma {:induction false} OwnersMade(env: Env, run: Run, key: Key, owner: int) returns (n: nat)
    requires ValidThreshold(env) && AdmissibleRun(env, run)
    requires key in After(env, run).forms && owner in After(env, run).forms[key].owners
    ensures MadeOwner(env, run, n, key, owner)
  {
    hide Apply, Inv, Admissible, Among, Names, At;
    assert run != [];
    LastStep(env, run);
    var st := After(env, Front(run));
    if key in st.forms && owner in st.forms[key].owners {
      n := OwnersMade(env, Front(run), key, owner);
      AtFront(env, run, n);
    } else {
      n := |run| - 1;
      OwnerAtLast(env, st, Last(run), key, owner);
    }
  }

  /** Transaction n of the run registered the person to vote, by command of someone who was an owner then. */
  ghost predicate MadeVoter(env: Env, run: Run, n: nat, key: Key, voter: int) {
    && n < |run| && run[n].AddVoter? && run[n].form == key && Names(run[n].target, voter)
    && key in At(env, run, n).forms && Among(At(env, run, n).forms[key].owners, run[n].performing)
  }

  lemma VoterAtLast(env: Env, st: Store, tx: Tx, key: Key, x: int)
    requires ValidThreshold(env) && Inv(env, st) && Admissible(st, tx)
    requires key in Apply(env, st, tx).store.forms && x in Apply(env, st, tx).store.forms[key].voters
    requires key in st.forms ==> x !in st.forms[key].voters
    ensures tx.AddVoter? && tx.form == key && Names(tx.target, x)
    ensures key in st.forms && Among(st.forms[key].owners, tx.performing)
  {
    hide Apply, Inv, Admissible, Among, Names, Gains, Loses, Person;
    StepLists(env, st, tx, key);
    RoleRule(env, st, tx);
    GainedOrKept(st.forms[key].voters, Apply(env, st, tx).store.forms[key].voters, tx.target, x);
  }

  /** Everyone registered to vote was registered by someone who was an owner then. */
  lemma {:induction false} VotersMade(env: Env, run: Run, key: Key, voter: int) returns (n: nat)
    requires ValidThreshold(env) && AdmissibleRun(env, run)
    requires key in After(env, run).forms && voter in After(env, run).forms[key].voters
    ensures MadeVoter(env, run, n, key, voter)
  {
    hide Apply, Inv, Admissible, Among, Names, At;
    assert run != [];
    LastStep(env, run);
    var st := After(env, Front(run));
    if key in st.forms && voter in st.forms[key].voters {
      n := VotersMade(env, Front(run), key, voter);
      AtFront(env, run, n);
    } else {
      n := |run| - 1;
      VoterAtLast(env, st, Last(run), key, voter);
    }
  }

  /** Transaction n of the run made the person an administrator: the first command of all, or the command of
      someone who was an administrator then. */
  ghost predicate MadeAdmin(env: Env, run: Run, n: nat, admin: int) {
    && n < |run| && run[n].AddAdmin? && Names(run[n].target, admin)
    && (At(env, run, n).admins.Some? ==> Among(At(env, run, n).admins.value, run[n].performing))
  }

  lemma AdminAtLast(env: Env, st: Store, tx: Tx, x: int)
    requires ValidThreshold(env) && Inv(env, st) && Admissible(st, tx)
    requires x in Apply(env, st, tx).store.admins.GetOr([]) && x !in st.admins.GetOr([])
    ensures tx.AddAdmin? && Names(tx.target, x)
    ensures st.admins.Some? ==> Among(st.admins.value, tx.performing)
  {
    if !tx.AddAdmin? && !tx.RemoveAdmin? { AdminsElsewhere(env, st, tx); }
    hide Apply, Inv, Admissible, Among, Names, Gains, Loses, Person;
    AdminRule(env, st, tx);
    GainedOrKept(st.admins.GetOr([]), Apply(env, st, tx).store.admins.GetOr([]), tx.target, x);
  }

  lemma AdminsElsewhere(env: Env, st: Store, tx: Tx)
    requires !tx.AddAdmin? && !tx.RemoveAdmin?
    ensures Apply(env, st, tx).store.admins == st.admins
  {
    hide NextForm, ValidConfig, BlocksAfter, NewForm;
  }

  /** Every administrator but the first was added by someone who was an administrator then. */
  lemma {:induction false} AdminsMade(env: Env, run: Run, admin: int) returns (n: nat)
    requires ValidThreshold(env) && AdmissibleRun(env, run) && admin in After(env, run).admins.GetOr([])
    ensures MadeAdmin(env, run, n, admin)
  {
    hide Apply, Inv, Admissible, Among, Names, At;
    assert run != [];
    LastStep(env, run);
    var st := After(env, Front(run));
    if admin in st.admins.GetOr([]) {
      n := AdminsMade(env, Front(run), admin);
      AtFront(env, run, n);
    } else {
      n := |run| - 1;
      AdminAtLast(env, st, Last(run), admin);
    }
  }
}
