/** What holds in every reachable store, and what every command keeps. */
module Invariant {
  import opened Sequences
  import opened Configuration
  import opened Blocks
  import opened Ledger

  ghost predicate ValidThreshold(env: Env) {
    forall n: nat :: n > 0 ==> 1 <= env.threshold(n) <= n
  }

  // ----- One form

  function Shufflers(f: Form): (keys: seq<Key>)
    ensures |keys| == |f.shuffles|
  {
    seq(|f.shuffles|, r requires 0 <= r < |f.shuffles| => f.shuffles[r].shuffler)
  }

  ghost predicate AllIn<T>(s: seq<T>, t: seq<T>) {
    forall i :: 0 <= i < |s| ==> s[i] in t
  }

  ghost predicate AllScipers(list: seq<int>) {
    forall i :: 0 <= i < |list| ==> InSciperRange(list[i])
  }

  /** Configuration, threshold and roles. */
  ghost predicate SettingsInv(env: Env, f: Form) {
    && ValidConfig(f.config) && f.ballotSize == BallotSize(f.config)
    && f.threshold == env.threshold(|f.roster|)
    && f.owners != [] && AllScipers(f.owners) && AllScipers(f.voters)
    && f.index.ballotCount < COUNT_LIMIT
  }

  /** Each roster member shuffles at most once, and no list is ragged below its first ballot. */
  ghost predicate ShufflesInv(f: Form) {
    && Distinct(Shufflers(f)) && AllIn(Shufflers(f), f.roster)
    && forall r :: 0 <= r < |f.shuffles| ==> Rectangular(f.shuffles[r].ballots)
  }

  /** The three lists of shares are parallel, keys and indexes are distinct, and every unit has the shape
      of the last shuffled list. */
  ghost predicate UnitsInv(f: Form) {
    && |f.units.pubshares| == |f.units.pubKeys| == |f.units.indexes|
    && Distinct(f.units.pubKeys) && AllIn(f.units.pubKeys, f.roster)
    && Distinct(f.units.indexes)
    && (f.units.pubshares != [] ==> f.shuffles != [])
    && forall u :: 0 <= u < |f.units.pubshares| ==> SameShape(f.units.pubshares[u], LastBallots(f))
  }

  /** How far each phase has come. */
  predicate PhaseInv(f: Form) {
    var shuffles, units, n := |f.shuffles|, |f.units.pubshares|, f.threshold;
    match f.status
    case Initial => f.pubkey.None? && f.index == Index([], 0) && shuffles == 0 && units == 0 && f.decrypted == []
    case Open => f.pubkey.Some? && shuffles == 0 && units == 0 && f.decrypted == []
    case Closed => f.pubkey.Some? && (f.roster != [] ==> shuffles < n) && units == 0 && f.decrypted == []
    case ShuffledBallots => f.pubkey.Some? && 0 < shuffles == n && units < n && f.decrypted == []
    case PubSharesSubmitted => f.pubkey.Some? && 0 < shuffles == n && units == n && f.decrypted == []
    case ResultAvailable => f.pubkey.Some? && 0 < shuffles == n && units == n && |f.decrypted| == |LastBallots(f)|
    case Canceled => f.roster != [] ==> shuffles <= n && units <= n
  }

  ghost predicate FormInv(env: Env, f: Form) {
    SettingsInv(env, f) && ShufflesInv(f) && UnitsInv(f) && PhaseInv(f)
  }

  // ----- The store

  ghost predicate IndexStored(f: Form, blocks: BlockStore) {
    && (f.index.ballotCount != 0 ==> f.index.suffragiaIDs != [])
    && forall i :: 0 <= i < |f.index.suffragiaIDs| ==> f.index.suffragiaIDs[i] in blocks
  }

  function Indexed(st: Store): (keys: set<Key>) {
    st.forms.Keys + (if st.admins.Some? then {ADMIN_LIST_ID} else {})
  }

  /** The administrators, once there are any, are never all removed. */
  ghost predicate AdminsInv(st: Store) {
    && (st.admins.Some? ==> st.admins.value != [] && Distinct(st.admins.value) && AllScipers(st.admins.value))
    && (st.admins.None? ==> st.forms.Keys == {})
  }

  /** The metadata lists every stored form and the administrator list once, and nothing else. */
  ghost predicate MetadataInv(st: Store) {
    && Distinct(st.metadata) && Elements(st.metadata) == Indexed(st)
    && ADMIN_LIST_ID !in st.forms
  }

  ghost predicate Inv(env: Env, st: Store) {
    && AllPaired(st.blocks) && AdminsInv(st) && MetadataInv(st)
    && forall k :: k in st.forms ==> FormInv(env, st.forms[k]) && IndexStored(st.forms[k], st.blocks)
  }

  // ----- Preservation, command by command

  lemma DistinctPush<T>(s: seq<T>, x: T)
    ensures Distinct(s + [x]) <==> Distinct(s) && x !in s
  {
    DistinctAppend(s, [x]);
    assert Elements([x]) == {x} && (x in Elements(s) <==> x in s);
  }

  lemma ShuffledKeepsInv(env: Env, f: Form, blocks: BlockStore, tx: Tx)
    requires ValidThreshold(env) && FormInv(env, f) && tx.ShuffleBallots? && ShuffleAllowed(env, f, blocks, tx)
    ensures FormInv(env, Shuffled(f, ShuffleInstance(tx.ballots, tx.proof, tx.vector, tx.publicKey)))
  {
    var s := ShuffleInstance(tx.ballots, tx.proof, tx.vector, tx.publicKey);
    var g := Shuffled(f, s);
    assert Shufflers(g) == Shufflers(f) + [tx.publicKey];
    DistinctPush(Shufflers(f), tx.publicKey);
  }

  lemma RegisteredKeepsInv(env: Env, f: Form, tx: Tx)
    requires FormInv(env, f) && tx.RegisterPubShares? && SharesAllowed(env, f, tx)
    ensures FormInv(env, Registered(f, tx.pubshares, tx.publicKey, tx.index))
  {
    var g := Registered(f, tx.pubshares, tx.publicKey, tx.index);
    DistinctPush(f.units.pubKeys, tx.publicKey);
    DistinctPush(f.units.indexes, tx.index);
    assert Shufflers(g) == Shufflers(f);
  }

  lemma RemoveFirstKeepsScipers(list: seq<int>, n: int)
    requires AllScipers(list)
    ensures AllScipers(RemoveFirst(list, n))
    ensures |list| > 1 ==> RemoveFirst(list, n) != []
  {
    RemoveFirstRemoves(list, n);
    var r := RemoveFirst(list, n);
    forall i | 0 <= i < |r|
      ensures InSciperRange(r[i])
    {
      assert r[i] in multiset(r);
      assert r[i] in multiset(list);
    }
  }

  lemma RemoveFirstKeepsDistinct(list: seq<int>, n: int)
    requires Distinct(list)
    ensures Distinct(RemoveFirst(list, n))
  {
    RemoveFirstRemoves(list, n);
    DistinctMultiplicity(list);
    forall x
      ensures multiset(RemoveFirst(list, n))[x] <= 1
    {
      assert multiset(list)[x] <= 1;
    }
    DistinctMultiplicity(RemoveFirst(list, n));
  }

  /** What a command does not touch stays as it was. */
  lemma FrameInv(f: Form, g: Form)
    requires ShufflesInv(f) && UnitsInv(f)
    requires g.shuffles == f.shuffles && g.units == f.units && g.roster == f.roster
    ensures ShufflesInv(g) && UnitsInv(g)
  {
    assert Shufflers(g) == Shufflers(f);
  }

  predicate ChangesRoles(tx: Tx) {
    tx.AddVoter? || tx.RemoveVoter? || tx.AddOwner? || tx.RemoveOwner?
  }

  lemma RolesKeepInv(env: Env, f: Form, blocks: BlockStore, tx: Tx)
    requires FormInv(env, f) && ChangesRoles(tx) && NextForm(env, f, blocks, tx).Some?
    ensures FormInv(env, NextForm(env, f, blocks, tx).value)
  {
    hide ShufflesInv, UnitsInv, ValidConfig, ForestSize;
    FrameInv(f, NextForm(env, f, blocks, tx).value);
    var n := SciperToInt(tx.target).value;
    if tx.RemoveVoter? { RemoveFirstKeepsScipers(f.voters, n); }
    if tx.RemoveOwner? { RemoveFirstKeepsScipers(f.owners, n); }
  }

  lemma PhasesKeepInv(env: Env, f: Form, blocks: BlockStore, tx: Tx)
    requires ValidThreshold(env) && FormInv(env, f) && NamesForm(tx) && !tx.DeleteForm?
    requires !ChangesRoles(tx) && !tx.ShuffleBallots? && !tx.RegisterPubShares?
    requires NextForm(env, f, blocks, tx).Some?
    ensures FormInv(env, NextForm(env, f, blocks, tx).value)
  {
    hide ShufflesInv, UnitsInv, BlockId;
    FrameInv(f, NextForm(env, f, blocks, tx).value);
  }

  /** A form keeps its invariant through every accepted command on it. */
  lemma NextFormKeepsInv(env: Env, f: Form, blocks: BlockStore, tx: Tx)
    requires ValidThreshold(env) && FormInv(env, f)
    requires NamesForm(tx) && !tx.DeleteForm? && NextForm(env, f, blocks, tx).Some?
    ensures FormInv(env, NextForm(env, f, blocks, tx).value)
  {
    hide FormInv;
    if tx.ShuffleBallots? {
      ShuffledKeepsInv(env, f, blocks, tx);
    } else if tx.RegisterPubShares? {
      RegisteredKeepsInv(env, f, tx);
    } else if ChangesRoles(tx) {
      RolesKeepInv(env, f, blocks, tx);
    } else {
      PhasesKeepInv(env, f, blocks, tx);
    }
  }

  // ----- Preservation, for the whole store

  lemma CastKeepsStored(env: Env, st: Store, f: Form, tx: Tx)
    requires AllPaired(st.blocks) && IndexStored(f, st.blocks) && f.index.ballotCount < COUNT_LIMIT
    requires tx.CastVote? && CastAllowed(env, f, st.blocks, tx)
    ensures var blocks, g := BlocksAfter(env, f, st.blocks, tx), NextForm(env, f, st.blocks, tx).value;
            AllPaired(blocks) && st.blocks.Keys <= blocks.Keys && IndexStored(g, blocks)
  {
    hide BlockId;
  }

  lemma NextFormKeepsStore(env: Env, st: Store, tx: Tx)
    requires ValidThreshold(env) && Inv(env, st)
    requires NamesForm(tx) && !tx.DeleteForm? && tx.form in st.forms
    ensures Inv(env, ApplyToForm(env, st, st.forms[tx.form], tx).store)
  {
    hide FormInv, NextForm;
    var f := st.forms[tx.form];
    var next := NextForm(env, f, st.blocks, tx);
    if next.Some? {
      NextFormKeepsInv(env, f, st.blocks, tx);
      StoredAfter(env, st, f, tx);
      var after := ApplyToForm(env, st, f, tx).store;
      assert after.forms.Keys == st.forms.Keys;
      forall k | k in after.forms
        ensures FormInv(env, after.forms[k]) && IndexStored(after.forms[k], after.blocks)
      {
        if k != tx.form { assert after.forms[k] == st.forms[k]; }
      }
    }
  }

  lemma StoredAfter(env: Env, st: Store, f: Form, tx: Tx)
    requires FormInv(env, f) && AllPaired(st.blocks) && IndexStored(f, st.blocks)
    requires NamesForm(tx) && !tx.DeleteForm? && NextForm(env, f, st.blocks, tx).Some?
    ensures var blocks, g := BlocksAfter(env, f, st.blocks, tx), NextForm(env, f, st.blocks, tx).value;
            AllPaired(blocks) && st.blocks.Keys <= blocks.Keys && IndexStored(g, blocks)
  {
    if tx.CastVote? {
      CastKeepsStored(env, st, f, tx);
    } else {
      assert NextForm(env, f, st.blocks, tx).value.index == f.index;
    }
  }

  lemma NewFormInv(env: Env, sciper: int, config: Config, roster: seq<Key>, blocks: BlockStore)
    requires ValidConfig(config) && InSciperRange(sciper)
    ensures FormInv(env, NewForm(env, sciper, config, roster))
              && IndexStored(NewForm(env, sciper, config, roster), blocks)
  {
  }

  /** A transaction as the chain delivers it: forms get fresh keys, and a decoded delete carries no user. */
  predicate Admissible(st: Store, tx: Tx) {
    && (tx.CreateForm? ==> tx.key !in st.forms && tx.key != ADMIN_LIST_ID)
    && (tx.DeleteForm? ==> tx.userID == "")
  }

  lemma CreateKeepsInv(env: Env, st: Store, tx: Tx)
    requires Inv(env, st) && tx.CreateForm? && Admissible(st, tx)
    ensures Inv(env, Apply(env, st, tx).store)
    ensures Apply(env, st, tx).ok <==>
              st.admins.Some? && Listed(st.admins.value, tx.userID) && ValidConfig(tx.config)
    ensures !Apply(env, st, tx).ok ==> Apply(env, st, tx).store == st
  {
    hide FormInv, ValidConfig, IndexStored, AllPaired, Distinct;
    if st.admins.Some? && Listed(st.admins.value, tx.userID) && ValidConfig(tx.config) {
      NewFormInv(env, SciperToInt(tx.userID).value, tx.config, tx.roster, st.blocks);
      assert tx.key !in Elements(st.metadata);
      DistinctPush(st.metadata, tx.key);
      ElementsAppend(st.metadata, [tx.key]);
      var after := Apply(env, st, tx).store;
      assert after.metadata == st.metadata + [tx.key];
      assert after.forms.Keys == st.forms.Keys + {tx.key};
      assert Elements([tx.key]) == {tx.key};
    }
  }

  lemma AdminsKeepInv(env: Env, st: Store, tx: Tx)
    requires Inv(env, st) && (tx.AddAdmin? || tx.RemoveAdmin?)
    ensures Inv(env, Apply(env, st, tx).store)
    ensures !Apply(env, st, tx).ok ==> Apply(env, st, tx).store == st
  {
    hide FormInv, IndexStored, AllPaired;
    var n := SciperToInt(tx.target);
    if n.Some? {
      if st.admins.Some? {
        DistinctPush(st.admins.value, n.value);
        RemoveFirstKeepsDistinct(st.admins.value, n.value);
        RemoveFirstKeepsScipers(st.admins.value, n.value);
      } else {
        assert ADMIN_LIST_ID !in Elements(st.metadata);
        DistinctPush(st.metadata, ADMIN_LIST_ID);
        ElementsAppend(st.metadata, [ADMIN_LIST_ID]);
        assert Elements([ADMIN_LIST_ID]) == {ADMIN_LIST_ID};
      }
    }
  }

  lemma NobodyIsListed(list: seq<int>)
    ensures !Listed(list, "")
  {
  }

  /** Every admissible command keeps the invariant, and a rejected one changes nothing although the code
      writes before some of its checks. */
  lemma ApplyKeepsInv(env: Env, st: Store, tx: Tx)
    requires ValidThreshold(env) && Inv(env, st) && Admissible(st, tx)
    ensures Inv(env, Apply(env, st, tx).store)
    ensures !Apply(env, st, tx).ok ==> Apply(env, st, tx).store == st
  {
    hide Inv, NextForm, Enlist;
    if tx.CreateForm? {
      CreateKeepsInv(env, st, tx);
    } else if tx.AddAdmin? || tx.RemoveAdmin? {
      AdminsKeepInv(env, st, tx);
    } else if tx.DeleteForm? {
      if tx.form in st.forms { NobodyIsListed(st.forms[tx.form].owners); }
    } else if tx.form in st.forms {
      NextFormKeepsStore(env, st, tx);
    }
  }

  /** Deleting a form is never accepted, whoever asks. A delete by anyone but a listed owner changes
      nothing. One by a listed owner removes the form and then fails to add its identifier, which is still
      listed: the store is left with an identifier of a form that is gone. */
  lemma DeleteNeverAccepted(env: Env, st: Store, tx: Tx)
    requires Inv(env, st) && tx.DeleteForm?
    ensures var o, byOwner := Apply(env, st, tx), tx.form in st.forms && Listed(st.forms[tx.form].owners, tx.userID);
            && !o.ok
            && o.store == (if byOwner then st.(forms := st.forms - {tx.form}) else st)
            && (byOwner ==> tx.form !in o.store.forms && tx.form in o.store.metadata)
            && (Inv(env, o.store) <==> !byOwner)
  {
    hide FormInv, IndexStored;
    if tx.form in st.forms {
      assert tx.form in Elements(st.metadata);
      if Listed(st.forms[tx.form].owners, tx.userID) {
        var after := Apply(env, st, tx).store;
        assert tx.form in Elements(after.metadata) && tx.form !in Indexed(after);
      }
    }
  }

  lemma EmptyStoreInv(env: Env)
    ensures Inv(env, EMPTY_STORE)
  {
  }
}
