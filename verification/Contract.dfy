/** The voting contract as it runs: each command loads, checks, changes and stores step by step. Every
    method is proved to do exactly what `Ledger.Apply` says, rejections included. */
module Contract {
  import opened Wrappers
  import opened Text
  import opened ElGamal
  import opened Configuration
  import opened BallotReader
  import opened Suffragia
  import opened Blocks
  import opened Ledger
  import opened Invariant

  // ----- Searches

  method GetIndex(list: seq<int>, userID: string) returns (r: Option<int>)
    ensures r.Some? <==> SciperToInt(userID).Some?
    ensures r.Some? && r.value >= 0 ==> r.value < |list| && list[r.value] == SciperToInt(userID).value
                                         && forall j :: 0 <= j < r.value ==> list[j] != SciperToInt(userID).value
    ensures r.Some? ==> (r.value >= 0 <==> Listed(list, userID)) && (r.value < 0 ==> r.value == -1)
  {
    var sciper := SciperToInt(userID);
    if sciper.None? { return None; }
    for i := 0 to |list|
      invariant forall j :: 0 <= j < i ==> list[j] != sciper.value
    {
      if list[i] == sciper.value { return Some(i); }
    }
    return Some(-1);
  }

  method IsRole(list: seq<int>, userID: string) returns (ok: bool)
    ensures ok <==> Listed(list, userID)
  {
    var i := GetIndex(list, userID);
    ok := i.Some? && i.value >= 0;
  }

  lemma {:induction false} RemoveFirstIsSlice(list: seq<int>, i: nat)
    requires i < |list| && forall j :: 0 <= j < i ==> list[j] != list[i]
    ensures RemoveFirst(list, list[i]) == list[..i] + list[i + 1..]
  {
    if i == 0 {
      assert list[..0] + list[1..] == list[1..];
    } else {
      assert list[0] != list[i];
      RemoveFirstIsSlice(list[1..], i - 1);
      assert [list[0]] + list[1..][..i - 1] == list[..i];
      assert list[1..][i..] == list[i + 1..];
    }
  }

  /** The list without the user's first entry, or none when the user is not in it. */
  method RemoveUser(list: seq<int>, userID: string) returns (r: Option<seq<int>>)
    ensures r.Some? <==> Listed(list, userID)
    ensures r.Some? ==> r.value == RemoveFirst(list, SciperToInt(userID).value)
  {
    var i := GetIndex(list, userID);
    if i.None? || i.value < 0 { return None; }
    RemoveFirstIsSlice(list, i.value);
    return Some(list[..i.value] + list[i.value + 1..]);
  }

  /** The first position of a key, or -1. */
  method Contains(keys: seq<Key>, key: Key) returns (i: int)
    ensures 0 <= i ==> i < |keys| && keys[i] == key && key !in keys[..i]
    ensures i < 0 ==> i == -1 && key !in keys
  {
    for k := 0 to |keys|
      invariant forall j :: 0 <= j < k ==> keys[j] != key
    {
      if keys[k] == key { return k; }
    }
    return -1;
  }

  method IsMemberOf(roster: seq<Key>, publicKey: Key) returns (ok: bool)
    ensures ok <==> publicKey in roster
  {
    ok := false;
    for i := 0 to |roster|
      invariant ok <==> publicKey in roster[..i]
    {
      assert roster[..i + 1] == roster[..i] + [roster[i]];
      if roster[i] == publicKey { ok := true; }
    }
    assert roster[..|roster|] == roster;
  }

  // ----- Ballot lists

  /** The transposition of a ballot list into its rows of K and C points. */
  method CiphervotesToPairs(cvs: seq<Ciphervote>) returns (X: Matrix, Y: Matrix)
    requires Rectangular(cvs)
    ensures X == KRows(cvs) && Y == CRows(cvs)
  {
    var seqSize := |cvs[0]|;
    X, Y := seq(seqSize, _ => []), seq(seqSize, _ => []);
    for i := 0 to |cvs|
      invariant |X| == |Y| == seqSize
      invariant forall j :: 0 <= j < seqSize ==> |X[j]| == |Y[j]| == i
      invariant forall j, k :: 0 <= j < seqSize && 0 <= k < i ==> X[j][k] == cvs[k][j].K && Y[j][k] == cvs[k][j].C
    {
      var cv := cvs[i];
      X := seq(seqSize, j requires 0 <= j < seqSize => X[j] + [cv[j].K]);
      Y := seq(seqSize, j requires 0 <= j < seqSize => Y[j] + [cv[j].C]);
    }
    assert forall j :: 0 <= j < seqSize ==> X[j] == KRows(cvs)[j] && Y[j] == CRows(cvs)[j];
  }

  method IsRectangular(cvs: seq<Ciphervote>) returns (ok: bool)
    ensures ok <==> Rectangular(cvs)
  {
    if cvs == [] { return false; }
    for i := 0 to |cvs|
      invariant forall j :: 0 <= j < i ==> |cvs[j]| >= |cvs[0]|
    {
      if |cvs[i]| < |cvs[0]| { return false; }
    }
    ok := true;
  }

  method HasShape(unit: PubsharesUnit, ballots: seq<Ciphervote>) returns (ok: bool)
    ensures ok <==> SameShape(unit, ballots)
  {
    if |unit| != |ballots| { return false; }
    for i := 0 to |ballots|
      invariant forall j :: 0 <= j < i ==> |unit[j]| == |ballots[j]|
    {
      if |unit[i]| != |ballots[i]| { return false; }
    }
    ok := true;
  }

  /** One chunk: the shares of all units at one pair, recombined and read as bytes. */
  method Decrypt(env: Env, f: Form, i: nat, j: nat) returns (r: Option<ByteString>)
    requires Decryptable(f) && i < |LastBallots(f)| && j < |LastBallots(f)[i]|
    ensures r == DecryptChunk(env, f, i, j)
  {
    var values := [];
    for u := 0 to |f.units.pubshares|
      invariant values == SharesAt(f, i, j)[..u]
    {
      values := values + [f.units.pubshares[u][i][j]];
    }
    assert values == SharesAt(f, i, j);
    var res := RecoverCommit(f.units.indexes, values, env.q);
    if res.None? { return None; }
    return env.data(res.value);
  }

  /** One ballot: its chunks decrypted in order and written into one string. */
  method DecryptBallot(env: Env, f: Form, i: nat) returns (r: Option<string>)
    requires Decryptable(f) && i < |LastBallots(f)|
    ensures r == BallotText(env, f, i)
  {
    hide DecryptChunk;
    var text, size := "", |LastBallots(f)[0]|;
    for j := 0 to size
      invariant DecryptText(env, f, i, j) == Some(text)
    {
      var chunk := Decrypt(env, f, i, j);
      if chunk.None? {
        TextFails(env, f, i, j + 1, size);
        return None;
      }
      text := text + chunk.value;
    }
    return Some(text);
  }

  lemma {:induction false} TextFails(env: Env, f: Form, i: nat, n: nat, size: nat)
    requires Decryptable(f) && i < |LastBallots(f)| && n <= size <= |LastBallots(f)[0]|
    requires DecryptText(env, f, i, n).None?
    ensures DecryptText(env, f, i, size).None?
  {
    hide DecryptChunk;
    if n < size {
      TextFails(env, f, i, n, size - 1);
    }
  }

  /** All ballots; a ballot that does not parse is kept as it is left. */
  method DecryptAll(env: Env, f: Form) returns (r: Option<seq<Results>>)
    requires Decryptable(f)
    ensures r == Revealed(env, f)
  {
    hide BallotText, Unmarshaled;
    var n, decrypted := |LastBallots(f)|, [];
    for i := 0 to n
      invariant |decrypted| == i
      invariant forall k :: 0 <= k < i ==> BallotText(env, f, k).Some?
                                           && decrypted[k] == Unmarshaled(f.config, BallotText(env, f, k).value).ballot
    {
      var text := DecryptBallot(env, f, i);
      if text.None? { return None; }
      var ballot := new Ballot();
      var _ := ballot.Unmarshal(text.value, f.config);
      assert ballot.Value() == Unmarshaled(f.config, text.value).ballot;
      decrypted := decrypted + [ballot.Value()];
    }
    assert Revealed(env, f).Some?;
    assert decrypted == Revealed(env, f).value;
    return Some(decrypted);
  }

  // ----- The contract

  class EvotingContract {
    const env: Env
    var forms: map<Key, Form>
    var blocks: BlockStore
    var admins: Option<seq<int>>
    var metadata: seq<Key>

    function State(): (st: Store)
      reads this
    {
      Store(forms, blocks, admins, metadata)
    }

    ghost predicate Valid()
      reads this
    {
      ValidThreshold(env) && Inv(env, State())
    }

    constructor (env: Env)
      requires ValidThreshold(env)
      ensures Valid() && this.env == env && State() == EMPTY_STORE
    {
      this.env := env;
      forms, blocks, admins, metadata := map[], map[], None, [];
      new;
      EmptyStoreInv(env);
    }

    method UpdateFormMetadataStore(key: Key) returns (ok: bool)
      modifies this`metadata
      ensures Outcome(State(), ok) == Enlist(old(State()), key)
    {
      var i := Contains(metadata, key);
      if i >= 0 { return false; }
      metadata := metadata + [key];
      return true;
    }

    /** Whether the user is an administrator; none when that cannot be told. */
    method FetchAdmin(userID: string) returns (r: Option<bool>)
      ensures r == Some(true) <==> admins.Some? && Listed(admins.value, userID)
      ensures r.None? <==> admins.None? || SciperToInt(userID).None?
    {
      if admins.None? { return None; }
      var i := GetIndex(admins.value, userID);
      if i.None? { return None; }
      return Some(i.value >= 0);
    }

    method CreateForm(tx: Tx) returns (ok: bool)
      requires tx.CreateForm?
      modifies this
      ensures Outcome(State(), ok) == Apply(env, old(State()), tx)
    {
      hide ValidConfig;
      var isAdmin := FetchAdmin(tx.userID);
      if isAdmin != Some(true) { return false; }
      var valid := IsValid(tx.config);
      if !valid { return false; }
      var sciper := SciperToInt(tx.userID);
      if sciper.None? { return false; }
      var size := MaxBallotSize(tx.config);
      var form := Form(tx.config, Initial, None, size, Index([], 0), [], env.threshold(|tx.roster|),
                       PubsharesUnits([], [], []), [], tx.roster, [sciper.value], []);
      forms := forms[tx.key := form];
      ok := UpdateFormMetadataStore(tx.key);
    }

    method OpenForm(tx: Tx) returns (ok: bool)
      requires tx.OpenForm?
      modifies this
      ensures Outcome(State(), ok) == Apply(env, old(State()), tx)
    {
      if tx.form !in forms { return false; }
      var form := forms[tx.form];
      var isOwner := IsRole(form.owners, tx.userID);
      if !isOwner { return false; }
      if form.status != Initial { return false; }
      form := form.(status := Open);
      if form.pubkey.Some? { return false; }
      if tx.dkgKey.None? { return false; }
      form := form.(pubkey := tx.dkgKey);
      forms := forms[tx.form := form];
      return true;
    }

    /** Stores one cast in the current block, opening a new block when the last one is full. */
    method StoreVote(key: Key, f: Form, voterID: string, ballot: Ciphervote) returns (ok: bool, g: Form)
      requires AllPaired(blocks)
      modifies this`blocks
      ensures var target := Target(env.sha256, key, f.index, old(blocks));
              && ok == target.Some?
              && (if ok then blocks == NextBlocks(env.sha256, key, f.index, old(blocks), Vote(voterID, ballot))
                             && g == f.(index := NextIndex(env.sha256, key, f.index))
                  else blocks == old(blocks))
    {
      hide BlockId;
      g := f;
      var suff, id := NO_VOTES, "";
      if g.index.ballotCount % BALLOTS_PER_BLOCK == 0 {
        id := BlockId(env.sha256, key, g.index.ballotCount);
        blocks := blocks[id := NO_VOTES];
        g := g.(index := g.index.(suffragiaIDs := g.index.suffragiaIDs + [id]));
      } else {
        if g.index.suffragiaIDs == [] { return false, f; }
        id := g.index.suffragiaIDs[|g.index.suffragiaIDs| - 1];
        if id !in blocks { return false, f; }
        suff := blocks[id];
      }
      suff := Suffragia.CastVote(suff, voterID, ballot);
      blocks := blocks[id := suff];
      g := g.(index := g.index.(ballotCount := (g.index.ballotCount + 1) % COUNT_LIMIT));
      ok := true;
    }

    method CastVote(tx: Tx) returns (ok: bool)
      requires tx.CastVote? && Valid()
      modifies this
      ensures Outcome(State(), ok) == Apply(env, old(State()), tx)
    {
      hide Target, NextBlocks, NextIndex, FormInv;
      if tx.form !in forms { return false; }
      var form := forms[tx.form];
      if form.status != Open { return false; }
      var isVoter := IsRole(form.voters, tx.voterID);
      if !isVoter { return false; }
      if |tx.ballot| != ChunksPerBallot(form.ballotSize) { return false; }
      TargetPaired(env, tx.form, form.index, blocks);
      ok, form := StoreVote(tx.form, form, tx.voterID, tx.ballot);
      if !ok { return; }
      forms := forms[tx.form := form];
    }

    method CloseForm(tx: Tx) returns (ok: bool)
      requires tx.CloseForm?
      modifies this
      ensures Outcome(State(), ok) == Apply(env, old(State()), tx)
    {
      if tx.form !in forms { return false; }
      var form := forms[tx.form];
      if form.status != Open { return false; }
      var isOwner := IsRole(form.owners, tx.userID);
      if !isOwner { return false; }
      if form.index.ballotCount <= 1 { return false; }
      forms := forms[tx.form := form.(status := Closed)];
      return true;
    }

    /** The check against earlier shuffles of the same block. */
    method CheckPreviousTransactions(previous: seq<Previous>) returns (ok: bool)
      ensures ok <==> !exists i :: 0 <= i < |previous| && previous[i] == Previous(CONTRACT_NAME, FORM_ARG)
    {
      for i := 0 to |previous|
        invariant forall j :: 0 <= j < i ==> previous[j] != Previous(CONTRACT_NAME, FORM_ARG)
      {
        if previous[i].contract != CONTRACT_NAME { continue; }
        if previous[i].command != FORM_ARG { continue; }
        return false;
      }
      ok := true;
    }

    method HasShuffled(f: Form, publicKey: Key) returns (found: bool)
      ensures found <==> !forall i :: 0 <= i < |f.shuffles| ==> f.shuffles[i].shuffler != publicKey
    {
      for i := 0 to |f.shuffles|
        invariant forall j :: 0 <= j < i ==> f.shuffles[j].shuffler != publicKey
      {
        if f.shuffles[i].shuffler == publicKey { return true; }
      }
      found := false;
    }

    /** The proof check, on the transposed lists. A ragged list stops the contract. */
    method VerifyShuffle(f: Form, input: seq<Ciphervote>, s: ShuffleInstance) returns (ok: bool)
      ensures ok <==> Proves(env, f.pubkey, input, s)
    {
      var fits := IsRectangular(s.ballots);
      if !fits { return false; }
      fits := IsRectangular(input);
      if !fits { return false; }
      var XX, YY := CiphervotesToPairs(s.ballots);
      var X, Y := CiphervotesToPairs(input);
      ok := env.prove(f.pubkey, X, Y, XX, YY, s.vector, s.proof);
    }

    /** The ballots to shuffle: the cast votes in round 0, then the last shuffled list. */
    method GetShuffleInput(f: Form) returns (r: Option<seq<Ciphervote>>)
      requires AllPaired(blocks)
      ensures r == ShuffleInput(f, blocks)
    {
      if |f.shuffles| == 0 {
        var votes := ReadSuffragia(f.index, blocks);
        if votes.None? { return None; }
        return Some(votes.value.ciphervotes);
      }
      return Some(f.shuffles[|f.shuffles| - 1].ballots);
    }

    method CheckShuffle(f: Form, tx: Tx) returns (ok: bool)
      requires tx.ShuffleBallots? && AllPaired(blocks)
      ensures ok <==> ShuffleAllowed(env, f, blocks, tx)
    {
      hide Proves, ShuffleInput;
      ok := CheckPreviousTransactions(tx.previous);
      if !ok { return; }
      if f.status != Closed { return false; }
      var isOwner := IsRole(f.owners, tx.userID);
      if !isOwner { return false; }
      var expectedRound := |f.shuffles|;
      if tx.round != expectedRound { return false; }
      var isMember := IsMemberOf(f.roster, tx.publicKey);
      if !isMember { return false; }
      var found := HasShuffled(f, tx.publicKey);
      if found { return false; }
      if !env.shuffleSigned(tx.publicKey, tx.form, tx.ballots, tx.signature) { return false; }
      if |tx.vector| != ChunksPerBallot(f.ballotSize) { return false; }
      if env.vector(tx.form, tx.ballots, ChunksPerBallot(f.ballotSize)) != Some(tx.vector) { return false; }
      if |tx.ballots| == 0 { return false; }
      var ciphervotes := GetShuffleInput(f);
      if ciphervotes.None? { return false; }
      if |ciphervotes.value| < 2 { return false; }
      ok := VerifyShuffle(f, ciphervotes.value, ShuffleInstance(tx.ballots, tx.proof, tx.vector, tx.publicKey));
    }

    method ShuffleBallots(tx: Tx) returns (ok: bool)
      requires tx.ShuffleBallots? && Valid()
      modifies this
      ensures Outcome(State(), ok) == Apply(env, old(State()), tx)
    {
      hide ShuffleAllowed, FormInv;
      if tx.form !in forms { return false; }
      var form := forms[tx.form];
      ok := CheckShuffle(form, tx);
      if !ok { return; }
      form := form.(shuffles := form.shuffles + [ShuffleInstance(tx.ballots, tx.proof, tx.vector, tx.publicKey)]);
      if |form.shuffles| >= form.threshold {
        form := form.(status := ShuffledBallots);
      }
      forms := forms[tx.form := form];
    }

    /** Whether the node may still submit: it has not, and its index is free. */
    method FirstSubmission(units: PubsharesUnits, publicKey: Key, index: int) returns (ok: bool)
      ensures ok <==> publicKey !in units.pubKeys && index !in units.indexes
    {
      for i := 0 to |units.pubKeys|
        invariant forall j :: 0 <= j < i ==> units.pubKeys[j] != publicKey
      {
        if units.pubKeys[i] == publicKey { return false; }
      }
      for i := 0 to |units.indexes|
        invariant forall j :: 0 <= j < i ==> units.indexes[j] != index
      {
        if units.indexes[i] == index { return false; }
      }
      ok := true;
    }

    method CheckShares(f: Form, tx: Tx) returns (ok: bool)
      requires tx.RegisterPubShares? && (f.status == ShuffledBallots ==> f.shuffles != [])
      ensures ok <==> SharesAllowed(env, f, tx)
    {
      if f.status != ShuffledBallots { return false; }
      ok := IsMemberOf(f.roster, tx.publicKey);
      if !ok { return; }
      if !env.sharesSigned(tx.publicKey, tx.form, tx.index, tx.pubshares, tx.signature) { return false; }
      ok := HasShape(tx.pubshares, f.shuffles[|f.shuffles| - 1].ballots);
      if !ok { return; }
      ok := FirstSubmission(f.units, tx.publicKey, tx.index);
    }

    method RegisterPubshares(tx: Tx) returns (ok: bool)
      requires tx.RegisterPubShares? && Valid()
      modifies this
      ensures Outcome(State(), ok) == Apply(env, old(State()), tx)
    {
      hide SharesAllowed, SettingsInv, ShufflesInv, UnitsInv;
      if tx.form !in forms { return false; }
      var form := forms[tx.form];
      assert FormInv(env, form);
      ok := CheckShares(form, tx);
      if !ok { return; }
      var units := form.units;
      units := PubsharesUnits(
        units.pubshares + [tx.pubshares], units.pubKeys + [tx.publicKey], units.indexes + [tx.index]);
      form := form.(units := units);
      if |form.units.pubshares| >= form.threshold {
        form := form.(status := PubSharesSubmitted);
      }
      forms := forms[tx.form := form];
    }

    /** Decrypts every ballot. No index is ever out of range, because the store is valid. */
    method CombineShares(tx: Tx) returns (ok: bool)
      requires tx.CombineShares? && Valid()
      modifies this
      ensures Outcome(State(), ok) == Apply(env, old(State()), tx)
    {
      hide Revealed;
      if tx.form !in forms { return false; }
      var form := forms[tx.form];
      if form.status != PubSharesSubmitted { return false; }
      var isOwner := IsRole(form.owners, tx.userID);
      if !isOwner { return false; }
      assert FormInv(env, form);
      SubmittedDecryptable(env, form);
      var decryptedBallots := DecryptAll(env, form);
      if decryptedBallots.None? { return false; }
      form := form.(decrypted := decryptedBallots.value, status := ResultAvailable);
      forms := forms[tx.form := form];
      return true;
    }

    method CancelForm(tx: Tx) returns (ok: bool)
      requires tx.CancelForm?
      modifies this
      ensures Outcome(State(), ok) == Apply(env, old(State()), tx)
    {
      if tx.form !in forms { return false; }
      var form := forms[tx.form];
      var isOwner := IsRole(form.owners, tx.userID);
      if !isOwner { return false; }
      forms := forms[tx.form := form.(status := Canceled)];
      return true;
    }

    /** Removes the form, then tries to add its identifier to the metadata. */
    method DeleteForm(tx: Tx) returns (ok: bool)
      requires tx.DeleteForm?
      modifies this
      ensures Outcome(State(), ok) == Apply(env, old(State()), tx)
    {
      if tx.form !in forms { return false; }
      var isOwner := IsRole(forms[tx.form].owners, tx.userID);
      if !isOwner { return false; }
      forms := forms - {tx.form};
      ok := UpdateFormMetadataStore(tx.form);
    }

    method ManageAdminList(tx: Tx) returns (ok: bool)
      requires tx.AddAdmin? || tx.RemoveAdmin?
      modifies this
      ensures Outcome(State(), ok) == Apply(env, old(State()), tx)
    {
      var target := SciperToInt(tx.target);
      if tx.AddAdmin? && admins.None? {
        if target.None? { return false; }
        admins := Some([target.value]);
        ok := UpdateFormMetadataStore(ADMIN_LIST_ID);
        return;
      }
      var isAdmin := FetchAdmin(tx.performing);
      if isAdmin != Some(true) { return false; }
      var list := admins.value;
      if tx.AddAdmin? {
        var index := GetIndex(list, tx.target);
        if index.None? || index.value > -1 { return false; }
        admins := Some(list + [target.value]);
      } else {
        var rest := RemoveUser(list, tx.target);
        if rest.None? { return false; }
        if |list| <= 1 { return false; }
        admins := Some(rest.value);
      }
      return true;
    }

    method ManageOwnersVotersForm(tx: Tx) returns (ok: bool)
      requires ChangesRoles(tx)
      modifies this
      ensures Outcome(State(), ok) == Apply(env, old(State()), tx)
    {
      if tx.form !in forms { return false; }
      var form := forms[tx.form];
      var isOwner := IsRole(form.owners, tx.performing);
      if !isOwner { return false; }
      var target := SciperToInt(tx.target);
      if tx.AddVoter? {
        if target.None? { return false; }
        form := form.(voters := form.voters + [target.value]);
      } else if tx.RemoveVoter? {
        var rest := RemoveUser(form.voters, tx.target);
        if rest.None? { return false; }
        form := form.(voters := rest.value);
      } else if tx.AddOwner? {
        if target.None? { return false; }
        form := form.(owners := form.owners + [target.value]);
      } else {
        var rest := RemoveUser(form.owners, tx.target);
        if rest.None? { return false; }
        if |form.owners| <= 1 { return false; }
        form := form.(owners := rest.value);
      }
      forms := forms[tx.form := form];
      return true;
    }

    /** Runs one decoded transaction. The store stays valid, and a rejected one leaves it unchanged. */
    method Dispatch(tx: Tx) returns (ok: bool)
      requires Valid() && Admissible(State(), tx)
      modifies this
      ensures Valid() && Outcome(State(), ok) == Apply(env, old(State()), tx)
      ensures !ok ==> State() == old(State())
    {
      hide Apply, Inv, Admissible;
      ApplyKeepsInv(env, State(), tx);
      match tx {
        case CreateForm(_, _, _, _) => ok := CreateForm(tx);
        case OpenForm(_, _, _) => ok := OpenForm(tx);
        case CastVote(_, _, _) => ok := CastVote(tx);
        case CloseForm(_, _) => ok := CloseForm(tx);
        case ShuffleBallots(_, _, _, _, _, _, _, _, _) => ok := ShuffleBallots(tx);
        case RegisterPubShares(_, _, _, _, _) => ok := RegisterPubshares(tx);
        case CombineShares(_, _) => ok := CombineShares(tx);
        case CancelForm(_, _) => ok := CancelForm(tx);
        case DeleteForm(_, _) => ok := DeleteForm(tx);
        case AddAdmin(_, _) => ok := ManageAdminList(tx);
        case RemoveAdmin(_, _) => ok := ManageAdminList(tx);
        case AddVoter(_, _, _) => ok := ManageOwnersVotersForm(tx);
        case RemoveVoter(_, _, _) => ok := ManageOwnersVotersForm(tx);
        case AddOwner(_, _, _) => ok := ManageOwnersVotersForm(tx);
        case RemoveOwner(_, _, _) => ok := ManageOwnersVotersForm(tx);
      }
    }

    /** Runs a step: the identity must be granted access to the contract, and the arguments must name a known
        command with an argument that decodes. */
    method Execute(granted: bool, decoded: Option<Tx>) returns (ok: bool)
      requires Valid() && (decoded.Some? ==> Admissible(State(), decoded.value))
      modifies this
      ensures Valid()
      ensures Outcome(State(), ok)
                == if granted && decoded.Some? then Apply(env, old(State()), decoded.value) else Reject(old(State()))
      ensures !ok ==> State() == old(State())
    {
      hide Apply, Inv, Admissible;
      if !granted { return false; }
      if decoded.None? { return false; }
      ok := Dispatch(decoded.value);
    }
  }

  lemma TargetPaired(env: Env, key: Key, x: Index, blocks: BlockStore)
    requires AllPaired(blocks)
    ensures Target(env.sha256, key, x, blocks).Some? ==> Paired(Target(env.sha256, key, x, blocks).value.1)
  {
  }

  lemma SubmittedDecryptable(env: Env, f: Form)
    requires FormInv(env, f) && f.status == PubSharesSubmitted
    ensures Decryptable(f)
  {
  }
}
