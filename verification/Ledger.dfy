/** The state kept by the voting contract and the meaning of each of its commands. */
module Ledger {
  import opened Wrappers
  import opened Text
  import opened ElGamal
  import opened Configuration
  import opened BallotReader
  import opened Suffragia
  import opened Blocks

  type Modulus = n: int | n > 0 witness 1

  type Matrix = seq<seq<int>>

  /** One node's shares, one for every pair of every shuffled ballot. */
  type PubsharesUnit = seq<seq<int>>

  /** What the contract calls but does not define: the group, hashing, the Byzantine threshold of a
      roster, signatures, the expected random vector, shuffle proofs, and the bytes embedded in a point. */
  datatype Env = Env(
    q: Modulus,
    sha256: string -> string,
    threshold: nat -> nat,
    shuffleSigned: (Key, Key, seq<Ciphervote>, string) -> bool,
    sharesSigned: (Key, Key, int, PubsharesUnit, string) -> bool,
    vector: (Key, seq<Ciphervote>, nat) -> Option<seq<int>>,
    prove: (Option<int>, Matrix, Matrix, Matrix, Matrix, seq<int>, string) -> bool,
    data: int -> Option<ByteString>)

  datatype Status = Initial | Open | Closed | ShuffledBallots | PubSharesSubmitted | ResultAvailable | Canceled

  function Phase(s: Status): (n: nat) {
    match s
    case Initial => 0 case Open => 1 case Closed => 2 case ShuffledBallots => 3
    case PubSharesSubmitted => 4 case ResultAvailable => 5 case Canceled => 6
  }

  datatype ShuffleInstance = ShuffleInstance(ballots: seq<Ciphervote>, proof: string, vector: seq<int>, shuffler: Key)

  /** Three parallel lists, one entry for each submitting node. */
  datatype PubsharesUnits = PubsharesUnits(pubshares: seq<PubsharesUnit>, pubKeys: seq<Key>, indexes: seq<int>)

  datatype Form = Form(
    config: Config,
    status: Status,
    pubkey: Option<int>,
    ballotSize: nat,
    index: Index,
    shuffles: seq<ShuffleInstance>,
    threshold: nat,
    units: PubsharesUnits,
    decrypted: seq<Results>,
    roster: seq<Key>,
    owners: seq<int>,
    voters: seq<int>)

  /** The contract's part of the key/value store, one map for each kind of key. */
  datatype Store = Store(forms: map<Key, Form>, blocks: BlockStore, admins: Option<seq<int>>, metadata: seq<Key>)

  const EMPTY_STORE := Store(map[], map[], None, [])

  const ADMIN_LIST_ID: Key := "EVOTAdminList"

  const CONTRACT_NAME := "go.dedis.ch/dela.Evoting"

  const FORM_ARG := "evoting:arg"

  /** A transaction accepted earlier in the same block: its contract and command arguments. */
  datatype Previous = Previous(contract: string, command: string)

  /** A decoded transaction, with what the contract reads from its surroundings when it runs: the fresh
      form key, the roster, the public key held by the DKG actor, the earlier transactions. */
  datatype Tx =
    | CreateForm(key: Key, userID: string, config: Config, roster: seq<Key>)
    | OpenForm(form: Key, userID: string, dkgKey: Option<int>)
    | CastVote(form: Key, voterID: string, ballot: Ciphervote)
    | CloseForm(form: Key, userID: string)
    | ShuffleBallots(form: Key, userID: string, round: int, ballots: seq<Ciphervote>, vector: seq<int>,
                     proof: string, publicKey: Key, signature: string, previous: seq<Previous>)
    | RegisterPubShares(form: Key, index: int, pubshares: PubsharesUnit, publicKey: Key, signature: string)
    | CombineShares(form: Key, userID: string)
    | CancelForm(form: Key, userID: string)
    | DeleteForm(form: Key, userID: string)
    | AddAdmin(performing: string, target: string)
    | RemoveAdmin(performing: string, target: string)
    | AddVoter(form: Key, performing: string, target: string)
    | RemoveVoter(form: Key, performing: string, target: string)
    | AddOwner(form: Key, performing: string, target: string)
    | RemoveOwner(form: Key, performing: string, target: string)

  /** The store a command leaves behind and whether it was accepted; some rejections come after a write. */
  datatype Outcome = Outcome(store: Store, ok: bool)

  // ----- Users

  function SciperToInt(userID: string): (r: Option<int>)
    ensures r.Some? ==> InSciperRange(r.value)
  {
    match ParseSigned(userID)
    case Some(n) => if InSciperRange(n) then Some(n) else None
    case None => None
  }

  predicate InSciperRange(n: int) { 100000 <= n <= 999999 }

  predicate Listed(list: seq<int>, userID: string) {
    SciperToInt(userID).Some? && SciperToInt(userID).value in list
  }

  /** The list without the first occurrence of n. */
  function RemoveFirst(list: seq<int>, n: int): (r: seq<int>) {
    if list == [] then [] else if list[0] == n then list[1..] else [list[0]] + RemoveFirst(list[1..], n)
  }

  /** Exactly one occurrence goes, if there is one. */
  lemma {:induction false} RemoveFirstRemoves(list: seq<int>, n: int)
    ensures multiset(RemoveFirst(list, n)) == multiset(list) - multiset{n}
    ensures |RemoveFirst(list, n)| == if n in list then |list| - 1 else |list|
  {
    if list != [] {
      var head, rest := list[0], list[1..];
      assert list == [head] + rest;
      assert multiset(list) == multiset{head} + multiset(rest);
      if head != n {
        RemoveFirstRemoves(rest, n);
        assert multiset([head] + RemoveFirst(rest, n)) == multiset{head} + multiset(RemoveFirst(rest, n));
      }
    }
  }

  // ----- Ballots as matrices

  /** Every ballot has at least the pairs of the first one. */
  predicate Rectangular(cvs: seq<Ciphervote>) {
    cvs != [] && forall i :: 0 <= i < |cvs| ==> |cvs[i]| >= |cvs[0]|
  }

  /** Row j holds the j-th point K of every ballot. */
  function KRows(cvs: seq<Ciphervote>): (m: Matrix)
    requires Rectangular(cvs)
  {
    seq(|cvs[0]|, j requires 0 <= j < |cvs[0]| => seq(|cvs|, i requires 0 <= i < |cvs| => cvs[i][j].K))
  }

  function CRows(cvs: seq<Ciphervote>): (m: Matrix)
    requires Rectangular(cvs)
  {
    seq(|cvs[0]|, j requires 0 <= j < |cvs[0]| => seq(|cvs|, i requires 0 <= i < |cvs| => cvs[i][j].C))
  }

  predicate Proves(env: Env, pubkey: Option<int>, input: seq<Ciphervote>, s: ShuffleInstance) {
    && Rectangular(input) && Rectangular(s.ballots)
    && env.prove(pubkey, KRows(input), CRows(input), KRows(s.ballots), CRows(s.ballots), s.vector, s.proof)
  }

  // ----- Commands on one form

  function LastBallots(f: Form): (r: seq<Ciphervote>)
    requires f.shuffles != []
  {
    f.shuffles[|f.shuffles| - 1].ballots
  }

  /** The ballots that the next shuffle must shuffle. */
  function ShuffleInput(f: Form, blocks: BlockStore): (r: Option<seq<Ciphervote>>) {
    if f.shuffles == [] then
      match ReadVotes(f.index, blocks) case Some(votes) => Some(votes.ciphervotes) case None => None
    else Some(LastBallots(f))
  }

  predicate ShuffleAllowed(env: Env, f: Form, blocks: BlockStore, tx: Tx)
    requires tx.ShuffleBallots?
  {
    var input := ShuffleInput(f, blocks);
    && !(exists i :: 0 <= i < |tx.previous| && tx.previous[i] == Previous(CONTRACT_NAME, FORM_ARG))
    && f.status == Closed
    && Listed(f.owners, tx.userID)
    && tx.round == |f.shuffles|
    && tx.publicKey in f.roster
    && (forall i :: 0 <= i < |f.shuffles| ==> f.shuffles[i].shuffler != tx.publicKey)
    && env.shuffleSigned(tx.publicKey, tx.form, tx.ballots, tx.signature)
    && env.vector(tx.form, tx.ballots, ChunksPerBallot(f.ballotSize)) == Some(tx.vector)
    && |tx.vector| == ChunksPerBallot(f.ballotSize)
    && tx.ballots != []
    && input.Some? && |input.value| >= 2
    && Proves(env, f.pubkey, input.value, ShuffleInstance(tx.ballots, tx.proof, tx.vector, tx.publicKey))
  }

  function Shuffled(f: Form, s: ShuffleInstance): (r: Form) {
    var shuffles := f.shuffles + [s];
    f.(shuffles := shuffles, status := if |shuffles| >= f.threshold then ShuffledBallots else f.status)
  }

  /** The unit has one row for every ballot and one share for every pair. */
  predicate SameShape(unit: PubsharesUnit, ballots: seq<Ciphervote>) {
    |unit| == |ballots| && forall i :: 0 <= i < |ballots| ==> |unit[i]| == |ballots[i]|
  }

  predicate SharesAllowed(env: Env, f: Form, tx: Tx)
    requires tx.RegisterPubShares?
  {
    && f.status == ShuffledBallots
    && tx.publicKey in f.roster
    && env.sharesSigned(tx.publicKey, tx.form, tx.index, tx.pubshares, tx.signature)
    && f.shuffles != [] && SameShape(tx.pubshares, LastBallots(f))
    && tx.publicKey !in f.units.pubKeys
    && tx.index !in f.units.indexes
  }

  function Registered(f: Form, unit: PubsharesUnit, key: Key, index: int): (r: Form) {
    var u := f.units;
    var units := PubsharesUnits(u.pubshares + [unit], u.pubKeys + [key], u.indexes + [index]);
    f.(units := units, status := if |units.pubshares| >= f.threshold then PubSharesSubmitted else f.status)
  }

  /** Every submitted unit covers every pair that the decryption reads. */
  predicate Decryptable(f: Form) {
    && f.shuffles != [] && Rectangular(LastBallots(f))
    && |f.units.pubshares| == |f.units.indexes|
    && forall u :: 0 <= u < |f.units.pubshares| ==> SameShape(f.units.pubshares[u], LastBallots(f))
  }

  /** The shares of all nodes for one pair. */
  function SharesAt(f: Form, i: nat, j: nat): (values: seq<int>)
    requires Decryptable(f) && i < |LastBallots(f)| && j < |LastBallots(f)[i]|
  {
    seq(|f.units.pubshares|, u requires 0 <= u < |f.units.pubshares| => f.units.pubshares[u][i][j])
  }

  function DecryptChunk(env: Env, f: Form, i: nat, j: nat): (r: Option<ByteString>)
    requires Decryptable(f) && i < |LastBallots(f)| && j < |LastBallots(f)[i]|
  {
    match RecoverCommit(f.units.indexes, SharesAt(f, i, j), env.q)
    case Some(point) => env.data(point)
    case None => None
  }

  /** The first n chunks of a ballot, decrypted and joined. */
  function DecryptText(env: Env, f: Form, i: nat, n: nat): (r: Option<string>)
    requires Decryptable(f) && i < |LastBallots(f)| && n <= |LastBallots(f)[0]|
  {
    if n == 0 then Some("")
    else
      var front, last := DecryptText(env, f, i, n - 1), DecryptChunk(env, f, i, n - 1);
      if front.None? || last.None? then None else Some(front.value + last.value)
  }

  function BallotText(env: Env, f: Form, i: nat): (r: Option<string>)
    requires Decryptable(f) && i < |LastBallots(f)|
  {
    DecryptText(env, f, i, |LastBallots(f)[0]|)
  }

  /** All ballots, if every chunk decrypts; a ballot that does not parse is kept as the parser left it. */
  function Revealed(env: Env, f: Form): (r: Option<seq<Results>>) {
    if !Decryptable(f) || exists i :: 0 <= i < |LastBallots(f)| && BallotText(env, f, i).None? then None
    else
      Some(seq(|LastBallots(f)|, i requires 0 <= i < |LastBallots(f)| =>
        Unmarshaled(f.config, BallotText(env, f, i).value).ballot))
  }

  predicate CastAllowed(env: Env, f: Form, blocks: BlockStore, tx: Tx)
    requires tx.CastVote?
  {
    var target := Target(env.sha256, tx.form, f.index, blocks);
    && f.status == Open && Listed(f.voters, tx.voterID)
    && |tx.ballot| == ChunksPerBallot(f.ballotSize)
    && target.Some? && Paired(target.value.1)
  }

  predicate NamesForm(tx: Tx) {
    !tx.CreateForm? && !tx.AddAdmin? && !tx.RemoveAdmin?
  }

  /** The form after an accepted command on it. */
  function NextForm(env: Env, f: Form, blocks: BlockStore, tx: Tx): (r: Option<Form>)
    requires NamesForm(tx) && !tx.DeleteForm?
  {
    match tx
    case OpenForm(_, userID, dkgKey) =>
      if Listed(f.owners, userID) && f.status == Initial && f.pubkey.None? && dkgKey.Some?
      then Some(f.(status := Open, pubkey := dkgKey)) else None
    case CastVote(key, _, _) =>
      if CastAllowed(env, f, blocks, tx) then Some(f.(index := NextIndex(env.sha256, key, f.index))) else None
    case CloseForm(_, userID) =>
      if f.status == Open && Listed(f.owners, userID) && f.index.ballotCount > 1
      then Some(f.(status := Closed)) else None
    case ShuffleBallots(_, _, _, ballots, vector, proof, publicKey, _, _) =>
      if ShuffleAllowed(env, f, blocks, tx)
      then Some(Shuffled(f, ShuffleInstance(ballots, proof, vector, publicKey))) else None
    case RegisterPubShares(_, index, pubshares, publicKey, _) =>
      if SharesAllowed(env, f, tx) then Some(Registered(f, pubshares, publicKey, index)) else None
    case CombineShares(_, userID) =>
      if f.status == PubSharesSubmitted && Listed(f.owners, userID) && Revealed(env, f).Some?
      then Some(f.(decrypted := Revealed(env, f).value, status := ResultAvailable)) else None
    case CancelForm(_, userID) =>
      if Listed(f.owners, userID) then Some(f.(status := Canceled)) else None
    case AddVoter(_, performing, target) =>
      if Listed(f.owners, performing) && SciperToInt(target).Some?
      then Some(f.(voters := f.voters + [SciperToInt(target).value])) else None
    case RemoveVoter(_, performing, target) =>
      if Listed(f.owners, performing) && Listed(f.voters, target)
      then Some(f.(voters := RemoveFirst(f.voters, SciperToInt(target).value))) else None
    case AddOwner(_, performing, target) =>
      if Listed(f.owners, performing) && SciperToInt(target).Some?
      then Some(f.(owners := f.owners + [SciperToInt(target).value])) else None
    case RemoveOwner(_, performing, target) =>
      if Listed(f.owners, performing) && Listed(f.owners, target) && |f.owners| > 1
      then Some(f.(owners := RemoveFirst(f.owners, SciperToInt(target).value))) else None
  }

  // ----- Commands on the store

  function Reject(st: Store): Outcome { Outcome(st, false) }

  /** Adding a form identifier to the metadata fails when it is present; earlier writes remain. */
  function Enlist(st: Store, key: Key): Outcome {
    if key in st.metadata then Outcome(st, false) else Outcome(st.(metadata := st.metadata + [key]), true)
  }

  function NewForm(env: Env, sciper: int, config: Config, roster: seq<Key>): (f: Form) {
    Form(config, Initial, None, BallotSize(config), Index([], 0), [], env.threshold(|roster|),
         PubsharesUnits([], [], []), [], roster, [sciper], [])
  }

  ghost function ApplyCreate(env: Env, st: Store, tx: Tx): (o: Outcome)
    requires tx.CreateForm?
  {
    if st.admins.None? || !Listed(st.admins.value, tx.userID) || !ValidConfig(tx.config) then Reject(st)
    else
      var f := NewForm(env, SciperToInt(tx.userID).value, tx.config, tx.roster);
      Enlist(st.(forms := st.forms[tx.key := f]), tx.key)
  }

  /** Only an accepted cast writes ballots. */
  function BlocksAfter(env: Env, f: Form, blocks: BlockStore, tx: Tx): (r: BlockStore) {
    if tx.CastVote? && CastAllowed(env, f, blocks, tx)
    then NextBlocks(env.sha256, tx.form, f.index, blocks, Vote(tx.voterID, tx.ballot)) else blocks
  }

  function ApplyToForm(env: Env, st: Store, f: Form, tx: Tx): (o: Outcome)
    requires NamesForm(tx)
  {
    if tx.DeleteForm? then
      if Listed(f.owners, tx.userID) then Enlist(st.(forms := st.forms - {tx.form}), tx.form) else Reject(st)
    else
      match NextForm(env, f, st.blocks, tx)
      case Some(g) => Outcome(st.(forms := st.forms[tx.form := g], blocks := BlocksAfter(env, f, st.blocks, tx)), true)
      case None => Reject(st)
  }

  /** The first administrator is whoever is named first; later ones are named by an administrator. */
  function ApplyAddAdmin(st: Store, performing: string, target: string): (o: Outcome) {
    var n := SciperToInt(target);
    if st.admins.None? then
      if n.None? then Reject(st) else Enlist(st.(admins := Some([n.value])), ADMIN_LIST_ID)
    else if Listed(st.admins.value, performing) && n.Some? && n.value !in st.admins.value
    then Outcome(st.(admins := Some(st.admins.value + [n.value])), true)
    else Reject(st)
  }

  function ApplyRemoveAdmin(st: Store, performing: string, target: string): (o: Outcome) {
    if st.admins.Some? && Listed(st.admins.value, performing) && Listed(st.admins.value, target)
        && |st.admins.value| > 1
    then Outcome(st.(admins := Some(RemoveFirst(st.admins.value, SciperToInt(target).value))), true)
    else Reject(st)
  }

  ghost function Apply(env: Env, st: Store, tx: Tx): (o: Outcome) {
    match tx
    case CreateForm(_, _, _, _) => ApplyCreate(env, st, tx)
    case AddAdmin(performing, target) => ApplyAddAdmin(st, performing, target)
    case RemoveAdmin(performing, target) => ApplyRemoveAdmin(st, performing, target)
    case _ => if tx.form in st.forms then ApplyToForm(env, st, st.forms[tx.form], tx) else Reject(st)
  }
}
