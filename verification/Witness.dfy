/** Small elections, run from the empty store: one that publishes its result under all assumptions of the
    tally, one that is closed on two casts of one voter, one in which one person is counted twice, and one
    whose accepted shuffle has more ballots than there are voters. */
module Witness {
  import opened Wrappers
  import opened Text
  import opened PrimeField
  import opened Interpolation
  import opened ElGamal
  import opened Configuration
  import opened Suffragia
  import opened Blocks
  import opened Ledger
  import opened Invariant
  import opened Runs
  import opened Tally
  import opened Persons
  import opened Shuffling
  import opened EndToEnd

  const FORM: Key := "form"
  const NODE: Key := "node"
  const YES: ByteString := "select::1\n\n"
  const NO: ByteString := "select::0\n\n"

  /** Every row begins with the given one. */
  predicate Begins(m: Matrix, longer: Matrix) {
    |longer| == |m| && forall j :: 0 <= j < |m| ==> m[j] <= longer[j]
  }

  /** The group of two elements, whose points encode the two answers. A proof is accepted for rows that begin
      with the input, whatever follows; all nodes are needed. */
  ghost function Setting(): (env: Env) {
    Env(2, s => s, n => n, (key, form, ballots, signature) => true, (key, form, index, unit, signature) => true,
        (form: Key, ballots: seq<Ciphervote>, n: nat) => Some(seq(n, _ => 0)),
        (pubkey: Option<int>, X: Matrix, Y: Matrix, XX: Matrix, YY: Matrix, vector: seq<int>, proof: string) =>
          pubkey.Some? && SameShapes(X, Y) && Begins(X, XX) && Begins(Y, YY),
        point => if point % 2 == 0 then Some(YES) else Some(NO))
  }

  /** A shuffler that changes nothing. */
  function Idle(): (lib: Library) {
    Library(NODE, (pubkey, X, Y, coins) => Rows(X, Y), (pubkey, X, Y, coins, vector) => Some(""),
        (form, ballots) => Some(""))
  }

  lemma BeginsSame(m: Matrix, longer: Matrix, width: nat)
    requires Begins(m, longer) && SameRows(m, |m|, width) && SameRows(longer, |longer|, width)
    ensures longer == m
  {
    forall j | 0 <= j < |m|
      ensures longer[j] == m[j]
    {
      assert m[j] <= longer[j];
    }
  }

  lemma BeginsItself(m: Matrix)
    ensures Begins(m, m)
  {
  }

  lemma SettingIsComplete()
    ensures Complete(Setting(), Idle())
  {
    forall m: Matrix
      ensures Begins(m, m)
    {
      BeginsItself(m);
    }
    hide Begins;
    assert forall form: Key, ballots: seq<Ciphervote> :: Setting().shuffleSigned(NODE, form, ballots, "");
  }

  lemma SettingProof(input: seq<Ciphervote>, pubkey: int, s: ShuffleInstance)
    requires Proves(Setting(), Some(pubkey), input, s)
    ensures SameShapes(KRows(input), CRows(input))
    ensures Begins(KRows(input), KRows(s.ballots)) && Begins(CRows(input), CRows(s.ballots))
  {
    hide Begins, SameShapes;
  }

  /** For lists of the same size the setting's proofs are sound. */
  lemma SettingIsSound()
    ensures IsPrime(Setting().q) && ValidThreshold(Setting()) && SoundProver(Setting()) && Complete(Setting(), Idle())
  {
    SettingIsComplete();
    hide Complete;
    var env := Setting();
    assert env.q == 2 && ValidThreshold(env);
    forall pubkey: int, input: seq<Ciphervote>, s: ShuffleInstance
      | Proves(env, Some(pubkey), input, s) && SameSize(input, s.ballots)
      ensures IsShuffle(env.q, pubkey, KRows(input), CRows(input), KRows(s.ballots), CRows(s.ballots))
    {
      SettingProof(input, pubkey, s);
      BeginsSame(KRows(input), KRows(s.ballots), |input|);
      BeginsSame(CRows(input), CRows(s.ballots), |input|);
      SelfShuffle(env.q, pubkey, KRows(input), CRows(input));
    }
    hide Setting, Proves, IsShuffle;
  }

  // ----- Users and the configuration

  lemma UserNamed(n: int)
    requires InSciperRange(n)
    ensures SciperToInt(Decimal(n)) == Some(n)
  {
    ParseDecimal(n);
  }

  predicate IsAdmin(userID: string) {
    SciperToInt(userID) == Some(100000)
  }

  /** An administrator and two people, by six-digit identifiers. */
  lemma Users() returns (admin: string, a: string, b: string)
    ensures IsAdmin(admin) && SciperToInt(a) == Some(100001) && SciperToInt(b) == Some(100002) && |a| == 6
  {
    admin, a, b := Decimal(100000), Decimal(100001), Decimal(100002);
    hide Decimal;
    UserNamed(100000);
    UserNamed(100001);
    UserNamed(100002);
    SixDigits(100001);
  }

  /** One subject with one question: a selection among one choice. */
  function OneQuestion(): (c: Config) {
    Config([Subject("S", [], [], [Question("", 1, 0, ["c"], 0)], [], [])])
  }

  lemma OneQuestionValid()
    ensures ValidConfig(OneQuestion())
    ensures BallotSize(OneQuestion()) == 11 && ChunksPerBallot(11) == 1
  {
    var c := OneQuestion();
    var s := c.scaffold[0];
    assert c.scaffold[1..] == [] && c.scaffold[..0] == [];
    assert OwnIds(s) == ["S", ""];
    ValidForestUnfold(c.scaffold, {});
    ValidSubjectUnfold(s, {});
    assert Sizes(s.selects, SelectSize)[..0] == [];
    assert SumOf(Sizes(s.selects, SelectSize)) == 10;
    assert SubjectSize(s) == 11;
  }

  // ----- Runs, step by step

  ghost predicate Reaches(env: Env, run: Run, st: Store, log: Log) {
    AdmissibleRun(env, run) && After(env, run) == st && CastLog(env, run, FORM) == log
  }

  lemma Extend(env: Env, run: Run, st: Store, log: Log, tx: Tx, next: Store)
    requires Reaches(env, run, st, log) && Admissible(st, tx) && Apply(env, st, tx) == Outcome(next, true)
    ensures Reaches(env, run + [tx], next, NextLog(env, st, tx, FORM, log))
  {
    hide Apply, Admissible, NextLog;
    assert Front(run + [tx]) == run && Last(run + [tx]) == tx;
  }

  /** The store with this one form and its administrator. */
  function With(f: Form, blocks: BlockStore): (st: Store) {
    Store(map[FORM := f], blocks, Some([100000]), [ADMIN_LIST_ID, FORM])
  }

  lemma FormStep(env: Env, run: Run, f: Form, blocks: BlockStore, log: Log, tx: Tx, g: Form)
    requires Reaches(env, run, With(f, blocks), log)
    requires NamesForm(tx) && !tx.DeleteForm? && tx.form == FORM && NextForm(env, f, blocks, tx) == Some(g)
    ensures Reaches(env, run + [tx], With(g, BlocksAfter(env, f, blocks, tx)),
                    if tx.CastVote? then log + [Vote(tx.voterID, tx.ballot)] else log)
  {
    hide NextForm, BlocksAfter;
    var next := With(g, BlocksAfter(env, f, blocks, tx));
    assert map[FORM := f][FORM := g] == map[FORM := g];
    assert Apply(env, With(f, blocks), tx) == Outcome(next, true);
    Extend(env, run, With(f, blocks), log, tx, next);
  }

  function Created(): (f: Form) {
    Form(OneQuestion(), Initial, None, 11, Index([], 0), [], 1, PubsharesUnits([], [], []), [], [NODE], [100000], [])
  }

  function Opened(voters: seq<int>): (f: Form) {
    Created().(status := Open, pubkey := Some(1), voters := voters)
  }

  lemma Owner(f: Form, admin: string)
    requires f.owners == [100000] && IsAdmin(admin)
    ensures Listed(f.owners, admin)
  {
  }

  function Named(): (st: Store) {
    Store(map[], map[], Some([100000]), [ADMIN_LIST_ID])
  }

  lemma AdminNamed(env: Env, admin: string)
    requires IsAdmin(admin)
    ensures Apply(env, EMPTY_STORE, AddAdmin(admin, admin)) == Outcome(Named(), true)
  {
    hide SciperToInt;
  }

  lemma FormCreated(env: Env, admin: string)
    requires IsAdmin(admin) && env.threshold(1) == 1
    ensures Apply(env, Named(), CreateForm(FORM, admin, OneQuestion(), [NODE])) == Outcome(With(Created(), map[]), true)
  {
    OneQuestionValid();
    hide SciperToInt, ValidConfig, BallotSize, OneQuestion;
    assert NewForm(env, 100000, OneQuestion(), [NODE]) == Created();
  }

  lemma Openable(env: Env, admin: string)
    requires IsAdmin(admin)
    ensures NextForm(env, Created(), map[], OpenForm(FORM, admin, Some(1))) == Some(Opened([]))
  {
    Owner(Created(), admin);
    hide Listed, OneQuestion;
  }

  lemma NamedRun(env: Env, admin: string) returns (run: Run)
    requires IsAdmin(admin)
    ensures Reaches(env, run, Named(), [])
  {
    AdminNamed(env, admin);
    assert Reaches(env, [], EMPTY_STORE, []);
    hide Apply, Reaches, Named;
    var tx := AddAdmin(admin, admin);
    Extend(env, [], EMPTY_STORE, [], tx, Named());
    run := [] + [tx];
  }

  lemma CreatedRun(env: Env, admin: string) returns (run: Run)
    requires IsAdmin(admin) && env.threshold(1) == 1
    ensures Reaches(env, run, With(Created(), map[]), [])
  {
    FormCreated(env, admin);
    var tx := CreateForm(FORM, admin, OneQuestion(), [NODE]);
    assert Admissible(Named(), tx);
    hide Apply, Reaches, Named, Created, With, Admissible, OneQuestion, IsAdmin;
    run := NamedRun(env, admin);
    Extend(env, run, Named(), [], tx, With(Created(), map[]));
    run := run + [tx];
  }

  /** An administrator is named, and creates and opens a form. */
  lemma OpenRun(env: Env, admin: string) returns (run: Run)
    requires IsAdmin(admin) && env.threshold(1) == 1
    ensures Reaches(env, run, With(Opened([]), map[]), [])
  {
    Openable(env, admin);
    hide Reaches, NextForm, Created, Opened, With, IsAdmin;
    run := CreatedRun(env, admin);
    var tx := OpenForm(FORM, admin, Some(1));
    FormStep(env, run, Created(), map[], [], tx, Opened([]));
    assert BlocksAfter(env, Created(), map[], tx) == map[];
    run := run + [tx];
  }

  lemma AddedVoter(env: Env, admin: string, voters: seq<int>, id: string, n: int)
    requires IsAdmin(admin) && SciperToInt(id) == Some(n)
    ensures NextForm(env, Opened(voters), map[], AddVoter(FORM, admin, id)) == Some(Opened(voters + [n]))
  {
    Owner(Opened(voters), admin);
    hide SciperToInt, Listed, OneQuestion;
  }

  lemma VoterAdded(env: Env, admin: string, run: Run, voters: seq<int>, id: string, n: int) returns (more: Run)
    requires IsAdmin(admin) && SciperToInt(id) == Some(n)
    requires Reaches(env, run, With(Opened(voters), map[]), [])
    ensures Reaches(env, more, With(Opened(voters + [n]), map[]), [])
  {
    AddedVoter(env, admin, voters, id, n);
    hide NextForm, Reaches, Opened, IsAdmin, With;
    var tx := AddVoter(FORM, admin, id);
    FormStep(env, run, Opened(voters), map[], [], tx, Opened(voters + [n]));
    assert BlocksAfter(env, Opened(voters), map[], tx) == map[];
    more := run + [tx];
  }

  // ----- Casting and closing

  /** The votes cast are in the blocks. */
  ghost predicate Holds(env: Env, f: Form, blocks: BlockStore, log: Log) {
    Represents(env.sha256, FORM, f.index, blocks, log)
  }

  /** An open form whose ballots have one chunk. */
  predicate Votable(f: Form) {
    f.status == Open && ChunksPerBallot(f.ballotSize) == 1
  }

  function Voted(env: Env, f: Form): (g: Form) {
    f.(index := NextIndex(env.sha256, FORM, f.index))
  }

  lemma TargetHeld(env: Env, f: Form, blocks: BlockStore, log: Log, v: Vote)
    requires Holds(env, f, blocks, log) && |log| < 100
    ensures var t := Target(env.sha256, FORM, f.index, blocks); t.Some? && Paired(t.value.1)
    ensures Holds(env, Voted(env, f), NextBlocks(env.sha256, FORM, f.index, blocks, v), log + [v])
  {
    CastKeepsLog(env.sha256, FORM, f.index, blocks, log, v);
  }

  lemma VoteTaken(env: Env, f: Form, blocks: BlockStore, log: Log, id: string, p: Pair)
    requires Votable(f) && Listed(f.voters, id) && Holds(env, f, blocks, log) && |log| < 100
    ensures var tx := CastVote(FORM, id, [p]);
            && NextForm(env, f, blocks, tx) == Some(Voted(env, f))
            && Holds(env, Voted(env, f), BlocksAfter(env, f, blocks, tx), log + [Vote(id, [p])])
  {
    TargetHeld(env, f, blocks, log, Vote(id, [p]));
    hide Holds, Listed, Target, NextBlocks, NextIndex, ChunksPerBallot;
  }

  lemma VoteCast(env: Env, run: Run, f: Form, blocks: BlockStore, log: Log, id: string, p: Pair)
    returns (more: Run, after: BlockStore)
    requires Votable(f) && Listed(f.voters, id) && Holds(env, f, blocks, log) && |log| < 100
    requires Reaches(env, run, With(f, blocks), log)
    ensures Reaches(env, more, With(Voted(env, f), after), log + [Vote(id, [p])])
    ensures Holds(env, Voted(env, f), after, log + [Vote(id, [p])])
  {
    var tx := CastVote(FORM, id, [p]);
    VoteTaken(env, f, blocks, log, id, p);
    hide NextForm, BlocksAfter, Reaches, Holds, Voted, With, Votable, Listed;
    after := BlocksAfter(env, f, blocks, tx);
    FormStep(env, run, f, blocks, log, tx, Voted(env, f));
    more := run + [tx];
  }

  lemma Closable(env: Env, admin: string, f: Form, blocks: BlockStore, log: Log)
    requires IsAdmin(admin) && f.status == Open && f.owners == [100000] && Holds(env, f, blocks, log) && |log| == 2
    ensures NextForm(env, f, blocks, CloseForm(FORM, admin)) == Some(f.(status := Closed))
  {
    Owner(f, admin);
    hide Listed;
  }

  lemma FormClosed(env: Env, admin: string, run: Run, f: Form, blocks: BlockStore, log: Log) returns (more: Run)
    requires IsAdmin(admin) && f.status == Open && f.owners == [100000] && Holds(env, f, blocks, log) && |log| == 2
    requires Reaches(env, run, With(f, blocks), log)
    ensures Reaches(env, more, With(f.(status := Closed), blocks), log)
  {
    Closable(env, admin, f, blocks, log);
    hide NextForm, Reaches, Holds, IsAdmin, With;
    var tx := CloseForm(FORM, admin);
    FormStep(env, run, f, blocks, log, tx, f.(status := Closed));
    assert BlocksAfter(env, f, blocks, tx) == blocks;
    more := run + [tx];
  }

  /** Two casts, the first of a plain zero and the second of a plain one. */
  function TwoCasts(a: string, b: string): (log: Log) {
    [Vote(a, [Pair(0, 0)]), Vote(b, [Pair(0, 1)])]
  }

  function TwoBallots(): (cvs: seq<Ciphervote>) { [[Pair(0, 0)], [Pair(0, 1)]] }

  lemma LatestOfTwo(a: string, b: string)
    ensures LatestVotes(TwoCasts(a, b)) == if a == b then Votes([a], [[Pair(0, 1)]]) else Votes([a, b], TwoBallots())
  {
    LatestPush([], TwoCasts(a, b)[0]);
    LatestPush([TwoCasts(a, b)[0]], TwoCasts(a, b)[1]);
    assert TwoCasts(a, b) == [] + [TwoCasts(a, b)[0]] + [TwoCasts(a, b)[1]];
    assert [] + [TwoCasts(a, b)[0]] == [TwoCasts(a, b)[0]];
  }

  /** The open form after those casts, closed. */
  function ClosedForm(voters: seq<int>, x: Index): (f: Form) {
    Opened(voters).(index := x, status := Closed)
  }

  lemma OpenedFacts(env: Env, voters: seq<int>)
    ensures Votable(Opened(voters)) && Opened(voters).owners == [100000] && Opened(voters).voters == voters
    ensures Votable(Voted(env, Opened(voters))) && Voted(env, Opened(voters)).voters == voters
    ensures Holds(env, Opened(voters), map[], [])
  {
    OneQuestionValid();
  }

  lemma ClosedAfterTwo(env: Env, voters: seq<int>)
    ensures var f := Voted(env, Voted(env, Opened(voters)));
            f.status == Open && f.owners == [100000] && f.(status := Closed) == ClosedForm(voters, f.index)
  {
    hide NextIndex, OneQuestion;
  }

  /** Two listed identifiers cast and the form is closed. */
  lemma ClosedRun(env: Env, admin: string, run: Run, voters: seq<int>, a: string, b: string)
    returns (more: Run, x: Index, blocks: BlockStore)
    requires IsAdmin(admin) && Listed(voters, a) && Listed(voters, b)
    requires Reaches(env, run, With(Opened(voters), map[]), [])
    ensures Reaches(env, more, With(ClosedForm(voters, x), blocks), TwoCasts(a, b))
    ensures ReadVotes(x, blocks) == Some(LatestVotes(TwoCasts(a, b)))
  {
    var f := Opened(voters);
    OpenedFacts(env, voters);
    ClosedAfterTwo(env, voters);
    hide Reaches, With, Holds, Votable, Listed, Opened, Voted, ClosedForm, IsAdmin, LatestVotes;
    var once := [Vote(a, [Pair(0, 0)])];
    more, blocks := VoteCast(env, run, f, map[], [], a, Pair(0, 0));
    assert [] + once == once;
    more, blocks := VoteCast(env, more, Voted(env, f), blocks, once, b, Pair(0, 1));
    assert once + [Vote(b, [Pair(0, 1)])] == TwoCasts(a, b);
    var g := Voted(env, Voted(env, f));
    x := g.index;
    VotesHeld(env, g, blocks, TwoCasts(a, b));
    more := FormClosed(env, admin, more, g, blocks, TwoCasts(a, b));
  }

  lemma VotesHeld(env: Env, f: Form, blocks: BlockStore, log: Log)
    requires Holds(env, f, blocks, log)
    ensures ReadVotes(f.index, blocks) == Some(LatestVotes(log))
  {
    BlocksRefineLog(env.sha256, FORM, f.index, blocks, log);
  }

  /** The run so far with one registered person. */
  lemma OnePersonRun(env: Env, admin: string, a: string) returns (run: Run)
    requires IsAdmin(admin) && SciperToInt(a) == Some(100001) && env.threshold(1) == 1
    ensures Reaches(env, run, With(Opened([100001]), map[]), [])
  {
    hide Reaches, With, Opened, SciperToInt;
    run := OpenRun(env, admin);
    run := VoterAdded(env, admin, run, [], a, 100001);
    assert [] + [100001] == [100001];
  }

  lemma OneVoter(a: string)
    requires SciperToInt(a) == Some(100001)
    ensures Listed([100001], a) && LatestVotes(TwoCasts(a, a)).voterIDs == [a]
  {
    LatestOfTwo(a, a);
    hide LatestVotes, SciperToInt;
  }

  lemma SettingThreshold()
    ensures Setting().threshold(1) == 1
  {
  }

  /** A form can be closed although only one person voted, twice. */
  lemma OneVoterCloses() returns (run: Run, voter: string)
    ensures AdmissibleRun(Setting(), run) && FORM in After(Setting(), run).forms
    ensures After(Setting(), run).forms[FORM].status == Closed
    ensures LatestVotes(CastLog(Setting(), run, FORM)).voterIDs == [voter]
  {
    hide LatestVotes, Opened, Listed, SciperToInt, Setting, After, CastLog, AdmissibleRun, ReadVotes, IsAdmin;
    var admin, b;
    admin, voter, b := Users();
    OneVoter(voter);
    SettingThreshold();
    run := OnePersonRun(Setting(), admin, voter);
    var x, blocks;
    run, x, blocks := ClosedRun(Setting(), admin, run, [100001], voter, voter);
  }

  lemma DeleteOpened(env: Env, admin: string)
    requires IsAdmin(admin)
    ensures Apply(env, With(Opened([]), map[]), DeleteForm(FORM, admin))
         == Outcome(With(Opened([]), map[]).(forms := map[]), false)
  {
    Owner(Opened([]), admin);
    hide Listed, OneQuestion;
    assert map[FORM := Opened([])] - {FORM} == map[];
  }

  /** The owner of an open form asks to delete it: the answer is no, the form is gone, and its identifier
      is still listed. */
  lemma OwnerDeletes() returns (run: Run, owner: string)
    ensures AdmissibleRun(Setting(), run) && FORM in After(Setting(), run).forms
    ensures var st := After(Setting(), run);
            Apply(Setting(), st, DeleteForm(FORM, owner)) == Outcome(st.(forms := map[]), false) && FORM in st.metadata
  {
    hide SciperToInt, Setting, AdmissibleRun, After, CastLog, Opened, Apply, IsAdmin;
    var a, b;
    owner, a, b := Users();
    SettingThreshold();
    run := OpenRun(Setting(), owner);
    DeleteOpened(Setting(), owner);
  }

  // ----- Shuffling, decrypting and publishing

  /** The two ballots, followed by more. */
  function Stuffed(extra: nat): (cvs: seq<Ciphervote>)
    ensures |cvs| == 2 + extra
  {
    TwoBallots() + seq(extra, _ => [Pair(0, 1)])
  }

  function TheShuffle(extra: nat): (s: ShuffleInstance) { ShuffleInstance(Stuffed(extra), "", [0], NODE) }

  function TheUnit(extra: nat): (unit: PubsharesUnit) { [[0], [1]] + seq(extra, _ => [1]) }

  function TheShares(extra: nat): (u: PubsharesUnits) { PubsharesUnits([TheUnit(extra)], [NODE], [0]) }

  function ShuffledForm(voters: seq<int>, x: Index, extra: nat): (f: Form) {
    ClosedForm(voters, x).(shuffles := [TheShuffle(extra)], status := ShuffledBallots)
  }

  function SubmittedForm(voters: seq<int>, x: Index, extra: nat): (f: Form) {
    ShuffledForm(voters, x, extra).(units := TheShares(extra), status := PubSharesSubmitted)
  }

  ghost function PublishedForm(voters: seq<int>, x: Index, extra: nat): (f: Form) {
    var f := SubmittedForm(voters, x, extra);
    f.(decrypted := Revealed(Setting(), f).GetOr([]), status := ResultAvailable)
  }

  lemma RowsBegin(a: seq<Ciphervote>, b: seq<Ciphervote>)
    requires Rectangular(a) && Rectangular(b) && a <= b
    ensures Begins(KRows(a), KRows(b)) && Begins(CRows(a), CRows(b))
  {
    assert a[0] == b[0];
    forall j | 0 <= j < |a[0]|
      ensures KRows(a)[j] <= KRows(b)[j] && CRows(a)[j] <= CRows(b)[j]
    {
      assert forall i :: 0 <= i < |a| ==> a[i] == b[i];
    }
  }

  lemma StuffedRectangular(extra: nat)
    ensures Rectangular(TwoBallots()) && Rectangular(Stuffed(extra)) && TwoBallots() <= Stuffed(extra)
    ensures SameShapes(KRows(TwoBallots()), CRows(TwoBallots()))
  {
  }

  lemma ShuffleProved(extra: nat)
    ensures Proves(Setting(), Some(1), TwoBallots(), TheShuffle(extra))
  {
    StuffedRectangular(extra);
    hide Rectangular, TwoBallots, Stuffed, SameShapes, Begins;
    RowsBegin(TwoBallots(), Stuffed(extra));
  }

  lemma VectorDerived(ballots: seq<Ciphervote>)
    ensures Setting().vector(FORM, ballots, 1) == Some([0])
  {
    assert seq(1, _ => 0) == [0];
  }

  function TheShuffleTx(admin: string, extra: nat): (tx: Tx)
    ensures tx.ShuffleBallots? && tx.form == FORM
  {
    ShuffleBallots(FORM, admin, 0, Stuffed(extra), [0], "", NODE, "", [])
  }

  /** What a shuffle of the closed form must pass. */
  predicate Passes(env: Env, f: Form, extra: nat) {
    && env.shuffleSigned(NODE, FORM, Stuffed(extra), "")
    && env.vector(FORM, Stuffed(extra), ChunksPerBallot(f.ballotSize)) == Some([0])
        && ChunksPerBallot(f.ballotSize) == 1
    && Proves(env, f.pubkey, TwoBallots(), TheShuffle(extra))
  }

  lemma ShufflePasses(voters: seq<int>, x: Index, extra: nat)
    ensures Passes(Setting(), ClosedForm(voters, x), extra)
  {
    OneQuestionValid();
    ShuffleProved(extra);
    VectorDerived(Stuffed(extra));
    assert Setting().shuffleSigned(NODE, FORM, Stuffed(extra), "");
    hide Setting, Proves, Stuffed, OneQuestion, ChunksPerBallot;
  }

  lemma ShuffleMayRun(env: Env, admin: string, f: Form, blocks: BlockStore, extra: nat)
    requires IsAdmin(admin) && f.owners == [100000] && f.status == Closed && f.shuffles == [] && f.roster == [NODE]
    requires Passes(env, f, extra) && ShuffleInput(f, blocks) == Some(TwoBallots())
    ensures ShuffleAllowed(env, f, blocks, TheShuffleTx(admin, extra))
  {
    Owner(f, admin);
    hide Listed, ShuffleInput, Proves, ChunksPerBallot, IsAdmin;
  }

  lemma ShuffledIs(voters: seq<int>, x: Index, extra: nat)
    ensures Shuffled(ClosedForm(voters, x), TheShuffle(extra)) == ShuffledForm(voters, x, extra)
  {
    hide OneQuestion, Stuffed;
    assert [] + [TheShuffle(extra)] == [TheShuffle(extra)];
  }

  lemma ShuffleAccepted(admin: string, voters: seq<int>, x: Index, blocks: BlockStore, extra: nat)
    requires IsAdmin(admin) && ShuffleInput(ClosedForm(voters, x), blocks) == Some(TwoBallots())
    ensures NextForm(Setting(), ClosedForm(voters, x), blocks, TheShuffleTx(admin, extra))
              == Some(ShuffledForm(voters, x, extra))
  {
    ShufflePasses(voters, x, extra);
    ShuffleMayRun(Setting(), admin, ClosedForm(voters, x), blocks, extra);
    ShuffledIs(voters, x, extra);
    hide ShuffleInput, Setting, ShuffleAllowed, Stuffed, ClosedForm;
    hide ShuffledForm, Passes, Shuffled, IsAdmin, TwoBallots;
  }

  function TheSharesTx(extra: nat): (tx: Tx)
    ensures tx.RegisterPubShares? && tx.form == FORM
  {
    RegisterPubShares(FORM, 0, TheUnit(extra), NODE, "")
  }

  lemma SharesFit(voters: seq<int>, x: Index, extra: nat)
    ensures SameShape(TheUnit(extra), LastBallots(ShuffledForm(voters, x, extra)))
  {
    hide OneQuestion;
  }

  lemma RegisteredIs(voters: seq<int>, x: Index, extra: nat)
    ensures Registered(ShuffledForm(voters, x, extra), TheUnit(extra), NODE, 0) == SubmittedForm(voters, x, extra)
  {
    hide OneQuestion, TheUnit, Stuffed;
    var f := ShuffledForm(voters, x, extra);
    assert f.units.pubshares + [TheUnit(extra)] == TheShares(extra).pubshares;
    assert f.units.pubKeys + [NODE] == TheShares(extra).pubKeys && f.units.indexes + [0] == TheShares(extra).indexes;
  }

  lemma SharesMayRun(env: Env, f: Form, extra: nat)
    requires env.sharesSigned(NODE, FORM, 0, TheUnit(extra), "")
    requires f.status == ShuffledBallots && f.roster == [NODE] && f.shuffles != []
              && f.units == PubsharesUnits([], [], [])
    requires SameShape(TheUnit(extra), LastBallots(f))
    ensures SharesAllowed(env, f, TheSharesTx(extra))
  {
    hide TheUnit, SameShape;
  }

  lemma SharesAccepted(voters: seq<int>, x: Index, blocks: BlockStore, extra: nat)
    ensures NextForm(Setting(), ShuffledForm(voters, x, extra), blocks, TheSharesTx(extra))
              == Some(SubmittedForm(voters, x, extra))
  {
    SharesFit(voters, x, extra);
    assert Setting().sharesSigned(NODE, FORM, 0, TheUnit(extra), "");
    hide Setting, TheUnit;
    SharesMayRun(Setting(), ShuffledForm(voters, x, extra), extra);
    RegisteredIs(voters, x, extra);
    hide SharesAllowed, ShuffledForm, SubmittedForm, Registered, SameShape;
  }

  lemma SharesHonest(f: Form, extra: nat)
    requires f.shuffles == [TheShuffle(extra)] && f.units == TheShares(extra)
    ensures Decryptable(f) && HonestShares(Setting(), f, [1])
  {
    assert Eval([1], 1) == 1 + 1 * Eval([1][1..], 1);
  }

  lemma ResultRevealed(f: Form, extra: nat)
    requires f.shuffles == [TheShuffle(extra)] && f.units == TheShares(extra)
    ensures var r := Revealed(Setting(), f); r.Some? && |r.value| == 2 + extra
  {
    SharesHonest(f, extra);
    SettingIsSound();
    forall i | 0 <= i < 2 + extra
      ensures BallotText(Setting(), f, i).Some?
    {
      ChunkDecrypts(Setting(), f, [1], i, 0);
      hide DecryptChunk;
      assert DecryptText(Setting(), f, i, 0) == Some("");
      assert DecryptText(Setting(), f, i, 1).Some?;
    }
    hide BallotText;
  }

  lemma ResultAccepted(env: Env, admin: string, f: Form, blocks: BlockStore)
    requires IsAdmin(admin) && f.status == PubSharesSubmitted && f.owners == [100000] && Revealed(env, f).Some?
    ensures NextForm(env, f, blocks, CombineShares(FORM, admin))
         == Some(f.(decrypted := Revealed(env, f).GetOr([]), status := ResultAvailable))
  {
    Owner(f, admin);
    hide Listed, Revealed;
  }

  /** From the closed form to the published one. */
  lemma PublishedRun(admin: string, run: Run, voters: seq<int>, x: Index, blocks: BlockStore, log: Log, extra: nat)
    returns (more: Run)
    requires IsAdmin(admin) && Reaches(Setting(), run, With(ClosedForm(voters, x), blocks), log)
    requires ShuffleInput(ClosedForm(voters, x), blocks) == Some(TwoBallots())
    ensures Reaches(Setting(), more, With(PublishedForm(voters, x, extra), blocks), log)
  {
    var closed, shuffled := ClosedForm(voters, x), ShuffledForm(voters, x, extra);
    var submitted, published := SubmittedForm(voters, x, extra), PublishedForm(voters, x, extra);
    PublishedIs(admin, voters, x, blocks, extra);
    hide Reaches, Setting, With, NextForm, ClosedForm, ShuffledForm, SubmittedForm, PublishedForm, IsAdmin;
    hide ShuffleInput, TwoBallots, Stuffed, TheUnit, TheShuffleTx, TheSharesTx;
    ShuffleAccepted(admin, voters, x, blocks, extra);
    SharesAccepted(voters, x, blocks, extra);
    more := FrozenStep(Setting(), run, closed, blocks, log, TheShuffleTx(admin, extra), shuffled);
    more := FrozenStep(Setting(), more, shuffled, blocks, log, TheSharesTx(extra), submitted);
    more := FrozenStep(Setting(), more, submitted, blocks, log, CombineShares(FORM, admin), published);
  }

  /** A step that casts nothing leaves the blocks and the log. */
  lemma FrozenStep(env: Env, run: Run, f: Form, blocks: BlockStore, log: Log, tx: Tx, g: Form) returns (more: Run)
    requires Reaches(env, run, With(f, blocks), log) && !tx.CastVote?
    requires NamesForm(tx) && !tx.DeleteForm? && tx.form == FORM && NextForm(env, f, blocks, tx) == Some(g)
    ensures Reaches(env, more, With(g, blocks), log)
  {
    hide NextForm, Reaches, With;
    FormStep(env, run, f, blocks, log, tx, g);
    assert BlocksAfter(env, f, blocks, tx) == blocks;
    more := run + [tx];
  }

  lemma PublishedIs(admin: string, voters: seq<int>, x: Index, blocks: BlockStore, extra: nat)
    requires IsAdmin(admin)
    ensures NextForm(Setting(), SubmittedForm(voters, x, extra), blocks, CombineShares(FORM, admin))
         == Some(PublishedForm(voters, x, extra))
  {
    ResultRevealed(SubmittedForm(voters, x, extra), extra);
    hide Revealed, Setting, NextForm, OneQuestion, Stuffed, TheUnit, IsAdmin;
    ResultAccepted(Setting(), admin, SubmittedForm(voters, x, extra), blocks);
  }

  // ----- What the runs show

  lemma OnlyForm(env: Env, run: Run, f: Form, blocks: BlockStore, log: Log, key: seq<int>)
    requires IsPrime(env.q) && SoundProver(env) && ValidThreshold(env)
    requires Reaches(env, run, With(f, blocks), log) && |log| <= COUNT_LIMIT
    requires f.status == ResultAvailable && |key| <= f.threshold
    requires f.pubkey.Some? && Congruent(f.pubkey.value, Eval(key, 0), env.q)
    requires Decryptable(f) && HonestShares(env, f, key)
    ensures PublishedAtAnySize(env, run, FORM, key) && After(env, run).forms[FORM] == f
    ensures Published(env, run, FORM, key) <==> SizesKept(f, log)
  {
    hide IsPrime, SoundProver, ValidThreshold, Congruent, Decryptable, HonestShares;
    hide SizesKept, Eval, After, CastLog, AdmissibleRun;
    assert With(f, blocks).forms.Keys == {FORM};
    assert NoCollision(env, {FORM});
  }

  lemma PublishedFacts(voters: seq<int>, x: Index, extra: nat)
    ensures var f := PublishedForm(voters, x, extra);
            && f.status == ResultAvailable && f.threshold == 1 && f.pubkey == Some(1) && Congruent(1, Eval([1], 0), 2)
            && f.shuffles == [TheShuffle(extra)]
            && Decryptable(f) && HonestShares(Setting(), f, [1]) && |f.decrypted| == 2 + extra
  {
    var f := PublishedForm(voters, x, extra);
    ResultRevealed(SubmittedForm(voters, x, extra), extra);
    SharesHonest(f, extra);
    hide Revealed, OneQuestion, HonestShares, Decryptable, Stuffed, TheUnit;
  }

  lemma StuffedSize(f: Form, extra: nat, a: string, b: string)
    requires f.shuffles == [TheShuffle(extra)] && a != b
    ensures SizesKept(f, TwoCasts(a, b)) <==> extra == 0
  {
    LatestOfTwo(a, b);
    hide LatestVotes;
    assert SizesKept(f, TwoCasts(a, b)) <==> SameSize(InputOf(f, TwoCasts(a, b), 0), f.shuffles[0].ballots);
  }

  lemma TwoVoters(a: string, b: string)
    requires a != b
    ensures Voters(TwoCasts(a, b), [a, b])
  {
    LatestOfTwo(a, b);
    LatestVotesCorrect(TwoCasts(a, b));
    hide LatestVotes, LastBallot;
    assert LatestVotes(TwoCasts(a, b)).voterIDs == [a, b];
  }

  lemma PublishedTally(run: Run, voters: seq<int>, x: Index, blocks: BlockStore, extra: nat, a: string, b: string)
    requires Reaches(Setting(), run, With(PublishedForm(voters, x, extra), blocks), TwoCasts(a, b)) && a != b
    ensures PublishedAtAnySize(Setting(), run, FORM, [1]) && (Published(Setting(), run, FORM, [1]) <==> extra == 0)
    ensures CastLog(Setting(), run, FORM) == TwoCasts(a, b)
    ensures |After(Setting(), run).forms[FORM].decrypted| == 2 + extra
  {
    assert Setting().q == 2;
    hide Setting, PublishedForm, SoundProver, IsPrime, SizesKept, HonestShares, Decryptable, Eval, After, CastLog;
    hide With, Published, PublishedAtAnySize, Congruent, Complete, Stuffed, AdmissibleRun, TheShuffle, ValidThreshold;
    var f := PublishedForm(voters, x, extra);
    SettingIsSound();
    PublishedFacts(voters, x, extra);
    StuffedSize(f, extra, a, b);
    OnlyForm(Setting(), run, f, blocks, TwoCasts(a, b), [1]);
  }

  lemma FirstList(voters: seq<int>, x: Index, blocks: BlockStore, votes: Votes)
    requires ReadVotes(x, blocks) == Some(votes)
    ensures ShuffleInput(ClosedForm(voters, x), blocks) == Some(votes.ciphervotes)
  {
    hide ReadVotes, OneQuestion;
  }

  /** An election in which two listed identifiers cast, published after a shuffle with some more ballots. */
  lemma Election(admin: string, run: Run, voters: seq<int>, a: string, b: string, extra: nat) returns (more: Run)
    requires IsAdmin(admin) && Listed(voters, a) && Listed(voters, b) && a != b
    requires Reaches(Setting(), run, With(Opened(voters), map[]), [])
    ensures PublishedAtAnySize(Setting(), more, FORM, [1]) && (Published(Setting(), more, FORM, [1]) <==> extra == 0)
    ensures CastLog(Setting(), more, FORM) == TwoCasts(a, b)
    ensures |After(Setting(), more).forms[FORM].decrypted| == 2 + extra
  {
    hide IsAdmin, Setting, Reaches, With, Opened, Listed, LatestVotes, ReadVotes, Published, PublishedAtAnySize;
    hide PublishedForm, After, CastLog;
    LatestOfTwo(a, b);
    var x, blocks;
    more, x, blocks := ClosedRun(Setting(), admin, run, voters, a, b);
    FirstList(voters, x, blocks, LatestVotes(TwoCasts(a, b)));
    hide ClosedForm, ShuffleInput;
    more := PublishedRun(admin, more, voters, x, blocks, TwoCasts(a, b), extra);
    PublishedTally(more, voters, x, blocks, extra, a, b);
  }

  lemma TwoPeopleRun(admin: string, a: string, b: string) returns (run: Run)
    requires IsAdmin(admin) && SciperToInt(a) == Some(100001) && SciperToInt(b) == Some(100002)
    ensures Reaches(Setting(), run, With(Opened([100001, 100002]), map[]), [])
    ensures Listed([100001, 100002], a) && Listed([100001, 100002], b)
  {
    SettingThreshold();
    hide Reaches, With, Opened, SciperToInt, Setting, IsAdmin;
    run := OnePersonRun(Setting(), admin, a);
    run := VoterAdded(Setting(), admin, run, [100001], b, 100002);
    assert [100001] + [100002] == [100001, 100002];
  }

  /** All assumptions of the tally and of the honest node hold together of a run that publishes two
      ballots. */
  lemma AssumptionsTogether() returns (run: Run)
    ensures Complete(Setting(), Idle()) && Published(Setting(), run, FORM, [1])
    ensures |After(Setting(), run).forms[FORM].decrypted| == 2
  {
    hide Setting, Reaches, With, Opened, Listed, Complete;
    hide Published, PublishedAtAnySize, After, CastLog, IsAdmin, SciperToInt;
    SettingIsSound();
    var admin, a, b := Users();
    run := TwoPeopleRun(admin, a, b);
    run := Election(admin, run, [100001, 100002], a, b, 0);
  }

  /** The condition on sizes cannot be dropped: the contract compares no lengths, so under proofs that are
      sound for lists of equal size, and all other assumptions of the tally, any number of ballots can be
      published for two voters. */
  lemma SizesNeeded(extra: nat) returns (run: Run, voters: seq<string>)
    ensures PublishedAtAnySize(Setting(), run, FORM, [1])
    ensures Voters(CastLog(Setting(), run, FORM), voters) && |voters| == 2
    ensures |After(Setting(), run).forms[FORM].decrypted| == 2 + extra
  {
    hide Setting, Reaches, With, Opened, Listed, Published;
    hide PublishedAtAnySize, After, CastLog, Voters, IsAdmin, SciperToInt;
    var admin, a, b := Users();
    run := TwoPeopleRun(admin, a, b);
    run := Election(admin, run, [100001, 100002], a, b, extra);
    voters := [a, b];
    TwoVoters(a, b);
  }

  lemma PlusNamed(id: string, n: int)
    requires SciperToInt(id) == Some(n) && |id| == 6
    ensures SciperToInt("+" + id) == Some(n) && "+" + id != id
  {
    SpellingsCoincide(id);
  }

  lemma SamePerson(a: string, b: string, n: int)
    requires SciperToInt(a) == Some(n) && SciperToInt(b) == Some(n)
    ensures AllNamed([a, b]) && People([a, b]) == {n} && Listed([n], a) && Listed([n], b)
  {
    hide SciperToInt;
    assert Scipers([a, b]) == [n, n];
  }

  /** One registered person casts under two spellings and is counted twice. */
  lemma OnePersonTwice() returns (run: Run, voters: seq<string>)
    ensures Published(Setting(), run, FORM, [1]) && Voters(CastLog(Setting(), run, FORM), voters)
    ensures AllNamed(voters) && |People(voters)| == 1
    ensures |After(Setting(), run).forms[FORM].decrypted| == 2
  {
    hide Setting, Reaches, With, Opened, Listed, Published, PublishedAtAnySize, After, CastLog, Voters, IsAdmin;
    hide AllNamed, People, SciperToInt;
    var admin, id, other := Users();
    var plus := "+" + id;
    PlusNamed(id, 100001);
    SamePerson(id, plus, 100001);
    SettingThreshold();
    run := OnePersonRun(Setting(), admin, id);
    run := Election(admin, run, [100001], id, plus, 0);
    voters := [id, plus];
    TwoVoters(id, plus);
  }

  // ----- A group whose points hold 29 bytes

  /** A byte string as a number, after a leading one. */
  function Code(bytes: string): (n: nat)
    requires IsBytes(bytes)
    ensures n >= 1
  {
    if bytes == [] then 1 else 256 * Code(bytes[..|bytes| - 1]) + bytes[|bytes| - 1] as int
  }

  function Decoded(n: int): (r: Option<ByteString>) {
    if n <= 0 then None
    else if n == 1 then Some([])
    else match Decoded(n / 256)
      case Some(front) => Some(front + [(n % 256) as char])
      case None => None
  }

  function Room(length: nat): (n: nat) {
    if length == 0 then 2 else 256 * Room(length - 1)
  }

  lemma {:induction false} CodeFits(bytes: string)
    requires IsBytes(bytes)
    ensures Code(bytes) < Room(|bytes|) && Decoded(Code(bytes)) == Some(bytes)
  {
    if bytes != [] {
      var front, last := bytes[..|bytes| - 1], bytes[|bytes| - 1];
      CodeFits(front);
      var n := Code(bytes);
      assert n / 256 == Code(front) && n % 256 == last as int;
      assert front + [last] == bytes;
    }
  }

  lemma {:induction false} RoomGrows(m: nat, n: nat)
    requires m <= n
    ensures Room(m) <= Room(n)
  {
    if m < n { RoomGrows(m, n - 1); }
  }

  /** There are groups of prime order whose points hold any 29 bytes. */
  lemma EmbeddingPossible() returns (env: Env)
    ensures IsPrime(env.q) && ValidThreshold(env) && Embeds(env)
  {
    var p := PrimeAbove(Room(29));
    env := Setting().(q := p, data := Decoded);
    hide Setting, IsPrime, Room;
    forall bytes: ByteString | |bytes| <= 29
      ensures Embeddable(env, bytes)
    {
      CodeFits(bytes);
      RoomGrows(|bytes|, 29);
      assert env.data(Code(bytes)) == Some(bytes);
    }
    assert ValidThreshold(env) by { SettingIsSound(); }
  }
}
