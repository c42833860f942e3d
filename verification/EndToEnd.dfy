/** From the answers in the browser to the published result. */
module EndToEnd {
  import opened Wrappers
  import opened Sequences
  import opened Text
  import opened PrimeField
  import opened Interpolation
  import opened ElGamal
  import opened Configuration
  import opened BallotReader
  import opened BallotWriter
  import opened BallotRoundTrip
  import opened BallotFits
  import opened Suffragia
  import opened Blocks
  import opened Ledger
  import opened Invariant
  import opened Runs
  import opened Tally
  import opened Permissions

  /** The ballot encrypts the chunks: each one embedded in a point and encrypted under the form's key. */
  ghost predicate EncryptsChunks(env: Env, pubkey: int, chunks: seq<string>, cv: Ciphervote) {
    |cv| == |chunks| && forall j :: 0 <= j < |cv| ==> EncryptsChunk(env, pubkey, chunks[j], cv[j])
  }

  ghost predicate EncryptsChunk(env: Env, pubkey: int, chunk: string, p: Pair) {
    exists point, ephemeral ::
      && 0 <= point < env.q && env.data(point).Some? && env.data(point).value == chunk
      && p == Encrypt(point, ephemeral, pubkey, env.q)
  }

  lemma ChunkReadBack(env: Env, pubkey: int, secret: int, chunk: string, p: Pair)
    requires Congruent(pubkey, secret, env.q) && EncryptsChunk(env, pubkey, chunk, p)
    ensures env.data(Decrypt(secret, p, env.q)).Some? && env.data(Decrypt(secret, p, env.q)).value == chunk
  {
    hide Encrypt, Decrypt, Congruent;
    var point, ephemeral :| && 0 <= point < env.q && env.data(point).Some? && env.data(point).value == chunk
                            && p == Encrypt(point, ephemeral, pubkey, env.q);
    EncryptThenDecrypt(point, ephemeral, secret, pubkey, env.q);
    SmallRemainder(point, env.q);
  }

  lemma SmallRemainder(n: int, q: int)
    requires 0 <= n < q
    ensures n % q == n
  {
  }

  lemma {:induction false} ChunksReadBack(env: Env, pubkey: int, secret: int, chunks: seq<string>, cv: Ciphervote)
    requires Congruent(pubkey, secret, env.q) && EncryptsChunks(env, pubkey, chunks, cv)
    ensures Embedded(env, Plain(env.q, secret, cv, |cv|)) == Some(Concat(chunks))
  {
    hide EncryptsChunk, Congruent, Decrypt;
    if cv != [] {
      var n := |cv| - 1;
      ChunksReadBack(env, pubkey, secret, chunks[..n], cv[..n]);
      ChunkReadBack(env, pubkey, secret, chunks[n], cv[n]);
      assert Plain(env.q, secret, cv, n + 1)[..n] == Plain(env.q, secret, cv[..n], n);
    }
  }

  /** The answers are within the limits that the browser and the contract both enforce. */
  ghost predicate ProperAnswers(c: Config, a: Answers) {
    && Answered(c, a) && HasQuestion(c)
    && AllAllowed(SelectEntries(a.selects), ForestSelects(c.scaffold))
    && AllAllowed(RankEntries(a.ranks), ForestRanks(c.scaffold))
    && AllAllowed(TextEntries(a.texts), ForestTexts(c.scaffold))
  }

  /** A ballot made by the browser: the printed answers, padded, cut, and encrypted chunk by chunk. */
  ghost predicate HonestBallot(env: Env, f: Form, a: Answers, cv: Ciphervote) {
    && f.pubkey.Some? && ProperAnswers(f.config, a)
    && exists uid, chunks :: MadeFrom(env, f, a, cv, uid, chunks)
  }

  ghost predicate MadeFrom(env: Env, f: Form, a: Answers, cv: Ciphervote, uid: nat -> string, chunks: seq<string>)
    requires f.pubkey.Some?
  {
    && UniqueIdLengths(uid) && Concat(chunks) == Padded(a, BallotSize(f.config), uid)
    && EncryptsChunks(env, f.pubkey.value, chunks, cv)
  }

  lemma HonestBallotReadBack(env: Env, f: Form, secret: int, a: Answers, cv: Ciphervote)
    requires ValidConfig(f.config) && HonestBallot(env, f, a, cv) && Congruent(f.pubkey.value, secret, env.q)
    ensures BallotUnder(env, f.config, Plain(env.q, secret, cv, |cv|)) == AsResults(a)
  {
    hide ValidConfig, Answered, HasQuestion, AllAllowed, Padded, Unmarshaled;
    hide Embedded, Plain, AsResults, UniqueIdLengths, EncryptsChunks;
    var uid, chunks :| MadeFrom(env, f, a, cv, uid, chunks);
    ChunksReadBack(env, f.pubkey.value, secret, chunks, cv);
    BallotReadBack(f.config, a, uid);
  }

  // ----- Every proper answer has such a ballot

  /** A point holds any 29 bytes. */
  ghost predicate Embeds(env: Env) {
    forall bytes: ByteString :: |bytes| <= 29 ==> Embeddable(env, bytes)
  }

  ghost predicate Embeddable(env: Env, bytes: ByteString) {
    exists point :: 0 <= point < env.q && env.data(point) == Some(bytes)
  }

  lemma ChunkEncrypted(env: Env, pubkey: int, chunk: string) returns (p: Pair)
    requires Embeds(env) && IsAscii(chunk) && |chunk| <= 29
    ensures EncryptsChunk(env, pubkey, chunk, p)
  {
    hide Encrypt;
    var bytes: ByteString := chunk;
    assert Embeddable(env, bytes);
    var point :| 0 <= point < env.q && env.data(point) == Some(bytes);
    p := Encrypt(point, 0, pubkey, env.q);
  }

  lemma {:induction false} ChunksEncrypted(env: Env, pubkey: int, chunks: seq<string>) returns (cv: Ciphervote)
    requires Embeds(env) && forall i :: 0 <= i < |chunks| ==> IsAscii(chunks[i]) && |chunks[i]| <= 29
    ensures EncryptsChunks(env, pubkey, chunks, cv)
  {
    hide Embeds, EncryptsChunk, IsAscii;
    if chunks == [] {
      cv := [];
    } else {
      var n := |chunks| - 1;
      var front := ChunksEncrypted(env, pubkey, chunks[..n]);
      var last := ChunkEncrypted(env, pubkey, chunks[n]);
      cv := front + [last];
    }
  }

  lemma {:induction false} ChunksAscii(chunks: seq<string>)
    requires IsAscii(Concat(chunks))
    ensures forall i :: 0 <= i < |chunks| ==> IsAscii(chunks[i])
  {
    if chunks != [] {
      var front, last := chunks[..|chunks| - 1], chunks[|chunks| - 1];
      assert Concat(chunks) == Concat(front) + last;
      assert forall i :: 0 <= i < |Concat(front)| ==> Concat(front)[i] == Concat(chunks)[i];
      assert forall i :: 0 <= i < |last| ==> last[i] == Concat(chunks)[|Concat(front)| + i];
      ChunksAscii(front);
    }
  }

  /** The padding of the browser: as many ASCII characters as asked for. */
  ghost predicate Padding(uid: nat -> string) {
    UniqueIdLengths(uid) && forall n :: IsAscii(uid(n))
  }

  lemma PaddedAscii(a: Answers, ballotSize: nat, uid: nat -> string)
    requires Padding(uid)
    ensures IsAscii(Padded(a, ballotSize, uid))
  {
    LinesAscii(Entries(a));
    hide Lines;
  }

  /** The chunks that the browser cuts for proper answers can be encrypted, and the encryption is an honest
      ballot with the number of chunks that the contract asks for. */
  method MakeBallot(env: Env, f: Form, a: Answers, uid: nat -> string)
      returns (chunks: seq<string>, ghost cv: Ciphervote)
    requires Embeds(env) && f.pubkey.Some? && f.ballotSize == BallotSize(f.config)
    requires ProperAnswers(f.config, a) && Padding(uid)
    ensures FillsChunks(|chunks|, f.ballotSize) && forall i :: 0 <= i < |chunks| ==> |chunks[i]| <= 29
    ensures Concat(chunks) == Padded(a, f.ballotSize, uid)
    ensures |cv| == |chunks| && HonestBallot(env, f, a, cv)
  {
    hide Padded, BallotSize, Answered, HasQuestion, AllAllowed, Embeds, EncryptsChunk, IsAscii, Concat;
    PaddedFits(f.config, a, uid);
    var encoded := VoteEncode(a, f.ballotSize, ChunksPerBallot(f.ballotSize), uid);
    chunks := encoded.value;
    PaddedAscii(a, f.ballotSize, uid);
    ChunksAscii(chunks);
    cv := ChunksEncrypted(env, f.pubkey.value, chunks);
    assert MadeFrom(env, f, a, cv, uid, chunks);
  }

  /** A registered voter with proper answers can cast them: at any point of a run where the form is open, the
      contract accepts an honest ballot of those answers. */
  lemma HonestVoterAccepted(env: Env, run: Run, form: Key, voter: string, a: Answers, uid: nat -> string,
      chunks: seq<string>) returns (cv: Ciphervote)
    requires ValidThreshold(env) && AdmissibleRun(env, run) && Embeds(env) && Padding(uid)
    requires form in After(env, run).forms && After(env, run).forms[form].status == Open
    requires Among(After(env, run).forms[form].voters, voter)
    requires ProperAnswers(After(env, run).forms[form].config, a)
    requires Concat(chunks) == Padded(a, After(env, run).forms[form].ballotSize, uid)
    requires forall i :: 0 <= i < |chunks| ==> |chunks[i]| <= 29
    requires FillsChunks(|chunks|, After(env, run).forms[form].ballotSize)
    ensures HonestBallot(env, After(env, run).forms[form], a, cv)
    ensures Apply(env, After(env, run), CastVote(form, voter, cv)).ok
  {
    ReachableInv(env, run);
    var f := After(env, run).forms[form];
    OpenFormFacts(env, f, After(env, run), form);
    hide After, Apply, Inv, Among, Padded, BallotSize;
    hide ProperAnswers, Embeds, EncryptsChunk, IsAscii, Concat, FillsChunks;
    PaddedAscii(a, f.ballotSize, uid);
    ChunksAscii(chunks);
    cv := ChunksEncrypted(env, f.pubkey.value, chunks);
    assert MadeFrom(env, f, a, cv, uid, chunks);
    CastRule(env, After(env, run), CastVote(form, voter, cv));
  }

  lemma OpenFormFacts(env: Env, f: Form, st: Store, form: Key)
    requires Inv(env, st) && form in st.forms && st.forms[form] == f && f.status == Open
    ensures f.pubkey.Some? && f.ballotSize == BallotSize(f.config)
  {
    assert FormInv(env, f);
  }

  // ----- All honest voters together

  function AllResults(answers: seq<Answers>): (rs: seq<Results>)
    ensures |rs| == |answers|
  {
    seq(|answers|, i requires 0 <= i < |answers| => AsResults(answers[i]))
  }

  /** Different voters, each of whom cast an honest ballot last. */
  ghost predicate HonestVoters(env: Env, f: Form, log: Log, honest: seq<string>, answers: seq<Answers>) {
    && |honest| == |answers| && Distinct(honest)
    && forall i :: 0 <= i < |honest| ==>
         LastBallot(log, honest[i]).Some? && HonestBallot(env, f, answers[i], LastBallot(log, honest[i]).value)
  }

  /** The listed identifiers that are not in the second list, in order. */
  function Others(ids: seq<string>, honest: seq<string>): (r: seq<string>) {
    if ids == [] then []
    else
      var front, last := Others(ids[..|ids| - 1], honest), ids[|ids| - 1];
      if last in honest then front else front + [last]
  }

  lemma {:induction false} OthersAreOthers(ids: seq<string>, honest: seq<string>)
    ensures forall v :: v in Others(ids, honest) <==> v in ids && v !in honest
    ensures Distinct(ids) ==> Distinct(Others(ids, honest))
    ensures (forall v :: v in ids ==> v in honest) ==> Others(ids, honest) == []
  {
    if ids != [] {
      var front, last := ids[..|ids| - 1], ids[|ids| - 1];
      OthersAreOthers(front, honest);
      assert ids == front + [last];
      DistinctPush(front, last);
      DistinctPush(Others(front, honest), last);
      hide Distinct;
    }
  }

  /** The honest voters, followed by everyone else who cast a ballot. */
  lemma HonestFirst(log: Log, honest: seq<string>) returns (others: seq<string>)
    requires Distinct(honest) && forall i :: 0 <= i < |honest| ==> LastBallot(log, honest[i]).Some?
    ensures Voters(log, honest + others)
    ensures (forall v :: LastBallot(log, v).Some? ==> v in honest) ==> others == []
  {
    var ids := LatestVotes(log).voterIDs;
    LatestVotesCorrect(log);
    others := Others(ids, honest);
    OthersAreOthers(ids, honest);
    hide LatestVotes, LastBallot;
    DistinctAppend(honest, others);
  }

  lemma HonestBallots(env: Env, f: Form, secret: int, log: Log, honest: seq<string>, answers: seq<Answers>)
    requires ValidConfig(f.config) && HonestVoters(env, f, log, honest, answers)
    requires f.pubkey.Some? && Congruent(f.pubkey.value, secret, env.q)
    ensures VoterBallots(env, f, secret, log, honest) == AllResults(answers)
  {
    hide ValidConfig, HonestBallot, Congruent, AsResults, BallotUnder, LastBallot;
    forall i | 0 <= i < |honest|
      ensures VoterBallots(env, f, secret, log, honest)[i] == AllResults(answers)[i]
    {
      HonestBallotReadBack(env, f, secret, answers[i], LastBallot(log, honest[i]).value);
    }
  }

  /** Honest voters are counted as they answered, each of them: when the result of a form is available, the
      answers behind the last ballots of any honest voters are among the published ballots with their
      multiplicity, and they are all of them when everyone who cast a ballot is honest. */
  lemma HonestVotersCounted(env: Env, run: Run, form: Key, key: seq<int>, honest: seq<string>, answers: seq<Answers>)
    requires Published(env, run, form, key)
    requires HonestVoters(env, After(env, run).forms[form], CastLog(env, run, form), honest, answers)
    ensures var published := multiset(After(env, run).forms[form].decrypted);
            && multiset(AllResults(answers)) <= published
            && ((forall v :: LastBallot(CastLog(env, run, form), v).Some? ==> v in honest) ==>
                  multiset(AllResults(answers)) == published)
  {
    PublishedForm(env, run, form, key);
    hide Published, After, CastLog, HonestVoters, Congruent, Eval, Voters, ValidConfig, VoterBallots;
    var f, log, secret := After(env, run).forms[form], CastLog(env, run, form), Eval(key, 0);
    assert Distinct(honest) && forall i :: 0 <= i < |honest| ==> LastBallot(log, honest[i]).Some? by {
      HonestCast(env, f, log, honest, answers);
    }
    var others := HonestFirst(log, honest);
    TallyConservation(env, run, form, key, honest + others);
    HonestBallots(env, f, secret, log, honest, answers);
    BallotsAppend(env, f, secret, log, honest, others);
  }

  lemma HonestCast(env: Env, f: Form, log: Log, honest: seq<string>, answers: seq<Answers>)
    requires HonestVoters(env, f, log, honest, answers)
    ensures Distinct(honest) && forall i :: 0 <= i < |honest| ==> LastBallot(log, honest[i]).Some?
  {
  }

  lemma BallotsAppend(env: Env, f: Form, secret: int, log: Log, a: seq<string>, b: seq<string>)
    ensures VoterBallots(env, f, secret, log, a + b)
              == VoterBallots(env, f, secret, log, a) + VoterBallots(env, f, secret, log, b)
    ensures b == [] ==> VoterBallots(env, f, secret, log, b) == []
  {
    hide VoterBallot;
  }

  lemma PublishedForm(env: Env, run: Run, form: Key, key: seq<int>)
    requires Published(env, run, form, key)
    ensures form in After(env, run).forms
    ensures var f := After(env, run).forms[form];
            ValidConfig(f.config) && f.pubkey.Some? && Congruent(f.pubkey.value, Eval(key, 0), env.q)
  {
    hide SoundProver, IsPrime, HonestShares, SizesKept, Congruent, Eval, ValidConfig, NoCollision;
    ReachableInv(env, run);
    assert FormInv(env, After(env, run).forms[form]);
  }

  /** In particular, the answers of each honest voter are published. */
  lemma HonestVoterCounted(env: Env, run: Run, form: Key, key: seq<int>, voter: string, a: Answers)
    requires Published(env, run, form, key)
    requires LastBallot(CastLog(env, run, form), voter).Some?
    requires HonestBallot(env, After(env, run).forms[form], a, LastBallot(CastLog(env, run, form), voter).value)
    ensures AsResults(a) in After(env, run).forms[form].decrypted
  {
    hide Published, After, CastLog, HonestBallot, AsResults, LastBallot;
    HonestVotersCounted(env, run, form, key, [voter], [a]);
    assert AllResults([a])[0] == AsResults(a);
    assert AsResults(a) in multiset(AllResults([a]));
  }
}
