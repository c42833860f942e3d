/** The storage of a form's ballots in blocks of 100 casts, and its agreement with the cast log. */
module Blocks {
  import opened Wrappers
  import opened Suffragia

  const BALLOTS_PER_BLOCK: nat := 100
  const COUNT_LIMIT: nat := 0x1_0000_0000

  type Key = string

  /** A 32-bit counter, least significant byte first. */
  function LittleEndian(n: nat): (s: string)
    ensures |s| == 4
  {
    [(n % 256) as char, (n / 256 % 256) as char, (n / 65536 % 256) as char, (n / 16777216 % 256) as char]
  }

  /** `h.Sum(id[0:4])[:32]`: the counter followed by the first 28 bytes of the form's hash. */
  function BlockId(sha256: string -> string, formID: Key, count: nat): (id: Key) {
    LittleEndian(count) + Prefix(sha256(formID), 28)
  }

  function Prefix(s: string, n: nat): string {
    if n <= |s| then s[..n] else s
  }

  lemma CharInjective(a: nat, b: nat)
    requires a < 256 && b < 256 && a as char == b as char
    ensures a == b
  {
    assert (a as char) as int == a && (b as char) as int == b;
  }

  lemma Bytes4(n: nat)
    requires n < COUNT_LIMIT
    ensures n == n % 256 + 256 * (n / 256 % 256) + 65536 * (n / 65536 % 256) + 16777216 * (n / 16777216 % 256)
  {
    assert n / 65536 == n / 256 / 256 && n / 16777216 == n / 65536 / 256;
    assert n / 16777216 < 256;
  }

  lemma LittleEndianInjective(m: nat, n: nat)
    requires m < COUNT_LIMIT && n < COUNT_LIMIT
    requires LittleEndian(m) == LittleEndian(n)
    ensures m == n
  {
    Bytes4(m);
    Bytes4(n);
    var a, b := LittleEndian(m), LittleEndian(n);
    assert a[0] == b[0] && a[1] == b[1] && a[2] == b[2] && a[3] == b[3];
    CharInjective(m % 256, n % 256);
    CharInjective(m / 256 % 256, n / 256 % 256);
    CharInjective(m / 65536 % 256, n / 65536 % 256);
    CharInjective(m / 16777216 % 256, n / 16777216 % 256);
  }

  /** Block identifiers of one form differ without any assumption on the hash. */
  lemma BlockIdsDiffer(sha256: string -> string, formID: Key, m: nat, n: nat)
    requires m < COUNT_LIMIT && n < COUNT_LIMIT && m != n
    ensures BlockId(sha256, formID, m) != BlockId(sha256, formID, n)
  {
    if BlockId(sha256, formID, m) == BlockId(sha256, formID, n) {
      assert LittleEndian(m) == BlockId(sha256, formID, m)[..4] == BlockId(sha256, formID, n)[..4] == LittleEndian(n);
      LittleEndianInjective(m, n);
      assert false;
    }
  }

  /** Block identifiers of two forms differ when their hashes do in the first 28 bytes. */
  lemma ForeignBlocksDiffer(sha256: string -> string, a: Key, b: Key, m: nat, n: nat)
    requires Prefix(sha256(a), 28) != Prefix(sha256(b), 28)
    ensures BlockId(sha256, a, m) != BlockId(sha256, b, n)
  {
    assert BlockId(sha256, a, m)[4..] == Prefix(sha256(a), 28);
    assert BlockId(sha256, b, n)[4..] == Prefix(sha256(b), 28);
  }

  /** The part of a form that locates its ballots. */
  datatype Index = Index(suffragiaIDs: seq<Key>, ballotCount: nat)

  type BlockStore = map<Key, Votes>

  // ----- Storing a cast

  /** The block to write and the votes already in it; none when the block cannot be read. */
  function Target(sha256: string -> string, formID: Key, x: Index, blocks: BlockStore): (r: Option<(Key, Votes)>)
    ensures r.Some? && (forall id :: id in blocks ==> Paired(blocks[id])) ==> Paired(r.value.1)
  {
    if x.ballotCount % BALLOTS_PER_BLOCK == 0 then Some((BlockId(sha256, formID, x.ballotCount), NO_VOTES))
    else if x.suffragiaIDs == [] || x.suffragiaIDs[|x.suffragiaIDs| - 1] !in blocks then None
    else
      var id := x.suffragiaIDs[|x.suffragiaIDs| - 1];
      Some((id, blocks[id]))
  }

  /** The index after a cast; the counter has 32 bits. */
  function NextIndex(sha256: string -> string, formID: Key, x: Index): (r: Index) {
    Index(
      if x.ballotCount % BALLOTS_PER_BLOCK == 0 then x.suffragiaIDs + [BlockId(sha256, formID, x.ballotCount)]
      else x.suffragiaIDs,
      (x.ballotCount + 1) % COUNT_LIMIT)
  }

  ghost predicate AllPaired(blocks: BlockStore) {
    forall id :: id in blocks ==> Paired(blocks[id])
  }

  function NextBlocks(sha256: string -> string, formID: Key, x: Index, blocks: BlockStore, v: Vote): (r: BlockStore)
    requires Target(sha256, formID, x, blocks).Some? && Paired(Target(sha256, formID, x, blocks).value.1)
  {
    var t := Target(sha256, formID, x, blocks).value;
    blocks[t.0 := Cast(t.1, v.voterID, v.ciphervote)]
  }

  // ----- Reading all ballots back

  function ReadFrom(ids: seq<Key>, blocks: BlockStore, s: Votes): (r: Option<Votes>)
    requires Paired(s)
    ensures r.Some? ==> Paired(r.value)
  {
    if ids == [] then Some(s)
    else if ids[0] !in blocks || !Paired(blocks[ids[0]]) then None
    else ReadFrom(ids[1..], blocks, CastAll(s, AsLog(blocks[ids[0]])))
  }

  function ReadVotes(x: Index, blocks: BlockStore): (r: Option<Votes>) {
    ReadFrom(x.suffragiaIDs, blocks, NO_VOTES)
  }

  /** `Form.Suffragia`: merges the blocks in order. */
  method ReadSuffragia(x: Index, blocks: BlockStore) returns (r: Option<Votes>)
    requires AllPaired(blocks)
    ensures r == ReadVotes(x, blocks)
  {
    var suff := NO_VOTES;
    for b := 0 to |x.suffragiaIDs|
      invariant Paired(suff)
      invariant ReadVotes(x, blocks) == ReadFrom(x.suffragiaIDs[b..], blocks, suff)
    {
      var id := x.suffragiaIDs[b];
      assert x.suffragiaIDs[b..][0] == id && x.suffragiaIDs[b..][1..] == x.suffragiaIDs[b + 1..];
      if id !in blocks { return None; }
      var block := blocks[id];
      ghost var before := suff;
      for i := 0 to |block.voterIDs|
        invariant Paired(suff) && suff == CastAll(before, AsLog(block)[..i])
      {
        assert AsLog(block)[..i + 1][..i] == AsLog(block)[..i];
        suff := CastVote(suff, block.voterIDs[i], block.ciphervotes[i]);
      }
      assert AsLog(block)[..|block.voterIDs|] == AsLog(block);
    }
    return Some(suff);
  }

  // ----- Agreement with the log

  function BlockCount(n: nat): (b: nat)
    ensures b * BALLOTS_PER_BLOCK >= n && (b > 0 ==> (b - 1) * BALLOTS_PER_BLOCK < n)
  {
    (n + BALLOTS_PER_BLOCK - 1) / BALLOTS_PER_BLOCK
  }

  /** The casts that went to block b. */
  function BlockLog(log: Log, b: nat): (part: Log)
    requires b < BlockCount(|log|)
  {
    var end := (b + 1) * BALLOTS_PER_BLOCK;
    log[b * BALLOTS_PER_BLOCK..if end <= |log| then end else |log|]
  }

  /** The index and blocks of a form hold exactly the log: as many blocks as needed, identified by the
      count at which each was opened, and each holding the latest votes of its 100 casts. */
  ghost predicate Represents(sha256: string -> string, formID: Key, x: Index, blocks: BlockStore, log: Log) {
    && x.ballotCount == |log| % COUNT_LIMIT
    && |x.suffragiaIDs| == BlockCount(|log|)
    && forall b :: 0 <= b < BlockCount(|log|) ==>
         && x.suffragiaIDs[b] == BlockId(sha256, formID, b * BALLOTS_PER_BLOCK)
         && x.suffragiaIDs[b] in blocks
         && blocks[x.suffragiaIDs[b]] == LatestVotes(BlockLog(log, b))
  }

  lemma {:induction false} ReadRest(sha256: string -> string, formID: Key, x: Index, blocks: BlockStore, log: Log,
      b: nat)
    requires Represents(sha256, formID, x, blocks, log) && b <= BlockCount(|log|)
    ensures var start := if b * BALLOTS_PER_BLOCK <= |log| then b * BALLOTS_PER_BLOCK else |log|;
            ReadFrom(x.suffragiaIDs[b..], blocks, LatestVotes(log[..start])) == Some(LatestVotes(log))
    decreases BlockCount(|log|) - b
  {
    hide BlockId, CastAll, AsLog;
    var start := if b * BALLOTS_PER_BLOCK <= |log| then b * BALLOTS_PER_BLOCK else |log|;
    if b == BlockCount(|log|) {
      assert log[..start] == log;
    } else {
      var part := BlockLog(log, b);
      MergeIsReplay(LatestVotes(log[..start]), part);
      CastAllAppend(NO_VOTES, log[..start], part);
      assert x.suffragiaIDs[b..][1..] == x.suffragiaIDs[b + 1..];
      assert log[..start] + part == log[..start + |part|];
      ReadRest(sha256, formID, x, blocks, log, b + 1);
    }
  }

  /** Reading the blocks gives the latest votes of the whole log, ballots and voter order alike, even
      when one voter's casts lie in different blocks. */
  lemma BlocksRefineLog(sha256: string -> string, formID: Key, x: Index, blocks: BlockStore, log: Log)
    requires Represents(sha256, formID, x, blocks, log)
    ensures ReadVotes(x, blocks) == Some(LatestVotes(log))
  {
    ReadRest(sha256, formID, x, blocks, log, 0);
    assert x.suffragiaIDs[0..] == x.suffragiaIDs && log[..0] == [];
  }

  lemma BlockArithmetic(n: nat)
    ensures n % BALLOTS_PER_BLOCK == 0 ==>
              BlockCount(n) * BALLOTS_PER_BLOCK == n && BlockCount(n + 1) == BlockCount(n) + 1
    ensures n % BALLOTS_PER_BLOCK != 0 ==> BlockCount(n) > 0 && BlockCount(n + 1) == BlockCount(n)
  {
    var k, r := n / BALLOTS_PER_BLOCK, n % BALLOTS_PER_BLOCK;
    assert n == k * BALLOTS_PER_BLOCK + r;
    assert BlockCount(n + 1) == k + 1;
    assert BlockCount(n) == if r == 0 then k else k + 1;
  }

  lemma BlockLogPush(log: Log, v: Vote, b: nat)
    requires b < BlockCount(|log| + 1)
    ensures b < |log| / BALLOTS_PER_BLOCK ==> b < BlockCount(|log|) && BlockLog(log + [v], b) == BlockLog(log, b)
    ensures b == |log| / BALLOTS_PER_BLOCK ==>
              BlockLog(log + [v], b) == (if b < BlockCount(|log|) then BlockLog(log, b) else []) + [v]
  {
  }

  /** Up to 2^32 casts, storing a cast keeps the agreement. */
  lemma CastKeepsLog(sha256: string -> string, formID: Key, x: Index, blocks: BlockStore, log: Log, v: Vote)
    requires Represents(sha256, formID, x, blocks, log) && |log| < COUNT_LIMIT
    ensures var t := Target(sha256, formID, x, blocks);
            && t.Some? && Paired(t.value.1)
            && Represents(sha256, formID, NextIndex(sha256, formID, x), NextBlocks(sha256, formID, x, blocks, v),
                          log + [v])
  {
    hide BlockId, LatestVotes, CastAll, BlockLog, Target, Cast;
    var n, last := |log|, |log| / BALLOTS_PER_BLOCK;
    BlockArithmetic(n);
    assert x.ballotCount == n;
    TargetOfLog(sha256, formID, x, blocks, log);
    var y, after := NextIndex(sha256, formID, x), NextBlocks(sha256, formID, x, blocks, v);
    forall b | 0 <= b < BlockCount(n + 1)
      ensures && y.suffragiaIDs[b] == BlockId(sha256, formID, b * BALLOTS_PER_BLOCK)
              && y.suffragiaIDs[b] in after
              && after[y.suffragiaIDs[b]] == LatestVotes(BlockLog(log + [v], b))
    {
      BlockLogPush(log, v, b);
      if b < last {
        BlockIdsDiffer(sha256, formID, b * BALLOTS_PER_BLOCK, last * BALLOTS_PER_BLOCK);
      } else {
        LatestPush(if b < BlockCount(n) then BlockLog(log, b) else [], v);
      }
    }
  }

  lemma LatestPush(log: Log, v: Vote)
    ensures LatestVotes(log + [v]) == Cast(LatestVotes(log), v.voterID, v.ciphervote)
  {
    assert (log + [v])[..|log|] == log;
  }

  lemma LatestOfNone()
    ensures LatestVotes([]) == NO_VOTES
  {
  }

  /** The block a cast goes to is the one its position in the log calls for. */
  lemma TargetOfLog(sha256: string -> string, formID: Key, x: Index, blocks: BlockStore, log: Log)
    requires Represents(sha256, formID, x, blocks, log) && |log| < COUNT_LIMIT
    ensures var last := |log| / BALLOTS_PER_BLOCK;
            Target(sha256, formID, x, blocks)
              == Some((BlockId(sha256, formID, last * BALLOTS_PER_BLOCK),
                       LatestVotes(if last < BlockCount(|log|) then BlockLog(log, last) else [])))
  {
    hide BlockId, LatestVotes, CastAll, BlockLog;
    BlockArithmetic(|log|);
    LatestOfNone();
    var last := |log| / BALLOTS_PER_BLOCK;
    if |log| % BALLOTS_PER_BLOCK == 0 {
      assert last * BALLOTS_PER_BLOCK == |log| && last == BlockCount(|log|);
    } else {
      assert last == BlockCount(|log|) - 1;
    }
  }

  /** The 2^32-nd cast wraps the counter: the next block takes the identifier of the first one. */
  lemma WrapReusesFirstBlock(sha256: string -> string, formID: Key, x: Index, blocks: BlockStore, log: Log, v: Vote)
    requires Represents(sha256, formID, x, blocks, log) && |log| == 0x1_0000_0000
    ensures Target(sha256, formID, x, blocks) == Some((x.suffragiaIDs[0], NO_VOTES))
    ensures NextBlocks(sha256, formID, x, blocks, v)[x.suffragiaIDs[0]] == LatestVotes([v])
  {
    LatestPush([], v);
    assert [] + [v] == [v];
    assert x.suffragiaIDs[0] == BlockId(sha256, formID, 0 * BALLOTS_PER_BLOCK);
  }

  /** One block for every started hundred of casts; each but the last holds the latest votes of exactly its own
      100 casts. */
  lemma HundredEach(sha256: string -> string, formID: Key, x: Index, blocks: BlockStore, log: Log, b: nat)
    requires Represents(sha256, formID, x, blocks, log) && b < |x.suffragiaIDs|
    ensures 100 * (|x.suffragiaIDs| - 1) < |log| <= 100 * |x.suffragiaIDs|
    ensures x.suffragiaIDs[b] in blocks
    ensures blocks[x.suffragiaIDs[b]]
         == LatestVotes(log[100 * b..if 100 * (b + 1) <= |log| then 100 * (b + 1) else |log|])
  {
    hide LatestVotes, BlockId;
  }

  /** The first four bytes of a block identifier are the count at which it was opened, lowest byte first; the
      rest are 28 bytes of the form's hash. */
  lemma BlockIdBytes(sha256: string -> string, formID: Key, count: nat)
    requires count < 0x1_0000_0000 && |sha256(formID)| == 32
    ensures var id := BlockId(sha256, formID, count);
            && |id| == 32 && id[4..] == sha256(formID)[..28]
            && count == id[0] as int + 0x100 * id[1] as int + 0x1_0000 * id[2] as int + 0x100_0000 * id[3] as int
  {
    Bytes4(count);
  }
}
