/** Following a transaction on a growing chain: incremental polling against a full scan. */
module Polling {
  import opened Wrappers

  datatype Result = Result(txID: string, accepted: bool)

  /** A block: the results of its transactions, in order. A block's index is its position in the chain. */
  type Block = seq<Result>

  type Chain = seq<Block>

  datatype Status = Unknown | Included | Rejected

  /** What a poll answers: the status, and the block index that goes into the next token. */
  datatype Answer = Answer(status: Status, index: nat)

  /** The first result of the transaction in a block. */
  function InBlock(b: Block, txID: string): (r: Option<bool>) {
    if b == [] then None else if b[0].txID == txID then Some(b[0].accepted) else InBlock(b[1..], txID)
  }

  lemma {:induction false} InBlockNone(b: Block, txID: string)
    ensures InBlock(b, txID).None? <==> forall i :: 0 <= i < |b| ==> b[i].txID != txID
  {
    if b != [] {
      InBlockNone(b[1..], txID);
      if InBlock(b, txID).None? {
        assert forall i :: 1 <= i < |b| ==> b[i] == b[1..][i - 1];
      } else if b[0].txID != txID {
        var i :| 0 <= i < |b[1..]| && b[1..][i].txID == txID;
        assert b[i + 1].txID == txID;
      }
    }
  }

  function StatusOf(accepted: bool): Status {
    if accepted then Included else Rejected
  }

  /** The answer is the first block from `from` on that holds the transaction, or the last block there is. */
  ghost predicate IsScan(chain: Chain, txID: string, from: nat, a: Answer) {
    if exists b :: from <= b < |chain| && InBlock(chain[b], txID).Some? then
      exists b :: && from <= b < |chain| && InBlock(chain[b], txID).Some?
                  && (forall c :: from <= c < b ==> InBlock(chain[c], txID).None?)
                  && a == Answer(StatusOf(InBlock(chain[b], txID).value), b)
    else a == Answer(Unknown, Before(if from <= |chain| then |chain| else from))
  }

  /** The index before, on 64 unsigned bits. */
  function Before(idx: nat): (r: nat) {
    if idx == 0 then 0xFFFF_FFFF_FFFF_FFFF else idx - 1
  }

  /** `checkTxnIncluded`: walks from the given block until the transaction is found or the chain ends. */
  method CheckTxnIncluded(chain: Chain, txID: string, lastBlockIdx: nat) returns (a: Answer)
    ensures IsScan(chain, txID, lastBlockIdx, a)
  {
    var idx := lastBlockIdx;
    while idx < |chain|
      invariant lastBlockIdx <= idx && (lastBlockIdx <= |chain| ==> idx <= |chain|)
      invariant lastBlockIdx > |chain| ==> idx == lastBlockIdx
      invariant forall c :: lastBlockIdx <= c < idx && c < |chain| ==> InBlock(chain[c], txID).None?
    {
      var transactions := chain[idx];
      for i := 0 to |transactions|
        invariant InBlock(transactions, txID) == InBlock(transactions[i..], txID)
      {
        var txn := transactions[i];
        assert transactions[i..][1..] == transactions[i + 1..];
        if txn.txID == txID {
          if txn.accepted { return Answer(Included, idx); }
          return Answer(Rejected, idx);
        }
      }
      idx := idx + 1;
    }
    return Answer(Unknown, Before(idx));
  }

  lemma ScanUnique(chain: Chain, txID: string, from: nat, a: Answer, b: Answer)
    requires IsScan(chain, txID, from, a) && IsScan(chain, txID, from, b)
    ensures a == b
  {
  }

  // ----- Polling with a token

  /** The chain only grows from one poll to the next. */
  ghost predicate Growing(chains: seq<Chain>) {
    forall i, j :: 0 <= i <= j < |chains| ==> |chains[i]| > 0 && chains[i] <= chains[j]
  }

  /** The answers of successive polls: the first starts at the submission block, and each next one at the
      index of the last answer, for as long as the status is unknown; a known status is final. */
  ghost predicate Polls(chains: seq<Chain>, txID: string, start: nat, answers: seq<Answer>) {
    && |answers| == |chains|
    && forall i :: 0 <= i < |answers| ==> IsPoll(chains[i], txID, Token(start, answers, i), answers[i])
  }

  /** What the client hands over with its poll. */
  function Token(start: nat, answers: seq<Answer>, i: nat): (t: Answer)
    requires i < |answers|
  {
    if i == 0 then Answer(Unknown, start) else answers[i - 1]
  }

  ghost predicate IsPoll(chain: Chain, txID: string, before: Answer, a: Answer) {
    if before.status == Unknown then IsScan(chain, txID, before.index, a) else a == before
  }

  lemma ScanResumes(old_chain: Chain, chain: Chain, txID: string, start: nat, a: Answer, b: Answer)
    requires old_chain <= chain && start < |old_chain|
    requires IsScan(old_chain, txID, start, a) && a.status == Unknown
    requires IsScan(chain, txID, a.index, b)
    ensures IsScan(chain, txID, start, b)
  {
    forall c | start <= c <= a.index
      ensures InBlock(chain[c], txID).None?
    {
      assert chain[c] == old_chain[c];
    }
  }

  lemma ScanFinal(old_chain: Chain, chain: Chain, txID: string, start: nat, a: Answer)
    requires old_chain <= chain && start < |old_chain|
    requires IsScan(old_chain, txID, start, a) && a.status != Unknown
    ensures IsScan(chain, txID, start, a)
  {
    var b :| && start <= b < |old_chain| && InBlock(old_chain[b], txID).Some?
             && (forall c :: start <= c < b ==> InBlock(old_chain[c], txID).None?)
             && a == Answer(StatusOf(InBlock(old_chain[b], txID).value), b);
    assert chain[b] == old_chain[b];
    forall c | start <= c < b
      ensures InBlock(chain[c], txID).None?
    {
      assert chain[c] == old_chain[c];
    }
  }

  /** Incremental polling refines a full scan: whatever the chain had grown to at each poll, every answer
      is that of a scan of the whole chain from the submission block. */
  lemma {:induction false} PollingIsScan(chains: seq<Chain>, txID: string, start: nat, answers: seq<Answer>, i: nat)
    requires Growing(chains) && Polls(chains, txID, start, answers)
    requires i < |chains| && start < |chains[0]|
    ensures IsScan(chains[i], txID, start, answers[i])
  {
    assert IsPoll(chains[i], txID, Token(start, answers, i), answers[i]);
    if i > 0 {
      PollingIsScan(chains, txID, start, answers, i - 1);
      assert chains[0] <= chains[i - 1] <= chains[i];
      if answers[i - 1].status == Unknown {
        ScanResumes(chains[i - 1], chains[i], txID, start, answers[i - 1], answers[i]);
      } else {
        ScanFinal(chains[i - 1], chains[i], txID, start, answers[i - 1]);
      }
    }
  }

  /** The transaction pool of the proxy, and the block a submission starts from. */
  class Manager {
    var pool: seq<string>

    /** Submits a transaction if it can be made, there is a last block, and the pool takes it. */
    method SubmitTxn(made: Option<string>, chain: Chain, poolAccepts: bool) returns (r: Option<(string, nat)>)
      modifies this
      ensures r.Some? <==> made.Some? && chain != [] && poolAccepts
      ensures r.Some? ==> r.value == (made.value, |chain| - 1) && pool == old(pool) + [made.value]
      ensures r.None? ==> pool == old(pool)
    {
      if made.None? { return None; }
      if chain == [] { return None; }
      var lastBlockIdx := |chain| - 1;
      if !poolAccepts { return None; }
      pool := pool + [made.value];
      return Some((made.value, lastBlockIdx));
    }
  }

  /** A transaction that was not on the chain when it was submitted is found by polling exactly when it is
      anywhere on the chain: no block is skipped. */
  lemma NothingSkipped(chains: seq<Chain>, txID: string, answers: seq<Answer>, i: nat)
    requires Growing(chains) && i < |chains|
    requires Polls(chains, txID, |chains[0]| - 1, answers)
    requires forall b :: 0 <= b < |chains[0]| - 1 ==> InBlock(chains[0][b], txID).None?
    ensures answers[i].status == Unknown <==> forall b :: 0 <= b < |chains[i]| ==> InBlock(chains[i][b], txID).None?
  {
    PollingIsScan(chains, txID, |chains[0]| - 1, answers, i);
    assert chains[0] <= chains[i];
    forall b | 0 <= b < |chains[0]| - 1
      ensures InBlock(chains[i][b], txID).None?
    {
      assert chains[i][b] == chains[0][b];
    }
  }

  /** The accepted flag of the first result of the transaction, from a block on. */
  ghost predicate FirstResult(chain: Chain, txID: string, from: nat, b: nat, k: nat, accepted: bool) {
    && from <= b < |chain| && k < |chain[b]| && chain[b][k] == Result(txID, accepted)
    && (forall c, j :: from <= c < b && 0 <= j < |chain[c]| ==> chain[c][j].txID != txID)
    && forall j :: 0 <= j < k ==> chain[b][j].txID != txID
  }

  lemma {:induction false} InBlockFirst(b: Block, txID: string) returns (k: nat)
    requires InBlock(b, txID).Some?
    ensures k < |b| && b[k] == Result(txID, InBlock(b, txID).value)
    ensures forall j :: 0 <= j < k ==> b[j].txID != txID
  {
    if b[0].txID == txID {
      k := 0;
    } else {
      var m := InBlockFirst(b[1..], txID);
      k := m + 1;
      assert forall j :: 1 <= j < k ==> b[j] == b[1..][j - 1];
    }
  }

  /** Included is answered exactly when the first result of the transaction says accepted, Rejected exactly when
      it says not accepted, and the answer names its block. */
  lemma StatusMeans(chain: Chain, txID: string, from: nat, a: Answer)
    requires IsScan(chain, txID, from, a)
    ensures a.status == Included <==> exists b, k :: FirstResult(chain, txID, from, b, k, true)
    ensures a.status == Rejected <==> exists b, k :: FirstResult(chain, txID, from, b, k, false)
    ensures forall b, k, accepted :: FirstResult(chain, txID, from, b, k, accepted) ==>
              a == Answer(if accepted then Included else Rejected, b)
  {
    forall b, k, accepted | FirstResult(chain, txID, from, b, k, accepted)
      ensures a == Answer(if accepted then Included else Rejected, b)
    {
      ScanFinds(chain, txID, from, a, b, k, accepted);
    }
    if a.status != Unknown {
      var b :| && from <= b < |chain| && InBlock(chain[b], txID).Some?
               && (forall c :: from <= c < b ==> InBlock(chain[c], txID).None?)
               && a == Answer(StatusOf(InBlock(chain[b], txID).value), b);
      var k := InBlockFirst(chain[b], txID);
      forall c | from <= c < b
        ensures forall j :: 0 <= j < |chain[c]| ==> chain[c][j].txID != txID
      {
        InBlockNone(chain[c], txID);
      }
      assert FirstResult(chain, txID, from, b, k, InBlock(chain[b], txID).value);
    }
  }

  lemma ScanFinds(chain: Chain, txID: string, from: nat, a: Answer, b: nat, k: nat, accepted: bool)
    requires IsScan(chain, txID, from, a) && FirstResult(chain, txID, from, b, k, accepted)
    ensures a == Answer(if accepted then Included else Rejected, b)
  {
    InBlockNone(chain[b], txID);
    var m := InBlockFirst(chain[b], txID);
    assert m == k;
    forall c | from <= c < b
      ensures InBlock(chain[c], txID).None?
    {
      InBlockNone(chain[c], txID);
    }
  }

  /** In particular for every poll of a growing chain. */
  lemma PollMeans(chains: seq<Chain>, txID: string, start: nat, answers: seq<Answer>, i: nat)
    requires Growing(chains) && Polls(chains, txID, start, answers)
    requires i < |chains| && start < |chains[0]|
    ensures answers[i].status == Included <==> exists b, k :: FirstResult(chains[i], txID, start, b, k, true)
    ensures answers[i].status == Rejected <==> exists b, k :: FirstResult(chains[i], txID, start, b, k, false)
  {
    PollingIsScan(chains, txID, start, answers, i);
    StatusMeans(chains[i], txID, start, answers[i]);
  }
}
