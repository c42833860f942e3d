/** Ballots cast so far: one list of voters with their latest ballot, and its storage in blocks of 100. */
module Suffragia {
  import opened Wrappers
  import opened Sequences
  import opened ElGamal

  type Ciphervote = seq<Pair>

  /** Two parallel lists: the voter identifiers in the order of their first cast, and their ballots. */
  datatype Votes = Votes(voterIDs: seq<string>, ciphervotes: seq<Ciphervote>)

  const NO_VOTES := Votes([], [])

  predicate Paired(s: Votes) { |s.voterIDs| == |s.ciphervotes| }

  function IndexOfVoter(ids: seq<string>, voterID: string): (i: nat)
    ensures i <= |ids|
    ensures i < |ids| ==> ids[i] == voterID
    ensures i == |ids| <==> voterID !in ids
    ensures forall j :: 0 <= j < i ==> ids[j] != voterID
  {
    if ids == [] || ids[0] == voterID then 0 else 1 + IndexOfVoter(ids[1..], voterID)
  }

  /** A repeated cast overwrites in place, a first one is appended. */
  function Cast(s: Votes, voterID: string, ciphervote: Ciphervote): (r: Votes)
    requires Paired(s)
    ensures Paired(r)
  {
    var i := IndexOfVoter(s.voterIDs, voterID);
    if i < |s.voterIDs| then s.(ciphervotes := s.ciphervotes[i := ciphervote])
    else Votes(s.voterIDs + [voterID], s.ciphervotes + [ciphervote])
  }

  method CastVote(s: Votes, voterID: string, ciphervote: Ciphervote) returns (r: Votes)
    requires Paired(s)
    ensures r == Cast(s, voterID, ciphervote)
  {
    for i := 0 to |s.voterIDs|
      invariant forall j :: 0 <= j < i ==> s.voterIDs[j] != voterID
    {
      if s.voterIDs[i] == voterID {
        return Votes(s.voterIDs, s.ciphervotes[i := ciphervote]);
      }
    }
    return Votes(s.voterIDs + [voterID], s.ciphervotes + [ciphervote]);
  }

  // ----- The cast log

  /** One accepted cast. */
  datatype Vote = Vote(voterID: string, ciphervote: Ciphervote)

  type Log = seq<Vote>

  /** The votes after a sequence of casts. */
  function CastAll(s: Votes, log: Log): (r: Votes)
    requires Paired(s)
    ensures Paired(r)
  {
    if log == [] then s
    else Cast(CastAll(s, log[..|log| - 1]), log[|log| - 1].voterID, log[|log| - 1].ciphervote)
  }

  function LatestVotes(log: Log): (r: Votes)
    ensures Paired(r)
  {
    CastAll(NO_VOTES, log)
  }

  function LastBallot(log: Log, voterID: string): (r: Option<Ciphervote>) {
    if log == [] then None
    else if log[|log| - 1].voterID == voterID then Some(log[|log| - 1].ciphervote)
    else LastBallot(log[..|log| - 1], voterID)
  }

  /** Last vote wins: every voter of the log is listed once, with the ballot of their last cast. */
  lemma {:induction false} LatestVotesCorrect(log: Log)
    ensures Distinct(LatestVotes(log).voterIDs)
    ensures forall v :: v in LatestVotes(log).voterIDs <==> LastBallot(log, v).Some?
    ensures forall i :: 0 <= i < |LatestVotes(log).voterIDs| ==>
              LastBallot(log, LatestVotes(log).voterIDs[i]) == Some(LatestVotes(log).ciphervotes[i])
  {
    if log != [] {
      LatestVotesCorrect(log[..|log| - 1]);
    }
  }

  lemma {:induction false} CastAllAppend(s: Votes, a: Log, b: Log)
    requires Paired(s)
    ensures CastAll(s, a + b) == CastAll(CastAll(s, a), b)
  {
    if b == [] {
      assert a + b == a;
    } else {
      CastAllAppend(s, a, b[..|b| - 1]);
      assert (a + b)[..|a + b| - 1] == a + b[..|b| - 1];
    }
  }

  // ----- Merging a block into the votes read so far

  /** A block's list, as the casts that the merge replays. */
  function AsLog(s: Votes): (log: Log)
    requires Paired(s)
  {
    seq(|s.voterIDs|, i requires 0 <= i < |s.voterIDs| => Vote(s.voterIDs[i], s.ciphervotes[i]))
  }

  /** Updating a listed voter commutes with a cast of anyone else. */
  lemma CastsCommute(s: Votes, v: Vote, w: Vote)
    requires Paired(s) && v.voterID in s.voterIDs && v.voterID != w.voterID
    ensures Cast(Cast(s, v.voterID, v.ciphervote), w.voterID, w.ciphervote)
         == Cast(Cast(s, w.voterID, w.ciphervote), v.voterID, v.ciphervote)
  {
    var i, j := IndexOfVoter(s.voterIDs, v.voterID), IndexOfVoter(s.voterIDs, w.voterID);
    var appended := s.voterIDs + [w.voterID];
    assert IndexOfVoter(appended, v.voterID) == i by {
      assert appended[i] == v.voterID;
      assert forall k :: 0 <= k < i ==> appended[k] == s.voterIDs[k];
    }
    if j == |s.voterIDs| {
      assert (s.ciphervotes + [w.ciphervote])[i := v.ciphervote] == s.ciphervotes[i := v.ciphervote] + [w.ciphervote];
    } else {
      assert i != j;
    }
  }

  lemma {:induction false} CastAllKeeps(s: Votes, log: Log, voterID: string)
    requires Paired(s)
    ensures voterID in s.voterIDs || (exists i :: 0 <= i < |log| && log[i].voterID == voterID)
      <==> voterID in CastAll(s, log).voterIDs
  {
    if log != [] {
      CastAllKeeps(s, log[..|log| - 1], voterID);
    }
  }

  lemma CastTwice(s: Votes, voterID: string, a: Ciphervote, b: Ciphervote)
    requires Paired(s)
    ensures Cast(Cast(s, voterID, a), voterID, b) == Cast(s, voterID, b)
  {
    var i := IndexOfVoter(s.voterIDs, voterID);
    if i == |s.voterIDs| {
      var ids := s.voterIDs + [voterID];
      assert ids[i] == voterID;
      assert forall k :: 0 <= k < i ==> ids[k] == s.voterIDs[k];
      assert (s.ciphervotes + [a])[i := b] == s.ciphervotes + [b];
    }
  }

  /** Replacing one voter's only ballot in a replayed list is the same as casting it again at the end. */
  lemma {:induction false} ReplaceIsRecast(s: Votes, log: Log, i: nat, v: Vote)
    requires Paired(s) && i < |log| && log[i].voterID == v.voterID
    requires forall j :: 0 <= j < |log| && j != i ==> log[j].voterID != v.voterID
    ensures CastAll(s, log[i := v]) == Cast(CastAll(s, log), v.voterID, v.ciphervote)
  {
    hide Cast;
    var n := |log| - 1;
    var front, last := log[..n], log[n];
    if i == n {
      assert log[i := v][..n] == front;
      CastTwice(CastAll(s, front), v.voterID, last.ciphervote, v.ciphervote);
    } else {
      assert log[i := v][..n] == front[i := v];
      ReplaceIsRecast(s, front, i, v);
      CastAllKeeps(s, front, v.voterID);
      assert front[i].voterID == v.voterID;
      CastsCommute(CastAll(s, front), v, last);
    }
  }

  /** Merging a block replays its casts: the list of a block stands for its whole log. */
  lemma {:induction false} MergeIsReplay(s: Votes, log: Log)
    requires Paired(s)
    ensures CastAll(s, AsLog(LatestVotes(log))) == CastAll(s, log)
  {
    if log == [] {
      assert AsLog(LatestVotes(log)) == [];
    } else {
      var front, v := log[..|log| - 1], log[|log| - 1];
      MergeIsReplay(s, front);
      LatestVotesCorrect(front);
      ReplayOneMore(s, LatestVotes(front), v);
    }
  }

  lemma ReplayOneMore(s: Votes, before: Votes, v: Vote)
    requires Paired(s) && Paired(before) && Distinct(before.voterIDs)
    ensures CastAll(s, AsLog(Cast(before, v.voterID, v.ciphervote)))
              == Cast(CastAll(s, AsLog(before)), v.voterID, v.ciphervote)
  {
    var i, log := IndexOfVoter(before.voterIDs, v.voterID), AsLog(before);
    AsLogOfCast(before, v);
    hide Cast, AsLog;
    if i < |before.voterIDs| {
      ReplaceIsRecast(s, log, i, v);
    } else {
      assert (log + [v])[..|log|] == log;
    }
  }

  lemma AsLogOfCast(s: Votes, v: Vote)
    requires Paired(s) && Distinct(s.voterIDs)
    ensures var i, log := IndexOfVoter(s.voterIDs, v.voterID), AsLog(s);
            && |log| == |s.voterIDs|
            && (i < |log| ==>
                  && log[i].voterID == v.voterID
                  && forall j :: 0 <= j < |log| && j != i ==> log[j].voterID != v.voterID)
            && AsLog(Cast(s, v.voterID, v.ciphervote)) == if i < |log| then log[i := v] else log + [v]
  {
  }
}
