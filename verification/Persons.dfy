/** Voter identifiers and the people they name: ballots are kept by the spelling of an identifier, and
    several spellings name one SCIPER. */
module Persons {
  import opened Wrappers
  import opened Sequences
  import opened Text
  import opened Suffragia
  import opened Blocks
  import opened Ledger
  import opened Runs
  import opened Tally
  import opened Interpolation

  // ----- Spellings of a number

  lemma {:induction false} DecimalUnique(s: string)
    requires AllDigits(s) && s != [] && (|s| > 1 ==> s[0] != '0')
    ensures Decimal(DecimalValue(s)) == s
    ensures |s| > 1 ==> DecimalValue(s) >= 10
  {
    var front, last := s[..|s| - 1], s[|s| - 1];
    assert DecimalValue(s) == DecimalValue(front) * 10 + DigitValue(last);
    if |s| > 1 {
      DecimalUnique(front);
      if |front| == 1 {
        assert front[..0] == [];
        assert DecimalValue(front) == DigitValue(front[0]);
        assert DigitValue(front[0]) >= 1;
      }
      assert front + [last] == s;
    } else {
      assert front == [] && s == [last];
    }
  }

  lemma {:induction false} LeadingZero(s: string)
    requires AllDigits(s)
    ensures DecimalValue(['0'] + s) == DecimalValue(s)
  {
    var z := ['0'] + s;
    if s == [] {
      assert z[..0] == [];
    } else {
      LeadingZero(s[..|s| - 1]);
      assert z[..|z| - 1] == ['0'] + s[..|s| - 1];
    }
  }

  function DropZeros(s: string): (t: string) {
    if s != [] && s[0] == '0' then DropZeros(s[1..]) else s
  }

  /** An identifier without one leading plus sign, and then without leading zeros. */
  function Canonical(userID: string): (s: string) {
    DropZeros(if userID != [] && userID[0] == '+' then userID[1..] else userID)
  }

  lemma {:induction false} DropZerosValue(s: string)
    ensures AllDigits(s) <==> AllDigits(DropZeros(s))
    ensures AllDigits(s) ==> DecimalValue(DropZeros(s)) == DecimalValue(s)
    ensures DropZeros(s) != [] ==> DropZeros(s)[0] != '0'
  {
    if s != [] && s[0] == '0' {
      DropZerosValue(s[1..]);
      assert ['0'] + s[1..] == s;
      if AllDigits(s[1..]) { LeadingZero(s[1..]); }
    }
  }

  /** The identifier spells the six-digit number n. */
  predicate Names(userID: string, n: int) {
    100000 <= n <= 999999 && Canonical(userID) == Decimal(n)
  }

  /** An identifier names a SCIPER exactly when its canonical spelling is the decimal number. */
  lemma SciperSpelling(userID: string, n: int)
    ensures SciperToInt(userID) == Some(n) <==> Names(userID, n)
  {
    var t := if userID != [] && userID[0] == '+' then userID[1..] else userID;
    DropZerosValue(t);
    if Names(userID, n) {
      DecimalRoundTrip(n);
    }
    if SciperToInt(userID) == Some(n) {
      assert AllDigits(t) && DecimalValue(t) == n;
      assert DropZeros(t) != [];
      DecimalUnique(DropZeros(t));
    }
  }

  /** Two accepted identifiers name the same SCIPER exactly when their canonical spellings agree. */
  lemma SameSciper(a: string, b: string)
    requires SciperToInt(a).Some? && SciperToInt(b).Some?
    ensures SciperToInt(a) == SciperToInt(b) <==> Canonical(a) == Canonical(b)
  {
    var m, n := SciperToInt(a).value, SciperToInt(b).value;
    SciperSpelling(a, m);
    SciperSpelling(b, n);
    SciperSpelling(a, n);
  }

  /** A user identifier of six characters that denotes a SCIPER is its decimal number. */
  lemma SixCharacters(userID: string)
    requires SciperToInt(userID).Some? && |userID| == 6
    ensures userID == Decimal(SciperToInt(userID).value)
  {
    var n := SciperToInt(userID).value;
    SciperSpelling(userID, n);
    SixDigits(n);
    ShorterCanonical(userID);
  }

  lemma SixDigits(n: nat)
    requires InSciperRange(n)
    ensures |Decimal(n)| == 6
  {
    assert |Decimal(n / 100000)| == 1;
    assert |Decimal(n / 10000)| == 2;
    assert |Decimal(n / 1000)| == 3;
    assert |Decimal(n / 100)| == 4;
    assert |Decimal(n / 10)| == 5;
  }

  lemma ShorterCanonical(userID: string)
    ensures |Canonical(userID)| <= |userID|
    ensures |Canonical(userID)| == |userID| ==> Canonical(userID) == userID
  {
    DropZerosShorter(if userID != [] && userID[0] == '+' then userID[1..] else userID);
  }

  lemma {:induction false} DropZerosShorter(s: string)
    ensures |DropZeros(s)| <= |s|
    ensures |DropZeros(s)| == |s| ==> DropZeros(s) == s
  {
    if s != [] && s[0] == '0' { DropZerosShorter(s[1..]); }
  }

  /** Ballots are kept by the spelling of the voter identifier, so one registered voter can hold several:
      a sign or a leading zero names the same SCIPER. */
  lemma SpellingsCoincide(userID: string)
    requires SciperToInt(userID).Some? && |userID| == 6
    ensures SciperToInt("+" + userID) == SciperToInt(userID) == SciperToInt("0" + userID)
    ensures "+" + userID != userID && "0" + userID != userID
  {
    SixCharacters(userID);
    LeadingZero(userID);
    assert ("+" + userID)[1..] == userID;
    assert |"+" + userID| == 7 && |"0" + userID| == 7;
  }

  /** Voters who all use six-character identifiers have one ballot each: distinct identifiers are then
      distinct SCIPERs. */
  lemma SixCharactersInjective(voters: seq<string>)
    requires Distinct(voters)
    requires forall i :: 0 <= i < |voters| ==> |voters[i]| == 6 && SciperToInt(voters[i]).Some?
    ensures forall i, j :: 0 <= i < j < |voters| ==> SciperToInt(voters[i]) != SciperToInt(voters[j])
  {
    forall i | 0 <= i < |voters|
      ensures voters[i] == Decimal(SciperToInt(voters[i]).value)
    {
      SixCharacters(voters[i]);
    }
  }

  // ----- One ballot for each person

  function Canonicals(ids: seq<string>): (r: seq<string>)
    ensures |r| == |ids|
  {
    seq(|ids|, i requires 0 <= i < |ids| => Canonical(ids[i]))
  }

  ghost predicate AllNamed(ids: seq<string>) {
    forall i :: 0 <= i < |ids| ==> SciperToInt(ids[i]).Some?
  }

  function Scipers(ids: seq<string>): (r: seq<int>)
    requires AllNamed(ids)
    ensures |r| == |ids|
  {
    seq(|ids|, i requires 0 <= i < |ids| => SciperToInt(ids[i]).value)
  }

  lemma DistinctPersons(ids: seq<string>)
    requires AllNamed(ids)
    ensures Distinct(Scipers(ids)) <==> Distinct(Canonicals(ids))
  {
    forall i, j | 0 <= i < |ids| && 0 <= j < |ids|
      ensures Scipers(ids)[i] == Scipers(ids)[j] <==> Canonicals(ids)[i] == Canonicals(ids)[j]
    {
      SameSciper(ids[i], ids[j]);
    }
  }

  ghost predicate Named(log: Log) {
    forall i :: 0 <= i < |log| ==> SciperToInt(log[i].voterID).Some?
  }

  lemma CastIsNamed(env: Env, st: Store, tx: Tx)
    requires tx.CastVote? && Apply(env, st, tx).ok
    ensures SciperToInt(tx.voterID).Some?
  {
  }

  /** Every accepted cast of a run names a SCIPER. */
  lemma {:induction false} LogNamed(env: Env, run: Run, form: Key)
    ensures Named(CastLog(env, run, form))
  {
    hide Apply, After;
    if run != [] {
      LogNamed(env, Front(run), form);
      if Last(run).CastVote? && Apply(env, After(env, Front(run)), Last(run)).ok {
        CastIsNamed(env, After(env, Front(run)), Last(run));
      }
    }
  }

  lemma {:induction false} LastBallotNamed(log: Log, voter: string)
    requires Named(log) && LastBallot(log, voter).Some?
    ensures SciperToInt(voter).Some?
  {
    if log[|log| - 1].voterID != voter {
      LastBallotNamed(log[..|log| - 1], voter);
    }
  }

  lemma VotersNamed(env: Env, run: Run, form: Key, voters: seq<string>)
    requires Voters(CastLog(env, run, form), voters)
    ensures AllNamed(voters)
  {
    LogNamed(env, run, form);
    hide CastLog;
    forall i | 0 <= i < |voters|
      ensures SciperToInt(voters[i]).Some?
    {
      assert voters[i] in voters;
      LastBallotNamed(CastLog(env, run, form), voters[i]);
    }
  }

  /** In any run, the identifiers with an accepted cast name different people exactly when their canonical
      spellings differ. */
  lemma RunPersons(env: Env, run: Run, form: Key, voters: seq<string>)
    requires Voters(CastLog(env, run, form), voters)
    ensures AllNamed(voters)
    ensures Distinct(Scipers(voters)) <==> Distinct(Canonicals(voters))
  {
    hide CastLog;
    VotersNamed(env, run, form, voters);
    DistinctPersons(voters);
  }

  /** The people who voted. */
  ghost function People(voters: seq<string>): (people: set<int>)
    requires AllNamed(voters)
  {
    Elements(Scipers(voters))
  }

  /** A published tally counts each person once exactly when the voters' canonical spellings differ:
      otherwise there are more ballots than people. */
  lemma OneBallotPerPerson(env: Env, run: Run, form: Key, key: seq<int>, voters: seq<string>)
    requires Published(env, run, form, key) && Voters(CastLog(env, run, form), voters)
    ensures AllNamed(voters)
    ensures |After(env, run).forms[form].decrypted| >= |People(voters)|
    ensures |After(env, run).forms[form].decrypted| == |People(voters)| <==> Distinct(Canonicals(voters))
  {
    hide CastLog, After, VoterBallot;
    RunPersons(env, run, form, voters);
    TallyConservation(env, run, form, key, voters);
    var f := After(env, run).forms[form];
    var ballots := VoterBallots(env, f, Eval(key, 0), CastLog(env, run, form), voters);
    assert |f.decrypted| == |multiset(f.decrypted)| == |multiset(ballots)| == |voters|;
    GrowthIsExact({}, Scipers(voters));
    assert {} + Elements(Scipers(voters)) == People(voters);
  }
}
