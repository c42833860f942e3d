/** The questions of a form: search, validation and ballot size. Titles, hints and regular expressions
    play no part in these and are not modelled. */
module Configuration {
  import opened Wrappers
  import opened Sequences
  import opened Text

  type ID = ByteString

  /** A select, rank or text question; maxLength matters for texts only. */
  datatype Question = Question(id: ID, maxN: nat, minN: nat, choices: seq<string>, maxLength: nat)

  datatype Subject = Subject(
    id: ID, order: seq<ID>,
    subjects: seq<Subject>, selects: seq<Question>, ranks: seq<Question>, texts: seq<Question>)

  datatype Config = Config(scaffold: seq<Subject>)

  // ----- Looking up a question

  function FindIn(qs: seq<Question>, id: ID): (r: Option<Question>) {
    if qs == [] then None else if qs[0].id == id then Some(qs[0]) else FindIn(qs[1..], id)
  }

  function OrElse(a: Option<Question>, b: Option<Question>): Option<Question> {
    if a.Some? then a else b
  }

  function FindInSubject(s: Subject, id: ID): (r: Option<Question>)
    decreases s, 1
  {
    OrElse(FindInForest(s.subjects, id),
        OrElse(FindIn(s.selects, id), OrElse(FindIn(s.ranks, id), FindIn(s.texts, id))))
  }

  function FindInForest(ss: seq<Subject>, id: ID): (r: Option<Question>)
    decreases ss, 0
  {
    if ss == [] then None else OrElse(FindInSubject(ss[0], id), FindInForest(ss[1..], id))
  }

  function GetQuestion(c: Config, id: ID): (r: Option<Question>) {
    FindInForest(c.scaffold, id)
  }

  /** All questions of a subject, sub-subjects first. */
  function SubjectQuestions(s: Subject): (qs: seq<Question>)
    decreases s, 1
  {
    ForestQuestions(s.subjects) + (s.selects + (s.ranks + s.texts))
  }

  function ForestQuestions(ss: seq<Subject>): (qs: seq<Question>)
    decreases ss, 0
  {
    if ss == [] then [] else SubjectQuestions(ss[0]) + ForestQuestions(ss[1..])
  }

  lemma {:induction false} FindInAppend(a: seq<Question>, b: seq<Question>, id: ID)
    ensures FindIn(a + b, id) == OrElse(FindIn(a, id), FindIn(b, id))
  {
    if a == [] {
      assert a + b == b;
    } else {
      FindInAppend(a[1..], b, id);
      assert (a + b)[1..] == a[1..] + b;
    }
  }

  /** The recursive search is a linear search of the flattened questions. */
  lemma {:induction false} FindFlattensSubject(s: Subject, id: ID)
    ensures FindInSubject(s, id) == FindIn(SubjectQuestions(s), id)
    decreases s, 1
  {
    FindFlattensForest(s.subjects, id);
    FindInAppend(s.ranks, s.texts, id);
    FindInAppend(s.selects, s.ranks + s.texts, id);
    FindInAppend(ForestQuestions(s.subjects), s.selects + (s.ranks + s.texts), id);
  }

  lemma {:induction false} FindFlattensForest(ss: seq<Subject>, id: ID)
    ensures FindInForest(ss, id) == FindIn(ForestQuestions(ss), id)
    decreases ss, 0
  {
    if ss != [] {
      FindFlattensSubject(ss[0], id);
      FindFlattensForest(ss[1..], id);
      FindInAppend(SubjectQuestions(ss[0]), ForestQuestions(ss[1..]), id);
    }
  }

  // ----- Identifiers in the order the validator meets them

  function QuestionIds(qs: seq<Question>): (ids: seq<ID>)
    ensures |ids| == |qs|
  {
    seq(|qs|, i requires 0 <= i < |qs| => qs[i].id)
  }

  function OwnIds(s: Subject): (ids: seq<ID>) {
    [s.id] + (QuestionIds(s.ranks) + (QuestionIds(s.selects) + QuestionIds(s.texts)))
  }

  function SubjectIds(s: Subject): (ids: seq<ID>)
    decreases s, 1
  {
    OwnIds(s) + ForestIds(s.subjects)
  }

  function ForestIds(ss: seq<Subject>): (ids: seq<ID>)
    decreases ss, 0
  {
    if ss == [] then [] else SubjectIds(ss[0]) + ForestIds(ss[1..])
  }

  // ----- Validity, stated for the whole tree

  predicate Coherent(q: Question) {
    q.minN <= q.maxN <= |q.choices|
  }

  predicate AllCoherent(qs: seq<Question>) {
    forall i :: 0 <= i < |qs| ==> Coherent(qs[i])
  }

  /** Every Order entry of every subject names something met by the end of that subject's subtree. */
  ghost predicate SubjectOrdersSeen(s: Subject, before: set<ID>)
    decreases s, 1
  {
    && ForestOrdersSeen(s.subjects, before + Elements(OwnIds(s)))
    && Elements(s.order) <= before + Elements(SubjectIds(s))
  }

  ghost predicate ForestOrdersSeen(ss: seq<Subject>, before: set<ID>)
    decreases ss, 0
  {
    ss != [] ==>
      && SubjectOrdersSeen(ss[0], before)
      && ForestOrdersSeen(ss[1..], before + Elements(SubjectIds(ss[0])))
  }

  /** The declarative meaning of a valid list of subjects, given the identifiers already used. */
  ghost predicate ValidForest(ss: seq<Subject>, before: set<ID>) {
    && Distinct(ForestIds(ss)) && before !! Elements(ForestIds(ss))
    && AllCoherent(ForestQuestions(ss))
    && ForestOrdersSeen(ss, before)
  }

  ghost predicate ValidSubject(s: Subject, before: set<ID>) {
    && Distinct(SubjectIds(s)) && before !! Elements(SubjectIds(s))
    && AllCoherent(SubjectQuestions(s))
    && SubjectOrdersSeen(s, before)
  }

  ghost predicate ValidConfig(c: Config) {
    ValidForest(c.scaffold, {})
  }

  lemma CoherentAppend(a: seq<Question>, b: seq<Question>)
    ensures AllCoherent(a + b) <==> AllCoherent(a) && AllCoherent(b)
  {
    if AllCoherent(a + b) {
      assert forall i :: 0 <= i < |a| ==> a[i] == (a + b)[i];
      assert forall i :: 0 <= i < |b| ==> b[i] == (a + b)[|a| + i];
    }
  }

  lemma ValidForestUnfold(ss: seq<Subject>, before: set<ID>)
    requires ss != []
    ensures ValidForest(ss, before) <==>
              ValidSubject(ss[0], before) && ValidForest(ss[1..], before + Elements(SubjectIds(ss[0])))
  {
    var first, rest := SubjectIds(ss[0]), ForestIds(ss[1..]);
    DistinctAppend(first, rest);
    ElementsAppend(first, rest);
    CoherentAppend(SubjectQuestions(ss[0]), ForestQuestions(ss[1..]));
  }

  lemma ValidSubjectUnfold(s: Subject, before: set<ID>)
    ensures ValidSubject(s, before) <==>
              && Distinct(OwnIds(s)) && before !! Elements(OwnIds(s))
              && AllCoherent(s.ranks) && AllCoherent(s.selects) && AllCoherent(s.texts)
              && ValidForest(s.subjects, before + Elements(OwnIds(s)))
              && Elements(s.order) <= before + Elements(OwnIds(s)) + Elements(ForestIds(s.subjects))
  {
    DistinctAppend(OwnIds(s), ForestIds(s.subjects));
    ElementsAppend(OwnIds(s), ForestIds(s.subjects));
    CoherentAppend(s.ranks, s.texts);
    CoherentAppend(s.selects, s.ranks + s.texts);
    CoherentAppend(ForestQuestions(s.subjects), s.selects + (s.ranks + s.texts));
  }

  /** Adds the identifiers of a list of questions to the shared set, stopping at an incoherent one. */
  method CollectIds(qs: seq<Question>, uniqueIDs: set<ID>) returns (ok: bool, ids: set<ID>)
    ensures ok <==> AllCoherent(qs)
    ensures ok ==> ids == uniqueIDs + Elements(QuestionIds(qs))
  {
    ids := uniqueIDs;
    for i := 0 to |qs|
      invariant ids == uniqueIDs + Elements(QuestionIds(qs[..i]))
      invariant AllCoherent(qs[..i])
    {
      assert QuestionIds(qs[..i + 1]) == QuestionIds(qs[..i]) + [qs[i].id];
      ids := ids + {qs[i].id};
      if !Coherent(qs[i]) { return false, ids; }
    }
    assert qs[..|qs|] == qs;
    ok := true;
  }

  /** The identifiers of one subject and its questions, with the map-size test for duplicates. */
  method CollectOwn(s: Subject, uniqueIDs: set<ID>) returns (ok: bool, ids: set<ID>)
    ensures ok <==> && Distinct(OwnIds(s)) && uniqueIDs !! Elements(OwnIds(s))
                    && AllCoherent(s.ranks) && AllCoherent(s.selects) && AllCoherent(s.texts)
    ensures ok ==> ids == uniqueIDs + Elements(OwnIds(s))
  {
    ids := uniqueIDs + {s.id};
    ok, ids := CollectIds(s.ranks, ids);
    if !ok { return; }
    ok, ids := CollectIds(s.selects, ids);
    if !ok { return; }
    ok, ids := CollectIds(s.texts, ids);
    if !ok { return; }
    OwnElements(s);
    assert ids == uniqueIDs + Elements(OwnIds(s));
    GrowthIsExact(uniqueIDs, OwnIds(s));
    ok := |uniqueIDs| + |s.ranks| + |s.texts| + |s.selects| + 1 <= |ids|;
  }

  /** The recursive check over the shared set, exact for the declarative meaning. */
  method IsValidSubject(s: Subject, uniqueIDs: set<ID>) returns (ok: bool, ids: set<ID>)
    ensures ok <==> ValidSubject(s, uniqueIDs)
    ensures ok ==> ids == uniqueIDs + Elements(SubjectIds(s))
    decreases s
  {
    ValidSubjectUnfold(s, uniqueIDs);
    ok, ids := CollectOwn(s, uniqueIDs);
    if !ok { return; }

    ghost var own := ids;
    for i := 0 to |s.subjects|
      invariant ValidForest(s.subjects, own) <==> ValidForest(s.subjects[i..], ids)
      invariant ids + Elements(ForestIds(s.subjects[i..])) == own + Elements(ForestIds(s.subjects))
    {
      var rest := s.subjects[i..];
      ValidForestUnfold(rest, ids);
      assert rest[0] == s.subjects[i] && rest[1..] == s.subjects[i + 1..];
      ElementsAppend(SubjectIds(rest[0]), ForestIds(rest[1..]));
      ok, ids := IsValidSubject(s.subjects[i], ids);
      if !ok { return; }
    }
    assert s.subjects[|s.subjects|..] == [];
    ElementsAppend(OwnIds(s), ForestIds(s.subjects));
    for i := 0 to |s.order|
      invariant forall j :: 0 <= j < i ==> s.order[j] in ids
    {
      if s.order[i] !in ids { return false, ids; }
    }
    ok := true;
  }

  lemma OwnElements(s: Subject)
    ensures Elements(OwnIds(s))
         == {s.id} + Elements(QuestionIds(s.ranks)) + Elements(QuestionIds(s.selects)) + Elements(QuestionIds(s.texts))
  {
    ElementsAppend(QuestionIds(s.selects), QuestionIds(s.texts));
    ElementsAppend(QuestionIds(s.ranks), QuestionIds(s.selects) + QuestionIds(s.texts));
    ElementsAppend([s.id], QuestionIds(s.ranks) + (QuestionIds(s.selects) + QuestionIds(s.texts)));
  }

  method IsValid(c: Config) returns (ok: bool)
    ensures ok <==> ValidConfig(c)
  {
    var ids: set<ID> := {};
    for i := 0 to |c.scaffold|
      invariant ValidConfig(c) <==> ValidForest(c.scaffold[i..], ids)
    {
      ValidForestUnfold(c.scaffold[i..], ids);
      assert c.scaffold[i..][1..] == c.scaffold[i + 1..];
      ok, ids := IsValidSubject(c.scaffold[i], ids);
      if !ok { return; }
    }
    assert c.scaffold[|c.scaffold|..] == [];
    ok := true;
  }

  // ----- Lookup in a valid configuration

  function TreeIds(s: Subject): (ids: seq<ID>)
    decreases s, 1
  {
    [s.id] + ForestTreeIds(s.subjects)
  }

  function ForestTreeIds(ss: seq<Subject>): (ids: seq<ID>)
    decreases ss, 0
  {
    if ss == [] then [] else TreeIds(ss[0]) + ForestTreeIds(ss[1..])
  }

  lemma QuestionIdsAppend(a: seq<Question>, b: seq<Question>)
    ensures QuestionIds(a + b) == QuestionIds(a) + QuestionIds(b)
  {
  }

  /** The identifiers are those of the subjects and those of the questions, with multiplicity. */
  lemma {:induction false} IdsSplitSubject(s: Subject)
    ensures multiset(SubjectIds(s)) == multiset(TreeIds(s)) + multiset(QuestionIds(SubjectQuestions(s)))
    decreases s, 1
  {
    IdsSplitForest(s.subjects);
    QuestionIdsAppend(s.ranks, s.texts);
    QuestionIdsAppend(s.selects, s.ranks + s.texts);
    QuestionIdsAppend(ForestQuestions(s.subjects), s.selects + (s.ranks + s.texts));
  }

  lemma {:induction false} IdsSplitForest(ss: seq<Subject>)
    ensures multiset(ForestIds(ss)) == multiset(ForestTreeIds(ss)) + multiset(QuestionIds(ForestQuestions(ss)))
    decreases ss, 0
  {
    if ss != [] {
      IdsSplitSubject(ss[0]);
      IdsSplitForest(ss[1..]);
      QuestionIdsAppend(SubjectQuestions(ss[0]), ForestQuestions(ss[1..]));
    }
  }

  lemma {:induction false} FindDistinct(qs: seq<Question>, q: Question)
    requires Distinct(QuestionIds(qs)) && q in qs
    ensures FindIn(qs, q.id) == Some(q)
  {
    if qs[0] != q {
      var i :| 0 < i < |qs| && qs[i] == q;
      assert QuestionIds(qs)[0] != QuestionIds(qs)[i];
      DistinctHead(QuestionIds(qs));
      assert QuestionIds(qs)[1..] == QuestionIds(qs[1..]);
      FindDistinct(qs[1..], q);
    }
  }

  /** In a valid configuration every question is the one its identifier finds, whatever the search
      order, and nothing else is found. */
  lemma GetQuestionUnique(c: Config, q: Question)
    requires Distinct(ForestIds(c.scaffold))
    ensures q in ForestQuestions(c.scaffold) <==> GetQuestion(c, q.id) == Some(q)
  {
    var qs := ForestQuestions(c.scaffold);
    FindFlattensForest(c.scaffold, q.id);
    IdsSplitForest(c.scaffold);
    DistinctMultiplicity(ForestIds(c.scaffold));
    forall x
      ensures multiset(QuestionIds(qs))[x] <= 1
    {
      assert multiset(ForestIds(c.scaffold))[x] <= 1;
    }
    DistinctMultiplicity(QuestionIds(qs));
    if q in qs {
      FindDistinct(qs, q);
    } else {
      FoundIsMember(qs, q.id);
    }
  }

  lemma {:induction false} FoundIsMember(qs: seq<Question>, id: ID)
    ensures FindIn(qs, id).Some? ==> FindIn(qs, id).value in qs && FindIn(qs, id).value.id == id
  {
    if qs != [] {
      FoundIsMember(qs[1..], id);
    }
  }

  // ----- What validity means, written out

  /** A configuration is valid exactly when no identifier occurs twice in the whole tree, every question asks
      for at least MinN and at most MaxN of at least MaxN choices, and every Order entry has been met. */
  lemma ValidExactly(c: Config)
    ensures ValidConfig(c) <==>
              && Distinct(ForestIds(c.scaffold))
              && (forall q :: q in ForestQuestions(c.scaffold) ==> q.minN <= q.maxN && q.maxN <= |q.choices|)
              && ForestOrdersSeen(c.scaffold, {})
  {
    hide Distinct, ForestOrdersSeen;
    var qs := ForestQuestions(c.scaffold);
    if AllCoherent(qs) {
      forall q | q in qs
        ensures q.minN <= q.maxN && q.maxN <= |q.choices|
      {
        var i :| 0 <= i < |qs| && qs[i] == q;
        assert Coherent(qs[i]);
      }
    }
    if forall q :: q in qs ==> q.minN <= q.maxN && q.maxN <= |q.choices| {
      forall i | 0 <= i < |qs|
        ensures Coherent(qs[i])
      {
        assert qs[i] in qs;
      }
    }
  }

  /** All subjects of the tree. */
  function SubjectsIn(s: Subject): (all: seq<Subject>)
    decreases s, 1
  {
    [s] + AllSubjects(s.subjects)
  }

  function AllSubjects(ss: seq<Subject>): (all: seq<Subject>)
    decreases ss, 0
  {
    if ss == [] then [] else SubjectsIn(ss[0]) + AllSubjects(ss[1..])
  }

  lemma {:induction false} OrdersKnownSubject(s: Subject, before: set<ID>, t: Subject, id: ID)
    requires SubjectOrdersSeen(s, before) && t in SubjectsIn(s) && id in t.order
    ensures id in before || id in SubjectIds(s)
    decreases s, 1
  {
    if t == s {
      assert id in Elements(s.order);
    } else {
      OrdersKnownForest(s.subjects, before + Elements(OwnIds(s)), t, id);
    }
  }

  lemma {:induction false} OrdersKnownForest(ss: seq<Subject>, before: set<ID>, t: Subject, id: ID)
    requires ForestOrdersSeen(ss, before) && t in AllSubjects(ss) && id in t.order
    ensures id in before || id in ForestIds(ss)
    decreases ss, 0
  {
    if t in SubjectsIn(ss[0]) {
      OrdersKnownSubject(ss[0], before, t, id);
    } else {
      OrdersKnownForest(ss[1..], before + Elements(SubjectIds(ss[0])), t, id);
    }
  }

  /** In a valid configuration every Order entry of every subject is an identifier of the tree. */
  lemma OrdersKnown(c: Config, t: Subject, id: ID)
    requires ValidConfig(c) && t in AllSubjects(c.scaffold) && id in t.order
    ensures id in ForestIds(c.scaffold)
  {
    OrdersKnownForest(c.scaffold, {}, t, id);
  }

  // ----- Ballot size

  function HeaderSize(kind: string, id: ID): (n: nat) {
    |kind| + |Base64Encode(id)| + 2
  }

  function RankSize(q: Question): (n: nat) { HeaderSize("rank", q.id) + |q.choices| * 4 }

  function SelectSize(q: Question): (n: nat) { HeaderSize("select", q.id) + |q.choices| * 2 }

  function TextSize(q: Question): (n: nat) {
    HeaderSize("text", q.id) + (4 * q.maxLength + 1) * q.maxN
        + (if |q.choices| > q.maxN then |q.choices| - q.maxN else 0)
  }

  function SumOf(sizes: seq<nat>): (n: nat) {
    if sizes == [] then 0 else SumOf(sizes[..|sizes| - 1]) + sizes[|sizes| - 1]
  }

  function Sizes(qs: seq<Question>, size: Question -> nat): (r: seq<nat>) {
    seq(|qs|, i requires 0 <= i < |qs| => size(qs[i]))
  }

  function SubjectSize(s: Subject): (n: nat)
    decreases s, 1
  {
    var n := ForestSize(s.subjects) + SumOf(Sizes(s.ranks, RankSize))
             + SumOf(Sizes(s.selects, SelectSize)) + SumOf(Sizes(s.texts, TextSize));
    if n != 0 then n + 1 else n
  }

  function ForestSize(ss: seq<Subject>): (n: nat)
    decreases ss, 0
  {
    if ss == [] then 0 else ForestSize(ss[..|ss| - 1]) + SubjectSize(ss[|ss| - 1])
  }

  lemma SumOfStep(qs: seq<Question>, size: Question -> nat, i: nat)
    requires i < |qs|
    ensures SumOf(Sizes(qs[..i + 1], size)) == SumOf(Sizes(qs[..i], size)) + size(qs[i])
  {
    assert Sizes(qs[..i + 1], size)[..i] == Sizes(qs[..i], size);
  }

  /** The size computed by the contract, one counter through four loops. */
  method MaxEncodedSize(s: Subject) returns (size: nat)
    ensures size == SubjectSize(s)
    decreases s
  {
    hide Base64Encode;
    size := 0;
    for i := 0 to |s.subjects|
      invariant size == ForestSize(s.subjects[..i])
    {
      assert s.subjects[..i + 1][..i] == s.subjects[..i];
      var inner := MaxEncodedSize(s.subjects[i]);
      size := size + inner;
    }
    ghost var before := size;
    for i := 0 to |s.ranks|
      invariant size == before + SumOf(Sizes(s.ranks[..i], RankSize))
    {
      SumOfStep(s.ranks, RankSize, i);
      var q := s.ranks[i];
      size := size + |"rank"|;
      size := size + |Base64Encode(q.id)|;
      size := size + 2;
      size := size + |q.choices| * 4;
    }
    before := size;
    for i := 0 to |s.selects|
      invariant size == before + SumOf(Sizes(s.selects[..i], SelectSize))
    {
      SumOfStep(s.selects, SelectSize, i);
      var q := s.selects[i];
      size := size + |"select"|;
      size := size + |Base64Encode(q.id)|;
      size := size + 2;
      size := size + |q.choices| * 2;
    }
    before := size;
    for i := 0 to |s.texts|
      invariant size == before + SumOf(Sizes(s.texts[..i], TextSize))
    {
      SumOfStep(s.texts, TextSize, i);
      var q := s.texts[i];
      size := size + |"text"|;
      size := size + |Base64Encode(q.id)|;
      size := size + 2;
      var maxTextPerAnswer := 4 * q.maxLength + 1;
      size := size + maxTextPerAnswer * q.maxN + (if |q.choices| > q.maxN then |q.choices| - q.maxN else 0);
    }
    assert s.subjects[..|s.subjects|] == s.subjects && s.ranks[..|s.ranks|] == s.ranks;
    assert s.selects[..|s.selects|] == s.selects && s.texts[..|s.texts|] == s.texts;
    if size != 0 {
      size := size + 1;
    }
  }

  function BallotSize(c: Config): (n: nat) { ForestSize(c.scaffold) }

  method MaxBallotSize(c: Config) returns (size: nat)
    ensures size == BallotSize(c)
  {
    size := 0;
    for i := 0 to |c.scaffold|
      invariant size == ForestSize(c.scaffold[..i])
    {
      assert c.scaffold[..i + 1][..i] == c.scaffold[..i];
      var inner := MaxEncodedSize(c.scaffold[i]);
      size := size + inner;
    }
    assert c.scaffold[..|c.scaffold|] == c.scaffold;
  }

  const CHUNK_SIZE: nat := 29

  /** The number of 29-byte chunks that hold a ballot of the given size. */
  function ChunksPerBallot(ballotSize: nat): (n: nat)
    ensures 29 * n >= ballotSize && (n > 0 ==> 29 * (n - 1) < ballotSize)
  {
    if ballotSize % CHUNK_SIZE == 0 then ballotSize / CHUNK_SIZE else ballotSize / CHUNK_SIZE + 1
  }
}
