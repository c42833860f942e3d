/** The ballot size computed by the contract is enough for the ballot printed by the browser. */
module BallotFits {
  import opened Sequences
  import opened Text
  import opened Configuration
  import opened BallotReader
  import opened BallotWriter
  import opened BallotRoundTrip

  // ----- Questions of one kind, in the order in which the browser creates the answers

  function ForestSelects(ss: seq<Subject>): (qs: seq<Question>)
    decreases ss, 0
  {
    if ss == [] then [] else ForestSelects(ss[..|ss| - 1]) + SubjectSelects(ss[|ss| - 1])
  }

  function SubjectSelects(s: Subject): (qs: seq<Question>)
    decreases s, 1
  {
    ForestSelects(s.subjects) + s.selects
  }

  function ForestRanks(ss: seq<Subject>): (qs: seq<Question>)
    decreases ss, 0
  {
    if ss == [] then [] else ForestRanks(ss[..|ss| - 1]) + SubjectRanks(ss[|ss| - 1])
  }

  function SubjectRanks(s: Subject): (qs: seq<Question>)
    decreases s, 1
  {
    ForestRanks(s.subjects) + s.ranks
  }

  function ForestTexts(ss: seq<Subject>): (qs: seq<Question>)
    decreases ss, 0
  {
    if ss == [] then [] else ForestTexts(ss[..|ss| - 1]) + SubjectTexts(ss[|ss| - 1])
  }

  function SubjectTexts(s: Subject): (qs: seq<Question>)
    decreases s, 1
  {
    ForestTexts(s.subjects) + s.texts
  }

  // ----- The size of a tree is at least that of its questions, and one byte more

  lemma {:induction false} SumAppend(a: seq<nat>, b: seq<nat>)
    ensures SumOf(a + b) == SumOf(a) + SumOf(b)
  {
    if b == [] {
      assert a + b == a;
    } else {
      SumAppend(a, b[..|b| - 1]);
      assert (a + b)[..|a + b| - 1] == a + b[..|b| - 1];
    }
  }

  lemma SizesAppend(a: seq<Question>, b: seq<Question>, size: Question -> nat)
    ensures SumOf(Sizes(a + b, size)) == SumOf(Sizes(a, size)) + SumOf(Sizes(b, size))
  {
    SumAppend(Sizes(a, size), Sizes(b, size));
    assert Sizes(a + b, size) == Sizes(a, size) + Sizes(b, size);
  }

  function QuestionsSize(selects: seq<Question>, ranks: seq<Question>, texts: seq<Question>): (n: nat) {
    SumOf(Sizes(selects, SelectSize)) + SumOf(Sizes(ranks, RankSize)) + SumOf(Sizes(texts, TextSize))
  }

  function AtLeast(n: nat): (m: nat) {
    if n > 0 then n + 1 else 0
  }

  lemma {:induction false} SubjectRoom(s: Subject)
    ensures SubjectSize(s) >= AtLeast(QuestionsSize(SubjectSelects(s), SubjectRanks(s), SubjectTexts(s)))
    decreases s, 1
  {
    ForestRoom(s.subjects);
    SizesAppend(ForestSelects(s.subjects), s.selects, SelectSize);
    SizesAppend(ForestRanks(s.subjects), s.ranks, RankSize);
    SizesAppend(ForestTexts(s.subjects), s.texts, TextSize);
  }

  lemma {:induction false} ForestRoom(ss: seq<Subject>)
    ensures ForestSize(ss) >= AtLeast(QuestionsSize(ForestSelects(ss), ForestRanks(ss), ForestTexts(ss)))
    decreases ss, 0
  {
    if ss != [] {
      var front, last := ss[..|ss| - 1], ss[|ss| - 1];
      ForestRoom(front);
      SubjectRoom(last);
      SizesAppend(ForestSelects(front), SubjectSelects(last), SelectSize);
      SizesAppend(ForestRanks(front), SubjectRanks(last), RankSize);
      SizesAppend(ForestTexts(front), SubjectTexts(last), TextSize);
    }
  }

  // ----- The size of each printed line

  function JoinedLength(items: seq<string>): (n: nat) {
    if items == [] then 0 else JoinedLength(items[..|items| - 1]) + |items[|items| - 1]| + 1
  }

  lemma {:induction false} TerminatedLength(items: seq<string>)
    ensures |Terminated(items)| == JoinedLength(items)
  {
    if items != [] {
      TerminatedLength(items[..|items| - 1]);
    }
  }

  /** A line and its newline take the header and the items with their separators. */
  lemma LineLength(e: Entry)
    ensures |LineOf(e)| + 1 <= HeaderSize(Kind(e), Utf8(e.id)) + JoinedLength(Items(e))
  {
    hide Items, Utf8, Base64Encode;
    if Items(e) != [] {
      TerminatedIsJoin(Items(e));
      TerminatedLength(Items(e));
    }
  }

  lemma {:induction false} BoundedItems(items: seq<string>, width: nat)
    requires forall i :: 0 <= i < |items| ==> |items[i]| < width
    ensures JoinedLength(items) <= |items| * width
  {
    if items != [] {
      BoundedItems(items[..|items| - 1], width);
      assert |items| * width == (|items| - 1) * width + width;
    }
  }

  lemma {:induction false} TextItems(texts: seq<JsString>, items: seq<string>, maxLength: nat)
    requires |items| == |texts|
    requires forall i :: 0 <= i < |texts| ==> |texts[i]| <= maxLength && items[i] == Base64Encode(Utf8(texts[i]))
    ensures JoinedLength(items) <= 4 * maxLength * NonEmptyTexts(texts) + |texts|
  {
    hide Utf8, Base64Encode;
    if texts != [] {
      var last := texts[|texts| - 1];
      TextItems(texts[..|texts| - 1], items[..|items| - 1], maxLength);
      TextLength(last, maxLength);
      assert last != [] ==>
          4 * maxLength * NonEmptyTexts(texts) == 4 * maxLength * NonEmptyTexts(texts[..|texts| - 1]) + 4 * maxLength;
    }
  }

  /** Base64 of UTF-8 takes at most four bytes for each UTF-16 unit. */
  lemma TextLength(text: JsString, maxLength: nat)
    requires |text| <= maxLength
    ensures |Base64Encode(Utf8(text))| <= 4 * maxLength
    ensures text == [] ==> Base64Encode(Utf8(text)) == ""
  {
    EncodedShape(Utf8(text));
    var n := |Utf8(text)|;
    hide Utf8, Base64Encode;
    assert (n + 2) / 3 <= |text|;
  }

  /** One printed question fits its share: the answer has one item per choice, positions have at most
      three digits, and at most maxN texts of at most maxLength UTF-16 units are not empty. */
  ghost predicate Fits(e: Entry, q: Question) {
    && Utf8(e.id) == q.id
    && match e
       case SelectEntry(_, selected) => |selected| == |q.choices|
       case RankEntry(_, order) => |order| == |q.choices| && |order| <= 1000 && IsPermutation(order)
       case TextEntry(_, texts) =>
         && |texts| == |q.choices| && NonEmptyTexts(texts) <= q.maxN
         && forall i :: 0 <= i < |texts| ==> |texts[i]| <= q.maxLength
  }

  lemma SelectFits(e: Entry, q: Question)
    requires e.SelectEntry? && Fits(e, q)
    ensures |LineOf(e)| + 1 <= SelectSize(q)
  {
    LineLength(e);
    BoundedItems(Items(e), 2);
  }

  lemma RankFits(e: Entry, q: Question)
    requires e.RankEntry? && Fits(e, q)
    ensures |LineOf(e)| + 1 <= RankSize(q)
  {
    LineLength(e);
    RankItems(e);
    PositionsOfRanking(e.order);
    PermutationFacts(e.order);
    forall i | 0 <= i < |Items(e)|
      ensures |Items(e)[i]| < 4
    {
      IndexOfCorrect(e.order, i);
      DecimalLength(Inverse(e.order)[i]);
    }
    BoundedItems(Items(e), 4);
  }

  lemma TextFits(e: Entry, q: Question)
    requires e.TextEntry? && Fits(e, q)
    ensures |LineOf(e)| + 1 <= TextSize(q)
  {
    hide Utf8, Base64Encode;
    LineLength(e);
    TextItems(e.texts, Items(e), q.maxLength);
    TextArithmetic(q.maxLength, NonEmptyTexts(e.texts), q.maxN);
  }

  lemma TextArithmetic(l: nat, k: nat, maxN: nat)
    requires k <= maxN
    ensures 4 * l * k + maxN <= (4 * l + 1) * maxN
  {
    assert 4 * l * k <= 4 * l * maxN;
    assert (4 * l + 1) * maxN == 4 * l * maxN + maxN;
  }

  // ----- The whole ballot

  ghost predicate AllFit(es: seq<Entry>, qs: seq<Question>) {
    |es| == |qs| && forall i :: 0 <= i < |es| ==> Fits(es[i], qs[i])
  }

  /** The answer maps list exactly the questions of the configuration, each within its limits. */
  ghost predicate Answered(c: Config, a: Answers) {
    && AllFit(SelectEntries(a.selects), ForestSelects(c.scaffold))
    && AllFit(RankEntries(a.ranks), ForestRanks(c.scaffold))
    && AllFit(TextEntries(a.texts), ForestTexts(c.scaffold))
  }

  lemma {:induction false} LinesAppend(es: seq<Entry>, fs: seq<Entry>)
    ensures Lines(es + fs) == Lines(es) + Lines(fs)
  {
    hide LineOf;
    if fs == [] {
      assert es + fs == es;
    } else {
      LinesAppend(es, fs[..|fs| - 1]);
      assert (es + fs)[..|es + fs| - 1] == es + fs[..|fs| - 1];
      assert Lines(es) + Lines(fs[..|fs| - 1]) + LineOf(fs[|fs| - 1]) + ['\n'] == Lines(es) + Lines(fs);
    }
  }

  lemma {:induction false} LinesFit(es: seq<Entry>, qs: seq<Question>, size: Question -> nat)
    requires |es| == |qs|
    requires forall i :: 0 <= i < |es| ==> |LineOf(es[i])| + 1 <= size(qs[i])
    ensures |Lines(es)| <= SumOf(Sizes(qs, size))
  {
    hide LineOf;
    if es != [] {
      var n := |es| - 1;
      LinesFit(es[..n], qs[..n], size);
      assert Sizes(qs, size)[..n] == Sizes(qs[..n], size);
    }
  }

  lemma AnswersFit(c: Config, a: Answers)
    requires Answered(c, a)
    ensures |Lines(Entries(a))|
         <= QuestionsSize(ForestSelects(c.scaffold), ForestRanks(c.scaffold), ForestTexts(c.scaffold))
  {
    var ss, rs, ts := SelectEntries(a.selects), RankEntries(a.ranks), TextEntries(a.texts);
    forall i | 0 <= i < |ss| ensures |LineOf(ss[i])| + 1 <= SelectSize(ForestSelects(c.scaffold)[i]) {
      SelectFits(ss[i], ForestSelects(c.scaffold)[i]);
    }
    forall i | 0 <= i < |rs| ensures |LineOf(rs[i])| + 1 <= RankSize(ForestRanks(c.scaffold)[i]) {
      RankFits(rs[i], ForestRanks(c.scaffold)[i]);
    }
    forall i | 0 <= i < |ts| ensures |LineOf(ts[i])| + 1 <= TextSize(ForestTexts(c.scaffold)[i]) {
      TextFits(ts[i], ForestTexts(c.scaffold)[i]);
    }
    hide Lines, LineOf;
    LinesFit(ss, ForestSelects(c.scaffold), SelectSize);
    LinesFit(rs, ForestRanks(c.scaffold), RankSize);
    LinesFit(ts, ForestTexts(c.scaffold), TextSize);
    LinesAppend(rs, ts);
    LinesAppend(ss, rs + ts);
  }

  ghost predicate HasQuestion(c: Config) {
    ForestSelects(c.scaffold) != [] || ForestRanks(c.scaffold) != [] || ForestTexts(c.scaffold) != []
  }

  lemma PositiveSize(qs: seq<Question>, size: Question -> nat)
    requires forall q :: size(q) > 0
    ensures SumOf(Sizes(qs, size)) > 0 <==> qs != []
  {
  }

  lemma PositiveQuestions(ss: seq<Subject>)
    ensures QuestionsSize(ForestSelects(ss), ForestRanks(ss), ForestTexts(ss)) > 0
      <==> ForestSelects(ss) != [] || ForestRanks(ss) != [] || ForestTexts(ss) != []
  {
    hide ForestSelects, ForestRanks, ForestTexts, Base64Encode;
    PositiveSize(ForestSelects(ss), SelectSize);
    PositiveSize(ForestRanks(ss), RankSize);
    PositiveSize(ForestTexts(ss), TextSize);
  }

  lemma {:induction false} NoQuestionsSubject(s: Subject)
    requires SubjectSelects(s) == SubjectRanks(s) == SubjectTexts(s) == []
    ensures SubjectSize(s) == 0
    decreases s, 1
  {
    NoQuestionsForest(s.subjects);
  }

  lemma {:induction false} NoQuestionsForest(ss: seq<Subject>)
    requires ForestSelects(ss) == ForestRanks(ss) == ForestTexts(ss) == []
    ensures ForestSize(ss) == 0
    decreases ss, 0
  {
    if ss != [] {
      NoQuestionsForest(ss[..|ss| - 1]);
      NoQuestionsSubject(ss[|ss| - 1]);
    }
  }

  /** The printed answers fit the contract's ballot size exactly when there is a question at all; a form
      without questions leaves no room even for the final newline. */
  lemma SizeBound(c: Config, a: Answers)
    requires Answered(c, a)
    ensures |Encoded(a)| <= BallotSize(c) <==> HasQuestion(c)
  {
    hide Lines, Answered, Entries, ForestSize, ForestSelects, ForestRanks, ForestTexts, QuestionsSize;
    AnswersFit(c, a);
    ForestRoom(c.scaffold);
    PositiveQuestions(c.scaffold);
    if !HasQuestion(c) {
      NoQuestionsForest(c.scaffold);
    }
  }

  ghost predicate UniqueIdLengths(uid: nat -> string) {
    forall n :: |uid(n)| == n
  }

  /** So `voteEncode` cuts every such ballot: its padded length fills at most the contract's chunks, and
      at least the ballot size. */
  lemma PaddedFits(c: Config, a: Answers, uid: nat -> string)
    requires Answered(c, a) && HasQuestion(c) && UniqueIdLengths(uid)
    ensures BallotSize(c) == |Padded(a, BallotSize(c), uid)| <= 29 * ChunksPerBallot(BallotSize(c))
  {
    hide Encoded, BallotSize;
    SizeBound(c, a);
  }

  // ----- The exact ballot size

  /** The Base64 length of n bytes. */
  function Encoded64(n: nat): (m: nat) { (n + 2) / 3 * 4 }

  function SelectBytes(q: Question): (n: nat) { 8 + Encoded64(|q.id|) + 2 * |q.choices| }

  function RankBytes(q: Question): (n: nat) { 6 + Encoded64(|q.id|) + 4 * |q.choices| }

  function TextBytesMax(q: Question): (n: nat) {
    6 + Encoded64(|q.id|) + (4 * q.maxLength + 1) * q.maxN + (if |q.choices| > q.maxN then |q.choices| - q.maxN else 0)
  }

  /** The subjects with a question in their subtree: each adds one byte. */
  function ForestRooms(ss: seq<Subject>): (n: nat)
    decreases ss, 0
  {
    if ss == [] then 0 else ForestRooms(ss[..|ss| - 1]) + SubjectRooms(ss[|ss| - 1])
  }

  function SubjectRooms(s: Subject): (n: nat)
    decreases s, 1
  {
    ForestRooms(s.subjects) + (if SubjectSelects(s) == SubjectRanks(s) == SubjectTexts(s) == [] then 0 else 1)
  }

  lemma KindSizes(q: Question)
    ensures SelectSize(q) == SelectBytes(q) && RankSize(q) == RankBytes(q) && TextSize(q) == TextBytesMax(q)
  {
    EncodedShape(q.id);
    hide Base64Encode;
  }

  lemma SameSizes(qs: seq<Question>, size: Question -> nat, bytes: Question -> nat)
    requires forall q :: size(q) == bytes(q)
    ensures Sizes(qs, size) == Sizes(qs, bytes)
  {
  }

  lemma {:induction false} SubjectSizeExact(s: Subject)
    ensures var n := QuestionsSize(SubjectSelects(s), SubjectRanks(s), SubjectTexts(s));
            SubjectSize(s) == n + SubjectRooms(s) && (SubjectRooms(s) > 0 ==> n > 0)
    decreases s, 1
  {
    ForestSizeExact(s.subjects);
    SizesAppend(ForestSelects(s.subjects), s.selects, SelectSize);
    SizesAppend(ForestRanks(s.subjects), s.ranks, RankSize);
    SizesAppend(ForestTexts(s.subjects), s.texts, TextSize);
    PositiveKinds(SubjectSelects(s), SubjectRanks(s), SubjectTexts(s));
    hide QuestionsSize;
    assert QuestionsSize(SubjectSelects(s), SubjectRanks(s), SubjectTexts(s))
        == QuestionsSize(ForestSelects(s.subjects), ForestRanks(s.subjects), ForestTexts(s.subjects))
           + QuestionsSize(s.selects, s.ranks, s.texts) by { SplitKinds(s); }
    OwnSize(s);
  }

  lemma OwnSize(s: Subject)
    ensures var n := ForestSize(s.subjects) + QuestionsSize(s.selects, s.ranks, s.texts);
            SubjectSize(s) == if n != 0 then n + 1 else n
  {
    hide Sizes, SumOf;
  }

  lemma SplitKinds(s: Subject)
    ensures QuestionsSize(SubjectSelects(s), SubjectRanks(s), SubjectTexts(s))
         == QuestionsSize(ForestSelects(s.subjects), ForestRanks(s.subjects), ForestTexts(s.subjects))
            + QuestionsSize(s.selects, s.ranks, s.texts)
  {
    SizesAppend(ForestSelects(s.subjects), s.selects, SelectSize);
    SizesAppend(ForestRanks(s.subjects), s.ranks, RankSize);
    SizesAppend(ForestTexts(s.subjects), s.texts, TextSize);
    hide Sizes, SumOf;
  }

  lemma PositiveKinds(selects: seq<Question>, ranks: seq<Question>, texts: seq<Question>)
    ensures QuestionsSize(selects, ranks, texts) > 0 <==> !(selects == ranks == texts == [])
  {
    hide Base64Encode;
    PositiveSize(selects, SelectSize);
    PositiveSize(ranks, RankSize);
    PositiveSize(texts, TextSize);
    hide Sizes, SumOf, HeaderSize, SelectSize, RankSize, TextSize;
  }

  lemma {:induction false} ForestSizeExact(ss: seq<Subject>)
    ensures var n := QuestionsSize(ForestSelects(ss), ForestRanks(ss), ForestTexts(ss));
            ForestSize(ss) == n + ForestRooms(ss) && (ForestRooms(ss) > 0 ==> n > 0)
    decreases ss, 0
  {
    if ss != [] {
      var front, last := ss[..|ss| - 1], ss[|ss| - 1];
      ForestSizeExact(front);
      SubjectSizeExact(last);
      SizesAppend(ForestSelects(front), SubjectSelects(last), SelectSize);
      SizesAppend(ForestRanks(front), SubjectRanks(last), RankSize);
      SizesAppend(ForestTexts(front), SubjectTexts(last), TextSize);
    }
  }

  /** The ballot size, in closed form: every question with its literal share, and one byte for every subject
      that has a question in its subtree. */
  lemma SizeExact(c: Config)
    ensures BallotSize(c)
         == SumOf(Sizes(ForestSelects(c.scaffold), SelectBytes)) + SumOf(Sizes(ForestRanks(c.scaffold), RankBytes))
            + SumOf(Sizes(ForestTexts(c.scaffold), TextBytesMax)) + ForestRooms(c.scaffold)
  {
    ForestSizeExact(c.scaffold);
    forall q
      ensures SelectSize(q) == SelectBytes(q) && RankSize(q) == RankBytes(q) && TextSize(q) == TextBytesMax(q)
    {
      KindSizes(q);
    }
    SameSizes(ForestSelects(c.scaffold), SelectSize, SelectBytes);
    SameSizes(ForestRanks(c.scaffold), RankSize, RankBytes);
    SameSizes(ForestTexts(c.scaffold), TextSize, TextBytesMax);
    hide Sizes, SumOf, SelectSize, RankSize, TextSize, SelectBytes, RankBytes, TextBytesMax;
  }

  // ----- From the browser to the tally

  lemma {:induction false} KindsAreQuestionsSubject(s: Subject, q: Question)
    requires q in SubjectSelects(s) || q in SubjectRanks(s) || q in SubjectTexts(s)
    ensures q in SubjectQuestions(s)
    decreases s, 1
  {
    if q in ForestSelects(s.subjects) || q in ForestRanks(s.subjects) || q in ForestTexts(s.subjects) {
      KindsAreQuestions(s.subjects, q);
    }
  }

  lemma {:induction false} QuestionsAppend(a: seq<Subject>, b: seq<Subject>)
    ensures ForestQuestions(a + b) == ForestQuestions(a) + ForestQuestions(b)
  {
    hide SubjectQuestions;
    if a == [] {
      assert a + b == b;
    } else {
      QuestionsAppend(a[1..], b);
      assert (a + b)[1..] == a[1..] + b;
    }
  }

  lemma {:induction false} KindsAreQuestions(ss: seq<Subject>, q: Question)
    requires q in ForestSelects(ss) || q in ForestRanks(ss) || q in ForestTexts(ss)
    ensures q in ForestQuestions(ss)
    decreases ss, 0
  {
    var front, last := ss[..|ss| - 1], ss[|ss| - 1];
    QuestionsAppend(front, [last]);
    assert front + [last] == ss;
    assert ForestQuestions([last]) == SubjectQuestions(last) + ForestQuestions([]);
    if q in ForestSelects(front) || q in ForestRanks(front) || q in ForestTexts(front) {
      KindsAreQuestions(front, q);
    } else {
      KindsAreQuestionsSubject(last, q);
    }
  }

  /** Every answer respects the question's own limits, and every ranking can be stored. */
  ghost predicate Allowed(e: Entry, q: Question) {
    && q.choices != []
    && match e
       case SelectEntry(_, selected) => InBounds(q, Trues(selected))
       case RankEntry(_, order) => InBounds(q, |order|) && |order| <= 128
       case TextEntry(_, texts) => InBounds(q, NonEmptyTexts(texts))
  }

  ghost predicate AllAllowed(es: seq<Entry>, qs: seq<Question>)
    requires |es| == |qs|
  {
    forall i :: 0 <= i < |es| ==> Allowed(es[i], qs[i])
  }

  lemma FittingReadable(c: Config, e: Entry, q: Question)
    requires ValidConfig(c) && q in ForestQuestions(c.scaffold) && Fits(e, q)
    ensures Readable(Judge(c, e)) <==> Allowed(e, q)
  {
    GetQuestionUnique(c, q);
  }

  lemma FittingAllReadable(c: Config, es: seq<Entry>, qs: seq<Question>)
    requires ValidConfig(c) && AllFit(es, qs)
    requires forall i :: 0 <= i < |qs| ==> qs[i] in ForestQuestions(c.scaffold)
    ensures AllReadable(c, es) <==> AllAllowed(es, qs)
  {
    hide Judge, Fits, Allowed;
    forall i | 0 <= i < |es|
      ensures Readable(Judge(c, es[i])) <==> Allowed(es[i], qs[i])
    {
      FittingReadable(c, es[i], qs[i]);
    }
  }

  lemma KindsFound(c: Config, qs: seq<Question>)
    requires qs == ForestSelects(c.scaffold) || qs == ForestRanks(c.scaffold) || qs == ForestTexts(c.scaffold)
    ensures forall i :: 0 <= i < |qs| ==> qs[i] in ForestQuestions(c.scaffold)
  {
    hide ForestSelects, ForestRanks, ForestTexts, ForestQuestions;
    forall i | 0 <= i < |qs|
      ensures qs[i] in ForestQuestions(c.scaffold)
    {
      KindsAreQuestions(c.scaffold, qs[i]);
    }
  }

  lemma AnsweredAccepted(c: Config, a: Answers)
    requires ValidConfig(c) && Answered(c, a)
    ensures Accepted(c, a) <==>
              && AllAllowed(SelectEntries(a.selects), ForestSelects(c.scaffold))
              && AllAllowed(RankEntries(a.ranks), ForestRanks(c.scaffold))
              && AllAllowed(TextEntries(a.texts), ForestTexts(c.scaffold))
  {
    hide Judge, AllAllowed, Fits, ForestSelects, ForestRanks, ForestTexts, ForestQuestions, ValidConfig;
    var ss, rs, ts := SelectEntries(a.selects), RankEntries(a.ranks), TextEntries(a.texts);
    KindsFound(c, ForestSelects(c.scaffold));
    KindsFound(c, ForestRanks(c.scaffold));
    KindsFound(c, ForestTexts(c.scaffold));
    FittingAllReadable(c, ss, ForestSelects(c.scaffold));
    FittingAllReadable(c, rs, ForestRanks(c.scaffold));
    FittingAllReadable(c, ts, ForestTexts(c.scaffold));
    if Accepted(c, a) {
      AllReadableAppend(c, ss, rs + ts);
      AllReadableAppend(c, rs, ts);
    }
  }

  /** End to end: for a validated configuration, the padded ballot of any answers within the size limits
      is read back, and it is read without error exactly when the answers respect the questions. */
  lemma BallotReadBack(c: Config, a: Answers, uid: nat -> string)
    requires ValidConfig(c) && Answered(c, a) && HasQuestion(c) && UniqueIdLengths(uid)
    ensures var allowed := && AllAllowed(SelectEntries(a.selects), ForestSelects(c.scaffold))
                           && AllAllowed(RankEntries(a.ranks), ForestRanks(c.scaffold))
                           && AllAllowed(TextEntries(a.texts), ForestTexts(c.scaffold));
            Unmarshaled(c, Padded(a, BallotSize(c), uid))
                == if allowed then Verdict(AsResults(a), true) else Verdict(NO_RESULTS, false)
  {
    hide Encoded, AllAllowed, Unmarshaled, AllReadable, BallotSize, ForestSelects, ForestTexts;
    AnsweredAccepted(c, a);
    forall i | 0 <= i < |a.ranks|
      ensures IsPermutation(a.ranks[i].1)
    {
      assert Fits(RankEntries(a.ranks)[i], ForestRanks(c.scaffold)[i]);
    }
    var missing := if |Encoded(a)| < BallotSize(c) then uid(BallotSize(c) - |Encoded(a)|) else [];
    RoundTrip(c, a, missing);
    assert Padded(a, BallotSize(c), uid) == Encoded(a) + missing;
  }

  // ----- Inputs at the limits

  /** A form that asks to rank n choices completely. */
  function RankingForm(n: nat): (c: Config) {
    Config([Subject("S", [], [], [], [Question("", n, n, seq(n, _ => "c"), 0)], [])])
  }

  /** The choices ranked in their own order. */
  function InOrder(n: nat): (a: Answers) {
    Answers([], [([], Range(n))], [])
  }

  lemma RankingFormValid(n: nat)
    ensures ValidConfig(RankingForm(n)) && HasQuestion(RankingForm(n))
    ensures var ss := RankingForm(n).scaffold;
            ForestSelects(ss) == [] && ForestRanks(ss) == ss[0].ranks && ForestTexts(ss) == []
  {
    var ss := RankingForm(n).scaffold;
    var s := ss[0];
    assert ss[1..] == [] && ss[..0] == [];
    assert OwnIds(s) == ["S", ""];
    ValidForestUnfold(ss, {});
    ValidSubjectUnfold(s, {});
  }

  /** A ranking is printed as one item a choice whatever their number, but it is read back only up to 128. */
  lemma RankingLimit(n: nat, uid: nat -> string)
    requires 0 < n <= 1000 && UniqueIdLengths(uid)
    ensures Answered(RankingForm(n), InOrder(n))
    ensures Unmarshaled(RankingForm(n), Padded(InOrder(n), BallotSize(RankingForm(n)), uid)).ok <==> n <= 128
  {
    var c, a := RankingForm(n), InOrder(n);
    RankingFormValid(n);
    var q := c.scaffold[0].ranks[0];
    assert RankEntries(a.ranks)[0] == RankEntry([], Range(n));
    assert Fits(RankEntries(a.ranks)[0], q);
    assert Allowed(RankEntries(a.ranks)[0], q) <==> n <= 128;
    hide ValidConfig, HasQuestion, ForestSelects, ForestRanks, ForestTexts;
    hide Unmarshaled, Padded, BallotSize, Fits, Allowed;
    BallotReadBack(c, a, uid);
  }

  /** A complete ranking of 129 choices, as the question asks for it, is lost. */
  lemma LongRankingLost(uid: nat -> string)
    requires UniqueIdLengths(uid)
    ensures Unmarshaled(RankingForm(129), Padded(InOrder(129), BallotSize(RankingForm(129)), uid))
              == Verdict(NO_RESULTS, false)
  {
    hide Unmarshaled, Padded, BallotSize, RankingForm, InOrder;
    RankingLimit(129, uid);
    RankingFormValid(129);
    BallotReadBack(RankingForm(129), InOrder(129), uid);
  }

  /** The ballot of an empty form is one newline, for which its ballot size has no room. */
  lemma EmptyFormOverflows()
    ensures Answered(Config([]), Answers([], [], []))
    ensures |Encoded(Answers([], [], []))| == 1 && BallotSize(Config([])) == 0
  {
    assert Entries(Answers([], [], [])) == [];
  }
}
