/** What the contract reads is what the browser meant, for every set of answers. */
module BallotRoundTrip {
  import opened Wrappers
  import opened Sequences
  import opened Text
  import opened Configuration
  import opened BallotReader
  import opened BallotWriter

  // ----- The meaning of the answers, without any text

  function IndexOf(order: seq<nat>, x: nat): (i: nat) {
    if order == [] || order[0] == x then 0 else 1 + IndexOf(order[1..], x)
  }

  /** The inverse ranking: for every choice its position. */
  function Inverse(order: seq<nat>): (r: seq<int>)
    ensures |r| == |order|
  {
    seq(|order|, x requires 0 <= x < |order| => IndexOf(order, x))
  }

  function NonEmptyTexts(texts: seq<JsString>): (n: nat) {
    if texts == [] then 0 else NonEmptyTexts(texts[..|texts| - 1]) + (if texts[|texts| - 1] != [] then 1 else 0)
  }

  /** The answer must be for an existing question, with one item for each of its choices, at least
      one, and as many selections or texts as allowed. A ranking also needs all its positions to be
      below maxN and to fit a signed byte. */
  function Judge(c: Config, e: Entry): (l: Line) {
    match GetQuestion(c, Utf8(e.id))
    case None => Invalid
    case Some(q) =>
      match e
      case SelectEntry(id, selected) =>
        if 0 < |selected| == |q.choices| && InBounds(q, Trues(selected)) then SelectLine(Utf8(id), selected)
        else Invalid
      case RankEntry(id, order) =>
        if 0 < |order| == |q.choices| && InBounds(q, |order|) && |order| <= 128 then RankLine(Utf8(id), Inverse(order))
        else Invalid
      case TextEntry(id, texts) =>
        if 0 < |texts| == |q.choices| && InBounds(q, NonEmptyTexts(texts)) then TextLine(Utf8(id), TextBytes(texts))
        else Invalid
  }

  function TextBytes(texts: seq<JsString>): (r: seq<ByteString>)
    ensures |r| == |texts|
  {
    seq(|texts|, i requires 0 <= i < |texts| => Utf8(texts[i]))
  }

  function JudgeAll(c: Config, es: seq<Entry>, b: Results): (v: Verdict) {
    if es == [] then Verdict(b, true)
    else
      var l := Judge(c, es[0]);
      if Readable(l) then JudgeAll(c, es[1..], Record(b, l)) else Verdict(NO_RESULTS, false)
  }

  // ----- Rankings

  lemma {:induction false} IndexOfCorrect(order: seq<nat>, x: nat)
    requires x in order
    ensures IndexOf(order, x) < |order| && order[IndexOf(order, x)] == x
  {
    if order[0] != x {
      IndexOfCorrect(order[1..], x);
    }
  }

  lemma {:induction false} PositionsPlaced(order: seq<nat>, n: nat)
    requires n <= |order| && Distinct(order)
    requires forall i :: 0 <= i < |order| ==> order[i] < |order|
    ensures |Positions(order, n)| == |order|
    ensures forall i :: 0 <= i < n ==> Positions(order, n)[order[i]] == Some(i)
  {
    if n > 0 {
      PositionsPlaced(order, n - 1);
    }
  }

  /** A complete ranking fills the sparse array with its inverse. */
  lemma PositionsOfRanking(order: seq<nat>)
    requires IsPermutation(order)
    ensures |Positions(order, |order|)| == |order|
    ensures forall x :: 0 <= x < |order| ==> Positions(order, |order|)[x] == Some(Inverse(order)[x])
    ensures forall i :: 0 <= i < |order| ==> order[i] < |order| && Inverse(order)[order[i]] == i
  {
    PermutationFacts(order);
    assert forall i :: 0 <= i < |order| ==> order[i] in order;
    PositionsPlaced(order, |order|);
    forall x | 0 <= x < |order|
      ensures Positions(order, |order|)[x] == Some(Inverse(order)[x])
    {
      IndexOfCorrect(order, x);
    }
  }

  lemma {:induction false} FilledAll(p: seq<Option<nat>>)
    requires forall i :: 0 <= i < |p| ==> p[i].Some?
    ensures Filled(p) == seq(|p|, i requires 0 <= i < |p| => Decimal(p[i].value))
  {
    if p != [] {
      FilledAll(p[..|p| - 1]);
    }
  }

  /** The printed items of a ranking. */
  lemma RankItems(e: Entry)
    requires e.RankEntry? && IsPermutation(e.order)
    ensures |Items(e)| == |e.order|
    ensures forall x :: 0 <= x < |e.order| ==> Inverse(e.order)[x] >= 0 && Items(e)[x] == Decimal(Inverse(e.order)[x])
  {
    PositionsOfRanking(e.order);
    FilledAll(Positions(e.order, |e.order|));
  }

  // ----- One line

  lemma ItemsInert(e: Entry)
    requires e.RankEntry? ==> IsPermutation(e.order)
    ensures forall i :: 0 <= i < |Items(e)| ==> AllInert(Items(e)[i])
  {
    match e
    case SelectEntry(_, _) =>
    case RankEntry(_, _) =>
      RankItems(e);
    case TextEntry(_, texts) =>
      forall i | 0 <= i < |texts|
        ensures AllInert(Items(e)[i])
      {
        EncodedShape(Utf8(texts[i]));
      }
  }

  lemma InertExcludes(s: string)
    requires AllInert(s)
    ensures ':' !in s && ',' !in s && '\n' !in s
  {
  }

  lemma LineFields(e: Entry)
    requires e.RankEntry? ==> IsPermutation(e.order)
    ensures '\n' !in LineOf(e) && LineOf(e) != ""
    ensures var id := Base64Encode(Utf8(e.id));
            Split(LineOf(e), ':') == if Items(e) == [] then [Kind(e), id] else [Kind(e), id, Join(Items(e), ',')]
    ensures Items(e) != [] ==> Split(Join(Items(e), ','), ',') == Items(e)
  {
    var kind, id, items := Kind(e), Base64Encode(Utf8(e.id)), Items(e);
    EncodedShape(Utf8(e.id));
    ItemsInert(e);
    assert AllInert(kind);
    forall i | 0 <= i < |items|
      ensures ':' !in items[i] && ',' !in items[i] && '\n' !in items[i]
    {
      InertExcludes(items[i]);
    }
    JoinedFields(kind, id, items);
  }

  lemma JoinedFields(kind: string, id: string, items: seq<string>)
    requires AllInert(kind) && AllInert(id)
    requires forall i :: 0 <= i < |items| ==> ':' !in items[i] && ',' !in items[i] && '\n' !in items[i]
    ensures var line := kind + [':'] + id + (if items == [] then [] else [':'] + Join(items, ','));
            && '\n' !in line && line != ""
            && Split(line, ':') == (if items == [] then [kind, id] else [kind, id, Join(items, ',')])
    ensures items != [] ==> Split(Join(items, ','), ',') == items
  {
    hide Split, Join;
    InertExcludes(kind);
    InertExcludes(id);
    if items == [] {
      SplitFirst(kind, ':', id);
      SplitNone(id, ':');
      assert kind + [':'] + id + [] == kind + [':'] + id;
    } else {
      JoinExcludes(items, ',', ':');
      JoinExcludes(items, ',', '\n');
      SplitJoin(items, ',');
      ThreeFields(kind, id, Join(items, ','));
    }
  }

  lemma ThreeFields(kind: string, id: string, joined: string)
    requires ':' !in kind && ':' !in id && ':' !in joined
    ensures Split(kind + [':'] + id + ([':'] + joined), ':') == [kind, id, joined]
  {
    hide Split;
    SplitFirst(kind, ':', id + [':'] + joined);
    SplitFirst(id, ':', joined);
    SplitNone(joined, ':');
    assert kind + [':'] + id + ([':'] + joined) == kind + [':'] + (id + [':'] + joined);
  }

  lemma SelectRead(q: Question, e: Entry)
    requires e.SelectEntry?
    ensures SelectRow(q, Items(e))
         == if |e.selected| == |q.choices| && InBounds(q, Trues(e.selected)) then Some(e.selected) else None
  {
    var items := Items(e);
    assert forall i :: 0 <= i < |items| ==> ParseBool(items[i]) == Some(e.selected[i]);
    if |items| == |q.choices| {
      assert e.selected == seq(|items|, i requires 0 <= i < |items| => ParseBool(items[i]) == Some(true));
    }
  }

  lemma {:induction false} AllNonEmpty(items: seq<string>)
    requires forall i :: 0 <= i < |items| ==> items[i] != ""
    ensures NonEmpty(items) == |items|
  {
    if items != [] {
      AllNonEmpty(items[..|items| - 1]);
    }
  }

  lemma RankOfDecimal(n: nat, maxN: nat)
    ensures RankOf(Decimal(n), maxN) == if n < 128 && n < maxN then Some(n) else None
  {
    ParseDecimal(n);
  }

  lemma RankRead(q: Question, e: Entry)
    requires e.RankEntry? && IsPermutation(e.order) && e.order != []
    ensures RankRow(q, Items(e))
         == if |e.order| == |q.choices| && InBounds(q, |e.order|) && |e.order| <= 128 then Some(Inverse(e.order))
             else None
  {
    var n, items, inverse := |e.order|, Items(e), Inverse(e.order);
    RankItems(e);
    AllNonEmpty(items);
    PositionsOfRanking(e.order);
    PermutationFacts(e.order);
    forall x | 0 <= x < n
      ensures inverse[x] < n
      ensures RankOf(items[x], q.maxN) == if inverse[x] < 128 && inverse[x] < q.maxN then Some(inverse[x]) else None
    {
      IndexOfCorrect(e.order, x);
      RankOfDecimal(inverse[x], q.maxN);
    }
    if n <= 128 && n <= q.maxN {
      if n == |q.choices| {
        assert inverse == seq(n, i requires 0 <= i < n => RankOf(items[i], q.maxN).value);
      }
    } else {
      assert inverse[e.order[n - 1]] == n - 1;
      assert RankOf(items[e.order[n - 1]], q.maxN).None?;
    }
  }

  lemma {:induction false} TextCounts(texts: seq<JsString>, items: seq<string>)
    requires |items| == |texts|
    requires forall i :: 0 <= i < |texts| ==> items[i] == Base64Encode(Utf8(texts[i]))
    ensures NonEmpty(items) == NonEmptyTexts(texts)
  {
    if texts != [] {
      TextCounts(texts[..|texts| - 1], items[..|texts| - 1]);
      EncodedShape(Utf8(texts[|texts| - 1]));
    }
  }

  lemma TextRead(q: Question, e: Entry)
    requires e.TextEntry?
    ensures TextRow(q, Items(e))
         == if |e.texts| == |q.choices| && InBounds(q, NonEmptyTexts(e.texts)) then Some(TextBytes(e.texts)) else None
  {
    var items, bytes := Items(e), TextBytes(e.texts);
    TextCounts(e.texts, items);
    forall i | 0 <= i < |items|
      ensures Base64Decode(items[i]) == Some(bytes[i])
    {
      Base64RoundTrip(Utf8(e.texts[i]));
    }
    if |items| == |q.choices| {
      assert bytes == seq(|items|, i requires 0 <= i < |items| => Base64Decode(items[i]).value);
    }
  }

  lemma AnswersRead(q: Question, e: Entry)
    requires e.RankEntry? ==> IsPermutation(e.order)
    requires Items(e) != []
    ensures ReadAnswers(q, Utf8(e.id), Kind(e), Items(e)) ==
      match e
      case SelectEntry(id, selected) =>
        if |selected| == |q.choices| && InBounds(q, Trues(selected)) then SelectLine(Utf8(id), selected) else Invalid
      case RankEntry(id, order) =>
        if |order| == |q.choices| && InBounds(q, |order|) && |order| <= 128 then RankLine(Utf8(id), Inverse(order))
        else Invalid
      case TextEntry(id, texts) =>
        if |texts| == |q.choices| && InBounds(q, NonEmptyTexts(texts)) then TextLine(Utf8(id), TextBytes(texts))
        else Invalid
  {
    match e
    case SelectEntry(_, _) => SelectRead(q, e);
    case RankEntry(_, _) =>
      RankItems(e);
      RankRead(q, e);
    case TextEntry(_, _) => TextRead(q, e);
  }

  lemma EmptyItems(e: Entry)
    requires e.RankEntry? ==> IsPermutation(e.order)
    ensures Items(e) == [] <==> match e
                                case SelectEntry(_, selected) => selected == []
                                case RankEntry(_, order) => order == []
                                case TextEntry(_, texts) => texts == []
  {
    if e.RankEntry? { RankItems(e); }
  }

  /** Reading a printed line gives exactly the judgement of its answers. */
  lemma LineRoundTrip(c: Config, e: Entry)
    requires e.RankEntry? ==> IsPermutation(e.order)
    ensures ReadLine(c, LineOf(e)) == Judge(c, e)
  {
    hide Items, LineOf, Split, Base64Encode, Base64Decode, Utf8, Join;
    LineFields(e);
    EmptyItems(e);
    Base64RoundTrip(Utf8(e.id));
    var q := GetQuestion(c, Utf8(e.id));
    if q.Some? && Items(e) != [] {
      AnswersRead(q.value, e);
    }
  }

  // ----- The whole ballot

  function LineSeq(es: seq<Entry>): (lines: seq<string>)
    ensures |lines| == |es|
  {
    seq(|es|, i requires 0 <= i < |es| => LineOf(es[i]))
  }

  ghost predicate RankingsComplete(es: seq<Entry>) {
    forall i :: 0 <= i < |es| && es[i].RankEntry? ==> IsPermutation(es[i].order)
  }

  lemma {:induction false} SplitLines(es: seq<Entry>, tail: string)
    requires RankingsComplete(es)
    ensures Split(Lines(es) + tail, '\n') == LineSeq(es) + Split(tail, '\n')
  {
    hide LineOf, Items, Split, IsPermutation;
    if es == [] {
      assert Lines(es) + tail == tail;
      assert LineSeq(es) == [];
    } else {
      var front, last := es[..|es| - 1], es[|es| - 1];
      LineFields(last);
      SplitLines(front, LineOf(last) + ['\n'] + tail);
      SplitFirst(LineOf(last), '\n', tail);
      assert Lines(es) + tail == Lines(front) + (LineOf(last) + ['\n'] + tail);
      assert LineSeq(es) == LineSeq(front) + [LineOf(last)];
    }
  }

  lemma ReadFirst(c: Config, line: string, rest: seq<string>, b: Results)
    ensures ReadLines(c, [line] + rest, b) ==
              if line == "" then Verdict(b, true)
              else if ReadLine(c, line).Invalid? then Verdict(NO_RESULTS, false)
              else if ReadLine(c, line).UnreadableId? then Verdict(b, false)
              else ReadLines(c, rest, Record(b, ReadLine(c, line)))
  {
    hide ReadLine, Record;
    assert ([line] + rest)[1..] == rest;
  }

  lemma {:induction false} ReadPrinted(c: Config, es: seq<Entry>, rest: seq<string>, b: Results)
    requires RankingsComplete(es)
    ensures ReadLines(c, LineSeq(es) + [""] + rest, b) == JudgeAll(c, es, b)
  {
    hide LineOf, Items, Judge, ReadLine, ReadLines, Split, Join, Record, IsPermutation;
    if es == [] {
      assert LineSeq(es) + [""] + rest == [""] + rest;
      ReadFirst(c, "", rest, b);
    } else {
      var more := LineSeq(es[1..]) + [""] + rest;
      LineRoundTrip(c, es[0]);
      LineFields(es[0]);
      JudgeTotal(c, es[0]);
      assert LineSeq(es) + [""] + rest == [LineOf(es[0])] + more;
      ReadFirst(c, LineOf(es[0]), more, b);
      if Readable(Judge(c, es[0])) {
        ReadPrinted(c, es[1..], rest, Record(b, Judge(c, es[0])));
      }
    }
  }

  /** Printed identifiers are always readable. */
  lemma JudgeTotal(c: Config, e: Entry)
    ensures !Judge(c, e).UnreadableId?
  {
  }

  // ----- The answers as the contract should see them

  function SelectIds(m: seq<(JsString, seq<bool>)>): (ids: seq<ID>) {
    seq(|m|, i requires 0 <= i < |m| => Utf8(m[i].0))
  }

  function SelectRows(m: seq<(JsString, seq<bool>)>): (rows: seq<seq<bool>>) {
    seq(|m|, i requires 0 <= i < |m| => m[i].1)
  }

  function RankIds(m: seq<(JsString, seq<nat>)>): (ids: seq<ID>) {
    seq(|m|, i requires 0 <= i < |m| => Utf8(m[i].0))
  }

  function RankRows(m: seq<(JsString, seq<nat>)>): (rows: seq<seq<int>>) {
    seq(|m|, i requires 0 <= i < |m| => Inverse(m[i].1))
  }

  function TextIds(m: seq<(JsString, seq<JsString>)>): (ids: seq<ID>) {
    seq(|m|, i requires 0 <= i < |m| => Utf8(m[i].0))
  }

  function TextRows(m: seq<(JsString, seq<JsString>)>): (rows: seq<seq<ByteString>>) {
    seq(|m|, i requires 0 <= i < |m| => TextBytes(m[i].1))
  }

  function AsResults(a: Answers): (r: Results) {
    Results(SelectIds(a.selects), SelectRows(a.selects), RankIds(a.ranks), RankRows(a.ranks), TextIds(a.texts),
        TextRows(a.texts))
  }

  ghost predicate AllReadable(c: Config, es: seq<Entry>) {
    forall i :: 0 <= i < |es| ==> Readable(Judge(c, es[i]))
  }

  ghost predicate Accepted(c: Config, a: Answers) {
    AllReadable(c, Entries(a))
  }

  ghost predicate CompleteRankings(a: Answers) {
    forall i :: 0 <= i < |a.ranks| ==> IsPermutation(a.ranks[i].1)
  }

  lemma {:induction false} JudgeAppend(c: Config, es: seq<Entry>, fs: seq<Entry>, b: Results)
    ensures var v := JudgeAll(c, es, b);
            JudgeAll(c, es + fs, b) == if v.ok then JudgeAll(c, fs, v.ballot) else v
  {
    hide Judge;
    if es == [] {
      assert es + fs == fs;
    } else {
      assert (es + fs)[1..] == es[1..] + fs;
      if Readable(Judge(c, es[0])) {
        JudgeAppend(c, es[1..], fs, Record(b, Judge(c, es[0])));
      }
    }
  }

  lemma {:induction false} JudgeVerdict(c: Config, es: seq<Entry>, b: Results)
    ensures JudgeAll(c, es, b).ok <==> AllReadable(c, es)
    ensures !JudgeAll(c, es, b).ok ==> JudgeAll(c, es, b).ballot == NO_RESULTS
  {
    hide Judge;
    if es != [] {
      var l := Judge(c, es[0]);
      assert es == [es[0]] + es[1..];
      if Readable(l) {
        JudgeVerdict(c, es[1..], Record(b, l));
        assert AllReadable(c, es[1..]) ==> forall i :: 1 <= i < |es| ==> es[i] == es[1..][i - 1];
      }
    }
  }

  lemma {:induction false} JudgeSelects(c: Config, m: seq<(JsString, seq<bool>)>, b: Results)
    requires AllReadable(c, SelectEntries(m))
    ensures JudgeAll(c, SelectEntries(m), b)
         == Verdict(b.(selectIDs := b.selectIDs + SelectIds(m), selects := b.selects + SelectRows(m)), true)
  {
    hide Utf8, GetQuestion;
    if m != [] {
      var es, l := SelectEntries(m), Judge(c, SelectEntries(m)[0]);
      assert Readable(l) && l == SelectLine(Utf8(m[0].0), m[0].1);
      assert es[1..] == SelectEntries(m[1..]);
      JudgeSelects(c, m[1..], Record(b, l));
      assert SelectIds(m) == [Utf8(m[0].0)] + SelectIds(m[1..]);
      assert SelectRows(m) == [m[0].1] + SelectRows(m[1..]);
    }
  }

  lemma {:induction false} JudgeRanks(c: Config, m: seq<(JsString, seq<nat>)>, b: Results)
    requires AllReadable(c, RankEntries(m))
    ensures JudgeAll(c, RankEntries(m), b)
         == Verdict(b.(rankIDs := b.rankIDs + RankIds(m), ranks := b.ranks + RankRows(m)), true)
  {
    hide Utf8, GetQuestion, Inverse;
    if m != [] {
      var es, l := RankEntries(m), Judge(c, RankEntries(m)[0]);
      assert Readable(l) && l == RankLine(Utf8(m[0].0), Inverse(m[0].1));
      assert es[1..] == RankEntries(m[1..]);
      JudgeRanks(c, m[1..], Record(b, l));
      assert RankIds(m) == [Utf8(m[0].0)] + RankIds(m[1..]);
      assert RankRows(m) == [Inverse(m[0].1)] + RankRows(m[1..]);
    }
  }

  lemma {:induction false} JudgeTexts(c: Config, m: seq<(JsString, seq<JsString>)>, b: Results)
    requires AllReadable(c, TextEntries(m))
    ensures JudgeAll(c, TextEntries(m), b)
         == Verdict(b.(textIDs := b.textIDs + TextIds(m), texts := b.texts + TextRows(m)), true)
  {
    hide Utf8, GetQuestion, TextBytes;
    if m != [] {
      var es, l := TextEntries(m), Judge(c, TextEntries(m)[0]);
      assert Readable(l) && l == TextLine(Utf8(m[0].0), TextBytes(m[0].1));
      assert es[1..] == TextEntries(m[1..]);
      JudgeTexts(c, m[1..], Record(b, l));
      assert TextIds(m) == [Utf8(m[0].0)] + TextIds(m[1..]);
      assert TextRows(m) == [TextBytes(m[0].1)] + TextRows(m[1..]);
    }
  }

  lemma AllReadableAppend(c: Config, es: seq<Entry>, fs: seq<Entry>)
    requires AllReadable(c, es + fs)
    ensures AllReadable(c, es) && AllReadable(c, fs)
  {
    hide Judge;
    assert forall i :: 0 <= i < |es| ==> es[i] == (es + fs)[i];
    assert forall i :: 0 <= i < |fs| ==> fs[i] == (es + fs)[|es| + i];
  }

  lemma JudgeAccepted(c: Config, a: Answers)
    requires Accepted(c, a)
    ensures JudgeAll(c, Entries(a), NO_RESULTS) == Verdict(AsResults(a), true)
  {
    hide Judge, JudgeAll;
    assert forall s: seq<ID> :: [] + s == s;
    assert [] + SelectRows(a.selects) == SelectRows(a.selects) && [] + RankRows(a.ranks) == RankRows(a.ranks);
    assert [] + TextRows(a.texts) == TextRows(a.texts);
    var rest := RankEntries(a.ranks) + TextEntries(a.texts);
    AllReadableAppend(c, SelectEntries(a.selects), rest);
    AllReadableAppend(c, RankEntries(a.ranks), TextEntries(a.texts));
    JudgeAppend(c, SelectEntries(a.selects), rest, NO_RESULTS);
    JudgeSelects(c, a.selects, NO_RESULTS);
    var b := NO_RESULTS.(selectIDs := SelectIds(a.selects), selects := SelectRows(a.selects));
    JudgeAppend(c, RankEntries(a.ranks), TextEntries(a.texts), b);
    JudgeRanks(c, a.ranks, b);
    JudgeTexts(c, a.texts, b.(rankIDs := RankIds(a.ranks), ranks := RankRows(a.ranks)));
  }

  /** The ballot round trip. Whatever follows the printed answers, reading them succeeds exactly when
      every answer is acceptable for its question; then the ballot holds the same selections and texts
      and the inverse of every ranking, and otherwise nothing. */
  lemma RoundTrip(c: Config, a: Answers, padding: string)
    requires CompleteRankings(a)
    ensures Unmarshaled(c, Encoded(a) + padding)
              == if Accepted(c, a) then Verdict(AsResults(a), true) else Verdict(NO_RESULTS, false)
  {
    hide Judge, JudgeAll, Items, LineOf, Lines, ReadLines, Split;
    var es := Entries(a);
    assert RankingsComplete(es);
    assert Encoded(a) + padding == Lines(es) + (['\n'] + padding);
    SplitLines(es, ['\n'] + padding);
    SplitFirst([], '\n', padding);
    assert [] + ['\n'] + padding == ['\n'] + padding;
    assert LineSeq(es) + ([""] + Split(padding, '\n')) == LineSeq(es) + [""] + Split(padding, '\n');
    ReadPrinted(c, es, Split(padding, '\n'), NO_RESULTS);
    JudgeVerdict(c, es, NO_RESULTS);
    if Accepted(c, a) {
      JudgeAccepted(c, a);
    }
  }

  // ----- An error that does not clear the ballot

  lemma {:induction false} ReadThenFail(c: Config, es: seq<Entry>, line: string, b: Results)
    requires RankingsComplete(es) && AllReadable(c, es)
    requires line != "" && ReadLine(c, line).UnreadableId?
    ensures ReadLines(c, LineSeq(es) + [line], b) == Verdict(JudgeAll(c, es, b).ballot, false)
  {
    hide LineOf, Items, Judge, ReadLine, ReadLines, Split, Join, Record, IsPermutation;
    if es == [] {
      assert LineSeq(es) + [line] == [line] + [];
      ReadFirst(c, line, [], b);
    } else {
      LineRoundTrip(c, es[0]);
      LineFields(es[0]);
      JudgeTotal(c, es[0]);
      var more := LineSeq(es[1..]) + [line];
      assert LineSeq(es) + [line] == [LineOf(es[0])] + more;
      ReadFirst(c, LineOf(es[0]), more, b);
      assert AllReadable(c, es[1..]) by {
        assert forall i :: 0 <= i < |es| - 1 ==> es[1..][i] == es[i + 1];
      }
      ReadThenFail(c, es[1..], line, Record(b, Judge(c, es[0])));
    }
  }

  lemma PercentNotBase64()
    ensures Base64Decode("%") == None
  {
    assert StripLineBreaks("%") == "%" by { assert "%"[1..] == ""; }
  }

  lemma PercentUnreadable(c: Config)
    ensures ReadLine(c, "select:%:1").UnreadableId?
    ensures Split("select:%:1", '\n') == ["select:%:1"]
  {
    hide Split, Base64Decode, GetQuestion, ReadAnswers;
    FieldsOf("select", "%", "1");
    assert "select" + ":" + "%" + ":" + "1" == "select:%:1";
    SplitNone("select:%:1", '\n');
    PercentNotBase64();
  }

  /** Acceptable answers followed by a line whose identifier is not Base64: reading fails, and the ballot
      still holds every one of the answers. */
  lemma UndecodableKeeps(c: Config, a: Answers)
    requires CompleteRankings(a) && Accepted(c, a)
    ensures Unmarshaled(c, Lines(Entries(a)) + "select:%:1") == Verdict(AsResults(a), false)
  {
    hide Judge, JudgeAll, Items, LineOf, Lines, ReadLine, ReadLines, Split;
    var es := Entries(a);
    assert RankingsComplete(es);
    PercentUnreadable(c);
    SplitLines(es, "select:%:1");
    ReadThenFail(c, es, "select:%:1", NO_RESULTS);
    JudgeAccepted(c, a);
  }

  /** One selection read, then the error: its row is kept. */
  lemma OneRowKept()
    ensures var c := Config([Subject("S", [], [], [Question("", 1, 0, ["c"], 0)], [], [])]);
            Unmarshaled(c, "select::1\nselect:%:1") == Verdict(Results([""], [[true]], [], [], [], []), false)
  {
    var q := Question("", 1, 0, ["c"], 0);
    var c, a := Config([Subject("S", [], [], [q], [], [])]), Answers([([], [true])], [], []);
    OneSelectFound(c, q);
    OneSelectPrinted(a);
    OneSelectAccepted(c, q, a);
    UndecodableKeeps(c, a);
    assert AsResults(a) == Results([""], [[true]], [], [], [], []);
  }

  lemma OneSelectFound(c: Config, q: Question)
    requires c == Config([Subject("S", [], [], [q], [], [])]) && q.id == ""
    ensures GetQuestion(c, "") == Some(q)
  {
    assert FindInSubject(c.scaffold[0], "") == FindIn(c.scaffold[0].selects, "");
  }

  lemma OneSelectAccepted(c: Config, q: Question, a: Answers)
    requires GetQuestion(c, "") == Some(q) && q == Question("", 1, 0, ["c"], 0) && a == Answers([([], [true])], [], [])
    ensures Accepted(c, a)
  {
    hide GetQuestion;
    assert Entries(a) == [SelectEntry([], [true])];
    assert Trues([true]) == 1;
  }

  lemma OneSelectLine()
    ensures LineOf(SelectEntry([], [true])) == "select::1"
  {
    assert Items(SelectEntry([], [true])) == ["1"];
  }

  lemma TwoLines()
    ensures [] + "select::1" + ['\n'] + "select:%:1" == "select::1\nselect:%:1"
  {
  }

  lemma LinesOfOne(e: Entry)
    ensures Lines([e]) == [] + LineOf(e) + ['\n']
  {
    hide LineOf;
    assert [e][..0] == [];
  }

  lemma OneSelectPrinted(a: Answers)
    requires a == Answers([([], [true])], [], [])
    ensures Lines(Entries(a)) + "select:%:1" == "select::1\nselect:%:1"
  {
    hide LineOf, Lines;
    assert Entries(a) == [SelectEntry([], [true])];
    LinesOfOne(SelectEntry([], [true]));
    OneSelectLine();
    TwoLines();
  }

  // ----- The printed form by example

  /** One line of each kind, as printed. */
  lemma PrintedLines()
    ensures LineOf(SelectEntry([], [true, false])) == "select::1,0"
    ensures LineOf(RankEntry([], [1, 0])) == "rank::1,0"
    ensures LineOf(TextEntry([], [[0x66], []])) == "text::Zg==,"
  {
    PrintedSelect();
    PrintedRank();
    PrintedText();
    hide LineOf;
  }

  lemma JoinTwo(a: string, b: string)
    ensures Join([a, b], ',') == a + "," + b
  {
    assert [a, b][1..] == [b];
  }

  lemma PrintedSelect()
    ensures LineOf(SelectEntry([], [true, false])) == "select::1,0"
  {
    assert Items(SelectEntry([], [true, false])) == ["1", "0"];
    JoinTwo("1", "0");
    hide Items, Join;
  }

  lemma PrintedRank()
    ensures LineOf(RankEntry([], [1, 0])) == "rank::1,0"
  {
    var e := RankEntry([], [1, 0]);
    assert Positions([1, 0], 1) == [None, Some(0)];
    assert Positions([1, 0], 2) == [Some(1), Some(0)];
    assert [Some(1), Some(0)][..1] == [Some(1)] && [Some(1)][..0] == [];
    assert Filled([Some(1)]) == ["1"];
    assert Items(e) == ["1", "0"];
    JoinTwo("1", "0");
    hide Items, Join;
  }

  lemma PrintedText()
    ensures LineOf(TextEntry([], [[0x66], []])) == "text::Zg==,"
  {
    var text: JsString := [0x66];
    assert text[1..] == [] && Utf8(text) == "f";
    Base64Vectors();
    assert Items(TextEntry([], [text, []])) == ["Zg==", ""];
    JoinTwo("Zg==", "");
    hide Items, Join, Utf8, Base64Encode;
  }
}
