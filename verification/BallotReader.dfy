/** The contract's reading of a decrypted ballot. */
module BallotReader {
  import opened Wrappers
  import opened Text
  import opened Configuration

  /** The answers of one ballot: for each kind, the question of every row and the rows. An unranked
      choice has rank -1. */
  datatype Results = Results(
    selectIDs: seq<ID>, selects: seq<seq<bool>>,
    rankIDs: seq<ID>, ranks: seq<seq<int>>,
    textIDs: seq<ID>, texts: seq<seq<ByteString>>)

  const NO_RESULTS := Results([], [], [], [], [], [])

  /** What reading leaves in the ballot, and whether it reported no error. */
  datatype Verdict = Verdict(ballot: Results, ok: bool)

  // ----- One row of answers

  function Trues(row: seq<bool>): (n: nat)
    ensures n <= |row|
  {
    if row == [] then 0 else Trues(row[..|row| - 1]) + (if row[|row| - 1] then 1 else 0)
  }

  function NonEmpty(answers: seq<string>): (n: nat)
    ensures n <= |answers|
  {
    if answers == [] then 0 else NonEmpty(answers[..|answers| - 1]) + (if answers[|answers| - 1] != "" then 1 else 0)
  }

  /** The accepted number of answers. */
  predicate InBounds(q: Question, n: nat) {
    q.minN <= n <= q.maxN
  }

  function SelectRow(q: Question, answers: seq<string>): (r: Option<seq<bool>>) {
    if |answers| != |q.choices| || exists i :: 0 <= i < |answers| && ParseBool(answers[i]).None? then None
    else
      var row := seq(|answers|, i requires 0 <= i < |answers| => ParseBool(answers[i]) == Some(true));
      if InBounds(q, Trues(row)) then Some(row) else None
  }

  /** A rank is blank or a number below both 128 and maxN. */
  function RankOf(answer: string, maxN: nat): (r: Option<int>) {
    if answer == "" then Some(-1)
    else match ParseInt8(answer)
      case Some(n) => if 0 <= n < maxN then Some(n) else None
      case None => None
  }

  function RankRow(q: Question, answers: seq<string>): (r: Option<seq<int>>) {
    if |answers| != |q.choices| || exists i :: 0 <= i < |answers| && RankOf(answers[i], q.maxN).None? then None
    else if !InBounds(q, NonEmpty(answers)) then None
    else Some(seq(|answers|, i requires 0 <= i < |answers| => RankOf(answers[i], q.maxN).value))
  }

  function TextRow(q: Question, answers: seq<string>): (r: Option<seq<ByteString>>) {
    if |answers| != |q.choices| || exists i :: 0 <= i < |answers| && Base64Decode(answers[i]).None? then None
    else if !InBounds(q, NonEmpty(answers)) then None
    else Some(seq(|answers|, i requires 0 <= i < |answers| => Base64Decode(answers[i]).value))
  }

  method UnmarshalSelect(q: Question, answers: seq<string>) returns (r: Option<seq<bool>>)
    ensures r == SelectRow(q, answers)
  {
    if |answers| != |q.choices| { return None; }
    var selected, row := 0, [];
    for i := 0 to |answers|
      invariant |row| == i && selected == Trues(row)
      invariant forall j :: 0 <= j < i ==> ParseBool(answers[j]) == Some(row[j])
    {
      var b := ParseBool(answers[i]);
      if b.None? { return None; }
      if b.value { selected := selected + 1; }
      assert (row + [b.value])[..i] == row;
      row := row + [b.value];
    }
    assert row == seq(|answers|, i requires 0 <= i < |answers| => ParseBool(answers[i]) == Some(true));
    return if InBounds(q, selected) then Some(row) else None;
  }

  method UnmarshalRank(q: Question, answers: seq<string>) returns (r: Option<seq<int>>)
    ensures r == RankRow(q, answers)
  {
    if |answers| != |q.choices| { return None; }
    var selected, row := 0, [];
    for i := 0 to |answers|
      invariant |row| == i && selected == NonEmpty(answers[..i])
      invariant forall j :: 0 <= j < i ==> RankOf(answers[j], q.maxN) == Some(row[j])
    {
      assert answers[..i + 1][..i] == answers[..i];
      if |answers[i]| == 0 {
        row := row + [-1];
      } else {
        selected := selected + 1;
        var rank := ParseInt8(answers[i]);
        if rank.None? { return None; }
        if rank.value < 0 || rank.value >= q.maxN { return None; }
        row := row + [rank.value];
      }
    }
    assert answers[..|answers|] == answers;
    assert row == seq(|answers|, i requires 0 <= i < |answers| => RankOf(answers[i], q.maxN).value);
    return if InBounds(q, selected) then Some(row) else None;
  }

  method UnmarshalText(q: Question, answers: seq<string>) returns (r: Option<seq<ByteString>>)
    ensures r == TextRow(q, answers)
  {
    if |answers| != |q.choices| { return None; }
    var selected, row: seq<ByteString> := 0, [];
    for i := 0 to |answers|
      invariant |row| == i && selected == NonEmpty(answers[..i])
      invariant forall j :: 0 <= j < i ==> Base64Decode(answers[j]) == Some(row[j])
    {
      assert answers[..i + 1][..i] == answers[..i];
      if |answers[i]| > 0 { selected := selected + 1; }
      var text := Base64Decode(answers[i]);
      if text.None? { return None; }
      row := row + [text.value];
    }
    assert answers[..|answers|] == answers;
    assert row == seq(|answers|, i requires 0 <= i < |answers| => Base64Decode(answers[i]).value);
    return if InBounds(q, selected) then Some(row) else None;
  }

  // ----- One line, and all of them

  datatype Line =
    | Invalid
    | UnreadableId
    | SelectLine(id: ID, bools: seq<bool>)
    | RankLine(id: ID, ranks: seq<int>)
    | TextLine(id: ID, texts: seq<ByteString>)

  predicate Readable(l: Line) { !l.Invalid? && !l.UnreadableId? }

  function ReadLine(c: Config, line: string): (l: Line) {
    var fields := Split(line, ':');
    if |fields| != 3 then Invalid
    else match Base64Decode(fields[1])
      case None => UnreadableId
      case Some(id) =>
        match GetQuestion(c, id)
        case None => Invalid
        case Some(q) => ReadAnswers(q, id, fields[0], Split(fields[2], ','))
  }

  function ReadAnswers(q: Question, id: ID, kind: string, answers: seq<string>): (l: Line) {
    if kind == "select" then
      match SelectRow(q, answers) case Some(row) => SelectLine(id, row) case None => Invalid
    else if kind == "rank" then
      match RankRow(q, answers) case Some(row) => RankLine(id, row) case None => Invalid
    else if kind == "text" then
      match TextRow(q, answers) case Some(row) => TextLine(id, row) case None => Invalid
    else Invalid
  }

  function Record(b: Results, l: Line): (r: Results)
    requires Readable(l)
  {
    match l
    case SelectLine(id, row) => b.(selectIDs := b.selectIDs + [id], selects := b.selects + [row])
    case RankLine(id, row) => b.(rankIDs := b.rankIDs + [id], ranks := b.ranks + [row])
    case TextLine(id, row) => b.(textIDs := b.textIDs + [id], texts := b.texts + [row])
  }

  /** Lines are read up to the first blank one; an error clears the ballot, except an identifier that
      is not Base64, which leaves the rows read so far. */
  function ReadLines(c: Config, lines: seq<string>, b: Results): (v: Verdict) {
    if lines == [] || lines[0] == "" then Verdict(b, true)
    else
      var l := ReadLine(c, lines[0]);
      if l.Invalid? then Verdict(NO_RESULTS, false)
      else if l.UnreadableId? then Verdict(b, false)
      else ReadLines(c, lines[1..], Record(b, l))
  }

  function Unmarshaled(c: Config, ballot: string): (v: Verdict) {
    ReadLines(c, Split(ballot, '\n'), NO_RESULTS)
  }

  class Ballot {
    var SelectResultIDs: seq<ID>
    var SelectResult: seq<seq<bool>>
    var RankResultIDs: seq<ID>
    var RankResult: seq<seq<int>>
    var TextResultIDs: seq<ID>
    var TextResult: seq<seq<ByteString>>

    constructor ()
      ensures Value() == NO_RESULTS
    {
      SelectResultIDs, SelectResult := [], [];
      RankResultIDs, RankResult := [], [];
      TextResultIDs, TextResult := [], [];
    }

    function Value(): (r: Results)
      reads this
    {
      Results(SelectResultIDs, SelectResult, RankResultIDs, RankResult, TextResultIDs, TextResult)
    }

    method Invalidate()
      modifies this
      ensures Value() == NO_RESULTS
    {
      RankResultIDs, RankResult := [], [];
      TextResultIDs, TextResult := [], [];
      SelectResultIDs, SelectResult := [], [];
    }

    /** Reads one non-blank line into the fields; `fatal` is the error report. */
    method UnmarshalLine(c: Config, line: string) returns (fatal: bool)
      modifies this
      ensures var l := ReadLine(c, line);
              && fatal == !Readable(l)
              && Value() == (if l.Invalid? then NO_RESULTS
                             else if l.UnreadableId? then old(Value())
                             else Record(old(Value()), l))
    {
      var question := Split(line, ':');
      if |question| != 3 { Invalidate(); return true; }
      var id := Base64Decode(question[1]);
      if id.None? { return true; }
      var q := GetQuestion(c, id.value);
      if q.None? { Invalidate(); return true; }
      var answers := Split(question[2], ',');
      if question[0] == "select" {
        var row := UnmarshalSelect(q.value, answers);
        if row.None? { Invalidate(); return true; }
        SelectResultIDs, SelectResult := SelectResultIDs + [id.value], SelectResult + [row.value];
      } else if question[0] == "rank" {
        var row := UnmarshalRank(q.value, answers);
        if row.None? { Invalidate(); return true; }
        RankResultIDs, RankResult := RankResultIDs + [id.value], RankResult + [row.value];
      } else if question[0] == "text" {
        var row := UnmarshalText(q.value, answers);
        if row.None? { Invalidate(); return true; }
        TextResultIDs, TextResult := TextResultIDs + [id.value], TextResult + [row.value];
      } else {
        Invalidate();
        return true;
      }
      return false;
    }

    method Unmarshal(marshalled: string, c: Config) returns (ok: bool)
      modifies this
      ensures Verdict(Value(), ok) == Unmarshaled(c, marshalled)
    {
      var lines := Split(marshalled, '\n');
      Invalidate();
      for i := 0 to |lines|
        invariant ReadLines(c, lines, NO_RESULTS) == ReadLines(c, lines[i..], Value())
      {
        assert lines[i..][0] == lines[i] && lines[i..][1..] == lines[i + 1..];
        if lines[i] == "" { break; }
        var fatal := UnmarshalLine(c, lines[i]);
        if fatal { return false; }
      }
      return true;
    }
  }

  // ----- Soundness of the parser, for every input

  predicate SelectSound(c: Config, id: ID, row: seq<bool>) {
    var q := GetQuestion(c, id);
    q.Some? && |row| == |q.value.choices| && q.value.minN <= Trues(row) <= q.value.maxN
  }

  function Ranked(row: seq<int>): (n: nat) {
    if row == [] then 0 else Ranked(row[..|row| - 1]) + (if row[|row| - 1] >= 0 then 1 else 0)
  }

  predicate RankSound(c: Config, id: ID, row: seq<int>) {
    var q := GetQuestion(c, id);
    && q.Some? && |row| == |q.value.choices| && q.value.minN <= Ranked(row) <= q.value.maxN
    && forall i :: 0 <= i < |row| ==> row[i] == -1 || (0 <= row[i] < q.value.maxN && row[i] < 128)
  }

  /** A row of texts has the right length and no more non-empty texts than allowed. */
  predicate TextSound(c: Config, id: ID, row: seq<ByteString>) {
    var q := GetQuestion(c, id);
    q.Some? && |row| == |q.value.choices| && NonEmpty(row) <= q.value.maxN
  }

  ghost predicate Sound(c: Config, b: Results) {
    && |b.selectIDs| == |b.selects| && |b.rankIDs| == |b.ranks| && |b.textIDs| == |b.texts|
    && (forall i :: 0 <= i < |b.selects| ==> SelectSound(c, b.selectIDs[i], b.selects[i]))
    && (forall i :: 0 <= i < |b.ranks| ==> RankSound(c, b.rankIDs[i], b.ranks[i]))
    && (forall i :: 0 <= i < |b.texts| ==> TextSound(c, b.textIDs[i], b.texts[i]))
  }

  lemma {:induction false} RankedCounts(answers: seq<string>, row: seq<int>, maxN: nat)
    requires |answers| == |row|
    requires forall i :: 0 <= i < |row| ==> RankOf(answers[i], maxN) == Some(row[i])
    ensures Ranked(row) == NonEmpty(answers)
  {
    if row != [] {
      RankedCounts(answers[..|row| - 1], row[..|row| - 1], maxN);
    }
  }

  /** Raw answers that are not empty but made of skipped line breaks only. */
  function Skipped(answers: seq<string>): (n: nat) {
    if answers == [] then 0
    else
      var last := answers[|answers| - 1];
      Skipped(answers[..|answers| - 1]) + (if last != "" && StripLineBreaks(last) == "" then 1 else 0)
  }

  /** The reader counts raw texts: exactly the skipped ones are counted but decode to nothing. */
  lemma {:induction false} DecodedCounts(answers: seq<string>, row: seq<ByteString>)
    requires |answers| == |row|
    requires forall i :: 0 <= i < |row| ==> Base64Decode(answers[i]) == Some(row[i])
    ensures NonEmpty(row) == NonEmpty(answers) - Skipped(answers)
  {
    if row != [] {
      DecodedCounts(answers[..|row| - 1], row[..|row| - 1]);
      DecodedEmpty(StripLineBreaks(answers[|row| - 1]));
    }
  }

  lemma DecodedEmpty(s: string)
    requires DecodeGroups(s).Some?
    ensures DecodeGroups(s).value == "" <==> s == ""
  {
  }

  /** An accepted text row can hold fewer than minN texts: exactly when its skipped answers make up
      the difference. */
  lemma TextMinimum(q: Question, answers: seq<string>)
    requires TextRow(q, answers).Some?
    ensures NonEmpty(TextRow(q, answers).value) >= q.minN <==> NonEmpty(answers) - Skipped(answers) >= q.minN
    ensures NonEmpty(TextRow(q, answers).value) <= q.maxN
  {
    DecodedCounts(answers, TextRow(q, answers).value);
  }

  /** One carriage return satisfies a question that asks for one text. */
  lemma CarriageReturnAnswers(id: ID, choice: string)
    ensures TextRow(Question(id, 1, 1, [choice], 10), ["\r"]) == Some([""])
  {
    var q, row := Question(id, 1, 1, [choice], 10), TextRow(Question(id, 1, 1, [choice], 10), ["\r"]);
    assert ["\r"][..0] == [];
    assert StripLineBreaks("\r") == "" by { assert "\r"[1..] == ""; }
    assert NonEmpty(["\r"]) == 1;
    assert row.Some? && row.value == [""];
  }

  lemma ReadLineSound(c: Config, line: string, b: Results)
    requires Sound(c, b) && Readable(ReadLine(c, line))
    ensures Sound(c, Record(b, ReadLine(c, line)))
  {
    hide Split, Base64Decode, ParseBool, ParseSigned, GetQuestion;
    var fields := Split(line, ':');
    var answers := Split(fields[2], ',');
    var q := GetQuestion(c, Base64Decode(fields[1]).value).value;
    match ReadLine(c, line)
    case SelectLine(id, row) =>
    case RankLine(id, row) => RankedCounts(answers, row, q.maxN);
    case TextLine(id, row) => DecodedCounts(answers, row);
  }

  /** How many rows the ballot holds. */
  function Rows(b: Results): (n: nat) {
    |b.selectIDs| + |b.rankIDs| + |b.textIDs|
  }

  /** On success the ballot is sound. On failure at line n, the ballot is empty, unless the fault is an
      identifier that is not Base64: then it still holds the sound rows of all n lines before. */
  lemma {:induction false} ReadLinesSound(c: Config, lines: seq<string>, b: Results) returns (n: nat)
    requires Sound(c, b)
    ensures n <= |lines|
    ensures forall i :: 0 <= i < n ==> lines[i] != "" && Readable(ReadLine(c, lines[i]))
    ensures var v := ReadLines(c, lines, b);
            if v.ok then Sound(c, v.ballot) && Rows(v.ballot) == Rows(b) + n && (n < |lines| ==> lines[n] == "")
            else && n < |lines| && lines[n] != ""
                 && (if ReadLine(c, lines[n]).Invalid? then v.ballot == NO_RESULTS
                     else && ReadLine(c, lines[n]).UnreadableId?
                          && Sound(c, v.ballot) && Rows(v.ballot) == Rows(b) + n)
  {
    n := 0;
    if lines != [] && lines[0] != "" && Readable(ReadLine(c, lines[0])) {
      ReadLineSound(c, lines[0], b);
      hide Sound;
      var m := ReadLinesSound(c, lines[1..], Record(b, ReadLine(c, lines[0])));
      n := m + 1;
    }
  }

  // ----- The number of texts of a whole ballot

  /** The raw answers of the text lines that are read, in order. */
  function RawTexts(c: Config, lines: seq<string>): (raw: seq<seq<string>>) {
    if lines == [] || lines[0] == "" || !Readable(ReadLine(c, lines[0])) then []
    else
      var row := if ReadLine(c, lines[0]).TextLine? then [Split(Split(lines[0], ':')[2], ',')] else [];
      row + RawTexts(c, lines[1..])
  }

  /** The row is what the raw answers decode to, and the raw answers are within the question's bounds. */
  predicate TextFrom(c: Config, id: ID, row: seq<ByteString>, raw: seq<string>) {
    var q := GetQuestion(c, id);
    && q.Some? && InBounds(q.value, NonEmpty(raw)) && Skipped(raw) <= NonEmpty(raw)
    && NonEmpty(row) == NonEmpty(raw) - Skipped(raw)
  }

  lemma TextLineFrom(c: Config, line: string)
    requires ReadLine(c, line).TextLine?
    ensures |Split(line, ':')| == 3
    ensures TextFrom(c, ReadLine(c, line).id, ReadLine(c, line).texts, Split(Split(line, ':')[2], ','))
  {
    hide Split, Base64Decode, GetQuestion;
    var fields := Split(line, ':');
    var answers := Split(fields[2], ',');
    DecodedCounts(answers, ReadLine(c, line).texts);
  }

  lemma {:induction false} TextRowsFrom(c: Config, lines: seq<string>, b: Results)
    requires |b.textIDs| == |b.texts| && ReadLines(c, lines, b).ok
    ensures var v, raw := ReadLines(c, lines, b).ballot, RawTexts(c, lines);
            && |v.textIDs| == |v.texts| == |b.texts| + |raw|
            && b.texts <= v.texts && b.textIDs <= v.textIDs
            && forall k :: 0 <= k < |raw| ==> TextFrom(c, v.textIDs[|b.texts| + k], v.texts[|b.texts| + k], raw[k])
  {
    hide ReadLine, TextFrom;
    if lines != [] && lines[0] != "" {
      var l := ReadLine(c, lines[0]);
      var next := Record(b, l);
      TextRowsFrom(c, lines[1..], next);
      if l.TextLine? {
        TextLineFrom(c, lines[0]);
        var v, raw := ReadLines(c, lines, b).ballot, RawTexts(c, lines);
        assert next.texts[|b.texts|] == l.texts && next.textIDs[|b.texts|] == l.id;
        forall k | 0 < k < |raw|
          ensures TextFrom(c, v.textIDs[|b.texts| + k], v.texts[|b.texts| + k], raw[k])
        {
          assert raw[k] == RawTexts(c, lines[1..])[k - 1];
        }
      }
    }
  }

  /** The texts of an accepted ballot: every row keeps to its question's maximum, and it meets the minimum
      exactly when the raw answers less the skipped ones do. Without skipped answers both bounds hold. */
  lemma TextBounds(c: Config, ballot: string)
    requires Unmarshaled(c, ballot).ok
    ensures var v, raw := Unmarshaled(c, ballot).ballot, RawTexts(c, Split(ballot, '\n'));
            && |v.textIDs| == |v.texts| == |raw|
            && forall k :: 0 <= k < |raw| ==>
                 var q := GetQuestion(c, v.textIDs[k]);
                 && q.Some? && NonEmpty(v.texts[k]) <= q.value.maxN
                 && (InBounds(q.value, NonEmpty(v.texts[k])) <==> NonEmpty(raw[k]) - Skipped(raw[k]) >= q.value.minN)
                 && (Skipped(raw[k]) == 0 ==> InBounds(q.value, NonEmpty(v.texts[k])))
  {
    hide GetQuestion, ReadLine, ReadLines, RawTexts, Split;
    TextRowsFrom(c, Split(ballot, '\n'), NO_RESULTS);
    var v, raw := Unmarshaled(c, ballot).ballot, RawTexts(c, Split(ballot, '\n'));
    forall k | 0 <= k < |raw|
      ensures TextFrom(c, v.textIDs[k], v.texts[k], raw[k])
    {
      assert v.texts[0 + k] == v.texts[k];
    }
  }

  lemma NoRows(b: Results)
    requires |b.selectIDs| == |b.selects| && |b.rankIDs| == |b.ranks| && |b.textIDs| == |b.texts|
    ensures b == NO_RESULTS <==> Rows(b) == 0
  {
  }

  /** For every string: on success the ballot is sound, and every row of texts without skipped answers keeps
      to both bounds of its question. On failure at line n the ballot is cleared exactly when that line is
      invalid or the first one; after an identifier that is not Base64 the rows of the lines before remain. */
  lemma ParserSound(c: Config, ballot: string) returns (n: nat)
    ensures var v, lines := Unmarshaled(c, ballot), Split(ballot, '\n');
            && n <= |lines|
            && (v.ok ==> Sound(c, v.ballot) && Rows(v.ballot) == n && |v.ballot.texts| == |RawTexts(c, lines)|)
            && (v.ok ==> forall k :: 0 <= k < |v.ballot.texts| && Skipped(RawTexts(c, lines)[k]) == 0 ==>
                  var q := GetQuestion(c, v.ballot.textIDs[k]);
                  q.Some? && InBounds(q.value, NonEmpty(v.ballot.texts[k])))
            && (!v.ok ==>
                  && n < |lines| && !Readable(ReadLine(c, lines[n])) && Sound(c, v.ballot)
                  && (v.ballot == NO_RESULTS <==> ReadLine(c, lines[n]).Invalid? || n == 0)
                  && (ReadLine(c, lines[n]).UnreadableId? ==> Rows(v.ballot) == n))
  {
    n := ReadLinesSound(c, Split(ballot, '\n'), NO_RESULTS);
    if Unmarshaled(c, ballot).ok {
      TextBounds(c, ballot);
    } else {
      NoRows(Unmarshaled(c, ballot).ballot);
    }
    hide GetQuestion, ReadLine, ReadLines, RawTexts, Split, Skipped, NonEmpty;
  }

  // ----- A whole ballot that holds less than it must

  lemma FieldsOf(kind: string, id: string, answers: string)
    requires ':' !in kind && ':' !in id && ':' !in answers
    ensures Split(kind + ":" + id + ":" + answers, ':') == [kind, id, answers]
  {
    SplitNone(answers, ':');
    SplitFirst(id, ':', answers);
    SplitFirst(kind, ':', id + [':'] + answers);
    hide Split;
    assert kind + ":" + id + ":" + answers == kind + [':'] + (id + [':'] + answers);
  }

  /** A form that asks for one text. */
  function OneText(): (c: Config) {
    Config([Subject("S", [], [], [], [], [Question("", 1, 1, ["c"], 10)])])
  }

  lemma OneTextFound()
    ensures GetQuestion(OneText(), "") == Some(Question("", 1, 1, ["c"], 10))
  {
    var ss := OneText().scaffold;
    assert FindInSubject(ss[0], "") == FindIn(ss[0].texts, "");
  }

  lemma EmptyDecodes()
    ensures Base64Decode("") == Some("")
  {
  }

  lemma CarriageReturnLine()
    ensures ReadLine(OneText(), "text::\r") == TextLine("", [""])
  {
    hide Split, Base64Decode, GetQuestion, TextRow, OneText;
    FieldsOf("text", "", "\r");
    assert "text" + ":" + "" + ":" + "\r" == "text::\r";
    SplitNone("\r", ',');
    OneTextFound();
    CarriageReturnAnswers("", "c");
    EmptyDecodes();
  }

  /** The ballot whose one line answers that question with a carriage return is accepted, with an empty
      text. */
  lemma CarriageReturnBallot()
    ensures Unmarshaled(OneText(), "text::\r") == Verdict(Results([], [], [], [], [""], [[""]]), true)
  {
    hide ReadLine, OneText, Split;
    CarriageReturnLine();
    SplitNone("text::\r", '\n');
    assert ["text::\r"][1..] == [];
  }

  // ----- The accepted lines, written out

  predicate SelectAnswer(answer: string) {
    answer in ["1", "t", "T", "true", "TRUE", "True", "0", "f", "F", "false", "FALSE", "False"]
  }

  /** A rank is blank or a number from 0 up, below MaxN and of a signed byte. */
  ghost predicate RankAnswer(answer: string, maxN: nat) {
    answer == "" || exists n :: 0 <= n < maxN && n <= 127 && ParseSigned(answer) == Some(n)
  }

  lemma RankAnswerIs(answer: string, maxN: nat)
    ensures RankOf(answer, maxN).Some? <==> RankAnswer(answer, maxN)
  {
    hide ParseSigned;
  }

  lemma SelectAnswerIs(answer: string)
    ensures ParseBool(answer).Some? <==> SelectAnswer(answer)
  {
  }

  /** How many of the answers count. */
  function Counted(kind: string, answers: seq<string>): (n: nat) {
    if answers == [] then 0
    else
      var last := answers[|answers| - 1];
      var counts := if kind == "select" then last in ["1", "t", "T", "true", "TRUE", "True"] else last != "";
      Counted(kind, answers[..|answers| - 1]) + (if counts then 1 else 0)
  }

  lemma {:induction false} CountedSelects(answers: seq<string>, row: seq<bool>)
    requires |row| == |answers| && forall i :: 0 <= i < |row| ==> row[i] == (ParseBool(answers[i]) == Some(true))
    ensures Trues(row) == Counted("select", answers)
  {
    if row != [] { CountedSelects(answers[..|row| - 1], row[..|row| - 1]); }
  }

  lemma {:induction false} CountedOthers(kind: string, answers: seq<string>)
    requires kind != "select"
    ensures NonEmpty(answers) == Counted(kind, answers)
  {
    if answers != [] { CountedOthers(kind, answers[..|answers| - 1]); }
  }

  /** The answers of one line fit the question: one for each choice, each of its kind, and as many that count as
      the question allows. */
  ghost predicate FitAnswers(q: Question, kind: string, answers: seq<string>) {
    && kind in ["select", "rank", "text"] && |answers| == |q.choices|
    && q.minN <= Counted(kind, answers) <= q.maxN
    && forall i :: 0 <= i < |answers| ==>
         if kind == "select" then SelectAnswer(answers[i])
         else if kind == "rank" then RankAnswer(answers[i], q.maxN)
         else Base64Decode(answers[i]).Some?
  }

  lemma FitSelects(q: Question, answers: seq<string>)
    ensures SelectRow(q, answers).Some? <==> FitAnswers(q, "select", answers)
  {
    forall i | 0 <= i < |answers|
      ensures ParseBool(answers[i]).Some? <==> SelectAnswer(answers[i])
    {
      SelectAnswerIs(answers[i]);
    }
    CountedSelects(answers, seq(|answers|, i requires 0 <= i < |answers| => ParseBool(answers[i]) == Some(true)));
    hide ParseBool, SelectAnswer, Counted, Trues;
  }

  lemma FitRanks(q: Question, answers: seq<string>)
    ensures RankRow(q, answers).Some? <==> FitAnswers(q, "rank", answers)
  {
    forall i | 0 <= i < |answers|
      ensures RankOf(answers[i], q.maxN).Some? <==> RankAnswer(answers[i], q.maxN)
    {
      RankAnswerIs(answers[i], q.maxN);
    }
    CountedOthers("rank", answers);
    hide RankOf, RankAnswer, Counted, NonEmpty;
  }

  lemma FitTexts(q: Question, answers: seq<string>)
    ensures TextRow(q, answers).Some? <==> FitAnswers(q, "text", answers)
  {
    CountedOthers("text", answers);
    hide Base64Decode, Counted, NonEmpty;
  }

  /** A line is read exactly when it has three fields, the second is the Base64 of a question's identifier, and
      the third holds fitting answers of the kind that the first names. */
  lemma ReadableExactly(c: Config, line: string)
    ensures Readable(ReadLine(c, line)) <==>
              var fields := Split(line, ':');
              && |fields| == 3 && Base64Decode(fields[1]).Some?
              && var q := GetQuestion(c, Base64Decode(fields[1]).value);
                 q.Some? && FitAnswers(q.value, fields[0], Split(fields[2], ','))
  {
    hide Split, Base64Decode, GetQuestion, SelectRow, RankRow, TextRow, FitAnswers;
    var fields := Split(line, ':');
    if |fields| == 3 && Base64Decode(fields[1]).Some? {
      var q, answers := GetQuestion(c, Base64Decode(fields[1]).value), Split(fields[2], ',');
      if q.Some? {
        FitSelects(q.value, answers);
        FitRanks(q.value, answers);
        FitTexts(q.value, answers);
        if fields[0] !in ["select", "rank", "text"] { OtherKind(q.value, fields[0], answers); }
      }
    }
  }

  lemma OtherKind(q: Question, kind: string, answers: seq<string>)
    requires kind !in ["select", "rank", "text"]
    ensures !FitAnswers(q, kind, answers)
  {
  }
}
