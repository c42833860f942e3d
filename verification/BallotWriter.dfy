/** The browser's printing of the answers: one line a question, padded and cut into chunks. */
module BallotWriter {
  import opened Wrappers
  import opened Sequences
  import opened Text
  import opened Configuration

  /** The answers to one question, under the identifier the browser knows. */
  datatype Entry =
    | SelectEntry(id: JsString, selected: seq<bool>)
    | RankEntry(id: JsString, order: seq<nat>)
    | TextEntry(id: JsString, texts: seq<JsString>)

  /** The three answer maps, each in insertion order. */
  datatype Answers = Answers(
    selects: seq<(JsString, seq<bool>)>, ranks: seq<(JsString, seq<nat>)>, texts: seq<(JsString, seq<JsString>)>)

  function SelectEntries(m: seq<(JsString, seq<bool>)>): (es: seq<Entry>)
    ensures |es| == |m|
  {
    seq(|m|, i requires 0 <= i < |m| => SelectEntry(m[i].0, m[i].1))
  }

  function RankEntries(m: seq<(JsString, seq<nat>)>): (es: seq<Entry>)
    ensures |es| == |m|
  {
    seq(|m|, i requires 0 <= i < |m| => RankEntry(m[i].0, m[i].1))
  }

  function TextEntries(m: seq<(JsString, seq<JsString>)>): (es: seq<Entry>)
    ensures |es| == |m|
  {
    seq(|m|, i requires 0 <= i < |m| => TextEntry(m[i].0, m[i].1))
  }

  /** Selects first, then ranks, then texts. */
  function Entries(a: Answers): (es: seq<Entry>) {
    SelectEntries(a.selects) + (RankEntries(a.ranks) + TextEntries(a.texts))
  }

  // ----- The position of every choice in a ranking

  /** The sparse array after the first n assignments position[order[i]] = i. */
  function Positions(order: seq<nat>, n: nat): (p: seq<Option<nat>>)
    requires n <= |order|
    ensures |p| >= |order|
  {
    if n == 0 then seq(|order|, _ => None)
    else
      var p, x := Positions(order, n - 1), order[n - 1];
      if x < |p| then p[x := Some(n - 1)] else p + seq(x - |p|, _ => None) + [Some(n - 1)]
  }

  /** `forEach` visits the filled slots only. */
  function Filled(p: seq<Option<nat>>): (items: seq<string>) {
    if p == [] then []
    else
      var front, last := Filled(p[..|p| - 1]), p[|p| - 1];
      if last.Some? then front + [Decimal(last.value)] else front
  }

  function Items(e: Entry): (items: seq<string>) {
    match e
    case SelectEntry(_, selected) => seq(|selected|, i requires 0 <= i < |selected| => if selected[i] then "1" else "0")
    case RankEntry(_, order) => Filled(Positions(order, |order|))
    case TextEntry(_, texts) => seq(|texts|, i requires 0 <= i < |texts| => Base64Encode(Utf8(texts[i])))
  }

  function Kind(e: Entry): (kind: string) {
    match e case SelectEntry(_, _) => "select" case RankEntry(_, _) => "rank" case TextEntry(_, _) => "text"
  }

  /** The line of one question. Without answers its second colon is lost. */
  function LineOf(e: Entry): (line: string) {
    Kind(e) + [':'] + Base64Encode(Utf8(e.id)) + (if Items(e) == [] then [] else [':'] + Join(Items(e), ','))
  }

  function Lines(es: seq<Entry>): (s: string) {
    if es == [] then [] else Lines(es[..|es| - 1]) + LineOf(es[|es| - 1]) + ['\n']
  }

  /** All lines and the blank one that ends the ballot. */
  function Encoded(a: Answers): (s: string) {
    Lines(Entries(a)) + ['\n']
  }

  function Padded(a: Answers, ballotSize: nat, uid: nat -> string): (s: string) {
    var s := Encoded(a);
    if |s| < ballotSize then s + uid(ballotSize - |s|) else s
  }

  function Concat(chunks: seq<string>): (s: string) {
    if chunks == [] then [] else Concat(chunks[..|chunks| - 1]) + chunks[|chunks| - 1]
  }

  // ----- The printed ballot is ASCII, so its characters are its bytes

  predicate IsAscii(s: string) {
    forall i :: 0 <= i < |s| ==> s[i] as int < 128
  }

  lemma {:induction false} Base64Ascii(s: string)
    requires IsBytes(s)
    ensures IsAscii(Base64Encode(s))
  {
    if |s| > 2 { Base64Ascii(s[3..]); }
  }

  lemma {:induction false} JoinAscii(items: seq<string>)
    requires forall i :: 0 <= i < |items| ==> IsAscii(items[i])
    ensures IsAscii(Join(items, ','))
  {
    if |items| > 1 { JoinAscii(items[1..]); }
  }

  lemma DigitsAscii(n: nat)
    ensures IsAscii(Decimal(n))
  {
    hide Decimal;
    forall i | 0 <= i < |Decimal(n)|
      ensures Decimal(n)[i] as int < 128
    {
      assert IsDigit(Decimal(n)[i]);
    }
  }

  lemma {:induction false} FilledAscii(p: seq<Option<nat>>)
    ensures forall i :: 0 <= i < |Filled(p)| ==> IsAscii(Filled(p)[i])
  {
    hide IsAscii, Decimal;
    if p != [] {
      FilledAscii(p[..|p| - 1]);
      if p[|p| - 1].Some? { DigitsAscii(p[|p| - 1].value); }
    }
  }

  lemma ItemsAscii(e: Entry)
    ensures forall i :: 0 <= i < |Items(e)| ==> IsAscii(Items(e)[i])
  {
    if e.RankEntry? { FilledAscii(Positions(e.order, |e.order|)); }
    if e.TextEntry? {
      forall i | 0 <= i < |e.texts|
        ensures IsAscii(Items(e)[i])
      {
        Base64Ascii(Utf8(e.texts[i]));
      }
    }
    hide Base64Encode, Utf8, Positions, Filled;
  }

  lemma AsciiAppend(s: string, t: string)
    requires IsAscii(s) && IsAscii(t)
    ensures IsAscii(s + t)
  {
  }

  lemma KindAscii(e: Entry)
    ensures IsAscii(Kind(e)) && IsAscii([':']) && IsAscii([])
  {
  }

  lemma LineAscii(e: Entry)
    ensures IsAscii(LineOf(e))
  {
    hide Items, Base64Encode, Utf8, Join, IsAscii, Kind;
    KindAscii(e);
    Base64Ascii(Utf8(e.id));
    ItemsAscii(e);
    JoinAscii(Items(e));
    AsciiAppend([':'], Join(Items(e), ','));
    AsciiAppend(Kind(e), [':']);
    AsciiAppend(Kind(e) + [':'], Base64Encode(Utf8(e.id)));
    AsciiAppend(Kind(e) + [':'] + Base64Encode(Utf8(e.id)), if Items(e) == [] then [] else [':'] + Join(Items(e), ','));
  }

  lemma {:induction false} LinesAscii(es: seq<Entry>)
    ensures IsAscii(Lines(es))
  {
    hide LineOf;
    if es != [] {
      LinesAscii(es[..|es| - 1]);
      LineAscii(es[|es| - 1]);
    }
  }

  // ----- voteEncode, step by step

  /** Every item followed by a comma. */
  function Terminated(items: seq<string>): (s: string) {
    if items == [] then [] else Terminated(items[..|items| - 1]) + items[|items| - 1] + [',']
  }

  lemma TerminatedStep(items: seq<string>, i: nat)
    requires i < |items|
    ensures Terminated(items[..i + 1]) == Terminated(items[..i]) + items[i] + [',']
  {
    assert items[..i + 1][..i] == items[..i];
  }

  lemma LinesStep(es: seq<Entry>, i: nat)
    requires i < |es|
    ensures Lines(es[..i + 1]) == Lines(es[..i]) + LineOf(es[i]) + ['\n']
  {
    assert es[..i + 1][..i] == es[..i];
  }

  lemma {:induction false} JoinLast(items: seq<string>, last: string, sep: char)
    requires items != []
    ensures Join(items + [last], sep) == Join(items, sep) + [sep] + last
  {
    var all := items + [last];
    if |items| == 1 {
      assert all[1..] == [last];
    } else {
      JoinLast(items[1..], last, sep);
      assert all[1..] == items[1..] + [last];
    }
  }

  lemma {:induction false} TerminatedIsJoin(items: seq<string>)
    requires items != []
    ensures Terminated(items) == Join(items, ',') + [',']
  {
    var front, last := items[..|items| - 1], items[|items| - 1];
    if front != [] {
      TerminatedIsJoin(front);
      JoinLast(front, last, ',');
      assert front + [last] == items;
    } else {
      assert items == [last];
    }
  }

  lemma TerminatedNothing()
    ensures Terminated([]) == []
  {
  }

  /** Dropping the last character of a printed line leaves the line. */
  lemma CutIsLine(e: Entry, raw: string)
    requires raw == Kind(e) + [':'] + Base64Encode(Utf8(e.id)) + [':'] + Terminated(Items(e))
    ensures |raw| >= 1 && raw[..|raw| - 1] == LineOf(e)
  {
    hide Items, Base64Encode, Utf8, Join, Terminated;
    if Items(e) == [] {
      TerminatedNothing();
    } else {
      TerminatedIsJoin(Items(e));
      assert raw == LineOf(e) + [','];
    }
  }

  method PrintSelections(encodedBallot: string, e: Entry) returns (r: string)
    requires e.SelectEntry?
    ensures r == encodedBallot + Terminated(Items(e))
  {
    r := encodedBallot;
    ghost var items := Items(e);
    for i := 0 to |e.selected|
      invariant r == encodedBallot + Terminated(items[..i])
    {
      TerminatedStep(items, i);
      r := r + (if e.selected[i] then "1" else "0") + [','];
    }
    assert items[..|items|] == items;
  }

  method PrintPositions(encodedBallot: string, e: Entry) returns (r: string)
    requires e.RankEntry?
    ensures r == encodedBallot + Terminated(Items(e))
  {
    var order := e.order;
    var position: seq<Option<nat>> := seq(|order|, _ => None);
    for i := 0 to |order|
      invariant position == Positions(order, i)
    {
      var x := order[i];
      position := if x < |position| then position[x := Some(i)]
          else position + seq(x - |position|, _ => None) + [Some(i)];
    }
    hide Decimal, Positions, Filled, Terminated;
    NothingFilled(position);
    r := encodedBallot;
    for i := 0 to |position|
      invariant r == encodedBallot + Terminated(Filled(position[..i]))
    {
      FilledStep(position, i);
      if position[i].Some? {
        r := r + Decimal(position[i].value) + [','];
      }
    }
    assert position[..|position|] == position;
  }

  lemma NothingFilled(position: seq<Option<nat>>)
    ensures Terminated(Filled(position[..0])) == []
  {
    assert position[..0] == [];
  }

  lemma FilledStep(position: seq<Option<nat>>, i: nat)
    requires i < |position|
    ensures Terminated(Filled(position[..i + 1]))
         == Terminated(Filled(position[..i])) + (if position[i].Some? then Decimal(position[i].value) + [','] else [])
  {
    hide Decimal;
    assert position[..i + 1][..i] == position[..i];
    if position[i].Some? {
      var front := Filled(position[..i]);
      assert (front + [Decimal(position[i].value)])[..|front|] == front;
    }
  }

  method PrintTexts(encodedBallot: string, e: Entry) returns (r: string)
    requires e.TextEntry?
    ensures r == encodedBallot + Terminated(Items(e))
  {
    hide Utf8, Base64Encode;
    r := encodedBallot;
    ghost var items := Items(e);
    for i := 0 to |e.texts|
      invariant r == encodedBallot + Terminated(items[..i])
    {
      TerminatedStep(items, i);
      var item := Base64Encode(Utf8(e.texts[i]));
      assert items[i] == item;
      r := r + item + [','];
    }
    assert items[..|items|] == items;
  }

  method EncodeEntry(e: Entry, encodedBallot: string) returns (r: string)
    ensures r == encodedBallot + LineOf(e) + ['\n']
  {
    hide Items, Base64Encode, Utf8, LineOf;
    r := encodedBallot + (Kind(e) + [':'] + Base64Encode(Utf8(e.id)) + [':']);
    match e {
      case SelectEntry(_, _) => r := PrintSelections(r, e);
      case RankEntry(_, _) => r := PrintPositions(r, e);
      case TextEntry(_, _) => r := PrintTexts(r, e);
    }
    ghost var raw := Kind(e) + [':'] + Base64Encode(Utf8(e.id)) + [':'] + Terminated(Items(e));
    CutIsLine(e, raw);
    assert r == encodedBallot + raw;
    assert r[..|r| - 1] == encodedBallot + raw[..|raw| - 1];
    r := r[..|r| - 1] + ['\n'];
  }

  method PrintEntries(entries: seq<Entry>) returns (encodedBallot: string)
    ensures encodedBallot == Lines(entries)
  {
    encodedBallot := "";
    for i := 0 to |entries|
      invariant encodedBallot == Lines(entries[..i])
    {
      LinesStep(entries, i);
      encodedBallot := EncodeEntry(entries[i], encodedBallot);
    }
    assert entries[..|entries|] == entries;
  }

  /** The string cut at every 29th character; trailing chunks are short or empty. */
  method Cut(s: string, count: nat) returns (chunks: seq<string>)
    requires |s| <= 29 * count
    ensures |chunks| == count && Concat(chunks) == s
    ensures forall i :: 0 <= i < count ==> |chunks[i]| <= 29
  {
    chunks := [];
    for i := 0 to count
      invariant |chunks| == i
      invariant Concat(chunks) == s[..Clamp(i * CHUNK_SIZE, s)]
      invariant forall j :: 0 <= j < i ==> |chunks[j]| <= CHUNK_SIZE
    {
      var start, end := Clamp(i * CHUNK_SIZE, s), Clamp(i * CHUNK_SIZE + CHUNK_SIZE, s);
      var chunk := s[start..end];
      assert (chunks + [chunk])[..i] == chunks;
      assert s[..end] == s[..start] + chunk;
      chunks := chunks + [chunk];
    }
    assert s[..|s|] == s;
  }

  /** The chunks of the padded ballot, or none when it does not fit. */
  method VoteEncode(a: Answers, ballotSize: nat, chunksPerBallot: nat, uid: nat -> string)
      returns (r: Option<seq<string>>)
    ensures r.Some? <==> |Padded(a, ballotSize, uid)| <= 29 * chunksPerBallot
    ensures r.Some? ==> && |r.value| == chunksPerBallot && Concat(r.value) == Padded(a, ballotSize, uid)
                        && forall i :: 0 <= i < |r.value| ==> |r.value[i]| <= 29
  {
    hide Lines;
    var encodedBallot := PrintEntries(Entries(a));
    encodedBallot := encodedBallot + ['\n'];
    if |encodedBallot| < ballotSize {
      encodedBallot := encodedBallot + uid(ballotSize - |encodedBallot|);
    }
    if |encodedBallot| > CHUNK_SIZE * chunksPerBallot { return None; }
    var chunks := Cut(encodedBallot, chunksPerBallot);
    return Some(chunks);
  }

  /** `substring` treats a bound past the end as the end. */
  function Clamp(n: nat, s: string): (m: nat)
    ensures m <= |s| && (n <= |s| ==> m == n)
  {
    if n <= |s| then n else |s|
  }

  // ----- Rankings

  /** The ranking with the item at `source` moved to `destination`. */
  function Moved(order: seq<nat>, source: nat, destination: nat): (r: seq<nat>)
    requires source < |order| && destination < |order|
  {
    var rest := order[..source] + order[source + 1..];
    rest[..destination] + [order[source]] + rest[destination..]
  }

  /** A drag that ends outside every list has no destination. */
  datatype Drag = Drag(source: nat, destination: Option<nat>)

  predicate Within(d: Drag, n: nat) {
    d.source < n && (d.destination.Some? ==> d.destination.value < n)
  }

  function Dragged(order: seq<nat>, d: Drag): (r: seq<nat>)
    requires Within(d, |order|)
  {
    if d.destination.None? then order else Moved(order, d.source, d.destination.value)
  }

  /** A move keeps the order of all other items, and keeps a ranking complete. */
  lemma MovedItem(order: seq<nat>, source: nat, destination: nat)
    requires source < |order| && destination < |order|
    ensures var r := Moved(order, source, destination);
            && |r| == |order| && r[destination] == order[source]
            && r[..destination] + r[destination + 1..] == order[..source] + order[source + 1..]
            && (IsPermutation(order) ==> IsPermutation(r))
  {
    var r, rest := Moved(order, source, destination), order[..source] + order[source + 1..];
    assert r[..destination] == rest[..destination] && r[destination + 1..] == rest[destination..];
    assert rest[..destination] + rest[destination..] == rest;
    RemoveAt(order, source);
    RemoveAt(r, destination);
  }

  /** Two splices on the answer: the item is taken out, then put in. */
  method HandleOnDragEnd(rankAnswer: seq<nat>, d: Drag) returns (r: seq<nat>)
    requires Within(d, |rankAnswer|)
    ensures r == Dragged(rankAnswer, d) && |r| == |rankAnswer|
    ensures d.destination.Some? ==>
              var to := d.destination.value;
              && r[to] == rankAnswer[d.source]
              && r[..to] + r[to + 1..] == rankAnswer[..d.source] + rankAnswer[d.source + 1..]
    ensures IsPermutation(rankAnswer) ==> IsPermutation(r)
  {
    if d.destination.None? { return rankAnswer; }
    var item := rankAnswer[d.source];
    r := rankAnswer[..d.source] + rankAnswer[d.source + 1..];
    r := r[..d.destination.value] + [item] + r[d.destination.value..];
    MovedItem(rankAnswer, d.source, d.destination.value);
  }

  /** The ranking after a sequence of drags, from the initial one. */
  function Ranking(n: nat, drags: seq<Drag>): (order: seq<nat>)
    requires forall i :: 0 <= i < |drags| ==> Within(drags[i], n)
    ensures |order| == n
  {
    if drags == [] then Range(n)
    else
      var order := Ranking(n, drags[..|drags| - 1]);
      MovedLength(order, drags[|drags| - 1]);
      Dragged(order, drags[|drags| - 1])
  }

  lemma MovedLength(order: seq<nat>, d: Drag)
    requires Within(d, |order|)
    ensures |Dragged(order, d)| == |order|
  {
  }

  /** Whatever the voter drags, the ranking stays complete, as the encoding needs it. */
  lemma {:induction false} DragsKeepRanking(n: nat, drags: seq<Drag>)
    requires forall i :: 0 <= i < |drags| ==> Within(drags[i], n)
    ensures IsPermutation(Ranking(n, drags))
  {
    if drags != [] {
      var front, last := drags[..|drags| - 1], drags[|drags| - 1];
      DragsKeepRanking(n, front);
      if last.destination.Some? {
        MovedItem(Ranking(n, front), last.source, last.destination.value);
      }
    }
  }
}
