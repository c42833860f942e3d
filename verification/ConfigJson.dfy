/** The configuration between its JSON form and the browser's editing form. A choice is the object that
    its JSON string denotes, so the order of its languages does not matter. */
module ConfigJson {
  import opened Wrappers
  import opened Sequences

  // ----- JSON side

  datatype Hint = Hint(en: string, fr: string, de: string)

  datatype Choice = Choice(texts: map<string, string>, url: Option<string>)

  datatype QuestionObj = QuestionObj(
    id: string, title: string, maxN: nat, minN: nat, maxLength: nat, regex: string, hint: Option<Hint>,
        choices: seq<Choice>)

  datatype SubjectObj = SubjectObj(
    id: string, title: string, order: seq<string>,
    subjects: seq<SubjectObj>, ranks: seq<QuestionObj>, selects: seq<QuestionObj>, texts: seq<QuestionObj>)

  datatype ConfigObj = ConfigObj(title: string, scaffold: seq<SubjectObj>, additionalInfo: string)

  // ----- Editing side

  /** For every language its texts in order, and the links of the choices. */
  datatype ChoicesMap = ChoicesMap(texts: map<string, seq<string>>, urls: seq<Option<string>>)

  datatype Kind = RANK | SELECT | TEXT

  /** An element keeps the object it came from and adds what the editor needs. */
  datatype Element =
    | QuestionElement(kind: Kind, obj: QuestionObj, choicesMap: ChoicesMap)
    | SubjectElement(subject: SubjectObj, elements: seq<Element>)

  datatype Configuration = Configuration(title: string, scaffold: seq<Element>, additionalInfo: string)

  // ----- Choices

  /** The texts of one language, of the choices that have it. */
  function TextsIn(choices: seq<Choice>, lang: string): (texts: seq<string>)
    ensures |texts| <= |choices|
  {
    if choices == [] then []
    else
      var front, last := TextsIn(choices[..|choices| - 1], lang), choices[|choices| - 1];
      if lang in last.texts then front + [last.texts[lang]] else front
  }

  function Languages(choices: seq<Choice>): (langs: set<string>) {
    if choices == [] then {} else Languages(choices[..|choices| - 1]) + choices[|choices| - 1].texts.Keys
  }

  function ToChoicesMap(choices: seq<Choice>): (m: ChoicesMap) {
    ChoicesMap(map lang | lang in Languages(choices) :: TextsIn(choices, lang),
               seq(|choices|, i requires 0 <= i < |choices| => choices[i].url))
  }

  /** One rebuilt choice: the languages whose i-th text exists and is not empty. */
  function ChoiceAt(m: ChoicesMap, i: nat): (c: Choice)
  {
    Choice(map lang | lang in m.texts && i < |m.texts[lang]| && m.texts[lang][i] != "" :: m.texts[lang][i],
           if i < |m.urls| then m.urls[i] else None)
  }

  /** As many choices as English texts; without any English text the conversion throws. */
  function ToChoices(m: ChoicesMap): (r: Option<seq<Choice>>) {
    if "en" !in m.texts then None
    else Some(seq(|m.texts["en"]|, i requires 0 <= i < |m.texts["en"]| => ChoiceAt(m, i)))
  }

  /** One language's list after a choice that may have it. */
  function Extended(before: map<string, seq<string>>, choice: Choice, lang: string): (texts: seq<string>) {
    var texts := if lang in before then before[lang] else [];
    if lang in choice.texts then texts + [choice.texts[lang]] else texts
  }

  lemma ExtendedValue(before: map<string, seq<string>>, choice: Choice, lang: string, list: seq<string>)
    requires lang in choice.texts
    requires list == if lang in before then before[lang] + [choice.texts[lang]] else [choice.texts[lang]]
    ensures list == Extended(before, choice, lang)
  {
  }

  lemma Unextended(before: map<string, seq<string>>, choice: Choice, lang: string)
    requires lang in before && lang !in choice.texts
    ensures Extended(before, choice, lang) == before[lang]
  {
  }

  /** The texts of one more choice. */
  method PushAll(before: map<string, seq<string>>, choice: Choice) returns (texts: map<string, seq<string>>)
    ensures forall lang :: lang in texts <==> lang in before || lang in choice.texts
    ensures forall lang :: lang in texts ==> texts[lang] == Extended(before, choice, lang)
  {
    hide Extended;
    texts := before;
    forall lang | lang in texts && lang !in choice.texts
      ensures texts[lang] == Extended(before, choice, lang)
    {
      Unextended(before, choice, lang);
    }
    var langs := choice.texts.Keys;
    while langs != {}
      invariant langs <= choice.texts.Keys
      invariant forall lang :: lang in texts <==> lang in before || (lang in choice.texts && lang !in langs)
      invariant forall lang :: lang in texts && lang !in langs ==> texts[lang] == Extended(before, choice, lang)
      invariant forall lang :: lang in langs && lang in before ==> texts[lang] == before[lang]
      decreases |langs|
    {
      var lang :| lang in langs;
      var list := if lang in texts then texts[lang] + [choice.texts[lang]] else [choice.texts[lang]];
      ExtendedValue(before, choice, lang, list);
      texts := texts[lang := list];
      langs := langs - {lang};
    }
  }

  method ChoicesToChoicesMap(choices: seq<Choice>) returns (m: ChoicesMap)
    ensures m == ToChoicesMap(choices)
  {
    m := ChoicesMap(map[], []);
    for i := 0 to |choices|
      invariant m == ToChoicesMap(choices[..i])
    {
      var texts := PushAll(m.texts, choices[i]);
      MapStep(choices, i, m.texts, texts);
      m := ChoicesMap(texts, m.urls + [choices[i].url]);
    }
    assert choices[..|choices|] == choices;
  }

  lemma MapStep(choices: seq<Choice>, i: nat, before: map<string, seq<string>>, texts: map<string, seq<string>>)
    requires i < |choices| && before == ToChoicesMap(choices[..i]).texts
    requires forall lang :: lang in texts <==> lang in before || lang in choices[i].texts
    requires forall lang :: lang in texts ==> texts[lang] == Extended(before, choices[i], lang)
    ensures texts == ToChoicesMap(choices[..i + 1]).texts
    ensures ToChoicesMap(choices[..i + 1]).urls == ToChoicesMap(choices[..i]).urls + [choices[i].url]
  {
    assert choices[..i + 1][..i] == choices[..i];
    var after := ToChoicesMap(choices[..i + 1]).texts;
    assert after.Keys == texts.Keys;
    forall lang | lang in texts
      ensures texts[lang] == after[lang]
    {
      NewLanguage(choices[..i], lang);
    }
  }

  /** A language that no choice uses has no texts. */
  lemma {:induction false} NewLanguage(choices: seq<Choice>, lang: string)
    ensures lang !in Languages(choices) ==> TextsIn(choices, lang) == []
  {
    if choices != [] {
      NewLanguage(choices[..|choices| - 1], lang);
    }
  }

  method ChoicesMapToChoices(m: ChoicesMap) returns (r: Option<seq<Choice>>)
    ensures r == ToChoices(m)
  {
    if "en" !in m.texts { return None; }
    var choices: seq<Choice> := [];
    for i := 0 to |m.texts["en"]|
      invariant |choices| == i && forall k :: 0 <= k < i ==> choices[k] == ChoiceAt(m, k)
    {
      var texts: map<string, string>, langs := map[], m.texts.Keys;
      while langs != {}
        invariant langs <= m.texts.Keys
        invariant texts == map lang | lang in m.texts.Keys - langs && i < |m.texts[lang]| && m.texts[lang][i] != ""
                            :: m.texts[lang][i]
        decreases |langs|
      {
        var key :| key in langs;
        langs := langs - {key};
        // a missing text is undefined, and the JSON text leaves it out
        if i < |m.texts[key]| && m.texts[key][i] != "" {
          texts := texts[key := m.texts[key][i]];
        }
      }
      choices := choices + [Choice(texts, if i < |m.urls| then m.urls[i] else None)];
    }
    assert choices == ToChoices(m).value;
    return Some(choices);
  }

  // ----- When the choices survive

  /** There is a choice, every one has an English text, no text is empty, and a choice has only languages
      that all choices before it have. */
  ghost predicate Aligned(choices: seq<Choice>) {
    && choices != []
    && (forall i :: 0 <= i < |choices| ==> "en" in choices[i].texts)
    && (forall i, lang :: 0 <= i < |choices| && lang in choices[i].texts ==> choices[i].texts[lang] != "")
    && (forall i, j, lang :: 0 <= i < j < |choices| && lang in choices[j].texts ==> lang in choices[i].texts)
  }

  /** How many choices have the language. */
  lemma {:induction false} AlignedTexts(choices: seq<Choice>, lang: string)
    requires forall i, j :: 0 <= i < j < |choices| && lang in choices[j].texts ==> lang in choices[i].texts
    ensures forall i :: 0 <= i < |choices| ==>
              (i < |TextsIn(choices, lang)| <==> lang in choices[i].texts)
              && (i < |TextsIn(choices, lang)| ==> TextsIn(choices, lang)[i] == choices[i].texts[lang])
    ensures lang in Languages(choices) <==> choices != [] && lang in choices[0].texts
  {
    if choices != [] {
      var n := |choices| - 1;
      AlignedTexts(choices[..n], lang);
      if lang in choices[n].texts {
        FullTexts(choices[..n], lang);
      }
    }
  }

  lemma {:induction false} FullTexts(choices: seq<Choice>, lang: string)
    requires forall i :: 0 <= i < |choices| ==> lang in choices[i].texts
    ensures |TextsIn(choices, lang)| == |choices|
  {
    if choices != [] { FullTexts(choices[..|choices| - 1], lang); }
  }

  /** Aligned choices come back unchanged. */
  lemma ChoicesSurvive(choices: seq<Choice>)
    requires Aligned(choices)
    ensures ToChoices(ToChoicesMap(choices)) == Some(choices)
  {
    var m := ToChoicesMap(choices);
    AlignedTexts(choices, "en");
    FullTexts(choices, "en");
    forall i | 0 <= i < |choices|
      ensures ChoiceAt(m, i) == choices[i]
    {
      var texts := ChoiceAt(m, i).texts;
      forall lang
        ensures lang in texts <==> lang in choices[i].texts
        ensures lang in texts ==> texts[lang] == choices[i].texts[lang]
      {
        AlignedTexts(choices, lang);
      }
      assert texts == choices[i].texts;
    }
    assert ToChoices(m).Some? && ToChoices(m).value == choices;
  }

  /** Only aligned choices do. */
  lemma SurvivingAligned(choices: seq<Choice>)
    requires ToChoices(ToChoicesMap(choices)) == Some(choices)
    ensures Aligned(choices)
  {
    var m := ToChoicesMap(choices);
    assert forall i :: 0 <= i < |choices| ==> choices[i] == ChoiceAt(m, i);
    assert |TextsIn(choices, "en")| == |choices|;
    EnglishEverywhere(choices, "en");
    EnglishSomewhere(choices);
    forall i, j, lang | 0 <= i < j < |choices| && lang in choices[j].texts
      ensures lang in choices[i].texts
    {
      assert lang in m.texts && j < |m.texts[lang]|;
      if m.texts[lang][i] == "" {
        EmptyTextSource(choices, lang, i);
        assert false;
      }
    }
  }

  lemma EnglishSomewhere(choices: seq<Choice>)
    ensures "en" in Languages(choices) ==> choices != []
  {
  }

  lemma {:induction false} EnglishEverywhere(choices: seq<Choice>, lang: string)
    requires |TextsIn(choices, lang)| == |choices|
    ensures forall i :: 0 <= i < |choices| ==> lang in choices[i].texts
  {
    if choices != [] { EnglishEverywhere(choices[..|choices| - 1], lang); }
  }

  /** An empty text in a language's list comes from a choice with that empty text. */
  lemma {:induction false} EmptyTextSource(choices: seq<Choice>, lang: string, i: nat)
    requires i < |TextsIn(choices, lang)| && TextsIn(choices, lang)[i] == ""
    ensures exists k :: 0 <= k < |choices| && lang in choices[k].texts && choices[k].texts[lang] == ""
  {
    var n := |choices| - 1;
    if i < |TextsIn(choices[..n], lang)| {
      EmptyTextSource(choices[..n], lang, i);
      var k :| 0 <= k < n && lang in choices[..n][k].texts && choices[..n][k].texts[lang] == "";
      assert choices[k] == choices[..n][k];
    }
  }

  // ----- An insertion-ordered map

  function IdOf(e: Element): (id: string) {
    match e case QuestionElement(_, obj, _) => obj.id case SubjectElement(subject, _) => subject.id
  }

  /** `Map.set` under the element's own identifier: replaces in place or appends. */
  function Put(m: seq<Element>, e: Element): (r: seq<Element>) {
    if m == [] then [e]
    else if IdOf(m[0]) == IdOf(e) then [e] + m[1..]
    else [m[0]] + Put(m[1..], e)
  }

  function PutAll(m: seq<Element>, entries: seq<Element>): (r: seq<Element>) {
    if entries == [] then m
    else
      Put(PutAll(m, entries[..|entries| - 1]), entries[|entries| - 1])
  }

  function Ids(entries: seq<Element>): (ids: seq<string>)
    ensures |ids| == |entries|
  {
    seq(|entries|, i requires 0 <= i < |entries| => IdOf(entries[i]))
  }

  lemma {:induction false} PutFresh(m: seq<Element>, e: Element)
    requires IdOf(e) !in Ids(m)
    ensures Put(m, e) == m + [e]
  {
    if m != [] {
      assert Ids(m)[0] == IdOf(m[0]);
      assert Ids(m) == [IdOf(m[0])] + Ids(m[1..]);
      PutFresh(m[1..], e);
    }
  }

  /** Without duplicate identifiers the map is the list of insertions. */
  lemma {:induction false} PutAllDistinct(entries: seq<Element>)
    requires Distinct(Ids(entries))
    ensures PutAll([], entries) == entries
  {
    if entries != [] {
      var n := |entries| - 1;
      var front, last := entries[..n], entries[n];
      assert Ids(entries) == Ids(front) + [IdOf(last)];
      DistinctAppend(Ids(front), [IdOf(last)]);
      assert IdOf(last) in Elements([IdOf(last)]);
      PutAllDistinct(front);
      PutFresh(front, last);
    }
  }

  /** An entry replaces the one of its identifier where that is, or goes to the end. */
  lemma {:induction false} PutMeans(m: seq<Element>, e: Element)
    requires Distinct(Ids(m))
    ensures Ids(Put(m, e)) == if IdOf(e) in Ids(m) then Ids(m) else Ids(m) + [IdOf(e)]
    ensures forall i :: 0 <= i < |m| ==> Put(m, e)[i] == if IdOf(m[i]) == IdOf(e) then e else m[i]
    ensures |Put(m, e)| > |m| ==> Put(m, e)[|m|] == e
  {
    if m != [] {
      hide IdOf, Distinct;
      IdsHead(m);
      DistinctHead(Ids(m));
      if IdOf(m[0]) == IdOf(e) {
        IdsHead([e] + m[1..]);
        forall i | 1 <= i < |m|
          ensures IdOf(m[i]) != IdOf(e)
        {
          assert Ids(m[1..])[i - 1] == IdOf(m[i]);
        }
      } else {
        PutMeans(m[1..], e);
        IdsHead([m[0]] + Put(m[1..], e));
      }
    }
  }

  lemma IdsHead(m: seq<Element>)
    requires m != []
    ensures Ids(m) == [IdOf(m[0])] + Ids(m[1..])
    ensures Ids(m)[1..] == Ids(m[1..])
  {
    hide IdOf;
  }

  /** The entry at i is the last one with its identifier. */
  ghost predicate LastWithId(entries: seq<Element>, i: nat) {
    i < |entries| && forall j :: i < j < |entries| ==> IdOf(entries[j]) != IdOf(entries[i])
  }

  ghost predicate InsertedLast(entries: seq<Element>, e: Element) {
    exists i :: 0 <= i < |entries| && LastWithId(entries, i) && entries[i] == e
  }

  /** After any insertions every identifier is there once, with what was inserted last under it. */
  lemma {:induction false} LastInsertionWins(entries: seq<Element>)
    ensures Distinct(Ids(PutAll([], entries)))
    ensures forall e :: e in PutAll([], entries) <==> InsertedLast(entries, e)
  {
    hide Put, IdOf, Distinct, InsertedLast;
    if entries == [] {
      NothingInserted();
    } else {
      var n := |entries| - 1;
      var m, last := PutAll([], entries[..n]), entries[n];
      LastInsertionWins(entries[..n]);
      PutMeans(m, last);
      if IdOf(last) !in Ids(m) {
        DistinctMore(Ids(m), IdOf(last));
      }
      forall e
        ensures e in Put(m, last) <==> InsertedLast(entries, e)
      {
        PutMembers(m, last, e);
        LastAmong(entries, e);
      }
    }
  }

  lemma DistinctMore(ids: seq<string>, id: string)
    requires Distinct(ids) && id !in ids
    ensures Distinct(ids + [id])
  {
  }

  lemma NothingInserted()
    ensures Distinct(Ids([])) && forall e :: !InsertedLast([], e)
  {
  }

  lemma PutMembers(m: seq<Element>, last: Element, e: Element)
    requires Distinct(Ids(m))
    ensures e in Put(m, last) <==> e == last || (e in m && IdOf(e) != IdOf(last))
  {
    PutMeans(m, last);
    var r := Put(m, last);
    hide Put, Distinct, IdOf;
    assert |r| == |Ids(r)| && |m| == |Ids(m)|;
    if e in r {
      var i :| 0 <= i < |r| && r[i] == e;
      assert i < |m| ==> r[i] == if IdOf(m[i]) == IdOf(last) then last else m[i];
    }
    if IdOf(last) in Ids(m) {
      var i :| 0 <= i < |Ids(m)| && Ids(m)[i] == IdOf(last);
      assert r[i] == last;
    } else {
      assert r[|m|] == last;
    }
    if e in m && IdOf(e) != IdOf(last) {
      var i :| 0 <= i < |m| && m[i] == e;
      assert r[i] == e;
    }
  }

  lemma LastAmong(entries: seq<Element>, e: Element)
    requires entries != []
    ensures var front, last := entries[..|entries| - 1], entries[|entries| - 1];
            InsertedLast(entries, e) <==> e == last || (InsertedLast(front, e) && IdOf(e) != IdOf(last))
  {
    hide IdOf, LastWithId;
    var n := |entries| - 1;
    LastIsLast(entries, n);
    if InsertedLast(entries, e) && e != entries[n] {
      var i :| 0 <= i < |entries| && LastWithId(entries, i) && entries[i] == e;
      LastIsLast(entries, i);
      assert entries[..n][i] == e;
    }
    if InsertedLast(entries[..n], e) && IdOf(e) != IdOf(entries[n]) {
      var i :| 0 <= i < n && LastWithId(entries[..n], i) && entries[..n][i] == e;
      LastIsLast(entries, i);
      assert entries[i] == e;
    }
  }

  lemma LastIsLast(entries: seq<Element>, i: nat)
    requires entries != []
    ensures var n := |entries| - 1;
            LastWithId(entries, i) <==>
              i == n || (LastWithId(entries[..n], i) && IdOf(entries[i]) != IdOf(entries[n]))
  {
    hide IdOf;
  }

  // ----- From JSON to the editor

  function FillHint(q: QuestionObj): (r: QuestionObj) {
    if q.hint.None? then q.(hint := Some(Hint("", "", ""))) else q
  }

  function UnmarshalQuestion(kind: Kind, q: QuestionObj): (e: Element) {
    QuestionElement(kind, FillHint(q), ToChoicesMap(q.choices))
  }

  function QuestionEntries(kind: Kind, qs: seq<QuestionObj>): (entries: seq<Element>)
    ensures |entries| == |qs|
  {
    seq(|qs|, i requires 0 <= i < |qs| => UnmarshalQuestion(kind, qs[i]))
  }

  function SubjectEntries(ss: seq<SubjectObj>): (entries: seq<Element>)
    decreases ss, 0
  {
    if ss == [] then []
    else SubjectEntries(ss[..|ss| - 1]) + [UnmarshalSubject(ss[|ss| - 1])]
  }

  /** All insertions for one subject, in the order of the code. */
  function Entries(s: SubjectObj): (entries: seq<Element>)
    decreases s, 0
  {
    SubjectEntries(s.subjects) + QuestionEntries(RANK, s.ranks) + QuestionEntries(TEXT, s.texts)
        + QuestionEntries(SELECT, s.selects)
  }

  function UnmarshalSubject(s: SubjectObj): (e: Element)
    ensures e.SubjectElement?
    decreases s, 1
  {
    SubjectElement(s, PutAll([], Entries(s)))
  }

  lemma {:induction false} PutAllAppend(m: seq<Element>, a: seq<Element>, b: seq<Element>)
    ensures PutAll(m, a + b) == PutAll(PutAll(m, a), b)
  {
    if b == [] {
      assert a + b == a;
    } else {
      PutAllAppend(m, a, b[..|b| - 1]);
      assert (a + b)[..|a + b| - 1] == a + b[..|b| - 1];
    }
  }

  lemma PutAllStep(m: seq<Element>, entries: seq<Element>, i: nat)
    requires i < |entries|
    ensures PutAll(m, entries[..i + 1]) == Put(PutAll(m, entries[..i]), entries[i])
  {
    assert entries[..i + 1][..i] == entries[..i];
  }

  /** Inserts the questions of one kind. */
  method PutQuestions(m: seq<Element>, kind: Kind, qs: seq<QuestionObj>) returns (elements: seq<Element>)
    ensures elements == PutAll(m, QuestionEntries(kind, qs))
  {
    elements := m;
    ghost var entries := QuestionEntries(kind, qs);
    for i := 0 to |qs|
      invariant elements == PutAll(m, entries[..i])
    {
      PutAllStep(m, entries, i);
      var choicesMap := ChoicesToChoicesMap(qs[i].choices);
      elements := Put(elements, QuestionElement(kind, FillHint(qs[i]), choicesMap));
    }
    assert entries[..|qs|] == entries;
  }

  method ReadSubject(s: SubjectObj) returns (e: Element)
    ensures e == UnmarshalSubject(s)
    decreases s
  {
    hide Put, QuestionEntries;
    var elements: seq<Element> := [];
    for i := 0 to |s.subjects|
      invariant elements == PutAll([], SubjectEntries(s.subjects[..i]))
    {
      var subSubject := ReadSubject(s.subjects[i]);
      SubjectEntriesStep(s.subjects, i);
      elements := Put(elements, subSubject);
    }
    assert s.subjects[..|s.subjects|] == s.subjects;
    ghost var first, ranks, texts :=
        SubjectEntries(s.subjects), QuestionEntries(RANK, s.ranks), QuestionEntries(TEXT, s.texts);
    elements := PutQuestions(elements, RANK, s.ranks);
    PutAllAppend([], first, ranks);
    elements := PutQuestions(elements, TEXT, s.texts);
    PutAllAppend([], first + ranks, texts);
    elements := PutQuestions(elements, SELECT, s.selects);
    PutAllAppend([], first + ranks + texts, QuestionEntries(SELECT, s.selects));
    e := SubjectElement(s, elements);
  }

  lemma {:induction false} SubjectEntryAt(ss: seq<SubjectObj>, i: nat)
    requires i < |ss|
    ensures |SubjectEntries(ss)| == |ss| && SubjectEntries(ss)[i] == UnmarshalSubject(ss[i])
  {
    if i < |ss| - 1 {
      SubjectEntryAt(ss[..|ss| - 1], i);
    } else if |ss| > 1 {
      SubjectEntryAt(ss[..|ss| - 1], 0);
    }
  }

  /** Without duplicate identifiers a subject has its sub-subjects, rankings, texts and selections as elements,
      in this order, each with the object it came from. */
  lemma ElementOrder(s: SubjectObj, i: nat)
    requires Distinct(Ids(Entries(s)))
    ensures var elements, r := UnmarshalSubject(s).elements, |s.subjects|;
            var t := r + |s.ranks|;
            var u := t + |s.texts|;
            && |elements| == u + |s.selects|
            && (i < r ==> elements[i].SubjectElement? && elements[i].subject == s.subjects[i])
            && (i < |s.ranks| ==> FromQuestion(elements[r + i], RANK, s.ranks[i]))
            && (i < |s.texts| ==> FromQuestion(elements[t + i], TEXT, s.texts[i]))
            && (i < |s.selects| ==> FromQuestion(elements[u + i], SELECT, s.selects[i]))
  {
    hide *;
    ElementsAre(s);
    SubjectEntryFrom(s.subjects, i);
    EntryFrom(RANK, s.ranks, i);
    EntryFrom(TEXT, s.texts, i);
    EntryFrom(SELECT, s.selects, i);
    JoinedFour(SubjectEntries(s.subjects), QuestionEntries(RANK, s.ranks), QuestionEntries(TEXT, s.texts),
        QuestionEntries(SELECT, s.selects), i);
  }

  lemma ElementsAre(s: SubjectObj)
    requires Distinct(Ids(Entries(s)))
    ensures UnmarshalSubject(s).elements
         == SubjectEntries(s.subjects) + QuestionEntries(RANK, s.ranks) + QuestionEntries(TEXT, s.texts)
            + QuestionEntries(SELECT, s.selects)
  {
    PutAllDistinct(Entries(s));
    hide PutAll, Distinct, QuestionEntries, SubjectEntries;
  }

  lemma SubjectEntryFrom(ss: seq<SubjectObj>, i: nat)
    ensures |SubjectEntries(ss)| == |ss|
    ensures i < |ss| ==> SubjectEntries(ss)[i].SubjectElement? && SubjectEntries(ss)[i].subject == ss[i]
  {
    if ss != [] {
      SubjectEntryAt(ss, if i < |ss| then i else 0);
    }
  }

  lemma JoinedFour<T>(a: seq<T>, b: seq<T>, c: seq<T>, d: seq<T>, i: nat)
    ensures var all := a + b + c + d;
            && |all| == |a| + |b| + |c| + |d|
            && (i < |a| ==> all[i] == a[i]) && (i < |b| ==> all[|a| + i] == b[i])
            && (i < |c| ==> all[|a| + |b| + i] == c[i]) && (i < |d| ==> all[|a| + |b| + |c| + i] == d[i])
  {
  }

  /** The element holds the question, with its hint filled in and its choices by language. */
  predicate FromQuestion(e: Element, kind: Kind, q: QuestionObj) {
    e == QuestionElement(kind, FillHint(q), ToChoicesMap(q.choices))
  }

  lemma EntryFrom(kind: Kind, qs: seq<QuestionObj>, i: nat)
    ensures i < |qs| ==> FromQuestion(QuestionEntries(kind, qs)[i], kind, qs[i])
  {
    hide FillHint, ToChoicesMap;
  }

  lemma SubjectEntriesStep(ss: seq<SubjectObj>, i: nat)
    requires i < |ss|
    ensures PutAll([], SubjectEntries(ss[..i + 1])) == Put(PutAll([], SubjectEntries(ss[..i])), UnmarshalSubject(ss[i]))
  {
    assert ss[..i + 1][..i] == ss[..i];
    var entries := SubjectEntries(ss[..i + 1]);
    assert entries[..|entries| - 1] == SubjectEntries(ss[..i]);
  }

  // ----- From the editor to JSON

  function MarshalQuestion(q: QuestionObj, m: ChoicesMap): (r: Option<QuestionObj>) {
    match ToChoices(m)
    case Some(choices) => Some(q.(choices := choices))
    case None => None
  }

  /** The questions of one kind, in the order of the map. */
  function QuestionsOf(kind: Kind, entries: seq<Element>): (r: Option<seq<QuestionObj>>) {
    if entries == [] then Some([])
    else
      var front, e := QuestionsOf(kind, entries[..|entries| - 1]), entries[|entries| - 1];
      if !e.QuestionElement? || e.kind != kind then front
      else
        var q := MarshalQuestion(e.obj, e.choicesMap);
        if front.None? || q.None? then None else Some(front.value + [q.value])
  }

  function SubjectsOf(entries: seq<Element>): (r: Option<seq<SubjectObj>>)
    decreases entries, 0
  {
    if entries == [] then Some([])
    else
      var front, e := SubjectsOf(entries[..|entries| - 1]), entries[|entries| - 1];
      if !e.SubjectElement? then front
      else
        var s := MarshalSubject(e);
        if front.None? || s.None? then None else Some(front.value + [s.value])
  }

  function MarshalSubject(e: Element): (r: Option<SubjectObj>)
    requires e.SubjectElement?
    decreases e, 1
  {
    var ranks, selects := QuestionsOf(RANK, e.elements), QuestionsOf(SELECT, e.elements);
    var texts, subjects := QuestionsOf(TEXT, e.elements), SubjectsOf(e.elements);
    if ranks.None? || selects.None? || texts.None? || subjects.None? then None
    else Some(e.subject.(ranks := ranks.value, selects := selects.value, texts := texts.value,
                           subjects := subjects.value))
  }

  /** The elements sorted by kind, each converted, and the subject rebuilt from them. */
  method WriteSubject(e: Element) returns (r: Option<SubjectObj>)
    requires e.SubjectElement?
    ensures r == MarshalSubject(e)
    decreases e
  {
    var entries := e.elements;
    var ranks, selects, texts: seq<QuestionObj>, subjects: seq<SubjectObj>, failed := [], [], [], [], false;
    for i := 0 to |entries|
      invariant failed <==> QuestionsOf(RANK, entries[..i]).None? || QuestionsOf(SELECT, entries[..i]).None?
                            || QuestionsOf(TEXT, entries[..i]).None? || SubjectsOf(entries[..i]).None?
      invariant !failed ==>
                && Some(ranks) == QuestionsOf(RANK, entries[..i]) && Some(selects) == QuestionsOf(SELECT, entries[..i])
                            && Some(texts) == QuestionsOf(TEXT, entries[..i])
                                && Some(subjects) == SubjectsOf(entries[..i])
    {
      hide ToChoices, MarshalSubject;
      assert entries[..i + 1][..i] == entries[..i];
      match entries[i] {
        case QuestionElement(kind, obj, choicesMap) =>
          var choices := ChoicesMapToChoices(choicesMap);
          if choices.None? {
            failed := true;
          } else {
            var q := obj.(choices := choices.value);
            match kind {
              case RANK => ranks := ranks + [q];
              case SELECT => selects := selects + [q];
              case TEXT => texts := texts + [q];
            }
          }
        case SubjectElement(_, _) =>
          var s := WriteSubject(entries[i]);
          if s.None? {
            failed := true;
          } else {
            subjects := subjects + [s.value];
          }
      }
    }
    assert entries[..|entries|] == entries;
    if failed { return None; }
    return Some(e.subject.(ranks := ranks, selects := selects, texts := texts, subjects := subjects));
  }

  // ----- Round trip

  function FillHints(qs: seq<QuestionObj>): (r: seq<QuestionObj>)
    ensures |r| == |qs|
  {
    seq(|qs|, i requires 0 <= i < |qs| => FillHint(qs[i]))
  }

  /** The subject with every missing hint filled in. */
  function WithHints(s: SubjectObj): (r: SubjectObj)
    decreases s, 1
  {
    s.(ranks := FillHints(s.ranks), selects := FillHints(s.selects), texts := FillHints(s.texts),
       subjects := AllWithHints(s.subjects))
  }

  function AllWithHints(ss: seq<SubjectObj>): (r: seq<SubjectObj>)
    decreases ss, 0
  {
    if ss == [] then [] else AllWithHints(ss[..|ss| - 1]) + [WithHints(ss[|ss| - 1])]
  }

  ghost predicate AllAligned(qs: seq<QuestionObj>) {
    forall i :: 0 <= i < |qs| ==> Aligned(qs[i].choices)
  }

  /** Identifiers are unique within each subject, and all choices are aligned, at every depth. */
  ghost predicate WellFormed(s: SubjectObj)
    decreases s, 1
  {
    && Distinct(Ids(Entries(s)))
    && AllAligned(s.ranks) && AllAligned(s.selects) && AllAligned(s.texts)
    && AllWellFormed(s.subjects)
  }

  ghost predicate AllWellFormed(ss: seq<SubjectObj>)
    decreases ss, 0
  {
    ss != [] ==> AllWellFormed(ss[..|ss| - 1]) && WellFormed(ss[|ss| - 1])
  }

  lemma {:induction false} QuestionsOfAppend(kind: Kind, a: seq<Element>, b: seq<Element>)
    ensures var x, y := QuestionsOf(kind, a), QuestionsOf(kind, b);
            QuestionsOf(kind, a + b) == if x.None? || y.None? then None else Some(x.value + y.value)
  {
    hide MarshalQuestion;
    if b == [] {
      assert a + b == a;
      assert forall u: seq<QuestionObj> :: u + [] == u;
    } else {
      QuestionsOfAppend(kind, a, b[..|b| - 1]);
      assert (a + b)[..|a + b| - 1] == a + b[..|b| - 1];
      var x, y, last := QuestionsOf(kind, a), QuestionsOf(kind, b[..|b| - 1]), QuestionsOf(kind, b);
      if x.Some? && y.Some? && last.Some? && last != y {
        var q := last.value[|y.value|];
        assert x.value + (y.value + [q]) == x.value + y.value + [q];
      }
    }
  }

  lemma {:induction false} SubjectsOfAppend(a: seq<Element>, b: seq<Element>)
    ensures var x, y := SubjectsOf(a), SubjectsOf(b);
            SubjectsOf(a + b) == if x.None? || y.None? then None else Some(x.value + y.value)
  {
    hide MarshalSubject;
    if b == [] {
      assert a + b == a;
      assert forall u: seq<SubjectObj> :: u + [] == u;
    } else {
      SubjectsOfAppend(a, b[..|b| - 1]);
      assert (a + b)[..|a + b| - 1] == a + b[..|b| - 1];
      var x, y, last := SubjectsOf(a), SubjectsOf(b[..|b| - 1]), SubjectsOf(b);
      if x.Some? && y.Some? && last.Some? && last != y {
        var q := last.value[|y.value|];
        assert x.value + (y.value + [q]) == x.value + y.value + [q];
      }
    }
  }

  lemma {:induction false} NoQuestions(kind: Kind, qs: seq<QuestionObj>, other: Kind)
    ensures kind != other ==> QuestionsOf(other, QuestionEntries(kind, qs)) == Some([])
    ensures SubjectsOf(QuestionEntries(kind, qs)) == Some([])
  {
    hide ToChoicesMap, MarshalQuestion;
    if qs != [] {
      var n := |qs| - 1;
      assert QuestionEntries(kind, qs)[..n] == QuestionEntries(kind, qs[..n]);
      NoQuestions(kind, qs[..n], other);
    }
  }

  lemma {:induction false} NoQuestionsInSubjects(ss: seq<SubjectObj>, kind: Kind)
    ensures QuestionsOf(kind, SubjectEntries(ss)) == Some([])
  {
    hide UnmarshalSubject;
    if ss != [] {
      var n, entries := |ss| - 1, SubjectEntries(ss);
      NoQuestionsInSubjects(ss[..n], kind);
      assert entries[..|entries| - 1] == SubjectEntries(ss[..n]);
    }
  }

  function Own(s: SubjectObj, kind: Kind): (qs: seq<QuestionObj>) {
    match kind case RANK => s.ranks case SELECT => s.selects case TEXT => s.texts
  }

  /** Each kind of question comes from the subject's own list of that kind, and the subjects from its
      subjects. */
  lemma KindOnly(s: SubjectObj, kind: Kind)
    ensures QuestionsOf(kind, Entries(s)) == QuestionsOf(kind, QuestionEntries(kind, Own(s, kind)))
    ensures SubjectsOf(Entries(s)) == SubjectsOf(SubjectEntries(s.subjects))
  {
    hide QuestionsOf, SubjectsOf, QuestionEntries, SubjectEntries;
    var a, b, c, d := SubjectEntries(s.subjects), QuestionEntries(RANK, s.ranks), QuestionEntries(TEXT, s.texts),
        QuestionEntries(SELECT, s.selects);
    NoQuestionsInSubjects(s.subjects, kind);
    NoQuestions(RANK, s.ranks, kind);
    NoQuestions(TEXT, s.texts, kind);
    NoQuestions(SELECT, s.selects, kind);
    QuestionsOfAppend(kind, a, b);
    QuestionsOfAppend(kind, a + b, c);
    QuestionsOfAppend(kind, a + b + c, d);
    SubjectsOfAppend(a, b);
    SubjectsOfAppend(a + b, c);
    SubjectsOfAppend(a + b + c, d);
    assert forall u: seq<QuestionObj> :: u + [] == u && [] + u == u;
    assert forall u: seq<SubjectObj> :: u + [] == u;
    assert Entries(s) == a + b + c + d;
  }

  lemma {:induction false} QuestionsComeBack(kind: Kind, qs: seq<QuestionObj>)
    requires AllAligned(qs)
    ensures QuestionsOf(kind, QuestionEntries(kind, qs)) == Some(FillHints(qs))
  {
    hide ToChoices, ToChoicesMap, Aligned;
    if qs != [] {
      var n := |qs| - 1;
      assert QuestionEntries(kind, qs)[..n] == QuestionEntries(kind, qs[..n]);
      QuestionsComeBack(kind, qs[..n]);
      ChoicesSurvive(qs[n].choices);
      assert FillHints(qs) == FillHints(qs[..n]) + [FillHint(qs[n])];
    }
  }

  lemma {:induction false} SubjectsComeBack(ss: seq<SubjectObj>)
    requires AllWellFormed(ss)
    ensures SubjectsOf(SubjectEntries(ss)) == Some(AllWithHints(ss))
    decreases ss, 0
  {
    if ss != [] {
      var n := |ss| - 1;
      SubjectsComeBack(ss[..n]);
      SubjectComesBack(ss[n]);
      var entries := SubjectEntries(ss);
      assert entries[..|entries| - 1] == SubjectEntries(ss[..n]);
    }
  }

  /** A well-formed subject comes back at every depth, with its missing hints filled in. */
  lemma {:induction false} SubjectComesBack(s: SubjectObj)
    requires WellFormed(s)
    ensures MarshalSubject(UnmarshalSubject(s)) == Some(WithHints(s))
    decreases s, 1
  {
    hide QuestionsOf, SubjectsOf, Entries, QuestionEntries, FillHints, AllAligned;
    SubjectsComeBack(s.subjects);
    PutAllDistinct(Entries(s));
    KindOnly(s, RANK);
    KindOnly(s, SELECT);
    KindOnly(s, TEXT);
    QuestionsComeBack(RANK, s.ranks);
    QuestionsComeBack(SELECT, s.selects);
    QuestionsComeBack(TEXT, s.texts);
  }

  ghost predicate HintsPresent(qs: seq<QuestionObj>) {
    forall i :: 0 <= i < |qs| ==> qs[i].hint.Some?
  }

  ghost predicate AllHintsPresent(ss: seq<SubjectObj>)
    decreases ss, 0
  {
    ss != [] ==> AllHintsPresent(ss[..|ss| - 1]) && SubjectHintsPresent(ss[|ss| - 1])
  }

  ghost predicate SubjectHintsPresent(s: SubjectObj)
    decreases s, 1
  {
    HintsPresent(s.ranks) && HintsPresent(s.selects) && HintsPresent(s.texts) && AllHintsPresent(s.subjects)
  }

  lemma HintsKept(qs: seq<QuestionObj>)
    ensures FillHints(qs) == qs <==> HintsPresent(qs)
  {
    if FillHints(qs) == qs {
      forall i | 0 <= i < |qs|
        ensures qs[i].hint.Some?
      {
        assert FillHints(qs)[i].hint.Some?;
      }
    }
  }

  lemma {:induction false} SubjectHintsKept(s: SubjectObj)
    ensures WithHints(s) == s <==> SubjectHintsPresent(s)
    decreases s, 1
  {
    HintsKept(s.ranks);
    HintsKept(s.selects);
    HintsKept(s.texts);
    AllHintsKept(s.subjects);
  }

  lemma {:induction false} AllHintsKept(ss: seq<SubjectObj>)
    ensures |AllWithHints(ss)| == |ss|
    ensures AllWithHints(ss) == ss <==> AllHintsPresent(ss)
    decreases ss, 0
  {
    if ss != [] {
      var n := |ss| - 1;
      AllHintsKept(ss[..n]);
      SubjectHintsKept(ss[n]);
      assert ss == ss[..n] + [ss[n]];
      assert AllWithHints(ss)[..n] == AllWithHints(ss[..n]) && AllWithHints(ss)[n] == WithHints(ss[n]);
    }
  }

  // ----- Only such subjects come back

  lemma {:induction false} PutSize(m: seq<Element>, e: Element)
    ensures |Put(m, e)| == if IdOf(e) in Ids(m) then |m| else |m| + 1
  {
    if m != [] {
      assert Ids(m) == [IdOf(m[0])] + Ids(m[1..]);
      PutSize(m[1..], e);
    }
  }

  /** The map has as many elements as insertions only when no identifier is inserted twice. */
  lemma {:induction false} PutAllSize(entries: seq<Element>)
    ensures |PutAll([], entries)| <= |entries|
    ensures |PutAll([], entries)| == |entries| ==> Distinct(Ids(entries))
  {
    if entries != [] {
      var n := |entries| - 1;
      var front, last := entries[..n], entries[n];
      PutAllSize(front);
      PutSize(PutAll([], front), last);
      if |PutAll([], entries)| == |entries| {
        PutAllDistinct(front);
        assert Ids(entries) == Ids(front) + [IdOf(last)];
        assert Elements([IdOf(last)]) == {IdOf(last)};
        DistinctAppend(Ids(front), [IdOf(last)]);
      }
    }
  }

  /** Every element is written under one of the four kinds. */
  lemma {:induction false} WrittenCount(entries: seq<Element>)
    requires forall kind: Kind :: QuestionsOf(kind, entries).Some?
    requires SubjectsOf(entries).Some?
    ensures |QuestionsOf(RANK, entries).value| + |QuestionsOf(SELECT, entries).value|
              + |QuestionsOf(TEXT, entries).value|
            + |SubjectsOf(entries).value| == |entries|
  {
    hide MarshalQuestion, MarshalSubject;
    if entries != [] {
      var front := entries[..|entries| - 1];
      forall kind: Kind
        ensures QuestionsOf(kind, front).Some?
      {
        assert QuestionsOf(kind, entries).Some?;
      }
      WrittenCount(front);
    }
  }

  lemma {:induction false} QuestionsOriginal(kind: Kind, qs: seq<QuestionObj>)
    requires QuestionsOf(kind, QuestionEntries(kind, qs)) == Some(qs)
    ensures AllAligned(qs) && HintsPresent(qs)
  {
    hide ToChoices, ToChoicesMap, Aligned;
    if qs != [] {
      var n, entries := |qs| - 1, QuestionEntries(kind, qs);
      assert entries[..n] == QuestionEntries(kind, qs[..n]);
      var front, q := QuestionsOf(kind, entries[..n]), MarshalQuestion(entries[n].obj, entries[n].choicesMap);
      assert front.value + [q.value] == qs;
      assert front.value == (front.value + [q.value])[..n];
      QuestionsOriginal(kind, qs[..n]);
      SurvivingAligned(qs[n].choices);
      assert forall i :: 0 <= i < n ==> qs[..n][i] == qs[i];
    }
  }

  lemma {:induction false} SubjectsOriginal(ss: seq<SubjectObj>)
    requires SubjectsOf(SubjectEntries(ss)) == Some(ss)
    ensures AllWellFormed(ss) && AllHintsPresent(ss)
    decreases ss, 0
  {
    if ss != [] {
      var n, entries := |ss| - 1, SubjectEntries(ss);
      assert entries[..|entries| - 1] == SubjectEntries(ss[..n]);
      var front, s := SubjectsOf(SubjectEntries(ss[..n])), MarshalSubject(UnmarshalSubject(ss[n]));
      assert front.value + [s.value] == ss;
      assert front.value == (front.value + [s.value])[..n];
      SubjectsOriginal(ss[..n]);
      SubjectOriginal(ss[n]);
    }
  }

  lemma {:induction false} EntriesCount(s: SubjectObj)
    ensures |Entries(s)| == |s.subjects| + |s.ranks| + |s.texts| + |s.selects|
  {
    SubjectEntriesCount(s.subjects);
  }

  lemma {:induction false} SubjectEntriesCount(ss: seq<SubjectObj>)
    ensures |SubjectEntries(ss)| == |ss|
  {
    hide UnmarshalSubject;
    if ss != [] { SubjectEntriesCount(ss[..|ss| - 1]); }
  }

  /** A subject that comes back unchanged has unique identifiers, aligned choices and all its hints. */
  lemma {:induction false} SubjectOriginal(s: SubjectObj)
    requires MarshalSubject(UnmarshalSubject(s)) == Some(s)
    ensures WellFormed(s) && SubjectHintsPresent(s)
    decreases s, 1
  {
    hide QuestionsOf, SubjectsOf, Entries, QuestionEntries, AllAligned, HintsPresent;
    var elements := PutAll([], Entries(s));
    forall kind: Kind
      ensures QuestionsOf(kind, elements) == Some(Own(s, kind))
    {
    }
    WrittenCount(elements);
    EntriesCount(s);
    PutAllSize(Entries(s));
    PutAllDistinct(Entries(s));
    KindOnly(s, RANK);
    KindOnly(s, SELECT);
    KindOnly(s, TEXT);
    QuestionsOriginal(RANK, s.ranks);
    QuestionsOriginal(SELECT, s.selects);
    QuestionsOriginal(TEXT, s.texts);
    SubjectsOriginal(s.subjects);
  }

  // ----- The whole configuration

  function UnmarshalAll(ss: seq<SubjectObj>): (es: seq<Element>)
    ensures |es| == |ss| && forall i :: 0 <= i < |es| ==> es[i].SubjectElement?
  {
    seq(|ss|, i requires 0 <= i < |ss| => UnmarshalSubject(ss[i]))
  }

  function UnmarshalConfig(c: ConfigObj): (r: Configuration) {
    Configuration(c.title, UnmarshalAll(c.scaffold), c.additionalInfo)
  }

  function MarshalAll(es: seq<Element>): (r: Option<seq<SubjectObj>>)
    requires forall i :: 0 <= i < |es| ==> es[i].SubjectElement?
  {
    if es == [] then Some([])
    else
      var front, s := MarshalAll(es[..|es| - 1]), MarshalSubject(es[|es| - 1]);
      if front.None? || s.None? then None else Some(front.value + [s.value])
  }

  function MarshalConfig(c: Configuration): (r: Option<ConfigObj>)
    requires forall i :: 0 <= i < |c.scaffold| ==> c.scaffold[i].SubjectElement?
  {
    match MarshalAll(c.scaffold)
    case Some(scaffold) => Some(ConfigObj(c.title, scaffold, c.additionalInfo))
    case None => None
  }

  lemma {:induction false} ScaffoldComesBack(ss: seq<SubjectObj>)
    requires AllWellFormed(ss)
    ensures MarshalAll(UnmarshalAll(ss)) == Some(AllWithHints(ss))
  {
    hide UnmarshalSubject, MarshalSubject, WellFormed, WithHints;
    if ss != [] {
      var n := |ss| - 1;
      ScaffoldComesBack(ss[..n]);
      SubjectComesBack(ss[n]);
      assert UnmarshalAll(ss)[..n] == UnmarshalAll(ss[..n]);
    }
  }

  lemma {:induction false} ScaffoldOriginal(ss: seq<SubjectObj>)
    requires MarshalAll(UnmarshalAll(ss)) == Some(ss)
    ensures AllWellFormed(ss) && AllHintsPresent(ss)
  {
    hide UnmarshalSubject, MarshalSubject, WellFormed, SubjectHintsPresent;
    if ss != [] {
      var n, es := |ss| - 1, UnmarshalAll(ss);
      assert es[..n] == UnmarshalAll(ss[..n]);
      var front, s := MarshalAll(es[..n]), MarshalSubject(es[n]);
      assert front.value + [s.value] == ss;
      assert front.value == (front.value + [s.value])[..n];
      ScaffoldOriginal(ss[..n]);
      SubjectOriginal(ss[n]);
    }
  }

  /** The configuration round trip. A configuration comes back unchanged exactly when the identifiers are
      unique within each subject, all choices are aligned, and no hint is missing; when only hints are
      missing, it comes back with them filled in. */
  lemma ConfigRoundTrip(c: ConfigObj)
    ensures var r := MarshalConfig(UnmarshalConfig(c));
            && (r == Some(c) <==> AllWellFormed(c.scaffold) && AllHintsPresent(c.scaffold))
            && (AllWellFormed(c.scaffold) ==> r == Some(c.(scaffold := AllWithHints(c.scaffold))))
  {
    hide AllWellFormed, AllHintsPresent, AllWithHints, MarshalAll, UnmarshalAll;
    if AllWellFormed(c.scaffold) { ScaffoldComesBack(c.scaffold); }
    AllHintsKept(c.scaffold);
    if MarshalAll(UnmarshalAll(c.scaffold)) == Some(c.scaffold) { ScaffoldOriginal(c.scaffold); }
  }

  method ReadConfig(c: ConfigObj) returns (r: Configuration)
    ensures r == UnmarshalConfig(c)
  {
    hide UnmarshalSubject;
    var scaffold: seq<Element> := [];
    for i := 0 to |c.scaffold|
      invariant |scaffold| == i && forall k :: 0 <= k < i ==> scaffold[k] == UnmarshalSubject(c.scaffold[k])
    {
      var s := ReadSubject(c.scaffold[i]);
      scaffold := scaffold + [s];
    }
    assert scaffold == UnmarshalAll(c.scaffold);
    r := Configuration(c.title, scaffold, c.additionalInfo);
  }

  method WriteConfig(c: Configuration) returns (r: Option<ConfigObj>)
    requires forall i :: 0 <= i < |c.scaffold| ==> c.scaffold[i].SubjectElement?
    ensures r == MarshalConfig(c)
  {
    hide MarshalSubject;
    var scaffold: seq<SubjectObj>, failed := [], false;
    for i := 0 to |c.scaffold|
      invariant failed <==> MarshalAll(c.scaffold[..i]).None?
      invariant !failed ==> Some(scaffold) == MarshalAll(c.scaffold[..i])
    {
      assert c.scaffold[..i + 1][..i] == c.scaffold[..i];
      var s := WriteSubject(c.scaffold[i]);
      if s.None? {
        failed := true;
      } else {
        scaffold := scaffold + [s.value];
      }
    }
    assert c.scaffold[..|c.scaffold|] == c.scaffold;
    if failed { return None; }
    return Some(ConfigObj(c.title, scaffold, c.additionalInfo));
  }

  // ----- Filling hints changes nothing else

  /** The configuration without its hints. */
  function Unhinted(q: QuestionObj): (r: QuestionObj) {
    QuestionObj(q.id, q.title, q.maxN, q.minN, q.maxLength, q.regex, None, q.choices)
  }

  function AllUnhinted(qs: seq<QuestionObj>): (r: seq<QuestionObj>)
    ensures |r| == |qs|
  {
    seq(|qs|, i requires 0 <= i < |qs| => Unhinted(qs[i]))
  }

  function SubjectUnhinted(s: SubjectObj): (r: SubjectObj)
    decreases s, 1
  {
    SubjectObj(s.id, s.title, s.order, SubjectsUnhinted(s.subjects),
               AllUnhinted(s.ranks), AllUnhinted(s.selects), AllUnhinted(s.texts))
  }

  function SubjectsUnhinted(ss: seq<SubjectObj>): (r: seq<SubjectObj>)
    decreases ss, 0
  {
    if ss == [] then [] else SubjectsUnhinted(ss[..|ss| - 1]) + [SubjectUnhinted(ss[|ss| - 1])]
  }

  /** A hint that is there stays, a missing one becomes three empty texts, and nothing else changes. */
  lemma FilledHint(q: QuestionObj)
    ensures FillHint(q).hint == Some(if q.hint.Some? then q.hint.value else Hint("", "", ""))
    ensures Unhinted(FillHint(q)) == Unhinted(q)
  {
  }

  lemma {:induction false} FilledSubject(s: SubjectObj)
    ensures SubjectUnhinted(WithHints(s)) == SubjectUnhinted(s)
    ensures SubjectHintsPresent(WithHints(s))
    decreases s, 1
  {
    FilledSubjects(s.subjects);
    assert AllUnhinted(FillHints(s.ranks)) == AllUnhinted(s.ranks);
    assert AllUnhinted(FillHints(s.selects)) == AllUnhinted(s.selects);
    assert AllUnhinted(FillHints(s.texts)) == AllUnhinted(s.texts);
  }

  /** At every depth, what comes back with hints filled in differs in its hints only. */
  lemma {:induction false} FilledSubjects(ss: seq<SubjectObj>)
    ensures SubjectsUnhinted(AllWithHints(ss)) == SubjectsUnhinted(ss)
    ensures AllHintsPresent(AllWithHints(ss))
    decreases ss, 0
  {
    if ss != [] {
      var n, filled := |ss| - 1, AllWithHints(ss);
      FilledSubjects(ss[..n]);
      FilledSubject(ss[n]);
      assert filled[..|filled| - 1] == AllWithHints(ss[..n]) && filled[|filled| - 1] == WithHints(ss[n]);
    }
  }
}
