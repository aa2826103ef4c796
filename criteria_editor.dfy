/** The criteria editor (`CriteriaList`): an input buffer with its live word count, and an
    ordered list of criteria the buffer is turned into on submit. Every change of the list is
    reported to the parent through `onCriteriaChange`. */
module CriteriaEditor {
  import opened JsString
  import opened JsArray
  import opened WordCount
  import opened QuotedText

  /** The five grey tones a criterion badge is drawn in. */
  datatype Variant = Grey1 | Grey2 | Grey3 | Grey4 | Grey5

  /** `greyVariants`, the cycle new criteria take their variants from. */
  const GreyVariants: seq<Variant> := [Grey1, Grey2, Grey3, Grey4, Grey5]

  /** The default of the `maxWords` property. */
  const DefaultMaxWords: nat := 50

  /** An identifier drawn from `Math.random`; nothing makes it unique. */
  type Id = string

  datatype Criterion = Criterion(id: Id, text: string, variant: Variant)

  /** The position of a variant in the cycle, 0 for grey1 up to 4 for grey5. */
  function Ordinal(v: Variant): nat
  {
    match v
    case Grey1 => 0
    case Grey2 => 1
    case Grey3 => 2
    case Grey4 => 3
    case Grey5 => 4
  }

  /** `greyVariants[n % greyVariants.length]`: the variant whose place in the cycle is `n mod 5`. */
  function VariantAt(n: nat): (r: Variant)
    ensures Ordinal(r) == n % 5
  {
    GreyVariants[n % |GreyVariants|]
  }

  /** Two positions get the same variant exactly when they lie a multiple of five apart. */
  lemma VariantCycle(m: nat, n: nat)
    ensures VariantAt(m) == VariantAt(n) <==> m % 5 == n % 5
  {
    if m % 5 == n % 5 {
      assert VariantAt(m) == GreyVariants[n % 5];
    }
  }

  /** The texts one submit of `buffer` turns into criteria: the text of every quoted match when
      there is one, and the whole trimmed buffer otherwise. */
  function EntryTexts(buffer: string): (r: seq<string>)
    ensures |r| == if QuotedMatches(buffer) == [] then 1 else |QuotedMatches(buffer)|
  {
    var quoted := QuotedMatches(buffer);
    if |quoted| > 0 then seq(|quoted|, i requires 0 <= i < |quoted| => MatchText(quoted[i]))
    else [Trim(buffer)]
  }

  /** The criteria made from `texts` when `start` criteria exist already; `ids(i)` is the
      identifier drawn for the i-th of them. */
  function NewCriteria(texts: seq<string>, start: nat, ids: nat -> Id): (r: seq<Criterion>)
    ensures |r| == |texts|
  {
    seq(|texts|, i requires 0 <= i < |texts| => Criterion(ids(i), texts[i], VariantAt(start + i)))
  }

  /** Appending new criteria puts the i-th of them at position `|old| + i`. */
  lemma AppendedAt(texts: seq<string>, old_: seq<Criterion>, ids: nat -> Id)
    ensures var c := old_ + NewCriteria(texts, |old_|, ids);
      && |c| == |old_| + |texts|
      && c[..|old_|] == old_
      && forall i :: 0 <= i < |texts| ==> c[|old_| + i] == Criterion(ids(i), texts[i], VariantAt(|old_| + i))
  {
    var n := |old_|;
    var added := NewCriteria(texts, n, ids);
    var c := old_ + added;
    assert c[..n] == old_;
    forall i | 0 <= i < |texts|
      ensures c[n + i] == Criterion(ids(i), texts[i], VariantAt(n + i))
    {
      NewCriterionAt(texts, n, ids, i);
      assert c[n + i] == added[i];
    }
  }

  /** The i-th new criterion takes the i-th text and identifier, and the variant of position
      `start + i`. */
  lemma NewCriterionAt(texts: seq<string>, start: nat, ids: nat -> Id, i: nat)
    requires i < |texts|
    ensures NewCriteria(texts, start, ids)[i] == Criterion(ids(i), texts[i], VariantAt(start + i))
  {
  }

  /** In quoted mode the i-th text is the text of the i-th match. */
  lemma EntryTextsQuoted(b: string)
    requires QuotedMatches(b) != []
    ensures var m := QuotedMatches(b); |EntryTexts(b)| == |m| && forall i :: 0 <= i < |m| ==> EntryTexts(b)[i] == MatchText(m[i])
  {
  }

  /** The editor's state: `inputValue`, `wordCount` and `criteria`. */
  datatype Editor = Editor(buffer: string, wordCount: nat, criteria: seq<Criterion>)

  /** The word count is the count of the buffer and within the cap. */
  predicate Consistent(e: Editor, maxWords: nat)
  {
    e.wordCount == CountWords(e.buffer) && e.wordCount <= maxWords
  }

  /** `handleInputChange`: an edit over the word cap is dropped as a whole. */
  function AfterInput(e: Editor, value: string, maxWords: nat): (r: Editor)
    ensures r.criteria == e.criteria
    ensures Consistent(r, maxWords) <== Consistent(e, maxWords)
    ensures r.buffer == value <== CountWords(value) <= maxWords
  {
    var words := CountWords(value);
    if words <= maxWords then e.(buffer := value, wordCount := words) else e
  }

  /** An edit whose text has more words than the cap changes nothing. */
  lemma InputOverLimitIgnored(e: Editor, value: string, maxWords: nat)
    requires CountWords(value) > maxWords
    ensures AfterInput(e, value, maxWords) == e
  {
  }

  /** The guard of `handleAddCriterion`: the trimmed buffer is not empty and the count is
      within the cap (AcceptsIff states it without `trim`). */
  function Accepts(e: Editor, maxWords: nat): (r: bool)
    ensures r ==> e.buffer != [] && e.wordCount <= maxWords
  {
    Trim(e.buffer) != [] && e.wordCount <= maxWords
  }

  /** A submit is accepted exactly when the buffer holds a non-whitespace character and the
      count is within the cap. */
  lemma AcceptsIff(e: Editor, maxWords: nat)
    ensures Accepts(e, maxWords) <==> !AllSpace(e.buffer) && e.wordCount <= maxWords
  {
    TrimBlank(e.buffer);
  }

  /** `handleAddCriterion`: a refused submit changes nothing; an accepted one appends the new
      criteria after the old ones and clears the buffer. */
  function AfterSubmit(e: Editor, maxWords: nat, ids: nat -> Id): (r: Editor)
    ensures !Accepts(e, maxWords) ==> r == e
    ensures Accepts(e, maxWords) ==>
      r.buffer == [] && r.wordCount == 0 && |r.criteria| > |e.criteria| && r.criteria[..|e.criteria|] == e.criteria
  {
    if !Accepts(e, maxWords) then e
    else
      var added := NewCriteria(EntryTexts(e.buffer), |e.criteria|, ids);
      assert (e.criteria + added)[..|e.criteria|] == e.criteria;
      Editor([], 0, e.criteria + added)
  }

  /** A submit keeps the word count consistent with the buffer and within the cap. */
  lemma SubmitKeepsConsistent(e: Editor, maxWords: nat, ids: nat -> Id)
    requires Consistent(e, maxWords)
    ensures Consistent(AfterSubmit(e, maxWords, ids), maxWords)
  {
    CountWordsZero([]);
  }

  /** A blank or whitespace-only buffer is never submitted. */
  lemma SubmitBlankIgnored(e: Editor, maxWords: nat, ids: nat -> Id)
    requires AllSpace(e.buffer)
    ensures AfterSubmit(e, maxWords, ids) == e
  {
    TrimBlank(e.buffer);
  }

  /** Without a quoted match, a submit appends one criterion holding the trimmed buffer. */
  lemma SubmitSingle(e: Editor, maxWords: nat, ids: nat -> Id)
    requires Accepts(e, maxWords) && QuotedMatches(e.buffer) == []
    ensures AfterSubmit(e, maxWords, ids).criteria
      == e.criteria + [Criterion(ids(0), Trim(e.buffer), VariantAt(|e.criteria|))]
  {
  }

  /** With k quoted matches, a submit appends k criteria in match order: the i-th holds the
      text of the i-th match (by MatchTextIsInner, the trimmed text between its quotes) and the
      variant that continues the cycle. Text outside the quotes is dropped. */
  lemma SubmitQuoted(e: Editor, maxWords: nat, ids: nat -> Id)
    requires Accepts(e, maxWords) && QuotedMatches(e.buffer) != []
    ensures var m := QuotedMatches(e.buffer);
      var c := AfterSubmit(e, maxWords, ids).criteria;
      var n := |e.criteria|;
      && |c| == n + |m|
      && c[..n] == e.criteria
      && forall i :: 0 <= i < |m| ==> c[n + i] == Criterion(ids(i), MatchText(m[i]), VariantAt(n + i))
  {
    EntryTextsQuoted(e.buffer);
    AppendedAt(EntryTexts(e.buffer), e.criteria, ids);
  }

  /** The sixth criterion added one at a time to an empty list gets the variant of the first. */
  lemma SixthVariantWraps(e: Editor, maxWords: nat, ids: nat -> Id)
    requires |e.criteria| == 5 && Accepts(e, maxWords) && QuotedMatches(e.buffer) == []
    ensures AfterSubmit(e, maxWords, ids).criteria[5].variant == VariantAt(0)
  {
    SubmitSingle(e, maxWords, ids);
  }

  /** `criterion => criterion.id !== id` */
  function OtherId(id: Id): Criterion -> bool
  {
    (c: Criterion) => c.id != id
  }

  /** `handleRemoveCriterion`: keeps exactly the criteria with another id. */
  function AfterRemove(e: Editor, id: Id): (r: Editor)
    ensures r.buffer == e.buffer && r.wordCount == e.wordCount
    ensures forall c :: c in r.criteria <==> c in e.criteria && c.id != id
  {
    forall c ensures c in Filter(e.criteria, OtherId(id)) <==> c in e.criteria && c.id != id {
      FilterMembers(e.criteria, OtherId(id), c);
    }
    e.(criteria := Filter(e.criteria, OtherId(id)))
  }

  /** Removing an id no criterion has leaves the list as it was. */
  lemma RemoveAbsentId(e: Editor, id: Id)
    requires forall c :: c in e.criteria ==> c.id != id
    ensures AfterRemove(e, id) == e
  {
    FilterKeepsAll(e.criteria, OtherId(id));
  }

  /** Removal keeps the survivors in their order: removing from a list split in two is
      removing from each part. A second removal of the same id changes nothing. */
  lemma RemoveKeepsOrder(a: seq<Criterion>, b: seq<Criterion>, id: Id)
    ensures AfterRemove(Editor([], 0, a + b), id).criteria
      == AfterRemove(Editor([], 0, a), id).criteria + AfterRemove(Editor([], 0, b), id).criteria
    ensures AfterRemove(AfterRemove(Editor([], 0, a), id), id) == AfterRemove(Editor([], 0, a), id)
  {
    FilterConcat(a, b, OtherId(id));
    FilterIdempotent(a, OtherId(id));
  }

  /** The Escape branch of `handleKeyPress`: the buffer and its count are cleared and the list
      is kept. */
  function AfterEscape(e: Editor): (r: Editor)
    ensures r.buffer == [] && r.wordCount == 0 && r.criteria == e.criteria
    ensures Consistent(r, 0)
  {
    e.(buffer := [], wordCount := 0)
  }

  /** `handleKeyPress`: Enter submits, Escape clears the buffer, any other key does nothing. */
  function AfterKey(e: Editor, key: string, maxWords: nat, ids: nat -> Id): (r: Editor)
    ensures key == "Enter" ==> r == AfterSubmit(e, maxWords, ids)
    ensures key == "Escape" ==> r.criteria == e.criteria && r.buffer == [] && r.wordCount == 0
    ensures key != "Enter" && key != "Escape" ==> r == e
  {
    var e1 := if key == "Enter" then AfterSubmit(e, maxWords, ids) else e;
    if key == "Escape" then AfterEscape(e1) else e1
  }

  lemma EscapeClears(e: Editor, maxWords: nat, ids: nat -> Id)
    ensures AfterKey(e, "Escape", maxWords, ids) == Editor([], 0, e.criteria)
  {
  }

  /** A buffer with no double quote and no surrounding whitespace becomes one criterion holding
      exactly the text typed. */
  lemma SubmitPlainText(e: Editor, maxWords: nat, ids: nat -> Id)
    requires e.buffer != [] && !IsSpace(e.buffer[0]) && !IsSpace(e.buffer[|e.buffer| - 1])
    requires NoQuote(e.buffer) && e.wordCount <= maxWords
    ensures AfterSubmit(e, maxWords, ids).criteria == e.criteria + [Criterion(ids(0), e.buffer, VariantAt(|e.criteria|))]
  {
    TrimUnpadded(e.buffer);
    NoQuoteNoMatch(e.buffer);
    SubmitSingle(e, maxWords, ids);
  }

  /** A character that is neither a double quote nor whitespace. */
  predicate Letter(x: char)
  {
    x != '"' && !IsSpace(x)
  }

  /** The buffer `"a" "b" c`, for any letters `a`, `b` and `c`. */
  function TwoQuotedBuffer(a: char, b: char, c: char): (s: string)
    ensures |s| == 9
  {
    ['"', a, '"', ' ', '"', b, '"', ' ', c]
  }

  /** Two quoted entries submitted to an empty list: the text after the last quote is dropped
      and the variants continue the cycle. */
  lemma ExampleQuoted(a: char, b: char, c: char, ids: nat -> Id)
    requires Letter(a) && Letter(b) && Letter(c)
    ensures AfterSubmit(Editor(TwoQuotedBuffer(a, b, c), 3, []), DefaultMaxWords, ids).criteria
      == [Criterion(ids(0), [a], Grey1), Criterion(ids(1), [b], Grey2)]
  {
    var e := Editor(TwoQuotedBuffer(a, b, c), 3, []);
    QuotedBufferAccepted(a, b, c);
    TwoQuotedMatches(a, b, c);
    SingleLetterText(['"', a, '"']);
    SingleLetterText(['"', b, '"']);
    SubmitTwoQuoted(e, DefaultMaxWords, ids, ['"', a, '"'], ['"', b, '"']);
  }

  /** Two matches submitted to an empty list become the first two criteria. */
  lemma SubmitTwoQuoted(e: Editor, maxWords: nat, ids: nat -> Id, q1: string, q2: string)
    requires Accepts(e, maxWords) && QuotedMatches(e.buffer) == [q1, q2] && e.criteria == []
    ensures AfterSubmit(e, maxWords, ids).criteria
      == [Criterion(ids(0), MatchText(q1), Grey1), Criterion(ids(1), MatchText(q2), Grey2)]
  {
    SubmitQuoted(e, maxWords, ids);
    assert VariantAt(0) == Grey1 && VariantAt(1) == Grey2;
    PairOf(AfterSubmit(e, maxWords, ids).criteria, Criterion(ids(0), MatchText(q1), Grey1), Criterion(ids(1), MatchText(q2), Grey2));
  }

  lemma PairOf(c: seq<Criterion>, x: Criterion, y: Criterion)
    requires |c| == 2 && c[0] == x && c[1] == y
    ensures c == [x, y]
  {
  }

  lemma QuotedBufferAccepted(a: char, b: char, c: char)
    requires Letter(a)
    ensures Accepts(Editor(TwoQuotedBuffer(a, b, c), 3, []), DefaultMaxWords)
  {
    var s := TwoQuotedBuffer(a, b, c);
    assert !AllSpace(s) by {
      assert !IsSpace(s[1]);
    }
    TrimBlank(s);
  }

  lemma TwoQuotedMatches(a: char, b: char, c: char)
    requires Letter(a) && Letter(b) && Letter(c)
    ensures QuotedMatches(TwoQuotedBuffer(a, b, c)) == [['"', a, '"'], ['"', b, '"']]
  {
    var v := [' ', c];
    var u := ['"', b, '"'] + v;
    var t := [' '] + u;
    assert TwoQuotedBuffer(a, b, c) == ['"', a, '"'] + t;
    assert t[1..] == u;
    calc {
      QuotedMatches(TwoQuotedBuffer(a, b, c));
      { LeadingQuotedLetter(a, t); }
      [['"', a, '"']] + QuotedMatches(t);
      { LeadingNonQuote(t); }
      [['"', a, '"']] + QuotedMatches(u);
      { LeadingQuotedLetter(b, v); }
      [['"', a, '"']] + ([['"', b, '"']] + QuotedMatches(v));
      { NoQuoteNoMatch(v); }
      [['"', a, '"']] + [['"', b, '"']];
    }
  }

  /** A quoted letter at the head of the text is the first match. */
  lemma LeadingQuotedLetter(x: char, rest: string)
    requires Letter(x)
    ensures QuotedMatches(['"', x, '"'] + rest) == [['"', x, '"']] + QuotedMatches(rest)
  {
    var s := ['"', x, '"'] + rest;
    assert s[..3] == ['"', x, '"'];
    MatchAtComplete(s, 3);
    UnfoldAtMatch(s);
    assert s[3..] == rest;
  }

  /** A head character that is not a quote starts no match. */
  lemma LeadingNonQuote(s: string)
    requires s != [] && s[0] != '"'
    ensures QuotedMatches(s) == QuotedMatches(s[1..])
  {
    UnfoldNoMatch(s);
  }

  /** A quoted single letter yields that letter. */
  lemma SingleLetterText(q: string)
    requires |q| == 3 && q[0] == '"' && q[2] == '"' && q[1] != '"' && !IsSpace(q[1])
    ensures MatchText(q) == [q[1]]
  {
    var inner := q[1..|q| - 1];
    assert inner == [q[1]];
    MatchTextIsInner(q);
    TrimUnpadded(inner);
    assert MatchText(q) == Trim(inner) == inner;
  }

  /** The `CriteriaList` component: its three pieces of React state as fields, each handler as a
      method, and a ghost record of the lists handed to `onCriteriaChange`. */
  class CriteriaList {
    const maxWords: nat
    var buffer: string
    var wordCount: nat
    var criteria: seq<Criterion>
    /** Every list passed to `onCriteriaChange`, oldest first. */
    ghost var notifications: seq<seq<Criterion>>

    function State(): Editor
      reads this
    {
      Editor(buffer, wordCount, criteria)
    }

    ghost predicate Valid()
      reads this
    {
      Consistent(State(), maxWords)
    }

    constructor (maxWords: nat)
      ensures Valid() && this.maxWords == maxWords
      ensures State() == Editor([], 0, []) && notifications == []
    {
      this.maxWords := maxWords;
      buffer, wordCount, criteria := [], 0, [];
      notifications := [];
    }

    /** `handleInputChange` */
    method InputChange(value: string)
      requires Valid()
      modifies this
      ensures Valid()
      ensures State() == AfterInput(old(State()), value, maxWords)
      ensures notifications == old(notifications)
    {
      ghost var before := State();
      var words := CountWords(value);
      if words <= maxWords {
        buffer := value;
        wordCount := words;
        assert State() == before.(buffer := value, wordCount := words);
      } else {
        assert State() == before;
      }
    }

    /** `handleAddCriterion`; `ids(i)` is the identifier drawn for the i-th new criterion. */
    method AddCriterion(ids: nat -> Id)
      requires Valid()
      modifies this
      ensures Valid()
      ensures State() == AfterSubmit(old(State()), maxWords, ids)
      ensures notifications == old(notifications) + if Accepts(old(State()), maxWords) then [criteria] else []
    {
      ghost var before := State();
      if Trim(buffer) == [] || wordCount > maxWords {
        assert !Accepts(before, maxWords);
        return;
      }
      var texts := EntryTexts(buffer);
      var newCriteria := NewCriteria(texts, |criteria|, ids);
      var updated := criteria + newCriteria;
      criteria := updated;
      buffer := [];
      wordCount := 0;
      notifications := notifications + [updated];
      assert State() == Editor([], 0, before.criteria + NewCriteria(EntryTexts(before.buffer), |before.criteria|, ids));
      CountWordsZero([]);
    }

    /** `handleRemoveCriterion`; the parent is notified whether or not the id was present. */
    method RemoveCriterion(id: Id)
      requires Valid()
      modifies this
      ensures Valid()
      ensures State() == AfterRemove(old(State()), id)
      ensures notifications == old(notifications) + [criteria]
    {
      var updated := Filter(criteria, OtherId(id));
      criteria := updated;
      notifications := notifications + [updated];
    }

    /** `handleKeyPress` */
    method KeyPress(key: string, ids: nat -> Id)
      requires Valid()
      modifies this
      ensures Valid()
      ensures State() == AfterKey(old(State()), key, maxWords, ids)
      ensures notifications == old(notifications) + if key == "Enter" && Accepts(old(State()), maxWords) then [criteria] else []
    {
      ghost var before := State();
      if key == "Enter" {
        AddCriterion(ids);
        assert State() == AfterKey(before, key, maxWords, ids);
      }
      if key == "Escape" {
        buffer := [];
        wordCount := 0;
        EscapeClears(before, maxWords, ids);
      }
    }
  }
}
