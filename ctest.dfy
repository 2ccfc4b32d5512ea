/** The c-test component (src/app/components/c-test.tsx): rendering of the
    paragraphs, scoring of the filled-in form, the visual feedback that
    locks and fills the inputs, and the three-state button bar with its
    delayed "Continue". */
module CTest {
  import opened Text
  import opened Wrappers
  import opened Tokenizer
  import opened WordItem

  // ---------------------------------------------------------------------
  // Rendering (c-test.tsx:189-251)

  /** The WordItems of one paragraph's tokens. */
  function RenderTokens(words: seq<Token>, style: Style): (items: seq<Rendered>)
    ensures |items| == |words|
  {
    seq(|words|, i requires 0 <= i < |words| =>
      RenderWord(words[i].text, ShowLetter(words[i].text), words[i].isTarget, style))
  }

  /** A rendered item whose letter inputs point into its word, at least two
      of them for a target word. */
  ghost predicate GoodItem(r: Rendered) {
    r.Fieldset? ==>
      |r.inputs| >= 2 && forall j :: 0 <= j < |r.inputs| ==> r.inputs[j].letterIndex < |r.word|
  }

  ghost predicate GoodItems(items: seq<Rendered>) {
    forall i :: 0 <= i < |items| ==> GoodItem(items[i])
  }

  lemma RenderedTargetsGood(words: seq<Token>, shouldTarget: bool, style: Style)
    requires TargetRule(words, shouldTarget)
    ensures GoodItems(RenderTokens(words, style))
  {
    forall i | 0 <= i < |words|
      ensures GoodItem(RenderTokens(words, style)[i])
    {
      if words[i].isTarget {
        ContentWordHidesTwo(words[i].text);
      }
    }
  }

  /** `items` are the WordItems of the tokens of `text`. */
  ghost predicate RenderedFrom(text: string, style: Style, words: seq<Token>, items: seq<Rendered>) {
    IsTokenization(text, true, words) && items == RenderTokens(words, style)
  }

  /** `splitWords(text, true).map(...)` for one paragraph. */
  method RenderText(text: string, style: Style) returns (words: seq<Token>, items: seq<Rendered>)
    ensures RenderedFrom(text, style, words, items) && GoodItems(items)
  {
    words := SplitWords(text, true);
    RenderedTargetsGood(words, true, style);
    items := RenderTokens(words, style);
  }

  /** Paragraph 0: its first sentence as plain text, then the WordItems of
      the rest when there is one (c-test.tsx:216-233). */
  ghost predicate FirstRendered(paragraph: string, style: Style, words: seq<Token>, items: seq<Rendered>) {
    var split := SplitFirstSentence(paragraph);
    && |items| >= 1 && items[0] == Plain(split.firstSentence)
    && (split.rest == "" ==> words == [] && |items| == 1)
    && (split.rest != "" ==> RenderedFrom(split.rest, style, words, items[1..]))
  }

  method RenderFirstParagraph(paragraph: string, style: Style) returns (words: seq<Token>, items: seq<Rendered>)
    ensures FirstRendered(paragraph, style, words, items) && GoodItems(items)
  {
    var split := SplitFirstSentence(paragraph);
    var restItems: seq<Rendered> := [];
    words := [];
    if split.rest != "" {
      words, restItems := RenderText(split.rest, style);
    }
    items := [Plain(split.firstSentence)] + restItems;
    assert items[1..] == restItems;
  }

  /** `ps[q]` is rendered as `items[q]` from `tokens[q]`, for every q. */
  ghost predicate RenderedEach(ps: seq<string>, style: Style, tokens: seq<seq<Token>>, items: seq<seq<Rendered>>) {
    && |tokens| == |items| == |ps|
    && forall q :: 0 <= q < |ps| ==> RenderedFrom(ps[q], style, tokens[q], items[q]) && GoodItems(items[q])
  }

  lemma RenderedEachSnoc(ps: seq<string>, style: Style, tokens: seq<seq<Token>>, items: seq<seq<Rendered>>,
                         p: string, words: seq<Token>, paragraphItems: seq<Rendered>)
    requires RenderedEach(ps, style, tokens, items)
    requires RenderedFrom(p, style, words, paragraphItems) && GoodItems(paragraphItems)
    ensures RenderedEach(ps + [p], style, tokens + [words], items + [paragraphItems])
  {
    var ps', tokens', items' := ps + [p], tokens + [words], items + [paragraphItems];
    forall q | 0 <= q < |ps'|
      ensures RenderedFrom(ps'[q], style, tokens'[q], items'[q]) && GoodItems(items'[q])
    {
      if q < |ps| {
        assert ps'[q] == ps[q] && tokens'[q] == tokens[q] && items'[q] == items[q];
      }
    }
  }

  /** The paragraphs after the first, each tokenized whole
      (c-test.tsx:236-250). */
  method RenderRest(ps: seq<string>, style: Style) returns (tokens: seq<seq<Token>>, items: seq<seq<Rendered>>)
    ensures RenderedEach(ps, style, tokens, items)
  {
    tokens, items := [], [];
    for q := 0 to |ps|
      invariant RenderedEach(ps[..q], style, tokens, items)
    {
      var words, paragraphItems := RenderText(ps[q], style);
      RenderedEachSnoc(ps[..q], style, tokens, items, ps[q], words, paragraphItems);
      assert ps[..q] + [ps[q]] == ps[..q + 1];
      tokens := tokens + [words];
      items := items + [paragraphItems];
    }
    assert ps[..|ps|] == ps;
  }

  /** The body of CTest: paragraph 0 shows its first sentence as plain text
      and tokenizes only the rest, when there is one; every other paragraph
      is tokenized whole; every target word has at least two inputs that
      point into it. `paragraphs[0]` must exist (the source reads it
      unguarded). */
  method RenderParagraphs(paragraphs: seq<string>, style: Style) returns (tokens: seq<seq<Token>>, items: seq<seq<Rendered>>)
    requires |paragraphs| > 0
    ensures |tokens| == |items| == |paragraphs|
    ensures FirstRendered(paragraphs[0], style, tokens[0], items[0]) && GoodItems(items[0])
    ensures RenderedEach(paragraphs[1..], style, tokens[1..], items[1..])
  {
    var first, firstItems := RenderFirstParagraph(paragraphs[0], style);
    var restTokens, restItems := RenderRest(paragraphs[1..], style);
    tokens := [first] + restTokens;
    items := [firstItems] + restItems;
    assert tokens[1..] == restTokens && items[1..] == restItems;
  }

  // ---------------------------------------------------------------------
  // The form as the scorer reads it

  /** One `input[data-is-target='true']`: its `data-letter-index`, its value
      and whether it is read-only. */
  datatype Input = Input(letterIndex: nat, value: string, readOnly: bool)

  /** One `fieldset[data-target-word]` with its letter inputs. */
  datatype Field = Field(word: string, inputs: seq<Input>)

  datatype Answer = Answer(word: string, isCorrect: bool)

  /** What processForm returns; a `None` score is the NaN of 0 / 0. */
  datatype FormResult = FormResult(answers: seq<Answer>, correctWords: nat, totalWords: nat, score: Option<real>)

  /** Every letter index of the field points into its word. */
  ghost predicate WellFormed(f: Field) {
    forall j :: 0 <= j < |f.inputs| ==> f.inputs[j].letterIndex < |f.word|
  }

  ghost predicate AllWellFormed(fields: seq<Field>) {
    forall i :: 0 <= i < |fields| ==> WellFormed(fields[i])
  }

  /** The number of fieldsets among the rendered items. */
  function FieldsetCount(items: seq<Rendered>): nat {
    if items == [] then 0
    else FieldsetCount(items[..|items| - 1]) + (if items[|items| - 1].Fieldset? then 1 else 0)
  }

  /** The untouched form field of a rendered fieldset: its word, and one
      empty, editable input per letter input with the same letter index. */
  function EmptyField(r: Rendered): Field
    requires r.Fieldset?
  {
    Field(r.word, seq(|r.inputs|, j requires 0 <= j < |r.inputs| => Input(r.inputs[j].letterIndex, "", false)))
  }

  /** `form.querySelectorAll("fieldset[data-target-word]")` over the
      rendered items, before anything is typed: one field per fieldset, in
      document order. */
  function FormFields(items: seq<Rendered>): (fields: seq<Field>)
    ensures |fields| == FieldsetCount(items)
    ensures forall i :: 0 <= i < |items| && items[i].Fieldset? ==>
      FieldsetCount(items[..i]) < |fields| && fields[FieldsetCount(items[..i])] == EmptyField(items[i])
  {
    if items == [] then []
    else
      var init, r := items[..|items| - 1], items[|items| - 1];
      assert forall i :: 0 <= i < |init| ==> init[..i] == items[..i];
      FormFields(init) + (if r.Fieldset? then [EmptyField(r)] else [])
  }

  /** Every field of the form of well-rendered items has at least two
      inputs, each pointing into its word, empty and editable. */
  lemma {:induction false} FormOfGoodItems(items: seq<Rendered>)
    requires GoodItems(items)
    ensures var fields := FormFields(items);
      && AllWellFormed(fields)
      && (forall k :: 0 <= k < |fields| ==> |fields[k].inputs| >= 2)
      && (forall k, j :: 0 <= k < |fields| && 0 <= j < |fields[k].inputs| ==>
            fields[k].inputs[j].value == "" && !fields[k].inputs[j].readOnly)
  {
    if items != [] {
      var init, r := items[..|items| - 1], items[|items| - 1];
      assert GoodItems(init) && GoodItem(r);
      FormOfGoodItems(init);
      assert FormFields(items) == FormFields(init) + (if r.Fieldset? then [EmptyField(r)] else []);
    }
  }

  /** The items of all paragraphs, in document order. */
  function Flatten(items: seq<seq<Rendered>>): seq<Rendered> {
    if items == [] then [] else Flatten(items[..|items| - 1]) + items[|items| - 1]
  }

  lemma {:induction false} FlattenGood(items: seq<seq<Rendered>>)
    requires forall q :: 0 <= q < |items| ==> GoodItems(items[q])
    ensures GoodItems(Flatten(items))
  {
    if items != [] {
      var init := items[..|items| - 1];
      FlattenGood(init);
      var a, b := Flatten(init), items[|items| - 1];
      assert forall i :: 0 <= i < |a + b| ==> (a + b)[i] == if i < |a| then a[i] else b[i - |a|];
    }
  }

  /** `filled` is `form` after typing: the same fieldsets and letter
      indices, each input still editable and holding at most one
      character (`maxLength={1}`). */
  ghost predicate FilledFrom(form: seq<Field>, filled: seq<Field>) {
    && |filled| == |form|
    && forall k :: 0 <= k < |form| ==>
      && filled[k].word == form[k].word
      && |filled[k].inputs| == |form[k].inputs|
      && forall j :: 0 <= j < |form[k].inputs| ==>
        && filled[k].inputs[j].letterIndex == form[k].inputs[j].letterIndex
        && !filled[k].inputs[j].readOnly
        && |filled[k].inputs[j].value| <= 1
  }

  /** The form of the whole text (c-test.tsx:94-105 reads every rendered
      fieldset of the form): every field has at least two empty, editable
      inputs pointing into its word, and whatever the participant types,
      the form stays one that processForm can score. */
  method MountForm(paragraphs: seq<string>, style: Style)
      returns (tokens: seq<seq<Token>>, items: seq<seq<Rendered>>, form: seq<Field>)
    requires |paragraphs| > 0
    ensures |tokens| == |items| == |paragraphs|
    ensures FirstRendered(paragraphs[0], style, tokens[0], items[0])
    ensures RenderedEach(paragraphs[1..], style, tokens[1..], items[1..])
    ensures form == FormFields(Flatten(items))
    ensures forall k :: 0 <= k < |form| ==> |form[k].inputs| >= 2
    ensures forall k, j :: 0 <= k < |form| && 0 <= j < |form[k].inputs| ==>
      form[k].inputs[j].value == "" && !form[k].inputs[j].readOnly
    ensures forall filled :: FilledFrom(form, filled) ==> AllWellFormed(filled)
  {
    tokens, items := RenderParagraphs(paragraphs, style);
    forall q | 1 <= q < |items|
      ensures GoodItems(items[q])
    {
      assert items[q] == items[1..][q - 1];
    }
    FlattenGood(items);
    FormOfGoodItems(Flatten(items));
    form := FormFields(Flatten(items));
    forall filled | FilledFrom(form, filled)
      ensures AllWellFormed(filled)
    {
      forall k | 0 <= k < |filled|
        ensures WellFormed(filled[k])
      {
        assert WellFormed(form[k]);
      }
    }
  }

  /** `input.value.toLowerCase() === word[letterIndex].toLowerCase()` */
  predicate LetterMatches(word: string, input: Input)
    requires input.letterIndex < |word|
  {
    Lower(input.value) == Lower([word[input.letterIndex]])
  }

  /** `inputs.every(...)`: all hidden letters typed right. */
  function AllLettersMatch(word: string, inputs: seq<Input>): (ok: bool)
    requires forall j :: 0 <= j < |inputs| ==> inputs[j].letterIndex < |word|
    ensures ok <==> forall j :: 0 <= j < |inputs| ==> LetterMatches(word, inputs[j])
  {
    if inputs == [] then true
    else LetterMatches(word, inputs[0]) && AllLettersMatch(word, inputs[1..])
  }

  /** A single wrong letter makes the whole word wrong. */
  lemma OneWrongLetter(word: string, inputs: seq<Input>, j: nat, x: Input)
    requires forall k :: 0 <= k < |inputs| ==> inputs[k].letterIndex < |word|
    requires j < |inputs| && x.letterIndex < |word| && !LetterMatches(word, x)
    ensures !AllLettersMatch(word, inputs[j := x])
  {
    assert !LetterMatches(word, inputs[j := x][j]);
  }

  /** The answers processForm pushes, one per field in document order. */
  function Answers(fields: seq<Field>): (answers: seq<Answer>)
    requires AllWellFormed(fields)
    ensures |answers| == |fields|
    ensures forall i :: 0 <= i < |fields| ==>
      answers[i] == Answer(fields[i].word, AllLettersMatch(fields[i].word, fields[i].inputs))
  {
    if fields == [] then []
    else
      var f := fields[|fields| - 1];
      Answers(fields[..|fields| - 1]) + [Answer(f.word, AllLettersMatch(f.word, f.inputs))]
  }

  /** Scoring one more field appends one answer. */
  lemma AnswersPrefix(fields: seq<Field>, i: nat)
    requires AllWellFormed(fields) && i < |fields|
    ensures AllWellFormed(fields[..i]) && AllWellFormed(fields[..i + 1])
    ensures Answers(fields[..i + 1])
      == Answers(fields[..i]) + [Answer(fields[i].word, AllLettersMatch(fields[i].word, fields[i].inputs))]
  {
    assert fields[..i + 1][..i] == fields[..i];
  }

  /** The counts of a result are those of its answers, as the results
      banner (c-test.tsx:260) counts them. */
  ghost predicate Consistent(r: FormResult) {
    r.correctWords == CorrectCount(r.answers) && r.totalWords == |r.answers|
  }

  /** The number of correct answers. */
  function CorrectCount(answers: seq<Answer>): (n: nat)
    ensures n <= |answers|
    ensures n == |answers| <==> forall i :: 0 <= i < |answers| ==> answers[i].isCorrect
  {
    if answers == [] then 0
    else CorrectCount(answers[..|answers| - 1]) + (if answers[|answers| - 1].isCorrect then 1 else 0)
  }

  lemma CorrectCountSnoc(answers: seq<Answer>, a: Answer)
    ensures CorrectCount(answers + [a]) == CorrectCount(answers) + (if a.isCorrect then 1 else 0)
  {
    assert (answers + [a])[..|answers|] == answers;
  }

  /** `(correctWords / totalWords) * 100`, NaN (`None`) when there are no
      target words. */
  function Score(correct: nat, total: nat): (s: Option<real>)
    requires correct <= total
    ensures s.None? <==> total == 0
  {
    if total == 0 then None else Some(correct as real / total as real * 100.0)
  }

  /** A defined score is the percentage of correct words: it lies in
      [0, 100] and is 100 exactly when every word is correct. */
  lemma ScorePercentage(correct: nat, total: nat)
    requires correct <= total && total > 0
    ensures var s := Score(correct, total).value;
      && s * total as real == 100.0 * correct as real
      && 0.0 <= s <= 100.0
      && (s == 100.0 <==> correct == total)
  {
    var c, t := correct as real, total as real;
    var q := c / t;
    assert q * t == c;
    RatioAtMostOne(c, t);
    assert q == 1.0 ==> c == t;
    assert c == t ==> q == 1.0;
    assert q * 100.0 * t == 100.0 * (q * t);
  }

  /** A part of a positive whole is at most all of it. */
  lemma RatioAtMostOne(c: real, t: real)
    requires 0.0 <= c <= t && t > 0.0
    ensures c / t <= 1.0
  {
  }

  /** 8 of 10 words right scores 80. */
  lemma EightOfTen()
    ensures Score(8, 10) == Some(80.0)
  {
  }

  /** The result of processForm on a form. */
  function Evaluate(fields: seq<Field>): (r: FormResult)
    requires AllWellFormed(fields)
    ensures r.answers == Answers(fields)
    ensures r.totalWords == |fields| && r.correctWords <= r.totalWords
    ensures r.correctWords == r.totalWords <==>
      forall i :: 0 <= i < |fields| ==> AllLettersMatch(fields[i].word, fields[i].inputs)
    ensures r.score == Score(r.correctWords, r.totalWords)
  {
    var answers := Answers(fields);
    var correct := CorrectCount(answers);
    FormResult(answers, correct, |fields|, Score(correct, |fields|))
  }

  /** processForm (c-test.tsx:93-125). */
  method ProcessForm(fields: seq<Field>) returns (r: FormResult)
    requires AllWellFormed(fields)
    ensures r == Evaluate(fields)
  {
    var correctWords := 0;
    var answers: seq<Answer> := [];
    assert AllWellFormed(fields[..0]);
    for i := 0 to |fields|
      invariant AllWellFormed(fields[..i]) && answers == Answers(fields[..i])
      invariant correctWords == CorrectCount(answers)
    {
      var field := fields[i];
      var allCorrect := AllLettersMatch(field.word, field.inputs);
      if allCorrect {
        correctWords := correctWords + 1;
      }
      AnswersPrefix(fields, i);
      CorrectCountSnoc(answers, Answer(field.word, allCorrect));
      answers := answers + [Answer(field.word, allCorrect)];
    }
    assert fields[..|fields|] == fields;
    r := FormResult(answers, correctWords, |fields|, Score(correctWords, |fields|));
  }

  /** processForm's counts agree with its answers. */
  lemma EvaluateConsistent(fields: seq<Field>)
    requires AllWellFormed(fields)
    ensures Consistent(Evaluate(fields))
  {
  }

  // ---------------------------------------------------------------------
  // Visual feedback (c-test.tsx:53-91)

  /** `results.answers.find((a) => a.word === word)`, as an index. */
  function FindAnswer(answers: seq<Answer>, word: string): (k: Option<nat>)
    ensures k.Some? ==> k.value < |answers| && answers[k.value].word == word
    ensures forall j :: 0 <= j < |answers| && (k.None? || j < k.value) ==> answers[j].word != word
  {
    if answers == [] then None
    else if answers[0].word == word then Some(0)
    else match FindAnswer(answers[1..], word)
      case Some(k) => Some(k + 1)
      case None => None
  }

  /** One input after feedback: locked, and holding the correct letter when
      its word was answered wrongly. */
  function FeedbackInput(word: string, input: Input, isCorrect: bool): (r: Input)
    requires input.letterIndex < |word|
    ensures r.readOnly && r.letterIndex == input.letterIndex
    ensures r.value == if isCorrect then input.value else [word[input.letterIndex]]
  {
    var correctLetter := [word[input.letterIndex]];
    if isCorrect then Input(input.letterIndex, input.value, true)
    else Input(input.letterIndex, if input.value != correctLetter then correctLetter else input.value, true)
  }

  /** One fieldset after feedback; untouched when no answer has its word. */
  function FeedbackField(f: Field, answers: seq<Answer>): (r: Field)
    requires WellFormed(f)
    ensures r.word == f.word && |r.inputs| == |f.inputs| && WellFormed(r)
  {
    match FindAnswer(answers, f.word)
    case None => f
    case Some(k) =>
      Field(f.word, seq(|f.inputs|, j requires 0 <= j < |f.inputs| => FeedbackInput(f.word, f.inputs[j], answers[k].isCorrect)))
  }

  function Feedback(fields: seq<Field>, answers: seq<Answer>): (r: seq<Field>)
    requires AllWellFormed(fields)
    ensures |r| == |fields| && AllWellFormed(r)
  {
    seq(|fields|, i requires 0 <= i < |fields| => FeedbackField(fields[i], answers))
  }

  /** Every field of a form finds an answer among that form's own answers,
      at or before its own position. */
  lemma EveryFieldAnswered(fields: seq<Field>, i: nat)
    requires AllWellFormed(fields) && i < |fields|
    ensures FindAnswer(Answers(fields), fields[i].word).Some?
    ensures FindAnswer(Answers(fields), fields[i].word).value <= i
  {
    assert Answers(fields)[i].word == fields[i].word;
  }

  /** After feedback with the form's own answers: every input is read-only;
      a word whose looked-up answer is wrong holds its correct letters; a
      word whose looked-up answer is right keeps what was typed. */
  lemma FeedbackEffects(fields: seq<Field>, i: nat, j: nat)
    requires AllWellFormed(fields) && i < |fields| && j < |fields[i].inputs|
    ensures var answers := Answers(fields);
      var k := FindAnswer(answers, fields[i].word).value;
      var after := Feedback(fields, answers)[i].inputs[j];
      var before := fields[i].inputs[j];
      && after.readOnly
      && after.letterIndex == before.letterIndex
      && (!answers[k].isCorrect ==> after.value == [fields[i].word[before.letterIndex]])
      && (answers[k].isCorrect ==> after.value == before.value)
  {
    EveryFieldAnswered(fields, i);
  }

  /** After feedback, input `j` of field `i` matches its word when `i` is
      the field its word's answer is looked up at. */
  lemma RescoredInput(fields: seq<Field>, i: nat, j: nat)
    requires AllWellFormed(fields) && i < |fields| && j < |fields[i].inputs|
    requires var k := FindAnswer(Answers(fields), fields[i].word); k.Some? && k.value == i
    ensures LetterMatches(fields[i].word, Feedback(fields, Answers(fields))[i].inputs[j])
  {
    FeedbackEffects(fields, i, j);
    var correct := Answers(fields)[i].isCorrect;
    assert correct ==> LetterMatches(fields[i].word, fields[i].inputs[j]);
  }

  /** After feedback, the inputs of field `i` match its word when `i` is
      the field its word's answer is looked up at. */
  lemma RescoredField(fields: seq<Field>, i: nat)
    requires AllWellFormed(fields) && i < |fields|
    requires var k := FindAnswer(Answers(fields), fields[i].word); k.Some? && k.value == i
    ensures AllLettersMatch(fields[i].word, Feedback(fields, Answers(fields))[i].inputs)
  {
    var after := Feedback(fields, Answers(fields))[i];
    forall j | 0 <= j < |after.inputs|
      ensures LetterMatches(fields[i].word, after.inputs[j])
    {
      RescoredInput(fields, i, j);
    }
  }

  /** With distinct target words, each word's answer is looked up at its
      own field. */
  lemma AnsweredAtOwnIndex(fields: seq<Field>, i: nat)
    requires AllWellFormed(fields) && i < |fields|
    requires forall i, j :: 0 <= i < j < |fields| ==> fields[i].word != fields[j].word
    ensures FindAnswer(Answers(fields), fields[i].word) == Some(i)
  {
    EveryFieldAnswered(fields, i);
    var k := FindAnswer(Answers(fields), fields[i].word).value;
    assert Answers(fields)[k].word == fields[k].word;
  }

  /** As written, Continue re-scores the form after feedback has filled in
      every wrong word: when no two target words share a text, every word
      then counts as correct. */
  lemma RescoreAfterFeedback(fields: seq<Field>)
    requires AllWellFormed(fields)
    requires forall i, j :: 0 <= i < j < |fields| ==> fields[i].word != fields[j].word
    ensures Evaluate(Feedback(fields, Answers(fields))).correctWords == |fields|
  {
    var after := Feedback(fields, Answers(fields));
    forall i | 0 <= i < |after|
      ensures AllLettersMatch(after[i].word, after[i].inputs)
    {
      AnsweredAtOwnIndex(fields, i);
      RescoredField(fields, i);
    }
    var r := Evaluate(after);
    assert r.correctWords == r.totalWords;
  }

  /** A one-word form with a wrong letter scores 0 when checked. */
  lemma OneWrongWordChecked(f: Field)
    requires WellFormed(f) && !AllLettersMatch(f.word, f.inputs)
    ensures AllWellFormed([f]) && Evaluate([f]).score == Some(0.0)
  {
    var fields := [f];
    assert AllWellFormed(fields);
    var answers := Answers(fields);
    assert answers == [Answer(f.word, false)];
    assert CorrectCount(answers) == 0 by {
      assert answers[..0] == [];
    }
    EvaluateConsistent(fields);
    ScorePercentage(0, 1);
  }

  /** ... and 100 when it is scored again after feedback. */
  lemma OneWrongWordInflated(f: Field)
    requires WellFormed(f) && !AllLettersMatch(f.word, f.inputs)
    ensures AllWellFormed([f])
    ensures Evaluate([f]).score == Some(0.0)
    ensures Evaluate(Feedback([f], Answers([f]))).score == Some(100.0)
  {
    OneWrongWordChecked(f);
    var after := Feedback([f], Answers([f]));
    RescoreAfterFeedback([f]);
    EvaluateConsistent(after);
    ScorePercentage(1, 1);
  }

  /** The word "house" (letters 3 and 4 hidden) typed "x", "y": checked it
      scores 0, re-scored after feedback 100. */
  lemma InflatedScoreExample()
    ensures var fields := [Field("house", [Input(3, "x", false), Input(4, "y", false)])];
      && Evaluate(fields).score == Some(0.0)
      && Evaluate(Feedback(fields, Answers(fields))).score == Some(100.0)
  {
    var f := Field("house", [Input(3, "x", false), Input(4, "y", false)]);
    assert !AllLettersMatch(f.word, f.inputs) by {
      assert Lower("x") == "x" && Lower("s") == "s";
      assert !LetterMatches("house", f.inputs[0]);
    }
    OneWrongWordInflated(f);
  }

  /** Input `j` of field `i` after a Backspace keystroke: its value is
      emptied, whether or not feedback made it read-only. */
  function ClearInput(fields: seq<Field>, i: nat, j: nat): (r: seq<Field>)
    requires i < |fields| && j < |fields[i].inputs|
    ensures |r| == |fields| && r[i].word == fields[i].word && |r[i].inputs| == |fields[i].inputs|
    ensures AllWellFormed(fields) ==> AllWellFormed(r)
  {
    var f := fields[i];
    fields[i := f.(inputs := f.inputs[j := f.inputs[j].(value := "")])]
  }

  /** A cleared input never matches its letter, so its word is scored
      wrong; every other word keeps its answer. */
  lemma BackspaceUnscores(fields: seq<Field>, i: nat, j: nat)
    requires AllWellFormed(fields) && i < |fields| && j < |fields[i].inputs|
    ensures var after := Answers(ClearInput(fields, i, j));
      && !after[i].isCorrect
      && forall k :: 0 <= k < |fields| && k != i ==> after[k] == Answers(fields)[k]
  {
    var cleared := ClearInput(fields, i, j);
    var input := cleared[i].inputs[j];
    assert !LetterMatches(cleared[i].word, input) by {
      assert |Lower(input.value)| == 0;
    }
  }

  /** Continuing `InflatedScoreExample`: a Backspace on the first input of
      "house" after feedback brings the re-scored result back to 0. */
  lemma BackspaceAfterFeedbackExample()
    ensures var fields := [Field("house", [Input(3, "x", false), Input(4, "y", false)])];
      var after := Feedback(fields, Answers(fields));
      && |after| == 1 && |after[0].inputs| == 2
      && Evaluate(ClearInput(after, 0, 0)).score == Some(0.0)
  {
    var fields := [Field("house", [Input(3, "x", false), Input(4, "y", false)])];
    var after := Feedback(fields, Answers(fields));
    assert after[0] == FeedbackField(fields[0], Answers(fields));
    var cleared := ClearInput(after, 0, 0);
    BackspaceUnscores(after, 0, 0);
    assert cleared == [cleared[0]];
    OneWrongWordChecked(cleared[0]);
  }

  /** The inner `inputs.forEach` of applyVisualFeedback for one fieldset
      whose word was answered `isCorrect`. */
  method FeedbackInputs(word: string, inputs: seq<Input>, isCorrect: bool) returns (updated: seq<Input>)
    requires forall j :: 0 <= j < |inputs| ==> inputs[j].letterIndex < |word|
    ensures |updated| == |inputs|
    ensures forall j :: 0 <= j < |inputs| ==> updated[j] == FeedbackInput(word, inputs[j], isCorrect)
  {
    updated := inputs;
    for j := 0 to |updated|
      invariant |updated| == |inputs|
      invariant forall m :: 0 <= m < j ==> updated[m] == FeedbackInput(word, inputs[m], isCorrect)
      invariant forall m :: j <= m < |updated| ==> updated[m] == inputs[m]
    {
      var input := updated[j];
      var correctLetter := [word[input.letterIndex]];
      input := input.(readOnly := true);
      if !isCorrect {
        if input.value != correctLetter {
          input := input.(value := correctLetter);
        }
      }
      updated := updated[j := input];
    }
  }

  /** The outer `fields.forEach` of applyVisualFeedback. */
  method FeedbackFields(fields: seq<Field>, answers: seq<Answer>) returns (updated: seq<Field>)
    requires AllWellFormed(fields)
    ensures updated == Feedback(fields, answers)
  {
    updated := fields;
    for i := 0 to |updated|
      invariant |updated| == |fields|
      invariant forall k :: 0 <= k < i ==> updated[k] == FeedbackField(fields[k], answers)
      invariant forall k :: i <= k < |updated| ==> updated[k] == fields[k]
    {
      var field := updated[i];
      var found := FindAnswer(answers, field.word);
      if found.None? {
        continue;
      }
      var answer := answers[found.value];
      var inputs := FeedbackInputs(field.word, field.inputs, answer.isCorrect);
      assert Field(field.word, inputs) == FeedbackField(field, answers);
      updated := updated[i := Field(field.word, inputs)];
    }
  }

  // ---------------------------------------------------------------------
  // The button bar and its delayed Continue (c-test.tsx:33-51, 127-177, 265-281)

  datatype UiState = Initial | ShowingAnswers | ShowingContinue

  /** Position of a state along initial -> showingAnswers -> showingContinue. */
  function UiRank(ui: UiState): nat {
    match ui
    case Initial => 0
    case ShowingAnswers => 1
    case ShowingContinue => 2
  }

  datatype Button = CheckAnswers | Continue

  /** The one button the bar shows in each state. */
  function VisibleButton(ui: UiState): (b: Option<Button>)
    ensures b == Some(CheckAnswers) <==> ui == Initial
    ensures b == Some(Continue) <==> ui == ShowingContinue
  {
    match ui
    case Initial => Some(CheckAnswers)
    case ShowingAnswers => None
    case ShowingContinue => Some(Continue)
  }

  /** The `results` state: the answers and score of Check Answers. */
  datatype Results = Results(answers: seq<Answer>, score: Option<real>)

  /** The dependency values an effect run last saw. */
  datatype Deps = Deps(results: Option<Results>, ui: UiState)

  /** What the form hands to `onComplete`. */
  datatype Submission = Submission(testId: string, style: Style, isSimplified: bool,
                                   correctWords: nat, totalWords: nat, score: Option<real>)

  /** One mounted CTest: its form, its component state, and the pending
      3000 ms timer of the feedback effect. */
  class CTestForm {
    const testId: string
    const style: Style
    const isSimplified: bool
    var fields: seq<Field>
    var uiState: UiState
    var results: Option<Results>
    var timerArmed: bool
    var lastDeps: Deps
    /** The result Check Answers computed. */
    ghost var checked: FormResult

    ghost predicate Valid()
      reads this
    {
      && AllWellFormed(fields)
      && (uiState != Initial ==> results.Some?)
      && (timerArmed ==> uiState == ShowingAnswers)
      && (results.Some? ==> results.value == Results(checked.answers, checked.score))
      && Consistent(checked)
    }

    /** Mounting: the first effect run sees no results and does nothing. */
    constructor (testId: string, style: Style, isSimplified: bool, fields: seq<Field>)
      requires AllWellFormed(fields)
      ensures Valid()
      ensures this.testId == testId && this.style == style && this.isSimplified == isSimplified
      ensures this.fields == fields && uiState == Initial && results == None && !timerArmed
      ensures lastDeps == Deps(None, Initial)
    {
      this.testId, this.style, this.isSimplified := testId, style, isSimplified;
      this.fields := fields;
      uiState, results, timerArmed := Initial, None, false;
      lastDeps := Deps(None, Initial);
      checked := FormResult([], 0, 0, None);
    }

    /** applyVisualFeedback: walks the fieldsets and their inputs, locking
        each input and filling in the letters of wrongly answered words. */
    method ApplyVisualFeedback()
      requires Valid()
      modifies this`fields
      ensures Valid()
      ensures fields == if results.None? then old(fields) else Feedback(old(fields), results.value.answers)
    {
      if results.None? {
        return;
      }
      fields := FeedbackFields(fields, results.value.answers);
    }

    /** handleShowAnswers: the click on Check Answers. */
    method HandleShowAnswers()
      requires Valid() && VisibleButton(uiState) == Some(CheckAnswers)
      modifies this`results, this`checked
      ensures Valid()
      ensures checked == Evaluate(fields)
      ensures results == Some(Results(checked.answers, checked.score))
    {
      var r := ProcessForm(fields);
      results := Some(Results(r.answers, r.score));
      checked := r;
      EvaluateConsistent(fields);
    }

    /** The body of the feedback effect. */
    method EffectBody()
      requires Valid() && !timerArmed
      modifies this`fields, this`uiState, this`timerArmed
      ensures Valid()
      ensures UiRank(old(uiState)) <= UiRank(uiState)
      ensures if old(results).Some? && old(uiState) == Initial then
          fields == Feedback(old(fields), results.value.answers) && uiState == ShowingAnswers && timerArmed
        else
          fields == old(fields) && uiState == old(uiState) && !timerArmed
    {
      if results.Some? && uiState == Initial {
        ApplyVisualFeedback();
        uiState := ShowingAnswers;
        timerArmed := true;
      }
    }

    /** A commit with the effect as written, dependency list
        `[results, uiState]`: when either changed, the previous run's
        cleanup clears the timer and the body runs again. */
    method CommitEffectAsWritten()
      requires Valid()
      modifies this`fields, this`uiState, this`timerArmed, this`lastDeps
      ensures Valid()
      ensures UiRank(old(uiState)) <= UiRank(uiState)
      ensures var deps := Deps(old(results), old(uiState));
        if deps == old(lastDeps) then
          fields == old(fields) && uiState == old(uiState) && timerArmed == old(timerArmed) && lastDeps == deps
        else
          && lastDeps == deps
          && (if old(results).Some? && old(uiState) == Initial then
                fields == Feedback(old(fields), results.value.answers) && uiState == ShowingAnswers && timerArmed
              else
                fields == old(fields) && uiState == old(uiState) && !timerArmed)
    {
      var deps := Deps(results, uiState);
      if deps != lastDeps {
        timerArmed := false;
        lastDeps := deps;
        EffectBody();
      }
    }

    /** A commit with the effect keyed on `results` alone: switching the
        state to showingAnswers no longer cancels the timer. */
    method CommitEffect()
      requires Valid()
      modifies this`fields, this`uiState, this`timerArmed, this`lastDeps
      ensures Valid()
      ensures UiRank(old(uiState)) <= UiRank(uiState)
      ensures if old(results) == old(lastDeps).results then
          fields == old(fields) && uiState == old(uiState) && timerArmed == old(timerArmed) && lastDeps == old(lastDeps)
        else
          && lastDeps == Deps(old(results), old(uiState))
          && (if old(results).Some? && old(uiState) == Initial then
                fields == Feedback(old(fields), results.value.answers) && uiState == ShowingAnswers && timerArmed
              else
                fields == old(fields) && uiState == old(uiState) && !timerArmed)
    {
      if results != lastDeps.results {
        timerArmed := false;
        lastDeps := Deps(results, uiState);
        EffectBody();
      }
    }

    /** The 3000 ms timeout firing, if it is still pending. */
    method Tick()
      requires Valid()
      modifies this`uiState, this`timerArmed
      ensures Valid() && !timerArmed
      ensures UiRank(old(uiState)) <= UiRank(uiState)
      ensures uiState == if old(timerArmed) then ShowingContinue else old(uiState)
    {
      if timerArmed {
        timerArmed := false;
        uiState := ShowingContinue;
      }
    }

    /** A Backspace keystroke on input `j` of field `i`: `handleKeyDown`
        empties the value without looking at `readOnly`, so it also works
        after feedback. */
    method Backspace(i: nat, j: nat)
      requires Valid() && i < |fields| && j < |fields[i].inputs|
      modifies this`fields
      ensures Valid()
      ensures fields == ClearInput(old(fields), i, j)
    {
      fields := ClearInput(fields, i, j);
    }

    /** Check Answers and the two commits that follow, as written. */
    method ClickCheckAnswersAsWritten()
      requires Valid() && uiState == Initial && !timerArmed && lastDeps == Deps(None, Initial) && results == None
      modifies this`fields, this`uiState, this`timerArmed, this`lastDeps, this`results, this`checked
      ensures Valid()
      ensures checked == Evaluate(old(fields))
      ensures results == Some(Results(checked.answers, checked.score))
      ensures fields == Feedback(old(fields), Answers(old(fields)))
      ensures uiState == ShowingAnswers && !timerArmed
    {
      HandleShowAnswers();
      CommitEffectAsWritten();
      CommitEffectAsWritten();
    }

    /** Check Answers and the two commits that follow, with the effect keyed
        on `results`. */
    method ClickCheckAnswers()
      requires Valid() && uiState == Initial && !timerArmed && lastDeps == Deps(None, Initial) && results == None
      modifies this`fields, this`uiState, this`timerArmed, this`lastDeps, this`results, this`checked
      ensures Valid()
      ensures checked == Evaluate(old(fields))
      ensures results == Some(Results(checked.answers, checked.score))
      ensures fields == Feedback(old(fields), Answers(old(fields)))
      ensures uiState == ShowingAnswers && timerArmed
    {
      HandleShowAnswers();
      CommitEffect();
      CommitEffect();
    }

    /** handleSubmit as written: Continue scores the form again, after the
        feedback has overwritten the wrong letters. */
    method SubmitAsWritten() returns (s: Submission)
      requires Valid() && VisibleButton(uiState) == Some(Continue)
      ensures var r := Evaluate(fields);
        s == Submission(testId, style, isSimplified, r.correctWords, r.totalWords, r.score)
    {
      var r := ProcessForm(fields);
      s := Submission(testId, style, isSimplified, r.correctWords, r.totalWords, r.score);
    }

    /** handleSubmit reporting the score that Check Answers computed. */
    method Submit() returns (s: Submission)
      requires Valid() && VisibleButton(uiState) == Some(Continue)
      ensures s == Submission(testId, style, isSimplified, checked.correctWords, checked.totalWords, checked.score)
    {
      var answers := results.value.answers;
      s := Submission(testId, style, isSimplified, CorrectCount(answers), |answers|, results.value.score);
    }
  }

  /** As written, the Continue button never appears: after Check Answers the
      timer is already cleared, so the timeout changes nothing. */
  method ContinueNeverShownAsWritten(fields: seq<Field>) returns (ui: UiState)
    requires AllWellFormed(fields)
    ensures ui == ShowingAnswers
  {
    var form := new CTestForm("t", Box, false, fields);
    form.ClickCheckAnswersAsWritten();
    form.Tick();
    ui := form.uiState;
  }

  /** With the effect keyed on `results`, one test runs from Check Answers
      through the timeout to Continue and submits the checked score. */
  method RunTest(testId: string, style: Style, isSimplified: bool, fields: seq<Field>) returns (s: Submission)
    requires AllWellFormed(fields)
    ensures var r := Evaluate(fields);
      s == Submission(testId, style, isSimplified, r.correctWords, r.totalWords, r.score)
  {
    var form := new CTestForm(testId, style, isSimplified, fields);
    form.ClickCheckAnswers();
    form.Tick();
    s := form.Submit();
  }
}
