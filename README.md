# C-test pilot study: a Dafny model of the test flow

The application is a Next.js pilot study. A participant fills in C-tests. A
paragraph is cut into separators and word chunks, and the word chunks are counted
in order. A chunk of four or more ASCII letters whose count is odd (the 2nd, 4th,
… chunk) becomes a target: the second half of the word is hidden behind one
letter input per missing letter. Three presentation styles exist: letter
*box*es, *underline*s and one *span*. The participant gets a session with one
style, picked from their random id, and takes the test texts one after another.
For each text they:

1. press **Check Answers**;
2. see the score and the corrected letters;
3. after a delay, press **Continue**.

All results are posted together at the end. An admin page groups every stored
result by style and by text type (simplified or standard) and shows the average
score of each group.

The model is split into seven files.

- `text.dfy` (`Text`): the character classes the regular expressions use. These
  are JavaScript `\s`, the punctuation `[.!?,;:]` and the sentence terminators
  `[.!?]`. It also has ASCII lower-casing and string concatenation.
- `tokenizer.dfy` (`Tokenizer`) covers `splitWords`, `isContentWord`,
  `getShowLetter` and `splitFirstSentence` from `c-test.tsx`.
  - `split(/(\s+|[.!?,;:])/)` is modelled as an alternation of chunks and
    separators.
  - Empty parts are dropped.
  - Every word chunk is counted. A content word becomes a target when an odd
    number of word chunks come before it.
- `word_item.dfy` (`WordItem`) covers `word-item.tsx`:
  - the split of a target word into revealed letters and letter inputs;
  - `handleNext` and `handlePrev`, which move the focus across the inputs of one
    paragraph;
  - the key and change handlers of `LetterInput`. These are a `Navigator` class
    whose fields are the focus and the input values.
- `ctest.dfy` (`CTest`) covers `c-test.tsx`:
  - rendering of the paragraphs;
  - `processForm`, which is the scoring;
  - `applyVisualFeedback`;
  - the `uiState` machine with its effect, its timer and its buttons. This is a
    `CTestForm` class. A React commit is a method call, and the timer firing is
    `Tick`.
- `session.dfy` (`Session`) covers `all-tests/page.tsx`:
  - the style chosen from the participant id;
  - the paragraph split `split(/\n\s*\n/).filter(Boolean)`;
  - the session page `AllTests`, with `handleTestComplete` and the final post.
- `admin.dfy` (`Admin`) covers `admin/page.tsx`: grouping by style and text type,
  the per-group averages, and the cells of the table.
- `wrappers.dfy` (`Wrappers`) holds the `Option` type. `None` stands for
  JavaScript `undefined`, and for the `NaN` that `0 / 0` gives.

In four places the code does not do what it evidently intends. Each one is
modelled twice: once as written, with a member that shows the defect, and once
corrected, with the intended property proved. The rest of the model uses the
corrected version. See "## Findings". The c-test.tsx:51 defect keeps Continue
hidden, so the two defects behind Continue (c-test.tsx:138 and
all-tests/page.tsx:71) show only once it is fixed.

## Model

| member | source | states |
|---|---|---|
| Text.Lower | src/app/components/c-test.tsx:110 | lower-casing keeps the length, so letter positions survive `toLowerCase` |
| Text.LowerMatchesLetter | src/app/components/c-test.tsx:110 | a typed character matches a hidden ASCII letter ignoring case exactly when it is that letter in either case, or the Kelvin sign U+212A for k |
| Text.ConcatAppend | src/app/components/c-test.tsx:298 | concatenating parts distributes over appending lists of parts |
| Tokenizer.NextBreak | src/app/components/c-test.tsx:298 | finds the first position at or after `i` where the separator pattern can match, and nothing before it matches |
| Tokenizer.SeparatorEnd | src/app/components/c-test.tsx:298 | the separator that starts at a break is a non-empty whitespace run or one punctuation mark |
| Tokenizer.SplitParts | src/app/components/c-test.tsx:298 | the capturing split gives an odd number of parts; they concatenate back to the text; odd parts are separators; even parts hold no separator character |
| Tokenizer.SplitPartsMaximal | src/app/components/c-test.tsx:298 | `\s+` is greedy: a whitespace separator takes the whole run, so no whitespace separator follows another across an empty chunk |
| Tokenizer.NonEmpty | src/app/components/c-test.tsx:301 | dropping empty parts leaves no empty part |
| Tokenizer.ConcatNonEmpty | src/app/components/c-test.tsx:301 | dropping empty parts does not change the concatenation |
| Tokenizer.SeparatorNotContent | src/app/components/c-test.tsx:302-304 | a separator is never a content word, so the separator branch never loses a target |
| Tokenizer.SplitWords | src/app/components/c-test.tsx:288-316 | the tokens are the non-empty split parts in order and concatenate back to the text; a token is a target exactly when targeting is on, it is a content word, and an odd number of word tokens come before it; separators are never targets; with targeting off, nothing is a target |
| Tokenizer.TokenizationUnique | src/app/components/c-test.tsx:288-316 | a text has exactly one tokenization for each targeting flag |
| Tokenizer.RankAcrossSeparators | src/app/components/c-test.tsx:306-311 | the word counter goes up by exactly one per word token, whatever separators lie between |
| Tokenizer.NoAdjacentTargets | src/app/components/c-test.tsx:309 | two word tokens with only separators between them are never both targets |
| Tokenizer.ShowLetter | src/app/components/c-test.tsx:31 | the number of revealed letters is the length halved and rounded up |
| Tokenizer.ContentWordHidesTwo | src/app/components/c-test.tsx:31 | a content word of at least four letters keeps at least two hidden letters |
| Tokenizer.NextTerminator | src/app/components/c-test.tsx:181 | finds the first sentence terminator at or after `i` |
| Tokenizer.SplitFirstSentence | src/app/components/c-test.tsx:180-187 | first sentence plus rest is the text; with no leading sentence, the whole text is the first sentence and the rest is empty; otherwise the first sentence is a non-empty run without terminators, then one terminator and all the whitespace after it |
| Tokenizer.NoTerminatorNoRest | src/app/components/c-test.tsx:182 | a paragraph without `.`, `!` or `?` is shown whole as its first sentence |
| WordItem.RenderWord | src/app/components/word-item.tsx:28-35 | a non-target token is rendered as plain text; a target word shows its first `min(showLetter, length)` letters and one input per remaining letter; input `i` has letter index `showLetter + i` and holds the word's letter at that index |
| WordItem.StyleIndependent | src/app/components/word-item.tsx:137-188 | box, underline and span render the same letters at the same letter indices; only presentation differs |
| WordItem.NextTargetWord | src/app/components/word-item.tsx:54-66 | the sibling walk forward stops at the first later word that has inputs |
| WordItem.PrevTargetWord | src/app/components/word-item.tsx:79-91 | the sibling walk backward stops at the nearest earlier word that has inputs |
| WordItem.NextPos | src/app/components/word-item.tsx:43-69 | the intended move: the focus goes to the immediately following input of the paragraph, and stays put only at the last one |
| WordItem.PrevPos | src/app/components/word-item.tsx:71-94 | the intended move: the focus goes to the immediately preceding input of the paragraph, and stays put only at the first one |
| WordItem.NextPosAsWritten | src/app/components/word-item.tsx:43-69 | as written, the focus moves one input forward within the word and never leaves the word |
| WordItem.PrevPosAsWritten | src/app/components/word-item.tsx:71-94 | as written, the focus moves one input back within the word and never leaves the word |
| WordItem.CrossWordExample | src/app/components/word-item.tsx:49-66 | with two target words of two inputs each, the intended moves cross between the words and the moves as written stay put |
| WordItem.PrevUndoesNext | src/app/components/word-item.tsx:43-94 | moving forward and then back returns to the same input |
| WordItem.NextUndoesPrev | src/app/components/word-item.tsx:43-94 | moving back and then forward returns to the same input |
| WordItem.Navigator.constructor | src/app/components/word-item.tsx:273-289 | every input starts empty, with the focus on a valid input |
| WordItem.Navigator.HandleNext | src/app/components/word-item.tsx:43-69 | the loop over following words computes `NextPos`; values are unchanged |
| WordItem.Navigator.HandlePrev | src/app/components/word-item.tsx:71-94 | the loop over preceding words computes `PrevPos`; values are unchanged |
| WordItem.Navigator.KeyDown | src/app/components/word-item.tsx:237-261 | ArrowLeft and ArrowRight move back and forward; Backspace clears the focused input and also moves back when it was already empty, leaving the previous input's value as it was; other keys change nothing |
| WordItem.Navigator.Change | src/app/components/word-item.tsx:263-271 | the typed value (at most one character) is stored; a non-empty value moves the focus forward and an empty one does not; every input keeps at most one character |
| CTest.RenderedTargetsGood | src/app/components/c-test.tsx:221-229 | with the targeting rule, every rendered target word has at least two inputs, all pointing into the word |
| CTest.RenderText | src/app/components/c-test.tsx:238-248 | a paragraph is rendered from its tokenization with targeting on |
| CTest.RenderFirstParagraph | src/app/components/c-test.tsx:216-233 | paragraph 0 begins with its first sentence as plain text; with no rest nothing else is rendered, otherwise the rest is rendered from its tokenization; every target has at least two inputs pointing into its word |
| CTest.RenderRest | src/app/components/c-test.tsx:236-250 | each later paragraph is rendered whole from its tokenization with targeting on, every target with at least two inputs pointing into its word |
| CTest.RenderParagraphs | src/app/components/c-test.tsx:189-251 | paragraph 0 begins with its first sentence as plain text, followed by the rendered tokens of the rest if there is a rest; every other paragraph is rendered whole; every target has at least two inputs pointing into its word |
| CTest.FormFields | src/app/components/c-test.tsx:94-105 | one field per rendered fieldset, in document order; each has the fieldset's word and one empty, editable input per letter input, with its letter index |
| CTest.FormOfGoodItems | src/app/components/c-test.tsx:94-110 | every field of a well-rendered form has at least two empty, editable inputs, each pointing into its word |
| CTest.MountForm | src/app/components/c-test.tsx:189-251 | the form scored is that of the rendered paragraphs: every field has at least two empty inputs pointing into its word, and every way of filling it in gives a form `processForm` can score |
| CTest.OneWrongLetter | src/app/components/c-test.tsx:108-111 | a word with one mismatching input is not correct |
| CTest.Answers | src/app/components/c-test.tsx:101-117 | one answer per field, in order, with the field's word; it is correct exactly when every input matches its letter, ignoring case |
| CTest.AnswersPrefix | src/app/components/c-test.tsx:101-117 | the answers of a longer form extend those of a shorter one |
| CTest.CorrectCount | src/app/components/c-test.tsx:113-115 | the number of correct words is at most the number of answers |
| CTest.Score | src/app/components/c-test.tsx:123 | the score is undefined exactly when there are no words (`0 / 0`) |
| CTest.ScorePercentage | src/app/components/c-test.tsx:123 | with at least one word, `score * total == 100 * correct`, the score lies in [0, 100], and it is 100 exactly when every word is correct |
| CTest.EightOfTen | src/app/components/c-test.tsx:123 | 8 of 10 correct words give a score of 80 |
| CTest.Evaluate | src/app/components/c-test.tsx:93-125 | the result's answers are the per-field answers; total is the field count; correct equals total exactly when every answer is correct; the score is computed from both |
| CTest.EvaluateConsistent | src/app/components/c-test.tsx:113-124 | the reported counts agree with the answers: correct is the number of correct answers and total is their number |
| CTest.ProcessForm | src/app/components/c-test.tsx:93-125 | the loop over fields computes `Evaluate` |
| CTest.FindAnswer | src/app/components/c-test.tsx:66 | `find` returns the first answer for the word, and none before it matches |
| CTest.FeedbackInput | src/app/components/c-test.tsx:70-88 | every input gets its `readOnly` flag set (which stops typing but not the Backspace handler); an input of an incorrect word gets the word's letter and an input of a correct word keeps its value |
| CTest.FeedbackField | src/app/components/c-test.tsx:60-89 | feedback keeps the word and the number of its inputs |
| CTest.EveryFieldAnswered | src/app/components/c-test.tsx:66-68 | every field's word has an answer at or before its own index, so the early return at line 68 is never taken |
| CTest.FeedbackEffects | src/app/components/c-test.tsx:60-89 | after feedback an input has its `readOnly` flag set and keeps its letter index; its value is the correct letter when the first answer for its word is incorrect, and is unchanged otherwise |
| CTest.AnsweredAtOwnIndex | src/app/components/c-test.tsx:66 | when no two target words share a text, each field's word is found at that field's own answer |
| CTest.RescoredInput | src/app/components/c-test.tsx:70-88 | after feedback, an input of a field whose own answer is looked up matches its letter: a wrong word got its letters, a right word already matched |
| CTest.RescoredField | src/app/components/c-test.tsx:108-111 | after feedback such a field counts as correct when it is scored again |
| CTest.RescoreAfterFeedback | src/app/components/c-test.tsx:138 | when the target words are distinct, scoring the form again right after feedback (no Backspace in between) counts every word as correct |
| CTest.OneWrongWordChecked | src/app/components/c-test.tsx:93-125 | a one-word form with a wrong letter scores 0 |
| CTest.OneWrongWordInflated | src/app/components/c-test.tsx:135-151 | the same form scores 100 when it is scored again after feedback |
| CTest.InflatedScoreExample | src/app/components/c-test.tsx:135-151 | a one-word form with two wrong letters scores 0 at Check Answers and 100 when it is scored again at Continue with no key pressed in between |
| CTest.BackspaceUnscores | src/app/components/word-item.tsx:249-256 | a Backspace empties an input, read-only or not; its word is then scored wrong and every other word keeps its answer |
| CTest.BackspaceAfterFeedbackExample | src/app/components/word-item.tsx:249-256 | in the same form, a Backspace on a corrected letter after feedback brings the re-scored result back to 0 |
| CTest.FeedbackInputs | src/app/components/c-test.tsx:70-88 | the loop over one fieldset's inputs applies `FeedbackInput` to each |
| CTest.FeedbackFields | src/app/components/c-test.tsx:60-89 | the loop over fieldsets computes `Feedback`, skipping fields whose word has no answer |
| CTest.VisibleButton | src/app/components/c-test.tsx:265-281 | Check Answers is shown exactly in `initial`; Continue exactly in `showingContinue`; no button otherwise |
| CTest.CTestForm.constructor | src/app/components/c-test.tsx:33-37 | the form starts `initial`, with no results and no timer |
| CTest.CTestForm.ApplyVisualFeedback | src/app/components/c-test.tsx:53-91 | the nested loops over fields and inputs apply `Feedback` with the stored answers; nothing happens without results |
| CTest.CTestForm.HandleShowAnswers | src/app/components/c-test.tsx:127-133 | stores the answers and score of `processForm` on the current form |
| CTest.CTestForm.EffectBody | src/app/components/c-test.tsx:40-50 | with results in `initial`, it applies feedback, moves to `showingAnswers` and arms the timer; otherwise it does nothing; the state never moves backwards |
| CTest.CTestForm.CommitEffectAsWritten | src/app/components/c-test.tsx:39-51 | with deps `[results, uiState]`: when a dep changed, it clears the pending timer and runs the effect again |
| CTest.CTestForm.CommitEffect | src/app/components/c-test.tsx:39-51 | with deps `[results]`: the timer survives the move to `showingAnswers` |
| CTest.CTestForm.Tick | src/app/components/c-test.tsx:45-47 | an armed timer moves the state to `showingContinue`; otherwise nothing changes |
| CTest.CTestForm.ClickCheckAnswersAsWritten | src/app/components/c-test.tsx:39-51 | after Check Answers and React's commits, the state is `showingAnswers` and no timer is pending |
| CTest.CTestForm.ClickCheckAnswers | src/app/components/c-test.tsx:39-51 | with the corrected deps, a timer is pending after Check Answers |
| CTest.CTestForm.SubmitAsWritten | src/app/components/c-test.tsx:135-151 | Continue scores the form again as it stands, after the feedback overwrote its inputs and after any Backspace since (Continue is shown only under the corrected effect) |
| CTest.CTestForm.Backspace | src/app/components/word-item.tsx:249-256 | a Backspace empties the chosen input even when feedback set its `readOnly` flag, and changes nothing else in the form |
| CTest.CTestForm.Submit | src/app/components/c-test.tsx:135-151 | Continue reports the result checked at Check Answers |
| CTest.ContinueNeverShownAsWritten | src/app/components/c-test.tsx:51 | with the code's deps, whatever the timer does, the state stays `showingAnswers` and Continue never appears |
| CTest.RunTest | src/app/components/c-test.tsx:39-151 | with the corrected deps and submit, the full Check Answers, tick, Continue sequence reports exactly `Evaluate` of the form the participant filled |
| Session.CharCode | src/app/all-tests/page.tsx:33 | `charCodeAt(0)` is the UTF-16 code unit: the code point itself in the basic plane, the high surrogate above it |
| Session.StyleIndex | src/app/all-tests/page.tsx:34 | the three styles are numbered 0, 1, 2 in the order `box`, `underline`, `span` |
| Session.StyleFor | src/app/all-tests/page.tsx:30-37 | an empty id keeps the default `box`; otherwise the style's index is the first code unit modulo 3 |
| Session.SameFirstCharSameStyle | src/app/all-tests/page.tsx:33 | ids with the same first character get the same style |
| Session.DigitResidues | src/app/all-tests/page.tsx:33 | of the ten digits `0-9`, four have a code unit divisible by 3 and three fall in each other residue |
| Session.LetterResidues | src/app/all-tests/page.tsx:33 | of the letters `a-z`, eight have a code unit divisible by 3 and nine fall in each other residue |
| Session.Base36Balanced | src/app/all-tests/page.tsx:25-33 | of the 36 base-36 digits `0-9a-z` that can start a generated id, exactly 12 select each style |
| Session.EveryStyleReachable | src/app/all-tests/page.tsx:33-35 | ids starting with `0`, `1`, `2` select box, underline and span |
| Session.LastNewline | src/app/all-tests/page.tsx:131 | finds the last newline in a range |
| Session.MatchEnd | src/app/all-tests/page.tsx:131 | the greedy match of `\n\s*\n` at a position is the longest one |
| Session.NextMatch | src/app/all-tests/page.tsx:131 | the split uses the leftmost match, and no earlier position matches |
| Session.NoBlankLineBetween | src/app/all-tests/page.tsx:131 | the text between a scan position and the leftmost match after it has no blank line |
| Session.BlankLineRun | src/app/all-tests/page.tsx:131 | every match is a newline, whitespace, and a newline |
| Session.BlankParts | src/app/all-tests/page.tsx:131 | pieces and matches alternate and concatenate back to the text; matches are blank-line runs; pieces contain no blank line |
| Session.BlankPartsLeftmost | src/app/all-tests/page.tsx:131 | each piece runs up to the leftmost greedy match from its start, that match is the next separator, and no match follows the last piece |
| Session.BlankPartsUnique | src/app/all-tests/page.tsx:131 | any alternation that concatenates to the text and takes the leftmost match each time is the split `BlankParts` computes |
| Session.ThreeNewlines | src/app/all-tests/page.tsx:131 | `"\n\n\n"` is one greedy separator between two empty pieces |
| Session.PiecesHaveNoBlankLine | src/app/all-tests/page.tsx:131 | no piece that survives the filter contains a blank line |
| Session.KeptIndices | src/app/all-tests/page.tsx:131 | the positions `filter(Boolean)` keeps: exactly the non-empty pieces, in increasing order |
| Session.KeptPieces | src/app/all-tests/page.tsx:131 | dropping the empty pieces leaves the pieces at the kept positions, in order |
| Session.Paragraphs | src/app/all-tests/page.tsx:131 | the paragraphs are the non-empty pieces of the leftmost split, in order; each is non-empty and contains no blank line |
| Session.OneBlockOneParagraph | src/app/all-tests/page.tsx:131 | a non-empty text without a blank line is one paragraph |
| Session.EmptyTextNoParagraphs | src/app/all-tests/page.tsx:131 | an empty text gives no paragraphs |
| Session.AllTests.constructor | src/app/all-tests/page.tsx:10-21 | the session starts at test 0 with style box, no results, not completed and nothing posted |
| Session.AllTests.Identify | src/app/all-tests/page.tsx:23-37 | setting the id also sets the style derived from it; an empty id keeps the style |
| Session.AllTests.CurrentParagraphs | src/app/all-tests/page.tsx:128-131 | the current test gets the paragraphs of the current summary's text, each non-empty and without a blank line |
| Session.AllTests.HandleTestCompleteAsWritten | src/app/all-tests/page.tsx:39-84 | appends the result; before the last test it advances the index; at the last test it completes and posts the results from before the append |
| Session.AllTests.HandleTestComplete | src/app/all-tests/page.tsx:39-60 | the same steps, but it posts the results including the final one |
| Session.RunSessionAsWritten | src/app/all-tests/page.tsx:39-84 | a whole session posts exactly one batch, and it lacks the last test's result |
| Session.RunSession | src/app/all-tests/page.tsx:39-84 | with the correction, a whole session posts exactly one batch holding every result in order |
| Admin.TextTypeOf | src/app/admin/page.tsx:47 | the text type is `simplified` exactly when the result is simplified |
| Admin.Bucket | src/app/admin/page.tsx:45-57 | a group holds exactly the results of its style and text type (membership; order and multiplicity in `BucketInOrder`) |
| Admin.MatchingIndices | src/app/admin/page.tsx:45-57 | the positions of the results of one style and text type: all of them, in increasing order |
| Admin.BucketInOrder | src/app/admin/page.tsx:45-57 | a group is the results at the matching positions, each once, in the order `forEach` pushes them |
| Admin.BucketOfAbsentStyle | src/app/admin/page.tsx:49-51 | a style that no result has has no entries |
| Admin.EveryResultInItsBucket | src/app/admin/page.tsx:45-57 | every result lands in its own group and in no other |
| Admin.BucketsPartitionStyle | src/app/admin/page.tsx:45-57 | a style's two groups together hold as many results as the style has |
| Admin.StyleResults | src/app/admin/page.tsx:46 | holds exactly the results of one style |
| Admin.StylesMembers | src/app/admin/page.tsx:46-51 | a style is a key exactly when some result has it |
| Admin.StyleOrder | src/app/admin/page.tsx:49-51 | the key list holds each style that occurs exactly once |
| Admin.FirstIndex | src/app/admin/page.tsx:49-51 | the index of the first result of a style: no earlier result has it |
| Admin.StyleOrderFirstOccurrence | src/app/admin/page.tsx:49-51 | the keys, hence the table rows, come in the order of each style's first result |
| Admin.BucketSizesSum | src/app/admin/page.tsx:42-58 | the group sizes over all rows add up to the number of results |
| Admin.AddResultGroups | src/app/admin/page.tsx:45-58 | after one more result, the updated map is the grouping of the longer list |
| Admin.PushResult | src/app/admin/page.tsx:45-58 | one `forEach` step creates the entries it needs and pushes the result onto its group; a new style key goes to the end of the key order |
| Admin.GroupResults | src/app/admin/page.tsx:42-58 | the loop builds a map whose keys are the styles present; a style's entry has a text type exactly when some result of that style has it, holding those results in order; the keys are created in order of first occurrence |
| Admin.GroupsNonEmpty | src/app/admin/page.tsx:49-55 | every created entry and every created group is non-empty |
| Admin.TotalScoreBounds | src/app/admin/page.tsx:67 | with scores in [0, 100], the sum lies between 0 and 100 times the count |
| Admin.Mean | src/app/admin/page.tsx:68 | the mean is undefined exactly for an empty group; otherwise mean times count is the sum |
| Admin.MeanInRange | src/app/admin/page.tsx:68 | with scores in [0, 100] the mean lies in [0, 100] |
| Admin.ConstantMean | src/app/admin/page.tsx:67-68 | a group with the same score everywhere has that score as its mean |
| Admin.ConstantTotal | src/app/admin/page.tsx:67 | the sum of `n` equal scores `v` is `v * n` |
| Admin.StyleAverages | src/app/admin/page.tsx:66-69 | one average per text type present, each the mean of its group |
| Admin.ComputeAverages | src/app/admin/page.tsx:60-70 | the averages have the groups' keys and the groups' means |
| Admin.AveragesDefined | src/app/admin/page.tsx:60-70 | every average shown is defined (never `NaN`), and lies in [0, 100] when the scores do |
| Admin.CellFor | src/app/admin/page.tsx:125-133 | a cell shows "No data" exactly when its text type is absent for the style, and otherwise the stored average |
| Admin.Summarize | src/app/admin/page.tsx:42-136 | the total is the number of results; the averages are those of the grouping of the results; the table is hidden exactly when there are no results; its rows are the styles with averages, each once, in order of first result |
| Admin.SomeCellHasData | src/app/admin/page.tsx:120-134 | every row has at least one cell with data |

## Left out

- Text.Lower: folds the ASCII capitals and the Kelvin sign U+212A (to 'k') and keeps every other character. `toLowerCase` also folds the other non-ASCII cased letters, some of them into two characters. None of those becomes a single ASCII letter, and hidden letters are ASCII, so the letter comparison of line 110 gives the same verdict. `Lower` is still not a full model of `toLowerCase`.
- Scores and averages are exact `real`s, not IEEE doubles. `toFixed(1)` display formatting is left out.
- The undefined score of an empty form (`NaN` from `0 / 0`) is `None`. When `NaN` is stored through `JSON.stringify` it becomes `null`; that is not part of this model.
- WordItem.Navigator: the sibling walk of `handleNext` and `handlePrev` stays inside the paragraph's `<p>`, so a `Navigator` covers the letter inputs of one paragraph. The DOM walk itself is replaced by a walk over the list of input counts per token. The as-written walk never leaves the word (see "## Findings"); the `Navigator` uses the intended one.
- WordItem.PrevPos: were the backward walk to reach a word, `:last-of-type` would match every letter input, because each sits in its own wrapper `div`, and `querySelector` would return the first one. The model moves to the last letter input of the previous word, as the selector intends.
- WordItem.Navigator: the `ref` prop on `LetterInput` is taken to reach the input, as React 19's ref-as-prop does. Forwarding refs in older React versions is not part of this model.
- WordItem: the `showAnswer` prop, the `isRevealed` state, `handleClick` and the `isCorrect` state of `LetterInput` are never read, so they are left out. Colours, class names and styling are left out too.
- Tokenizer.SplitWords: the counter counts every non-separator part, content word or not, so a target is not simply every second content word. In "aaaa bb cccc dd" no word is a target.
- CTest: the letter index is a natural number given by the rendered `data-letter-index`. The `parseInt` fallback to 0 for a missing attribute cannot happen for rendered inputs and is left out.
- CTest.RenderParagraphs: requires at least one paragraph, because the source reads `paragraphs[0]` unguarded. For no paragraphs, `splitFirstSentence(undefined)` would throw.
- CTest: the trailing whitespace after `{firstSentence}` at line 219 is removed by JSX, because a newline follows it. The model renders the first sentence directly followed by the tokens of the rest.
- CTest: the standalone path of `handleSubmit` without `onComplete` (lines 152-176) posts to `/api/submit` and redirects. The `fetch`, `alert` and `window.location` calls are not part of this model.
- CTest.CTestForm: of the keystrokes after feedback only Backspace is modelled on the form (`CTestForm.Backspace`). `readOnly` stops typing, and the arrow keys only move focus, which `WordItem.Navigator` models per paragraph. `RescoreAfterFeedback` and `InflatedScoreExample` describe a Continue with no Backspace after feedback; `BackspaceAfterFeedbackExample` shows one with a Backspace.
- CTest.CTestForm.Tick: the 3000 ms `setTimeout` is an abstract timer that is armed, cleared, or fires on `Tick`. Wall-clock time is not modelled.
- CTest: duplicate target words in one form are modelled as written: feedback for every field of a word uses the first answer for that word (line 66).
- Session.AllTests.Identify: the random id from `Math.random().toString(36)` is a parameter. The random draw is not modelled; `Base36Balanced` only counts that 12 of the 36 symbols `0-9a-z` select each style.
- Session: the `fetch` to `/api/submit-all` is modelled by appending the payload to `posted`. Response handling, the timestamp and console logging are left out.
- Admin: the fetch of `/api/submit`, the loading and error states, and the `data.results || []` fallback are left out. The model starts from the fetched list.
- Admin.AveragesDefined: the model covers well-formed results only, each with a style string and a numeric score. The list `/api/submit` returns also holds the batch records that `/api/submit-all` writes to the same directory, one per session, which have no `style`, `isSimplified` or `score`. The page files such a record under the key "undefined", as `standard`; `sum + undefined` makes that cell show "NaN%", and "Total submissions" counts it too. So `AveragesDefined` (never `NaN`) and `Summarize` (the total is the number of results) hold only for a list without batch records. Like the other defects behind Continue, this shows only once the c-test.tsx:51 defect is fixed.
- Admin.GroupResults: maps are unordered in Dafny, so the key order is kept as a separate list. `Object.entries` reports integer-like keys such as "12" first, in numeric order, before the others in insertion order; the model uses insertion order for every key.
- Admin.GroupResults: a style named after a property inherited from `Object.prototype`, such as "constructor", makes `!groupedResults[styleKey]` false at line 49. Its results are then pushed onto the inherited value, not onto an own entry, and `Object.entries` at line 63 does not list that style. The model treats every style string as an ordinary key.
- The API routes, `lib/utils.ts` (its sample texts and `cn`) and the remaining page and markup files are not part of this model.

## Findings

| source | as written | input that shows it | evidently intended | confidence | as-written member | corrected member |
|---|---|---|---|---|---|---|
| src/app/all-tests/page.tsx:71 | `submitAllResults` reads `testResults` from the same render in which `handleTestComplete` queued the append, so the post lacks the final test's result | any session, e.g. one test with result `r`: the posted batch holds `[]` instead of `[r]`. Observable only once the c-test.tsx:51 defect is fixed, because until then Continue never appears and `onComplete` is never called | post every result of the session, the last one included | high, not executed | Session.RunSessionAsWritten | Session.RunSession |
| src/app/components/c-test.tsx:51 | the effect depends on `[results, uiState]`; its own `setUiState("showingAnswers")` re-runs it, and the cleanup clears the 3 s timer before it fires | any filled form: after Check Answers the state stays `showingAnswers` and Continue never appears | Continue appears 3 s after the answers are shown (deps `[results]`) | high, not executed | CTest.ContinueNeverShownAsWritten | CTest.RunTest |
| src/app/components/word-item.tsx:51-52 | the sibling walk starts at the input's grandparent (the fieldset for box, the flex container for underline and span), which has no `word-item` sibling, so focus never leaves the word | two target words of two letters each with a plain token between them: ArrowRight at the last input of the first stays there | at a word's last input, move to the first input of the next target word, and back from its first input to the previous word's last one (the comment at line 50 names the outer span wrapper) | high, not executed | WordItem.CrossWordExample | WordItem.NextPos |
| src/app/components/c-test.tsx:138 | Continue calls `processForm` again on a form whose wrong letters the visual feedback has already overwritten with the correct ones | the word "house" with letters 3 and 4 typed as "x", "y": 0 at Check Answers, 100 reported at Continue when no key is pressed after feedback (a Backspace on a corrected letter clears it despite `readOnly`, and the word then counts as wrong, see `CTest.BackspaceAfterFeedbackExample`). Observable only once the c-test.tsx:51 defect is fixed, because until then Continue never appears and `handleSubmit` never runs | report the score the participant earned, as computed at Check Answers | high, not executed | CTest.InflatedScoreExample | CTest.CTestForm.Submit |
