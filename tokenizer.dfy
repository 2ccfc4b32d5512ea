/** The c-test tokenizer: the split of a paragraph into separator and word
    tokens, the choice of target words, the split of the first sentence and
    the number of revealed letters (src/app/components/c-test.tsx). */
module Tokenizer {
  import opened Text

  /** One rendered token: its text and whether it is a blanked target word. */
  datatype Token = Token(text: string, isTarget: bool)

  /** A character the split pattern `(\s+|[.!?,;:])` can start a match at. */
  predicate IsBreak(c: char) {
    IsSpace(c) || IsPunct(c)
  }

  /** A part that the tokenizer keeps as a separator: a whitespace run
      (`^\s+$`) or one punctuation mark (`^[.!?,;:]$`). */
  predicate IsSeparator(part: string) {
    (|part| > 0 && AllSpace(part)) || (|part| == 1 && IsPunct(part[0]))
  }

  /** A part between two matches of the split pattern: no break character. */
  predicate IsChunk(part: string) {
    forall j :: 0 <= j < |part| ==> !IsBreak(part[j])
  }

  /** Index of the first break character at or after `i`, or `|s|`. */
  function NextBreak(s: string, i: nat): (k: nat)
    requires i <= |s|
    ensures i <= k <= |s|
    ensures forall j :: i <= j < k ==> !IsBreak(s[j])
    ensures k < |s| ==> IsBreak(s[k])
    decreases |s| - i
  {
    if i == |s| || IsBreak(s[i]) then i else NextBreak(s, i + 1)
  }

  /** End of the separator that starts at the break character `s[k]`. */
  function SeparatorEnd(s: string, k: nat): (e: nat)
    requires k < |s| && IsBreak(s[k])
    ensures k < e <= |s| && IsSeparator(s[k..e])
    ensures !IsSpace(s[k]) ==> e == k + 1
    ensures IsSpace(s[k]) ==> AllSpace(s[k..e]) && (e < |s| ==> !IsSpace(s[e]))
  {
    if IsPunct(s[k]) then k + 1
    else
      var e := SpaceRunEnd(s, k);
      assert AllSpace(s[k..e]);
      e
  }

  lemma ChunkBeforeBreak(s: string)
    ensures IsChunk(s[..NextBreak(s, 0)])
  {
  }

  /** `s.split(/(\s+|[.!?,;:])/)`: chunks at even positions and the captured
      separators at odd positions, empty chunks included. */
  function SplitParts(s: string): (parts: seq<string>)
    ensures |parts| % 2 == 1
    ensures Concat(parts) == s
    ensures forall i :: 0 <= i < |parts| && i % 2 == 1 ==> IsSeparator(parts[i])
    ensures forall i :: 0 <= i < |parts| && i % 2 == 0 ==> IsChunk(parts[i])
    decreases |s|
  {
    var k := NextBreak(s, 0);
    ChunkBeforeBreak(s);
    if k == |s| then
      assert Concat([s]) == s + Concat([]);
      [s]
    else
      var e := SeparatorEnd(s, k);
      var rest := SplitParts(s[e..]);
      PartsCons(s[..k], s[k..e], rest);
      SliceJoin(s, k, e);
      [s[..k], s[k..e]] + rest
  }

  /** The parts of a text that does not start with whitespace: when the
      first chunk is empty, the first separator is a punctuation mark. */
  lemma SplitAfterSpaceRun(t: string)
    requires t == "" || !IsSpace(t[0])
    ensures var rest := SplitParts(t);
      |rest| >= 2 && rest[0] == "" ==> !AllSpace(rest[1])
  {
    var rest := SplitParts(t);
    if |rest| >= 2 && rest[0] == "" {
      var k := NextBreak(t, 0);
      assert rest[0] == t[..k];
      var e := SeparatorEnd(t, k);
      assert rest[1] == t[k..e];
      assert t[k..e][0] == t[0];
    }
  }

  /** No whitespace separator is followed, across an empty chunk, by
      another whitespace separator. */
  ghost predicate SpaceRunsMaximal(parts: seq<string>) {
    forall i :: 0 <= i && i % 2 == 1 && i + 2 < |parts| && AllSpace(parts[i]) && parts[i + 1] == "" ==>
      !AllSpace(parts[i + 2])
  }

  lemma SpaceRunsMaximalCons(a: string, b: string, rest: seq<string>)
    requires SpaceRunsMaximal(rest)
    requires AllSpace(b) && |rest| >= 2 && rest[0] == "" ==> !AllSpace(rest[1])
    ensures SpaceRunsMaximal([a, b] + rest)
  {
    var parts := [a, b] + rest;
    forall i | 0 <= i && i % 2 == 1 && i + 2 < |parts| && AllSpace(parts[i]) && parts[i + 1] == ""
      ensures !AllSpace(parts[i + 2])
    {
      if i == 1 {
        assert parts[2] == rest[0] && parts[3] == rest[1];
      } else {
        assert parts[i] == rest[i - 2] && parts[i + 1] == rest[i - 1] && parts[i + 2] == rest[i];
      }
    }
  }

  /** `\s+` is greedy: a whitespace separator takes the whole run, so two
      whitespace separators never meet across an empty chunk. */
  lemma {:induction false} SplitPartsMaximal(s: string)
    ensures SpaceRunsMaximal(SplitParts(s))
    decreases |s|
  {
    var k := NextBreak(s, 0);
    if k < |s| {
      var e := SeparatorEnd(s, k);
      var t := s[e..];
      assert SplitParts(s) == [s[..k], s[k..e]] + SplitParts(t);
      SplitPartsMaximal(t);
      if AllSpace(s[k..e]) {
        assert IsSpace(s[k..e][0]);
        assert t == "" || t[0] == s[e];
        SplitAfterSpaceRun(t);
      }
      SpaceRunsMaximalCons(s[..k], s[k..e], SplitParts(t));
    }
  }

  lemma SliceJoin(s: string, k: nat, e: nat)
    requires k <= e <= |s|
    ensures s[..k] + (s[k..e] + s[e..]) == s
  {
  }

  lemma PartsCons(a: string, b: string, rest: seq<string>)
    requires IsChunk(a) && IsSeparator(b) && |rest| % 2 == 1
    requires forall i :: 0 <= i < |rest| && i % 2 == 1 ==> IsSeparator(rest[i])
    requires forall i :: 0 <= i < |rest| && i % 2 == 0 ==> IsChunk(rest[i])
    ensures var parts := [a, b] + rest;
      && |parts| % 2 == 1
      && Concat(parts) == a + (b + Concat(rest))
      && (forall i :: 0 <= i < |parts| && i % 2 == 1 ==> IsSeparator(parts[i]))
      && (forall i :: 0 <= i < |parts| && i % 2 == 0 ==> IsChunk(parts[i]))
  {
    var parts := [a, b] + rest;
    assert parts[1..] == [b] + rest;
    assert parts[1..][1..] == rest;
    forall i | 2 <= i < |parts|
      ensures parts[i] == rest[i - 2]
    {
    }
  }

  /** The parts that `if (!part) return;` keeps, in order. */
  function NonEmpty(parts: seq<string>): (r: seq<string>)
    ensures forall j :: 0 <= j < |r| ==> r[j] != ""
  {
    if parts == [] then []
    else
      var init := NonEmpty(parts[..|parts| - 1]);
      var last := parts[|parts| - 1];
      if last == "" then init else init + [last]
  }

  function TextsOf(words: seq<Token>): seq<string> {
    seq(|words|, i requires 0 <= i < |words| => words[i].text)
  }

  /** The number of word (non-separator) parts among `texts`: the value of
      `wordCounter` once they have been pushed. */
  function WordRank(texts: seq<string>): nat {
    if texts == [] then 0
    else WordRank(texts[..|texts| - 1]) + (if IsSeparator(texts[|texts| - 1]) then 0 else 1)
  }

  /** `^[a-zA-Z]{4,}$` */
  predicate IsContentWord(w: string) {
    |w| >= 4 && forall i :: 0 <= i < |w| ==> IsAsciiLetter(w[i])
  }

  /** The target rule of splitWords: a token is a target iff targeting is on,
      it is a content word and its 0-based position among all word tokens
      before it is odd. */
  ghost predicate TargetRule(words: seq<Token>, shouldTarget: bool) {
    forall i :: 0 <= i < |words| ==>
      (words[i].isTarget <==>
        shouldTarget && IsContentWord(words[i].text) && WordRank(TextsOf(words)[..i]) % 2 == 1)
  }

  /** `words` is what splitWords returns for `text`. */
  ghost predicate IsTokenization(text: string, shouldTarget: bool, words: seq<Token>) {
    TextsOf(words) == NonEmpty(SplitParts(text)) && TargetRule(words, shouldTarget)
  }

  lemma SeparatorNotContent(part: string)
    requires IsSeparator(part)
    ensures !IsContentWord(part)
  {
    assert !IsAsciiLetter(part[0]);
  }

  lemma WordRankSnoc(texts: seq<string>, t: string)
    ensures WordRank(texts + [t]) == WordRank(texts) + (if IsSeparator(t) then 0 else 1)
  {
    assert (texts + [t])[..|texts|] == texts;
  }

  lemma NonEmptySnoc(parts: seq<string>, i: nat)
    requires i < |parts|
    ensures NonEmpty(parts[..i + 1]) == NonEmpty(parts[..i]) + (if parts[i] == "" then [] else [parts[i]])
  {
    assert parts[..i + 1][..i] == parts[..i];
  }

  /** A non-empty chunk holds a character outside `\s`, so `part.trim()`
      is never empty for a word part. */
  lemma ChunkNotBlank(part: string)
    requires IsChunk(part) && part != ""
    ensures !AllSpace(part)
  {
    assert !IsBreak(part[0]);
  }

  /** Pushing a token that follows the target rule keeps the rule. */
  lemma PushPreserves(words: seq<Token>, shouldTarget: bool, t: Token)
    requires TargetRule(words, shouldTarget)
    requires t.isTarget <==>
      shouldTarget && IsContentWord(t.text) && WordRank(TextsOf(words)) % 2 == 1
    ensures TextsOf(words + [t]) == TextsOf(words) + [t.text]
    ensures WordRank(TextsOf(words + [t])) == WordRank(TextsOf(words)) + (if IsSeparator(t.text) then 0 else 1)
    ensures TargetRule(words + [t], shouldTarget)
  {
    var w := words + [t];
    assert TextsOf(w) == TextsOf(words) + [t.text];
    WordRankSnoc(TextsOf(words), t.text);
    assert TextsOf(w)[..|words|] == TextsOf(words);
    forall i | 0 <= i < |words|
      ensures TextsOf(w)[..i] == TextsOf(words)[..i]
    {
    }
  }

  /** The `forEach` callback of splitWords (c-test.tsx:300-313) for one
      part of the split: empty parts are skipped, a separator is pushed as
      a non-target, and a word part is pushed and counted. */
  method PushPart(words: seq<Token>, wordCounter: nat, part: string, shouldTarget: bool)
      returns (words': seq<Token>, wordCounter': nat)
    requires IsChunk(part) || IsSeparator(part)
    requires wordCounter == WordRank(TextsOf(words)) && TargetRule(words, shouldTarget)
    ensures TextsOf(words') == TextsOf(words) + (if part == "" then [] else [part])
    ensures wordCounter' == WordRank(TextsOf(words')) && TargetRule(words', shouldTarget)
  {
    words', wordCounter' := words, wordCounter;
    if part != "" && !IsSeparator(part) {
      ChunkNotBlank(part);
    }
    if part == "" {
    } else if IsSeparator(part) {
      SeparatorNotContent(part);
      PushPreserves(words, shouldTarget, Token(part, false));
      words' := words + [Token(part, false)];
    } else if !AllSpace(part) {
      var t := Token(part, shouldTarget && IsContentWord(part) && wordCounter % 2 == 1);
      PushPreserves(words, shouldTarget, t);
      words' := words + [t];
      wordCounter' := wordCounter + 1;
    }
  }

  /** splitWords (c-test.tsx:288-316): pushes one token per non-empty part
      and bumps `wordCounter` for every word part. */
  method SplitWords(text: string, shouldTarget: bool) returns (words: seq<Token>)
    ensures IsTokenization(text, shouldTarget, words)
    ensures Concat(TextsOf(words)) == text
    ensures forall i :: 0 <= i < |words| && IsSeparator(words[i].text) ==> !words[i].isTarget
    ensures !shouldTarget ==> forall i :: 0 <= i < |words| ==> !words[i].isTarget
  {
    words := [];
    var wordCounter := 0;
    var parts := SplitParts(text);
    for i := 0 to |parts|
      invariant TextsOf(words) == NonEmpty(parts[..i])
      invariant wordCounter == WordRank(TextsOf(words))
      invariant TargetRule(words, shouldTarget)
    {
      NonEmptySnoc(parts, i);
      words, wordCounter := PushPart(words, wordCounter, parts[i], shouldTarget);
    }
    assert parts[..|parts|] == parts;
    ConcatNonEmpty(parts);
    forall i | 0 <= i < |words| && IsSeparator(words[i].text)
      ensures !words[i].isTarget
    {
      SeparatorNotContent(words[i].text);
    }
  }

  /** Dropping empty parts does not change the text they spell. */
  lemma {:induction false} ConcatNonEmpty(parts: seq<string>)
    ensures Concat(NonEmpty(parts)) == Concat(parts)
  {
    if parts != [] {
      var init, last := parts[..|parts| - 1], parts[|parts| - 1];
      assert parts == init + [last];
      ConcatNonEmpty(init);
      ConcatAppend(init, [last]);
      ConcatAppend(NonEmpty(init), [last]);
      assert Concat([last]) == last + Concat([]);
    }
  }

  /** Tokenization is deterministic: the text alone fixes every token and
      every target flag. */
  lemma TokenizationUnique(text: string, shouldTarget: bool, w1: seq<Token>, w2: seq<Token>)
    requires IsTokenization(text, shouldTarget, w1)
    requires IsTokenization(text, shouldTarget, w2)
    ensures w1 == w2
  {
    assert |w1| == |TextsOf(w1)| == |TextsOf(w2)| == |w2|;
    forall i | 0 <= i < |w1|
      ensures w1[i] == w2[i]
    {
      assert w1[i].text == TextsOf(w1)[i] == TextsOf(w2)[i] == w2[i].text;
      assert TextsOf(w1)[..i] == TextsOf(w2)[..i];
    }
  }

  /** Between a word part and the next word part the rank rises by one. */
  lemma {:induction false} RankAcrossSeparators(texts: seq<string>, i: nat, j: nat)
    requires i < j <= |texts|
    requires !IsSeparator(texts[i])
    requires forall k :: i < k < j ==> IsSeparator(texts[k])
    ensures WordRank(texts[..j]) == WordRank(texts[..i]) + 1
  {
    assert texts[..j] == texts[..j - 1] + [texts[j - 1]];
    WordRankSnoc(texts[..j - 1], texts[j - 1]);
    if j > i + 1 {
      RankAcrossSeparators(texts, i, j - 1);
    }
  }

  /** Two word tokens with only separators between them are never both
      targets. */
  lemma NoAdjacentTargets(words: seq<Token>, shouldTarget: bool, i: nat, j: nat)
    requires TargetRule(words, shouldTarget)
    requires i < j < |words|
    requires !IsSeparator(words[i].text) && !IsSeparator(words[j].text)
    requires forall k :: i < k < j ==> IsSeparator(words[k].text)
    ensures !(words[i].isTarget && words[j].isTarget)
  {
    var texts := TextsOf(words);
    RankAcrossSeparators(texts, i, j);
  }

  /** getShowLetter (c-test.tsx:31): `Math.ceil(word.length / 2)` revealed
      letters. */
  function ShowLetter(word: string): (n: nat)
    ensures n + n == |word| || n + n == |word| + 1
  {
    (|word| + 1) / 2
  }

  /** A target word (a content word) keeps at least two letters hidden. */
  lemma ContentWordHidesTwo(word: string)
    requires IsContentWord(word)
    ensures |word| - ShowLetter(word) >= 2
  {
  }

  datatype SentenceSplit = SentenceSplit(firstSentence: string, rest: string)

  /** Index of the first sentence terminator at or after `i`, or `|s|`. */
  function NextTerminator(s: string, i: nat): (k: nat)
    requires i <= |s|
    ensures i <= k <= |s|
    ensures forall j :: i <= j < k ==> !IsTerminator(s[j])
    ensures k < |s| ==> IsTerminator(s[k])
    decreases |s| - i
  {
    if i == |s| || IsTerminator(s[i]) then i else NextTerminator(s, i + 1)
  }

  /** `^[^.!?]+[.!?]` matches: a terminator preceded by at least one
      non-terminator, with none before it. */
  ghost predicate HasLeadingSentence(text: string) {
    exists k :: 0 < k < |text| && IsTerminator(text[k])
      && forall j :: 0 <= j < k ==> !IsTerminator(text[j])
  }

  /** `s` is one sentence: non-terminators, one terminator, whitespace. */
  ghost predicate IsOneSentence(s: string) {
    exists k :: 0 < k < |s| && IsTerminator(s[k])
      && (forall j :: 0 <= j < k ==> !IsTerminator(s[j]))
      && (forall j :: k < j < |s| ==> IsSpace(s[j]))
  }

  /** splitFirstSentence (c-test.tsx:180-187): the match of
      `^[^.!?]+[.!?]\s*` and the rest of the text. */
  function SplitFirstSentence(text: string): (r: SentenceSplit)
    ensures r.firstSentence + r.rest == text
    ensures !HasLeadingSentence(text) ==> r == SentenceSplit(text, "")
    ensures HasLeadingSentence(text) ==>
      IsOneSentence(r.firstSentence) && (r.rest == "" || !IsSpace(r.rest[0]))
  {
    var k := NextTerminator(text, 0);
    if k == 0 || k == |text| then
      SentenceSplit(text, "")
    else
      var e := SpaceRunEnd(text, k + 1);
      var first := text[..e];
      assert 0 < k < |first| && IsTerminator(first[k]);
      assert forall j :: 0 <= j < k ==> !IsTerminator(first[j]);
      assert forall j :: k < j < |first| ==> IsSpace(first[j]);
      assert text[e..] != [] ==> text[e..][0] == text[e];
      SentenceSplit(first, text[e..])
  }

  /** With no terminator anywhere, the whole text is the first sentence. */
  lemma NoTerminatorNoRest(text: string)
    requires forall j :: 0 <= j < |text| ==> !IsTerminator(text[j])
    ensures SplitFirstSentence(text) == SentenceSplit(text, "")
  {
  }
}
