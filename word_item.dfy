/** The per-word widget (src/app/components/word-item.tsx): the split of a
    target word into revealed letters and letter inputs, and the keyboard
    rules that move the focus over the letter inputs and edit their values. */
module WordItem {
  import opened Wrappers

  /** CTestStyle: "box" | "underline" | "span". */
  datatype Style = Box | Underline | Span

  /** One rendered LetterInput: the hidden letter it stands for, its
      `data-letter-index`, and the two presentation props. */
  datatype LetterInput = LetterInput(letter: char, letterIndex: nat, underlineStyle: bool, underlineCount: nat)

  /** What WordItem renders: the plain text of a non-target token, or the
      fieldset of a target word. */
  datatype Rendered =
    | Plain(text: string)
    | Fieldset(word: string, revealed: string, inputs: seq<LetterInput>)

  function Min(a: nat, b: nat): nat {
    if a <= b then a else b
  }

  function Letters(inputs: seq<LetterInput>): string {
    seq(|inputs|, i requires 0 <= i < |inputs| => inputs[i].letter)
  }

  /** The letter inputs of one style: one per hidden letter, numbered from
      `showLetter`. */
  function HiddenInputs(hidden: string, showLetter: nat, underlineStyle: bool, underlineCount: nat): seq<LetterInput> {
    seq(|hidden|, i requires 0 <= i < |hidden| => LetterInput(hidden[i], showLetter + i, underlineStyle, underlineCount))
  }

  /** WordItem (word-item.tsx:17-192). */
  function RenderWord(word: string, showLetter: nat, isTarget: bool, style: Style): (r: Rendered)
    ensures r.Plain? <==> !isTarget
    ensures !isTarget ==> r.text == word
    ensures isTarget ==>
      && r.word == word
      && r.revealed + Letters(r.inputs) == word
      && |r.revealed| == Min(showLetter, |word|)
      && (forall i :: 0 <= i < |r.inputs| ==>
            && r.inputs[i].letterIndex == showLetter + i
            && r.inputs[i].letterIndex < |word|
            && word[r.inputs[i].letterIndex] == r.inputs[i].letter)
  {
    if !isTarget then Plain(word)
    else
      var revealed := word[..Min(showLetter, |word|)];
      var hidden := word[Min(showLetter, |word|)..];
      var inputs := match style
        case Box => HiddenInputs(hidden, showLetter, false, 1)
        case Underline => HiddenInputs(hidden, showLetter, true, 1)
        case Span => HiddenInputs(hidden, showLetter, true, 0);
      assert Letters(inputs) == hidden;
      Fieldset(word, revealed, inputs)
  }

  /** The scoring-relevant part of a letter input. */
  function Slots(inputs: seq<LetterInput>): seq<(char, nat)> {
    seq(|inputs|, i requires 0 <= i < |inputs| => (inputs[i].letter, inputs[i].letterIndex))
  }

  /** The three styles render the same letters at the same letter indices. */
  lemma StyleIndependent(word: string, showLetter: nat, s1: Style, s2: Style)
    ensures Slots(RenderWord(word, showLetter, true, s1).inputs) == Slots(RenderWord(word, showLetter, true, s2).inputs)
  {
    var hidden := word[Min(showLetter, |word|)..];
    SlotsIgnorePresentation(hidden, showLetter, false, 1, true, 1);
    SlotsIgnorePresentation(hidden, showLetter, false, 1, true, 0);
  }

  lemma SlotsIgnorePresentation(hidden: string, showLetter: nat, u1: bool, c1: nat, u2: bool, c2: nat)
    ensures Slots(HiddenInputs(hidden, showLetter, u1, c1)) == Slots(HiddenInputs(hidden, showLetter, u2, c2))
  {
    var a, b := HiddenInputs(hidden, showLetter, u1, c1), HiddenInputs(hidden, showLetter, u2, c2);
    assert forall i :: 0 <= i < |hidden| ==> Slots(a)[i] == (hidden[i], showLetter + i) == Slots(b)[i];
  }

  // ---------------------------------------------------------------------
  // Focus movement over the letter inputs of the rendered text.

  /** A letter input: the index of its token in document order and the
      index of the input within that token. */
  datatype Pos = Pos(word: nat, slot: nat)

  /** `lens[w]` is the number of letter inputs of token `w` (0 for a
      non-target token). */
  predicate ValidPos(lens: seq<nat>, p: Pos) {
    p.word < |lens| && p.slot < lens[p.word]
  }

  /** Document order of letter inputs. */
  predicate Before(p: Pos, q: Pos) {
    p.word < q.word || (p.word == q.word && p.slot < q.slot)
  }

  /** The first token at or after `from` that has letter inputs. */
  function NextTargetWord(lens: seq<nat>, from: nat): (r: Option<nat>)
    requires from <= |lens|
    ensures r.Some? ==> from <= r.value < |lens| && lens[r.value] > 0
    ensures forall j :: from <= j < |lens| && (r.None? || j < r.value) ==> lens[j] == 0
    decreases |lens| - from
  {
    if from == |lens| then None
    else if lens[from] > 0 then Some(from)
    else NextTargetWord(lens, from + 1)
  }

  /** The last token before `before` that has letter inputs. */
  function PrevTargetWord(lens: seq<nat>, before: nat): (r: Option<nat>)
    requires before <= |lens|
    ensures r.Some? ==> r.value < before && lens[r.value] > 0
    ensures forall j :: 0 <= j < before && (r.None? || r.value < j) ==> lens[j] == 0
  {
    if before == 0 then None
    else if lens[before - 1] > 0 then Some(before - 1)
    else PrevTargetWord(lens, before - 1)
  }

  /** handleNext: the next input of the word, or the first input of the
      next target word, or no move at the last input of the text. */
  function NextPos(lens: seq<nat>, p: Pos): (q: Pos)
    requires ValidPos(lens, p)
    ensures ValidPos(lens, q)
    ensures q == p || Before(p, q)
    ensures forall r :: ValidPos(lens, r) && Before(p, r) ==> !Before(r, q)
    ensures q == p ==> forall r :: ValidPos(lens, r) ==> !Before(p, r)
  {
    if p.slot + 1 < lens[p.word] then Pos(p.word, p.slot + 1)
    else match NextTargetWord(lens, p.word + 1)
      case Some(w) => Pos(w, 0)
      case None => p
  }

  /** handlePrev: the previous input of the word, or the last input of the
      previous target word, or no move at the first input of the text. */
  function PrevPos(lens: seq<nat>, p: Pos): (q: Pos)
    requires ValidPos(lens, p)
    ensures ValidPos(lens, q)
    ensures q == p || Before(q, p)
    ensures forall r :: ValidPos(lens, r) && Before(r, p) ==> !Before(q, r)
    ensures q == p ==> forall r :: ValidPos(lens, r) ==> !Before(r, p)
  {
    if p.slot > 0 then Pos(p.word, p.slot - 1)
    else match PrevTargetWord(lens, p.word)
      case Some(w) => Pos(w, lens[w] - 1)
      case None => p
  }

  /** handleNext as written: the sibling walk starts at the input's
      grandparent (the fieldset, or the flex container of the underline and
      span styles), which has no `word-item` sibling, so the focus never
      leaves the word. */
  function NextPosAsWritten(lens: seq<nat>, p: Pos): (q: Pos)
    requires ValidPos(lens, p)
    ensures ValidPos(lens, q) && q.word == p.word
    ensures q.slot == p.slot + 1 || (q == p && p.slot + 1 == lens[p.word])
  {
    if p.slot + 1 < lens[p.word] then Pos(p.word, p.slot + 1) else p
  }

  /** handlePrev as written: the same walk, backwards, never leaves the
      word either. */
  function PrevPosAsWritten(lens: seq<nat>, p: Pos): (q: Pos)
    requires ValidPos(lens, p)
    ensures ValidPos(lens, q) && q.word == p.word
    ensures q.slot + 1 == p.slot || (q == p && p.slot == 0)
  {
    if p.slot > 0 then Pos(p.word, p.slot - 1) else p
  }

  /** Two target words of two letter inputs each, with a plain token
      between them: the intended moves cross between the words, the walk
      as written stays put. */
  lemma CrossWordExample()
    ensures NextPos([2, 0, 2], Pos(0, 1)) == Pos(2, 0)
    ensures NextPosAsWritten([2, 0, 2], Pos(0, 1)) == Pos(0, 1)
    ensures PrevPos([2, 0, 2], Pos(2, 0)) == Pos(0, 1)
    ensures PrevPosAsWritten([2, 0, 2], Pos(2, 0)) == Pos(2, 0)
  {
    assert NextTargetWord([2, 0, 2], 2) == Some(2);
    assert PrevTargetWord([2, 0, 2], 1) == Some(0);
  }

  /** Moving forward and then back returns to the same input. */
  lemma PrevUndoesNext(lens: seq<nat>, p: Pos)
    requires ValidPos(lens, p) && NextPos(lens, p) != p
    ensures PrevPos(lens, NextPos(lens, p)) == p
  {
    var q := NextPos(lens, p);
  }

  /** Moving back and then forward returns to the same input. */
  lemma NextUndoesPrev(lens: seq<nat>, p: Pos)
    requires ValidPos(lens, p) && PrevPos(lens, p) != p
    ensures NextPos(lens, PrevPos(lens, p)) == p
  {
    var q := PrevPos(lens, p);
  }

  /** The keys LetterInput.handleKeyDown reacts to; any other key leaves the
      input to the browser, which reports a change. */
  datatype Key = ArrowLeft | ArrowRight | Backspace | OtherKey

  /** The letter inputs of one rendered text, their values and the focus. */
  class Navigator {
    const lens: seq<nat>
    var focus: Pos
    var values: seq<seq<string>>

    ghost predicate Valid()
      reads this
    {
      && ValidPos(lens, focus)
      && |values| == |lens|
      && (forall w :: 0 <= w < |lens| ==> |values[w]| == lens[w])
      && (forall w, s :: 0 <= w < |values| && 0 <= s < |values[w]| ==> |values[w][s]| <= 1)
    }

    constructor (lens: seq<nat>, start: Pos)
      requires ValidPos(lens, start)
      ensures Valid()
      ensures this.lens == lens && focus == start
      ensures forall w, s :: 0 <= w < |values| && 0 <= s < |values[w]| ==> values[w][s] == ""
    {
      this.lens := lens;
      focus := start;
      values := seq(|lens|, w requires 0 <= w < |lens| => seq(lens[w], s => ""));
    }

    /** handleNext (word-item.tsx:43-69) for the focused input; the search
        for the next word walks the tokens that follow. */
    method HandleNext()
      requires Valid()
      modifies this
      ensures Valid() && values == old(values)
      ensures focus == NextPos(lens, old(focus))
    {
      var nextIndex := focus.slot + 1;
      var count := lens[focus.word];
      if nextIndex < count {
        focus := Pos(focus.word, nextIndex);
      }
      if nextIndex == count {
        var j := focus.word + 1;
        while j < |lens|
          invariant focus.word + 1 <= j <= |lens|
          invariant focus == old(focus)
          invariant NextTargetWord(lens, focus.word + 1) == NextTargetWord(lens, j)
        {
          if lens[j] > 0 {
            focus := Pos(j, 0);
            break;
          }
          j := j + 1;
        }
      }
    }

    /** handlePrev (word-item.tsx:71-94) for the focused input. */
    method HandlePrev()
      requires Valid()
      modifies this
      ensures Valid() && values == old(values)
      ensures focus == PrevPos(lens, old(focus))
    {
      var prevIndex := focus.slot as int - 1;
      if prevIndex >= 0 {
        focus := Pos(focus.word, prevIndex);
      } else if focus.slot == 0 {
        var j := focus.word;
        while j > 0
          invariant 0 <= j <= focus.word
          invariant focus == old(focus)
          invariant PrevTargetWord(lens, focus.word) == PrevTargetWord(lens, j)
        {
          if lens[j - 1] > 0 {
            focus := Pos(j - 1, lens[j - 1] - 1);
            break;
          }
          j := j - 1;
        }
      }
    }

    /** LetterInput.handleKeyDown (word-item.tsx:237-261) on the focused
        input. */
    method KeyDown(key: Key)
      requires Valid()
      modifies this
      ensures Valid()
      ensures key == ArrowLeft ==> values == old(values) && focus == PrevPos(lens, old(focus))
      ensures key == ArrowRight ==> values == old(values) && focus == NextPos(lens, old(focus))
      ensures key == Backspace ==>
        var p := old(focus);
        && values == old(values)[p.word := old(values)[p.word][p.slot := ""]]
        && focus == (if old(values)[p.word][p.slot] == "" then PrevPos(lens, p) else p)
      ensures key == OtherKey ==> values == old(values) && focus == old(focus)
    {
      match key
      case ArrowLeft =>
        HandlePrev();
      case ArrowRight =>
        HandleNext();
      case Backspace =>
        var p := focus;
        var value := values[p.word][p.slot];
        values := values[p.word := values[p.word][p.slot := ""]];
        if value == "" {
          HandlePrev();
        }
      case OtherKey =>
    }

    /** LetterInput.handleChange (word-item.tsx:263-271): the browser has put
        `newValue` (at most `maxLength` = 1 character) in the focused input. */
    method Change(newValue: string)
      requires Valid() && |newValue| <= 1
      modifies this
      ensures Valid()
      ensures values == old(values)[old(focus).word := old(values)[old(focus).word][old(focus).slot := newValue]]
      ensures focus == (if newValue == "" then old(focus) else NextPos(lens, old(focus)))
    {
      values := values[focus.word := values[focus.word][focus.slot := newValue]];
      if newValue != "" {
        HandleNext();
      }
    }
  }
}
