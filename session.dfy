/** The session page (src/app/all-tests/page.tsx): the style a participant
    gets, the split of a summary into paragraphs, and the collection of one
    result per test with the batch submission at the end. */
module Session {
  import opened Text
  import opened Wrappers
  import opened Tokenizer
  import opened WordItem
  import opened CTest

  // ---------------------------------------------------------------------
  // Style selection (all-tests/page.tsx:11, 29-37)

  /** `charCodeAt` of a character: its UTF-16 code unit, the high surrogate
      for a character outside the Basic Multilingual Plane. */
  function CharCode(c: char): (u: nat)
    ensures u < 0x10000
    ensures c as int < 0x10000 ==> u == c as int
    ensures c as int >= 0x10000 ==> 0xD800 <= u < 0xDC00
  {
    var cp := c as int;
    if cp < 0x10000 then cp else 0xD800 + (cp - 0x10000) / 0x400
  }

  /** Position of a style in `['box', 'underline', 'span']`. */
  function StyleIndex(st: Style): (i: nat)
    ensures i < 3
  {
    match st
    case Box => 0
    case Underline => 1
    case Span => 2
  }

  /** The style the page settles on: the initial 'box' while the id is
      empty, otherwise the entry of the first code unit modulo 3. */
  function StyleFor(participantId: string): (st: Style)
    ensures participantId == "" ==> st == Box
    ensures participantId != "" ==> StyleIndex(st) == CharCode(participantId[0]) % 3
  {
    if participantId == "" then Box
    else [Box, Underline, Span][CharCode(participantId[0]) % 3]
  }

  /** The style depends on the first character only. */
  lemma SameFirstCharSameStyle(a: string, b: string)
    requires a != "" && b != "" && a[0] == b[0]
    ensures StyleFor(a) == StyleFor(b)
  {
    var ia := StyleIndex(StyleFor(a));
    assert ia == StyleIndex(StyleFor(b));
  }

  /** `Math.random().toString(36).substring(2, 10)` yields base-36 digits. */
  predicate IsBase36Digit(c: char) {
    ('0' <= c <= '9') || ('a' <= c <= 'z')
  }

  /** The number of codes `k` in `[lo, hi)` with `k % 3 == r`. */
  function CountResidue(lo: nat, hi: nat, r: nat): (n: nat)
    requires lo <= hi
    ensures n <= hi - lo
    decreases hi - lo
  {
    if lo == hi then 0 else CountResidue(lo + 1, hi, r) + (if lo % 3 == r then 1 else 0)
  }

  lemma CountResidueStep(lo: nat, r: nat)
    requires r < 3
    ensures CountResidue(lo, lo + 3, r) == 1
  {
    assert CountResidue(lo + 2, lo + 3, r) == if (lo + 2) % 3 == r then 1 else 0;
    assert CountResidue(lo + 1, lo + 3, r) == CountResidue(lo + 2, lo + 3, r) + if (lo + 1) % 3 == r then 1 else 0;
  }

  lemma CountResidueOne(k: nat, r: nat)
    ensures CountResidue(k, k + 1, r) == if k % 3 == r then 1 else 0
  {
    assert CountResidue(k + 1, k + 1, r) == 0;
  }

  lemma {:induction false} CountResidueSplit(lo: nat, mid: nat, hi: nat, r: nat)
    requires lo <= mid <= hi
    ensures CountResidue(lo, hi, r) == CountResidue(lo, mid, r) + CountResidue(mid, hi, r)
    decreases mid - lo
  {
    if lo < mid {
      CountResidueSplit(lo + 1, mid, hi, r);
    }
  }

  /** Every block of three consecutive codes holds each residue once. */
  lemma {:induction false} CountResidueBlocks(lo: nat, m: nat, r: nat)
    requires r < 3
    ensures CountResidue(lo, lo + 3 * m, r) == m
  {
    if m > 0 {
      CountResidueBlocks(lo, m - 1, r);
      CountResidueSplit(lo, lo + 3 * (m - 1), lo + 3 * m, r);
      CountResidueStep(lo + 3 * (m - 1), r);
    }
  }

  /** The ten digits '0'..'9' (codes 48..57) give 4, 3, 3 to box,
      underline, span. */
  lemma DigitResidues(r: nat)
    requires r < 3
    ensures CountResidue(48, 58, r) == if r == 0 then 4 else 3
  {
    CountResidueBlocks(48, 3, r);
    CountResidueSplit(48, 57, 58, r);
    CountResidueOne(57, r);
  }

  /** The letters 'a'..'z' (codes 97..122) give 8, 9, 9 to box, underline,
      span. */
  lemma LetterResidues(r: nat)
    requires r < 3
    ensures CountResidue(97, 123, r) == if r == 0 then 8 else 9
  {
    CountResidueBlocks(97, 8, r);
    CountResidueSplit(97, 121, 123, r);
    CountResidueSplit(121, 122, 123, r);
    CountResidueOne(121, r);
    CountResidueOne(122, r);
  }

  /** Over the 36 base-36 digits each style is picked by exactly 12. */
  lemma Base36Balanced(r: nat)
    requires r < 3
    ensures CountResidue(48, 58, r) + CountResidue(97, 123, r) == 12
  {
    DigitResidues(r);
    LetterResidues(r);
  }

  /** A single-character id '0', '1', '2' reaches each of the three styles. */
  lemma EveryStyleReachable()
    ensures StyleFor("0") == Box && StyleFor("1") == Underline && StyleFor("2") == Span
  {
    assert CharCode('0') == 48 && CharCode('1') == 49 && CharCode('2') == 50;
  }

  // ---------------------------------------------------------------------
  // Paragraph split (all-tests/page.tsx:131)

  /** The pattern `\n\s*\n` matches `s[i..e]`. */
  ghost predicate BlankLineAt(s: string, i: nat, e: nat) {
    i + 2 <= e <= |s| && s[i] == '\n' && s[e - 1] == '\n' && AllSpace(s[i + 1..e - 1])
  }

  ghost predicate HasBlankLine(s: string) {
    exists i: nat, e: nat :: BlankLineAt(s, i, e)
  }

  /** The last newline in `s[lo..k]`. */
  function LastNewline(s: string, lo: nat, k: nat): (r: Option<nat>)
    requires lo <= k <= |s|
    ensures r.Some? ==> lo <= r.value < k && s[r.value] == '\n'
    ensures forall j :: lo <= j < k && s[j] == '\n' ==> r.Some? && j <= r.value
    decreases k - lo
  {
    if k == lo then None
    else if s[k - 1] == '\n' then Some(k - 1)
    else LastNewline(s, lo, k - 1)
  }

  /** The end of the match of `\n\s*\n` at `i`: `\s*` is greedy and gives
      back characters only until the next one is a newline, so the match
      ends after the last newline of the whitespace run. */
  function MatchEnd(s: string, i: nat): (r: Option<nat>)
    requires i < |s|
    ensures r.Some? ==> BlankLineAt(s, i, r.value)
    ensures forall e: nat :: BlankLineAt(s, i, e) ==> r.Some? && e <= r.value
  {
    if s[i] != '\n' then None
    else
      var k := SpaceRunEnd(s, i + 1);
      match LastNewline(s, i + 1, k)
      case None => None
      case Some(j) =>
        assert AllSpace(s[i + 1..j]);
        Some(j + 1)
  }

  /** The leftmost match at or after `p`, as its start and end. */
  function NextMatch(s: string, p: nat): (r: Option<(nat, nat)>)
    requires p <= |s|
    ensures r.Some? ==> p <= r.value.0 < |s| && MatchEnd(s, r.value.0) == Some(r.value.1)
    ensures forall i :: p <= i < (if r.Some? then r.value.0 else |s|) ==> MatchEnd(s, i).None?
    decreases |s| - p
  {
    if p == |s| then None
    else match MatchEnd(s, p)
      case Some(e) => Some((p, e))
      case None => NextMatch(s, p + 1)
  }

  /** No match starts in `s[p..q]`, so no blank line lies in it. */
  lemma NoBlankLineBetween(s: string, p: nat, q: nat)
    requires p <= q <= |s|
    requires forall i :: p <= i < q ==> MatchEnd(s, i).None?
    ensures !HasBlankLine(s[p..q])
  {
    if HasBlankLine(s[p..q]) {
      var i: nat, e: nat :| BlankLineAt(s[p..q], i, e);
      assert BlankLineAt(s, p + i, p + e) by {
        var t := s[p + i + 1..p + e - 1];
        forall j | 0 <= j < |t|
          ensures IsSpace(t[j])
        {
          assert t[j] == s[p..q][i + 1..e - 1][j];
        }
      }
      BlankLineMatches(s, p + i, p + e);
      assert false;
    }
  }

  /** A blank line starting at `i` makes the pattern match there. */
  lemma BlankLineMatches(s: string, i: nat, e: nat)
    requires BlankLineAt(s, i, e)
    ensures MatchEnd(s, i).Some?
  {
  }

  /** A matched blank-line separator. */
  ghost predicate IsBlankRun(t: string) {
    |t| >= 2 && t[0] == '\n' && t[|t| - 1] == '\n' && AllSpace(t)
  }

  lemma BlankLineRun(s: string, i: nat, e: nat)
    requires BlankLineAt(s, i, e)
    ensures IsBlankRun(s[i..e])
  {
    assert forall j :: i + 1 <= j < e - 1 ==> s[i + 1..e - 1][j - i - 1] == s[j];
  }

  lemma BlankPartsCons(a: string, b: string, rest: seq<string>)
    requires !HasBlankLine(a) && IsBlankRun(b) && |rest| % 2 == 1
    requires forall i :: 0 <= i < |rest| && i % 2 == 1 ==> IsBlankRun(rest[i])
    requires forall i :: 0 <= i < |rest| && i % 2 == 0 ==> !HasBlankLine(rest[i])
    ensures var parts := [a, b] + rest;
      && |parts| % 2 == 1
      && Concat(parts) == a + (b + Concat(rest))
      && (forall i :: 0 <= i < |parts| && i % 2 == 1 ==> IsBlankRun(parts[i]))
      && (forall i :: 0 <= i < |parts| && i % 2 == 0 ==> !HasBlankLine(parts[i]))
  {
    var parts := [a, b] + rest;
    assert parts[1..] == [b] + rest;
    assert parts[1..][1..] == rest;
    forall i | 2 <= i < |parts|
      ensures parts[i] == rest[i - 2]
    {
    }
  }

  /** Where `parts[i]` begins when the parts are laid out from position `p`:
      `p` plus the lengths of the parts before it. */
  function PartStart(p: nat, parts: seq<string>, i: nat): nat
    requires i <= |parts|
  {
    if i == 0 then p else PartStart(p, parts, i - 1) + |parts[i - 1]|
  }

  /** Laid out from `p` in `s`, the piece `parts[i]` runs up to the
      leftmost match at or after its start, and that match is the next
      part; after the last piece no match is left. */
  ghost predicate LeftmostAt(s: string, p: nat, parts: seq<string>, i: nat)
    requires i < |parts|
  {
    && PartStart(p, parts, i) <= |s|
    && NextMatch(s, PartStart(p, parts, i))
       == if i + 2 < |parts| then Some((PartStart(p, parts, i + 1), PartStart(p, parts, i + 2))) else None
  }

  /** Every piece (even position) is laid out as `LeftmostAt` says: the
      scan `split` performs. */
  ghost predicate LeftmostFrom(s: string, p: nat, parts: seq<string>) {
    && PartStart(p, parts, |parts|) <= |s|
    && forall i :: 0 <= i < |parts| && i % 2 == 0 ==> LeftmostAt(s, p, parts, i)
  }

  /** No part starts beyond the end of the parts. */
  lemma {:induction false} PartStartBound(p: nat, parts: seq<string>, i: nat)
    requires i <= |parts|
    ensures PartStart(p, parts, i) <= PartStart(p, parts, |parts|)
    decreases |parts| - i
  {
    if i < |parts| {
      PartStartBound(p, parts, i + 1);
    }
  }

  lemma {:induction false} PartStartConsAt(p: nat, a: string, b: string, rest: seq<string>, i: nat)
    requires 2 <= i <= |rest| + 2
    ensures PartStart(p, [a, b] + rest, i) == PartStart(p + |a| + |b|, rest, i - 2)
  {
    if i > 2 {
      PartStartConsAt(p, a, b, rest, i - 1);
      assert ([a, b] + rest)[i - 1] == rest[i - 3];
    } else {
      assert PartStart(p, [a, b] + rest, 1) == p + |a|;
    }
  }

  lemma LeftmostConsAt(s: string, p: nat, a: string, b: string, rest: seq<string>, i: nat)
    requires 2 <= i < |rest| + 2
    requires LeftmostAt(s, p + |a| + |b|, rest, i - 2)
    ensures LeftmostAt(s, p, [a, b] + rest, i)
  {
    PartStartConsAt(p, a, b, rest, i);
    if i < |rest| {
      PartStartConsAt(p, a, b, rest, i + 1);
      PartStartConsAt(p, a, b, rest, i + 2);
    }
  }

  lemma LeftmostConsHead(s: string, p: nat, a: string, b: string, rest: seq<string>)
    requires p + |a| + |b| <= |s| && rest != []
    requires NextMatch(s, p) == Some((p + |a|, p + |a| + |b|))
    ensures LeftmostAt(s, p, [a, b] + rest, 0)
  {
    PartStartConsAt(p, a, b, rest, 2);
    assert PartStart(p, [a, b] + rest, 1) == p + |a|;
  }

  lemma LeftmostConsTail(s: string, p: nat, a: string, b: string, rest: seq<string>)
    requires LeftmostFrom(s, p + |a| + |b|, rest)
    ensures forall i :: 2 <= i < |rest| + 2 && i % 2 == 0 ==> LeftmostAt(s, p, [a, b] + rest, i)
  {
    forall i | 2 <= i < |rest| + 2 && i % 2 == 0
      ensures LeftmostAt(s, p, [a, b] + rest, i)
    {
      assert LeftmostAt(s, p + |a| + |b|, rest, i - 2);
      LeftmostConsAt(s, p, a, b, rest, i);
    }
  }

  lemma LeftmostCons(s: string, p: nat, a: string, b: string, rest: seq<string>)
    requires p + |a| + |b| <= |s| && |rest| % 2 == 1
    requires NextMatch(s, p) == Some((p + |a|, p + |a| + |b|))
    requires LeftmostFrom(s, p + |a| + |b|, rest)
    ensures LeftmostFrom(s, p, [a, b] + rest)
  {
    PartStartConsAt(p, a, b, rest, |rest| + 2);
    LeftmostConsHead(s, p, a, b, rest);
    LeftmostConsTail(s, p, a, b, rest);
  }

  /** The parts of `s[p..]` alternate pieces without a blank line and
      blank-line separators, and concatenate back to `s[p..]`. */
  ghost predicate BlankSplit(s: string, p: nat, parts: seq<string>)
    requires p <= |s|
  {
    && |parts| % 2 == 1
    && Concat(parts) == s[p..]
    && (forall i :: 0 <= i < |parts| && i % 2 == 1 ==> IsBlankRun(parts[i]))
    && (forall i :: 0 <= i < |parts| && i % 2 == 0 ==> !HasBlankLine(parts[i]))
  }

  lemma BlankSplitLast(s: string, p: nat)
    requires p <= |s| && NextMatch(s, p).None?
    ensures BlankSplit(s, p, [s[p..]])
  {
    NoBlankLineBetween(s, p, |s|);
    assert s[p..|s|] == s[p..];
    assert Concat([s[p..]]) == s[p..] + Concat([]);
  }

  lemma BlankSplitStep(s: string, p: nat, q: nat, e: nat, rest: seq<string>)
    requires p <= |s| && NextMatch(s, p) == Some((q, e))
    requires e <= |s| && BlankSplit(s, e, rest)
    ensures p <= q <= e
    ensures BlankSplit(s, p, [s[p..q], s[q..e]] + rest)
  {
    NoBlankLineBetween(s, p, q);
    BlankLineRun(s, q, e);
    BlankPartsCons(s[p..q], s[q..e], rest);
    assert s[p..] == s[p..q] + (s[q..e] + s[e..]);
  }

  /** `s.split(/\n\s*\n/)` on `s[p..]`, with the matched separators kept
      at the odd positions: the pieces at even positions hold no blank line.
      `BlankPartsLeftmost` adds that each separator is the leftmost, greedy
      match. */
  function BlankParts(s: string, p: nat): (parts: seq<string>)
    requires p <= |s|
    ensures |parts| % 2 == 1
    ensures Concat(parts) == s[p..]
    ensures forall i :: 0 <= i < |parts| && i % 2 == 1 ==> IsBlankRun(parts[i])
    ensures forall i :: 0 <= i < |parts| && i % 2 == 0 ==> !HasBlankLine(parts[i])
    decreases |s| - p
  {
    match NextMatch(s, p)
    case None =>
      BlankSplitLast(s, p);
      [s[p..]]
    case Some((q, e)) =>
      var rest := BlankParts(s, e);
      BlankSplitStep(s, p, q, e, rest);
      [s[p..q], s[q..e]] + rest
  }

  /** Every separator of `BlankParts` is the leftmost, greedy match after
      the previous one, and none follows the last piece. */
  lemma {:induction false} BlankPartsLeftmost(s: string, p: nat)
    requires p <= |s|
    ensures LeftmostFrom(s, p, BlankParts(s, p))
    decreases |s| - p
  {
    match NextMatch(s, p)
    case None =>
      var parts := BlankParts(s, p);
      assert parts == [s[p..]];
      assert LeftmostAt(s, p, parts, 0);
    case Some((q, e)) =>
      assert BlankLineAt(s, q, e);
      BlankPartsLeftmost(s, e);
      var rest := BlankParts(s, e);
      assert BlankParts(s, p) == [s[p..q], s[q..e]] + rest;
      LeftmostCons(s, p, s[p..q], s[q..e], rest);
  }

  lemma LeftmostTailAt(s: string, p: nat, a: string, b: string, rest: seq<string>, i: nat)
    requires i < |rest|
    requires LeftmostAt(s, p, [a, b] + rest, i + 2)
    ensures LeftmostAt(s, p + |a| + |b|, rest, i)
  {
    PartStartConsAt(p, a, b, rest, i + 2);
    if i + 2 < |rest| {
      PartStartConsAt(p, a, b, rest, i + 3);
      PartStartConsAt(p, a, b, rest, i + 4);
    }
  }

  /** Read backwards, a leftmost split from `p` starts with the leftmost
      match. */
  lemma LeftmostHead(s: string, p: nat, a: string, b: string, rest: seq<string>)
    requires |rest| % 2 == 1 && LeftmostFrom(s, p, [a, b] + rest)
    ensures p + |a| + |b| <= |s|
    ensures NextMatch(s, p) == Some((p + |a|, p + |a| + |b|))
    ensures |b| >= 2
  {
    var parts := [a, b] + rest;
    assert LeftmostAt(s, p, parts, 0);
    PartStartConsAt(p, a, b, rest, 2);
    assert PartStart(p, parts, 1) == p + |a|;
    PartStartBound(p, parts, 2);
    assert BlankLineAt(s, p + |a|, p + |a| + |b|);
  }

  /** ... and continues with a leftmost split from after that match. */
  lemma LeftmostTail(s: string, p: nat, a: string, b: string, rest: seq<string>)
    requires |rest| % 2 == 1 && LeftmostFrom(s, p, [a, b] + rest)
    ensures LeftmostFrom(s, p + |a| + |b|, rest)
  {
    var parts := [a, b] + rest;
    PartStartConsAt(p, a, b, rest, |parts|);
    forall i | 0 <= i < |rest| && i % 2 == 0
      ensures LeftmostAt(s, p + |a| + |b|, rest, i)
    {
      assert LeftmostAt(s, p, parts, i + 2);
      LeftmostTailAt(s, p, a, b, rest, i);
    }
  }

  /** Cutting `a + (b + c) == s[p..]` at the lengths of `a` and `b`. */
  lemma ConcatCut(s: string, p: nat, q: nat, e: nat, a: string, b: string, c: string)
    requires p <= |s| && a + (b + c) == s[p..]
    requires q == p + |a| && e == q + |b|
    ensures e <= |s|
    ensures a == s[p..q] && b == s[q..e] && c == s[e..]
  {
    assert s[p..][..|a|] == s[p..q];
    assert s[p..][|a|..][..|b|] == s[q..e];
    assert s[p..][|a|..][|b|..] == s[e..];
  }

  /** The split is the only one: any alternation of pieces and separators
      that concatenates to `s[p..]` and takes the leftmost match each time
      is the one `BlankParts` computes. */
  lemma {:induction false} BlankPartsUnique(s: string, p: nat, parts: seq<string>)
    requires p <= |s| && |parts| % 2 == 1
    requires Concat(parts) == s[p..]
    requires LeftmostFrom(s, p, parts)
    ensures parts == BlankParts(s, p)
    decreases |s| - p
  {
    if |parts| == 1 {
      OnlyPiece(s, p, parts);
    } else {
      var a, b, rest := parts[0], parts[1], parts[2..];
      assert parts == [a, b] + rest;
      LeftmostHead(s, p, a, b, rest);
      LeftmostTail(s, p, a, b, rest);
      ConcatCons2(a, b, rest);
      var q, e := p + |a|, p + |a| + |b|;
      ConcatCut(s, p, q, e, a, b, Concat(rest));
      BlankPartsUnique(s, e, rest);
      BlankPartsStep(s, p, q, e);
    }
  }

  /** One step of `BlankParts`, read as an equation. */
  lemma BlankPartsStep(s: string, p: nat, q: nat, e: nat)
    requires p <= |s| && NextMatch(s, p) == Some((q, e))
    ensures q <= e <= |s| && BlankParts(s, p) == [s[p..q], s[q..e]] + BlankParts(s, e)
  {
  }

  lemma OnlyPiece(s: string, p: nat, parts: seq<string>)
    requires p <= |s| && |parts| == 1
    requires Concat(parts) == s[p..]
    requires LeftmostFrom(s, p, parts)
    ensures parts == BlankParts(s, p)
  {
    assert parts[..0] == [];
    assert LeftmostAt(s, p, parts, 0);
    assert Concat(parts) == parts[0] + Concat([]);
    assert parts == [parts[0]] && parts[0] == s[p..];
    BlankPartsLast(s, p);
  }

  lemma ConcatCons2(a: string, b: string, rest: seq<string>)
    ensures Concat([a, b] + rest) == a + (b + Concat(rest))
  {
    var parts := [a, b] + rest;
    assert parts[1..] == [b] + rest;
    assert parts[1..][1..] == rest;
  }

  lemma BlankPartsLast(s: string, p: nat)
    requires p <= |s| && NextMatch(s, p).None?
    ensures BlankParts(s, p) == [s[p..]]
  {
  }

  /** Three newlines are one greedy separator between two empty pieces. */
  lemma ThreeNewlines()
    ensures BlankParts("\n\n\n", 0) == ["", "\n\n\n", ""]
  {
    var s := "\n\n\n";
    assert SpaceRunEnd(s, 1) == 3;
    assert LastNewline(s, 1, 3) == Some(2);
    assert MatchEnd(s, 0) == Some(3);
    assert NextMatch(s, 0) == Some((0, 3));
    assert NextMatch(s, 3).None?;
    assert s[3..] == "" && s[0..0] == "" && s[0..3] == s;
    assert BlankParts(s, 3) == [""];
    assert BlankParts(s, 0) == [s[0..0], s[0..3]] + BlankParts(s, 3);
  }

  /** The parts at even positions: what `split` returns. */
  function Pieces(parts: seq<string>): seq<string> {
    seq((|parts| + 1) / 2, k requires 0 <= k < (|parts| + 1) / 2 => parts[2 * k])
  }

  lemma NonEmptyMembers(parts: seq<string>)
    ensures forall x :: x in NonEmpty(parts) ==> x in parts
  {
    if parts != [] {
      NonEmptyMembers(parts[..|parts| - 1]);
    }
  }

  lemma PiecesHaveNoBlankLine(parts: seq<string>)
    requires forall i :: 0 <= i < |parts| && i % 2 == 0 ==> !HasBlankLine(parts[i])
    ensures forall x :: x in NonEmpty(Pieces(parts)) ==> !HasBlankLine(x)
  {
    var pieces := Pieces(parts);
    NonEmptyMembers(pieces);
    forall x | x in NonEmpty(pieces)
      ensures !HasBlankLine(x)
    {
      var k :| 0 <= k < |pieces| && pieces[k] == x;
      assert x == parts[2 * k];
    }
  }

  /** The positions of the parts that `filter(Boolean)` keeps: the
      non-empty pieces, in increasing order. */
  function KeptIndices(parts: seq<string>): (idx: seq<nat>)
    ensures forall k :: 0 <= k < |idx| ==> idx[k] < |parts| && idx[k] % 2 == 0 && parts[idx[k]] != ""
    ensures forall k, l :: 0 <= k < l < |idx| ==> idx[k] < idx[l]
    ensures forall i :: 0 <= i < |parts| && i % 2 == 0 && parts[i] != "" ==> i in idx
  {
    KeptBelowComplete(parts, |parts|);
    KeptBelow(parts, |parts|)
  }

  /** The kept positions below `n`. */
  function KeptBelow(parts: seq<string>, n: nat): (idx: seq<nat>)
    requires n <= |parts|
    ensures forall k :: 0 <= k < |idx| ==> idx[k] < n && idx[k] % 2 == 0 && parts[idx[k]] != ""
    ensures forall k, l :: 0 <= k < l < |idx| ==> idx[k] < idx[l]
  {
    if n == 0 then []
    else KeptBelow(parts, n - 1) + (if (n - 1) % 2 == 0 && parts[n - 1] != "" then [n - 1] else [])
  }

  /** ... and no non-empty piece below `n` is missing. */
  lemma {:induction false} KeptBelowComplete(parts: seq<string>, n: nat)
    requires n <= |parts|
    ensures forall i :: 0 <= i < n && i % 2 == 0 && parts[i] != "" ==> i in KeptBelow(parts, n)
  {
    if n > 0 {
      KeptBelowComplete(parts, n - 1);
    }
  }

  lemma PiecesSnoc(parts: seq<string>)
    requires parts != []
    ensures var n := |parts| - 1;
      Pieces(parts) == Pieces(parts[..n]) + (if n % 2 == 0 then [parts[n]] else [])
  {
  }

  lemma NonEmptySnoc(xs: seq<string>, y: string)
    ensures NonEmpty(xs + [y]) == NonEmpty(xs) + (if y == "" then [] else [y])
  {
    assert (xs + [y])[..|xs|] == xs;
  }

  /** One step of `KeptPiecesBelow`: appending the same kept part to both
      sides keeps them paired up. */
  lemma PairedSnoc(parts: seq<string>, m: nat, x: string, kpre: seq<string>, ipre: seq<nat>, ks: seq<string>, idx: seq<nat>)
    requires |kpre| == |ipre| && m < |parts| && (x != "" ==> x == parts[m])
    requires forall k :: 0 <= k < |ipre| ==> ipre[k] < |parts| && kpre[k] == parts[ipre[k]]
    requires ks == kpre + (if x == "" then [] else [x])
    requires idx == ipre + (if x == "" then [] else [m])
    ensures |ks| == |idx| && forall k :: 0 <= k < |idx| ==> idx[k] < |parts| && ks[k] == parts[idx[k]]
  {
  }

  /** The non-empty pieces of `parts[..n]`: those of `parts[..n - 1]`,
      then `parts[n - 1]` when it is a non-empty piece. */
  lemma NonEmptyPiecesSnoc(parts: seq<string>, n: nat)
    requires 0 < n <= |parts|
    ensures var x := if (n - 1) % 2 == 0 then parts[n - 1] else "";
      NonEmpty(Pieces(parts[..n])) == NonEmpty(Pieces(parts[..n - 1])) + (if x == "" then [] else [x])
  {
    var pre := parts[..n - 1];
    assert parts[..n][..n - 1] == pre;
    PiecesSnoc(parts[..n]);
    if (n - 1) % 2 == 0 {
      NonEmptySnoc(Pieces(pre), parts[n - 1]);
    } else {
      assert Pieces(parts[..n]) == Pieces(pre);
    }
  }

  lemma {:induction false} KeptPiecesBelow(parts: seq<string>, n: nat)
    requires n <= |parts|
    ensures |NonEmpty(Pieces(parts[..n]))| == |KeptBelow(parts, n)|
    ensures forall k :: 0 <= k < |KeptBelow(parts, n)| ==> NonEmpty(Pieces(parts[..n]))[k] == parts[KeptBelow(parts, n)[k]]
  {
    if n > 0 {
      var m := n - 1;
      KeptPiecesBelow(parts, m);
      NonEmptyPiecesSnoc(parts, n);
      var x := if m % 2 == 0 then parts[m] else "";
      PairedSnoc(parts, m, x, NonEmpty(Pieces(parts[..m])), KeptBelow(parts, m), NonEmpty(Pieces(parts[..n])), KeptBelow(parts, n));
    }
  }

  /** Dropping the empty pieces keeps the others in order. */
  lemma KeptPieces(parts: seq<string>)
    ensures |NonEmpty(Pieces(parts))| == |KeptIndices(parts)|
    ensures forall k :: 0 <= k < |KeptIndices(parts)| ==> NonEmpty(Pieces(parts))[k] == parts[KeptIndices(parts)[k]]
  {
    KeptPiecesBelow(parts, |parts|);
    assert parts[..|parts|] == parts;
  }

  /** `text.split(/\n\s*\n/).filter(Boolean)`: the paragraphs of a summary
      are the non-empty pieces between blank lines, in order. */
  function Paragraphs(text: string): (ps: seq<string>)
    ensures forall k :: 0 <= k < |ps| ==> ps[k] != "" && !HasBlankLine(ps[k])
    ensures var parts := BlankParts(text, 0); var idx := KeptIndices(parts);
      |ps| == |idx| && forall k :: 0 <= k < |ps| ==> ps[k] == parts[idx[k]]
  {
    PiecesHaveNoBlankLine(BlankParts(text, 0));
    KeptPieces(BlankParts(text, 0));
    NonEmpty(Pieces(BlankParts(text, 0)))
  }

  /** A non-empty text without a blank line is one paragraph. */
  lemma OneBlockOneParagraph(text: string)
    requires text != "" && !HasBlankLine(text)
    ensures Paragraphs(text) == [text]
  {
    match NextMatch(text, 0)
    case Some(_) =>
      assert false;
    case None =>
      assert text[0..] == text;
      assert BlankParts(text, 0) == [text];
      var pieces := Pieces([text]);
      assert pieces == [text];
      assert pieces[..0] == [];
      assert NonEmpty(pieces) == NonEmpty(pieces[..0]) + [text];
  }

  /** The empty text yields no paragraph at all. */
  lemma EmptyTextNoParagraphs()
    ensures Paragraphs("") == []
  {
    assert NextMatch("", 0).None?;
    assert BlankParts("", 0) == [""];
    assert Pieces([""]) == [""];
    assert [""][..0] == [];
  }

  // ---------------------------------------------------------------------
  // The session (all-tests/page.tsx:9-84, 128-163)

  /** One entry of the summary list the page walks through. */
  datatype Summary = Summary(id: string, text: string, simplified: bool)

  /** One POST to the batch endpoint: the participant and the result list. */
  datatype Batch = Batch(participantId: string, results: seq<Submission>)

  class AllTests {
    const summaries: seq<Summary>
    var currentTestIndex: nat
    var style: Style
    var testResults: seq<Submission>
    var testCompleted: bool
    var participantId: string
    /** The batches posted so far. */
    var posted: seq<Batch>

    ghost predicate Valid()
      reads this
    {
      && |summaries| > 0
      && currentTestIndex < |summaries|
      && |testResults| == currentTestIndex + (if testCompleted then 1 else 0)
      && (testCompleted ==> currentTestIndex == |summaries| - 1)
    }

    /** The first render: test 0, the default 'box' style, no id yet. */
    constructor (summaries: seq<Summary>)
      requires |summaries| > 0
      ensures Valid()
      ensures this.summaries == summaries && currentTestIndex == 0 && style == Box
      ensures testResults == [] && !testCompleted && participantId == "" && posted == []
    {
      this.summaries := summaries;
      currentTestIndex, style, testResults := 0, Box, [];
      testCompleted, participantId, posted := false, "", [];
    }

    /** The mount effect stores the generated id (a parameter here), then
        the effect keyed on the id picks the style when the id is
        non-empty. */
    method Identify(id: string)
      requires Valid()
      modifies this`participantId, this`style
      ensures Valid()
      ensures participantId == id
      ensures style == if id == "" then old(style) else StyleFor(id)
    {
      participantId := id;
      if participantId != "" {
        style := StyleFor(participantId);
      }
    }

    /** The paragraphs handed to the current CTest. */
    function CurrentParagraphs(): (ps: seq<string>)
      requires Valid()
      reads this
      ensures ps == Paragraphs(summaries[currentTestIndex].text)
      ensures forall k :: 0 <= k < |ps| ==> ps[k] != "" && !HasBlankLine(ps[k])
    {
      Paragraphs(summaries[currentTestIndex].text)
    }

    /** handleTestComplete as written: the batch is posted with the
        `testResults` of the render that created the handler, so it lacks
        the result being completed. */
    method HandleTestCompleteAsWritten(result: Submission)
      requires Valid() && !testCompleted
      modifies this`testResults, this`currentTestIndex, this`testCompleted, this`posted
      ensures Valid()
      ensures testResults == old(testResults) + [result]
      ensures if old(currentTestIndex) < |summaries| - 1 then
          currentTestIndex == old(currentTestIndex) + 1 && !testCompleted && posted == old(posted)
        else
          currentTestIndex == old(currentTestIndex) && testCompleted
          && posted == old(posted) + [Batch(participantId, old(testResults))]
    {
      var stale := testResults;
      testResults := testResults + [result];
      if currentTestIndex < |summaries| - 1 {
        currentTestIndex := currentTestIndex + 1;
      } else {
        testCompleted := true;
        posted := posted + [Batch(participantId, stale)];
      }
    }

    /** handleTestComplete posting the list that includes the last result. */
    method HandleTestComplete(result: Submission)
      requires Valid() && !testCompleted
      modifies this`testResults, this`currentTestIndex, this`testCompleted, this`posted
      ensures Valid()
      ensures testResults == old(testResults) + [result]
      ensures if old(currentTestIndex) < |summaries| - 1 then
          currentTestIndex == old(currentTestIndex) + 1 && !testCompleted && posted == old(posted)
        else
          currentTestIndex == old(currentTestIndex) && testCompleted
          && posted == old(posted) + [Batch(participantId, testResults)]
    {
      testResults := testResults + [result];
      if currentTestIndex < |summaries| - 1 {
        currentTestIndex := currentTestIndex + 1;
      } else {
        testCompleted := true;
        posted := posted + [Batch(participantId, testResults)];
      }
    }
  }

  /** As written, a session of `n` tests posts one batch holding only the
      first `n - 1` results. */
  method RunSessionAsWritten(summaries: seq<Summary>, id: string, results: seq<Submission>) returns (posted: seq<Batch>)
    requires |summaries| > 0 && |results| == |summaries|
    ensures posted == [Batch(id, results[..|results| - 1])]
  {
    var page := new AllTests(summaries);
    page.Identify(id);
    for t := 0 to |results|
      invariant page.Valid() && page.summaries == summaries && page.participantId == id
      invariant page.testResults == results[..t]
      invariant page.testCompleted <==> t == |results|
      invariant page.posted == if t == |results| then [Batch(id, results[..|results| - 1])] else []
    {
      assert results[..t + 1] == results[..t] + [results[t]];
      page.HandleTestCompleteAsWritten(results[t]);
    }
    posted := page.posted;
  }

  /** With the corrected handler, the one batch holds every result in
      completion order. */
  method RunSession(summaries: seq<Summary>, id: string, results: seq<Submission>) returns (posted: seq<Batch>)
    requires |summaries| > 0 && |results| == |summaries|
    ensures posted == [Batch(id, results)]
  {
    var page := new AllTests(summaries);
    page.Identify(id);
    for t := 0 to |results|
      invariant page.Valid() && page.summaries == summaries && page.participantId == id
      invariant page.testResults == results[..t]
      invariant page.testCompleted <==> t == |results|
      invariant page.posted == if t == |results| then [Batch(id, results)] else []
    {
      assert results[..t + 1] == results[..t] + [results[t]];
      page.HandleTestComplete(results[t]);
      if t + 1 == |results| {
        assert results[..t + 1] == results;
      }
    }
    assert results[..|results|] == results;
    posted := page.posted;
  }
}
