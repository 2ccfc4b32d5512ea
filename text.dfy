/** Character classes and string helpers shared by the tokenizer, the scorer
    and the session controller. */
module Text {

  /** A character of JavaScript's `\s` class; `String.prototype.trim`
      strips exactly these characters. */
  predicate IsSpace(c: char) {
    || c == ' ' || c == '\t' || c == '\n' || c == '\r' || c == '\U{000B}' || c == '\U{000C}'
    || c == '\U{00A0}' || c == '\U{1680}' || ('\U{2000}' <= c <= '\U{200A}')
    || c == '\U{2028}' || c == '\U{2029}' || c == '\U{202F}' || c == '\U{205F}'
    || c == '\U{3000}' || c == '\U{FEFF}'
  }

  /** One of the single punctuation marks the tokenizer splits on: `. ! ? , ; :`. */
  predicate IsPunct(c: char) {
    c == '.' || c == '!' || c == '?' || c == ',' || c == ';' || c == ':'
  }

  /** A sentence terminator of the first-sentence pattern: `. ! ?`. */
  predicate IsTerminator(c: char) {
    c == '.' || c == '!' || c == '?'
  }

  predicate IsAsciiLetter(c: char) {
    ('a' <= c <= 'z') || ('A' <= c <= 'Z')
  }

  predicate AllSpace(s: string) {
    forall i :: 0 <= i < |s| ==> IsSpace(s[i])
  }

  /** Lower-casing of one character: the ASCII capitals, and U+212A KELVIN
      SIGN, the one character outside ASCII whose lower case is an ASCII
      letter ('k'). Other characters are kept. */
  function LowerChar(c: char): char {
    if 'A' <= c <= 'Z' then (c as int + 32) as char
    else if c == '\U{212A}' then 'k'
    else c
  }

  function Lower(s: string): (r: string)
    ensures |r| == |s|
  {
    if s == [] then [] else [LowerChar(s[0])] + Lower(s[1..])
  }

  /** A typed character equals an ASCII letter after lower-casing both
      exactly when it is that letter in either case, or the Kelvin sign
      standing for k. */
  lemma LowerMatchesLetter(x: char, c: char)
    requires IsAsciiLetter(c)
    ensures Lower([x]) == Lower([c]) <==>
      || x == c
      || (IsAsciiLetter(x) && (x as int == c as int + 32 || c as int == x as int + 32))
      || (x == '\U{212A}' && (c == 'k' || c == 'K'))
  {
    assert Lower([x]) == [LowerChar(x)] && Lower([c]) == [LowerChar(c)];
  }

  /** Concatenation of a sequence of strings, left to right. */
  function Concat(parts: seq<string>): string {
    if parts == [] then "" else parts[0] + Concat(parts[1..])
  }

  lemma {:induction false} ConcatAppend(a: seq<string>, b: seq<string>)
    ensures Concat(a + b) == Concat(a) + Concat(b)
  {
    if a == [] {
      assert a + b == b;
    } else {
      assert (a + b)[1..] == a[1..] + b;
      ConcatAppend(a[1..], b);
    }
  }

  /** End of the run of whitespace that starts at `i` (the greedy `\s*`). */
  function SpaceRunEnd(s: string, i: nat): (k: nat)
    requires i <= |s|
    ensures i <= k <= |s|
    ensures forall j :: i <= j < k ==> IsSpace(s[j])
    ensures k < |s| ==> !IsSpace(s[k])
    decreases |s| - i
  {
    if i == |s| || !IsSpace(s[i]) then i else SpaceRunEnd(s, i + 1)
  }
}
