/**
 * Character classes used by the widget's regular expressions and its case
 * mapping.  Regular expressions without the `u` flag use ASCII-only `\w`;
 * `\s` is ECMAScript's WhiteSpace plus LineTerminator set, which is also the
 * set that String.prototype.trim removes.  Case mapping is the ASCII part of
 * toUpperCase / toLowerCase.
 */
module CharClass {

  /** `\w`: [A-Za-z0-9_] */
  predicate IsWord(c: char) {
    ('a' <= c <= 'z') || ('A' <= c <= 'Z') || ('0' <= c <= '9') || c == '_'
  }

  /** `\s` (and the characters `trim` strips) */
  predicate IsSpace(c: char) {
    c == '\t' || c == '\n' || c == '\U{000B}' || c == '\U{000C}' || c == '\r' || c == ' '
    || c == '\U{00A0}' || c == '\U{1680}' || ('\U{2000}' <= c <= '\U{200A}')
    || c == '\U{2028}' || c == '\U{2029}' || c == '\U{202F}' || c == '\U{205F}'
    || c == '\U{3000}' || c == '\U{FEFF}'
  }

  /** `[.!?]`: the sentence-terminal punctuation of sentence case */
  predicate IsTerminal(c: char) {
    c == '.' || c == '!' || c == '?'
  }

  predicate IsUpperLetter(c: char) { 'A' <= c <= 'Z' }

  predicate IsLowerLetter(c: char) { 'a' <= c <= 'z' }

  /** toLowerCase on one ASCII character */
  function Lower(c: char): (r: char)
    ensures !IsUpperLetter(r)
    ensures r == c || IsUpperLetter(c)
    ensures IsWord(r) == IsWord(c) && IsSpace(r) == IsSpace(c) && IsTerminal(r) == IsTerminal(c)
  {
    if IsUpperLetter(c) then (c as int + 32) as char else c
  }

  /** toUpperCase on one ASCII character */
  function Upper(c: char): (r: char)
    ensures !IsLowerLetter(r)
    ensures r == c || IsLowerLetter(c)
    ensures IsWord(r) == IsWord(c) && IsSpace(r) == IsSpace(c) && IsTerminal(r) == IsTerminal(c)
    ensures Lower(r) == Lower(c)
  {
    if IsLowerLetter(c) then (c as int - 32) as char else c
  }

  /** Lowercasing forgets exactly the case: the uppercase of a lowercased character is its uppercase. */
  lemma UpperOfLower(c: char)
    ensures Upper(Lower(c)) == Upper(c)
    ensures Lower(Lower(c)) == Lower(c)
  {
  }

  /** String.prototype.toLowerCase over ASCII */
  function LowerStr(s: string): (r: string)
    ensures |r| == |s|
    ensures forall i :: 0 <= i < |s| ==> r[i] == Lower(s[i])
  {
    if s == [] then [] else [Lower(s[0])] + LowerStr(s[1..])
  }

  /** String.prototype.toUpperCase over ASCII */
  function UpperStr(s: string): (r: string)
    ensures |r| == |s|
    ensures forall i :: 0 <= i < |s| ==> r[i] == Upper(s[i])
  {
    if s == [] then [] else [Upper(s[0])] + UpperStr(s[1..])
  }

  /** Lowercasing a string after uppercasing it gives the plain lowercase. */
  lemma {:induction false} LowerOfUpperStr(s: string)
    ensures LowerStr(UpperStr(s)) == LowerStr(s)
  {
    assert forall i :: 0 <= i < |s| ==> LowerStr(UpperStr(s))[i] == LowerStr(s)[i];
  }

  /** Lowercasing twice is lowercasing once. */
  lemma {:induction false} LowerOfLower(s: string)
    ensures LowerStr(LowerStr(s)) == LowerStr(s)
  {
    forall i | 0 <= i < |s| ensures LowerStr(LowerStr(s))[i] == LowerStr(s)[i] {
      UpperOfLower(s[i]);
    }
  }

  /** A string of `\s` is the only string of its length that lowercases to its lowercase. */
  lemma SpacesUpToCase(t: string, s: string)
    requires |t| == |s| && LowerStr(t) == LowerStr(s)
    requires forall i :: 0 <= i < |s| ==> IsSpace(s[i])
    ensures t == s
  {
    forall i | 0 <= i < |s| ensures t[i] == s[i] {
      assert Lower(t[i]) == LowerStr(t)[i] == LowerStr(s)[i] == Lower(s[i]);
    }
  }
}
