/** Character classification and case conversion as both programs use them
    (`std::isalpha`, `std::toupper` in the "C" locale), restricted to ASCII,
    and the letter-to-index conversion `abcPosition`. */
module Ascii {

  /** `std::isalpha` in the "C" locale: the ASCII letters A-Z and a-z. */
  predicate IsLetter(c: char) {
    'A' <= c <= 'Z' || 'a' <= c <= 'z'
  }

  predicate IsUpper(c: char) {
    'A' <= c <= 'Z'
  }

  /** `std::toupper` in the "C" locale: lower-case ASCII letters are shifted,
      every other character is returned unchanged. */
  function ToUpper(c: char): (r: char)
    ensures IsLetter(c) <==> IsUpper(r)
    ensures IsLetter(c) ==> r as int - 'A' as int == (if IsUpper(c) then c as int - 'A' as int else c as int - 'a' as int)
    ensures !IsLetter(c) ==> r == c
  {
    if 'a' <= c <= 'z' then (c as int - 'a' as int + 'A' as int) as char else c
  }

  /** The upper-cased copy of a string, character by character. */
  function Upper(s: string): (r: string)
    ensures |r| == |s|
    ensures forall i :: 0 <= i < |s| ==> r[i] == ToUpper(s[i])
  {
    if s == [] then [] else [ToUpper(s[0])] + Upper(s[1..])
  }

  /** Upper-casing one more character appends its upper-case form. */
  lemma UpperAppend(s: string, c: char)
    ensures Upper(s + [c]) == Upper(s) + [ToUpper(c)]
  {
    assert |Upper(s + [c])| == |Upper(s) + [ToUpper(c)]|;
  }

  /** `abcPosition`: the distance of the upper-cased character from 'A'.
      It is a letter index 0..25 exactly when the character is a letter, and
      two letters get the same index exactly when they agree up to case. */
  function AbcPosition(c: char): (r: int)
    ensures 0 <= r < 26 <==> IsLetter(c)
    ensures IsLetter(c) ==> ('A' as int + r) as char == ToUpper(c)
  {
    ToUpper(c) as int - 'A' as int
  }

  /** The upper-case letter with index `n`. */
  function LetterAt(n: nat): (c: char)
    requires n < 26
    ensures IsUpper(c) && AbcPosition(c) == n
  {
    ('A' as int + n) as char
  }

  /** Letters that agree up to case have the same index, and only they do. */
  lemma AbcPositionCaseInsensitive(c: char, d: char)
    requires IsLetter(c) && IsLetter(d)
    ensures AbcPosition(c) == AbcPosition(d) <==> ToUpper(c) == ToUpper(d)
  {
  }

  /** Number of letters in `s`: how far the keyed cipher's key index advances. */
  function LetterCount(s: string): (n: nat)
    ensures n <= |s|
  {
    if s == [] then 0 else LetterCount(s[..|s| - 1]) + (if IsLetter(s[|s| - 1]) then 1 else 0)
  }
}
