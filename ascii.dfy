// Character classes shared by every cipher of the engine.
//
// The engine is modelled on ASCII text: `is_alphabetic`, `is_uppercase`,
// `to_ascii_uppercase` and `to_uppercase` are taken on 'A'..'Z' and 'a'..'z',
// and every other character is "other" (passed through or dropped).

module Ascii {

  /** `char::is_uppercase` on ASCII input. */
  predicate IsUpper(c: char) { 'A' <= c <= 'Z' }

  predicate IsLower(c: char) { 'a' <= c <= 'z' }

  /** `char::is_alphabetic` on ASCII input. */
  predicate IsLetter(c: char) { IsUpper(c) || IsLower(c) }

  /** Every character of `s` is a 7-bit ASCII character. */
  predicate IsAsciiText(s: string)
  {
    forall i :: 0 <= i < |s| ==> s[i] as int < 128
  }

  /** The keyword check that Vigenère and Playfair share: non-empty and
      alphabetic throughout. A keyword that passes is, once upper-cased,
      made of upper-case letters only, so each of its characters names an
      alphabet place. */
  predicate ValidKeyword(keyword: string)
    ensures ValidKeyword(keyword) ==>
      forall i :: 0 <= i < |keyword| ==> IsUpper(UpperText(keyword)[i])
  {
    |keyword| > 0 && forall i :: 0 <= i < |keyword| ==> IsLetter(keyword[i])
  }

  /** Zero-based place of a letter in the alphabet, whatever its case. */
  function AlphaIndex(c: char): (n: nat)
    requires IsLetter(c)
    ensures n < 26
  {
    if IsUpper(c) then c as int - 'A' as int else c as int - 'a' as int
  }

  /** The upper-case letter at place `n` of the alphabet. */
  function UpperLetter(n: nat): (c: char)
    requires n < 26
    ensures IsUpper(c) && AlphaIndex(c) == n
  {
    ('A' as int + n) as char
  }

  /** A letter is fixed by its case and its place in the alphabet. */
  lemma LetterDeterminedByIndex(a: char, b: char)
    requires IsLetter(a) && IsLetter(b)
    requires IsUpper(a) == IsUpper(b) && AlphaIndex(a) == AlphaIndex(b)
    ensures a == b
  {
    assert a as int == b as int;
  }

  /** `to_ascii_uppercase` (and `to_uppercase` on ASCII): lower-case letters
      become the upper-case letter at the same place; every other character
      is kept. */
  function ToUpper(c: char): (u: char)
    ensures IsLetter(u) <==> IsLetter(c)
    ensures IsLetter(c) ==> IsUpper(u) && AlphaIndex(u) == AlphaIndex(c)
    ensures !IsLower(c) ==> u == c
    ensures c as int < 128 ==> u as int < 128
  {
    if IsLower(c) then (c as int - 32) as char else c
  }

  /** `str::to_uppercase` on ASCII text, character by character. */
  function UpperText(s: string): (u: string)
    ensures |u| == |s|
    ensures forall i :: 0 <= i < |s| ==> !IsLower(u[i]) && (IsLetter(u[i]) <==> IsLetter(s[i]))
  {
    seq(|s|, i requires 0 <= i < |s| => ToUpper(s[i]))
  }

  /** Upper-casing keeps the length, keeps ASCII text ASCII, leaves no
      lower-case letter, and keeps which positions hold letters. */
  lemma UpperTextFacts(s: string)
    requires IsAsciiText(s)
    ensures |UpperText(s)| == |s| && IsAsciiText(UpperText(s))
    ensures forall i :: 0 <= i < |s| ==> !IsLower(UpperText(s)[i])
    ensures forall i :: 0 <= i < |s| ==> (IsLetter(UpperText(s)[i]) <==> IsLetter(s[i]))
    ensures ValidKeyword(s) ==> ValidKeyword(UpperText(s))
  {
  }
}
