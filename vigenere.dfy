// The Vigenère cipher (`vigenere_encrypt`).

module Vigenere {
  import opened Ascii
  import Caesar

  /** Number of letters in `s`: how far the running keyword index has
      advanced after `s` has been read. */
  function LetterCount(s: string): (n: nat)
    ensures n <= |s|
  {
    if s == [] then 0
    else LetterCount(s[..|s| - 1]) + (if IsLetter(s[|s| - 1]) then 1 else 0)
  }

  /** A keyword in the form the cipher uses it: upper-cased, so every
      character is an upper-case letter. */
  predicate IsKey(key: string)
  {
    |key| > 0 && forall j :: 0 <= j < |key| ==> IsUpper(key[j])
  }

  /** One letter of the Vigenère cipher: the upper-cased message letter is
      moved forward by the keyword letter's place in the alphabet, and the
      result is always upper case. */
  function VigenereChar(c: char, k: char): (r: char)
    requires IsLetter(c) && IsUpper(k)
    ensures IsUpper(r)
    ensures AlphaIndex(r) == (AlphaIndex(c) + AlphaIndex(k)) % 26
  {
    var u := ToUpper(c);
    ((u as int - 'A' as int + (k as int - 'A' as int)) % 26 + 'A' as int) as char
  }

  /** The Vigenère cipher of a whole text: the letter at position `i` uses
      the keyword letter selected by the number of letters before it, taken
      cyclically; non-letters are copied and use no keyword letter. */
  function VigenereText(message: string, key: string): (r: string)
    requires IsKey(key)
    ensures |r| == |message|
  {
    seq(|message|, i requires 0 <= i < |message| =>
      if IsLetter(message[i])
      then VigenereChar(message[i], key[LetterCount(message[..i]) % |key|])
      else message[i])
  }

  /** In a text of letters only, every letter advances the keyword index. */
  lemma {:induction false} AllLettersCount(s: string)
    requires forall i :: 0 <= i < |s| ==> IsLetter(s[i])
    ensures LetterCount(s) == |s|
  {
    if s != [] {
      AllLettersCount(s[..|s| - 1]);
    }
  }

  /** For a message of letters only, letter i is enciphered with keyword
      letter i mod the keyword length: message and keyword advance in step. */
  lemma AllLettersCycle(message: string, key: string)
    requires IsKey(key)
    requires forall i :: 0 <= i < |message| ==> IsLetter(message[i])
    ensures VigenereText(message, key) ==
      seq(|message|, i requires 0 <= i < |message| => VigenereChar(message[i], key[i % |key|]))
  {
    forall i | 0 <= i < |message|
      ensures VigenereText(message, key)[i] == VigenereChar(message[i], key[i % |key|])
    {
      AllLettersCount(message[..i]);
    }
  }

  /** `vigenere_encrypt`: an empty or non-alphabetic keyword is rejected with
      the empty string; otherwise the keyword is upper-cased and a running
      keyword index advances on every letter of the message. */
  method VigenereEncrypt(message: string, keyword: string) returns (result: string)
    requires IsAsciiText(message) && IsAsciiText(keyword)
    ensures !ValidKeyword(keyword) ==> result == ""
    ensures ValidKeyword(keyword) ==> IsKey(UpperText(keyword))
    ensures ValidKeyword(keyword) ==> result == VigenereText(message, UpperText(keyword))
  {
    if |keyword| == 0 || !(forall j :: 0 <= j < |keyword| ==> IsLetter(keyword[j])) {
      return "";
    }
    result := "";
    var key := UpperText(keyword);
    var keywordLength := |key|;
    var keywordIndex := 0;
    ghost var expected := VigenereText(message, key);
    for i := 0 to |message|
      invariant keywordIndex == LetterCount(message[..i])
      invariant |result| == i
      invariant forall j :: 0 <= j < i ==> result[j] == expected[j]
    {
      var c := message[i];
      assert message[..i + 1][..i] == message[..i];
      if IsLetter(c) {
        var u := ToUpper(c);
        var k := key[keywordIndex % keywordLength];
        var encrypted := ((u as int - 'A' as int + (k as int - 'A' as int)) % 26 + 'A' as int) as char;
        assert encrypted == VigenereChar(c, k) == expected[i];
        result := result + [encrypted];
        keywordIndex := keywordIndex + 1;
      } else {
        result := result + [c];
      }
    }
  }

  /** The cipher keeps the length and every non-letter in its place, and
      turns every letter into an upper-case letter. */
  lemma VigenereKeepsShape(message: string, key: string)
    requires IsKey(key)
    ensures |VigenereText(message, key)| == |message|
    ensures forall i :: 0 <= i < |message| ==>
      (IsLetter(message[i]) ==> IsUpper(VigenereText(message, key)[i])) &&
      (!IsLetter(message[i]) ==> VigenereText(message, key)[i] == message[i])
  {
  }

  /** Two texts with letters at the same positions have read the same number
      of keyword letters. */
  lemma {:induction false} LetterCountSame(a: string, b: string)
    requires |a| == |b|
    requires forall j :: 0 <= j < |a| ==> (IsLetter(a[j]) <==> IsLetter(b[j]))
    ensures LetterCount(a) == LetterCount(b)
  {
    if a != [] {
      LetterCountSame(a[..|a| - 1], b[..|b| - 1]);
    }
  }

  /** The keyword that undoes `key`: each letter's shift negated modulo 26. */
  function Complement(key: string): (inverse: string)
    requires IsKey(key)
    ensures IsKey(inverse) && |inverse| == |key|
    ensures forall j :: 0 <= j < |key| ==> (AlphaIndex(key[j]) + AlphaIndex(inverse[j])) % 26 == 0
  {
    seq(|key|, j requires 0 <= j < |key| => UpperLetter((26 - AlphaIndex(key[j])) % 26))
  }

  /** Shifting by `s` and then by a `t` with `s + t` a multiple of 26
      returns every alphabet place to itself. */
  lemma ShiftBack(n: nat, s: nat, t: nat)
    requires n < 26 && s < 26 && t < 26
    requires (s + t) % 26 == 0
    ensures ((n + s) % 26 + t) % 26 == n
  {
    assert t == (26 - s) % 26;
    if s == 0 {
      assert (n + s) % 26 == n;
    } else if n + s < 26 {
      assert (n + s) % 26 == n + s;
    } else {
      assert (n + s) % 26 == n + s - 26;
    }
  }

  /** A letter enciphered with `k` and then with the complementary letter
      `inverse` comes back upper-cased. */
  lemma VigenereCharRoundTrip(c: char, k: char, inverse: char)
    requires IsLetter(c) && IsUpper(k) && IsUpper(inverse)
    requires (AlphaIndex(k) + AlphaIndex(inverse)) % 26 == 0
    ensures VigenereChar(VigenereChar(c, k), inverse) == ToUpper(c)
  {
    ShiftBack(AlphaIndex(c), AlphaIndex(k), AlphaIndex(inverse));
    LetterDeterminedByIndex(VigenereChar(VigenereChar(c, k), inverse), ToUpper(c));
  }

  /** Enciphering with `key` and then with its complement yields the
      upper-cased message: the cipher loses nothing but letter case. */
  lemma VigenereRoundTrip(message: string, key: string)
    requires IsKey(key)
    ensures VigenereText(VigenereText(message, key), Complement(key)) == UpperText(message)
  {
    var once := VigenereText(message, key);
    var inverse := Complement(key);
    var twice := VigenereText(once, inverse);
    forall i | 0 <= i < |message|
      ensures twice[i] == UpperText(message)[i]
    {
      if IsLetter(message[i]) {
        LetterCountSame(once[..i], message[..i]);
        var slot := LetterCount(message[..i]) % |key|;
        VigenereCharRoundTrip(message[i], key[slot], inverse[slot]);
      }
    }
  }

  /** With a one-letter keyword the Vigenère cipher is the Caesar cipher of
      the upper-cased message, shifted by that letter's place. */
  lemma OneLetterKeyIsCaesar(message: string, k: char)
    requires IsUpper(k)
    ensures VigenereText(message, [k]) == Caesar.CaesarText(UpperText(message), AlphaIndex(k))
  {
    var v := VigenereText(message, [k]);
    var c := Caesar.CaesarText(UpperText(message), AlphaIndex(k));
    forall i | 0 <= i < |message|
      ensures v[i] == c[i]
    {
      if IsLetter(message[i]) {
        LetterDeterminedByIndex(v[i], c[i]);
      }
    }
  }
}
