// The Caesar cipher and its ROT13 specialisation (`caesar_encrypt`,
// `rot13_encrypt`).

module Caesar {
  import opened Ascii

  /** Largest shift the source computes without loss: `shift as u8` keeps
      every value up to 255, and `(c - base) + shift` stays within a `u8`
      while `25 + shift <= 255`. */
  const MaxShift: nat := 230

  /** One character of the Caesar cipher: a letter moves `shift` places
      forward within its own case, wrapping past 'Z' or 'z'; any other
      character is kept. */
  function CaesarChar(c: char, shift: nat): (r: char)
    ensures IsUpper(r) <==> IsUpper(c)
    ensures IsLower(r) <==> IsLower(c)
    ensures IsLetter(c) ==> AlphaIndex(r) == (AlphaIndex(c) + shift) % 26
    ensures !IsLetter(c) ==> r == c
  {
    if IsLetter(c) then
      var base := if IsUpper(c) then 'A' else 'a';
      ((c as int - base as int + shift) % 26 + base as int) as char
    else
      c
  }

  /** The Caesar cipher of a whole text, character by character. */
  function CaesarText(message: string, shift: nat): (r: string)
    ensures |r| == |message|
  {
    seq(|message|, i requires 0 <= i < |message| => CaesarChar(message[i], shift))
  }

  /** `caesar_encrypt`: a zero shift is rejected with the empty string;
      otherwise every character is shifted by `shift`. */
  method CaesarEncrypt(message: string, shift: nat) returns (result: string)
    requires IsAsciiText(message)
    requires shift <= MaxShift
    ensures shift == 0 ==> result == ""
    ensures shift != 0 ==> result == CaesarText(message, shift)
  {
    if shift == 0 {
      return "";
    }
    result := "";
    for i := 0 to |message|
      invariant |result| == i
      invariant forall j :: 0 <= j < i ==> result[j] == CaesarChar(message[j], shift)
    {
      var c := message[i];
      if IsLetter(c) {
        var base := if IsUpper(c) then 'A' else 'a';
        var encrypted := ((c as int - base as int + shift) % 26 + base as int) as char;
        result := result + [encrypted];
      } else {
        result := result + [c];
      }
    }
  }

  /** `rot13_encrypt`: the Caesar cipher with the shift fixed at 13. */
  method Rot13Encrypt(message: string) returns (result: string)
    requires IsAsciiText(message)
    ensures result == CaesarText(message, 13)
  {
    result := CaesarEncrypt(message, 13);
  }

  /** The Caesar cipher keeps the length, the case of every letter, and
      every non-letter in its place. */
  lemma CaesarKeepsShape(message: string, shift: nat)
    ensures |CaesarText(message, shift)| == |message|
    ensures forall i :: 0 <= i < |message| ==>
      (IsUpper(CaesarText(message, shift)[i]) <==> IsUpper(message[i])) &&
      (IsLower(CaesarText(message, shift)[i]) <==> IsLower(message[i])) &&
      (!IsLetter(message[i]) ==> CaesarText(message, shift)[i] == message[i])
  {
  }

  /** Shifting a character by `shift` and then by `26 - shift` gives it back. */
  lemma CaesarCharRoundTrip(c: char, shift: nat)
    requires 1 <= shift <= 25
    ensures CaesarChar(CaesarChar(c, shift), 26 - shift) == c
  {
    if IsLetter(c) {
      var r := CaesarChar(c, shift);
      var back := CaesarChar(r, 26 - shift);
      var n := AlphaIndex(c);
      assert AlphaIndex(r) == (n + shift) % 26;
      assert ((n + shift) % 26 + 26 - shift) % 26 == n by {
        if n + shift < 26 {
          assert (n + shift) % 26 == n + shift;
        } else {
          assert (n + shift) % 26 == n + shift - 26;
        }
      }
      LetterDeterminedByIndex(back, c);
    }
  }

  /** Caesar by `shift`, then Caesar by `26 - shift`, restores the message;
      both shifts lie in the range the cipher accepts. */
  lemma CaesarRoundTrip(message: string, shift: nat)
    requires 1 <= shift <= 25
    ensures CaesarText(CaesarText(message, shift), 26 - shift) == message
  {
    var once := CaesarText(message, shift);
    forall i | 0 <= i < |message|
      ensures CaesarText(once, 26 - shift)[i] == message[i]
    {
      CaesarCharRoundTrip(message[i], shift);
    }
  }

  /** ROT13 applied twice is the identity. */
  lemma Rot13Involution(message: string)
    ensures CaesarText(CaesarText(message, 13), 13) == message
  {
    CaesarRoundTrip(message, 13);
  }

  /** The Caesar cipher maps ASCII text to ASCII text, so ROT13 can be
      applied to its own output. */
  lemma CaesarKeepsAscii(message: string, shift: nat)
    requires IsAsciiText(message)
    ensures IsAsciiText(CaesarText(message, shift))
  {
  }
}
