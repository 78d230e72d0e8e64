// The Atbash cipher (`atbash_encrypt`).

module Atbash {
  import opened Ascii

  /** One character of the Atbash cipher: a letter goes to the letter at the
      mirrored place of the alphabet, in its own case; any other character
      is kept. */
  function AtbashChar(c: char): (r: char)
    ensures IsUpper(r) <==> IsUpper(c)
    ensures IsLower(r) <==> IsLower(c)
    ensures IsLetter(c) ==> AlphaIndex(r) == 25 - AlphaIndex(c)
    ensures !IsLetter(c) ==> r == c
  {
    if IsLetter(c) then
      var base := if IsUpper(c) then 'A' else 'a';
      var offset := ('Z' as int - ToUpper(c) as int) % 26;
      (base as int + offset) as char
    else
      c
  }

  /** The Atbash cipher of a whole text, character by character. */
  function AtbashText(message: string): (r: string)
    ensures |r| == |message|
  {
    seq(|message|, i requires 0 <= i < |message| => AtbashChar(message[i]))
  }

  /** `atbash_encrypt`: every character mirrored; it never rejects. */
  method AtbashEncrypt(message: string) returns (result: string)
    requires IsAsciiText(message)
    ensures result == AtbashText(message)
  {
    result := "";
    for i := 0 to |message|
      invariant |result| == i
      invariant forall j :: 0 <= j < i ==> result[j] == AtbashChar(message[j])
    {
      var c := message[i];
      if IsLetter(c) {
        var base := if IsUpper(c) then 'A' else 'a';
        var offset := ('Z' as int - ToUpper(c) as int) % 26;
        result := result + [(base as int + offset) as char];
      } else {
        result := result + [c];
      }
    }
  }

  /** Atbash keeps the length, the case of every letter, and every
      non-letter in its place. */
  lemma AtbashKeepsShape(message: string)
    ensures |AtbashText(message)| == |message|
    ensures forall i :: 0 <= i < |message| ==>
      (IsUpper(AtbashText(message)[i]) <==> IsUpper(message[i])) &&
      (IsLower(AtbashText(message)[i]) <==> IsLower(message[i])) &&
      (!IsLetter(message[i]) ==> AtbashText(message)[i] == message[i])
  {
  }

  /** Mirroring a character twice gives it back. */
  lemma AtbashCharInvolution(c: char)
    ensures AtbashChar(AtbashChar(c)) == c
  {
    if IsLetter(c) {
      LetterDeterminedByIndex(AtbashChar(AtbashChar(c)), c);
    }
  }

  /** Atbash applied twice is the identity. */
  lemma AtbashInvolution(message: string)
    ensures AtbashText(AtbashText(message)) == message
  {
    forall i | 0 <= i < |message|
      ensures AtbashText(AtbashText(message))[i] == message[i]
    {
      AtbashCharInvolution(message[i]);
    }
  }
}
