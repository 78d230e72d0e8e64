// Worked examples of the ciphers, each fixed by the definitions of the
// cipher modules.

module Examples {
  import Ascii
  import Caesar
  import Atbash
  import Vigenere
  import Playfair

  lemma CaesarExample()
    ensures Caesar.CaesarText("Hello, World!", 3) == "Khoor, Zruog!"
  {
  }

  /** The textbook vector: every message letter is a letter, so letter i
      uses keyword letter i mod 5. */
  lemma VigenereExample()
    ensures Vigenere.VigenereText("ATTACKATDAWN", "LEMON") == "LXFOPVEFRNHR"
  {
    Vigenere.AllLettersCycle("ATTACKATDAWN", "LEMON");
    CycledLemon();
  }

  /** The same vector with message and keyword letters paired by position. */
  lemma CycledLemon()
    ensures seq(12, i requires 0 <= i < 12 =>
      Vigenere.VigenereChar("ATTACKATDAWN"[i], "LEMON"[i % 5])) == "LXFOPVEFRNHR"
  {
  }

  lemma AtbashExample()
    ensures Atbash.AtbashText("Attack") == "Zggzxp"
  {
  }

  /** A run of three equal letters: the scan steps past each inserted 'X'
      and pairs the next letter with the following one. */
  lemma TripleRunExample()
    ensures Playfair.PreparedText("aaa") == "AXAXAX"
  {
  }

  lemma BalloonExample()
    ensures Playfair.PreparedText("Balloon") == "BALXLOON"
  {
    BalloonUpper();
    BalloonFillers();
  }

  lemma BalloonUpper()
    ensures Ascii.UpperText("Balloon") == "BALLOON"
    ensures Playfair.KeepLetters("BALLOON") == "BALLOON"
  {
  }

  /** The doubled L is split by an 'X'; the doubled O falls across a pair
      boundary and is kept. */
  lemma BalloonFillers()
    ensures Playfair.InsertFillers("BALLOON") == "BALXLOON"
  {
  }
}
