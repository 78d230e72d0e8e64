# Cipher engine of cipher-encrypt, in Dafny

cipher-encrypt is a small desktop program that enciphers a message with one of
five classical ciphers. This project models its cipher engine:

- Vigenère (`vigenere_encrypt`);
- Caesar (`caesar_encrypt`) and ROT13 (`rot13_encrypt`);
- Atbash (`atbash_encrypt`);
- Playfair (`playfair_encrypt`), with its three helpers:
  - `create_playfair_matrix` builds the 5×5 key square;
  - `prepare_playfair_message` turns the message into letter pairs;
  - `find_position` looks a letter up in the square.

Every operation except `rot13_encrypt` (a direct call of `caesar_encrypt`)
keeps the source's loops as a Dafny `method`:

- The cipher methods and the Playfair helpers are proved equal to
  specification functions
  (`CaesarText`, `AtbashText`, `VigenereText`, `SquareOf`, `Position`,
  `PreparedText`, `PlayfairText`, plus `EncryptPair` for `EncryptDigraph`).
- The two loops of `create_playfair_matrix` and their single statements
  (`PlaceKeyword`, `PlaceFill`, `MarkUsed`, `WriteCell`) are proved to leave
  the `used` table and the grid in the state the specification describes.
- Lemmas about those functions prove what the ciphers promise: round trips,
  involutions, which characters are kept, the key square's contents and
  order, and the shape of the prepared message and of the Playfair output.

Modules:

- `Ascii`: character classes, alphabet places, upper-casing.
- `Caesar`: `caesar_encrypt` and `rot13_encrypt`.
- `Atbash`: `atbash_encrypt`.
- `Vigenere`: `vigenere_encrypt`.
- `KeySquare`: `create_playfair_matrix` and `find_position`.
- `Playfair`: `prepare_playfair_message` and `playfair_encrypt`.
- `Examples`: worked examples fixed by the definitions.

Characters are Dafny `char`s, restricted to ASCII by precondition. The key
square is a `seq<seq<char>>` of five rows of five. `create_playfair_matrix`
fills it in a 5×5 `array2` with a 26-slot `array<bool>` table before returning
it.

The model follows the code where it departs from the textbook ciphers:

- `caesar_encrypt` accepts any shift the `u8` arithmetic can carry, up to 230.
  The 1..25 range exists only in the program's input slider.
- `prepare_playfair_message` steps by two even after inserting an 'X'. The
  model does the same, so a doubled 'X' still forms an "XX" pair.

## Model

| member | source | states |
|---|---|---|
| Ascii.IsUpper | src/main.rs:38 | `is_uppercase` on ASCII: exactly 'A'–'Z' |
| Ascii.IsLetter | src/main.rs:14 | `is_alphabetic` on ASCII: exactly 'A'–'Z' and 'a'–'z' |
| Ascii.ToUpper | src/main.rs:15 | upper-casing keeps letters letters and every other character unchanged; a letter keeps its alphabet place; ASCII stays ASCII |
| Ascii.ValidKeyword | src/main.rs:5 | the keyword check (non-empty, letters only); a keyword that passes upper-cases to upper-case letters only, each naming an alphabet place |
| Ascii.UpperText | src/main.rs:9 | upper-casing keeps the length and the letter positions and leaves no lower-case letter |
| Ascii.UpperTextFacts | src/main.rs:9 | upper-casing an ASCII text keeps its length and the positions of its letters, leaves no lower-case letter, and keeps an all-letter keyword valid |
| Caesar.CaesarChar | src/main.rs:37-43 | a letter moves `shift` places forward modulo 26 within its own case; other characters are kept |
| Caesar.CaesarText | src/main.rs:36-44 | the shifted text, character by character, has the message's length |
| Caesar.CaesarEncrypt | src/main.rs:30-46 | shift 0 gives the empty string; otherwise the result is the text shifted character by character |
| Caesar.Rot13Encrypt | src/main.rs:66-68 | ROT13 is the Caesar cipher with shift 13 |
| Caesar.CaesarKeepsShape | src/main.rs:36-44 | length, letter case and every non-letter are kept |
| Caesar.CaesarRoundTrip | src/main.rs:36-44 | shifting by s and then by 26 − s restores the message, for 1 ≤ s ≤ 25 |
| Caesar.Rot13Involution | src/main.rs:66-68 | ROT13 applied twice is the identity |
| Caesar.CaesarKeepsAscii | src/main.rs:36-44 | ASCII text stays ASCII, so the cipher can be applied to its own output |
| Atbash.AtbashChar | src/main.rs:53-60 | a letter goes to the mirrored alphabet place 25 − n in its own case; other characters are kept |
| Atbash.AtbashText | src/main.rs:52-61 | the mirrored text, character by character, has the message's length |
| Atbash.AtbashEncrypt | src/main.rs:49-63 | the result is the text mirrored character by character |
| Atbash.AtbashKeepsShape | src/main.rs:52-61 | length, letter case and every non-letter are kept |
| Atbash.AtbashInvolution | src/main.rs:49-63 | Atbash applied twice is the identity |
| Vigenere.VigenereChar | src/main.rs:15-18 | the upper-cased letter moves forward by the keyword letter's alphabet place modulo 26; the result is upper case |
| Vigenere.LetterCount | src/main.rs:11-21 | the value of `keyword_index` after a text is read: one step per letter, never more than the characters read |
| Vigenere.VigenereText | src/main.rs:9-25 | the cipher text has the message's length; letter i uses the keyword letter chosen by the letters before it, taken cyclically |
| Vigenere.VigenereEncrypt | src/main.rs:4-27 | an empty or non-alphabetic keyword gives the empty string; otherwise letter number i (counting letters only) uses keyword letter i mod the keyword length, and non-letters are copied without using a keyword letter |
| Vigenere.VigenereKeepsShape | src/main.rs:13-25 | length and every non-letter are kept; every letter comes out upper case |
| Vigenere.LetterCountSame | src/main.rs:14-21 | texts with letters at the same positions advance the keyword index equally |
| Vigenere.AllLettersCount | src/main.rs:14-21 | in a text of letters only, every character advances `keyword_index` |
| Vigenere.AllLettersCycle | src/main.rs:13-25 | for a message of letters only, letter i is enciphered with keyword letter i mod the keyword length |
| Vigenere.Complement | src/main.rs:18 | the complementary keyword is a valid key of the same length whose shifts cancel the key's modulo 26 |
| Vigenere.VigenereRoundTrip | src/main.rs:4-27 | enciphering with a key and then with its complement gives back the upper-cased message |
| Vigenere.OneLetterKeyIsCaesar | src/main.rs:13-25 | with a one-letter keyword the cipher is the Caesar cipher of the upper-cased message by that letter's place |
| KeySquare.KeywordLetters | src/main.rs:110-119 | the keyword pass places at most one letter per keyword character |
| KeySquare.Fill | src/main.rs:121-127 | the fill pass over the first n alphabet places adds at most n letters |
| KeySquare.KeyOrder | src/main.rs:105-130 | the keyword letters followed by the fill letters are exactly 25, one per cell |
| KeySquare.KeywordLettersFacts | src/main.rs:110-119 | the keyword pass places distinct letters, none of them J, and exactly the keyword's letters other than J |
| KeySquare.KeywordLettersInFirstOccurrenceOrder | src/main.rs:110-119 | the placed letters are keyword letters, in the order of their first occurrence in the keyword |
| KeySquare.FillFacts | src/main.rs:121-127 | the fill pass adds exactly the letters other than J not yet placed, in strictly ascending order |
| KeySquare.KeyOrderIsAlphabet | src/main.rs:105-130 | the square holds 25 distinct letters, exactly A to Z without J; the keyword letters come first and the rest ascend |
| KeySquare.KeywordLettersFit | src/main.rs:115-116 | placed letters plus fill letters number exactly 25, so the fill index never passes the last cell |
| KeySquare.SquareOf | src/main.rs:105-130 | the key square is a 5×5 grid |
| KeySquare.SquareOfCells | src/main.rs:115-116 | cell (r, c) holds letter 5r + c of the key order (row-major fill) |
| KeySquare.SquareIsAlphabet | src/main.rs:105-130 | every square letter is in exactly one cell, and every cell holds a square letter |
| KeySquare.MarkUsed | src/main.rs:112-114 | marking the letter's alphabet place keeps the table equal to the set of placed letters, the new one included |
| KeySquare.WriteCell | src/main.rs:115-116 | writing cell (index / 5, index % 5) extends the row-major contents of the grid by one letter |
| KeySquare.PlaceKeyword | src/main.rs:110-119 | after the keyword loop, `index` counts the placed letters, `used` marks exactly them, and the first cells hold them in order |
| KeySquare.PlaceFill | src/main.rs:121-127 | after the fill loop, the cells after the placed letters hold the fill letters in order |
| KeySquare.CreatePlayfairMatrix | src/main.rs:105-130 | the matrix built with the `used` table and fill index is exactly the key square of the keyword |
| KeySquare.PositionFrom | src/main.rs:147-156 | the scan from a given cell in row-major order reports a cell inside the grid |
| KeySquare.Position | src/main.rs:147-156 | the reported position is inside the grid |
| KeySquare.PositionIsFirstMatch | src/main.rs:147-156 | the position is the first cell in row-major order holding the letter, or (0, 0) when no cell holds it |
| KeySquare.PositionOfCell | src/main.rs:147-156 | in a grid of distinct letters, the letter in cell (r, c) is found at (r, c) |
| KeySquare.FindPosition | src/main.rs:147-156 | the nested scan returns the first cell holding the letter, no earlier cell holds it, and it returns (0, 0) when the letter is absent |
| Playfair.KeepLetters | src/main.rs:133 | the letter filter never lengthens the text |
| Playfair.InsertFillers | src/main.rs:135-140 | the pairing scan at least keeps the length and at most doubles it |
| Playfair.PadEven | src/main.rs:141-143 | padding gives an even length, keeps the text as a prefix and adds at most one character |
| Playfair.PreparedText | src/main.rs:132-145 | the prepared message has even length |
| Playfair.LastIndex | src/main.rs:135 | `message.len() - 1` on a `usize`: defined only for a non-empty vector, where it is the index of the last letter |
| Playfair.KeepLettersFacts | src/main.rs:133 | the filter keeps only letters of the text, and keeps at least one when the text has one |
| Playfair.LettersAreUpper | src/main.rs:133 | the letters of the upper-cased message are upper-case letters, and there is one when the message has a letter |
| Playfair.InsertFillersFacts | src/main.rs:135-140 | the pairing scan keeps letters upper case, leaves every complete pair unequal unless it starts with 'X', and only inserts 'X's |
| Playfair.FillerStep | src/main.rs:135-140 | one step of the scan, with or without an insertion, keeps the scanned prefix followed by the fillers of the rest unchanged |
| Playfair.PreparePlayfairMessage | src/main.rs:132-145 | the growing-vector scan returns the prepared text: upper-cased letters with fillers inserted and padding to even length |
| Playfair.PreparedShape | src/main.rs:132-145 | the prepared text has even length, is upper-case letters only, has no pair of equal letters except "XX", and is the message's letters with only 'X's inserted |
| Playfair.EncryptPair | src/main.rs:86-99 | a pair always becomes two letters |
| Playfair.EncryptDigraph | src/main.rs:83-99 | locating both letters with `find_position` and applying the rules yields the specified pair |
| Playfair.PlayfairEncrypt | src/main.rs:71-103 | an empty or non-alphabetic keyword gives the empty string; otherwise the result is the prepared message substituted pair by pair under the key square of the upper-cased keyword |
| Playfair.Substitute | src/main.rs:82-100 | two letters are written per pair, a lone last letter being paired with 'X', so an even message keeps its length |
| Playfair.SubstituteInGrid | src/main.rs:90-99 | every letter written is a letter of the grid |
| Playfair.SubstituteAt | src/main.rs:82-100 | pair k of the output is pair k of the input, enciphered |
| Playfair.PairRules | src/main.rs:90-99 | for letters in cells (ra, ca) and (rb, cb): a shared row gives the right neighbours, a shared column the letters below, otherwise the corners (ra, cb) and (rb, ca) |
| Playfair.NoLetterEncryptsToItself | src/main.rs:90-99 | under the key square no square letter is enciphered to itself, in either place of a pair |
| Playfair.JEncryptsAsCorner | src/main.rs:155 | 'J' is not in the square, so it is found at (0, 0) and enciphered exactly as the square's first letter |
| Playfair.PairRoundTrip | src/main.rs:90-99 | every pair of square letters is recovered from its encipherment by the inverse rules, so the substitution loses nothing |
| Playfair.PlayfairText | src/main.rs:71-103 | the cipher text is as long as the prepared message |
| Playfair.PlayfairShape | src/main.rs:82-100 | the output has the prepared message's length, every letter is upper case and never J, and pair k of the output is pair k of the prepared message enciphered |
| Examples.CaesarExample | src/main.rs:30-46 | "Hello, World!" shifted by 3 is "Khoor, Zruog!" |
| Examples.VigenereExample | src/main.rs:4-27 | "ATTACKATDAWN" under the keyword "LEMON" is "LXFOPVEFRNHR" |
| Examples.AtbashExample | src/main.rs:49-63 | "Attack" becomes "Zggzxp" |
| Examples.TripleRunExample | src/main.rs:132-145 | "aaa" is prepared as "AXAXAX" |
| Examples.BalloonExample | src/main.rs:132-145 | "Balloon" is prepared as "BALXLOON" |

## Left out

- The graphical interface, src/main.rs:158-307 (`MyApp`, the `Cipher` enum, `update`, `name`, `main`): widgets, notifications and window setup, not cipher logic.
- Non-ASCII input: every operation requires ASCII text. The source's `is_alphabetic` and `to_uppercase` accept any Unicode letter, but `c as u8` then truncates the code point. `keyword.len()` also counts bytes, not characters.
- Caesar.CaesarEncrypt: requires a shift of at most 230. For larger shifts `shift as u8` truncates, or `(c - base) + shift` overflows a `u8`. The model does not cover either.
- Playfair.PreparePlayfairMessage: a message without letters is outside its domain, because `message.len() - 1` underflows and the program panics. Playfair.PlayfairEncrypt inherits this precondition for a valid keyword.
- KeySquare.CreatePlayfairMatrix: requires a keyword without lower-case letters, because `c as u8 - b'A'` is out of the table's range for 'a' to 'z'. Its only caller passes an upper-cased keyword.
- The key square is returned as a value, not a fixed `[[char; 5]; 5]` array, and is built in an `array2` inside the method only.
- Decryption: the program has none. `DecryptPair` exists only to prove that Playfair substitution loses nothing.
