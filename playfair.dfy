// The Playfair cipher: `prepare_playfair_message` and `playfair_encrypt`.

module Playfair {
  import opened Ascii
  import opened KeySquare

  // ---------------------------------------------------------------------
  // Message preparation

  predicate HasLetter(message: string)
  {
    exists i :: 0 <= i < |message| && IsLetter(message[i])
  }

  /** The letters of `s`, in order; every other character is dropped. */
  function KeepLetters(s: string): (letters: string)
    ensures |letters| <= |s|
  {
    if s == [] then []
    else (if IsLetter(s[0]) then [s[0]] else []) + KeepLetters(s[1..])
  }

  /** The pairing scan: each pair of equal letters gets an 'X' between them,
      and pairing resumes at the second letter of that pair. */
  function InsertFillers(s: seq<char>): (t: seq<char>)
    ensures |s| <= |t| <= 2 * |s|
    decreases |s|
  {
    if |s| < 2 then s
    else if s[0] == s[1] then [s[0], 'X'] + InsertFillers(s[1..])
    else [s[0], s[1]] + InsertFillers(s[2..])
  }

  /** A trailing 'X' when the length is odd. */
  function PadEven(s: seq<char>): (p: seq<char>)
    ensures |p| % 2 == 0 && |s| <= |p| <= |s| + 1 && p[..|s|] == s
  {
    if |s| % 2 != 0 then s + ['X'] else s
  }

  /** What `prepare_playfair_message` returns. */
  function PreparedText(message: string): (prepared: seq<char>)
    ensures |prepared| % 2 == 0
  {
    PadEven(InsertFillers(KeepLetters(UpperText(message))))
  }

  /** `message.len() - 1` on a `usize`: it exists only for a non-empty vector. */
  function LastIndex(v: seq<char>): (last: nat)
    requires |v| > 0
    ensures last < |v| && last + 1 == |v|
  {
    |v| - 1
  }

  lemma {:induction false} KeepLettersFacts(s: string)
    ensures forall i :: 0 <= i < |KeepLetters(s)| ==> IsLetter(KeepLetters(s)[i]) && KeepLetters(s)[i] in s
    ensures HasLetter(s) ==> |KeepLetters(s)| > 0
  {
    if s != [] {
      KeepLettersFacts(s[1..]);
      if HasLetter(s) && !IsLetter(s[0]) {
        var i :| 0 <= i < |s| && IsLetter(s[i]);
        assert IsLetter(s[1..][i - 1]);
      }
    }
  }

  /** The letters of an upper-cased ASCII text are upper-case letters. */
  lemma LettersAreUpper(message: string)
    requires IsAsciiText(message)
    ensures forall i :: 0 <= i < |KeepLetters(UpperText(message))| ==> IsUpper(KeepLetters(UpperText(message))[i])
    ensures HasLetter(message) ==> |KeepLetters(UpperText(message))| > 0
  {
    UpperTextFacts(message);
    KeepLettersFacts(UpperText(message));
    if HasLetter(message) {
      var i :| 0 <= i < |message| && IsLetter(message[i]);
      assert IsLetter(UpperText(message)[i]);
    }
  }

  lemma SplitAt(s: seq<char>, i: nat)
    requires i <= |s|
    ensures s[..i] + s[i..] == s
  {
  }

  /** One step of the pairing scan at position `i` of `msg`. */
  lemma InsertFillersAt(msg: seq<char>, i: nat)
    requires i + 1 < |msg|
    ensures msg[i] == msg[i + 1] ==> InsertFillers(msg[i..]) == [msg[i], 'X'] + InsertFillers(msg[i + 1..])
    ensures msg[i] != msg[i + 1] ==> InsertFillers(msg[i..]) == [msg[i], msg[i + 1]] + InsertFillers(msg[i + 2..])
  {
    assert msg[i..][1..] == msg[i + 1..];
    assert msg[i..][2..] == msg[i + 2..];
  }

  /** One step of the filler scan at an even position `i`: inserting an 'X'
      after a doubled letter, or stepping over a pair of different letters,
      keeps the scanned prefix followed by the fillers of the rest equal. */
  lemma FillerStep(msg: seq<char>, i: nat)
    requires i + 1 < |msg|
    ensures msg[i] == msg[i + 1] ==>
      var next := msg[..i + 1] + ['X'] + msg[i + 1..];
      next[..i + 2] + InsertFillers(next[i + 2..]) == msg[..i] + InsertFillers(msg[i..])
    ensures msg[i] != msg[i + 1] ==>
      msg[..i + 2] + InsertFillers(msg[i + 2..]) == msg[..i] + InsertFillers(msg[i..])
  {
    if msg[i] == msg[i + 1] {
      FillerInsert(msg, i);
    } else {
      FillerSkip(msg, i);
    }
  }

  lemma FillerInsert(msg: seq<char>, i: nat)
    requires i + 1 < |msg| && msg[i] == msg[i + 1]
    ensures var next := msg[..i + 1] + ['X'] + msg[i + 1..];
      next[..i + 2] + InsertFillers(next[i + 2..]) == msg[..i] + InsertFillers(msg[i..])
  {
    InsertFillersAt(msg, i);
    var next := msg[..i + 1] + ['X'] + msg[i + 1..];
    assert next[..i + 2] == msg[..i] + [msg[i], 'X'];
    assert next[i + 2..] == msg[i + 1..];
  }

  lemma FillerSkip(msg: seq<char>, i: nat)
    requires i + 1 < |msg| && msg[i] != msg[i + 1]
    ensures msg[..i + 2] + InsertFillers(msg[i + 2..]) == msg[..i] + InsertFillers(msg[i..])
  {
    InsertFillersAt(msg, i);
    assert msg[..i + 2] == msg[..i] + [msg[i], msg[i + 1]];
  }

  /** `prepare_playfair_message`: upper-case the message, keep its letters,
      then scan in steps of two over a vector that grows as 'X' fillers are
      inserted, and pad to even length. A message without letters is outside
      the domain: `len() - 1` underflows. */
  method PreparePlayfairMessage(message: string) returns (prepared: seq<char>)
    requires IsAsciiText(message) && HasLetter(message)
    ensures prepared == PreparedText(message)
  {
    var letters := KeepLetters(UpperText(message));
    LettersAreUpper(message);
    var msg := letters;
    var i := 0;
    while i < LastIndex(msg)
      invariant |msg| > 0 && i <= |msg|
      invariant msg[..i] + InsertFillers(msg[i..]) == InsertFillers(letters)
      decreases |msg| - i
    {
      FillerStep(msg, i);
      if msg[i] == msg[i + 1] {
        msg := msg[..i + 1] + ['X'] + msg[i + 1..];
      }
      i := i + 2;
    }
    SplitAt(msg, i);
    if |msg| % 2 != 0 {
      msg := msg + ['X'];
    }
    prepared := msg;
  }

  // ---------------------------------------------------------------------
  // Properties of the prepared message

  /** The two letters of pair `k` differ, unless the first is 'X'. */
  predicate PairOk(t: seq<char>, k: nat)
    requires 2 * k + 1 < |t|
  {
    t[2 * k] != t[2 * k + 1] || t[2 * k] == 'X'
  }

  /** `b` is `a` with some 'X' characters inserted. */
  predicate IsXPadding(a: seq<char>, b: seq<char>)
    decreases |b|
  {
    if b == [] then a == []
    else
      (a != [] && a[0] == b[0] && IsXPadding(a[1..], b[1..])) ||
      (b[0] == 'X' && IsXPadding(a, b[1..]))
  }

  /** The pairing scan keeps upper-case letters, makes every complete pair
      differ unless its first letter is 'X', and only inserts 'X's. */
  lemma {:induction false} InsertFillersFacts(s: seq<char>)
    requires forall i :: 0 <= i < |s| ==> IsUpper(s[i])
    ensures forall i :: 0 <= i < |InsertFillers(s)| ==> IsUpper(InsertFillers(s)[i])
    ensures forall k :: 0 <= k < |InsertFillers(s)| / 2 ==> PairOk(InsertFillers(s), k)
    ensures IsXPadding(s, InsertFillers(s))
    decreases |s|
  {
    if |s| >= 2 {
      var t := InsertFillers(s);
      var head, rest := if s[0] == s[1] then [s[0], 'X'] else [s[0], s[1]],
                        if s[0] == s[1] then s[1..] else s[2..];
      InsertFillersFacts(rest);
      var tail := InsertFillers(rest);
      assert t == head + tail;
      forall k | 0 <= k < |t| / 2
        ensures PairOk(t, k)
      {
        if k > 0 {
          assert PairOk(tail, k - 1);
          assert t[2 * k] == tail[2 * (k - 1)] && t[2 * k + 1] == tail[2 * (k - 1) + 1];
        }
      }
      assert t[1..] == [head[1]] + tail;
      assert t[2..] == tail;
      if s[0] == s[1] {
        assert IsXPadding(s[1..], t[2..]);
        assert IsXPadding(s[1..], t[1..]);
      } else {
        assert s[1..][1..] == s[2..];
        assert IsXPadding(s[1..][1..], t[1..][1..]);
        assert IsXPadding(s[1..], t[1..]);
      }
    } else {
      IsXPaddingRefl(s);
    }
  }

  lemma {:induction false} IsXPaddingRefl(s: seq<char>)
    ensures IsXPadding(s, s)
    decreases |s|
  {
    if s != [] {
      IsXPaddingRefl(s[1..]);
    }
  }

  /** Appending an 'X' keeps `b` an X-padding of `a`. */
  lemma {:induction false} IsXPaddingAppendX(a: seq<char>, b: seq<char>)
    requires IsXPadding(a, b)
    ensures IsXPadding(a, b + ['X'])
    decreases |b|
  {
    if b == [] {
      assert IsXPadding(a, ['X'][1..]);
    } else {
      assert (b + ['X'])[1..] == b[1..] + ['X'];
      if a != [] && a[0] == b[0] && IsXPadding(a[1..], b[1..]) {
        IsXPaddingAppendX(a[1..], b[1..]);
      } else {
        IsXPaddingAppendX(a, b[1..]);
      }
    }
  }

  /** The prepared message is made of upper-case letters, has even length,
      has no pair of equal letters except 'XX', and is the message's letters
      with only 'X' characters inserted. */
  lemma PreparedShape(message: string)
    requires IsAsciiText(message)
    ensures |PreparedText(message)| % 2 == 0
    ensures forall i :: 0 <= i < |PreparedText(message)| ==> IsUpper(PreparedText(message)[i])
    ensures forall k :: 0 <= k < |PreparedText(message)| / 2 ==> PairOk(PreparedText(message), k)
    ensures IsXPadding(KeepLetters(UpperText(message)), PreparedText(message))
  {
    var letters := KeepLetters(UpperText(message));
    LettersAreUpper(message);
    InsertFillersFacts(letters);
    var t := InsertFillers(letters);
    var p := PreparedText(message);
    if |t| % 2 != 0 {
      IsXPaddingAppendX(letters, t);
      forall k | 0 <= k < |p| / 2
        ensures PairOk(p, k)
      {
        if 2 * k + 1 < |t| {
          assert PairOk(t, k);
        }
      }
    }
  }

  // ---------------------------------------------------------------------
  // Digraph substitution

  /** The two letters a pair (a, b) becomes: right neighbours on a shared
      row, the letters below on a shared column, otherwise the opposite
      corners of their rectangle. */
  function EncryptPair(m: seq<seq<char>>, a: char, b: char): (r: seq<char>)
    requires IsGrid(m)
    ensures |r| == 2
  {
    var (rowA, colA) := Position(m, a);
    var (rowB, colB) := Position(m, b);
    if rowA == rowB then [m[rowA][(colA + 1) % 5], m[rowB][(colB + 1) % 5]]
    else if colA == colB then [m[(rowA + 1) % 5][colA], m[(rowB + 1) % 5][colB]]
    else [m[rowA][colB], m[rowB][colA]]
  }

  /** The substitution loop over a prepared message, two letters at a time;
      a lone last letter is paired with 'X'. */
  function Substitute(m: seq<seq<char>>, s: seq<char>): (r: seq<char>)
    requires IsGrid(m)
    ensures |r| == |s| + |s| % 2
    decreases |s|
  {
    if s == [] then []
    else if |s| == 1 then EncryptPair(m, s[0], 'X')
    else EncryptPair(m, s[0], s[1]) + Substitute(m, s[2..])
  }

  /** What `playfair_encrypt` returns for a valid keyword. */
  function PlayfairText(message: string, keyword: string): (r: seq<char>)
    ensures |r| == |PreparedText(message)|
  {
    Substitute(SquareOf(UpperText(keyword)), PreparedText(message))
  }

  /** `playfair_encrypt`: an empty or non-alphabetic keyword is rejected with
      the empty string; otherwise the key square is built from the
      upper-cased keyword and each pair of the prepared message is replaced
      using the positions `find_position` reports. */
  method PlayfairEncrypt(message: string, keyword: string) returns (result: string)
    requires IsAsciiText(message) && IsAsciiText(keyword)
    requires ValidKeyword(keyword) ==> HasLetter(message)
    ensures !ValidKeyword(keyword) ==> result == ""
    ensures ValidKeyword(keyword) ==> result == PlayfairText(message, keyword)
  {
    if |keyword| == 0 || !(forall j :: 0 <= j < |keyword| ==> IsLetter(keyword[j])) {
      return "";
    }
    var key := UpperText(keyword);
    UpperTextFacts(keyword);
    var matrix := CreatePlayfairMatrix(key);
    var msg := PreparePlayfairMessage(message);
    result := "";
    var i := 0;
    ghost var rest := msg;
    while i < |msg|
      invariant i <= |msg| + 1
      invariant rest == if i < |msg| then msg[i..] else []
      invariant result + Substitute(matrix, rest) == Substitute(matrix, msg)
      decreases |msg| - i
    {
      SubstituteStep(matrix, msg, i);
      ghost var done := result;
      var a := msg[i];
      var b := if i + 1 < |msg| then msg[i + 1] else 'X';
      rest := if i + 1 < |msg| then msg[i + 2..] else [];
      i := i + 2;
      var pair := EncryptDigraph(matrix, a, b);
      result := result + pair;
      ConcatAssoc(done, pair, Substitute(matrix, rest));
    }
  }

  /** The body of the substitution loop: locate both letters with
      `find_position` and apply the row, column or rectangle rule. */
  method EncryptDigraph(matrix: seq<seq<char>>, a: char, b: char) returns (pair: seq<char>)
    requires IsGrid(matrix)
    ensures pair == EncryptPair(matrix, a, b)
  {
    var rowA, colA := FindPosition(a, matrix);
    var rowB, colB := FindPosition(b, matrix);
    if rowA == rowB {
      pair := [matrix[rowA][(colA + 1) % 5], matrix[rowB][(colB + 1) % 5]];
    } else if colA == colB {
      pair := [matrix[(rowA + 1) % 5][colA], matrix[(rowB + 1) % 5][colB]];
    } else {
      pair := [matrix[rowA][colB], matrix[rowB][colA]];
    }
    EncryptPairAt(matrix, a, b, rowA, colA, rowB, colB);
  }

  /** `EncryptPair` in terms of the positions of its two letters. */
  lemma EncryptPairAt(m: seq<seq<char>>, a: char, b: char, rowA: nat, colA: nat, rowB: nat, colB: nat)
    requires IsGrid(m)
    requires Position(m, a) == (rowA, colA) && Position(m, b) == (rowB, colB)
    ensures rowA < 5 && colA < 5 && rowB < 5 && colB < 5
    ensures EncryptPair(m, a, b) ==
      if rowA == rowB then [m[rowA][(colA + 1) % 5], m[rowB][(colB + 1) % 5]]
      else if colA == colB then [m[(rowA + 1) % 5][colA], m[(rowB + 1) % 5][colB]]
      else [m[rowA][colB], m[rowB][colA]]
  {
  }

  /** One step of the substitution scan: the suffix at `i` is pair `i` followed
      by the suffix after it. */
  lemma SubstituteStep(m: seq<seq<char>>, s: seq<char>, i: nat)
    requires IsGrid(m)
    requires i < |s|
    ensures i + 1 < |s| ==> Substitute(m, s[i..]) == EncryptPair(m, s[i], s[i + 1]) + Substitute(m, s[i + 2..])
    ensures i + 1 == |s| ==> Substitute(m, s[i..]) == EncryptPair(m, s[i], 'X') + Substitute(m, [])
  {
    if i + 1 < |s| {
      assert s[i..][2..] == s[i + 2..];
    }
  }

  // ---------------------------------------------------------------------
  // Properties of the substitution

  /** Both letters of an enciphered pair are letters of the grid. */
  lemma EncryptPairInGrid(m: seq<seq<char>>, a: char, b: char)
    requires IsGrid(m)
    ensures InGrid(m, EncryptPair(m, a, b)[0]) && InGrid(m, EncryptPair(m, a, b)[1])
  {
    var (rowA, colA) := Position(m, a);
    var (rowB, colB) := Position(m, b);
    var r := EncryptPair(m, a, b);
    if rowA == rowB {
      assert r[0] == m[rowA][(colA + 1) % 5] && r[1] == m[rowB][(colB + 1) % 5];
    } else if colA == colB {
      assert r[0] == m[(rowA + 1) % 5][colA] && r[1] == m[(rowB + 1) % 5][colB];
    } else {
      assert r[0] == m[rowA][colB] && r[1] == m[rowB][colA];
    }
  }

  /** Every letter the substitution writes is a letter of the grid. */
  lemma {:induction false} SubstituteInGrid(m: seq<seq<char>>, s: seq<char>)
    requires IsGrid(m)
    ensures forall i :: 0 <= i < |Substitute(m, s)| ==> InGrid(m, Substitute(m, s)[i])
    decreases |s|
  {
    if |s| == 1 {
      EncryptPairInGrid(m, s[0], 'X');
    } else if |s| >= 2 {
      EncryptPairInGrid(m, s[0], s[1]);
      SubstituteInGrid(m, s[2..]);
      var head, tail := EncryptPair(m, s[0], s[1]), Substitute(m, s[2..]);
      forall i | 0 <= i < |head + tail|
        ensures InGrid(m, (head + tail)[i])
      {
        if i >= 2 {
          assert (head + tail)[i] == tail[i - 2];
        }
      }
    }
  }

  /** Pair `k` of the output is pair `k` of the input, enciphered. */
  lemma {:induction false} SubstituteAt(m: seq<seq<char>>, s: seq<char>, k: nat)
    requires IsGrid(m) && 2 * k + 1 < |s|
    ensures |Substitute(m, s)| >= 2 * k + 2
    ensures Substitute(m, s)[2 * k .. 2 * k + 2] == EncryptPair(m, s[2 * k], s[2 * k + 1])
    decreases k
  {
    if k > 0 {
      SubstituteAt(m, s[2..], k - 1);
      var head, tail := EncryptPair(m, s[0], s[1]), Substitute(m, s[2..]);
      assert Substitute(m, s) == head + tail;
      assert Substitute(m, s)[2 * k] == tail[2 * k - 2];
      assert Substitute(m, s)[2 * k + 1] == tail[2 * k - 1];
    }
  }

  /** The Playfair rules in terms of the cells the two letters occupy: a
      shared row takes the right neighbours, a shared column the letters
      below, and otherwise each letter takes the corner in its own row and
      the other letter's column. */
  lemma PairRules(m: seq<seq<char>>, rowA: nat, colA: nat, rowB: nat, colB: nat)
    requires IsGrid(m) && DistinctCells(m)
    requires rowA < 5 && colA < 5 && rowB < 5 && colB < 5
    ensures rowA == rowB ==>
      EncryptPair(m, m[rowA][colA], m[rowB][colB]) == [m[rowA][(colA + 1) % 5], m[rowB][(colB + 1) % 5]]
    ensures rowA != rowB && colA == colB ==>
      EncryptPair(m, m[rowA][colA], m[rowB][colB]) == [m[(rowA + 1) % 5][colA], m[(rowB + 1) % 5][colB]]
    ensures rowA != rowB && colA != colB ==>
      EncryptPair(m, m[rowA][colA], m[rowB][colB]) == [m[rowA][colB], m[rowB][colA]]
  {
    PositionOfCell(m, rowA, colA);
    PositionOfCell(m, rowB, colB);
  }

  /** Stepping one place along a row or column of five, cyclically, always
      moves, never merges two places, and is undone by stepping four more. */
  lemma Cyclic5(x: nat, y: nat)
    requires x < 5 && y < 5
    ensures (x + 1) % 5 != x
    ensures (x + 1) % 5 == (y + 1) % 5 ==> x == y
    ensures ((x + 1) % 5 + 4) % 5 == x
  {
  }

  /** In a grid of distinct letters no letter in a cell is enciphered to
      itself, in either place of a pair. */
  lemma NoFixedCell(m: seq<seq<char>>, rowA: nat, colA: nat, rowB: nat, colB: nat)
    requires IsGrid(m) && DistinctCells(m)
    requires rowA < 5 && colA < 5 && rowB < 5 && colB < 5
    ensures EncryptPair(m, m[rowA][colA], m[rowB][colB])[0] != m[rowA][colA]
    ensures EncryptPair(m, m[rowA][colA], m[rowB][colB])[1] != m[rowB][colB]
  {
    PairRules(m, rowA, colA, rowB, colB);
    Cyclic5(colA, colB);
    Cyclic5(rowA, rowB);
    Cyclic5(colB, colA);
    Cyclic5(rowB, rowA);
    if rowA == rowB {
      SameLetterSameCell(m, rowA, (colA + 1) % 5, rowA, colA);
      SameLetterSameCell(m, rowB, (colB + 1) % 5, rowB, colB);
    } else if colA == colB {
      SameLetterSameCell(m, (rowA + 1) % 5, colA, rowA, colA);
      SameLetterSameCell(m, (rowB + 1) % 5, colB, rowB, colB);
    } else {
      SameLetterSameCell(m, rowA, colB, rowA, colA);
      SameLetterSameCell(m, rowB, colA, rowB, colB);
    }
  }

  /** With the key square, no letter of the square is ever enciphered to
      itself, in either place of a pair and even in a pair of equal
      letters. */
  lemma NoLetterEncryptsToItself(keyword: string, a: char, b: char)
    requires IsSquareLetter(a) && IsSquareLetter(b)
    ensures EncryptPair(SquareOf(keyword), a, b)[0] != a
    ensures EncryptPair(SquareOf(keyword), a, b)[1] != b
  {
    var m := SquareOf(keyword);
    SquareIsAlphabet(keyword);
    assert InGrid(m, a) && InGrid(m, b);
    var rowA, colA :| 0 <= rowA < 5 && 0 <= colA < 5 && m[rowA][colA] == a;
    var rowB, colB :| 0 <= rowB < 5 && 0 <= colB < 5 && m[rowB][colB] == b;
    NoFixedCell(m, rowA, colA, rowB, colB);
  }

  /** 'J' is not in the key square, so it is found at (0, 0) and enciphered
      exactly as the square's first letter would be. */
  lemma JEncryptsAsCorner(keyword: string, b: char)
    ensures Position(SquareOf(keyword), 'J') == (0, 0)
    ensures EncryptPair(SquareOf(keyword), 'J', b) == EncryptPair(SquareOf(keyword), SquareOf(keyword)[0][0], b)
    ensures EncryptPair(SquareOf(keyword), b, 'J') == EncryptPair(SquareOf(keyword), b, SquareOf(keyword)[0][0])
  {
    var m := SquareOf(keyword);
    SquareIsAlphabet(keyword);
    PositionIsFirstMatch(m, 'J');
    PositionOfCell(m, 0, 0);
  }

  /** The inverse of `EncryptPair` on a grid: left neighbours on a shared
      row, letters above on a shared column, rectangle corners otherwise. */
  function DecryptPair(m: seq<seq<char>>, x: char, y: char): (r: seq<char>)
    requires IsGrid(m)
    ensures |r| == 2
  {
    var (rowX, colX) := Position(m, x);
    var (rowY, colY) := Position(m, y);
    if rowX == rowY then [m[rowX][(colX + 4) % 5], m[rowY][(colY + 4) % 5]]
    else if colX == colY then [m[(rowX + 4) % 5][colX], m[(rowY + 4) % 5][colY]]
    else [m[rowX][colY], m[rowY][colX]]
  }

  /** In a grid of distinct letters, deciphering an enciphered pair of
      cells gives the pair back. */
  lemma CellPairRoundTrip(m: seq<seq<char>>, rowA: nat, colA: nat, rowB: nat, colB: nat)
    requires IsGrid(m) && DistinctCells(m)
    requires rowA < 5 && colA < 5 && rowB < 5 && colB < 5
    ensures var r := EncryptPair(m, m[rowA][colA], m[rowB][colB]);
      DecryptPair(m, r[0], r[1]) == [m[rowA][colA], m[rowB][colB]]
  {
    PairRules(m, rowA, colA, rowB, colB);
    Cyclic5(colA, colB);
    Cyclic5(rowA, rowB);
    Cyclic5(colB, colA);
    Cyclic5(rowB, rowA);
    var rowX, colX, rowY, colY;
    if rowA == rowB {
      rowX, colX, rowY, colY := rowA, (colA + 1) % 5, rowB, (colB + 1) % 5;
    } else if colA == colB {
      rowX, colX, rowY, colY := (rowA + 1) % 5, colA, (rowB + 1) % 5, colB;
    } else {
      rowX, colX, rowY, colY := rowA, colB, rowB, colA;
    }
    assert EncryptPair(m, m[rowA][colA], m[rowB][colB]) == [m[rowX][colX], m[rowY][colY]];
    UnpairRules(m, rowX, colX, rowY, colY);
  }

  /** `DecryptPair` in terms of the cells the two letters occupy. */
  lemma UnpairRules(m: seq<seq<char>>, rowX: nat, colX: nat, rowY: nat, colY: nat)
    requires IsGrid(m) && DistinctCells(m)
    requires rowX < 5 && colX < 5 && rowY < 5 && colY < 5
    ensures rowX == rowY ==>
      DecryptPair(m, m[rowX][colX], m[rowY][colY]) == [m[rowX][(colX + 4) % 5], m[rowY][(colY + 4) % 5]]
    ensures rowX != rowY && colX == colY ==>
      DecryptPair(m, m[rowX][colX], m[rowY][colY]) == [m[(rowX + 4) % 5][colX], m[(rowY + 4) % 5][colY]]
    ensures rowX != rowY && colX != colY ==>
      DecryptPair(m, m[rowX][colX], m[rowY][colY]) == [m[rowX][colY], m[rowY][colX]]
  {
    PositionOfCell(m, rowX, colX);
    PositionOfCell(m, rowY, colY);
  }

  /** Every pair of square letters is recovered from its encipherment under
      the key square, so the substitution loses nothing. */
  lemma PairRoundTrip(keyword: string, a: char, b: char)
    requires IsSquareLetter(a) && IsSquareLetter(b)
    ensures DecryptPair(SquareOf(keyword), EncryptPair(SquareOf(keyword), a, b)[0], EncryptPair(SquareOf(keyword), a, b)[1]) == [a, b]
  {
    var m := SquareOf(keyword);
    SquareIsAlphabet(keyword);
    assert InGrid(m, a) && InGrid(m, b);
    var rowA, colA :| 0 <= rowA < 5 && 0 <= colA < 5 && m[rowA][colA] == a;
    var rowB, colB :| 0 <= rowB < 5 && 0 <= colB < 5 && m[rowB][colB] == b;
    CellPairRoundTrip(m, rowA, colA, rowB, colB);
  }

  /** `playfair_encrypt` writes exactly one letter per letter of the prepared
      message, every one of them a letter of the key square (upper case and
      never 'J'), and pair `k` of the output is pair `k` of the prepared
      message enciphered under the key square. */
  lemma PlayfairShape(message: string, keyword: string)
    requires IsAsciiText(message)
    ensures |PlayfairText(message, keyword)| == |PreparedText(message)|
    ensures forall i :: 0 <= i < |PlayfairText(message, keyword)| ==>
      IsUpper(PlayfairText(message, keyword)[i]) && PlayfairText(message, keyword)[i] != 'J'
    ensures forall k :: 0 <= k < |PreparedText(message)| / 2 ==>
      PlayfairText(message, keyword)[2 * k .. 2 * k + 2] ==
      EncryptPair(SquareOf(UpperText(keyword)), PreparedText(message)[2 * k], PreparedText(message)[2 * k + 1])
  {
    var m := SquareOf(UpperText(keyword));
    var p := PreparedText(message);
    PreparedShape(message);
    SubstituteInGrid(m, p);
    SquareIsAlphabet(UpperText(keyword));
    forall k | 0 <= k < |p| / 2
      ensures Substitute(m, p)[2 * k .. 2 * k + 2] == EncryptPair(m, p[2 * k], p[2 * k + 1])
    {
      SubstituteAt(m, p, k);
    }
  }
}
