// The Playfair key square: `create_playfair_matrix` and `find_position`.

module KeySquare {
  import opened Ascii

  /** The letters a key square holds: A to Z without J. */
  predicate IsSquareLetter(c: char) { IsUpper(c) && c != 'J' }

  predicate Distinct(s: seq<char>)
  {
    forall i, j :: 0 <= i < j < |s| ==> s[i] != s[j]
  }

  /** A 5×5 grid of characters, indexed `m[row][col]`. */
  predicate IsGrid(m: seq<seq<char>>)
  {
    |m| == 5 && forall r :: 0 <= r < 5 ==> |m[r]| == 5
  }

  /** Cell (r', c') comes before cell (r, c) in row-major order. */
  predicate Before(r': nat, c': nat, r: nat, c: nat)
  {
    r' < r || (r' == r && c' < c)
  }

  predicate InGrid(m: seq<seq<char>>, ch: char)
    requires IsGrid(m)
  {
    exists r, c :: 0 <= r < 5 && 0 <= c < 5 && m[r][c] == ch
  }

  /** Flat cell `k` of a grid, in row-major order. */
  function Cell(m: seq<seq<char>>, k: nat): char
    requires IsGrid(m) && k < 25
  {
    m[k / 5][k % 5]
  }

  /** No letter occupies two cells of the grid. */
  predicate DistinctCells(m: seq<seq<char>>)
    requires IsGrid(m)
  {
    forall i, j :: 0 <= i < j < 25 ==> Cell(m, i) != Cell(m, j)
  }

  /** No letter of the keyword may be lower case: the source indexes its
      26-slot table with `c - 'A'`, which is out of range for 'a'..'z'. */
  predicate IsSquareKeyword(keyword: string)
  {
    IsAsciiText(keyword) && forall i :: 0 <= i < |keyword| ==> !IsLower(keyword[i])
  }

  // ---------------------------------------------------------------------
  // Specification of the square's contents

  /** The letters the keyword pass places: each letter of the keyword other
      than J, at its first occurrence, in keyword order. */
  function KeywordLetters(keyword: string): (placed: seq<char>)
    ensures |placed| <= |keyword|
  {
    if keyword == [] then []
    else
      var placed := KeywordLetters(keyword[..|keyword| - 1]);
      var c := keyword[|keyword| - 1];
      if IsSquareLetter(c) && c !in placed then placed + [c] else placed
  }

  /** The letters among the first `n` of the alphabet, in ascending order,
      that are neither J nor already in `placed`. */
  function Fill(placed: seq<char>, n: nat): (fill: seq<char>)
    requires n <= 26
    ensures |fill| <= n
  {
    if n == 0 then []
    else
      var c := UpperLetter(n - 1);
      Fill(placed, n - 1) + (if c != 'J' && c !in placed then [c] else [])
  }

  /** The cells of the key square in row-major order: the keyword's letters,
      then the rest of the alphabet. */
  function KeyOrder(keyword: string): (order: seq<char>)
    ensures |order| == 25
  {
    KeywordLettersFacts(keyword);
    PlacedPlusFill(KeywordLetters(keyword));
    KeywordLetters(keyword) + Fill(KeywordLetters(keyword), 26)
  }

  /** How many of the first `n` letters of the alphabet occur in `placed`. */
  function CountIn(placed: seq<char>, n: nat): nat
    requires n <= 26
  {
    if n == 0 then 0
    else CountIn(placed, n - 1) + (if UpperLetter(n - 1) in placed then 1 else 0)
  }

  // ---------------------------------------------------------------------
  // Lemmas about the specification

  lemma UpperLetterOfIndex(c: char)
    requires IsUpper(c)
    ensures UpperLetter(AlphaIndex(c)) == c
  {
    LetterDeterminedByIndex(UpperLetter(AlphaIndex(c)), c);
  }

  /** The keyword pass places distinct square letters, and exactly the
      square letters that occur in the keyword. */
  lemma {:induction false} KeywordLettersFacts(keyword: string)
    ensures Distinct(KeywordLetters(keyword))
    ensures forall i :: 0 <= i < |KeywordLetters(keyword)| ==> IsSquareLetter(KeywordLetters(keyword)[i])
    ensures forall c :: c in KeywordLetters(keyword) <==> IsSquareLetter(c) && c in keyword
  {
    if keyword != [] {
      var prefix := keyword[..|keyword| - 1];
      KeywordLettersFacts(prefix);
      assert keyword == prefix + [keyword[|keyword| - 1]];
    }
  }

  /** `Fill` holds exactly the square letters before place `n` that are not
      in `placed`, in strictly ascending order. */
  lemma {:induction false} FillFacts(placed: seq<char>, n: nat)
    requires n <= 26
    ensures forall c :: c in Fill(placed, n) <==> IsSquareLetter(c) && AlphaIndex(c) < n && c !in placed
    ensures forall i, j :: 0 <= i < j < |Fill(placed, n)| ==> Fill(placed, n)[i] < Fill(placed, n)[j]
  {
    if n > 0 {
      FillFacts(placed, n - 1);
      var last := UpperLetter(n - 1);
      forall c | IsUpper(c) && AlphaIndex(c) == n - 1
        ensures c == last
      {
        UpperLetterOfIndex(c);
      }
      var earlier := Fill(placed, n - 1);
      forall i | 0 <= i < |earlier|
        ensures earlier[i] < last
      {
        assert earlier[i] in earlier;
      }
    }
  }

  /** `Fill` only grows with `n`. */
  lemma {:induction false} FillGrows(placed: seq<char>, n: nat, m: nat)
    requires n <= m <= 26
    ensures |Fill(placed, n)| <= |Fill(placed, m)|
  {
    if n < m {
      FillGrows(placed, n, m - 1);
    }
  }

  /** Counting the alphabet below `n`: each square letter is either placed
      or filled, J is neither. */
  lemma {:induction false} FillCount(placed: seq<char>, n: nat)
    requires n <= 26 && 'J' !in placed
    ensures |Fill(placed, n)| + CountIn(placed, n) == if n <= 9 then n else n - 1
  {
    if n > 0 {
      FillCount(placed, n - 1);
      assert UpperLetter(n - 1) == 'J' <==> n - 1 == 9;
    }
  }

  lemma {:induction false} CountInSnoc(placed: seq<char>, x: char, n: nat)
    requires n <= 26 && IsUpper(x) && x !in placed
    ensures CountIn(placed + [x], n) == CountIn(placed, n) + (if AlphaIndex(x) < n then 1 else 0)
  {
    if n > 0 {
      CountInSnoc(placed, x, n - 1);
      assert UpperLetter(n - 1) == x <==> AlphaIndex(x) == n - 1 by {
        UpperLetterOfIndex(x);
      }
    }
  }

  /** Distinct upper-case letters: every one is counted once. */
  lemma {:induction false} CountInDistinct(placed: seq<char>)
    requires Distinct(placed)
    requires forall i :: 0 <= i < |placed| ==> IsUpper(placed[i])
    ensures CountIn(placed, 26) == |placed|
  {
    if placed != [] {
      var rest, x := placed[..|placed| - 1], placed[|placed| - 1];
      assert placed == rest + [x];
      assert x !in rest;
      assert Distinct(rest);
      assert forall i :: 0 <= i < |rest| ==> IsUpper(rest[i]) by {
        forall i | 0 <= i < |rest| ensures IsUpper(rest[i]) {
          assert rest[i] == placed[i];
        }
      }
      CountInDistinct(rest);
      CountInSnoc(rest, x, 26);
    } else {
      CountInEmpty(26);
    }
  }

  lemma {:induction false} CountInEmpty(n: nat)
    requires n <= 26
    ensures CountIn([], n) == 0
  {
    if n > 0 {
      CountInEmpty(n - 1);
    }
  }

  /** Placed letters and fill letters together make the 25 square letters. */
  lemma PlacedPlusFill(placed: seq<char>)
    requires Distinct(placed)
    requires forall i :: 0 <= i < |placed| ==> IsSquareLetter(placed[i])
    ensures |placed| + |Fill(placed, 26)| == 25
  {
    FillCount(placed, 26);
    CountInDistinct(placed);
  }

  /** The key square holds exactly the 25 letters A to Z except J, each once;
      the keyword's letters come first and the rest follow in ascending
      order. */
  lemma KeyOrderIsAlphabet(keyword: string)
    ensures |KeyOrder(keyword)| == 25
    ensures Distinct(KeyOrder(keyword))
    ensures forall c :: c in KeyOrder(keyword) <==> IsSquareLetter(c)
    ensures KeyOrder(keyword)[..|KeywordLetters(keyword)|] == KeywordLetters(keyword)
    ensures forall i, j :: |KeywordLetters(keyword)| <= i < j < 25 ==> KeyOrder(keyword)[i] < KeyOrder(keyword)[j]
  {
    var placed := KeywordLetters(keyword);
    var fill := Fill(placed, 26);
    KeywordLettersFacts(keyword);
    FillFacts(placed, 26);
    PlacedPlusFill(placed);
    var order := KeyOrder(keyword);
    assert order == placed + fill;
    DisjointConcat(placed, fill);
    forall c | IsSquareLetter(c)
      ensures c in order
    {
      if c !in placed {
        assert c in fill;
      }
    }
    AscendingAfter(placed, fill);
  }

  /** Strictly ascending letters stay ascending after a prefix. */
  lemma AscendingAfter(p: seq<char>, f: seq<char>)
    requires forall i, j :: 0 <= i < j < |f| ==> f[i] < f[j]
    ensures forall i, j :: |p| <= i < j < |p + f| ==> (p + f)[i] < (p + f)[j]
  {
    forall i, j | |p| <= i < j < |p + f|
      ensures (p + f)[i] < (p + f)[j]
    {
      assert (p + f)[i] == f[i - |p|] && (p + f)[j] == f[j - |p|];
    }
  }

  /** Distinct letters followed by strictly ascending letters none of which
      occurs before them are distinct as a whole. */
  lemma DisjointConcat(p: seq<char>, f: seq<char>)
    requires Distinct(p)
    requires forall i, j :: 0 <= i < j < |f| ==> f[i] < f[j]
    requires forall x :: x in f ==> x !in p
    ensures Distinct(p + f)
  {
    var s := p + f;
    forall i, j | 0 <= i < j < |s|
      ensures s[i] != s[j]
    {
      if j < |p| {
      } else if i < |p| {
        assert s[j] == f[j - |p|] && s[j] in f;
      } else {
        assert s[i] == f[i - |p|] && s[j] == f[j - |p|];
      }
    }
  }

  /** Place of the first occurrence of `c` in `s`. */
  function FirstIndex(s: string, c: char): (k: nat)
    requires c in s
    ensures k < |s| && s[k] == c && c !in s[..k]
  {
    if s[0] == c then 0
    else
      assert c in s[1..];
      var k := FirstIndex(s[1..], c);
      assert s[..k + 1] == [s[0]] + s[1..][..k];
      k + 1
  }

  /** Appending to a text keeps the first occurrence of the letters it held. */
  lemma FirstIndexSnoc(s: string, x: char, c: char)
    requires c in s
    ensures FirstIndex(s + [x], c) == FirstIndex(s, c)
  {
    if s[0] != c {
      assert (s + [x])[1..] == s[1..] + [x];
      FirstIndexSnoc(s[1..], x, c);
    }
  }

  /** The keyword's letters are placed in the order of their first
      occurrence in the keyword. */
  lemma {:induction false} KeywordLettersInFirstOccurrenceOrder(keyword: string)
    ensures forall i :: 0 <= i < |KeywordLetters(keyword)| ==> KeywordLetters(keyword)[i] in keyword
    ensures forall i, j :: 0 <= i < j < |KeywordLetters(keyword)| ==>
      FirstIndex(keyword, KeywordLetters(keyword)[i]) < FirstIndex(keyword, KeywordLetters(keyword)[j])
  {
    KeywordLettersFacts(keyword);
    if keyword != [] {
      var prefix, x := keyword[..|keyword| - 1], keyword[|keyword| - 1];
      assert keyword == prefix + [x];
      KeywordLettersInFirstOccurrenceOrder(prefix);
      KeywordLettersFacts(prefix);
      var before, after := KeywordLetters(prefix), KeywordLetters(keyword);
      forall i | 0 <= i < |before|
        ensures FirstIndex(keyword, before[i]) == FirstIndex(prefix, before[i])
      {
        FirstIndexSnoc(prefix, x, before[i]);
      }
      if after != before {
        assert after == before + [x] && x !in prefix;
        assert FirstIndex(keyword, x) == |prefix|;
      }
    }
  }

  // ---------------------------------------------------------------------
  // create_playfair_matrix

  /** The key square as a grid: row r holds cells 5r to 5r + 4 of the order. */
  function SquareOf(keyword: string): (m: seq<seq<char>>)
    ensures IsGrid(m)
  {
    var order := KeyOrder(keyword);
    seq(5, r requires 0 <= r < 5 => order[5 * r .. 5 * r + 5])
  }

  /** Cell (r, c) of the key square is letter 5r + c of the key order. */
  lemma SquareOfCells(keyword: string)
    ensures |KeyOrder(keyword)| == 25
    ensures forall r, c :: 0 <= r < 5 && 0 <= c < 5 ==> SquareOf(keyword)[r][c] == KeyOrder(keyword)[5 * r + c]
  {
  }

  /** The keyword pass and the fill pass together place 25 letters. */
  lemma KeywordLettersFit(keyword: string)
    ensures |KeywordLetters(keyword)| + |Fill(KeywordLetters(keyword), 26)| == 25
  {
    KeywordLettersFacts(keyword);
    PlacedPlusFill(KeywordLetters(keyword));
  }

  /** Flat cell `n` is the grid cell (n / 5, n % 5), and no other. */
  lemma CellOfIndex(n: nat)
    requires n < 25
    ensures n / 5 < 5 && 5 * (n / 5) + n % 5 == n
  {
  }

  lemma ConcatAssoc(a: seq<char>, b: seq<char>, c: seq<char>)
    ensures (a + b) + c == a + (b + c)
  {
  }

  /** After cell |cells| of the grid is written with `x`, the grid holds
      `cells + [x]` in row-major order, provided it held `cells` in every
      other cell before. */
  lemma GridPrefixGrows(grid: array2<char>, cells: seq<char>, x: char)
    requires grid.Length0 == 5 && grid.Length1 == 5 && |cells| < 25
    requires grid[|cells| / 5, |cells| % 5] == x
    requires GridHolds(grid, cells)
    ensures GridHolds(grid, cells + [x])
  {
    CellOfIndex(|cells|);
  }

  /** The key square holds each of the 25 square letters in exactly one
      cell, and nothing else. */
  lemma SquareIsAlphabet(keyword: string)
    ensures DistinctCells(SquareOf(keyword))
    ensures forall r, c :: 0 <= r < 5 && 0 <= c < 5 ==> IsSquareLetter(SquareOf(keyword)[r][c])
    ensures forall ch :: InGrid(SquareOf(keyword), ch) <==> IsSquareLetter(ch)
  {
    SquareCellsDistinct(keyword);
    SquareCellsAreLetters(keyword);
    SquareHoldsEveryLetter(keyword);
  }

  lemma SquareCellsDistinct(keyword: string)
    ensures DistinctCells(SquareOf(keyword))
  {
    var m := SquareOf(keyword);
    KeyOrderIsAlphabet(keyword);
    SquareOfCells(keyword);
    forall i, j | 0 <= i < j < 25
      ensures Cell(m, i) != Cell(m, j)
    {
      CellOfIndex(i);
      CellOfIndex(j);
    }
  }

  lemma SquareCellsAreLetters(keyword: string)
    ensures forall r, c :: 0 <= r < 5 && 0 <= c < 5 ==> IsSquareLetter(SquareOf(keyword)[r][c])
  {
    var m := SquareOf(keyword);
    var order := KeyOrder(keyword);
    KeyOrderIsAlphabet(keyword);
    SquareOfCells(keyword);
    forall r, c | 0 <= r < 5 && 0 <= c < 5
      ensures IsSquareLetter(m[r][c])
    {
      assert order[5 * r + c] in order;
    }
  }

  lemma SquareHoldsEveryLetter(keyword: string)
    ensures forall ch :: IsSquareLetter(ch) ==> InGrid(SquareOf(keyword), ch)
  {
    forall ch | IsSquareLetter(ch)
      ensures InGrid(SquareOf(keyword), ch)
    {
      SquareHoldsLetter(keyword, ch);
    }
  }

  /** A square letter sits in the cell of its place in the key order. */
  lemma SquareHoldsLetter(keyword: string, ch: char)
    requires IsSquareLetter(ch)
    ensures InGrid(SquareOf(keyword), ch)
  {
    var order := KeyOrder(keyword);
    KeyOrderHas(keyword, ch);
    var k :| 0 <= k < 25 && order[k] == ch;
    SquareOfCells(keyword);
    CellOfIndex(k);
    assert SquareOf(keyword)[k / 5][k % 5] == ch;
  }

  /** Every square letter occurs in the key order. */
  lemma KeyOrderHas(keyword: string, ch: char)
    requires IsSquareLetter(ch)
    ensures ch in KeyOrder(keyword)
  {
    KeyOrderIsAlphabet(keyword);
  }

  /** In a grid of distinct letters, a letter is held by one cell only. */
  lemma SameLetterSameCell(m: seq<seq<char>>, r: nat, c: nat, r': nat, c': nat)
    requires IsGrid(m) && DistinctCells(m)
    requires r < 5 && c < 5 && r' < 5 && c' < 5
    ensures m[r][c] == m[r'][c'] ==> r == r' && c == c'
  {
    var i, j := 5 * r + c, 5 * r' + c';
    assert Cell(m, i) == m[r][c] && Cell(m, j) == m[r'][c'];
  }

  /** In a grid of distinct letters, the letter in cell (r, c) is found at
      (r, c). */
  lemma PositionOfCell(m: seq<seq<char>>, r: nat, c: nat)
    requires IsGrid(m) && DistinctCells(m) && r < 5 && c < 5
    ensures Position(m, m[r][c]) == (r, c)
  {
    PositionIsFirstMatch(m, m[r][c]);
    var (row, col) := Position(m, m[r][c]);
    SameLetterSameCell(m, row, col, r, c);
  }

  /** Two grids with the same letter in every cell are equal. */
  lemma SameGrid(a: seq<seq<char>>, b: seq<seq<char>>)
    requires IsGrid(a) && IsGrid(b)
    requires forall r, c :: 0 <= r < 5 && 0 <= c < 5 ==> a[r][c] == b[r][c]
    ensures a == b
  {
    forall r | 0 <= r < 5
      ensures a[r] == b[r]
    {
    }
  }

  /** The rows of a 5 by 5 array, as a grid value. */
  function Rows(grid: array2<char>): (m: seq<seq<char>>)
    requires grid.Length0 == 5 && grid.Length1 == 5
    reads grid
    ensures IsGrid(m)
    ensures forall r, c :: 0 <= r < 5 && 0 <= c < 5 ==> m[r][c] == grid[r, c]
  {
    seq(5, r requires 0 <= r < 5 reads grid =>
      seq(5, c requires 0 <= c < 5 reads grid => grid[r, c]))
  }

  /** `create_playfair_matrix`: the keyword's new letters other than J are
      written row-major, tracked in a 26-slot `used` table, then the unused
      letters of the alphabet except J; the fill index never passes 25. */
  method CreatePlayfairMatrix(keyword: string) returns (matrix: seq<seq<char>>)
    requires IsSquareKeyword(keyword)
    ensures IsGrid(matrix)
    ensures matrix == SquareOf(keyword)
  {
    var grid := new char[5, 5]((_, _) => ' ');
    var used := new bool[26](_ => false);
    var index := PlaceKeyword(keyword, grid, used);
    KeywordLettersFit(keyword);
    PlaceFill(KeywordLetters(keyword), grid, used, index);
    matrix := Rows(grid);
    SquareOfCells(keyword);
    SameGrid(matrix, SquareOf(keyword));
  }

  /** Reading one more keyword character places it when it is a new square
      letter, and places nothing otherwise. */
  lemma KeywordLettersStep(keyword: string, i: nat)
    requires i < |keyword|
    ensures KeywordLetters(keyword[..i + 1]) ==
      if IsSquareLetter(keyword[i]) && keyword[i] !in KeywordLetters(keyword[..i])
      then KeywordLetters(keyword[..i]) + [keyword[i]]
      else KeywordLetters(keyword[..i])
  {
    assert keyword[..i + 1][..i] == keyword[..i];
  }

  /** The 5×5 grid holds `cells` in its first |cells| cells, row by row. */
  predicate GridHolds(grid: array2<char>, cells: seq<char>)
    requires grid.Length0 == 5 && grid.Length1 == 5
    reads grid
  {
    forall r, c :: 0 <= r < 5 && 0 <= c < 5 && 5 * r + c < |cells| ==> grid[r, c] == cells[5 * r + c]
  }

  /** `matrix[index / 5][index % 5] = c`: the next free cell, row by row,
      receives `c`. */
  method WriteCell(grid: array2<char>, ghost cells: seq<char>, index: nat, c: char)
    requires grid.Length0 == 5 && grid.Length1 == 5
    requires index == |cells| < 25 && GridHolds(grid, cells)
    modifies grid
    ensures GridHolds(grid, cells + [c])
  {
    CellOfIndex(index);
    grid[index / 5, index % 5] := c;
    GridPrefixGrows(grid, cells, c);
  }

  /** `used[pos] = true` for the letter `c` at alphabet place `pos`: from
      now on the table marks `c` as well. */
  method MarkUsed(used: array<bool>, ghost cells: seq<char>, c: char)
    requires used.Length == 26 && IsUpper(c)
    requires forall j :: 0 <= j < 26 ==> (used[j] <==> UpperLetter(j) in cells)
    modifies used
    ensures forall j :: 0 <= j < 26 ==> (used[j] <==> UpperLetter(j) in cells + [c])
  {
    var pos := c as int - 'A' as int;
    UpperLetterOfIndex(c);
    used[pos] := true;
    forall j | 0 <= j < 26
      ensures UpperLetter(j) == c <==> j == pos
    {
    }
  }

  /** The keyword pass of `create_playfair_matrix`: each new letter other
      than J is marked in `used` and written to the next cell. */
  method PlaceKeyword(keyword: string, grid: array2<char>, used: array<bool>) returns (index: nat)
    requires IsSquareKeyword(keyword)
    requires grid.Length0 == 5 && grid.Length1 == 5 && used.Length == 26
    requires forall j :: 0 <= j < 26 ==> !used[j]
    modifies grid, used
    ensures index == |KeywordLetters(keyword)| <= 25
    ensures forall j :: 0 <= j < 26 ==> (used[j] <==> UpperLetter(j) in KeywordLetters(keyword))
    ensures GridHolds(grid, KeywordLetters(keyword))
  {
    index := 0;
    ghost var cells: seq<char> := [];
    for i := 0 to |keyword|
      invariant cells == KeywordLetters(keyword[..i])
      invariant index == |cells| <= 25
      invariant forall j :: 0 <= j < 26 ==> (used[j] <==> UpperLetter(j) in cells)
      invariant GridHolds(grid, cells)
    {
      var c := keyword[i];
      KeywordLettersStep(keyword, i);
      if IsLetter(c) {
        var pos := c as int - 'A' as int;
        UpperLetterOfIndex(c);
        if !used[pos] && c != 'J' {
          KeywordLettersFit(keyword[..i + 1]);
          MarkUsed(used, cells, c);
          WriteCell(grid, cells, index, c);
          index := index + 1;
          cells := cells + [c];
        }
      }
    }
    assert keyword[..|keyword|] == keyword;
  }

  /** The fill pass of `create_playfair_matrix`: every letter other than J
      that `used` does not mark goes, in alphabet order, to the next cell. */
  method PlaceFill(ghost placed: seq<char>, grid: array2<char>, used: array<bool>, start: nat)
    requires grid.Length0 == 5 && grid.Length1 == 5 && used.Length == 26
    requires start == |placed| && |placed| + |Fill(placed, 26)| == 25
    requires forall j :: 0 <= j < 26 ==> (used[j] <==> UpperLetter(j) in placed)
    requires GridHolds(grid, placed)
    modifies grid
    ensures GridHolds(grid, placed + Fill(placed, 26))
  {
    var index := start;
    ghost var cells := placed;
    for i := 0 to 26
      invariant cells == placed + Fill(placed, i)
      invariant index == |cells| <= 25
      invariant GridHolds(grid, cells)
    {
      var c := ('A' as int + i) as char;
      if c != 'J' && !used[i] {
        FillGrows(placed, i + 1, 26);
        WriteCell(grid, cells, index, c);
        index := index + 1;
        ConcatAssoc(placed, Fill(placed, i), [c]);
        cells := cells + [c];
      }
    }
  }

  // ---------------------------------------------------------------------
  // find_position

  /** Row-major scan from flat cell `k`: the first cell holding `ch`, or
      (0, 0) when none does. */
  function PositionFrom(m: seq<seq<char>>, ch: char, k: nat): (p: (nat, nat))
    requires IsGrid(m) && k <= 25
    ensures p.0 < 5 && p.1 < 5
    decreases 25 - k
  {
    if k == 25 then (0, 0)
    else if m[k / 5][k % 5] == ch then (k / 5, k % 5)
    else PositionFrom(m, ch, k + 1)
  }

  /** Where `find_position` finds `ch` in the grid. */
  function Position(m: seq<seq<char>>, ch: char): (p: (nat, nat))
    requires IsGrid(m)
    ensures p.0 < 5 && p.1 < 5
  {
    PositionFrom(m, ch, 0)
  }

  /** A scan starting at `j` passes over cells that do not hold `ch`. */
  lemma {:induction false} PositionFromSkips(m: seq<seq<char>>, ch: char, j: nat, k: nat)
    requires IsGrid(m) && j <= k <= 25
    requires forall f :: j <= f < k ==> m[f / 5][f % 5] != ch
    ensures PositionFrom(m, ch, j) == PositionFrom(m, ch, k)
    decreases k - j
  {
    if j < k {
      PositionFromSkips(m, ch, j + 1, k);
    }
  }

  /** `Position` is the first cell in row-major order that holds `ch`, or
      (0, 0) when no cell holds it. */
  lemma PositionIsFirstMatch(m: seq<seq<char>>, ch: char)
    requires IsGrid(m)
    ensures InGrid(m, ch) ==>
      var (row, col) := Position(m, ch);
      m[row][col] == ch &&
      forall r, c :: 0 <= r < 5 && 0 <= c < 5 && Before(r, c, row, col) ==> m[r][c] != ch
    ensures !InGrid(m, ch) ==> Position(m, ch) == (0, 0)
  {
    if InGrid(m, ch) {
      var r0, c0 :| 0 <= r0 < 5 && 0 <= c0 < 5 && m[r0][c0] == ch;
      var k :| 0 <= k < 25 && m[k / 5][k % 5] == ch &&
               forall f :: 0 <= f < k ==> m[f / 5][f % 5] != ch by {
        FirstFlatMatch(m, ch, 5 * r0 + c0);
      }
      PositionFromSkips(m, ch, 0, k);
      forall r, c | 0 <= r < 5 && 0 <= c < 5 && Before(r, c, k / 5, k % 5)
        ensures m[r][c] != ch
      {
        var f := 5 * r + c;
        assert f / 5 == r && f % 5 == c;
      }
    } else {
      PositionFromSkips(m, ch, 0, 25);
    }
  }

  /** If flat cell `k` holds `ch`, some flat cell holds it first. */
  lemma {:induction false} FirstFlatMatch(m: seq<seq<char>>, ch: char, k: nat)
    requires IsGrid(m) && k < 25 && m[k / 5][k % 5] == ch
    ensures exists f :: 0 <= f < 25 && m[f / 5][f % 5] == ch &&
                        forall g :: 0 <= g < f ==> m[g / 5][g % 5] != ch
  {
    if exists g :: 0 <= g < k && m[g / 5][g % 5] == ch {
      var g :| 0 <= g < k && m[g / 5][g % 5] == ch;
      FirstFlatMatch(m, ch, g);
    }
  }

  /** `find_position`: a nested row-major scan that returns the first cell
      holding `ch`, and (0, 0) when the loops run out. */
  method FindPosition(ch: char, matrix: seq<seq<char>>) returns (row: nat, col: nat)
    requires IsGrid(matrix)
    ensures row < 5 && col < 5
    ensures InGrid(matrix, ch) ==> matrix[row][col] == ch
    ensures InGrid(matrix, ch) ==>
      forall r, c :: 0 <= r < 5 && 0 <= c < 5 && Before(r, c, row, col) ==> matrix[r][c] != ch
    ensures !InGrid(matrix, ch) ==> row == 0 && col == 0
    ensures (row, col) == Position(matrix, ch)
  {
    for r := 0 to 5
      invariant forall r', c' :: 0 <= r' < r && 0 <= c' < 5 ==> matrix[r'][c'] != ch
    {
      for c := 0 to 5
        invariant forall r', c' :: 0 <= r' < r && 0 <= c' < 5 ==> matrix[r'][c'] != ch
        invariant forall c' :: 0 <= c' < c ==> matrix[r][c'] != ch
      {
        if matrix[r][c] == ch {
          PositionIsFirstMatch(matrix, ch);
          return r, c;
        }
      }
    }
    PositionIsFirstMatch(matrix, ch);
    return 0, 0;
  }
}
