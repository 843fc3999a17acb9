// Geometry of a rank x rank Sudoku grid stored row-major, its block partition, the
// three kinds of group (row, column, block) and what a conflict and a solution are.

module SudokuGrid {
  import opened SudokuCodec

  /** The group kinds of Sudoku.h:143-149. */
  datatype Group = NoGroup | Row | Column | Block

  function RowOf(rank: int, p: int): int
    requires rank > 0
  {
    p / rank
  }

  function ColumnOf(rank: int, p: int): int
    requires rank > 0
  {
    p % rank
  }

  lemma MulNonNegative(a: int, b: int)
    requires 0 <= a && 0 <= b
    ensures 0 <= a * b
  {
  }

  lemma MulMonotone(a: int, b: int, d: int)
    requires 0 < d
    ensures a <= b ==> a * d <= b * d
  {
  }

  /** Euclidean division is unique: the quotient and remainder of q * d + m are q and m. */
  lemma DivUnique(p: int, d: int, q: int, m: int)
    requires d > 0 && p == q * d + m && 0 <= m < d
    ensures p / d == q && p % d == m
  {
    var k := q - p / d;
    assert k * d == p % d - m;
    MulMonotone(1, k, d);
    MulMonotone(k, -1, d);
  }

  lemma CellCoordinates(rank: int, r: int, c: int)
    requires 0 <= r < rank && 0 <= c < rank
    ensures 0 <= r * rank + c < rank * rank
    ensures (r * rank + c) / rank == r && (r * rank + c) % rank == c
  {
    MulNonNegative(r, rank);
    MulNonNegative(rank - 1 - r, rank);
    assert rank * rank == r * rank + (rank - 1 - r) * rank + rank;
    DivUnique(r * rank + c, rank, r, c);
  }

  /** The position of the cell in row r and column c. */
  function CellAt(rank: int, r: int, c: int): (p: int)
    requires 0 <= r < rank && 0 <= c < rank
    ensures 0 <= p < rank * rank
    ensures RowOf(rank, p) == r && ColumnOf(rank, p) == c
  {
    CellCoordinates(rank, r, c);
    r * rank + c
  }

  lemma PositionCoordinates(rank: int, p: int)
    requires 0 < rank && 0 <= p < rank * rank
    ensures 0 <= RowOf(rank, p) < rank && 0 <= ColumnOf(rank, p) < rank
    ensures p == CellAt(rank, RowOf(rank, p), ColumnOf(rank, p))
  {
    MulMonotone(rank, p / rank, rank);
  }

  /**
   * Cell j of line i: row i when horizontal, column i otherwise (the position
   * `horizontal ? i * rank + j : i + rank * j` that the line strategies scan).
   */
  function LineCell(rank: int, horizontal: bool, i: int, j: int): (p: int)
    requires 0 <= i < rank && 0 <= j < rank
    ensures 0 <= p < rank * rank
    ensures horizontal ==> RowOf(rank, p) == i && ColumnOf(rank, p) == j
    ensures !horizontal ==> ColumnOf(rank, p) == i && RowOf(rank, p) == j
  {
    if horizontal then CellAt(rank, i, j) else CellAt(rank, j, i)
  }

  /** The group kind of a line. */
  function LineGroup(horizontal: bool): Group
  {
    if horizontal then Row else Column
  }

  /** The line index of a position: its row when horizontal, its column otherwise. */
  function LineOf(rank: int, horizontal: bool, p: int): int
    requires rank > 0
  {
    if horizontal then RowOf(rank, p) else ColumnOf(rank, p)
  }

  /** The index of a position along its line. */
  function AlongLine(rank: int, horizontal: bool, p: int): int
    requires rank > 0
  {
    if horizontal then ColumnOf(rank, p) else RowOf(rank, p)
  }

  /** The cells of line i in order along the line. */
  function LineCells(rank: int, horizontal: bool, i: int): (cells: seq<int>)
    requires 0 <= i < rank
    ensures |cells| == rank && forall j :: 0 <= j < rank ==> cells[j] == LineCell(rank, horizontal, i, j)
  {
    seq(rank, j requires 0 <= j < rank => LineCell(rank, horizontal, i, j))
  }

  lemma PositionOnLine(rank: int, horizontal: bool, p: int)
    requires 0 < rank && 0 <= p < rank * rank
    ensures 0 <= LineOf(rank, horizontal, p) < rank && 0 <= AlongLine(rank, horizontal, p) < rank
    ensures p == LineCell(rank, horizontal, LineOf(rank, horizontal, p), AlongLine(rank, horizontal, p))
  {
    PositionCoordinates(rank, p);
  }

  /** Every block id lies in [1, rank]. */
  predicate IdsInRange(rank: int, blocks: seq<int>)
  {
    forall p :: 0 <= p < |blocks| ==> 1 <= blocks[p] <= rank
  }

  /** The block partition the engine accepts: ids in [1, rank], each one on rank cells. */
  predicate PartitionValid(rank: int, blocks: seq<int>)
  {
    |blocks| == rank * rank && IdsInRange(rank, blocks)
    && forall b :: 1 <= b <= rank ==> multiset(blocks)[b] == rank
  }

  /** A grid of the given rank: ids and cell values in range, 0 for a blank cell. */
  predicate Shaped(rank: int, blocks: seq<int>, field: seq<int>)
  {
    1 <= rank <= RankMax && |blocks| == rank * rank && |field| == rank * rank
    && IdsInRange(rank, blocks)
    && forall p :: 0 <= p < |field| ==> 0 <= field[p] <= rank
  }

  /** Cell p belongs to group `index` of kind g (rows and columns from 0, blocks from 1). */
  predicate InGroup(rank: int, blocks: seq<int>, g: Group, index: int, p: int)
  {
    0 < rank && 0 <= p < |blocks|
    && match g
       case Row => p / rank == index
       case Column => p % rank == index
       case Block => blocks[p] == index
       case NoGroup => false
  }

  /** The index of the group of kind g that holds cell p. */
  function GroupOf(rank: int, blocks: seq<int>, g: Group, p: int): int
    requires 0 < rank && 0 <= p < |blocks|
  {
    match g
    case Row => p / rank
    case Column => p % rank
    case Block => blocks[p]
    case NoGroup => -1
  }

  /** Two cells of one group of kind g. */
  predicate SameGroup(rank: int, blocks: seq<int>, g: Group, p: int, q: int)
  {
    0 < rank && 0 <= p < |blocks| && 0 <= q < |blocks|
    && match g
       case Row => p / rank == q / rank
       case Column => p % rank == q % rank
       case Block => blocks[p] == blocks[q]
       case NoGroup => false
  }

  /** Two cells in one row, one column or one block. */
  predicate Peers(rank: int, blocks: seq<int>, p: int, q: int)
  {
    SameGroup(rank, blocks, Row, p, q) || SameGroup(rank, blocks, Column, p, q)
    || SameGroup(rank, blocks, Block, p, q)
  }

  /** No two cells of one group of kind g hold the same nonzero value. */
  predicate Clean(rank: int, blocks: seq<int>, field: seq<int>, g: Group)
  {
    forall p, q :: 0 <= p < q < |field| && SameGroup(rank, blocks, g, p, q) && field[p] != 0
      ==> field[p] != field[q]
  }

  /** No row, column or block repeats a nonzero value. */
  predicate NoConflict(rank: int, blocks: seq<int>, field: seq<int>)
  {
    Clean(rank, blocks, field, Row) && Clean(rank, blocks, field, Column)
    && Clean(rank, blocks, field, Block)
  }

  /** Without conflicts, two distinct peers never hold the same nonzero value. */
  lemma PeersDiffer(rank: int, blocks: seq<int>, field: seq<int>, p: int, q: int)
    requires NoConflict(rank, blocks, field)
    requires 0 <= p < |field| && 0 <= q < |field| && p != q && Peers(rank, blocks, p, q)
    requires field[p] != 0
    ensures field[p] != field[q]
  {
    var g := if SameGroup(rank, blocks, Row, p, q) then Row
      else if SameGroup(rank, blocks, Column, p, q) then Column else Block;
    assert SameGroup(rank, blocks, g, p, q) && SameGroup(rank, blocks, g, q, p);
  }

  /** n appears in no cell that shares a row, a column or a block with p. */
  predicate Absent(rank: int, blocks: seq<int>, field: seq<int>, p: int, n: int)
  {
    forall q :: 0 <= q < |field| && Peers(rank, blocks, p, q) ==> field[q] != n
  }

  /** Walking down a column by steps of rank stays inside the grid exactly for rows 0..rank-1. */
  lemma ColumnWalk(rank: int, r: int, column: int)
    requires 0 <= column < rank && 0 <= r
    ensures r * rank + column < rank * rank <==> r < rank
  {
    MulMonotone(r, rank - 1, rank);
    MulMonotone(rank, r, rank);
  }

  /** A position is the cell at (r, c) exactly when its row is r and its column is c. */
  lemma SameCell(rank: int, q: int, r: int, c: int)
    requires 0 <= q < rank * rank && 0 <= r < rank && 0 <= c < rank
    ensures q == CellAt(rank, r, c) <==> RowOf(rank, q) == r && ColumnOf(rank, q) == c
  {
    PositionCoordinates(rank, q);
  }

  /** The one cell on both line i (a row when horizontal) and crossing line j. */
  lemma CrossingCell(rank: int, horizontal: bool, i: int, j: int, q: int)
    requires 0 <= i < rank && 0 <= j < rank && 0 <= q < rank * rank
    requires LineOf(rank, horizontal, q) == i && LineOf(rank, !horizontal, q) == j
    ensures q == LineCell(rank, !horizontal, j, i)
  {
    if horizontal {
      SameCell(rank, q, i, j);
    } else {
      SameCell(rank, q, j, i);
    }
  }

  /** The cells of a row are consecutive positions. */
  lemma RowCells(rank: int, row: int)
    requires 0 <= row < rank
    ensures forall c :: 0 <= c < rank ==> CellAt(rank, row, c) == row * rank + c
  {
  }

  /** One step down a column adds rank to the position. */
  lemma ColumnStep(rank: int, r: int, column: int)
    ensures (r + 1) * rank + column == r * rank + column + rank
  {
  }

  /** n is absent around p exactly when p's row, p's column and p's block all lack it. */
  lemma AbsentByParts(rank: int, blocks: seq<int>, field: seq<int>, p: int, n: int)
    requires 0 < rank && |field| == rank * rank && |blocks| == rank * rank && 0 <= p < rank * rank
    ensures Absent(rank, blocks, field, p, n) <==>
              (forall c :: 0 <= c < rank ==> field[CellAt(rank, RowOf(rank, p), c)] != n)
              && (forall r :: 0 <= r < rank ==> field[CellAt(rank, r, ColumnOf(rank, p))] != n)
              && (forall q :: 0 <= q < |field| && blocks[q] == blocks[p] ==> field[q] != n)
  {
    PositionCoordinates(rank, p);
    if Absent(rank, blocks, field, p, n) {
      forall c | 0 <= c < rank
        ensures field[CellAt(rank, RowOf(rank, p), c)] != n
      {
        assert Peers(rank, blocks, p, CellAt(rank, RowOf(rank, p), c));
      }
      forall r | 0 <= r < rank
        ensures field[CellAt(rank, r, ColumnOf(rank, p))] != n
      {
        assert Peers(rank, blocks, p, CellAt(rank, r, ColumnOf(rank, p)));
      }
      forall q | 0 <= q < |field| && blocks[q] == blocks[p]
        ensures field[q] != n
      {
        assert Peers(rank, blocks, p, q);
      }
    }
    if (forall c :: 0 <= c < rank ==> field[CellAt(rank, RowOf(rank, p), c)] != n)
       && (forall r :: 0 <= r < rank ==> field[CellAt(rank, r, ColumnOf(rank, p))] != n)
       && (forall q :: 0 <= q < |field| && blocks[q] == blocks[p] ==> field[q] != n) {
      forall q | 0 <= q < |field| && Peers(rank, blocks, p, q)
        ensures field[q] != n
      {
        PositionCoordinates(rank, q);
      }
    }
  }

  /** Group `index` of kind g holds the value n somewhere. */
  predicate Covered(rank: int, blocks: seq<int>, s: seq<int>, g: Group, index: int, n: int)
  {
    exists p :: 0 <= p < |s| && InGroup(rank, blocks, g, index, p) && s[p] == n
  }

  /** Group `index` of kind g holds every number 1..rank. */
  predicate CoversGroup(rank: int, blocks: seq<int>, s: seq<int>, g: Group, index: int)
  {
    forall n :: 1 <= n <= rank ==> Covered(rank, blocks, s, g, index, n)
  }

  /** Every row, column and block holds every number 1..rank. */
  predicate Covers(rank: int, blocks: seq<int>, s: seq<int>)
  {
    (forall i :: 0 <= i < rank ==> CoversGroup(rank, blocks, s, Row, i))
    && (forall i :: 0 <= i < rank ==> CoversGroup(rank, blocks, s, Column, i))
    && (forall b :: 1 <= b <= rank ==> CoversGroup(rank, blocks, s, Block, b))
  }

  /** A filled grid in which every group holds each number 1..rank exactly once. */
  predicate Solution(rank: int, blocks: seq<int>, s: seq<int>)
  {
    Shaped(rank, blocks, s) && (forall p :: 0 <= p < |s| ==> s[p] != 0)
    && NoConflict(rank, blocks, s) && Covers(rank, blocks, s)
  }

  /** The solution keeps every filled cell of the field. */
  predicate Agrees(field: seq<int>, s: seq<int>)
  {
    |s| == |field| && forall p :: 0 <= p < |field| && field[p] != 0 ==> s[p] == field[p]
  }

  /** A solution's value at p is absent from the peers of p in any field it extends. */
  lemma SolutionValueAbsent(rank: int, blocks: seq<int>, field: seq<int>, s: seq<int>, p: int)
    requires Solution(rank, blocks, s) && Agrees(field, s) && 0 <= p < |field| && field[p] == 0
    ensures Absent(rank, blocks, field, p, s[p])
  {
    forall q | 0 <= q < |field| && Peers(rank, blocks, p, q)
      ensures field[q] != s[p]
    {
      if q != p && field[q] != 0 {
        PeersDiffer(rank, blocks, s, p, q);
      }
    }
  }

  /** Strictly increasing: the order of candidate lists and blank-position lists. */
  predicate Ascending(s: seq<int>)
  {
    forall i, j :: 0 <= i < j < |s| ==> s[i] < s[j]
  }

  /** No number occurs twice in items. */
  predicate Distinct(items: seq<int>)
  {
    forall i, j :: 0 <= i < j < |items| ==> items[i] != items[j]
  }

  /** A sequence without repeats holds as many distinct numbers as it has entries. */
  lemma {:induction false} SetOfDistinct(items: seq<int>)
    requires Distinct(items)
    ensures |set x | x in items| == |items|
  {
    if |items| > 0 {
      var rest := items[1..];
      SetOfDistinct(rest);
      assert (set x | x in items) == (set x | x in rest) + {items[0]};
      assert items[0] !in rest;
    }
  }

  /** An ascending list whose numbers all occur in another ascending list is no longer than it. */
  lemma AscendingShorter(a: seq<int>, b: seq<int>)
    requires Ascending(a) && Ascending(b) && forall x :: x in a ==> x in b
    ensures |a| <= |b|
  {
    SetOfDistinct(a);
    SetOfDistinct(b);
    var sa, sb := set x | x in a, set x | x in b;
    assert sb == sa + (sb - sa);
  }

  /** The sequence with the first occurrence of x erased (removeElement at Sudoku.cpp:22-32). */
  function Without(s: seq<int>, x: int): (r: seq<int>)
    ensures x !in s ==> r == s
    ensures x in s ==> |r| == |s| - 1
  {
    if s == [] then []
    else if s[0] == x then s[1..]
    else [s[0]] + Without(s[1..], x)
  }

  /** Without drops exactly the first occurrence and keeps the rest in order. */
  lemma {:induction false} WithoutFirst(s: seq<int>, x: int) returns (k: int)
    requires x in s
    ensures 0 <= k < |s| && s[k] == x && x !in s[..k]
    ensures Without(s, x) == s[..k] + s[k + 1..]
  {
    if s[0] == x {
      k := 0;
    } else {
      var t := s[1..];
      var k' := WithoutFirst(t, x);
      k := k' + 1;
      assert s[..k] == [s[0]] + t[..k'];
      assert s[k + 1..] == t[k' + 1..];
      calc {
        Without(s, x);
        [s[0]] + Without(t, x);
        [s[0]] + (t[..k'] + t[k' + 1..]);
        ([s[0]] + t[..k']) + t[k' + 1..];
      }
    }
  }

  /** Erasing adds nothing: every element left was in the list. */
  lemma {:induction false} WithoutSubset(s: seq<int>, x: int)
    ensures forall y :: y in Without(s, x) ==> y in s
  {
    if s != [] && s[0] != x {
      WithoutSubset(s[1..], x);
    }
  }

  /** Erasing from a list without repeats removes x, and only x. */
  lemma {:induction false} WithoutMembers(s: seq<int>, x: int)
    requires Ascending(s)
    ensures forall y :: y in Without(s, x) <==> y in s && y != x
  {
    if s != [] {
      assert Ascending(s[1..]);
      WithoutMembers(s[1..], x);
      if s[0] == x {
        assert x !in s[1..] by {
          forall i | 0 <= i < |s[1..]| ensures s[1..][i] != x {
            assert s[1..][i] == s[i + 1];
          }
        }
      }
    }
  }

  /** Erasing from an ascending list keeps it ascending and removes x, and only x. */
  lemma {:induction false} WithoutAscending(s: seq<int>, x: int)
    requires Ascending(s)
    ensures Ascending(Without(s, x))
    ensures forall y :: y in Without(s, x) <==> y in s && y != x
  {
    WithoutMembers(s, x);
    if s != [] && s[0] != x {
      var t := s[1..];
      assert Ascending(t);
      WithoutAscending(t, x);
      var r := Without(s, x);
      assert r == [s[0]] + Without(t, x);
      forall i, j | 0 <= i < j < |r|
        ensures r[i] < r[j]
      {
        if i == 0 {
          assert r[j] == Without(t, x)[j - 1];
          assert r[j] in t;
        } else {
          assert r[i] == Without(t, x)[i - 1] && r[j] == Without(t, x)[j - 1];
        }
      }
    }
  }

  /**
   * What toString() writes for the cell letters `letters`: the letters in order and, line by
   * line, a newline in front of every letter that starts a row of `width` cells, except the first.
   */
  function Rendered(letters: seq<char>, width: int, lineByLine: bool): (s: string)
    requires width >= 1
    decreases |letters|
  {
    if |letters| == 0 then []
    else
      var k := |letters| - 1;
      Rendered(letters[..k], width, lineByLine)
      + (if lineByLine && k > 0 && k % width == 0 then "\n" else "")
      + [letters[k]]
  }

  /** The text with its newlines dropped. */
  function Unlined(s: string): string
  {
    if |s| == 0 then []
    else Unlined(s[..|s| - 1]) + (if s[|s| - 1] == '\n' then "" else [s[|s| - 1]])
  }

  /** Not line by line, the text is the letters themselves. */
  lemma {:induction false} RenderedFlat(letters: seq<char>, width: int)
    requires width >= 1
    ensures Rendered(letters, width, false) == letters
    decreases |letters|
  {
    if |letters| > 0 {
      var k := |letters| - 1;
      RenderedFlat(letters[..k], width);
      assert letters == letters[..k] + [letters[k]];
    }
  }

  /** Line by line, dropping the newlines gives the letters back. */
  lemma {:induction false} RenderedUnlined(letters: seq<char>, width: int)
    requires width >= 1 && '\n' !in letters
    ensures Unlined(Rendered(letters, width, true)) == letters
    decreases |letters|
  {
    if |letters| > 0 {
      var k := |letters| - 1;
      RenderedUnlined(letters[..k], width);
      UnlinedStep(letters, width);
      SnocWhole(letters);
    }
  }

  /** One more letter, not a newline, adds just itself once the newlines are dropped. */
  lemma UnlinedStep(letters: seq<char>, width: int)
    requires width >= 1 && |letters| > 0 && letters[|letters| - 1] != '\n'
    ensures Unlined(Rendered(letters, width, true))
            == Unlined(Rendered(letters[..|letters| - 1], width, true)) + [letters[|letters| - 1]]
  {
    var k := |letters| - 1;
    var front := Rendered(letters[..k], width, true);
    var last := letters[k];
    assert Unlined([last]) == [last] by {
      assert [last][..0] == [];
    }
    if k > 0 && k % width == 0 {
      assert Rendered(letters, width, true) == front + ("\n" + [last]);
      UnlinedConcat(front, "\n" + [last]);
      assert Unlined("\n" + [last]) == [last] by {
        assert ("\n" + [last])[..1] == "\n";
        assert Unlined("\n") == [] by {
          assert "\n"[..0] == [];
        }
      }
    } else {
      assert Rendered(letters, width, true) == front + [last];
      UnlinedConcat(front, [last]);
    }
  }

  /** Rendering one more letter: the separator before it, then the letter. */
  lemma RenderedNext(letters: seq<char>, width: int, lineByLine: bool, i: int)
    requires width >= 1 && 0 <= i < |letters|
    ensures Rendered(letters[..i + 1], width, lineByLine)
            == Rendered(letters[..i], width, lineByLine)
               + (if lineByLine && i > 0 && i % width == 0 then "\n" else "") + [letters[i]]
  {
    assert letters[..i + 1][..i] == letters[..i];
  }

  lemma SnocWhole<T>(s: seq<T>)
    requires |s| > 0
    ensures s[..|s| - 1] + [s[|s| - 1]] == s
  {
  }

  /** Dropping the newlines of two texts one after the other. */
  lemma {:induction false} UnlinedConcat(a: string, b: string)
    ensures Unlined(a + b) == Unlined(a) + Unlined(b)
    decreases |b|
  {
    if |b| == 0 {
      assert a + b == a;
    } else {
      var k := |b| - 1;
      UnlinedConcat(a, b[..k]);
      assert (a + b)[..|a + b| - 1] == a + b[..k];
    }
  }

  /** Moving on by one cell starts a new row exactly when the row index goes up. */
  lemma RowStep(k: int, width: int)
    requires k >= 1 && width >= 1
    ensures k % width == 0 ==> k / width == (k - 1) / width + 1
    ensures k % width != 0 ==> k / width == (k - 1) / width
  {
    var q, m := (k - 1) / width, (k - 1) % width;
    assert k - 1 == q * width + m;
    if m + 1 < width {
      DivUnique(k, width, q, m + 1);
    } else {
      assert k == (q + 1) * width + 0;
      DivUnique(k, width, q + 1, 0);
    }
  }

  /** Line by line, n letters in rows of `width` take n - 1 over width newlines. */
  lemma {:induction false} RenderedLength(letters: seq<char>, width: int)
    requires width >= 1 && |letters| >= 1
    ensures |Rendered(letters, width, true)| == |letters| + (|letters| - 1) / width
    decreases |letters|
  {
    var k := |letters| - 1;
    if k > 0 {
      RenderedLength(letters[..k], width);
      RowStep(k, width);
    }
  }
}
