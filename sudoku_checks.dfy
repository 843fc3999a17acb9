// The construction-time checks of the Sudoku engine: the block partition check and
// the duplicate scan of validate() / isSafe(), both as written and as intended.

module SudokuChecks {
  import opened SudokuCodec
  import opened SudokuGrid

  /** What validate() reports: the kind of group, its index and the repeated value. */
  datatype Conflict = Conflict(group: Group, index: int, value: int)

  /** The reported value sits in two distinct cells of the reported group. */
  predicate Repeated(rank: int, blocks: seq<int>, state: seq<int>, c: Conflict)
  {
    c.value != 0
    && exists p, q :: 0 <= p < |state| && 0 <= q < |state| && p != q
         && InGroup(rank, blocks, c.group, c.index, p) && InGroup(rank, blocks, c.group, c.index, q)
         && state[p] == c.value && state[q] == c.value
  }

  /**
   * isBlockPartitionValid(): counts the cells of each block id in an accumulator and
   * accepts iff every id is in [1, rank] and each one occurs exactly rank times.
   */
  method IsBlockPartitionValid(rank: int, blocks: seq<int>) returns (valid: bool)
    requires 1 <= rank && |blocks| == rank * rank
    ensures valid <==> PartitionValid(rank, blocks)
  {
    var accumulator := new int[1 + rank](_ => 0);
    var i := 0;
    while i < rank * rank
      invariant 0 <= i <= rank * rank
      invariant IdsInRange(rank, blocks[..i])
      invariant forall b :: 0 <= b <= rank ==> accumulator[b] == multiset(blocks[..i])[b]
    {
      var index := blocks[i];
      if index <= 0 || index > rank {
        assert !IdsInRange(rank, blocks);
        return false;
      }
      assert blocks[..i + 1] == blocks[..i] + [index];
      accumulator[index] := accumulator[index] + 1;
      i := i + 1;
    }
    assert blocks[..i] == blocks;
    var b := 1;
    while b <= rank
      invariant 1 <= b <= rank + 1
      invariant forall b' :: 1 <= b' < b ==> multiset(blocks)[b'] == rank
    {
      if accumulator[b] != rank {
        return false;
      }
      b := b + 1;
    }
    return true;
  }

  /** Cells j1 < j2 below `upto` on line i never repeat a nonzero value. */
  predicate LinePrefixClean(rank: int, state: seq<int>, horizontal: bool, i: int, upto: int)
    requires 0 <= i < rank && upto <= rank && |state| == rank * rank
  {
    forall j1, j2 :: 0 <= j1 < j2 < upto && state[LineCell(rank, horizontal, i, j1)] != 0
      ==> state[LineCell(rank, horizontal, i, j1)] != state[LineCell(rank, horizontal, i, j2)]
  }

  /** Cells p < q below `upto` of block b never repeat a nonzero value. */
  predicate BlockPrefixClean(blocks: seq<int>, state: seq<int>, b: int, upto: int)
    requires upto <= |blocks| && upto <= |state|
  {
    forall p, q :: 0 <= p < q < upto && blocks[p] == b && blocks[q] == b && state[p] != 0
      ==> state[p] != state[q]
  }

  /** Every line of one direction clean makes that group kind clean. */
  lemma LinesClean(rank: int, blocks: seq<int>, state: seq<int>, horizontal: bool)
    requires 0 < rank && |blocks| == rank * rank && |state| == rank * rank
    requires forall i :: 0 <= i < rank ==> LinePrefixClean(rank, state, horizontal, i, rank)
    ensures Clean(rank, blocks, state, LineGroup(horizontal))
  {
    forall p, q | 0 <= p < q < |state| && SameGroup(rank, blocks, LineGroup(horizontal), p, q)
      && state[p] != 0
      ensures state[p] != state[q]
    {
      PositionOnLine(rank, horizontal, p);
      PositionOnLine(rank, horizontal, q);
      var i := LineOf(rank, horizontal, p);
      var j1, j2 := AlongLine(rank, horizontal, p), AlongLine(rank, horizontal, q);
      assert LineOf(rank, horizontal, q) == i;
      assert LinePrefixClean(rank, state, horizontal, i, rank);
      if j1 < j2 {
        assert state[LineCell(rank, horizontal, i, j1)] != state[LineCell(rank, horizontal, i, j2)];
      } else if j2 < j1 {
        assert state[LineCell(rank, horizontal, i, j2)] == 0
          || state[LineCell(rank, horizontal, i, j2)] != state[LineCell(rank, horizontal, i, j1)];
      }
    }
  }

  /** Every block clean makes the block kind clean. */
  lemma BlocksClean(rank: int, blocks: seq<int>, state: seq<int>)
    requires |blocks| == |state| && IdsInRange(rank, blocks)
    requires forall b :: 1 <= b <= rank ==> BlockPrefixClean(blocks, state, b, |state|)
    ensures Clean(rank, blocks, state, Block)
  {
    forall p, q | 0 <= p < q < |state| && SameGroup(rank, blocks, Block, p, q) && state[p] != 0
      ensures state[p] != state[q]
    {
      assert BlockPrefixClean(blocks, state, blocks[p], |state|);
    }
  }

  /** The scan of one line, flags indexed by value: returns a repeated value or 0. */
  method ScanLine(rank: int, state: seq<int>, horizontal: bool, i: int) returns (repeated: int)
    requires 1 <= rank <= RankMax && |state| == rank * rank && 0 <= i < rank
    requires forall p :: 0 <= p < |state| ==> 0 <= state[p] <= rank
    ensures repeated == 0 <==> LinePrefixClean(rank, state, horizontal, i, rank)
    ensures repeated != 0 ==>
      exists j1, j2 :: 0 <= j1 < j2 < rank
        && state[LineCell(rank, horizontal, i, j1)] == repeated
        && state[LineCell(rank, horizontal, i, j2)] == repeated
  {
    var flags := seq(RankMax + 1, _ => false);
    var j := 0;
    while j < rank
      invariant 0 <= j <= rank && |flags| == RankMax + 1
      invariant LinePrefixClean(rank, state, horizontal, i, j)
      invariant forall v :: 1 <= v <= RankMax ==>
        (flags[v] <==> exists j' :: 0 <= j' < j && state[LineCell(rank, horizontal, i, j')] == v)
    {
      var number := state[LineCell(rank, horizontal, i, j)];
      if number != 0 {
        if !flags[number] {
          flags := flags[number := true];
        } else {
          var j' :| 0 <= j' < j && state[LineCell(rank, horizontal, i, j')] == number;
          assert !LinePrefixClean(rank, state, horizontal, i, rank) by {
            assert state[LineCell(rank, horizontal, i, j')] != 0;
          }
          return number;
        }
      }
      j := j + 1;
    }
    return 0;
  }

  /** The scan of one block over all positions in order, flags indexed by value. */
  method ScanBlock(rank: int, blocks: seq<int>, state: seq<int>, b: int) returns (repeated: int)
    requires |blocks| == |state| && forall p :: 0 <= p < |state| ==> 0 <= state[p] <= RankMax
    ensures repeated == 0 <==> BlockPrefixClean(blocks, state, b, |state|)
    ensures repeated != 0 ==>
      exists p, q :: 0 <= p < q < |state| && blocks[p] == b
        && blocks[q] == b && state[p] == repeated && state[q] == repeated
  {
    var flags := seq(RankMax + 1, _ => false);
    var position := 0;
    while position < |state|
      invariant 0 <= position <= |state| && |flags| == RankMax + 1
      invariant BlockPrefixClean(blocks, state, b, position)
      invariant forall v :: 1 <= v <= RankMax ==>
        (flags[v] <==> exists p :: 0 <= p < position && blocks[p] == b && state[p] == v)
    {
      if blocks[position] == b {
        var number := state[position];
        if number != 0 {
          if !flags[number] {
            flags := flags[number := true];
          } else {
            var p :| 0 <= p < position && blocks[p] == b && state[p] == number;
            assert !BlockPrefixClean(blocks, state, b, |state|) by {
              assert state[p] != 0 && state[p] == state[position];
            }
            return number;
          }
        }
      }
      position := position + 1;
    }
    return 0;
  }

  /** The rows (or the columns) in order, stopping at the first line that repeats a value. */
  method ScanLines(rank: int, blocks: seq<int>, state: seq<int>, horizontal: bool)
    returns (found: Option<Conflict>)
    requires Shaped(rank, blocks, state)
    ensures found.None? <==> Clean(rank, blocks, state, LineGroup(horizontal))
    ensures found.Some? ==>
      found.value.group == LineGroup(horizontal) && Repeated(rank, blocks, state, found.value)
  {
    var i := 0;
    while i < rank
      invariant 0 <= i <= rank
      invariant forall i' :: 0 <= i' < i ==> LinePrefixClean(rank, state, horizontal, i', rank)
    {
      var repeated := ScanLine(rank, state, horizontal, i);
      if repeated != 0 {
        var j1, j2 :| 0 <= j1 < j2 < rank && state[LineCell(rank, horizontal, i, j1)] == repeated
          && state[LineCell(rank, horizontal, i, j2)] == repeated;
        var p, q := LineCell(rank, horizontal, i, j1), LineCell(rank, horizontal, i, j2);
        assert InGroup(rank, blocks, LineGroup(horizontal), i, p);
        assert InGroup(rank, blocks, LineGroup(horizontal), i, q);
        assert p != q && SameGroup(rank, blocks, LineGroup(horizontal), p, q);
        assert !Clean(rank, blocks, state, LineGroup(horizontal)) by {
          if p < q {
            assert state[p] != 0 && state[p] == state[q];
          } else {
            assert SameGroup(rank, blocks, LineGroup(horizontal), q, p);
            assert state[q] != 0 && state[q] == state[p];
          }
        }
        return Some(Conflict(LineGroup(horizontal), i, repeated));
      }
      i := i + 1;
    }
    LinesClean(rank, blocks, state, horizontal);
    return None;
  }

  /** The blocks 1..rank in order, stopping at the first block that repeats a value. */
  method ScanBlocks(rank: int, blocks: seq<int>, state: seq<int>) returns (found: Option<Conflict>)
    requires Shaped(rank, blocks, state)
    ensures found.None? <==> Clean(rank, blocks, state, Block)
    ensures found.Some? ==> found.value.group == Block && Repeated(rank, blocks, state, found.value)
  {
    var b := 1;
    while b <= rank
      invariant 1 <= b <= rank + 1
      invariant forall b' :: 1 <= b' < b ==> BlockPrefixClean(blocks, state, b', |state|)
    {
      var repeated := ScanBlock(rank, blocks, state, b);
      if repeated != 0 {
        var p, q :| 0 <= p < q < |state| && blocks[p] == b && blocks[q] == b
          && state[p] == repeated && state[q] == repeated;
        assert InGroup(rank, blocks, Block, b, p) && InGroup(rank, blocks, Block, b, q);
        assert !Clean(rank, blocks, state, Block) by {
          assert SameGroup(rank, blocks, Block, p, q) && state[p] != 0;
        }
        return Some(Conflict(Block, b, repeated));
      }
      b := b + 1;
    }
    BlocksClean(rank, blocks, state);
    return None;
  }

  /**
   * validate() as evidently intended (and the global isSafe() scan): rows, then
   * columns, then blocks; reports a repeated value iff some group repeats one.
   */
  method Validate(rank: int, blocks: seq<int>, state: seq<int>) returns (found: Option<Conflict>)
    requires Shaped(rank, blocks, state)
    ensures found.None? <==> NoConflict(rank, blocks, state)
    ensures found.Some? ==> Repeated(rank, blocks, state, found.value)
  {
    found := ScanLines(rank, blocks, state, true);
    if found.Some? {
      return;
    }
    found := ScanLines(rank, blocks, state, false);
    if found.Some? {
      return;
    }
    found := ScanBlocks(rank, blocks, state);
  }

  /**
   * The row or column scan as written: the flag is indexed by the cell's place in the
   * line, which no cell of the line shares, so it never reports anything.
   */
  method ScanLineAsWritten(rank: int, state: seq<int>, horizontal: bool, i: int) returns (repeated: int)
    requires 1 <= rank <= RankMax && |state| == rank * rank && 0 <= i < rank
    ensures repeated == 0
  {
    var flags := seq(RankMax, _ => false);
    var j := 0;
    while j < rank
      invariant 0 <= j <= rank && |flags| == RankMax
      invariant forall j' :: j <= j' < RankMax ==> !flags[j']
    {
      var number := state[LineCell(rank, horizontal, i, j)];
      if number != 0 {
        if !flags[j] {
          flags := flags[j := true];
        } else {
          return number;
        }
      }
      j := j + 1;
    }
    return 0;
  }

  /**
   * validate() and the global isSafe() as written: only a repeated value inside a
   * block is ever reported; a row or column repeat goes through.
   */
  method ValidateAsWritten(rank: int, blocks: seq<int>, state: seq<int>) returns (found: Option<Conflict>)
    requires Shaped(rank, blocks, state)
    ensures found.None? <==> Clean(rank, blocks, state, Block)
    ensures found.Some? ==> found.value.group == Block && Repeated(rank, blocks, state, found.value)
  {
    var i := 0;
    while i < rank
      invariant 0 <= i <= rank
    {
      var repeated := ScanLineAsWritten(rank, state, true, i);
      i := i + 1;
    }
    i := 0;
    while i < rank
      invariant 0 <= i <= rank
    {
      var repeated := ScanLineAsWritten(rank, state, false, i);
      i := i + 1;
    }
    found := ScanBlocks(rank, blocks, state);
  }

  /** A regular 4 x 4 partition into 2 x 2 blocks. */
  function Blocks4(): seq<int>
  {
    [1, 1, 2, 2] + [1, 1, 2, 2] + [3, 3, 4, 4] + [3, 3, 4, 4]
  }

  /** Row 0 holds 1 twice, in two different blocks and two different columns. */
  function RowRepeat4(): seq<int>
  {
    [1, 0, 0, 1, 0, 0, 0, 0, 0, 0, 0, 0, 0, 0, 0, 0]
  }

  lemma Blocks4Counts()
    ensures forall b :: 1 <= b <= 4 ==> multiset(Blocks4())[b] == 4
  {
    var top, bottom := [1, 1, 2, 2], [3, 3, 4, 4];
    assert multiset(top)[1] == 2 && multiset(top)[2] == 2 && multiset(top)[3] == 0 && multiset(top)[4] == 0;
    assert multiset(bottom)[1] == 0 && multiset(bottom)[2] == 0 && multiset(bottom)[3] == 2 && multiset(bottom)[4] == 2;
    assert multiset(Blocks4()) == multiset(top) + multiset(top) + multiset(bottom) + multiset(bottom);
  }

  lemma Blocks4Valid()
    ensures PartitionValid(4, Blocks4())
  {
    Blocks4Counts();
    assert IdsInRange(4, Blocks4());
  }

  /**
   * The input that shows the flaw: a valid partition and a state whose first row
   * repeats 1 while every block is clean, so the scan as written accepts a state
   * the intended scan rejects.
   */
  lemma RowRepeatGoesThrough()
    ensures PartitionValid(4, Blocks4()) && Shaped(4, Blocks4(), RowRepeat4())
    ensures Clean(4, Blocks4(), RowRepeat4(), Block)
    ensures !NoConflict(4, Blocks4(), RowRepeat4())
  {
    Blocks4Valid();
    var blocks, state := Blocks4(), RowRepeat4();
    assert SameGroup(4, blocks, Row, 0, 3) && state[0] != 0 && state[0] == state[3];
    forall p, q | 0 <= p < q < |state| && SameGroup(4, blocks, Block, p, q) && state[p] != 0
      ensures state[p] != state[q]
    {
      assert p == 0 || p == 3;
    }
  }
}
