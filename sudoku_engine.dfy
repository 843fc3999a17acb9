// The candidate-propagation engine (Sudoku.cpp, Sudoku.h): a Sudoku object keeps its field,
// the block map, the candidates of every blank cell and the blank cells of every block, and
// updates them in place as numbers are placed and candidates are crossed out.

module SudokuEngine {
  import opened SudokuCodec
  import opened SudokuGrid
  import opened SudokuChecks
  import opened SudokuState
  import opened SudokuRules
  import opened SudokuPatterns

  /** Why construction fails (the exceptions of the constructor). */
  datatype Rejection = InvalidRank | InvalidPartition | Duplicate(conflict: Conflict)

  datatype Construction = Built(sudoku: Sudoku) | Rejected(reason: Rejection)

  /** A deduced step: write `number` into the cell at `position`. */
  datatype Placement = Placement(position: int, number: int)

  /** The cell values after writing each step's number into its cell, in order. */
  function Written(values: seq<int>, steps: seq<Placement>): (r: seq<int>)
    requires forall i :: 0 <= i < |steps| ==> 0 <= steps[i].position < |values|
    ensures |r| == |values|
    decreases |steps|
  {
    if |steps| == 0 then values
    else
      var k := |steps| - 1;
      Written(values, steps[..k])[steps[k].position := steps[k].number]
  }

  /**
   * Steps that all agree with one grid t leave each step's number in its cell and every other
   * cell as it was.
   */
  lemma {:induction false} WrittenCells(values: seq<int>, steps: seq<Placement>, t: seq<int>)
    requires |t| == |values|
    requires forall i :: 0 <= i < |steps| ==> 0 <= steps[i].position < |values| && t[steps[i].position] == steps[i].number
    ensures forall i :: 0 <= i < |steps| ==> Written(values, steps)[steps[i].position] == steps[i].number
    ensures forall p :: 0 <= p < |values| && (forall i :: 0 <= i < |steps| ==> steps[i].position != p) ==>
              Written(values, steps)[p] == values[p]
    decreases |steps|
  {
    if |steps| > 0 {
      var k := |steps| - 1;
      WrittenCells(values, steps[..k], t);
      forall p | 0 <= p < |values| && (forall i :: 0 <= i < |steps| ==> steps[i].position != p)
        ensures Written(values, steps)[p] == values[p]
      {
        assert forall i :: 0 <= i < k ==> steps[..k][i] == steps[i];
      }
      forall i | 0 <= i < k
        ensures Written(values, steps)[steps[i].position] == steps[i].number
      {
        assert steps[..k][i] == steps[i];
      }
    }
  }

  /**
   * A pass of findHiddenSingle over the groups of kind g, finished with the groups below `done`:
   * the steps it started from are kept, every step it added is a hidden single of its group,
   * and every hidden single of a finished group is listed.
   */
  ghost predicate Gathered(rank: int, blocks: seq<int>, cands: map<int, seq<int>>, g: Group,
                           steps: seq<Placement>, more: seq<Placement>, done: int)
  {
    |steps| <= |more| && more[..|steps|] == steps
    && (forall k :: |steps| <= k < |more| ==> HiddenSingleIn(rank, blocks, cands, g, more[k].position, more[k].number))
    && (forall p, n, i :: i < done && InGroup(rank, blocks, g, i, p) && HiddenSingleIn(rank, blocks, cands, g, p, n) ==>
          Placement(p, n) in more)
  }

  /** Before any group is done, nothing has been gathered yet. */
  lemma GatheredNone(rank: int, blocks: seq<int>, cands: map<int, seq<int>>, g: Group, steps: seq<Placement>)
    requires g == Row || g == Column
    ensures Gathered(rank, blocks, cands, g, steps, steps, 0)
  {
    assert steps[..|steps|] == steps;
  }

  /** Once every row (or every column) is done, every hidden single of that kind has been gathered. */
  lemma GatheredAll(rank: int, blocks: seq<int>, cands: map<int, seq<int>>, g: Group,
                    steps: seq<Placement>, more: seq<Placement>)
    requires 0 < rank && |blocks| == rank * rank && (g == Row || g == Column)
    requires forall q :: q in cands ==> 0 <= q < rank * rank
    requires Gathered(rank, blocks, cands, g, steps, more, rank)
    ensures forall p, n :: HiddenSingleIn(rank, blocks, cands, g, p, n) ==> Placement(p, n) in more
  {
    forall p, n | HiddenSingleIn(rank, blocks, cands, g, p, n)
      ensures Placement(p, n) in more
    {
      PositionCoordinates(rank, p);
      assert InGroup(rank, blocks, g, if g == Row then p / rank else p % rank, p);
    }
  }

  /** Adding the hidden singles `found` of group `done` finishes that group too. */
  lemma GatheredStep(rank: int, blocks: seq<int>, cands: map<int, seq<int>>, g: Group,
                     steps: seq<Placement>, more: seq<Placement>, found: seq<Placement>, done: int)
    requires Gathered(rank, blocks, cands, g, steps, more, done)
    requires forall k :: 0 <= k < |found| ==> HiddenSingleIn(rank, blocks, cands, g, found[k].position, found[k].number)
    requires forall p, n :: InGroup(rank, blocks, g, done, p) && HiddenSingleIn(rank, blocks, cands, g, p, n) ==>
               Placement(p, n) in found
    ensures Gathered(rank, blocks, cands, g, steps, more + found, done + 1)
  {
    var more' := more + found;
    assert more'[..|steps|] == steps by {
      assert more'[..|more|] == more;
    }
    forall k | |steps| <= k < |more'|
      ensures HiddenSingleIn(rank, blocks, cands, g, more'[k].position, more'[k].number)
    {
      if k >= |more| {
        assert more'[k] == found[k - |more|];
      }
    }
    forall p, n, i | i < done + 1 && InGroup(rank, blocks, g, i, p) && HiddenSingleIn(rank, blocks, cands, g, p, n)
      ensures Placement(p, n) in more'
    {
      if i < done {
        assert Placement(p, n) in more;
      } else {
        assert Placement(p, n) in found;
      }
    }
  }

  /** The first construction loop may record clue `position` in the map. */
  lemma MapGains(rank: int, blocks: seq<int>, field: seq<int>, m: seq<int>, position: int, number: int)
    requires 0 <= position < |field| == |blocks| && field[position] == number != InvalidNumber
    requires Shaped(rank, blocks, field) && NoConflict(rank, blocks, field)
    requires MapMatches(rank, blocks, field[..position], m)
    ensures 1 <= blocks[position] <= rank && 1 <= number <= rank
    ensures m[MapIndex(rank, blocks[position], number)] == InvalidPosition
    ensures MapMatches(rank, blocks, field[..position + 1], m[MapIndex(rank, blocks[position], number) := position])
  {
    var b := blocks[position];
    var m1 := m[MapIndex(rank, b, number) := position];
    var q := m[MapIndex(rank, b, number)];
    assert MapEntry(blocks, field[..position], b, number, q);
    forall b', n' | 1 <= b' <= rank && 1 <= n' <= rank
      ensures MapEntry(blocks, field[..position + 1], b', n', m1[MapIndex(rank, b', n')])
    {
      assert MapEntry(blocks, field[..position], b', n', m[MapIndex(rank, b', n')]);
    }
  }

  /** The first construction loop may append blank cell `position` to its block's list. */
  lemma BlankBlockGains(rank: int, blocks: seq<int>, field: seq<int>, bb: seq<seq<int>>, position: int)
    requires 0 <= position < |field| == |blocks| && field[position] == InvalidNumber
    requires IdsInRange(rank, blocks)
    requires BlankBlocksMatch(rank, blocks, field[..position], bb)
    requires forall b, p :: 1 <= b <= rank && p in bb[b] ==> p < position
    ensures 1 <= blocks[position] <= rank
    ensures BlankBlocksMatch(rank, blocks, field[..position + 1], bb[blocks[position] := bb[blocks[position]] + [position]])
  {
    var b := blocks[position];
    var l := bb[b];
    assert forall i :: 0 <= i < |l| ==> l[i] in l;
  }

  /** Every hidden single found is forced: each solution still reachable places it. */
  lemma HiddenStepsForced(rank: int, blocks: seq<int>, field: seq<int>, cands: map<int, seq<int>>,
                          steps: seq<Placement>)
    requires Shaped(rank, blocks, field) && CandidatesMatch(rank, blocks, field, cands)
    requires forall i :: 0 <= i < |steps| ==> IsHiddenSingle(rank, blocks, cands, steps[i].position, steps[i].number)
    ensures forall s, i :: SoundState(rank, blocks, field, cands, s) && 0 <= i < |steps| ==>
              0 <= steps[i].position < |s| && s[steps[i].position] == steps[i].number
  {
    forall s, i | SoundState(rank, blocks, field, cands, s) && 0 <= i < |steps|
      ensures 0 <= steps[i].position < |s| && s[steps[i].position] == steps[i].number
    {
      HiddenSingleForced(rank, blocks, field, cands, s, steps[i].position, steps[i].number);
    }
  }

  /** When every one-candidate cell has its step and every step was written, those cells hold their candidate. */
  lemma StepsPlaced(c: map<int, seq<int>>, steps: seq<Placement>, field: seq<int>)
    requires forall p :: p in c && |c[p]| == 1 ==> Placement(p, c[p][0]) in steps
    requires forall i :: 0 <= i < |steps| ==> 0 <= steps[i].position < |field| && field[steps[i].position] == steps[i].number
    ensures forall p :: p in c && |c[p]| == 1 ==> field[p] == c[p][0]
  {
    forall p | p in c && |c[p]| == 1
      ensures field[p] == c[p][0]
    {
      var i :| 0 <= i < |steps| && steps[i] == Placement(p, c[p][0]);
    }
  }

  /** A trace of candidate counts that falls strictly, staying above zero after the first entry. */
  ghost predicate Falling(counts: seq<int>)
  {
    forall i, j :: 0 <= i < j < |counts| ==> 0 < counts[j] < counts[i]
  }

  /** The two scratch buffers of findHiddenSingle, one slot per number 0..RankMax. */
  predicate Buffers(positions: array<int>, histogram: array<int>)
  {
    positions != histogram && positions.Length == 1 + RankMax && histogram.Length == 1 + RankMax
  }

  /**
   * After counting over a group's cells, the numbers whose count is one are exactly the group's
   * hidden singles, each at the cell the positions buffer recorded.
   */
  lemma GroupSingles(rank: int, blocks: seq<int>, cands: map<int, seq<int>>, g: Group, i: int,
                     cells: seq<int>, histogram: seq<int>, positions: seq<int>, found: seq<Placement>)
    requires 0 < rank < |histogram| && rank < |positions|
    requires ListsGroup(rank, blocks, cands, g, i, cells)
    requires forall q, n :: q in cands && n in cands[q] ==> 1 <= n <= rank
    requires forall n :: 1 <= n <= rank ==>
               histogram[n] == Holders(cands, cells, n) && positions[n] == LastHolder(cands, cells, n)
    requires forall k :: 0 <= k < |found| ==>
               1 <= found[k].number <= rank && histogram[found[k].number] == 1
               && found[k].position == positions[found[k].number]
    requires forall n :: 1 <= n <= rank && histogram[n] == 1 ==> Placement(positions[n], n) in found
    ensures forall k :: 0 <= k < |found| ==> HiddenSingleIn(rank, blocks, cands, g, found[k].position, found[k].number)
    ensures forall p, n :: InGroup(rank, blocks, g, i, p) && HiddenSingleIn(rank, blocks, cands, g, p, n) ==>
              Placement(p, n) in found
  {
    forall k | 0 <= k < |found|
      ensures HiddenSingleIn(rank, blocks, cands, g, found[k].position, found[k].number)
    {
      var n := found[k].number;
      var j := OnlyHolder(cands, cells, n);
      CountedHiddenSingle(rank, blocks, cands, g, i, cells, n, cells[j]);
    }
    forall p, n | InGroup(rank, blocks, g, i, p) && HiddenSingleIn(rank, blocks, cands, g, p, n)
      ensures Placement(p, n) in found
    {
      CountedHiddenSingle(rank, blocks, cands, g, i, cells, n, p);
    }
  }

  class Sudoku {
    const rank: int
    const initialState: seq<int>
    const blockIndices: seq<int>
    /** Cell values in row-major order, InvalidNumber for a blank cell. */
    var field: seq<int>
    /** map[(b - 1) * rank + (n - 1)]: the cell of block b holding n, or InvalidPosition. */
    var blockMap: seq<int>
    /** The candidate numbers of every blank cell, keyed by position. */
    var blankCandidates: map<int, seq<int>>
    /** blankBlocks[b]: the blank cells of block b; slot 0 is unused. */
    var blankBlocks: seq<seq<int>>

    /** The bookkeeping matches the field, and the clues are still in place. */
    ghost predicate Valid()
      reads this
    {
      Consistent(rank, blockIndices, field, blockMap, blankCandidates, blankBlocks)
      && Agrees(initialState, field)
    }

    /** Solution s is still reachable from the current state. */
    ghost predicate Sound(s: seq<int>)
      reads this
    {
      SoundState(rank, blockIndices, field, blankCandidates, s)
    }

    /**
     * The constructor: parse state and partition, reject a bad rank, a bad partition or a
     * repeated clue, then build the block map, the blank lists and the candidate lists.
     */
    static method Create(rank: int, states: seq<char>, blocks: seq<char>, placeholder: char)
      returns (result: Construction)
      requires placeholder == '0' || IsBlankMark(placeholder)
      requires rank * rank <= |states| && rank * rank <= |blocks|
      requires AllReadable(states[..rank * rank], placeholder != '0')
      requires AllReadable(blocks[..rank * rank], placeholder != '0')
      requires 1 <= rank <= RankMax ==>
                 forall i :: 0 <= i < rank * rank ==> CellValue(states[i], placeholder != '0') <= rank
      ensures var initial := Decoded(states[..rank * rank], placeholder != '0');
              var ids := Decoded(blocks[..rank * rank], placeholder != '0');
              match result
              case Rejected(InvalidRank) => !(1 <= rank <= RankMax)
              case Rejected(InvalidPartition) => 1 <= rank <= RankMax && !PartitionValid(rank, ids)
              case Rejected(Duplicate(c)) =>
                1 <= rank <= RankMax && PartitionValid(rank, ids)
                && !NoConflict(rank, ids, initial) && Repeated(rank, ids, initial, c)
              case Built(sudoku) =>
                1 <= rank <= RankMax && PartitionValid(rank, ids) && NoConflict(rank, ids, initial)
                && fresh(sudoku) && sudoku.Valid() && sudoku.rank == rank
                && sudoku.blockIndices == ids && sudoku.initialState == initial && sudoku.field == initial
                && (forall s :: Solution(rank, ids, s) && Agrees(initial, s) ==> sudoku.Sound(s))
    {
      var marks := placeholder != '0';
      var initial := Parse(states, rank * rank, marks);
      var ids := Parse(blocks, rank * rank, marks);
      if rank <= 0 || rank > RankMax {
        return Rejected(InvalidRank);
      }
      var valid := IsBlockPartitionValid(rank, ids);
      if !valid {
        return Rejected(InvalidPartition);
      }
      var found := Validate(rank, ids, initial);
      if found.Some? {
        return Rejected(Duplicate(found.value));
      }
      var sudoku := new Sudoku.Init(rank, initial, ids);
      return Built(sudoku);
    }

    /** The constructor once the checks have passed. */
    constructor Init(rank: int, initial: seq<int>, blocks: seq<int>)
      requires Shaped(rank, blocks, initial) && PartitionValid(rank, blocks) && NoConflict(rank, blocks, initial)
      ensures this.rank == rank && initialState == initial && blockIndices == blocks && field == initial
      ensures Valid()
      ensures forall p :: p in blankCandidates ==> blankCandidates[p] == AbsentNumbers(rank, blocks, initial, p, rank)
      ensures forall s :: Solution(rank, blocks, s) && Agrees(initial, s) ==> Sound(s)
    {
      this.rank := rank;
      initialState := initial;
      blockIndices := blocks;
      field := initial;
      blockMap := seq(rank * rank, _ => InvalidPosition);
      blankCandidates := map[];
      blankBlocks := seq(rank + 1, _ => []);
      new;
      IndexClues();
      CollectCandidates();
      forall s | Solution(rank, blocks, s) && Agrees(initial, s)
        ensures Sound(s)
      {
        forall p | p in blankCandidates
          ensures s[p] in blankCandidates[p]
        {
          SolutionValueAbsent(rank, blocks, field, s, p);
        }
      }
    }

    /** The first construction loop: record every clue in the map and every blank cell in its block's list. */
    method IndexClues()
      requires Shaped(rank, blockIndices, field) && NoConflict(rank, blockIndices, field)
      requires blockMap == seq(rank * rank, _ => InvalidPosition) && blankBlocks == seq(rank + 1, _ => [])
      modifies this
      ensures field == old(field) && blankCandidates == old(blankCandidates) && |blockMap| == rank * rank
      ensures MapMatches(rank, blockIndices, field, blockMap)
      ensures BlankBlocksMatch(rank, blockIndices, field, blankBlocks)
    {
      var position := 0;
      while position < rank * rank
        invariant 0 <= position <= rank * rank
        invariant field == old(field) && blankCandidates == old(blankCandidates) && |blockMap| == rank * rank
        invariant MapMatches(rank, blockIndices, field[..position], blockMap)
        invariant BlankBlocksMatch(rank, blockIndices, field[..position], blankBlocks)
        invariant forall b, p :: 1 <= b <= rank && p in blankBlocks[b] ==> p < position
      {
        var number := field[position];
        var blockIndex := blockIndices[position];
        if number != InvalidNumber {
          MapGains(rank, blockIndices, field, blockMap, position, number);
          SetMapPosition(blockIndex, number, position);
        } else {
          BlankBlockGains(rank, blockIndices, field, blankBlocks, position);
          blankBlocks := blankBlocks[blockIndex := blankBlocks[blockIndex] + [position]];
        }
        position := position + 1;
      }
      assert field[..position] == field;
    }

    /** The second construction loop: give every blank cell the numbers absent around it. */
    method CollectCandidates()
      requires Shaped(rank, blockIndices, field) && MapMatches(rank, blockIndices, field, blockMap)
      requires blankCandidates == map[]
      modifies this
      ensures field == old(field) && blockMap == old(blockMap) && blankBlocks == old(blankBlocks)
      ensures forall p :: p in blankCandidates <==> 0 <= p < |field| && field[p] == InvalidNumber
      ensures forall p :: p in blankCandidates ==>
                blankCandidates[p] == AbsentNumbers(rank, blockIndices, field, p, rank)
    {
      var position := 0;
      while position < rank * rank
        invariant 0 <= position <= rank * rank
        invariant field == old(field) && blockMap == old(blockMap) && blankBlocks == old(blankBlocks)
        invariant forall p :: p in blankCandidates <==> 0 <= p < position && field[p] == InvalidNumber
        invariant forall p :: p in blankCandidates ==>
                    blankCandidates[p] == AbsentNumbers(rank, blockIndices, field, p, rank)
      {
        if field[position] != InvalidNumber {
          position := position + 1;
          continue;
        }
        var candidates := Candidates(position);
        blankCandidates := blankCandidates[position := candidates];
        position := position + 1;
      }
    }

    /** The candidates of a blank cell: the numbers 1..rank that isSafe accepts, in ascending order. */
    method Candidates(position: int) returns (candidates: seq<int>)
      requires Shaped(rank, blockIndices, field) && MapMatches(rank, blockIndices, field, blockMap)
      requires 0 <= position < rank * rank && field[position] == InvalidNumber
      ensures candidates == AbsentNumbers(rank, blockIndices, field, position, rank)
    {
      candidates := [];
      var n := 1;
      while n <= rank
        invariant 1 <= n <= rank + 1
        invariant candidates == AbsentNumbers(rank, blockIndices, field, position, n - 1)
      {
        candidates := AddIfSafe(position, n, candidates);
        n := n + 1;
      }
    }

    /** One round of the candidate loop: n joins the list when isSafe accepts it. */
    method AddIfSafe(position: int, n: int, candidates: seq<int>) returns (next: seq<int>)
      requires Shaped(rank, blockIndices, field) && MapMatches(rank, blockIndices, field, blockMap)
      requires 0 <= position < rank * rank && field[position] == InvalidNumber && 1 <= n <= rank
      requires candidates == AbsentNumbers(rank, blockIndices, field, position, n - 1)
      ensures next == AbsentNumbers(rank, blockIndices, field, position, n)
    {
      var safe := IsSafe(position, n);
      AbsentNumbersNext(rank, blockIndices, field, position, n);
      next := if safe then candidates + [n] else candidates;
    }

    /** getMapPosition: the cell of block b holding n, or InvalidPosition when b lacks n. */
    function GetMapPosition(blockIndex: int, number: int): (q: int)
      reads this
      requires 1 <= blockIndex <= rank && 1 <= number <= rank && |blockMap| == rank * rank
      ensures MapMatches(rank, blockIndices, field, blockMap) && |blockIndices| == |field| ==>
                (q == InvalidPosition <==> Unplaced(rank, blockIndices, field, Block, blockIndex, number))
                && (q != InvalidPosition ==>
                      0 <= q < |field| && blockIndices[q] == blockIndex && field[q] == number)
    {
      assert MapMatches(rank, blockIndices, field, blockMap) ==>
        MapEntry(blockIndices, field, blockIndex, number, blockMap[MapIndex(rank, blockIndex, number)]);
      blockMap[MapIndex(rank, blockIndex, number)]
    }

    /** setMapPosition: record that block b holds n at `position`. */
    method SetMapPosition(blockIndex: int, number: int, position: int)
      requires 1 <= blockIndex <= rank && 1 <= number <= rank && 0 <= position < rank * rank
      requires |blockMap| == rank * rank
      modifies this
      ensures blockMap == old(blockMap)[MapIndex(rank, blockIndex, number) := position]
      ensures field == old(field) && blankCandidates == old(blankCandidates) && blankBlocks == old(blankBlocks)
    {
      blockMap := blockMap[MapIndex(rank, blockIndex, number) := position];
    }

    /** getNumber(position): InvalidNumber exactly for the blank cells. */
    function GetNumber(position: int): (v: int)
      reads this
      requires 0 <= position < |field|
      ensures Valid() ==> 0 <= v <= rank && (v == InvalidNumber <==> position in blankCandidates)
    {
      field[position]
    }

    /** getNumber(row, column). */
    function GetNumberAt(row: int, column: int): (v: int)
      reads this
      requires 0 <= row < rank && 0 <= column < rank && |field| == rank * rank
      ensures Valid() ==> 0 <= v <= rank && (v == InvalidNumber <==> CellAt(rank, row, column) in blankCandidates)
    {
      GetNumber(CellAt(rank, row, column))
    }

    /**
     * isSafe(position, number): the cell is blank, its row and column lack the number and the
     * map shows its block lacks it; with a matching map, exactly when n is absent around p.
     */
    method IsSafe(position: int, number: int) returns (safe: bool)
      requires Shaped(rank, blockIndices, field) && |blockMap| == rank * rank
      requires 0 <= position < rank * rank && 1 <= number <= rank
      ensures MapMatches(rank, blockIndices, field, blockMap) ==>
                (safe <==> field[position] == InvalidNumber && Absent(rank, blockIndices, field, position, number))
    {
      if field[position] != InvalidNumber {
        return false;
      }
      AbsentByParts(rank, blockIndices, field, position, number);
      safe := RowLacks(position, number);
      if !safe {
        return;
      }
      safe := ColumnLacks(position, number);
      if !safe {
        return;
      }
      var blockIndex := blockIndices[position];
      safe := GetMapPosition(blockIndex, number) == InvalidPosition;
    }

    /** The row loop of isSafe: no cell of the row of `position` holds `number`. */
    method RowLacks(position: int, number: int) returns (clear: bool)
      requires 0 < rank && |field| == rank * rank && 0 <= position < rank * rank
      ensures clear <==> forall c :: 0 <= c < rank ==> field[CellAt(rank, RowOf(rank, position), c)] != number
    {
      PositionCoordinates(rank, position);
      var row := RowOf(rank, position);
      var p := position / rank * rank;
      var end := p + rank;
      RowCells(rank, row);
      ghost var start := p;
      ghost var c := 0;
      while p < end
        invariant 0 <= c <= rank && p == start + c && end == start + rank
        invariant forall c' :: 0 <= c' < rank ==> CellAt(rank, row, c') == start + c'
        invariant forall c' :: 0 <= c' < c ==> field[CellAt(rank, row, c')] != number
      {
        assert p == CellAt(rank, row, c);
        if field[p] == number {
          return false;
        }
        p, c := p + 1, c + 1;
      }
      return true;
    }

    /** The column loop of isSafe: no cell of the column of `position` holds `number`. */
    method ColumnLacks(position: int, number: int) returns (clear: bool)
      requires 0 < rank && |field| == rank * rank && 0 <= position < rank * rank
      ensures clear <==> forall r :: 0 <= r < rank ==> field[CellAt(rank, r, ColumnOf(rank, position))] != number
    {
      PositionCoordinates(rank, position);
      var column := ColumnOf(rank, position);
      var p := position % rank;
      var end := rank * rank;
      ghost var r := 0;
      ColumnWalk(rank, r, column);
      while p < end
        invariant 0 <= r <= rank && p == r * rank + column
        invariant p < end <==> r < rank
        invariant forall r' :: 0 <= r' < r ==> field[CellAt(rank, r', column)] != number
        decreases rank - r
      {
        if field[p] == number {
          assert field[CellAt(rank, r, column)] == number;
          return false;
        }
        ColumnStep(rank, r, column);
        p, r := p + rank, r + 1;
        ColumnWalk(rank, r, column);
      }
      return true;
    }

    /** removeCandidate: cross n out of the candidates of blank cell `position`. */
    method RemoveCandidate(position: int, number: int) returns (removed: bool)
      requires 0 <= position < rank * rank && 0 < number <= rank
      requires position in blankCandidates
      modifies this
      ensures removed <==> number in old(blankCandidates[position])
      ensures blankCandidates == old(blankCandidates)[position := Without(old(blankCandidates[position]), number)]
      ensures field == old(field) && blockMap == old(blockMap) && blankBlocks == old(blankBlocks)
    {
      var rest;
      rest, removed := RemoveElement(blankCandidates[position], number);
      blankCandidates := blankCandidates[position := rest];
    }

    /**
     * setNumber(position, number): write a number into a blank cell (the field must stay free
     * of conflicts), then propagate it.
     */
    method SetNumber(position: int, number: int)
      requires Valid() && 0 <= position < rank * rank && 0 < number <= rank
      requires field[position] == InvalidNumber
      requires NoConflict(rank, blockIndices, field[position := number])
      modifies this
      ensures field == old(field)[position := number]
      ensures blankCandidates == AfterPlacing(rank, blockIndices, old(blankCandidates), position, number)
      ensures blankBlocks == old(blankBlocks)[blockIndices[position] :=
                Without(old(blankBlocks)[blockIndices[position]], position)]
      ensures 1 <= blockIndices[position] <= rank
      ensures blockMap == old(blockMap)[MapIndex(rank, blockIndices[position], number) := position]
      ensures Valid()
      ensures forall s :: old(Sound(s)) && s[position] == number ==> Sound(s)
    {
      field := field[position := number];
      assert field[position := InvalidNumber] == old(field);
      PlacingConsistent(rank, blockIndices, field, blockMap, blankCandidates, blankBlocks, position, number);
      assert BlankKeys(position);
      UpdateNumber(position, number);
      forall s | old(Sound(s)) && s[position] == number
        ensures Sound(s)
      {
        PlacingSound(rank, blockIndices, old(field), old(blankCandidates), position, number, s);
      }
    }

    /** setNumber(row, column, number). */
    method SetNumberAt(row: int, column: int, number: int)
      requires Valid() && 0 <= row < rank && 0 <= column < rank && 0 < number <= rank
      requires field[CellAt(rank, row, column)] == InvalidNumber
      requires NoConflict(rank, blockIndices, field[CellAt(rank, row, column) := number])
      modifies this
      ensures field == old(field)[CellAt(rank, row, column) := number]
      ensures blankCandidates == AfterPlacing(rank, blockIndices, old(blankCandidates), CellAt(rank, row, column), number)
      ensures Valid()
      ensures forall s :: old(Sound(s)) && s[CellAt(rank, row, column)] == number ==> Sound(s)
    {
      var position := row * rank + column;
      SetNumber(position, number);
    }

    /**
     * updateNumber: cross the placed number out of the blank cells of its column, its row and
     * its block, drop the cell's own entry and blank-list slot, and record it in the map.
     */
    method UpdateNumber(position: int, number: int)
      requires 0 < number <= rank && BlankKeys(position)
      requires forall q :: q in blankCandidates ==> Ascending(blankCandidates[q])
      requires 1 <= blockIndices[position] <= rank && |blankBlocks| == rank + 1 && |blockMap| == rank * rank
      modifies this
      ensures field == old(field)
      ensures blankCandidates == AfterPlacing(rank, blockIndices, old(blankCandidates), position, number)
      ensures blankBlocks == old(blankBlocks)[blockIndices[position] :=
                Without(old(blankBlocks)[blockIndices[position]], position)]
      ensures blockMap == old(blockMap)[MapIndex(rank, blockIndices[position], number) := position]
    {
      CrossOutPeers(position, number);
      var blockIndex := blockIndices[position];
      var rest, _ := RemoveElement(blankBlocks[blockIndex], position);
      blankBlocks := blankBlocks[blockIndex := rest];
      SetMapPosition(blockIndex, number, position);
    }

    /** The three crossing-out loops of updateNumber and the erasing of the cell's own entry. */
    method CrossOutPeers(position: int, number: int)
      requires 0 < number <= rank && BlankKeys(position)
      requires forall q :: q in blankCandidates ==> Ascending(blankCandidates[q])
      modifies this
      ensures field == old(field) && blockMap == old(blockMap) && blankBlocks == old(blankBlocks)
      ensures blankCandidates == AfterPlacing(rank, blockIndices, old(blankCandidates), position, number)
    {
      CrossingOutPlaces(rank, blockIndices, blankCandidates, position, number);
      CrossOutColumn(position, number);
      CrossOutRow(position, number);
      CrossOutBlock(position, number);
      blankCandidates := blankCandidates - {position};
    }

    /** While `position` is being filled: the candidate keys are the blank cells and `position`. */
    ghost predicate BlankKeys(position: int)
      reads this
    {
      KeysBlankBut(rank, blockIndices, field, blankCandidates, position)
    }

    /** The first loop of updateNumber: cross `number` out of the blank cells of the column. */
    method CrossOutColumn(position: int, number: int)
      requires BlankKeys(position) && 0 < number <= rank
      modifies this
      ensures field == old(field) && blockMap == old(blockMap) && blankBlocks == old(blankBlocks)
      ensures blankCandidates == ColumnCrossed(rank, old(blankCandidates), position, number)
    {
      ghost var c0 := blankCandidates;
      ColumnCrossedEnds(rank, c0, position, number);
      var r := 0;
      while r < rank
        invariant 0 <= r <= rank
        invariant field == old(field) && blockMap == old(blockMap) && blankBlocks == old(blankBlocks)
        invariant KeysBlankBut(rank, blockIndices, field, c0, position)
        invariant blankCandidates == ColumnCrossedBelow(rank, c0, position, number, r)
      {
        CrossOutColumnAt(position, number, r, c0);
        r := r + 1;
      }
    }

    /** One round of the column loop: the cell of row r loses `number`, unless it is filled or is `position`. */
    method CrossOutColumnAt(position: int, number: int, r: int, ghost c0: map<int, seq<int>>)
      requires 0 <= r < rank && 0 < number <= rank
      requires KeysBlankBut(rank, blockIndices, field, c0, position)
      requires blankCandidates == ColumnCrossedBelow(rank, c0, position, number, r)
      modifies this
      ensures field == old(field) && blockMap == old(blockMap) && blankBlocks == old(blankBlocks)
      ensures blankCandidates == ColumnCrossedBelow(rank, c0, position, number, r + 1)
    {
      PositionCoordinates(rank, position);
      ColumnCrossedStep(rank, c0, position, number, r);
      var p := CellAt(rank, r, position % rank);
      if r != position / rank && field[p] == InvalidNumber {
        var _ := RemoveCandidate(p, number);
      } else {
        assert p == position || p !in c0;
      }
    }

    /** The second loop of updateNumber: cross `number` out of the blank cells of the row. */
    method CrossOutRow(position: int, number: int)
      requires BlankKeys(position) && 0 < number <= rank
      modifies this
      ensures field == old(field) && blockMap == old(blockMap) && blankBlocks == old(blankBlocks)
      ensures blankCandidates == RowCrossed(rank, old(blankCandidates), position, number)
    {
      ghost var c0 := blankCandidates;
      RowCrossedEnds(rank, c0, position, number);
      var base := position / rank * rank;
      var c := 0;
      while c < rank
        invariant 0 <= c <= rank
        invariant field == old(field) && blockMap == old(blockMap) && blankBlocks == old(blankBlocks)
        invariant KeysBlankBut(rank, blockIndices, field, c0, position)
        invariant blankCandidates == RowCrossedBelow(rank, c0, position, number, c)
      {
        CrossOutRowAt(position, number, base, c, c0);
        c := c + 1;
      }
    }

    /** One round of the row loop: the cell of column c loses `number`, unless it is filled or is `position`. */
    method CrossOutRowAt(position: int, number: int, base: int, c: int, ghost c0: map<int, seq<int>>)
      requires 0 <= c < rank && 0 < number <= rank && base == position / rank * rank
      requires KeysBlankBut(rank, blockIndices, field, c0, position)
      requires blankCandidates == RowCrossedBelow(rank, c0, position, number, c)
      modifies this
      ensures field == old(field) && blockMap == old(blockMap) && blankBlocks == old(blankBlocks)
      ensures blankCandidates == RowCrossedBelow(rank, c0, position, number, c + 1)
    {
      PositionCoordinates(rank, position);
      RowCells(rank, position / rank);
      RowCrossedStep(rank, c0, position, number, c);
      var p := base + c;
      assert p == CellAt(rank, RowOf(rank, position), c);
      if c != position % rank && field[p] == InvalidNumber {
        var _ := RemoveCandidate(p, number);
      } else {
        assert p == position || p !in c0;
      }
    }

    /**
     * The third loop of updateNumber: cross `number` out of every candidate list of the block,
     * the filled cell's own list included, visiting the keys in increasing order.
     */
    method CrossOutBlock(position: int, number: int)
      requires 0 <= position < |blockIndices| == rank * rank
      requires forall q :: q in blankCandidates ==> 0 <= q < |blockIndices|
      modifies this
      ensures field == old(field) && blockMap == old(blockMap) && blankBlocks == old(blankBlocks)
      ensures blankCandidates == BlockCrossed(blockIndices, old(blankCandidates), position, number)
    {
      ghost var c0 := blankCandidates;
      BlockCrossedEnds(blockIndices, c0, position, number);
      var blockIndex := blockIndices[position];
      var size := rank * rank;
      var k := 0;
      while k < size
        invariant 0 <= k <= size == |blockIndices|
        invariant field == old(field) && blockMap == old(blockMap) && blankBlocks == old(blankBlocks)
        invariant blankCandidates == BlockCrossedBelow(blockIndices, c0, position, number, k)
      {
        CrossOutBlockAt(position, number, blockIndex, k, c0);
        k := k + 1;
      }
    }

    /** One round of the block loop: key k loses `number` when it is a cell of the block. */
    method CrossOutBlockAt(position: int, number: int, blockIndex: int, k: int, ghost c0: map<int, seq<int>>)
      requires 0 <= position < |blockIndices| && 0 <= k < |blockIndices| && blockIndex == blockIndices[position]
      requires blankCandidates == BlockCrossedBelow(blockIndices, c0, position, number, k)
      modifies this
      ensures field == old(field) && blockMap == old(blockMap) && blankBlocks == old(blankBlocks)
      ensures blankCandidates == BlockCrossedBelow(blockIndices, c0, position, number, k + 1)
    {
      if k in blankCandidates && blockIndices[k] == blockIndex {
        BlockCrossedStep(blockIndices, c0, position, number, k);
        var rest, _ := RemoveElement(blankCandidates[k], number);
        blankCandidates := blankCandidates[k := rest];
      } else {
        BlockCrossedSkip(blockIndices, c0, position, number, k);
      }
    }

    /** getBlankCandidates. */
    function GetBlankCandidates(): (cands: map<int, seq<int>>)
      reads this
      ensures Valid() ==> forall p :: p in cands <==> 0 <= p < |field| && GetNumber(p) == InvalidNumber
    {
      blankCandidates
    }

    /**
     * findNakedSingle: every blank cell left with one candidate, in increasing position order;
     * each such step holds in every solution still reachable.
     */
    method FindNakedSingle() returns (steps: seq<Placement>)
      requires forall q :: q in blankCandidates ==> 0 <= q < rank * rank
      ensures forall i :: 0 <= i < |steps| ==>
                steps[i].position in blankCandidates && blankCandidates[steps[i].position] == [steps[i].number]
      ensures forall p :: p in blankCandidates && |blankCandidates[p]| == 1 ==>
                Placement(p, blankCandidates[p][0]) in steps
      ensures forall i, j :: 0 <= i < j < |steps| ==> steps[i].position < steps[j].position
      ensures forall s, i :: Sound(s) && 0 <= i < |steps| ==>
                0 <= steps[i].position < |s| && s[steps[i].position] == steps[i].number
    {
      steps := [];
      var p := 0;
      while p < rank * rank
        invariant 0 <= p <= rank * rank || (rank * rank < 0 && p == 0)
        invariant forall i :: 0 <= i < |steps| ==>
                    steps[i].position in blankCandidates && blankCandidates[steps[i].position] == [steps[i].number]
                    && steps[i].position < p
        invariant forall q :: q in blankCandidates && q < p && |blankCandidates[q]| == 1 ==>
                    Placement(q, blankCandidates[q][0]) in steps
        invariant forall i, j :: 0 <= i < j < |steps| ==> steps[i].position < steps[j].position
      {
        if p in blankCandidates && |blankCandidates[p]| == 1 {
          steps := steps + [Placement(p, blankCandidates[p][0])];
        }
        p := p + 1;
      }
    }

    /** What findHiddenSingle relies on: blank cells are exactly the keys, each list ascending in 1..rank. */
    ghost predicate HiddenReady()
      reads this
    {
      0 < rank <= RankMax && |field| == rank * rank && |blockIndices| == rank * rank
      && (forall q :: q in blankCandidates <==> 0 <= q < |field| && field[q] == InvalidNumber)
      && (forall q :: q in blankCandidates ==> Ascending(blankCandidates[q]))
      && (forall q, n :: q in blankCandidates && n in blankCandidates[q] ==> 1 <= n <= rank)
    }

    /** The buffers hold the count and the last holder of every number over `cells`. */
    ghost predicate Tallied(positions: array<int>, histogram: array<int>, cells: seq<int>)
      reads this, positions, histogram
      requires Buffers(positions, histogram) && rank <= RankMax
    {
      forall n :: 1 <= n <= rank ==>
        histogram[n] == Holders(blankCandidates, cells, n) && positions[n] == LastHolder(blankCandidates, cells, n)
    }

    /** The reset lambda of findHiddenSingle. */
    static method Reset(positions: array<int>, histogram: array<int>)
      requires Buffers(positions, histogram)
      modifies positions, histogram
      ensures forall n :: 0 <= n < positions.Length ==> positions[n] == InvalidPosition
      ensures forall n :: 0 <= n < histogram.Length ==> histogram[n] == 0
    {
      var i := 0;
      while i < positions.Length
        invariant 0 <= i <= positions.Length
        invariant forall n :: 0 <= n < i ==> positions[n] == InvalidPosition && histogram[n] == 0
      {
        positions[i], histogram[i] := InvalidPosition, 0;
        i := i + 1;
      }
    }

    /** The handlePosition lambda: count the candidates of a blank cell and remember the cell. */
    method HandlePosition(positions: array<int>, histogram: array<int>, position: int, ghost cells: seq<int>)
      requires HiddenReady() && Buffers(positions, histogram) && 0 <= position < |field|
      requires Tallied(positions, histogram, cells)
      modifies positions, histogram
      ensures Tallied(positions, histogram, cells + [position])
    {
      assert (cells + [position])[..|cells|] == cells;
      if field[position] != InvalidNumber {
        return;
      }
      var candidates := blankCandidates[position];
      var j := 0;
      while j < |candidates|
        invariant 0 <= j <= |candidates|
        invariant forall n :: 1 <= n <= rank ==>
                    histogram[n] == Holders(blankCandidates, cells, n) + (if n in candidates[..j] then 1 else 0)
                    && positions[n] == if n in candidates[..j] then position else LastHolder(blankCandidates, cells, n)
      {
        var candidate := candidates[j];
        assert candidates[..j + 1] == candidates[..j] + [candidate];
        assert candidate !in candidates[..j] && candidate in blankCandidates[position];
        histogram[candidate] := histogram[candidate] + 1;
        positions[candidate] := position;
        j := j + 1;
      }
      assert candidates[..j] == candidates;
    }

    /** The addSingle lambda: append (positions[n], n) for every number counted exactly once. */
    static method AddSingle(rank: int, positions: array<int>, histogram: array<int>, steps: seq<Placement>)
      returns (more: seq<Placement>)
      requires Buffers(positions, histogram) && rank <= RankMax
      ensures |steps| <= |more| && more[..|steps|] == steps
      ensures forall k :: |steps| <= k < |more| ==>
                1 <= more[k].number <= rank && histogram[more[k].number] == 1
                && more[k].position == positions[more[k].number]
      ensures forall n :: 1 <= n <= rank && histogram[n] == 1 ==> Placement(positions[n], n) in more[|steps|..]
    {
      more := steps;
      var n := 1;
      while n <= rank
        invariant 1 <= n <= rank + 1 || (rank < 1 && n == 1)
        invariant |steps| <= |more| && more[..|steps|] == steps
        invariant forall k :: |steps| <= k < |more| ==>
                    1 <= more[k].number < n && histogram[more[k].number] == 1
                    && more[k].position == positions[more[k].number]
        invariant forall n' :: 1 <= n' < n && histogram[n'] == 1 ==> Placement(positions[n'], n') in more[|steps|..]
      {
        if histogram[n] == 1 {
          assert (more + [Placement(positions[n], n)])[|steps|..] == more[|steps|..] + [Placement(positions[n], n)];
          more := more + [Placement(positions[n], n)];
        }
        n := n + 1;
      }
    }

    /** One round of the row or column pass: count over line i and append its hidden singles. */
    method GatherLine(positions: array<int>, histogram: array<int>, g: Group, i: int,
                      steps: seq<Placement>, more: seq<Placement>) returns (next: seq<Placement>)
      requires HiddenReady() && Buffers(positions, histogram) && (g == Row || g == Column) && 0 <= i < rank
      requires Gathered(rank, blockIndices, blankCandidates, g, steps, more, i)
      modifies positions, histogram
      ensures Gathered(rank, blockIndices, blankCandidates, g, steps, next, i + 1)
    {
      Reset(positions, histogram);
      ghost var cells;
      if g == Row {
        cells := TallyRow(positions, histogram, i);
      } else {
        cells := TallyColumn(positions, histogram, i);
      }
      next := AddSingle(rank, positions, histogram, more);
      GroupSingles(rank, blockIndices, blankCandidates, g, i, cells, histogram[..], positions[..], next[|more|..]);
      GatheredStep(rank, blockIndices, blankCandidates, g, steps, more, next[|more|..], i);
      assert next == more + next[|more|..];
    }

    /** The row pass of findHiddenSingle. */
    method RowSingles(positions: array<int>, histogram: array<int>, steps: seq<Placement>)
      returns (more: seq<Placement>)
      requires HiddenReady() && Buffers(positions, histogram)
      modifies positions, histogram
      ensures |steps| <= |more| && forall k :: 0 <= k < |steps| ==> more[k] == steps[k]
      ensures forall k :: |steps| <= k < |more| ==>
                HiddenSingleIn(rank, blockIndices, blankCandidates, Row, more[k].position, more[k].number)
      ensures forall p, n :: HiddenSingleIn(rank, blockIndices, blankCandidates, Row, p, n) ==> Placement(p, n) in more
    {
      more := steps;
      GatheredNone(rank, blockIndices, blankCandidates, Row, steps);
      var r := 0;
      while r < rank
        invariant 0 <= r <= rank
        invariant Gathered(rank, blockIndices, blankCandidates, Row, steps, more, r)
      {
        more := GatherLine(positions, histogram, Row, r, steps, more);
        r := r + 1;
      }
      GatheredAll(rank, blockIndices, blankCandidates, Row, steps, more);
    }

    /** The column pass of findHiddenSingle. */
    method ColumnSingles(positions: array<int>, histogram: array<int>, steps: seq<Placement>)
      returns (more: seq<Placement>)
      requires HiddenReady() && Buffers(positions, histogram)
      modifies positions, histogram
      ensures |steps| <= |more| && forall k :: 0 <= k < |steps| ==> more[k] == steps[k]
      ensures forall k :: |steps| <= k < |more| ==>
                HiddenSingleIn(rank, blockIndices, blankCandidates, Column, more[k].position, more[k].number)
      ensures forall p, n :: HiddenSingleIn(rank, blockIndices, blankCandidates, Column, p, n) ==> Placement(p, n) in more
    {
      more := steps;
      GatheredNone(rank, blockIndices, blankCandidates, Column, steps);
      var c := 0;
      while c < rank
        invariant 0 <= c <= rank
        invariant Gathered(rank, blockIndices, blankCandidates, Column, steps, more, c)
      {
        more := GatherLine(positions, histogram, Column, c, steps, more);
        c := c + 1;
      }
      GatheredAll(rank, blockIndices, blankCandidates, Column, steps, more);
    }

    /** The block pass of findHiddenSingle: blocks with no blank cell are skipped. */
    method BlockSingles(positions: array<int>, histogram: array<int>, steps: seq<Placement>)
      returns (more: seq<Placement>)
      requires HiddenReady() && Buffers(positions, histogram)
      requires BlankBlocksMatch(rank, blockIndices, field, blankBlocks) && IdsInRange(rank, blockIndices)
      modifies positions, histogram
      ensures |steps| <= |more| && forall k :: 0 <= k < |steps| ==> more[k] == steps[k]
      ensures forall k :: |steps| <= k < |more| ==>
                HiddenSingleIn(rank, blockIndices, blankCandidates, Block, more[k].position, more[k].number)
      ensures forall p, n :: HiddenSingleIn(rank, blockIndices, blankCandidates, Block, p, n) ==> Placement(p, n) in more
    {
      more := steps;
      var b := 1;
      while b <= rank
        invariant 1 <= b <= rank + 1
        invariant Gathered(rank, blockIndices, blankCandidates, Block, steps, more, b)
      {
        var blankBlock := blankBlocks[b];
        BlockListed(rank, blockIndices, field, blankCandidates, blankBlocks, b);
        if |blankBlock| == 0 {
          GatheredStep(rank, blockIndices, blankCandidates, Block, steps, more, [], b);
          assert more + [] == more;
          b := b + 1;
          continue;
        }
        Reset(positions, histogram);
        TallyBlock(positions, histogram, b);
        ghost var cells := blankBlock;
        var before := more;
        more := AddSingle(rank, positions, histogram, more);
        GroupSingles(rank, blockIndices, blankCandidates, Block, b, cells, histogram[..], positions[..], more[|before|..]);
        GatheredStep(rank, blockIndices, blankCandidates, Block, steps, before, more[|before|..], b);
        assert more == before + more[|before|..];
        b := b + 1;
      }
      forall p, n | HiddenSingleIn(rank, blockIndices, blankCandidates, Block, p, n)
        ensures Placement(p, n) in more
      {
        assert InGroup(rank, blockIndices, Block, blockIndices[p], p);
      }
    }

    /**
     * findHiddenSingle: for every row, column and block, every number that exactly one cell of
     * the group can take, at that cell; each step holds in every solution still reachable.
     */
    method FindHiddenSingle() returns (steps: seq<Placement>)
      requires Valid()
      ensures forall i :: 0 <= i < |steps| ==>
                IsHiddenSingle(rank, blockIndices, blankCandidates, steps[i].position, steps[i].number)
      ensures forall p, n :: IsHiddenSingle(rank, blockIndices, blankCandidates, p, n) ==> Placement(p, n) in steps
      ensures forall s, i :: Sound(s) && 0 <= i < |steps| ==>
                0 <= steps[i].position < |s| && s[steps[i].position] == steps[i].number
    {
      var positions := new int[1 + RankMax];
      var histogram := new int[1 + RankMax];
      assert HiddenReady() by {
        assert forall q :: q in blankCandidates ==>
          CandidateList(rank, blockIndices, field, q, blankCandidates[q]);
      }
      var rows := RowSingles(positions, histogram, []);
      var columns := ColumnSingles(positions, histogram, rows);
      steps := BlockSingles(positions, histogram, columns);
      HiddenStepsForced(rank, blockIndices, field, blankCandidates, steps);
    }

    /** The inner row loop of findHiddenSingle: count over the cells of row r. */
    method TallyRow(positions: array<int>, histogram: array<int>, r: int) returns (ghost cells: seq<int>)
      requires HiddenReady() && Buffers(positions, histogram) && 0 <= r < rank
      requires Tallied(positions, histogram, [])
      modifies positions, histogram
      ensures Tallied(positions, histogram, cells) && ListsGroup(rank, blockIndices, blankCandidates, Row, r, cells)
    {
      var base := r * rank;
      cells := [];
      var c := 0;
      while c < rank
        invariant 0 <= c <= rank && |cells| == c
        invariant forall j :: 0 <= j < c ==> cells[j] == base + j
        invariant Tallied(positions, histogram, cells)
      {
        var position := base + c;
        assert position == CellAt(rank, r, c);
        HandlePosition(positions, histogram, position, cells);
        cells := cells + [position];
        c := c + 1;
      }
      RowCells(rank, r);
      RowListed(rank, blockIndices, blankCandidates, r, cells);
    }

    /** The inner column loop of findHiddenSingle: count over the cells of column c. */
    method TallyColumn(positions: array<int>, histogram: array<int>, c: int) returns (ghost cells: seq<int>)
      requires HiddenReady() && Buffers(positions, histogram) && 0 <= c < rank
      requires Tallied(positions, histogram, [])
      modifies positions, histogram
      ensures Tallied(positions, histogram, cells) && ListsGroup(rank, blockIndices, blankCandidates, Column, c, cells)
    {
      cells := [];
      var r := 0;
      while r < rank
        invariant 0 <= r <= rank && |cells| == r
        invariant forall j :: 0 <= j < r ==> cells[j] == CellAt(rank, j, c)
        invariant Tallied(positions, histogram, cells)
      {
        var position := CellAt(rank, r, c);
        HandlePosition(positions, histogram, position, cells);
        cells := cells + [position];
        r := r + 1;
      }
      ColumnListed(rank, blockIndices, blankCandidates, c, cells);
    }

    /** The inner block loop of findHiddenSingle: count over the blank cells of block b. */
    method TallyBlock(positions: array<int>, histogram: array<int>, b: int)
      requires HiddenReady() && Buffers(positions, histogram) && 1 <= b <= rank
      requires BlankBlocksMatch(rank, blockIndices, field, blankBlocks)
      requires Tallied(positions, histogram, [])
      modifies positions, histogram
      ensures Tallied(positions, histogram, blankBlocks[b])
    {
      var blankBlock := blankBlocks[b];
      var i := 0;
      while i < |blankBlock|
        invariant 0 <= i <= |blankBlock|
        invariant Tallied(positions, histogram, blankBlock[..i])
      {
        var position := blankBlock[i];
        assert position in blankBlocks[b];
        HandlePosition(positions, histogram, position, blankBlock[..i]);
        assert blankBlock[..i + 1] == blankBlock[..i] + [position];
        i := i + 1;
      }
      assert blankBlock[..i] == blankBlock;
    }
      /**
     * The state is valid, the snapshot c0 was a candidate map of this same field, and since c0
     * candidates were only crossed out, never one a solution reachable from c0 needs.
     */
    ghost predicate Narrowed(c0: map<int, seq<int>>)
      reads this
    {
      Valid() && CandidatesMatch(rank, blockIndices, field, c0) && Shrinks(c0, blankCandidates)
      && KeepsSolutions(rank, blockIndices, field, c0, field, blankCandidates)
    }

    /** removeCandidate as the strategies call it: for a number no solution reachable from c0 puts there. */
    method Eliminate(position: int, number: int, ghost c0: map<int, seq<int>>) returns (removed: bool)
      requires Narrowed(c0) && position in blankCandidates && 0 < number <= rank
      requires forall s :: SoundState(rank, blockIndices, field, c0, s) ==> s[position] != number
      modifies this
      ensures Narrowed(c0)
      ensures removed <==> number in old(blankCandidates[position])
      ensures blankCandidates == old(blankCandidates)[position := Without(old(blankCandidates[position]), number)]
      ensures forall x :: x in blankCandidates[position] <==> x in old(blankCandidates)[position] && x != number
      ensures field == old(field) && blockMap == old(blockMap) && blankBlocks == old(blankBlocks)
    {
      assert CandidateList(rank, blockIndices, field, position, blankCandidates[position]);
      WithoutAscending(blankCandidates[position], number);
      RemovalKeeps(rank, blockIndices, field, blockMap, blankBlocks, c0, blankCandidates, position, number);
      removed := RemoveCandidate(position, number);
    }

    /**
     * The removeCandidateAndPrint calls of a strategy on one cell: every number of `numbers`, none
     * of which a solution reachable from c0 puts there, is crossed out of the cell's candidates.
     */
    method EliminateEach(position: int, numbers: seq<int>, ghost c0: map<int, seq<int>>)
      requires Narrowed(c0) && position in blankCandidates
      requires forall x :: x in numbers ==> 0 < x <= rank
      requires forall s, x :: SoundState(rank, blockIndices, field, c0, s) && x in numbers ==> s[position] != x
      modifies this
      ensures Narrowed(c0) && position in blankCandidates
      ensures blankCandidates == old(blankCandidates)[position := blankCandidates[position]]
      ensures forall x :: x in blankCandidates[position] <==> x in old(blankCandidates)[position] && x !in numbers
      ensures field == old(field) && blockMap == old(blockMap) && blankBlocks == old(blankBlocks)
    {
      ghost var before := blankCandidates;
      var m := 0;
      while m < |numbers|
        invariant 0 <= m <= |numbers|
        invariant Narrowed(c0) && position in blankCandidates
        invariant blankCandidates == before[position := blankCandidates[position]]
        invariant forall x :: x in blankCandidates[position] <==> x in before[position] && x !in numbers[..m]
        invariant field == old(field) && blockMap == old(blockMap) && blankBlocks == old(blankBlocks)
      {
        assert numbers[..m + 1] == numbers[..m] + [numbers[m]];
        assert numbers[m] in numbers;
        var _ := Eliminate(position, numbers[m], c0);
        m := m + 1;
      }
      assert numbers[..m] == numbers;
    }

    /**
     * The collection loop of updateCandidateByNakedPair: a record for every blank cell with exactly
     * two candidates, in increasing position order.
     */
    method CollectPairs() returns (values: seq<PairCell>)
      requires Valid()
      ensures PairCellsOf(rank, blankCandidates, values)
      ensures forall p :: p in blankCandidates && |blankCandidates[p]| == 2 ==>
                PairCell(ColumnOf(rank, p), RowOf(rank, p), blankCandidates[p][0], blankCandidates[p][1]) in values
    {
      values := [];
      ghost var cells: seq<int> := [];
      var p := 0;
      while p < rank * rank
        invariant PairsBelow(rank, blankCandidates, values, cells, p)
      {
        if p in blankCandidates && |blankCandidates[p]| == 2 {
          var candidates := blankCandidates[p];
          PairsBelowTake(rank, blankCandidates, values, cells, p);
          values := values + [PairCell(p % rank, p / rank, candidates[0], candidates[1])];
          cells := cells + [p];
        } else {
          PairsBelowSkip(rank, blankCandidates, values, cells, p);
        }
        p := p + 1;
      }
      PairsBelowAll(rank, blankCandidates, values, cells);
    }

    /**
     * updateCandidateByNakedPair: two cells of one row (one column) whose only candidates are the
     * same two numbers hold those numbers between them, so the other blank cells of that row
     * (column) lose both. Nothing else changes, and no solution still reachable is lost.
     */
    method NakedPair() returns (ghost paired: seq<PairCell>)
      requires Valid()
      modifies this
      ensures Valid() && Shrinks(old(blankCandidates), blankCandidates)
      ensures field == old(field) && blockMap == old(blockMap) && blankBlocks == old(blankBlocks)
      ensures forall s :: old(Sound(s)) ==> Sound(s)
      ensures PairCellsOf(rank, old(blankCandidates), paired)
      ensures forall p, p' :: p in old(blankCandidates) && p' in old(blankCandidates) && p != p'
                              && |old(blankCandidates)[p]| == 2 && old(blankCandidates)[p'] == old(blankCandidates)[p] ==>
                PairCell(ColumnOf(rank, p), RowOf(rank, p), old(blankCandidates)[p][0], old(blankCandidates)[p][1]) in paired
      ensures PairsCleared(rank, blockIndices, blankCandidates, true, paired, |paired|)
      ensures PairsCleared(rank, blockIndices, blankCandidates, false, paired, |paired|)
    {
      ghost var c0 := blankCandidates;
      var values := CollectPairs();
      var counts := CountPairs(values);
      var kept := KeepPaired(values, counts);
      paired := kept;
      PairedCells(rank, c0, values, values);
      forall p, p' | p in c0 && p' in c0 && p != p' && |c0[p]| == 2 && c0[p'] == c0[p]
        ensures PairCell(ColumnOf(rank, p), RowOf(rank, p), c0[p][0], c0[p][1]) in paired
      {
        assert 0 <= p < rank * rank && 0 <= p' < rank * rank && rank > 0;
        RecurringPairKept(rank, values, c0, p, p');
      }
      NakedPairRows(kept, c0);
      ghost var afterRows := blankCandidates;
      NakedPairColumns(kept, c0);
      PairsClearedStay(rank, blockIndices, afterRows, blankCandidates, true, paired, |paired|);
    }

    /**
     * The row pass: the first record of each (row, pair) key is kept, and every later record with
     * that key forms a naked pair with it.
     */
    method NakedPairRows(values: seq<PairCell>, ghost c0: map<int, seq<int>>)
      requires Narrowed(c0) && PairCellsOf(rank, c0, values)
      modifies this
      ensures Narrowed(c0) && Shrinks(old(blankCandidates), blankCandidates)
      ensures field == old(field) && blockMap == old(blockMap) && blankBlocks == old(blankBlocks)
      ensures PairsCleared(rank, blockIndices, blankCandidates, true, values, |values|)
    {
      var keyValues: map<(int, int, int), PairCell> := map[];
      ghost var at: map<(int, int, int), int> := map[];
      var j := 0;
      while j < |values|
        invariant 0 <= j <= |values|
        invariant PairPass(c0, old(blankCandidates), true, values, j, keyValues, at)
        invariant (field, blockMap, blankBlocks) == old((field, blockMap, blankBlocks))
      {
        keyValues, at := FilePair(true, values, j, keyValues, at, c0, old(blankCandidates));
        j := j + 1;
      }
    }

    /** The state of a pass of the naked-pair strategy started from `start` after j records. */
    ghost predicate PairPass(c0: map<int, seq<int>>, start: map<int, seq<int>>, horizontal: bool, values: seq<PairCell>,
                             j: int, keyValues: map<(int, int, int), PairCell>, at: map<(int, int, int), int>)
      reads this
    {
      Narrowed(c0) && Shrinks(start, blankCandidates)
      && PairScan(rank, blockIndices, blankCandidates, horizontal, values, j, keyValues, at)
    }

    /**
     * One record of a pass of the naked-pair strategy: under a new key it is kept as the first of
     * its key; otherwise it and the first record of its key form a naked pair, whose line loses
     * the pair's numbers outside the two cells.
     */
    method FilePair(horizontal: bool, values: seq<PairCell>, j: int, keyValues: map<(int, int, int), PairCell>,
                    ghost at: map<(int, int, int), int>, ghost c0: map<int, seq<int>>, ghost start: map<int, seq<int>>)
      returns (keyValues': map<(int, int, int), PairCell>, ghost at': map<(int, int, int), int>)
      requires PairPass(c0, start, horizontal, values, j, keyValues, at) && j < |values|
      requires PairCellsOf(rank, c0, values)
      modifies this
      ensures PairPass(c0, start, horizontal, values, j + 1, keyValues', at')
      ensures field == old(field) && blockMap == old(blockMap) && blankBlocks == old(blankBlocks)
    {
      var value := values[j];
      var key := (if horizontal then value.row else value.column, value.high, value.low);
      if key !in keyValues {
        PairScanFirst(rank, blockIndices, blankCandidates, horizontal, values, j, keyValues, at);
        keyValues', at' := keyValues[key := value], at[key := j];
        return;
      }
      keyValues', at' := keyValues, at;
      var first := keyValues[key];
      assert values[at[key]] == first && first != value;
      if horizontal {
        ClearRowOfPair(value.row, value.column, first.column, value.low, value.high, c0);
      } else {
        ClearColumnOfPair(value.column, value.row, first.row, value.low, value.high, c0);
      }
      PairScanPaired(rank, blockIndices, old(blankCandidates), blankCandidates, horizontal, values, j, keyValues, at);
    }

    /** The inner loop of the row pass: cross a and b out of the blank cells of the row but the pair's two. */
    method ClearRowOfPair(row: int, column0: int, column1: int, a: int, b: int, ghost c0: map<int, seq<int>>)
      requires Narrowed(c0) && 0 <= row < rank && 0 <= column0 < rank && 0 <= column1 < rank && column0 != column1
      requires CellAt(rank, row, column0) in c0 && c0[CellAt(rank, row, column0)] == [a, b]
      requires CellAt(rank, row, column1) in c0 && c0[CellAt(rank, row, column1)] == [a, b]
      modifies this
      ensures Narrowed(c0) && Shrinks(old(blankCandidates), blankCandidates)
      ensures field == old(field) && blockMap == old(blockMap) && blankBlocks == old(blankBlocks)
      ensures forall q ::
                q in blankCandidates && InGroup(rank, blockIndices, Row, row, q) && q != CellAt(rank, row, column0) && q != CellAt(rank, row, column1) ==>
                  a !in blankCandidates[q] && b !in blankCandidates[q]
      ensures forall q ::
                q in blankCandidates && (!InGroup(rank, blockIndices, Row, row, q) || q == CellAt(rank, row, column0) || q == CellAt(rank, row, column1)) ==>
                  blankCandidates[q] == old(blankCandidates)[q]
    {
      var p0, p1 := CellAt(rank, row, column0), CellAt(rank, row, column1);
      assert 0 < a <= rank && 0 < b <= rank by {
        assert CandidateList(rank, blockIndices, field, p0, c0[p0]);
        assert a in c0[p0] && b in c0[p0];
      }
      PairClears(rank, blockIndices, field, c0, Row, row, p0, p1, a, b);
      ClearLine(true, row, {p0, p1}, {}, [a, b], c0);
      assert a in [a, b] && b in [a, b];
    }

    /**
     * The column pass: the first record of each (column, pair) key is kept, and every later record
     * with that key forms a naked pair with it.
     */
    method NakedPairColumns(values: seq<PairCell>, ghost c0: map<int, seq<int>>)
      requires Narrowed(c0) && PairCellsOf(rank, c0, values)
      modifies this
      ensures Narrowed(c0) && Shrinks(old(blankCandidates), blankCandidates)
      ensures field == old(field) && blockMap == old(blockMap) && blankBlocks == old(blankBlocks)
      ensures PairsCleared(rank, blockIndices, blankCandidates, false, values, |values|)
    {
      var keyValues: map<(int, int, int), PairCell> := map[];
      ghost var at: map<(int, int, int), int> := map[];
      var j := 0;
      while j < |values|
        invariant 0 <= j <= |values|
        invariant PairPass(c0, old(blankCandidates), false, values, j, keyValues, at)
        invariant (field, blockMap, blankBlocks) == old((field, blockMap, blankBlocks))
      {
        keyValues, at := FilePair(false, values, j, keyValues, at, c0, old(blankCandidates));
        j := j + 1;
      }
    }

    /** The inner loop of the column pass: cross a and b out of the blank cells of the column but the pair's two. */
    method ClearColumnOfPair(column: int, row0: int, row1: int, a: int, b: int, ghost c0: map<int, seq<int>>)
      requires Narrowed(c0) && 0 <= column < rank && 0 <= row0 < rank && 0 <= row1 < rank && row0 != row1
      requires CellAt(rank, row0, column) in c0 && c0[CellAt(rank, row0, column)] == [a, b]
      requires CellAt(rank, row1, column) in c0 && c0[CellAt(rank, row1, column)] == [a, b]
      modifies this
      ensures Narrowed(c0) && Shrinks(old(blankCandidates), blankCandidates)
      ensures field == old(field) && blockMap == old(blockMap) && blankBlocks == old(blankBlocks)
      ensures forall q ::
                q in blankCandidates && InGroup(rank, blockIndices, Column, column, q) && q != CellAt(rank, row0, column) && q != CellAt(rank, row1, column) ==>
                  a !in blankCandidates[q] && b !in blankCandidates[q]
      ensures forall q ::
                q in blankCandidates && (!InGroup(rank, blockIndices, Column, column, q) || q == CellAt(rank, row0, column) || q == CellAt(rank, row1, column)) ==>
                  blankCandidates[q] == old(blankCandidates)[q]
    {
      var p0, p1 := CellAt(rank, row0, column), CellAt(rank, row1, column);
      assert 0 < a <= rank && 0 < b <= rank by {
        assert CandidateList(rank, blockIndices, field, p0, c0[p0]);
        assert a in c0[p0] && b in c0[p0];
      }
      PairClears(rank, blockIndices, field, c0, Column, column, p0, p1, a, b);
      ClearLine(false, column, {p0, p1}, {}, [a, b], c0);
      assert a in [a, b] && b in [a, b];
    }

    /**
     * The cell loop of a strategy over one line: every blank cell of row i (of column i when not
     * horizontal) outside `skip` loses every number of `numbers`, and no other cell changes.
     */
    method ClearLine(horizontal: bool, i: int, skip: set<int>, skipBlocks: set<int>, numbers: seq<int>, ghost c0: map<int, seq<int>>)
      requires Narrowed(c0) && 0 <= i < rank
      requires forall x :: x in numbers ==> 0 < x <= rank
      requires forall s, q, x ::
                 SoundState(rank, blockIndices, field, c0, s) && InGroup(rank, blockIndices, LineGroup(horizontal), i, q) && !Spared(blockIndices, skip, skipBlocks, q) && x in numbers ==>
                   s[q] != x
      modifies this
      ensures Narrowed(c0) && Shrinks(old(blankCandidates), blankCandidates)
      ensures field == old(field) && blockMap == old(blockMap) && blankBlocks == old(blankBlocks)
      ensures forall q, x ::
                q in blankCandidates && InGroup(rank, blockIndices, LineGroup(horizontal), i, q) && !Spared(blockIndices, skip, skipBlocks, q) && x in numbers ==>
                  x !in blankCandidates[q]
      ensures forall q :: q in blankCandidates && (Spared(blockIndices, skip, skipBlocks, q) || !InGroup(rank, blockIndices, LineGroup(horizontal), i, q)) ==>
                blankCandidates[q] == old(blankCandidates)[q]
    {
      var l := 0;
      ghost var cleared: set<int> := {};
      while l < rank
        invariant 0 <= l <= rank
        invariant Narrowed(c0)
        invariant field == old(field) && blockMap == old(blockMap) && blankBlocks == old(blankBlocks)
        invariant Shrinks(old(blankCandidates), blankCandidates)
        invariant Lacking(blankCandidates, cleared, numbers)
        invariant forall k :: 0 <= k < l && !Spared(blockIndices, skip, skipBlocks, LineCell(rank, horizontal, i, k)) ==>
                    LineCell(rank, horizontal, i, k) in cleared
        invariant forall q :: q in cleared ==> InGroup(rank, blockIndices, LineGroup(horizontal), i, q) && !Spared(blockIndices, skip, skipBlocks, q)
        invariant forall q :: q in blankCandidates && q !in cleared ==> blankCandidates[q] == old(blankCandidates)[q]
      {
        var position := LineCell(rank, horizontal, i, l);
        if !Spared(blockIndices, skip, skipBlocks, position) {
          if field[position] == InvalidNumber {
            ghost var before := blankCandidates;
            EliminateEach(position, numbers, c0);
            LackingGrows(before, blankCandidates, cleared, position, numbers);
          } else {
            assert position !in blankCandidates;
          }
          cleared := cleared + {position};
        }
        l := l + 1;
      }
      forall q | InGroup(rank, blockIndices, LineGroup(horizontal), i, q) && !Spared(blockIndices, skip, skipBlocks, q)
        ensures q in cleared
      {
        PositionOnLine(rank, horizontal, q);
      }
    }
    /**
     * The cell loop of a strategy over block b: every blank cell of the block outside `skip`
     * loses every number of `numbers`, and no other cell changes.
     */
    method ClearBlock(b: int, skip: set<int>, numbers: seq<int>, ghost c0: map<int, seq<int>>)
      requires Narrowed(c0) && 1 <= b <= rank
      requires forall x :: x in numbers ==> 0 < x <= rank
      requires forall s, q, x ::
                 SoundState(rank, blockIndices, field, c0, s) && InGroup(rank, blockIndices, Block, b, q) && q !in skip && x in numbers ==>
                   s[q] != x
      modifies this
      ensures Narrowed(c0)
      ensures field == old(field) && blockMap == old(blockMap) && blankBlocks == old(blankBlocks)
      ensures forall q, x ::
                q in blankCandidates && InGroup(rank, blockIndices, Block, b, q) && q !in skip && x in numbers ==>
                  x !in blankCandidates[q]
      ensures forall q :: q in blankCandidates && (q in skip || !InGroup(rank, blockIndices, Block, b, q)) ==>
                blankCandidates[q] == old(blankCandidates)[q]
    {
      var blockGroup := blankBlocks[b];
      ghost var cleared: set<int> := {};
      var k := 0;
      while k < |blockGroup|
        invariant 0 <= k <= |blockGroup|
        invariant Narrowed(c0)
        invariant field == old(field) && blockMap == old(blockMap) && blankBlocks == old(blankBlocks)
        invariant Lacking(blankCandidates, cleared, numbers)
        invariant forall j :: 0 <= j < k && blockGroup[j] !in skip ==> blockGroup[j] in cleared
        invariant forall q :: q in cleared ==> InGroup(rank, blockIndices, Block, b, q) && q !in skip
        invariant forall q :: q in blankCandidates && q !in cleared ==> blankCandidates[q] == old(blankCandidates)[q]
      {
        var position := blockGroup[k];
        assert position in blankBlocks[b];
        if field[position] == InvalidNumber && position !in skip {
          ghost var before := blankCandidates;
          EliminateEach(position, numbers, c0);
          LackingGrows(before, blankCandidates, cleared, position, numbers);
          cleared := cleared + {position};
        }
        k := k + 1;
      }
      forall q | q in blankCandidates && InGroup(rank, blockIndices, Block, b, q) && q !in skip
        ensures q in cleared
      {
        assert q in blankBlocks[b];
        var j :| 0 <= j < |blockGroup| && blockGroup[j] == q;
      }
    }

    /** The collection loop of updateCandidateByNakedTriple: the blank cells with two or three candidates, ascending. */
    method CollectTripleCells() returns (positions: seq<int>)
      requires forall q :: q in blankCandidates ==> 0 <= q < rank * rank
      ensures forall t :: 0 <= t < |positions| ==>
                positions[t] in blankCandidates && 2 <= |blankCandidates[positions[t]]| <= 3
      ensures forall q :: q in blankCandidates && 2 <= |blankCandidates[q]| <= 3 ==> q in positions
      ensures forall t, u :: 0 <= t < u < |positions| ==> positions[t] < positions[u]
    {
      positions := [];
      var p := 0;
      while p < rank * rank
        invariant 0 <= p <= rank * rank || (rank * rank < 0 && p == 0)
        invariant forall t :: 0 <= t < |positions| ==>
                    positions[t] in blankCandidates && 2 <= |blankCandidates[positions[t]]| <= 3 && positions[t] < p
        invariant forall q :: q in blankCandidates && q < p && 2 <= |blankCandidates[q]| <= 3 ==> q in positions
        invariant forall t, u :: 0 <= t < u < |positions| ==> positions[t] < positions[u]
      {
        if p in blankCandidates && 2 <= |blankCandidates[p]| <= 3 {
          positions := positions + [p];
        }
        p := p + 1;
      }
    }

    /**
     * updateCandidateByNakedTriple: three blank cells of one group whose candidates together are
     * exactly three numbers hold those numbers between them, so the other blank cells of the
     * group lose all three. Nothing else changes, and no solution still reachable is lost.
     */
    method NakedTriple()
      requires Valid()
      modifies this
      ensures Valid() && Shrinks(old(blankCandidates), blankCandidates)
      ensures field == old(field) && blockMap == old(blockMap) && blankBlocks == old(blankBlocks)
      ensures forall s :: old(Sound(s)) ==> Sound(s)
    {
      ghost var c0 := blankCandidates;
      var positions := CollectTripleCells();
      assert forall t :: 0 <= t < |positions| ==> positions[t] in c0;
      var size := |positions|;
      var i := 0;
      while i < size
        invariant Narrowed(c0)
        invariant field == old(field) && blockMap == old(blockMap) && blankBlocks == old(blankBlocks)
      {
        var j := i + 1;
        while j < size
          invariant i < j
          invariant Narrowed(c0)
          invariant field == old(field) && blockMap == old(blockMap) && blankBlocks == old(blankBlocks)
        {
          var k := j + 1;
          while k < size
            invariant j < k
            invariant Narrowed(c0)
            invariant field == old(field) && blockMap == old(blockMap) && blankBlocks == old(blankBlocks)
          {
            TryTriple(positions[i], positions[j], positions[k], c0);
            k := k + 1;
          }
          j := j + 1;
        }
        i := i + 1;
      }
    }

    /**
     * One (i, j, k) step of updateCandidateByNakedTriple: when one group holds the three cells and
     * their candidates together are exactly three numbers, the other blank cells of that group
     * lose those numbers; the three cells themselves keep their candidates.
     */
    method TryTriple(p0: int, p1: int, p2: int, ghost c0: map<int, seq<int>>)
      requires Narrowed(c0) && p0 in c0 && p1 in c0 && p2 in c0 && p0 != p1 && p1 != p2 && p0 != p2
      modifies this
      ensures Narrowed(c0)
      ensures field == old(field) && blockMap == old(blockMap) && blankBlocks == old(blankBlocks)
      ensures blankCandidates[p0] == old(blankCandidates)[p0] && blankCandidates[p1] == old(blankCandidates)[p1]
      ensures blankCandidates[p2] == old(blankCandidates)[p2]
      ensures var (g, i) := TripleGroup(rank, blockIndices, p0, p1, p2);
              var u := Union3(old(blankCandidates)[p0], old(blankCandidates)[p1], old(blankCandidates)[p2]);
              g != NoGroup && |u| == 3 ==>
                forall q, x ::
                  q in blankCandidates && InGroup(rank, blockIndices, g, i, q) && q !in {p0, p1, p2} && x in u ==>
                    x !in blankCandidates[q]
    {
      var groupInfo := TripleGroup(rank, blockIndices, p0, p1, p2);
      var group, groupIndex := groupInfo.0, groupInfo.1;
      if group == NoGroup {
        return;
      }
      var candidates := TripleUnion(p0, p1, p2);
      SetOfAscending(candidates);
      if |candidates| != 3 {
        return;
      }
      ClearTriple(group, groupIndex, p0, p1, p2, candidates, c0);
    }

    /** The three emplace loops: the candidates of the three cells as one ascending set. */
    method TripleUnion(p0: int, p1: int, p2: int) returns (candidates: seq<int>)
      requires p0 in blankCandidates && p1 in blankCandidates && p2 in blankCandidates
      ensures Ascending(candidates)
      ensures forall x :: x in candidates <==> x in blankCandidates[p0] || x in blankCandidates[p1] || x in blankCandidates[p2]
      ensures (set x | x in candidates) == Union3(blankCandidates[p0], blankCandidates[p1], blankCandidates[p2])
    {
      candidates := InsertAll([], blankCandidates[p0]);
      candidates := InsertAll(candidates, blankCandidates[p1]);
      candidates := InsertAll(candidates, blankCandidates[p2]);
      assert forall x :: x in candidates <==> x in Union3(blankCandidates[p0], blankCandidates[p1], blankCandidates[p2]);
    }

    /**
     * A naked triple found: the three numbers leave every other blank cell of group i of kind g
     * (the blank list of the block, or the cells of the line), and the three cells keep theirs.
     */
    method ClearTriple(g: Group, i: int, p0: int, p1: int, p2: int, numbers: seq<int>, ghost c0: map<int, seq<int>>)
      requires Narrowed(c0) && p0 in c0 && p1 in c0 && p2 in c0 && p0 != p1 && p1 != p2 && p0 != p2
      requires g != NoGroup && InGroup(rank, blockIndices, g, i, p0)
      requires InGroup(rank, blockIndices, g, i, p1) && InGroup(rank, blockIndices, g, i, p2)
      requires |numbers| == 3
      requires forall x :: x in numbers <==> x in blankCandidates[p0] || x in blankCandidates[p1] || x in blankCandidates[p2]
      modifies this
      ensures Narrowed(c0)
      ensures field == old(field) && blockMap == old(blockMap) && blankBlocks == old(blankBlocks)
      ensures blankCandidates[p0] == old(blankCandidates)[p0] && blankCandidates[p1] == old(blankCandidates)[p1]
      ensures blankCandidates[p2] == old(blankCandidates)[p2]
      ensures forall q, x ::
                q in blankCandidates && InGroup(rank, blockIndices, g, i, q) && q !in {p0, p1, p2} && x in numbers ==>
                  x !in blankCandidates[q]
    {
      assert forall x :: x in numbers ==> 0 < x <= rank by {
        assert CandidateList(rank, blockIndices, field, p0, blankCandidates[p0]);
        assert CandidateList(rank, blockIndices, field, p1, blankCandidates[p1]);
        assert CandidateList(rank, blockIndices, field, p2, blankCandidates[p2]);
      }
      TripleClears(rank, blockIndices, field, c0, blankCandidates, g, i, p0, p1, p2, numbers);
      if g == Block {
        ClearBlock(i, {p0, p1, p2}, numbers, c0);
      } else {
        assert LineGroup(g == Row) == g;
        PositionCoordinates(rank, p0);
        ClearLine(g == Row, i, {p0, p1, p2}, {}, numbers, c0);
      }
    }

    /**
     * updateCandidateOutBlockOfLine: when the candidates n of a block that still lacks n all lie
     * in one row but not in one column (or the reverse), the other cells of that row (column)
     * outside the block lose n. Nothing else changes, and no solution still reachable is lost.
     */
    method OutBlockOfLine()
      requires Valid()
      modifies this
      ensures Valid() && Shrinks(old(blankCandidates), blankCandidates)
      ensures field == old(field) && blockMap == old(blockMap) && blankBlocks == old(blankBlocks)
      ensures forall s :: old(Sound(s)) ==> Sound(s)
    {
      ghost var c0 := blankCandidates;
      var b := 1;
      while b <= rank
        invariant 1 <= b <= rank + 1
        invariant Narrowed(c0)
        invariant field == old(field) && blockMap == old(blockMap) && blankBlocks == old(blankBlocks)
      {
        if |blankBlocks[b]| >= 2 {
          var n := 1;
          while n <= rank
            invariant 1 <= n <= rank + 1
            invariant Narrowed(c0)
            invariant field == old(field) && blockMap == old(blockMap) && blankBlocks == old(blankBlocks)
          {
            if GetMapPosition(b, n) < 0 {
              ghost var _, _ := PointFromBlock(b, n, c0);
            }
            n := n + 1;
          }
        }
        b := b + 1;
      }
    }

    /**
     * One (block, number) step of updateCandidateOutBlockOfLine. When the cells of block b with
     * candidate n all lie in one row and not in one column, the row's other blank cells outside
     * the block lose n (kind is Row); the same for a column; otherwise nothing changes.
     */
    method PointFromBlock(b: int, n: int, ghost c0: map<int, seq<int>>) returns (ghost kind: Group, ghost line: int)
      requires Narrowed(c0) && 1 <= b <= rank && 1 <= n <= rank
      requires Unplaced(rank, blockIndices, field, Block, b, n)
      modifies this
      ensures Narrowed(c0)
      ensures field == old(field) && blockMap == old(blockMap) && blankBlocks == old(blankBlocks)
      ensures var rows := HolderGroups(rank, blockIndices, Row, old(blankCandidates), blankBlocks[b], n);
              var columns := HolderGroups(rank, blockIndices, Column, old(blankCandidates), blankBlocks[b], n);
              (kind == Row <==> |rows| == 1 && |columns| > 1) && (kind == Row ==> rows == {line})
              && (kind == Column <==> |columns| == 1 && |rows| > 1) && (kind == Column ==> columns == {line})
              && kind != Block
      ensures kind == NoGroup ==> blankCandidates == old(blankCandidates)
      ensures kind != NoGroup ==>
                forall q :: q in blankCandidates && InGroup(rank, blockIndices, kind, line, q) && blockIndices[q] != b ==>
                  n !in blankCandidates[q]
      ensures forall q :: q in blankCandidates && (!InGroup(rank, blockIndices, kind, line, q) || blockIndices[q] == b) ==>
                blankCandidates[q] == old(blankCandidates)[q]
    {
      assert forall q :: q in blankBlocks[b] ==> q in blankCandidates && 0 <= q < |blockIndices|;
      ghost var rows := HolderGroups(rank, blockIndices, Row, blankCandidates, blankBlocks[b], n);
      ghost var columns := HolderGroups(rank, blockIndices, Column, blankCandidates, blankBlocks[b], n);
      var sameRow, sameColumn, row, column := BlockLines(rank, blockIndices, blankCandidates, blankBlocks[b], n);
      assert sameRow && !sameColumn ==> rows == {row} && |rows| == 1 && |columns| > 1;
      assert sameColumn && !sameRow ==> columns == {column} && |columns| == 1 && |rows| > 1;
      if sameRow == sameColumn {
        return NoGroup, -1;
      }
      assert forall q :: HasCandidate(blankCandidates, q, n) && InGroup(rank, blockIndices, Block, b, q) ==> q in blankBlocks[b];
      var i := if sameRow then row else column;
      kind, line := LineGroup(sameRow), i;
      ConfinedByHolders(rank, blockIndices, blankCandidates, Block, b, kind, blankBlocks[b], {i}, n);
      assert 0 <= i < rank by {
        var q := HolderWitness(rank, blockIndices, kind, blankCandidates, blankBlocks[b], n, i);
        PositionCoordinates(rank, q);
      }
      ClearOutsideBlock(sameRow, i, b, n, c0);
    }

    /**
     * The removal loop shared by updateCandidateOutBlockOfLine and updateCandidateInOneLine: block b
     * still lacks n and its candidates n all lie in line i, so the line's blank cells outside the
     * block lose n.
     */
    method ClearOutsideBlock(horizontal: bool, i: int, b: int, n: int, ghost c0: map<int, seq<int>>)
      requires Narrowed(c0) && 0 <= i < rank && 1 <= b <= rank && 1 <= n <= rank
      requires Unplaced(rank, blockIndices, field, Block, b, n)
      requires Confined(rank, blockIndices, blankCandidates, Block, b, LineGroup(horizontal), {i}, n)
      modifies this
      ensures Narrowed(c0)
      ensures field == old(field) && blockMap == old(blockMap) && blankBlocks == old(blankBlocks)
      ensures forall q :: q in blankCandidates && InGroup(rank, blockIndices, LineGroup(horizontal), i, q) && blockIndices[q] != b ==>
                n !in blankCandidates[q]
      ensures forall q :: q in blankCandidates && (!InGroup(rank, blockIndices, LineGroup(horizontal), i, q) || blockIndices[q] == b) ==>
                blankCandidates[q] == old(blankCandidates)[q]
    {
      PointingClears(rank, blockIndices, field, c0, blankCandidates, Block, b, LineGroup(horizontal), i, n);
      ClearLine(horizontal, i, {}, {b}, [n], c0);
      forall q | q in blankCandidates && InGroup(rank, blockIndices, LineGroup(horizontal), i, q) && blockIndices[q] != b
        ensures n !in blankCandidates[q]
      {
        assert !Spared(blockIndices, {}, {b}, q) && n in [n];
      }
    }
    /**
     * updateCandidateByXWing: records are collected for every line (a row when horizontal) whose
     * candidates n sit on exactly two crossing lines; a later record with the same two crossing
     * lines and number as the first one seen forms an X-wing with it, and the crossing lines'
     * other blank cells lose n. Nothing else changes, and no solution still reachable is lost.
     */
    method XWing(horizontal: bool) returns (ghost records: seq<XWingLine>)
      requires Valid()
      modifies this
      ensures Valid() && Shrinks(old(blankCandidates), blankCandidates)
      ensures field == old(field) && blockMap == old(blockMap) && blankBlocks == old(blankBlocks)
      ensures forall s :: old(Sound(s)) ==> Sound(s)
      ensures XWingLines(rank, blockIndices, old(blankCandidates), horizontal, records)
      ensures forall line, n :: 1 <= n <= rank && TwoCrossings(rank, blockIndices, old(blankCandidates), horizontal, line, n) ==>
                RecordedAt(records, line, n)
      ensures XWingsCleared(rank, blockIndices, blankCandidates, horizontal, records, |records|)
    {
      ghost var c0 := blankCandidates;
      var values := CollectXWings(rank, blockIndices, field, blankCandidates, horizontal);
      records := values;
      MatchXWings(horizontal, values, c0);
    }

    /**
     * The matching loop of updateCandidateByXWing over the records collected from c0: every record
     * filed under a key seen before forms an X-wing with the first record of that key.
     */
    method MatchXWings(horizontal: bool, values: seq<XWingLine>, ghost c0: map<int, seq<int>>)
      requires Narrowed(c0) && XWingLines(rank, blockIndices, c0, horizontal, values)
      requires forall a, b :: 0 <= a < b < |values| ==> XWingBefore(values[a], values[b])
      modifies this
      ensures Narrowed(c0)
      ensures field == old(field) && blockMap == old(blockMap) && blankBlocks == old(blankBlocks)
      ensures XWingsCleared(rank, blockIndices, blankCandidates, horizontal, values, |values|)
    {
      var keyValues: map<(int, int, int), XWingLine> := map[];
      ghost var at: map<(int, int, int), int> := map[];
      var j := 0;
      while j < |values|
        invariant XWingPass(c0, horizontal, values, j, keyValues, at)
        invariant (field, blockMap, blankBlocks) == old((field, blockMap, blankBlocks))
      {
        keyValues, at := FileXWing(horizontal, values, j, keyValues, at, c0);
        j := j + 1;
      }
      XWingPassDone(c0, horizontal, values, j, keyValues, at);
    }

    /** The matching loop has seen every record: all its X-wings are applied. */
    lemma XWingPassDone(c0: map<int, seq<int>>, horizontal: bool, values: seq<XWingLine>,
                        j: int, keyValues: map<(int, int, int), XWingLine>, at: map<(int, int, int), int>)
      requires XWingPass(c0, horizontal, values, j, keyValues, at) && j >= |values|
      ensures Narrowed(c0) && XWingsCleared(rank, blockIndices, blankCandidates, horizontal, values, |values|)
    {
    }

    /** The state of the matching loop of updateCandidateByXWing started from c0 after j records. */
    ghost predicate XWingPass(c0: map<int, seq<int>>, horizontal: bool, values: seq<XWingLine>,
                              j: int, keyValues: map<(int, int, int), XWingLine>, at: map<(int, int, int), int>)
      reads this
    {
      Narrowed(c0) && XWingScan(rank, blockIndices, blankCandidates, horizontal, values, j, keyValues, at)
    }

    /**
     * One record of the matching loop of updateCandidateByXWing: under a new key it is kept as the
     * first of its key; otherwise it and the first record of its key form an X-wing, whose crossing
     * lines lose the number off the two lines.
     */
    method FileXWing(horizontal: bool, values: seq<XWingLine>, j: int, keyValues: map<(int, int, int), XWingLine>,
                     ghost at: map<(int, int, int), int>, ghost c0: map<int, seq<int>>)
      returns (keyValues': map<(int, int, int), XWingLine>, ghost at': map<(int, int, int), int>)
      requires XWingPass(c0, horizontal, values, j, keyValues, at) && j < |values|
      requires XWingLines(rank, blockIndices, c0, horizontal, values)
      requires forall a, b :: 0 <= a < b < |values| ==> XWingBefore(values[a], values[b])
      modifies this
      ensures XWingPass(c0, horizontal, values, j + 1, keyValues', at')
      ensures field == old(field) && blockMap == old(blockMap) && blankBlocks == old(blankBlocks)
    {
      var value := values[j];
      var key := (value.line0, value.line1, value.number);
      if key !in keyValues {
        XWingScanFirst(rank, blockIndices, blankCandidates, horizontal, values, j, keyValues, at);
        keyValues', at' := keyValues[key := value], at[key := j];
        return;
      }
      keyValues', at' := keyValues, at;
      var first := keyValues[key];
      XWingLinesAt(rank, blockIndices, c0, horizontal, values, at[key]);
      XWingLinesAt(rank, blockIndices, c0, horizontal, values, j);
      assert XWingBefore(values[at[key]], values[j]);
      XWingClear(horizontal, first, value, c0);
      XWingScanPaired(rank, blockIndices, old(blankCandidates), blankCandidates, horizontal, values, j, keyValues, at);
    }

    /**
     * The two removeCandidateAndPrint calls of updateCandidateByXWing: lines `first.line` and
     * `second.line` (rows when horizontal) hold their candidates n only on crossing lines line0
     * and line1, so those crossing lines lose n outside the two lines; no other cell changes.
     */
    method XWingClear(horizontal: bool, first: XWingLine, second: XWingLine, ghost c0: map<int, seq<int>>)
      requires Narrowed(c0) && first.line < second.line
      requires first.line0 == second.line0 && first.line1 == second.line1 && first.number == second.number
      requires XWingOf(rank, blockIndices, c0, horizontal, first) && XWingOf(rank, blockIndices, c0, horizontal, second)
      modifies this
      ensures Narrowed(c0) && Shrinks(old(blankCandidates), blankCandidates)
      ensures field == old(field) && blockMap == old(blockMap) && blankBlocks == old(blankBlocks)
      ensures forall q :: q in blankCandidates
                          && (InGroup(rank, blockIndices, LineGroup(!horizontal), first.line0, q)
                              || InGroup(rank, blockIndices, LineGroup(!horizontal), first.line1, q))
                          && !InGroup(rank, blockIndices, LineGroup(horizontal), first.line, q)
                          && !InGroup(rank, blockIndices, LineGroup(horizontal), second.line, q) ==>
                first.number !in blankCandidates[q]
      ensures forall q :: q in blankCandidates
                          && (InGroup(rank, blockIndices, LineGroup(horizontal), first.line, q)
                              || InGroup(rank, blockIndices, LineGroup(horizontal), second.line, q)
                              || (!InGroup(rank, blockIndices, LineGroup(!horizontal), first.line0, q)
                                  && !InGroup(rank, blockIndices, LineGroup(!horizontal), first.line1, q))) ==>
                blankCandidates[q] == old(blankCandidates)[q]
    {
      var n, line0, line1, line2, line3 := first.number, first.line0, first.line1, first.line, second.line;
      UnplacedNearCandidate(rank, blockIndices, field, c0, LineCell(rank, horizontal, line2, line0), n, LineGroup(horizontal));
      UnplacedNearCandidate(rank, blockIndices, field, c0, LineCell(rank, horizontal, line3, line0), n, LineGroup(horizontal));
      TwoGroupsClear(rank, blockIndices, field, c0, c0, LineGroup(horizontal), line2, line3,
                     LineGroup(!horizontal), line0, line1, n);
      ClearCrossing(horizontal, line0, line2, line3, n, c0);
      ClearCrossing(horizontal, line1, line2, line3, n, c0);
    }

    /**
     * One removeCandidateAndPrint call of updateCandidateByXWing: the blank cells of crossing line
     * `line` (a column when horizontal) off lines line2 and line3 lose n; no other cell changes.
     */
    method ClearCrossing(horizontal: bool, line: int, line2: int, line3: int, n: int, ghost c0: map<int, seq<int>>)
      requires Narrowed(c0) && 0 <= line < rank && 0 <= line2 < rank && 0 <= line3 < rank && 1 <= n <= rank
      requires forall s, q ::
                 SoundState(rank, blockIndices, field, c0, s) && InGroup(rank, blockIndices, LineGroup(!horizontal), line, q)
                 && !InGroup(rank, blockIndices, LineGroup(horizontal), line2, q)
                 && !InGroup(rank, blockIndices, LineGroup(horizontal), line3, q) ==>
                   s[q] != n
      modifies this
      ensures Narrowed(c0) && Shrinks(old(blankCandidates), blankCandidates)
      ensures field == old(field) && blockMap == old(blockMap) && blankBlocks == old(blankBlocks)
      ensures forall q :: q in blankCandidates && InGroup(rank, blockIndices, LineGroup(!horizontal), line, q)
                          && !InGroup(rank, blockIndices, LineGroup(horizontal), line2, q)
                          && !InGroup(rank, blockIndices, LineGroup(horizontal), line3, q) ==>
                n !in blankCandidates[q]
      ensures forall q :: q in blankCandidates && (InGroup(rank, blockIndices, LineGroup(horizontal), line2, q)
                                                  || InGroup(rank, blockIndices, LineGroup(horizontal), line3, q)
                                                  || !InGroup(rank, blockIndices, LineGroup(!horizontal), line, q)) ==>
                blankCandidates[q] == old(blankCandidates)[q]
    {
      var skip := {LineCell(rank, !horizontal, line, line2), LineCell(rank, !horizontal, line, line3)};
      forall q | InGroup(rank, blockIndices, LineGroup(!horizontal), line, q)
        ensures q in skip <==> InGroup(rank, blockIndices, LineGroup(horizontal), line2, q)
                               || InGroup(rank, blockIndices, LineGroup(horizontal), line3, q)
      {
        PositionOnLine(rank, horizontal, q);
        CrossingCell(rank, horizontal, LineOf(rank, horizontal, q), line, q);
      }
      ClearLine(!horizontal, line, skip, {}, [n], c0);
      forall q | q in blankCandidates && InGroup(rank, blockIndices, LineGroup(!horizontal), line, q)
                 && !InGroup(rank, blockIndices, LineGroup(horizontal), line2, q)
                 && !InGroup(rank, blockIndices, LineGroup(horizontal), line3, q)
        ensures n !in blankCandidates[q]
      {
        assert !Spared(blockIndices, skip, {}, q) && n in [n];
      }
    }

    /**
     * updateCandidateInOneLine: when the candidates n of a block that still lacks n all lie in one
     * line (a row when horizontal), the line's other blank cells outside the block lose n.
     * Nothing else changes, and no solution still reachable is lost.
     */
    method InOneLine(horizontal: bool)
      requires Valid()
      modifies this
      ensures Valid() && Shrinks(old(blankCandidates), blankCandidates)
      ensures field == old(field) && blockMap == old(blockMap) && blankBlocks == old(blankBlocks)
      ensures forall s :: old(Sound(s)) ==> Sound(s)
    {
      ghost var c0 := blankCandidates;
      var b := 1;
      while b <= rank
        invariant 1 <= b <= rank + 1
        invariant Narrowed(c0)
        invariant field == old(field) && blockMap == old(blockMap) && blankBlocks == old(blankBlocks)
      {
        var n := 1;
        while n <= rank
          invariant 1 <= n <= rank + 1
          invariant Narrowed(c0)
          invariant field == old(field) && blockMap == old(blockMap) && blankBlocks == old(blankBlocks)
        {
          if GetMapPosition(b, n) < 0 {
            ghost var _ := ProjectBlock(horizontal, b, n, c0);
          }
          n := n + 1;
        }
        b := b + 1;
      }
    }

    /**
     * One (block, number) step of updateCandidateInOneLine: when the cells of block b with
     * candidate n all lie in one line, that line's blank cells outside the block lose n.
     */
    method ProjectBlock(horizontal: bool, b: int, n: int, ghost c0: map<int, seq<int>>) returns (ghost line: Option<int>)
      requires Narrowed(c0) && 1 <= b <= rank && 1 <= n <= rank
      requires Unplaced(rank, blockIndices, field, Block, b, n)
      modifies this
      ensures Narrowed(c0)
      ensures field == old(field) && blockMap == old(blockMap) && blankBlocks == old(blankBlocks)
      ensures var lines := HolderGroups(rank, blockIndices, LineGroup(horizontal), old(blankCandidates), blankBlocks[b], n);
              (line.Some? <==> |lines| == 1) && (line.Some? ==> lines == {line.value})
      ensures line.None? ==> blankCandidates == old(blankCandidates)
      ensures line.Some? ==>
                forall q :: q in blankCandidates && InGroup(rank, blockIndices, LineGroup(horizontal), line.value, q) && blockIndices[q] != b ==>
                  n !in blankCandidates[q]
      ensures line.Some? ==>
                forall q :: q in blankCandidates && (!InGroup(rank, blockIndices, LineGroup(horizontal), line.value, q) || blockIndices[q] == b) ==>
                  blankCandidates[q] == old(blankCandidates)[q]
    {
      assert forall q :: q in blankBlocks[b] ==> q in blankCandidates && 0 <= q < |blockIndices|;
      var value := BlockLine(rank, blockIndices, blankCandidates, blankBlocks[b], n, horizontal);
      line := value;
      if value.Some? {
        var i := value.value;
        assert forall q :: HasCandidate(blankCandidates, q, n) && InGroup(rank, blockIndices, Block, b, q) ==> q in blankBlocks[b];
        ConfinedByHolders(rank, blockIndices, blankCandidates, Block, b, LineGroup(horizontal), blankBlocks[b], {i}, n);
        assert 0 <= i < rank by {
          var q := HolderWitness(rank, blockIndices, LineGroup(horizontal), blankCandidates, blankBlocks[b], n, i);
          PositionCoordinates(rank, q);
        }
        ClearOutsideBlock(horizontal, i, b, n, c0);
      }
    }

    /**
     * updateCandidateBetweenTwoLines: when, for two blocks that both still lack n, the cells with
     * candidate n lie on the same two lines (rows when horizontal), n is in those lines inside the
     * two blocks, so the lines' blank cells in every other block lose n.
     * Nothing else changes, and no solution still reachable is lost.
     */
    method BetweenTwoLines(horizontal: bool)
      requires Valid()
      modifies this
      ensures Valid() && Shrinks(old(blankCandidates), blankCandidates)
      ensures field == old(field) && blockMap == old(blockMap) && blankBlocks == old(blankBlocks)
      ensures forall s :: old(Sound(s)) ==> Sound(s)
    {
      ghost var c0 := blankCandidates;
      var b1 := 1;
      while b1 <= rank
        invariant 1 <= b1 <= rank + 1
        invariant Narrowed(c0)
        invariant field == old(field) && blockMap == old(blockMap) && blankBlocks == old(blankBlocks)
      {
        var b2 := b1 + 1;
        while b2 <= rank
          invariant b1 + 1 <= b2 <= rank + 1
          invariant Narrowed(c0)
          invariant field == old(field) && blockMap == old(blockMap) && blankBlocks == old(blankBlocks)
        {
          var n := 1;
          while n <= rank
            invariant 1 <= n <= rank + 1
            invariant Narrowed(c0)
            invariant field == old(field) && blockMap == old(blockMap) && blankBlocks == old(blankBlocks)
          {
            var position1 := GetMapPosition(b1, n);
            var position2 := GetMapPosition(b2, n);
            if position1 < 0 && position2 < 0 {
              ghost var _ := ProjectTwoBlocks(horizontal, b1, b2, n, c0);
            }
            n := n + 1;
          }
          b2 := b2 + 1;
        }
        b1 := b1 + 1;
      }
    }

    /**
     * One (b1, b2, number) step of updateCandidateBetweenTwoLines: both blocks' cells with candidate
     * n are projected onto lines, and when both give the same two lines, those lines' blank cells
     * outside the two blocks lose n.
     */
    method ProjectTwoBlocks(horizontal: bool, b1: int, b2: int, n: int, ghost c0: map<int, seq<int>>)
      returns (ghost lines: Option<(int, int)>)
      requires Narrowed(c0) && 1 <= b1 < b2 <= rank && 1 <= n <= rank
      requires Unplaced(rank, blockIndices, field, Block, b1, n) && Unplaced(rank, blockIndices, field, Block, b2, n)
      modifies this
      ensures Narrowed(c0)
      ensures field == old(field) && blockMap == old(blockMap) && blankBlocks == old(blankBlocks)
      ensures var lines1 := HolderGroups(rank, blockIndices, LineGroup(horizontal), old(blankCandidates), blankBlocks[b1], n);
              var lines2 := HolderGroups(rank, blockIndices, LineGroup(horizontal), old(blankCandidates), blankBlocks[b2], n);
              (lines.Some? <==> |lines1| == 2 && lines1 == lines2)
              && (lines.Some? ==> lines1 == {lines.value.0, lines.value.1})
      ensures lines.None? ==> blankCandidates == old(blankCandidates)
      ensures lines.Some? ==>
                forall q :: q in blankCandidates && blockIndices[q] != b1 && blockIndices[q] != b2
                            && (InGroup(rank, blockIndices, LineGroup(horizontal), lines.value.0, q)
                                || InGroup(rank, blockIndices, LineGroup(horizontal), lines.value.1, q)) ==>
                  n !in blankCandidates[q]
      ensures lines.Some? ==>
                forall q :: q in blankCandidates
                            && (blockIndices[q] == b1 || blockIndices[q] == b2
                                || (!InGroup(rank, blockIndices, LineGroup(horizontal), lines.value.0, q)
                                    && !InGroup(rank, blockIndices, LineGroup(horizontal), lines.value.1, q))) ==>
                  blankCandidates[q] == old(blankCandidates)[q]
    {
      assert forall q :: q in blankBlocks[b1] ==> q in blankCandidates && 0 <= q < |blockIndices|;
      assert forall q :: q in blankBlocks[b2] ==> q in blankCandidates && 0 <= q < |blockIndices|;
      var value1 := BlockTwoLines(rank, blockIndices, blankCandidates, blankBlocks[b1], n, horizontal);
      var value2 := BlockTwoLines(rank, blockIndices, blankCandidates, blankBlocks[b2], n, horizontal);
      if value1.Some? && value1 == value2 {
        var i1, i2 := value1.value.0, value1.value.1;
        assert forall q :: HasCandidate(blankCandidates, q, n) && InGroup(rank, blockIndices, Block, b1, q) ==> q in blankBlocks[b1];
        assert forall q :: HasCandidate(blankCandidates, q, n) && InGroup(rank, blockIndices, Block, b2, q) ==> q in blankBlocks[b2];
        ConfinedByHolders(rank, blockIndices, blankCandidates, Block, b1, LineGroup(horizontal), blankBlocks[b1], {i1, i2}, n);
        ConfinedByHolders(rank, blockIndices, blankCandidates, Block, b2, LineGroup(horizontal), blankBlocks[b2], {i1, i2}, n);
        assert 0 <= i1 < rank && 0 <= i2 < rank by {
          var q1 := HolderWitness(rank, blockIndices, LineGroup(horizontal), blankCandidates, blankBlocks[b1], n, i1);
          var q2 := HolderWitness(rank, blockIndices, LineGroup(horizontal), blankCandidates, blankBlocks[b1], n, i2);
          PositionCoordinates(rank, q1);
          PositionCoordinates(rank, q2);
        }
        ClearTwoBlocks(horizontal, i1, i2, b1, b2, n, c0);
        lines := value1;
      } else {
        lines := None;
        assert value1.Some? && value2.Some? ==> value1.value.0 != value2.value.0 || value1.value.1 != value2.value.1;
      }
    }

    /**
     * The two removeCandidateAndPrint calls of updateCandidateBetweenTwoLines: the blank cells of
     * lines i1 and i2 outside blocks b1 and b2 lose n; no other cell changes.
     */
    method ClearTwoBlocks(horizontal: bool, i1: int, i2: int, b1: int, b2: int, n: int, ghost c0: map<int, seq<int>>)
      requires Narrowed(c0) && 0 <= i1 < rank && 0 <= i2 < rank && 1 <= n <= rank
      requires 1 <= b1 <= rank && 1 <= b2 <= rank && b1 != b2
      requires Unplaced(rank, blockIndices, field, Block, b1, n) && Unplaced(rank, blockIndices, field, Block, b2, n)
      requires Confined(rank, blockIndices, blankCandidates, Block, b1, LineGroup(horizontal), {i1, i2}, n)
      requires Confined(rank, blockIndices, blankCandidates, Block, b2, LineGroup(horizontal), {i1, i2}, n)
      modifies this
      ensures Narrowed(c0)
      ensures field == old(field) && blockMap == old(blockMap) && blankBlocks == old(blankBlocks)
      ensures forall q :: q in blankCandidates && blockIndices[q] != b1 && blockIndices[q] != b2
                          && (InGroup(rank, blockIndices, LineGroup(horizontal), i1, q)
                              || InGroup(rank, blockIndices, LineGroup(horizontal), i2, q)) ==>
                n !in blankCandidates[q]
      ensures forall q :: q in blankCandidates
                          && (blockIndices[q] == b1 || blockIndices[q] == b2
                              || (!InGroup(rank, blockIndices, LineGroup(horizontal), i1, q)
                                  && !InGroup(rank, blockIndices, LineGroup(horizontal), i2, q))) ==>
                blankCandidates[q] == old(blankCandidates)[q]
    {
      TwoGroupsClear(rank, blockIndices, field, c0, blankCandidates, Block, b1, b2, LineGroup(horizontal), i1, i2, n);
      ClearLine(horizontal, i1, {}, {b1, b2}, [n], c0);
      ClearLine(horizontal, i2, {}, {b1, b2}, [n], c0);
      forall q | q in blankCandidates && blockIndices[q] != b1 && blockIndices[q] != b2
                 && (InGroup(rank, blockIndices, LineGroup(horizontal), i1, q)
                     || InGroup(rank, blockIndices, LineGroup(horizontal), i2, q))
        ensures n !in blankCandidates[q]
      {
        assert !Spared(blockIndices, {}, {b1, b2}, q) && n in [n];
      }
    }

    /**
     * Lines t, in increasing order, confine the candidates n of block b, which still lacks n: the
     * fact a cached projection of updateCandidateAmongThreeLines stands for.
     */
    ghost predicate LinesConfine(horizontal: bool, b: int, n: int, t: (int, int, int))
      reads this
    {
      1 <= b <= rank && 0 <= t.0 < t.1 < t.2 < rank && Unplaced(rank, blockIndices, field, Block, b, n)
      && Confined(rank, blockIndices, blankCandidates, Block, b, LineGroup(horizontal), {t.0, t.1, t.2}, n)
    }

    /**
     * The project lambda of updateCandidateAmongThreeLines: the three lines, in increasing order,
     * through the cells of block b with candidate n, or None unless there are exactly three.
     */
    method ProjectThree(horizontal: bool, b: int, n: int) returns (value: Option<(int, int, int)>)
      requires Valid() && 1 <= b <= rank && 1 <= n <= rank && Unplaced(rank, blockIndices, field, Block, b, n)
      ensures var lines := HolderGroups(rank, blockIndices, LineGroup(horizontal), blankCandidates, blankBlocks[b], n);
              (value.Some? <==> |lines| == 3) && (value.Some? ==> lines == {value.value.0, value.value.1, value.value.2})
      ensures value.Some? ==> LinesConfine(horizontal, b, n, value.value)
    {
      assert forall q :: q in blankBlocks[b] ==> q in blankCandidates && 0 <= q < |blockIndices|;
      value := BlockThreeLines(rank, blockIndices, blankCandidates, blankBlocks[b], n, horizontal);
      if value.Some? {
        var t := value.value;
        assert forall q :: HasCandidate(blankCandidates, q, n) && InGroup(rank, blockIndices, Block, b, q) ==> q in blankBlocks[b];
        ConfinedByHolders(rank, blockIndices, blankCandidates, Block, b, LineGroup(horizontal), blankBlocks[b], {t.0, t.1, t.2}, n);
        assert 0 <= t.0 && t.2 < rank by {
          var q0 := HolderWitness(rank, blockIndices, LineGroup(horizontal), blankCandidates, blankBlocks[b], n, t.0);
          var q2 := HolderWitness(rank, blockIndices, LineGroup(horizontal), blankCandidates, blankBlocks[b], n, t.2);
          PositionCoordinates(rank, q0);
          PositionCoordinates(rank, q2);
        }
      }
    }

    /**
     * updateCandidateAmongThreeLines: when, for three blocks that all still lack n, the cells with
     * candidate n lie on the same three lines (rows when horizontal), n is in those lines inside the
     * three blocks, so the lines' blank cells in every other block lose n. The projection of the
     * first block is made once per (number, first block), that of the second once per second block.
     * Nothing else changes, and no solution still reachable is lost.
     */
    method AmongThreeLines(horizontal: bool)
      requires Valid()
      modifies this
      ensures Valid() && Shrinks(old(blankCandidates), blankCandidates)
      ensures field == old(field) && blockMap == old(blockMap) && blankBlocks == old(blankBlocks)
      ensures forall s :: old(Sound(s)) ==> Sound(s)
    {
      ghost var c0 := blankCandidates;
      var n := 1;
      while n <= rank
        invariant 1 <= n <= rank + 1
        invariant Narrowed(c0)
        invariant field == old(field) && blockMap == old(blockMap) && blankBlocks == old(blankBlocks)
      {
        var b1 := 1;
        while b1 <= rank
          invariant 1 <= b1 <= rank + 1
          invariant Narrowed(c0)
          invariant field == old(field) && blockMap == old(blockMap) && blankBlocks == old(blankBlocks)
        {
          var position1 := GetMapPosition(b1, n);
          if position1 < 0 {
            var value1 := ProjectThree(horizontal, b1, n);
            SecondBlocks(horizontal, n, b1, value1, c0);
          }
          b1 := b1 + 1;
        }
        n := n + 1;
      }
    }

    /** The b2 loop of updateCandidateAmongThreeLines, with the projection value1 of block b1. */
    method SecondBlocks(horizontal: bool, n: int, b1: int, value1: Option<(int, int, int)>, ghost c0: map<int, seq<int>>)
      requires Narrowed(c0) && 1 <= n <= rank && 1 <= b1 <= rank
      requires value1.Some? ==> LinesConfine(horizontal, b1, n, value1.value)
      modifies this
      ensures Narrowed(c0)
      ensures field == old(field) && blockMap == old(blockMap) && blankBlocks == old(blankBlocks)
    {
      var b2 := b1 + 1;
      while b2 <= rank
        invariant b1 + 1 <= b2 <= rank + 1
        invariant Narrowed(c0)
        invariant field == old(field) && blockMap == old(blockMap) && blankBlocks == old(blankBlocks)
        invariant value1.Some? ==> LinesConfine(horizontal, b1, n, value1.value)
      {
        var position2 := GetMapPosition(b2, n);
        if position2 < 0 {
          var value2 := ProjectThree(horizontal, b2, n);
          ThirdBlocks(horizontal, n, b1, value1, b2, value2, c0);
        }
        b2 := b2 + 1;
      }
    }

    /**
     * The b3 loop of updateCandidateAmongThreeLines: a third block projecting onto the same three
     * lines as blocks b1 and b2 clears those lines outside the three blocks.
     */
    method ThirdBlocks(horizontal: bool, n: int, b1: int, value1: Option<(int, int, int)>,
                       b2: int, value2: Option<(int, int, int)>, ghost c0: map<int, seq<int>>)
      requires Narrowed(c0) && 1 <= n <= rank && 1 <= b1 < b2 <= rank
      requires value1.Some? ==> LinesConfine(horizontal, b1, n, value1.value)
      requires value2.Some? ==> LinesConfine(horizontal, b2, n, value2.value)
      modifies this
      ensures Narrowed(c0)
      ensures field == old(field) && blockMap == old(blockMap) && blankBlocks == old(blankBlocks)
      ensures value1.Some? ==> LinesConfine(horizontal, b1, n, value1.value)
    {
      var b3 := b2 + 1;
      while b3 <= rank
        invariant b2 + 1 <= b3 <= rank + 1
        invariant Narrowed(c0)
        invariant field == old(field) && blockMap == old(blockMap) && blankBlocks == old(blankBlocks)
        invariant value1.Some? ==> LinesConfine(horizontal, b1, n, value1.value)
        invariant value2.Some? ==> LinesConfine(horizontal, b2, n, value2.value)
      {
        var position3 := GetMapPosition(b3, n);
        if position3 < 0 {
          var value3 := ProjectThree(horizontal, b3, n);
          if value1.Some? && value1 == value2 && value1 == value3 {
            ClearThreeBlocks(horizontal, value1.value, b1, b2, b3, n, c0);
          }
        }
        b3 := b3 + 1;
      }
    }

    /**
     * The three removeCandidateAndPrint calls of updateCandidateAmongThreeLines: the blank cells of
     * the lines t outside blocks b1, b2 and b3 lose n; the cells of the three blocks and every
     * cell off the three lines keep their candidates.
     */
    method ClearThreeBlocks(horizontal: bool, t: (int, int, int), b1: int, b2: int, b3: int, n: int,
                            ghost c0: map<int, seq<int>>)
      requires Narrowed(c0) && 1 <= n <= rank && b1 != b2 && b1 != b3 && b2 != b3
      requires LinesConfine(horizontal, b1, n, t) && LinesConfine(horizontal, b2, n, t) && LinesConfine(horizontal, b3, n, t)
      modifies this
      ensures Narrowed(c0)
      ensures field == old(field) && blockMap == old(blockMap) && blankBlocks == old(blankBlocks)
      ensures forall q :: q in blankCandidates && blockIndices[q] != b1 && blockIndices[q] != b2 && blockIndices[q] != b3
                          && (InGroup(rank, blockIndices, LineGroup(horizontal), t.0, q)
                              || InGroup(rank, blockIndices, LineGroup(horizontal), t.1, q)
                              || InGroup(rank, blockIndices, LineGroup(horizontal), t.2, q)) ==>
                n !in blankCandidates[q]
      ensures forall q :: q in blankCandidates
                          && (blockIndices[q] == b1 || blockIndices[q] == b2 || blockIndices[q] == b3
                              || (!InGroup(rank, blockIndices, LineGroup(horizontal), t.0, q)
                                  && !InGroup(rank, blockIndices, LineGroup(horizontal), t.1, q)
                                  && !InGroup(rank, blockIndices, LineGroup(horizontal), t.2, q))) ==>
                blankCandidates[q] == old(blankCandidates)[q]
    {
      ThreeGroupsClear(rank, blockIndices, field, c0, blankCandidates, Block, b1, b2, b3, LineGroup(horizontal), t.0, t.1, t.2, n);
      ClearLine(horizontal, t.0, {}, {b1, b2, b3}, [n], c0);
      ClearLine(horizontal, t.1, {}, {b1, b2, b3}, [n], c0);
      ClearLine(horizontal, t.2, {}, {b1, b2, b3}, [n], c0);
      forall q | q in blankCandidates && blockIndices[q] != b1 && blockIndices[q] != b2 && blockIndices[q] != b3
                 && (InGroup(rank, blockIndices, LineGroup(horizontal), t.0, q)
                     || InGroup(rank, blockIndices, LineGroup(horizontal), t.1, q)
                     || InGroup(rank, blockIndices, LineGroup(horizontal), t.2, q))
        ensures n !in blankCandidates[q]
      {
        assert !Spared(blockIndices, {}, {b1, b2, b3}, q) && n in [n];
      }
    }

    /**
     * updateCandidateInBlockOutOfLine: when the blank cells of line i (row i when horizontal) with
     * candidate n all lie in one block, n is in that block on line i, so the block's blank cells
     * off the line lose n. A removal that finds n already gone ends the whole strategy: `halt`
     * then names the line, the number, the block and the cell where it stopped.
     * Nothing else changes, and no solution still reachable is lost.
     */
    method InBlockOutOfLine(horizontal: bool) returns (ghost halt: Option<(int, int, int, int)>)
      requires Valid()
      modifies this
      ensures Valid() && Shrinks(old(blankCandidates), blankCandidates)
      ensures field == old(field) && blockMap == old(blockMap) && blankBlocks == old(blankBlocks)
      ensures forall s :: old(Sound(s)) ==> Sound(s)
      ensures halt.Some? ==> var (i, n, b, stop) := halt.value; StoppedAt(horizontal, i, n, b, stop)
    {
      ghost var c0 := blankCandidates;
      halt := None;
      var i := 0;
      while i < rank
        invariant 0 <= i <= rank
        invariant Narrowed(c0) && halt.None?
        invariant field == old(field) && blockMap == old(blockMap) && blankBlocks == old(blankBlocks)
      {
        var n := 1;
        while n <= rank
          invariant 1 <= n <= rank + 1
          invariant Narrowed(c0) && halt.None?
          invariant field == old(field) && blockMap == old(blockMap) && blankBlocks == old(blankBlocks)
        {
          var completed, block, stop := LineToBlock(horizontal, i, n, c0);
          if !completed {
            halt := Some((i, n, block, stop));
            return;
          }
          n := n + 1;
        }
        i := i + 1;
      }
    }

    /**
     * Where updateCandidateInBlockOutOfLine gave up: the holders of n on line i all lie in block b,
     * the cells of b off the line before `stop` lack n, and the cell `stop` of b off the line
     * lacked n already.
     */
    ghost predicate StoppedAt(horizontal: bool, i: int, n: int, b: int, stop: int)
      reads this
    {
      0 <= i < rank && 1 <= n <= rank && |blockIndices| == rank * rank
      && HolderGroups(rank, blockIndices, Block, blankCandidates, LineCells(rank, horizontal, i), n) == {b}
      && stop in blankCandidates && OffLine(rank, blockIndices, horizontal, i, b, stop) && n !in blankCandidates[stop]
      && forall q :: q in blankCandidates && q < stop && OffLine(rank, blockIndices, horizontal, i, b, q) ==>
           n !in blankCandidates[q]
    }

    /**
     * One (line, number) step of updateCandidateInBlockOutOfLine: the line is scanned for the one
     * block holding its candidates n, and that block's blank cells off the line lose n, in
     * increasing position order, until one of them (`stop`) turns out to lack n already.
     */
    method LineToBlock(horizontal: bool, i: int, n: int, ghost c0: map<int, seq<int>>)
      returns (completed: bool, ghost block: int, ghost stop: int)
      requires Narrowed(c0) && 0 <= i < rank && 1 <= n <= rank
      modifies this
      ensures Narrowed(c0)
      ensures field == old(field) && blockMap == old(blockMap) && blankBlocks == old(blankBlocks)
      ensures var all := HolderGroups(rank, blockIndices, Block, old(blankCandidates), LineCells(rank, horizontal, i), n);
              (0 < block <==> |all| == 1) && (0 < block ==> all == {block}) && 0 <= block
      ensures block == 0 ==> completed && blankCandidates == old(blankCandidates)
      ensures 0 < block ==> HolderGroups(rank, blockIndices, Block, blankCandidates, LineCells(rank, horizontal, i), n) == {block}
      ensures 0 < block ==> 0 <= stop <= rank * rank && (completed <==> stop == rank * rank)
      ensures 0 < block ==> forall q :: q in blankCandidates && q < stop && OffLine(rank, blockIndices, horizontal, i, block, q) ==>
                n !in blankCandidates[q]
      ensures 0 < block ==> forall q :: q in blankCandidates && (stop <= q || !OffLine(rank, blockIndices, horizontal, i, block, q)) ==>
                blankCandidates[q] == old(blankCandidates)[q]
      ensures !completed ==> 0 < block && stop in old(blankCandidates) && OffLine(rank, blockIndices, horizontal, i, block, stop)
                             && n !in old(blankCandidates)[stop]
    {
      assert Shaped(rank, blockIndices, field);
      assert forall q :: 0 <= q < |blockIndices| ==> blockIndices[q] > 0;
      var blockIndex := LineBlock(rank, blockIndices, field, blankCandidates, horizontal, i, n);
      block := blockIndex;
      completed := true;
      stop := rank * rank;
      if blockIndex > 0 {
        LineBlockPoints(rank, blockIndices, field, c0, blankCandidates, horizontal, i, n, blockIndex);
        completed, stop := ClearBlockOffLine(horizontal, i, blockIndex, n, c0);
        OffLineKeepsHolders(rank, blockIndices, old(blankCandidates), blankCandidates, horizontal, i, blockIndex, n);
      }
    }

    /**
     * The removal loop of updateCandidateInBlockOutOfLine: the blank cells of block b off line i,
     * in increasing position order, lose n, until the first one that lacks n already (`stop`),
     * where the loop gives up and reports it.
     */
    method ClearBlockOffLine(horizontal: bool, i: int, b: int, n: int, ghost c0: map<int, seq<int>>)
      returns (completed: bool, ghost stop: int)
      requires Narrowed(c0) && 0 <= i < rank && 1 <= b <= rank && 1 <= n <= rank
      requires forall s, q :: SoundState(rank, blockIndices, field, c0, s) && OffLine(rank, blockIndices, horizontal, i, b, q) ==> s[q] != n
      modifies this
      ensures Narrowed(c0)
      ensures field == old(field) && blockMap == old(blockMap) && blankBlocks == old(blankBlocks)
      ensures 0 <= stop <= rank * rank && (completed <==> stop == rank * rank)
      ensures forall q :: q in blankCandidates && q < stop && OffLine(rank, blockIndices, horizontal, i, b, q) ==>
                n !in blankCandidates[q]
      ensures forall q :: q in blankCandidates && (stop <= q || !OffLine(rank, blockIndices, horizontal, i, b, q)) ==>
                blankCandidates[q] == old(blankCandidates)[q]
      ensures !completed ==>
                stop in old(blankCandidates) && OffLine(rank, blockIndices, horizontal, i, b, stop) && n !in old(blankCandidates)[stop]
    {
      var p := 0;
      while p < rank * rank
        invariant OffLineScan(c0, old(blankCandidates), horizontal, i, b, n, p)
        invariant field == old(field) && blockMap == old(blockMap) && blankBlocks == old(blankBlocks)
      {
        var going := ClearOffLineAt(horizontal, i, b, n, c0, old(blankCandidates), p);
        if !going {
          return false, p;
        }
        p := p + 1;
      }
      return true, p;
    }

    /**
     * The loop of ClearBlockOffLine has passed the cells below p: those off the line in the block
     * lack n, and every other list is as it was in `start`.
     */
    ghost predicate OffLineScan(c0: map<int, seq<int>>, start: map<int, seq<int>>, horizontal: bool, i: int, b: int,
                                n: int, p: int)
      reads this
    {
      0 <= p <= rank * rank && Narrowed(c0) && start.Keys == blankCandidates.Keys
      && (forall q :: q in blankCandidates && q < p && OffLine(rank, blockIndices, horizontal, i, b, q) ==>
            n !in blankCandidates[q])
      && (forall q :: q in blankCandidates && (p <= q || !OffLine(rank, blockIndices, horizontal, i, b, q)) ==>
            blankCandidates[q] == start[q])
    }

    /** One round of the loop of ClearBlockOffLine: false when cell p is off the line and already lacks n. */
    method ClearOffLineAt(horizontal: bool, i: int, b: int, n: int, ghost c0: map<int, seq<int>>,
                          ghost start: map<int, seq<int>>, p: int) returns (going: bool)
      requires OffLineScan(c0, start, horizontal, i, b, n, p) && p < rank * rank && 1 <= n <= rank
      requires forall s, q :: SoundState(rank, blockIndices, field, c0, s) && OffLine(rank, blockIndices, horizontal, i, b, q) ==> s[q] != n
      modifies this
      ensures field == old(field) && blockMap == old(blockMap) && blankBlocks == old(blankBlocks)
      ensures going ==> OffLineScan(c0, start, horizontal, i, b, n, p + 1)
      ensures !going ==> OffLineScan(c0, start, horizontal, i, b, n, p)
                         && p in start && OffLine(rank, blockIndices, horizontal, i, b, p) && n !in start[p]
    {
      going := true;
      if p in blankCandidates && OffLine(rank, blockIndices, horizontal, i, b, p) {
        going := CrossOutAt(p, n, c0);
      }
    }

    /** removeCandidate on one blank cell whose n no solution reachable from c0 needs; only that cell changes. */
    method CrossOutAt(p: int, n: int, ghost c0: map<int, seq<int>>) returns (removed: bool)
      requires Narrowed(c0) && p in blankCandidates && 0 < n <= rank
      requires forall s :: SoundState(rank, blockIndices, field, c0, s) ==> s[p] != n
      modifies this
      ensures Narrowed(c0)
      ensures field == old(field) && blockMap == old(blockMap) && blankBlocks == old(blankBlocks)
      ensures removed <==> n in old(blankCandidates)[p]
      ensures p in blankCandidates && n !in blankCandidates[p] && (!removed ==> blankCandidates[p] == old(blankCandidates)[p])
      ensures forall q :: q in blankCandidates <==> q in old(blankCandidates)
      ensures forall q :: q in blankCandidates && q != p ==> blankCandidates[q] == old(blankCandidates)[q]
    {
      assert CandidateList(rank, blockIndices, field, p, blankCandidates[p]);
      WithoutAscending(blankCandidates[p], n);
      removed := Eliminate(p, n, c0);
    }

    /**
     * isSafe(row, column, number): the overload by coordinates scans the row and the column with
     * getNumber(row, column); it answers as isSafe does at the cell (row, column).
     */
    method IsSafeAt(row: int, column: int, number: int) returns (safe: bool)
      requires Shaped(rank, blockIndices, field) && |blockMap| == rank * rank
      requires 0 <= row < rank && 0 <= column < rank && 1 <= number <= rank
      ensures MapMatches(rank, blockIndices, field, blockMap) ==>
                (safe <==> field[CellAt(rank, row, column)] == InvalidNumber
                           && Absent(rank, blockIndices, field, CellAt(rank, row, column), number))
    {
      var position := row * rank + column;
      CellCoordinates(rank, row, column);
      if GetNumber(position) != InvalidNumber {
        return false;
      }
      AbsentByParts(rank, blockIndices, field, position, number);
      PositionCoordinates(rank, position);
      safe := RowLacksAt(row, number);
      if !safe {
        return;
      }
      safe := ColumnLacksAt(column, number);
      if !safe {
        return;
      }
      var blockIndex := blockIndices[position];
      safe := GetMapPosition(blockIndex, number) == InvalidPosition;
    }

    /** The row loop of isSafe(row, column, number), reading the row with getNumber(row, c). */
    method RowLacksAt(row: int, number: int) returns (clear: bool)
      requires 0 <= row < rank && |field| == rank * rank
      ensures clear <==> forall c :: 0 <= c < rank ==> field[CellAt(rank, row, c)] != number
    {
      var c := 0;
      while c < rank
        invariant 0 <= c <= rank
        invariant forall c' :: 0 <= c' < c ==> field[CellAt(rank, row, c')] != number
      {
        if GetNumberAt(row, c) == number {
          return false;
        }
        c := c + 1;
      }
      return true;
    }

    /** The column loop of isSafe(row, column, number), reading the column with getNumber(r, column). */
    method ColumnLacksAt(column: int, number: int) returns (clear: bool)
      requires 0 <= column < rank && |field| == rank * rank
      ensures clear <==> forall r :: 0 <= r < rank ==> field[CellAt(rank, r, column)] != number
    {
      var r := 0;
      while r < rank
        invariant 0 <= r <= rank
        invariant forall r' :: 0 <= r' < r ==> field[CellAt(rank, r', column)] != number
      {
        if GetNumberAt(r, column) == number {
          return false;
        }
        r := r + 1;
      }
      return true;
    }

    /**
     * isSafe(): the whole-field scan, with the same flag indexing as validate() (see
     * ValidateAsWritten): only a number repeated inside a block makes it fail.
     */
    method IsSafeField() returns (safe: bool)
      requires Shaped(rank, blockIndices, field)
      ensures safe <==> Clean(rank, blockIndices, field, Block)
    {
      var found := ValidateAsWritten(rank, blockIndices, field);
      safe := found.None?;
    }

    /**
     * update(): the strategies in their fixed order. Together they only cross candidates out,
     * never touch the field, and keep every solution still reachable.
     */
    method Update()
      requires Valid()
      modifies this
      ensures Valid() && Shrinks(old(blankCandidates), blankCandidates)
      ensures field == old(field) && blockMap == old(blockMap) && blankBlocks == old(blankBlocks)
      ensures forall s :: old(Sound(s)) ==> Sound(s)
    {
      ghost var _ := NakedPair();
      NakedTriple();
      ghost var rows := XWing(true);
      ghost var columns := XWing(false);
      OutBlockOfLine();
      ghost var c1 := blankCandidates;
      assert Shrinks(old(blankCandidates), c1);
      ghost var rowsHalt := InBlockOutOfLine(true);
      ghost var columnsHalt := InBlockOutOfLine(false);
      InOneLine(true);
      InOneLine(false);
      ghost var c2 := blankCandidates;
      assert Shrinks(c1, c2);
      BetweenTwoLines(true);
      BetweenTwoLines(false);
      AmongThreeLines(true);
      AmongThreeLines(false);
      assert Shrinks(c2, blankCandidates);
    }

    /** The countCandidate lambda of solve: the candidates of all blank cells, in key order. */
    method CountCandidates() returns (count: int)
      requires |field| == rank * rank
      ensures count == CandidateCount(blankCandidates, rank * rank)
    {
      count := 0;
      var p := 0;
      while p < rank * rank
        invariant 0 <= p <= rank * rank
        invariant count == CandidateCount(blankCandidates, p)
      {
        if p in blankCandidates {
          count := count + |blankCandidates[p]|;
        }
        p := p + 1;
      }
    }

    /**
     * The printStep lambda of solve: each step in turn is written with setNumber, except that a
     * cell an earlier step of the batch already filled is passed over. With steps every reachable
     * solution agrees with, each step's number ends up in its cell and no other cell changes.
     */
    method ApplySteps(steps: seq<Placement>, ghost s0: seq<int>)
      requires Valid() && Sound(s0)
      requires forall s, i :: Sound(s) && 0 <= i < |steps| ==>
                 0 <= steps[i].position < |s| && s[steps[i].position] == steps[i].number
      modifies this
      ensures Valid() && Agrees(old(field), field)
      ensures forall s :: old(Sound(s)) <==> Sound(s)
      ensures forall i :: 0 <= i < |steps| ==> field[steps[i].position] == steps[i].number
      ensures forall p :: 0 <= p < |field| && (forall i :: 0 <= i < |steps| ==> steps[i].position != p) ==>
                field[p] == old(field)[p]
      ensures CandidateCount(blankCandidates, rank * rank) <= old(CandidateCount(blankCandidates, rank * rank))
    {
      ghost var start, c0, n0 := field, blankCandidates, CandidateCount(blankCandidates, rank * rank);
      assert forall j :: 0 <= j < |steps| ==> 0 <= steps[j].position < |start| && s0[steps[j].position] == steps[j].number;
      var i := 0;
      while i < |steps|
        invariant StepsApplied(steps, i, s0, start, c0, n0)
      {
        ApplyNext(steps, i, s0, start, c0, n0);
        i := i + 1;
      }
      assert steps[..|steps|] == steps;
      WrittenCells(start, steps, s0);
      forall p | 0 <= p < |field| && old(field)[p] != InvalidNumber
        ensures field[p] == old(field)[p]
      {
        assert old(field)[p] == s0[p];
      }
    }

    /** The state after the first i steps of printStep, starting from field `start` and candidates `c0`. */
    ghost predicate StepsApplied(steps: seq<Placement>, i: int, s0: seq<int>, start: seq<int>,
                                 c0: map<int, seq<int>>, n0: int)
      reads this
    {
      0 <= i <= |steps| && Valid() && Sound(s0) && |field| == |start|
      && (forall s :: SoundState(rank, blockIndices, start, c0, s) <==> Sound(s))
      && (forall j :: 0 <= j < |steps| ==> 0 <= steps[j].position < |start|)
      && field == Written(start, steps[..i])
      && CandidateCount(blankCandidates, rank * rank) <= n0
    }

    /** One round of the printStep loop. */
    method ApplyNext(steps: seq<Placement>, i: int, ghost s0: seq<int>, ghost start: seq<int>,
                     ghost c0: map<int, seq<int>>, ghost n0: int)
      requires StepsApplied(steps, i, s0, start, c0, n0) && i < |steps|
      requires forall j :: 0 <= j < |steps| ==> s0[steps[j].position] == steps[j].number
      requires forall s, j :: SoundState(rank, blockIndices, start, c0, s) && 0 <= j < |steps| ==>
                 0 <= steps[j].position < |s| && s[steps[j].position] == steps[j].number
      modifies this
      ensures StepsApplied(steps, i + 1, s0, start, c0, n0)
    {
      ApplyStep(steps[i].position, steps[i].number, s0);
      assert steps[..i + 1][..i] == steps[..i];
      assert Written(start, steps[..i + 1]) == Written(start, steps[..i])[steps[i].position := steps[i].number];
    }

    /** One step of printStep: setNumber on a blank cell, nothing on a filled one. */
    method ApplyStep(position: int, number: int, ghost s0: seq<int>)
      requires Valid() && Sound(s0)
      requires forall s :: Sound(s) ==> 0 <= position < |s| && s[position] == number
      modifies this
      ensures Valid() && Sound(s0)
      ensures forall s :: old(Sound(s)) <==> Sound(s)
      ensures field == old(field)[position := number]
      ensures CandidateCount(blankCandidates, rank * rank) <= old(CandidateCount(blankCandidates, rank * rank))
    {
      if GetNumber(position) == InvalidNumber {
        AgreeingConflictFree(rank, blockIndices, field[position := number], s0);
        assert position in blankCandidates ==> number in blankCandidates[position];
        ghost var before := blankCandidates;
        ghost var previous := field;
        SetNumber(position, number);
        CountAfterPlacing(rank, blockIndices, before, position, number, rank * rank);
        forall s | Sound(s)
          ensures old(Sound(s))
        {
          PlacedSound(rank, blockIndices, previous, before, position, number, s);
        }
      } else {
        assert field[position] == s0[position];
        assert field == field[position := number];
      }
    }

    /**
     * solve(): rounds of naked singles, hidden singles and update() while the candidate count
     * keeps going down; it stops once the count is zero or a round did not lower it. Only blank
     * cells are filled, and every solution still reachable stays reachable.
     */
    method Solve() returns (ghost counts: seq<int>)
      requires Valid() && exists s :: Sound(s)
      modifies this
      ensures Valid() && Agrees(old(field), field)
      ensures forall s :: old(Sound(s)) ==> Sound(s)
      ensures |counts| >= 1 && counts[0] == old(CandidateCount(blankCandidates, rank * rank))
      ensures forall i, j :: 0 <= i < j < |counts| - 1 ==> 0 < counts[j] < counts[i]
      ensures |counts| == 1 ==> counts[0] == 0
      ensures |counts| >= 2 ==> counts[|counts| - 1] == 0 || counts[|counts| - 1] >= counts[|counts| - 2]
      ensures CandidateCount(blankCandidates, rank * rank) == counts[|counts| - 1]
    {
      if |blankCandidates| == 0 {
        CountZero(blankCandidates, rank * rank);
        return [0];
      }
      ghost var s0 :| Sound(s0);
      var count := CountCandidates();
      counts := [count];
      while true
        invariant Valid() && Agrees(old(field), field) && Sound(s0)
        invariant forall s :: old(Sound(s)) ==> Sound(s)
        invariant count == CandidateCount(blankCandidates, rank * rank)
        invariant |counts| >= 1 && counts[0] == old(CandidateCount(blankCandidates, rank * rank))
        invariant counts[|counts| - 1] == count
        invariant Falling(counts)
        decreases count
      {
        Round(s0);
        var newCount := CountCandidates();
        counts := counts + [newCount];
        if newCount != 0 && newCount < count {
          count := newCount;
        } else {
          return;
        }
      }
    }

    /**
     * One round of the loop of solve(): write the naked singles, then the hidden singles, then
     * run update(). Filled cells stay filled and no candidate is gained.
     */
    method Round(ghost s0: seq<int>)
      requires Valid() && Sound(s0)
      modifies this
      ensures Valid() && Agrees(old(field), field) && Sound(s0)
      ensures forall s :: old(Sound(s)) ==> Sound(s)
      ensures CandidateCount(blankCandidates, rank * rank) <= old(CandidateCount(blankCandidates, rank * rank))
      ensures forall p :: p in old(blankCandidates) && |old(blankCandidates)[p]| == 1 ==> field[p] == old(blankCandidates)[p][0]
    {
      NakedSinglesRound(s0);
      var hiddenSingleSteps := FindHiddenSingle();
      ApplySteps(hiddenSingleSteps, s0);
      ghost var before := blankCandidates;
      Update();
      CountShrinks(before, blankCandidates, rank * rank);
    }

    /** The naked-single part of a round of solve(): every cell left with one candidate is filled with it. */
    method NakedSinglesRound(ghost s0: seq<int>)
      requires Valid() && Sound(s0)
      modifies this
      ensures Valid() && Agrees(old(field), field) && Sound(s0)
      ensures forall s :: old(Sound(s)) ==> Sound(s)
      ensures CandidateCount(blankCandidates, rank * rank) <= old(CandidateCount(blankCandidates, rank * rank))
      ensures forall p :: p in old(blankCandidates) && |old(blankCandidates)[p]| == 1 ==> field[p] == old(blankCandidates)[p][0]
    {
      ghost var c0 := blankCandidates;
      var nakedSingleSteps := FindNakedSingle();
      ApplySteps(nakedSingleSteps, s0);
      StepsPlaced(c0, nakedSingleSteps, field);
    }

    /**
     * toString(lineByLine): the letter of every cell in row-major order and, line by line, a
     * newline between rows; decoding the letters gives the field back.
     */
    method ToString(lineByLine: bool) returns (s: string)
      requires Valid()
      ensures s == Rendered(Encoded(field), rank, lineByLine)
    {
      s := RenderValues(field, rank, lineByLine);
    }
  }

  /** The loop of toString over a field of width * width cell values. */
  method RenderValues(values: seq<int>, width: int, lineByLine: bool) returns (s: string)
    requires width >= 1 && |values| == width * width && AllValues(values)
    ensures s == Rendered(Encoded(values), width, lineByLine)
  {
    ghost var letters := Encoded(values);
    s := [Letter(values[0])];
    RenderedNext(letters, width, lineByLine, 0);
    var last := width * width - 1;
    var i := 1;
    while i < last
      invariant 1 <= i <= width * width && (i <= last || last == 0)
      invariant s == Rendered(letters[..i], width, lineByLine)
                     + (if lineByLine && i > 1 && i % width == 0 then "\n" else "")
    {
      RenderedNext(letters, width, lineByLine, i);
      s := s + [Letter(values[i])];
      if lineByLine && (i + 1) % width == 0 {
        s := s + "\n";
      }
      i := i + 1;
    }
    if last > 0 {
      DivUnique(last, width, width - 1, width - 1);
      RenderedNext(letters, width, lineByLine, last);
      s := s + [Letter(values[last])];
    }
    assert letters[..width * width] == letters;
  }
}
