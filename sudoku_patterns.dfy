// The intermediate records the candidate strategies build (Sudoku.cpp:559-1372) before they cross
// candidates out: the cells whose candidate list is a pair, how often each pair occurs, and the
// lists of such records the strategies filter and match.

module SudokuPatterns {
  import opened SudokuCodec
  import opened SudokuGrid
  import opened SudokuState
  import opened SudokuRules

  /** The mark of a line slot not taken yet in the projections of the line strategies. */
  const Uninitialized: int := -1

  /**
   * A blank cell whose candidate list is [low, high]: the four bytes the naked-pair strategy
   * packs into one integer (column, row, candidates[1], candidates[0] from high to low).
   */
  datatype PairCell = PairCell(column: int, row: int, low: int, high: int)

  /** Each record names a distinct blank cell of the grid whose candidates in c are exactly [low, high]. */
  ghost predicate PairCellsOf(rank: int, c: map<int, seq<int>>, values: seq<PairCell>)
  {
    (forall i :: 0 <= i < |values| ==>
       0 <= values[i].row < rank && 0 <= values[i].column < rank
       && CellAt(rank, values[i].row, values[i].column) in c
       && c[CellAt(rank, values[i].row, values[i].column)] == [values[i].low, values[i].high])
    && forall i, j :: 0 <= i < j < |values| ==> values[i] != values[j]
  }

  /**
   * The collecting loop of the naked-pair search has passed the cells below p: `values` lists, in
   * increasing cell order `cells`, every blank cell below p with exactly two candidates.
   */
  ghost predicate PairsBelow(rank: int, c: map<int, seq<int>>, values: seq<PairCell>, cells: seq<int>, p: int)
  {
    0 < rank && 0 <= p <= rank * rank && |cells| == |values|
    && (forall i :: 0 <= i < |values| ==>
          0 <= values[i].row < rank && 0 <= values[i].column < rank
          && cells[i] == CellAt(rank, values[i].row, values[i].column) && cells[i] < p
          && cells[i] in c && c[cells[i]] == [values[i].low, values[i].high])
    && (forall i, j :: 0 <= i < j < |values| ==> cells[i] < cells[j])
    && (forall q :: q in c && q < p && |c[q]| == 2 ==>
          PairCell(ColumnOf(rank, q), RowOf(rank, q), c[q][0], c[q][1]) in values)
  }

  /** Cell p, with exactly two candidates, is appended. */
  lemma PairsBelowTake(rank: int, c: map<int, seq<int>>, values: seq<PairCell>, cells: seq<int>, p: int)
    requires PairsBelow(rank, c, values, cells, p) && p < rank * rank && p in c && |c[p]| == 2
    ensures PairsBelow(rank, c, values + [PairCell(p % rank, p / rank, c[p][0], c[p][1])], cells + [p], p + 1)
  {
    PositionCoordinates(rank, p);
  }

  /** Cell p, without exactly two candidates, is passed over. */
  lemma PairsBelowSkip(rank: int, c: map<int, seq<int>>, values: seq<PairCell>, cells: seq<int>, p: int)
    requires PairsBelow(rank, c, values, cells, p) && p < rank * rank && !(p in c && |c[p]| == 2)
    ensures PairsBelow(rank, c, values, cells, p + 1)
  {
  }

  /** After the last cell, `values` holds exactly the two-candidate cells, each once. */
  lemma PairsBelowAll(rank: int, c: map<int, seq<int>>, values: seq<PairCell>, cells: seq<int>)
    requires PairsBelow(rank, c, values, cells, rank * rank)
    requires forall q :: q in c ==> 0 <= q < rank * rank
    ensures PairCellsOf(rank, c, values)
    ensures forall p :: p in c && |c[p]| == 2 ==> PairCell(ColumnOf(rank, p), RowOf(rank, p), c[p][0], c[p][1]) in values
  {
    forall i, j | 0 <= i < j < |values|
      ensures values[i] != values[j]
    {
      assert cells[i] < cells[j];
    }
  }

  /**
   * A cell the removal loop of a line passes over: one of the pattern's own cells (`skip`), or a
   * cell of one of the pattern's blocks (`skipBlocks`).
   */
  predicate Spared(blocks: seq<int>, skip: set<int>, skipBlocks: set<int>, q: int)
  {
    q in skip || (0 <= q < |blocks| && blocks[q] in skipBlocks)
  }

  /** Cell q lies in block b but off line i (row i when horizontal). */
  predicate OffLine(rank: int, blocks: seq<int>, horizontal: bool, i: int, b: int, q: int)
  {
    0 < rank && 0 <= q < |blocks| && blocks[q] == b && LineOf(rank, horizontal, q) != i
  }

  /** No number of `numbers` is a candidate of any blank cell among `cells`. */
  predicate Lacking(cands: map<int, seq<int>>, cells: set<int>, numbers: seq<int>)
  {
    forall q, x :: q in cells && q in cands && x in numbers ==> x !in cands[q]
  }

  /** Clearing one more cell of the numbers extends what is cleared; no other cell changed. */
  lemma LackingGrows(c: map<int, seq<int>>, c': map<int, seq<int>>, cells: set<int>, position: int, numbers: seq<int>)
    requires Lacking(c, cells, numbers) && position in c'
    requires c' == c[position := c'[position]]
    requires forall x :: x in numbers ==> x !in c'[position]
    ensures Lacking(c', cells + {position}, numbers)
  {
  }

  /** The key a pass of the naked-pair strategy files a record under: its row (column) and pair. */
  function PairKey(horizontal: bool, v: PairCell): (int, int, int)
  {
    (if horizontal then v.row else v.column, v.high, v.low)
  }

  /** Record i is the first of `values` filed under its key. */
  ghost predicate FirstOfKey(horizontal: bool, values: seq<PairCell>, i: int)
  {
    0 <= i < |values| && forall k :: 0 <= k < i ==> PairKey(horizontal, values[k]) != PairKey(horizontal, values[i])
  }

  /**
   * The naked pair of records `first` and `later` has been applied: the blank cells of their line,
   * other than the two records' own cells, lack both numbers of the pair.
   */
  ghost predicate PairCleared(rank: int, blocks: seq<int>, cands: map<int, seq<int>>, horizontal: bool,
                              first: PairCell, later: PairCell)
  {
    0 <= first.row < rank && 0 <= first.column < rank && 0 <= later.row < rank && 0 <= later.column < rank
    && forall q :: q in cands && InGroup(rank, blocks, LineGroup(horizontal), PairKey(horizontal, later).0, q)
                   && q != CellAt(rank, first.row, first.column) && q != CellAt(rank, later.row, later.column) ==>
         later.low !in cands[q] && later.high !in cands[q]
  }

  /** Among the first j records, every record filed under a key seen before pairs with the first one. */
  ghost predicate PairsCleared(rank: int, blocks: seq<int>, cands: map<int, seq<int>>, horizontal: bool,
                               values: seq<PairCell>, j: int)
  {
    forall i, k :: 0 <= i < k < j && k < |values| && FirstOfKey(horizontal, values, i)
                   && PairKey(horizontal, values[i]) == PairKey(horizontal, values[k]) ==>
      PairCleared(rank, blocks, cands, horizontal, values[i], values[k])
  }

  /**
   * The state of a pass of the naked-pair strategy after j records: keyValues holds the first
   * record of every key seen, found at index at[key], and every pairing so far has been applied.
   */
  ghost predicate PairScan(rank: int, blocks: seq<int>, cands: map<int, seq<int>>, horizontal: bool, values: seq<PairCell>,
                           j: int, keyValues: map<(int, int, int), PairCell>, at: map<(int, int, int), int>)
  {
    0 <= j <= |values|
    && (forall key :: key in keyValues ==>
          key in at && 0 <= at[key] < j && values[at[key]] == keyValues[key]
          && key == PairKey(horizontal, keyValues[key]) && FirstOfKey(horizontal, values, at[key]))
    && (forall k :: 0 <= k < j ==> PairKey(horizontal, values[k]) in keyValues)
    && PairsCleared(rank, blocks, cands, horizontal, values, j)
  }

  /** A record under a new key is the first of its key and pairs with nothing before it. */
  lemma PairScanFirst(rank: int, blocks: seq<int>, cands: map<int, seq<int>>, horizontal: bool, values: seq<PairCell>,
                      j: int, keyValues: map<(int, int, int), PairCell>, at: map<(int, int, int), int>)
    requires PairScan(rank, blocks, cands, horizontal, values, j, keyValues, at) && j < |values|
    requires PairKey(horizontal, values[j]) !in keyValues
    ensures PairScan(rank, blocks, cands, horizontal, values, j + 1,
                     keyValues[PairKey(horizontal, values[j]) := values[j]], at[PairKey(horizontal, values[j]) := j])
  {
    assert FirstOfKey(horizontal, values, j);
  }

  /**
   * A record under a key seen before pairs with the first record of that key; once that pair is
   * applied to a state that only lost candidates, the pairings before stay applied.
   */
  lemma PairScanPaired(rank: int, blocks: seq<int>, cands: map<int, seq<int>>, cands': map<int, seq<int>>,
                       horizontal: bool, values: seq<PairCell>,
                       j: int, keyValues: map<(int, int, int), PairCell>, at: map<(int, int, int), int>)
    requires PairScan(rank, blocks, cands, horizontal, values, j, keyValues, at) && j < |values|
    requires PairKey(horizontal, values[j]) in keyValues && Shrinks(cands, cands')
    requires PairCleared(rank, blocks, cands', horizontal, keyValues[PairKey(horizontal, values[j])], values[j])
    ensures PairScan(rank, blocks, cands', horizontal, values, j + 1, keyValues, at)
  {
    var key := PairKey(horizontal, values[j]);
    forall i, k | 0 <= i < k < j + 1 && k < |values| && FirstOfKey(horizontal, values, i)
                  && PairKey(horizontal, values[i]) == PairKey(horizontal, values[k])
      ensures PairCleared(rank, blocks, cands', horizontal, values[i], values[k])
    {
      if k == j {
        assert FirstOfKey(horizontal, values, at[key]);
      } else {
        ClearedStays(rank, blocks, cands, cands', horizontal, values[i], values[k]);
      }
    }
  }

  /** An applied pair stays applied while candidates are only lost. */
  lemma ClearedStays(rank: int, blocks: seq<int>, cands: map<int, seq<int>>, cands': map<int, seq<int>>,
                     horizontal: bool, first: PairCell, later: PairCell)
    requires PairCleared(rank, blocks, cands, horizontal, first, later) && Shrinks(cands, cands')
    ensures PairCleared(rank, blocks, cands', horizontal, first, later)
  {
  }

  /** How many records carry the candidate pair (low, high). */
  function PairCount(values: seq<PairCell>, low: int, high: int): nat
  {
    if |values| == 0 then 0
    else PairCount(values[..|values| - 1], low, high)
         + (if values[|values| - 1].low == low && values[|values| - 1].high == high then 1 else 0)
  }

  /** The records of `values`, in order, whose candidate pair occurs at least twice in `all`. */
  function Paired(values: seq<PairCell>, all: seq<PairCell>): seq<PairCell>
  {
    if |values| == 0 then []
    else Paired(values[..|values| - 1], all)
         + (if PairCount(all, values[|values| - 1].low, values[|values| - 1].high) >= 2
            then [values[|values| - 1]] else [])
  }

  /** A record in `values` makes its pair's count at least one. */
  lemma {:induction false} PairCountOne(values: seq<PairCell>, i: int)
    requires 0 <= i < |values|
    ensures PairCount(values, values[i].low, values[i].high) >= 1
  {
    if i < |values| - 1 {
      PairCountOne(values[..|values| - 1], i);
    }
  }

  /** Two records with the same pair make that pair's count at least two. */
  lemma {:induction false} PairCountTwo(values: seq<PairCell>, i: int, j: int)
    requires 0 <= i < j < |values| && values[i].low == values[j].low && values[i].high == values[j].high
    ensures PairCount(values, values[i].low, values[i].high) >= 2
  {
    var prefix := values[..|values| - 1];
    if j < |values| - 1 {
      PairCountTwo(prefix, i, j);
    } else {
      PairCountOne(prefix, i);
    }
  }

  /** Pairings applied to a state stay applied while candidates are only lost. */
  lemma PairsClearedStay(rank: int, blocks: seq<int>, cands: map<int, seq<int>>, cands': map<int, seq<int>>,
                         horizontal: bool, values: seq<PairCell>, j: int)
    requires PairsCleared(rank, blocks, cands, horizontal, values, j) && Shrinks(cands, cands')
    ensures PairsCleared(rank, blocks, cands', horizontal, values, j)
  {
    forall i, k | 0 <= i < k < j && k < |values| && FirstOfKey(horizontal, values, i)
                  && PairKey(horizontal, values[i]) == PairKey(horizontal, values[k])
      ensures PairCleared(rank, blocks, cands', horizontal, values[i], values[k])
    {
      ClearedStays(rank, blocks, cands, cands', horizontal, values[i], values[k]);
    }
  }

  /** A pair cell whose candidate list another blank cell shares is kept by the filter. */
  lemma RecurringPairKept(rank: int, values: seq<PairCell>, c0: map<int, seq<int>>, p: int, p': int)
    requires rank > 0 && 0 <= p < rank * rank && 0 <= p' < rank * rank && p != p'
    requires p in c0 && p' in c0 && |c0[p]| == 2 && c0[p'] == c0[p]
    requires forall q :: q in c0 && |c0[q]| == 2 ==> PairCell(ColumnOf(rank, q), RowOf(rank, q), c0[q][0], c0[q][1]) in values
    ensures PairCell(ColumnOf(rank, p), RowOf(rank, p), c0[p][0], c0[p][1]) in Paired(values, values)
  {
    var v := PairCell(ColumnOf(rank, p), RowOf(rank, p), c0[p][0], c0[p][1]);
    var v' := PairCell(ColumnOf(rank, p'), RowOf(rank, p'), c0[p'][0], c0[p'][1]);
    var i :| 0 <= i < |values| && values[i] == v;
    var j :| 0 <= j < |values| && values[j] == v';
    assert v != v' by {
      PositionCoordinates(rank, p);
      PositionCoordinates(rank, p');
    }
    if i < j {
      PairCountTwo(values, i, j);
    } else {
      PairCountTwo(values, j, i);
    }
    PairedComplete(values, values);
  }

  /** Filtering keeps records of `values` only, and only those whose pair recurs. */
  lemma {:induction false} PairedMembers(values: seq<PairCell>, all: seq<PairCell>)
    ensures forall v :: v in Paired(values, all) ==> v in values && PairCount(all, v.low, v.high) >= 2
  {
    if |values| > 0 {
      PairedMembers(values[..|values| - 1], all);
    }
  }

  /** Filtering keeps exactly the records whose pair recurs. */
  lemma {:induction false} PairedComplete(values: seq<PairCell>, all: seq<PairCell>)
    ensures forall v :: v in values && PairCount(all, v.low, v.high) >= 2 ==> v in Paired(values, all)
  {
    if |values| > 0 {
      PairedComplete(values[..|values| - 1], all);
      assert values == values[..|values| - 1] + [values[|values| - 1]];
    }
  }

  /** Filtering keeps the records distinct and true to the candidate map. */
  lemma {:induction false} PairedCells(rank: int, c: map<int, seq<int>>, values: seq<PairCell>, all: seq<PairCell>)
    requires PairCellsOf(rank, c, values)
    ensures PairCellsOf(rank, c, Paired(values, all))
  {
    if |values| > 0 {
      var prefix := values[..|values| - 1];
      var last := values[|values| - 1];
      assert PairCellsOf(rank, c, prefix);
      PairedCells(rank, c, prefix, all);
      PairedMembers(prefix, all);
      var r := Paired(values, all);
      forall i | 0 <= i < |r|
        ensures r[i] in values
      {
        if i < |Paired(prefix, all)| {
          assert r[i] in Paired(prefix, all);
        }
      }
      forall k | 0 <= k < |prefix|
        ensures prefix[k] != last
      {
        assert prefix[k] == values[k];
      }
    }
  }

  /** A count of at least two for a record's own pair means some other record shares the pair. */
  lemma {:induction false} PairPartner(values: seq<PairCell>, i: int) returns (j: int)
    requires 0 <= i < |values| && PairCount(values, values[i].low, values[i].high) >= 2
    ensures 0 <= j < |values| && j != i && values[j].low == values[i].low && values[j].high == values[i].high
  {
    var last := |values| - 1;
    var prefix := values[..last];
    var low, high := values[i].low, values[i].high;
    if i == last {
      j := SomePair(prefix, low, high);
    } else if values[last].low == low && values[last].high == high {
      j := last;
    } else {
      assert prefix[i] == values[i];
      j := PairPartner(prefix, i);
    }
  }

  /** A positive count names a record with that pair. */
  lemma {:induction false} SomePair(values: seq<PairCell>, low: int, high: int) returns (j: int)
    requires PairCount(values, low, high) >= 1
    ensures 0 <= j < |values| && values[j].low == low && values[j].high == high
  {
    var last := |values| - 1;
    if values[last].low == low && values[last].high == high {
      j := last;
    } else {
      j := SomePair(values[..last], low, high);
    }
  }
  /**
   * The first statistics loop of updateCandidateByNakedPair: for every pair of candidates seen,
   * how many records carry it.
   */
  method CountPairs(values: seq<PairCell>) returns (counts: map<(int, int), int>)
    ensures forall v :: v in values ==> (v.low, v.high) in counts
    ensures forall key :: key in counts ==> counts[key] == PairCount(values, key.0, key.1) >= 1
  {
    counts := map[];
    var j := 0;
    while j < |values|
      invariant 0 <= j <= |values|
      invariant Counted(values, j, counts)
    {
      CountStep(values, j, counts);
      var key := (values[j].low, values[j].high);
      if key in counts {
        counts := counts[key := counts[key] + 1];
      } else {
        counts := counts[key := 1];
      }
      j := j + 1;
    }
    assert values[..j] == values;
  }

  /** counts tallies the pairs of the first j records, and only those. */
  ghost predicate Counted(values: seq<PairCell>, j: int, counts: map<(int, int), int>)
    requires 0 <= j <= |values|
  {
    (forall i :: 0 <= i < j ==> (values[i].low, values[i].high) in counts)
    && (forall key :: key in counts ==> counts[key] == PairCount(values[..j], key.0, key.1) >= 1)
    && (forall key :: key !in counts ==> PairCount(values[..j], key.0, key.1) == 0)
  }

  /** Counting record j: its pair's tally goes up by one, starting from one when it is new. */
  lemma CountStep(values: seq<PairCell>, j: int, counts: map<(int, int), int>)
    requires 0 <= j < |values| && Counted(values, j, counts)
    ensures var key := (values[j].low, values[j].high);
            Counted(values, j + 1, if key in counts then counts[key := counts[key] + 1] else counts[key := 1])
  {
    assert values[..j + 1][..j] == values[..j];
    forall key: (int, int)
      ensures PairCount(values[..j + 1], key.0, key.1)
              == PairCount(values[..j], key.0, key.1) + if key == (values[j].low, values[j].high) then 1 else 0
    {
    }
  }

  /** The eviction loop: keep, in order, the records whose pair was counted at least twice. */
  method KeepPaired(values: seq<PairCell>, counts: map<(int, int), int>) returns (paired: seq<PairCell>)
    requires forall v :: v in values ==> (v.low, v.high) in counts
    requires forall key :: key in counts ==> counts[key] == PairCount(values, key.0, key.1)
    ensures paired == Paired(values, values)
  {
    paired := [];
    var j := 0;
    while j < |values|
      invariant 0 <= j <= |values|
      invariant paired == Paired(values[..j], values)
    {
      assert values[..j + 1][..j] == values[..j];
      if counts[(values[j].low, values[j].high)] >= 2 {
        paired := paired + [values[j]];
      }
      j := j + 1;
    }
    assert values[..j] == values;
  }
  /** One group of kind g holds all three cells. */
  predicate TripleIn(rank: int, blocks: seq<int>, g: Group, p0: int, p1: int, p2: int)
  {
    SameGroup(rank, blocks, g, p0, p1) && SameGroup(rank, blocks, g, p0, p2)
  }

  /**
   * getGroup of updateCandidateByNakedTriple: a group holding all three cells, trying the row of
   * the first cell, then its column, then its block; NoGroup when none holds all three.
   */
  function TripleGroup(rank: int, blocks: seq<int>, p0: int, p1: int, p2: int): (r: (Group, int))
    requires 0 < rank && 0 <= p0 < |blocks| && 0 <= p1 < |blocks| && 0 <= p2 < |blocks|
    requires p0 != p1 && p1 != p2
    ensures r.0 != NoGroup ==>
              InGroup(rank, blocks, r.0, r.1, p0) && InGroup(rank, blocks, r.0, r.1, p1)
              && InGroup(rank, blocks, r.0, r.1, p2)
    ensures r.0 == NoGroup <==>
              !TripleIn(rank, blocks, Row, p0, p1, p2) && !TripleIn(rank, blocks, Column, p0, p1, p2)
              && !TripleIn(rank, blocks, Block, p0, p1, p2)
    ensures r.0 != Row ==> !TripleIn(rank, blocks, Row, p0, p1, p2)
    ensures r.0 == Block ==> !TripleIn(rank, blocks, Column, p0, p1, p2)
  {
    var row, column, block := p0 / rank, p0 % rank, blocks[p0];
    if p1 / rank == row && p2 / rank == row then (Row, row)
    else if p1 % rank == column && p2 % rank == column then (Column, column)
    else if blocks[p1] == block && blocks[p2] == block then (Block, block)
    else (NoGroup, 0)
  }

  /** std::set::emplace on an ascending sequence: x joins the set unless it is there already. */
  method Insert(items: seq<int>, x: int) returns (t: seq<int>)
    requires Ascending(items)
    ensures Ascending(t)
    ensures forall y :: y in t <==> y in items || y == x
  {
    var k := 0;
    while k < |items| && items[k] < x
      invariant 0 <= k <= |items|
      invariant forall i :: 0 <= i < k ==> items[i] < x
    {
      k := k + 1;
    }
    if k < |items| && items[k] == x {
      t := items;
    } else {
      assert forall i :: k <= i < |items| ==> x < items[i];
      t := items[..k] + [x] + items[k..];
      assert forall i :: 0 <= i < |t| ==> t[i] == if i < k then items[i] else if i == k then x else items[i - 1];
    }
  }

  /** The emplace loop over one cell's candidates. */
  method InsertAll(items: seq<int>, list: seq<int>) returns (t: seq<int>)
    requires Ascending(items)
    ensures Ascending(t)
    ensures forall y :: y in t <==> y in items || y in list
  {
    t := items;
    var m := 0;
    while m < |list|
      invariant 0 <= m <= |list|
      invariant Ascending(t)
      invariant forall y :: y in t <==> y in items || y in list[..m]
    {
      assert list[..m + 1] == list[..m] + [list[m]];
      t := Insert(t, list[m]);
      m := m + 1;
    }
    assert list[..m] == list;
  }
  /** The numbers that are candidates of at least one of three cells. */
  function Union3(l0: seq<int>, l1: seq<int>, l2: seq<int>): (u: set<int>)
    ensures forall x :: x in u <==> x in l0 || x in l1 || x in l2
  {
    set x | x in l0 + l1 + l2
  }

  /** An ascending sequence holds as many distinct numbers as it has entries. */
  lemma {:induction false} SetOfAscending(items: seq<int>)
    requires Ascending(items)
    ensures |set x | x in items| == |items|
  {
    if |items| > 0 {
      var rest := items[1..];
      SetOfAscending(rest);
      assert (set x | x in items) == (set x | x in rest) + {items[0]};
      assert items[0] !in rest;
    }
  }

  /**
   * The scan of updateCandidateOutBlockOfLine over the blank cells of a block: whether the cells with
   * candidate n all share one row, all share one column, and the row and column of the first.
   */
  method BlockLines(rank: int, blocks: seq<int>, cands: map<int, seq<int>>, blockGroup: seq<int>, n: int)
    returns (sameRow: bool, sameColumn: bool, row: int, column: int)
    requires 0 < rank && forall q :: q in blockGroup ==> q in cands && 0 <= q < |blocks|
    ensures var rows := HolderGroups(rank, blocks, Row, cands, blockGroup, n);
            var columns := HolderGroups(rank, blocks, Column, cands, blockGroup, n);
            (sameRow <==> |rows| <= 1) && (sameColumn <==> |columns| <= 1)
            && (rows == {} <==> columns == {})
            && (rows != {} ==> row in rows && column in columns)
            && (sameRow ==> rows <= {row}) && (sameColumn ==> columns <= {column})
  {
    ghost var rows := HolderGroups(rank, blocks, Row, cands, blockGroup, n);
    ghost var columns := HolderGroups(rank, blocks, Column, cands, blockGroup, n);
    ghost var r: set<int> := {};
    ghost var c: set<int> := {};
    row, column := 0, 0;
    sameRow, sameColumn := true, true;
    var first := true;
    var k := 0;
    while k < |blockGroup|
      invariant 0 <= k <= |blockGroup|
      invariant r == HolderGroups(rank, blocks, Row, cands, blockGroup[..k], n)
      invariant c == HolderGroups(rank, blocks, Column, cands, blockGroup[..k], n)
      invariant (first <==> r == {}) && (first <==> c == {}) && (first ==> sameRow && sameColumn)
      invariant !first ==> row in r && column in c && (sameRow <==> r <= {row}) && (sameColumn <==> c <= {column})
    {
      var position := blockGroup[k];
      HolderGroupsNext(rank, blocks, Row, cands, blockGroup, n, k);
      HolderGroupsNext(rank, blocks, Column, cands, blockGroup, n, k);
      var candidates := cands[position];
      if n in candidates {
        r, c := r + {position / rank}, c + {position % rank};
        if first {
          row := position / rank;
          column := position % rank;
          first := false;
        } else {
          if sameRow && position / rank != row {
            sameRow := false;
          }
          if sameColumn && position % rank != column {
            sameColumn := false;
          }
          if !sameRow && !sameColumn {
            PrefixSpread(rank, blocks, Row, cands, blockGroup, n, k + 1, row);
            PrefixSpread(rank, blocks, Column, cands, blockGroup, n, k + 1, column);
            return;
          }
        }
      }
      k := k + 1;
    }
    assert blockGroup[..k] == blockGroup;
    if !first {
      AtMostOne(rows, row);
      AtMostOne(columns, column);
    }
  }

  /** Two different holder groups among the first k cells make at least two among all of them. */
  lemma PrefixSpread(rank: int, blocks: seq<int>, h: Group, cands: map<int, seq<int>>, cells: seq<int>, n: int,
                     k: int, a: int)
    requires 0 <= k <= |cells|
    requires a in HolderGroups(rank, blocks, h, cands, cells[..k], n)
    requires !(HolderGroups(rank, blocks, h, cands, cells[..k], n) <= {a})
    ensures a in HolderGroups(rank, blocks, h, cands, cells, n) && |HolderGroups(rank, blocks, h, cands, cells, n)| >= 2
  {
    HolderGroupsPrefix(rank, blocks, h, cands, cells, n, k);
    SpreadOut(HolderGroups(rank, blocks, h, cands, cells, n), HolderGroups(rank, blocks, h, cands, cells[..k], n), a);
  }

  /**
   * The projection of updateCandidateInOneLine: the one line (a row when horizontal) through every
   * cell of the block with candidate n; None when no cell has n or they span several lines.
   */
  method BlockLine(rank: int, blocks: seq<int>, cands: map<int, seq<int>>, positions: seq<int>, n: int, horizontal: bool)
    returns (line: Option<int>)
    requires 0 < rank && forall q :: q in positions ==> q in cands && 0 <= q < |blocks|
    ensures var lines := HolderGroups(rank, blocks, LineGroup(horizontal), cands, positions, n);
            (line.Some? <==> |lines| == 1) && (line.Some? ==> lines == {line.value})
  {
    ghost var lines := HolderGroups(rank, blocks, LineGroup(horizontal), cands, positions, n);
    ghost var seen: set<int> := {};
    var line1 := 0;
    var initialized := false;
    var k := 0;
    while k < |positions|
      invariant 0 <= k <= |positions|
      invariant seen == HolderGroups(rank, blocks, LineGroup(horizontal), cands, positions[..k], n)
      invariant (initialized <==> seen != {}) && (initialized ==> seen == {line1})
    {
      var position := positions[k];
      HolderGroupsNext(rank, blocks, LineGroup(horizontal), cands, positions, n, k);
      var candidates := cands[position];
      if n in candidates {
        var l := if horizontal then position / rank else position % rank;
        seen := seen + {l};
        if initialized {
          if line1 != l {
            HolderGroupsPrefix(rank, blocks, LineGroup(horizontal), cands, positions, n, k + 1);
            TwoMembers(lines, line1, l);
            return None;
          }
        } else {
          line1 := l;
          initialized := true;
        }
      }
      k := k + 1;
    }
    assert positions[..k] == positions;
    if !initialized {
      return None;
    }
    return Some(line1);
  }

  /**
   * The seat-taking scan has passed the first k cells: `found` lists distinct lines, each first
   * met at cell at[i] with candidate n, and every cell passed with candidate n lies on one of them.
   */
  ghost predicate SeatScan(rank: int, cands: map<int, seq<int>>, positions: seq<int>, n: int, horizontal: bool,
                           found: seq<int>, at: seq<int>, k: int)
  {
    0 < rank && 0 <= k <= |positions| && |found| == |at| && Distinct(found)
    && (forall i :: 0 <= i < |found| ==>
          0 <= at[i] < k && HasCandidate(cands, positions[at[i]], n)
          && LineOf(rank, horizontal, positions[at[i]]) == found[i])
    && (forall j :: 0 <= j < k && HasCandidate(cands, positions[j], n) ==>
          LineOf(rank, horizontal, positions[j]) in found)
  }

  /** Cell k, with candidate n on a line not yet found, takes a seat. */
  lemma SeatScanTake(rank: int, cands: map<int, seq<int>>, positions: seq<int>, n: int, horizontal: bool,
                     found: seq<int>, at: seq<int>, k: int)
    requires SeatScan(rank, cands, positions, n, horizontal, found, at, k) && k < |positions|
    requires HasCandidate(cands, positions[k], n) && LineOf(rank, horizontal, positions[k]) !in found
    ensures SeatScan(rank, cands, positions, n, horizontal, found + [LineOf(rank, horizontal, positions[k])], at + [k], k + 1)
  {
  }

  /** Cell k, without candidate n or on a line already found, changes nothing. */
  lemma SeatScanPass(rank: int, cands: map<int, seq<int>>, positions: seq<int>, n: int, horizontal: bool,
                     found: seq<int>, at: seq<int>, k: int)
    requires SeatScan(rank, cands, positions, n, horizontal, found, at, k) && k < |positions|
    requires HasCandidate(cands, positions[k], n) ==> LineOf(rank, horizontal, positions[k]) in found
    ensures SeatScan(rank, cands, positions, n, horizontal, found, at, k + 1)
  {
  }

  /** The lines found are among the holder lines of all the cells. */
  lemma SeatScanWithin(rank: int, blocks: seq<int>, cands: map<int, seq<int>>, positions: seq<int>, n: int,
                       horizontal: bool, found: seq<int>, at: seq<int>, k: int)
    requires SeatScan(rank, cands, positions, n, horizontal, found, at, k)
    requires forall q :: q in positions ==> q in cands && 0 <= q < |blocks|
    ensures (set x | x in found) <= HolderGroups(rank, blocks, LineGroup(horizontal), cands, positions, n)
  {
    HolderGroupsCover(rank, blocks, LineGroup(horizontal), cands, positions, n);
    assert forall i :: 0 <= i < |found| ==> positions[at[i]] in positions;
  }

  /** Once every cell is passed, the lines found are exactly the holder lines. */
  lemma SeatScanAll(rank: int, blocks: seq<int>, cands: map<int, seq<int>>, positions: seq<int>, n: int,
                    horizontal: bool, found: seq<int>, at: seq<int>)
    requires SeatScan(rank, cands, positions, n, horizontal, found, at, |positions|)
    requires forall q :: q in positions ==> q in cands && 0 <= q < |blocks|
    ensures HolderGroups(rank, blocks, LineGroup(horizontal), cands, positions, n) == set x | x in found
  {
    SeatScanWithin(rank, blocks, cands, positions, n, horizontal, found, at, |positions|);
    HolderGroupsWithin(rank, blocks, LineGroup(horizontal), cands, positions, n, set x | x in found);
  }

  /**
   * The seat-taking scan shared by the projections of updateCandidateBetweenTwoLines and
   * updateCandidateAmongThreeLines: the distinct lines through the cells of the block with
   * candidate n, in order of first appearance, taking up to `seats` seats; a line that finds every
   * seat taken ends the scan, so `found` then holds seats + 1 lines.
   */
  method TakeSeats(rank: int, blocks: seq<int>, cands: map<int, seq<int>>, positions: seq<int>, n: int, horizontal: bool,
                   seats: nat)
    returns (found: seq<int>)
    requires 0 < rank && forall q :: q in positions ==> q in cands && 0 <= q < |blocks|
    ensures |found| <= seats + 1 && Distinct(found)
    ensures var all := HolderGroups(rank, blocks, LineGroup(horizontal), cands, positions, n);
            (set x | x in found) <= all && (|found| <= seats ==> all == set x | x in found)
  {
    ghost var at: seq<int> := [];
    found := [];
    var k := 0;
    while k < |positions|
      invariant SeatScan(rank, cands, positions, n, horizontal, found, at, k) && |found| <= seats
    {
      var position := positions[k];
      assert position in positions;
      var candidates := cands[position];
      var line := LineOf(rank, horizontal, position);
      if n in candidates && line !in found {
        SeatScanTake(rank, cands, positions, n, horizontal, found, at, k);
        found, at := found + [line], at + [k];
        if |found| > seats {
          SeatScanWithin(rank, blocks, cands, positions, n, horizontal, found, at, k + 1);
          return;
        }
      } else {
        SeatScanPass(rank, cands, positions, n, horizontal, found, at, k);
      }
      k := k + 1;
    }
    SeatScanAll(rank, blocks, cands, positions, n, horizontal, found, at);
  }

  /**
   * The projection of updateCandidateBetweenTwoLines: the two lines (rows when horizontal), in
   * increasing order, through the cells of the block with candidate n; None when those cells lie
   * on fewer or more than two lines.
   */
  method BlockTwoLines(rank: int, blocks: seq<int>, cands: map<int, seq<int>>, positions: seq<int>, n: int, horizontal: bool)
    returns (lines: Option<(int, int)>)
    requires 0 < rank && forall q :: q in positions ==> q in cands && 0 <= q < |blocks|
    ensures var seen := HolderGroups(rank, blocks, LineGroup(horizontal), cands, positions, n);
            (lines.Some? <==> |seen| == 2)
            && (lines.Some? ==> seen == {lines.value.0, lines.value.1} && lines.value.0 < lines.value.1)
  {
    ghost var all := HolderGroups(rank, blocks, LineGroup(horizontal), cands, positions, n);
    var found := TakeSeats(rank, blocks, cands, positions, n, horizontal, 2);
    SetOfDistinct(found);
    SubsetSize((set x | x in found), all);
    if |found| != 2 {
      return None;
    }
    assert (set x | x in found) == {found[0], found[1]};
    if found[0] < found[1] {
      return Some((found[0], found[1]));
    }
    return Some((found[1], found[0]));
  }

  /**
   * The projection of updateCandidateAmongThreeLines: the three lines, in increasing order, through
   * the cells of the block with candidate n; None unless those cells lie on exactly three lines.
   */
  method BlockThreeLines(rank: int, blocks: seq<int>, cands: map<int, seq<int>>, positions: seq<int>, n: int, horizontal: bool)
    returns (lines: Option<(int, int, int)>)
    requires 0 < rank && forall q :: q in positions ==> q in cands && 0 <= q < |blocks|
    ensures var seen := HolderGroups(rank, blocks, LineGroup(horizontal), cands, positions, n);
            (lines.Some? <==> |seen| == 3)
            && (lines.Some? ==>
                  seen == {lines.value.0, lines.value.1, lines.value.2}
                  && lines.value.0 < lines.value.1 < lines.value.2)
  {
    ghost var all := HolderGroups(rank, blocks, LineGroup(horizontal), cands, positions, n);
    var found := TakeSeats(rank, blocks, cands, positions, n, horizontal, 3);
    SetOfDistinct(found);
    SubsetSize((set x | x in found), all);
    if |found| != 3 {
      return None;
    }
    assert (set x | x in found) == {found[0], found[1], found[2]};
    return Some(SortThree(found[0], found[1], found[2]));
  }

  /** Three different numbers in increasing order. */
  function SortThree(a: int, b: int, c: int): (r: (int, int, int))
    requires a != b && a != c && b != c
    ensures {r.0, r.1, r.2} == {a, b, c} && r.0 < r.1 < r.2
  {
    if a < b then
      (if b < c then (a, b, c) else if a < c then (a, c, b) else (c, a, b))
    else
      (if a < c then (b, a, c) else if b < c then (b, c, a) else (c, b, a))
  }

  /**
   * When the holders of n on line i all lie in block b, no solution reachable from c0 puts n in a
   * cell of b off the line.
   */
  lemma LineBlockPoints(rank: int, blocks: seq<int>, field: seq<int>, c0: map<int, seq<int>>, cands: map<int, seq<int>>,
                        horizontal: bool, i: int, n: int, b: int)
    requires Shaped(rank, blocks, field) && 0 <= i < rank && 1 <= n <= rank
    requires CandidatesMatch(rank, blocks, field, cands) && KeepsSolutions(rank, blocks, field, c0, field, cands)
    requires forall q :: q in cands <==> 0 <= q < |field| && field[q] == InvalidNumber
    requires HolderGroups(rank, blocks, Block, cands, LineCells(rank, horizontal, i), n) == {b}
    ensures 1 <= b <= rank
    ensures forall s, q :: SoundState(rank, blocks, field, c0, s) && OffLine(rank, blocks, horizontal, i, b, q) ==> s[q] != n
  {
    var cells := LineCells(rank, horizontal, i);
    var q := HolderWitness(rank, blocks, Block, cands, cells, n, b);
    LineListed(rank, blocks, cands, horizontal, i);
    assert InGroup(rank, blocks, LineGroup(horizontal), i, q);
    UnplacedNearCandidate(rank, blocks, field, cands, q, n, LineGroup(horizontal));
    ConfinedByHolders(rank, blocks, cands, LineGroup(horizontal), i, Block, cells, {b}, n);
    PointingClears(rank, blocks, field, c0, cands, LineGroup(horizontal), i, Block, b, n);
  }

  /** A change confined to cells of block b off line i leaves the holder blocks of line i as they were. */
  lemma OffLineKeepsHolders(rank: int, blocks: seq<int>, cands: map<int, seq<int>>, cands': map<int, seq<int>>,
                            horizontal: bool, i: int, b: int, n: int)
    requires 0 <= i < rank && |blocks| == rank * rank && cands'.Keys == cands.Keys
    requires forall q :: q in cands' && !OffLine(rank, blocks, horizontal, i, b, q) ==> cands'[q] == cands[q]
    ensures HolderGroups(rank, blocks, Block, cands', LineCells(rank, horizontal, i), n)
            == HolderGroups(rank, blocks, Block, cands, LineCells(rank, horizontal, i), n)
  {
    var cells := LineCells(rank, horizontal, i);
    forall j | 0 <= j < |cells|
      ensures HasCandidate(cands, cells[j], n) <==> HasCandidate(cands', cells[j], n)
    {
      assert LineOf(rank, horizontal, cells[j]) == i;
    }
    HolderGroupsAgree(rank, blocks, Block, cands, cands', cells, n);
  }

  /**
   * The scan of updateCandidateInBlockOutOfLine over line i (row i when horizontal): the one block
   * holding every blank cell of the line with candidate n, or 0 when no cell of the line has n
   * or those cells lie in several blocks.
   */
  method LineBlock(rank: int, blocks: seq<int>, field: seq<int>, cands: map<int, seq<int>>, horizontal: bool,
                   i: int, n: int)
    returns (blockIndex: int)
    requires 0 <= i < rank && |blocks| == rank * rank && |field| == rank * rank
    requires forall q :: 0 <= q < |field| ==> (q in cands <==> field[q] == InvalidNumber)
    requires forall q :: 0 <= q < |blocks| ==> blocks[q] > 0
    ensures var all := HolderGroups(rank, blocks, Block, cands, LineCells(rank, horizontal, i), n);
            0 <= blockIndex && (0 < blockIndex <==> |all| == 1) && (0 < blockIndex ==> all == {blockIndex})
  {
    ghost var w := 0;
    ghost var split := false;
    blockIndex := 0;
    var j := 0;
    while j < rank
      invariant 0 <= j <= rank && 0 <= blockIndex && !split
      invariant blockIndex == 0 ==> forall k :: 0 <= k < j ==> !HasCandidate(cands, LineCell(rank, horizontal, i, k), n)
      invariant blockIndex != 0 ==>
                  0 <= w < j && HasCandidate(cands, LineCell(rank, horizontal, i, w), n)
                  && blocks[LineCell(rank, horizontal, i, w)] == blockIndex
                  && forall k :: 0 <= k < j && HasCandidate(cands, LineCell(rank, horizontal, i, k), n) ==>
                       blocks[LineCell(rank, horizontal, i, k)] == blockIndex
    {
      var position := LineCell(rank, horizontal, i, j);
      if field[position] == InvalidNumber {
        var candidates := cands[position];
        if n in candidates {
          var index := blocks[position];
          if blockIndex != index {
            if blockIndex != 0 {
              ghost var first := LineCell(rank, horizontal, i, w);
              split := true;
              LineBlockSplit(rank, blocks, cands, horizontal, i, n, first, position);
              blockIndex := 0;
              break;
            }
            blockIndex, w := index, j;
          }
        }
      }
      j := j + 1;
    }
    if !split {
      LineBlockSettled(rank, blocks, cands, horizontal, i, n, blockIndex, w);
    }
  }

  /** Two cells of line i with candidate n in different blocks: the line's holders span two blocks or more. */
  lemma LineBlockSplit(rank: int, blocks: seq<int>, cands: map<int, seq<int>>, horizontal: bool, i: int, n: int,
                       p: int, q: int)
    requires 0 <= i < rank && |blocks| == rank * rank
    requires p in LineCells(rank, horizontal, i) && q in LineCells(rank, horizontal, i)
    requires HasCandidate(cands, p, n) && HasCandidate(cands, q, n) && 0 <= p < |blocks| && 0 <= q < |blocks|
    requires blocks[p] != blocks[q]
    ensures |HolderGroups(rank, blocks, Block, cands, LineCells(rank, horizontal, i), n)| >= 2
  {
    HolderGroupsCover(rank, blocks, Block, cands, LineCells(rank, horizontal, i), n);
    TwoMembers(HolderGroups(rank, blocks, Block, cands, LineCells(rank, horizontal, i), n), blocks[p], blocks[q]);
  }

  /**
   * The scan of line i ended without a split: with no block found the line has no holder of n,
   * otherwise every holder lies in that block.
   */
  lemma LineBlockSettled(rank: int, blocks: seq<int>, cands: map<int, seq<int>>, horizontal: bool, i: int, n: int,
                         blockIndex: int, w: int)
    requires 0 <= i < rank && |blocks| == rank * rank && 0 <= blockIndex
    requires blockIndex == 0 ==> forall k :: 0 <= k < rank ==> !HasCandidate(cands, LineCell(rank, horizontal, i, k), n)
    requires blockIndex != 0 ==>
               0 <= w < rank && HasCandidate(cands, LineCell(rank, horizontal, i, w), n)
               && blocks[LineCell(rank, horizontal, i, w)] == blockIndex
               && forall k :: 0 <= k < rank && HasCandidate(cands, LineCell(rank, horizontal, i, k), n) ==>
                    blocks[LineCell(rank, horizontal, i, k)] == blockIndex
    ensures var all := HolderGroups(rank, blocks, Block, cands, LineCells(rank, horizontal, i), n);
            (0 < blockIndex <==> |all| == 1) && (0 < blockIndex ==> all == {blockIndex})
  {
    var cells := LineCells(rank, horizontal, i);
    var all := HolderGroups(rank, blocks, Block, cands, cells, n);
    if blockIndex == 0 {
      HolderGroupsWithin(rank, blocks, Block, cands, cells, n, {});
    } else {
      assert cells[w] in cells;
      HolderGroupsCover(rank, blocks, Block, cands, cells, n);
      HolderGroupsWithin(rank, blocks, Block, cands, cells, n, {blockIndex});
      assert all == {blockIndex};
    }
  }

  /**
   * A record of updateCandidateByXWing: line `line` (a row when horizontal) has candidate `number`
   * in exactly two of its blank cells, on crossing lines line0 < line1. The source packs the four
   * bytes line0, line1, number, line into one integer.
   */
  datatype XWingLine = XWingLine(line0: int, line1: int, number: int, line: int)

  /** Line `line` (a row when horizontal) has its candidates n on exactly two crossing lines. */
  ghost predicate TwoCrossings(rank: int, blocks: seq<int>, cands: map<int, seq<int>>, horizontal: bool, line: int, n: int)
  {
    0 <= line < rank
    && |HolderGroups(rank, blocks, LineGroup(!horizontal), cands, LineCells(rank, horizontal, line), n)| == 2
  }

  /**
   * What a record claims about the candidates cands: the cells of line `line` with candidate
   * `number` all lie on crossing lines line0 < line1, and the cell on line0 is one of them.
   */
  ghost predicate XWingOf(rank: int, blocks: seq<int>, cands: map<int, seq<int>>, horizontal: bool, r: XWingLine)
  {
    0 <= r.line < rank && 1 <= r.number <= rank && 0 <= r.line0 < r.line1 < rank
    && HasCandidate(cands, LineCell(rank, horizontal, r.line, r.line0), r.number)
    && Confined(rank, blocks, cands, LineGroup(horizontal), r.line, LineGroup(!horizontal), {r.line0, r.line1}, r.number)
  }

  /** Every record of rs holds for the candidates cands. */
  ghost predicate XWingLines(rank: int, blocks: seq<int>, cands: map<int, seq<int>>, horizontal: bool, rs: seq<XWingLine>)
    decreases |rs|
  {
    |rs| == 0
    || (XWingLines(rank, blocks, cands, horizontal, rs[..|rs| - 1])
        && XWingOf(rank, blocks, cands, horizontal, rs[|rs| - 1]))
  }

  lemma {:induction false} XWingLinesAt(rank: int, blocks: seq<int>, cands: map<int, seq<int>>, horizontal: bool,
                                        rs: seq<XWingLine>, k: int)
    requires XWingLines(rank, blocks, cands, horizontal, rs) && 0 <= k < |rs|
    ensures XWingOf(rank, blocks, cands, horizontal, rs[k])
    decreases |rs|
  {
    if k < |rs| - 1 {
      XWingLinesAt(rank, blocks, cands, horizontal, rs[..|rs| - 1], k);
      assert rs[..|rs| - 1][k] == rs[k];
    }
  }

  lemma {:induction false} XWingLinesJoin(rank: int, blocks: seq<int>, cands: map<int, seq<int>>, horizontal: bool,
                                          a: seq<XWingLine>, b: seq<XWingLine>)
    requires XWingLines(rank, blocks, cands, horizontal, a) && XWingLines(rank, blocks, cands, horizontal, b)
    ensures XWingLines(rank, blocks, cands, horizontal, a + b)
    decreases |b|
  {
    if |b| > 0 {
      XWingLinesJoin(rank, blocks, cands, horizontal, a, b[..|b| - 1]);
      assert (a + b)[..|a + b| - 1] == a + b[..|b| - 1];
      assert (a + b)[|a + b| - 1] == b[|b| - 1];
    } else {
      assert a + b == a;
    }
  }

  /** The key updateCandidateByXWing files a record under: its two crossing lines and its number. */
  function XWingKey(v: XWingLine): (int, int, int)
  {
    (v.line0, v.line1, v.number)
  }

  /** Record i is the first of `values` filed under its key. */
  ghost predicate FirstXWing(values: seq<XWingLine>, i: int)
  {
    0 <= i < |values| && forall k :: 0 <= k < i ==> XWingKey(values[k]) != XWingKey(values[i])
  }

  /**
   * The X-wing of records `first` and `later` has been applied: the blank cells of the two
   * crossing lines off lines first.line and later.line lack the number.
   */
  ghost predicate XWingCleared(rank: int, blocks: seq<int>, cands: map<int, seq<int>>, horizontal: bool,
                               first: XWingLine, later: XWingLine)
  {
    forall q :: q in cands
                && (InGroup(rank, blocks, LineGroup(!horizontal), first.line0, q)
                    || InGroup(rank, blocks, LineGroup(!horizontal), first.line1, q))
                && !InGroup(rank, blocks, LineGroup(horizontal), first.line, q)
                && !InGroup(rank, blocks, LineGroup(horizontal), later.line, q) ==>
      first.number !in cands[q]
  }

  /** Among the first j records, every record filed under a key seen before forms an X-wing with the first one. */
  ghost predicate XWingsCleared(rank: int, blocks: seq<int>, cands: map<int, seq<int>>, horizontal: bool,
                                values: seq<XWingLine>, j: int)
  {
    forall i, k :: 0 <= i < k < j && k < |values| && FirstXWing(values, i) && XWingKey(values[i]) == XWingKey(values[k]) ==>
      XWingCleared(rank, blocks, cands, horizontal, values[i], values[k])
  }

  /**
   * The state of the matching loop of updateCandidateByXWing after j records: keyValues holds the
   * first record of every key seen, found at index at[key], and every X-wing so far has been applied.
   */
  ghost predicate XWingScan(rank: int, blocks: seq<int>, cands: map<int, seq<int>>, horizontal: bool, values: seq<XWingLine>,
                            j: int, keyValues: map<(int, int, int), XWingLine>, at: map<(int, int, int), int>)
  {
    0 <= j <= |values|
    && (forall key :: key in keyValues ==>
          key in at && 0 <= at[key] < j && values[at[key]] == keyValues[key]
          && key == XWingKey(keyValues[key]) && FirstXWing(values, at[key]))
    && (forall k :: 0 <= k < j ==> XWingKey(values[k]) in keyValues)
    && XWingsCleared(rank, blocks, cands, horizontal, values, j)
  }

  /** A record under a new key is the first of its key and matches nothing before it. */
  lemma XWingScanFirst(rank: int, blocks: seq<int>, cands: map<int, seq<int>>, horizontal: bool, values: seq<XWingLine>,
                       j: int, keyValues: map<(int, int, int), XWingLine>, at: map<(int, int, int), int>)
    requires XWingScan(rank, blocks, cands, horizontal, values, j, keyValues, at) && j < |values|
    requires XWingKey(values[j]) !in keyValues
    ensures XWingScan(rank, blocks, cands, horizontal, values, j + 1,
                      keyValues[XWingKey(values[j]) := values[j]], at[XWingKey(values[j]) := j])
  {
    assert FirstXWing(values, j);
  }

  /**
   * A record under a key seen before forms an X-wing with the first record of that key; once it
   * is applied to a state that only lost candidates, the X-wings before stay applied.
   */
  lemma XWingScanPaired(rank: int, blocks: seq<int>, cands: map<int, seq<int>>, cands': map<int, seq<int>>,
                        horizontal: bool, values: seq<XWingLine>,
                        j: int, keyValues: map<(int, int, int), XWingLine>, at: map<(int, int, int), int>)
    requires XWingScan(rank, blocks, cands, horizontal, values, j, keyValues, at) && j < |values|
    requires XWingKey(values[j]) in keyValues && Shrinks(cands, cands')
    requires XWingCleared(rank, blocks, cands', horizontal, keyValues[XWingKey(values[j])], values[j])
    ensures XWingScan(rank, blocks, cands', horizontal, values, j + 1, keyValues, at)
  {
    var key := XWingKey(values[j]);
    forall i, k | 0 <= i < k < j + 1 && k < |values| && FirstXWing(values, i) && XWingKey(values[i]) == XWingKey(values[k])
      ensures XWingCleared(rank, blocks, cands', horizontal, values[i], values[k])
    {
      if k == j {
        assert FirstXWing(values, at[key]);
      } else {
        XWingClearedStays(rank, blocks, cands, cands', horizontal, values[i], values[k]);
      }
    }
  }

  /** An applied X-wing stays applied while candidates are only lost. */
  lemma XWingClearedStays(rank: int, blocks: seq<int>, cands: map<int, seq<int>>, cands': map<int, seq<int>>,
                          horizontal: bool, first: XWingLine, later: XWingLine)
    requires XWingCleared(rank, blocks, cands, horizontal, first, later) && Shrinks(cands, cands')
    ensures XWingCleared(rank, blocks, cands', horizontal, first, later)
  {
  }

  /** Records come in increasing (line, number) order. */
  predicate XWingBefore(a: XWingLine, b: XWingLine)
  {
    a.line < b.line || (a.line == b.line && a.number < b.number)
  }

  /**
   * The project lambda of updateCandidateByXWing: the two crossing lines, in increasing order,
   * through the blank cells of line `line` with candidate n; None when there are fewer or more.
   */
  method LinePair(rank: int, blocks: seq<int>, field: seq<int>, cands: map<int, seq<int>>, horizontal: bool,
                  line: int, n: int)
    returns (value: Option<(int, int)>)
    requires 0 <= line < rank && |blocks| == rank * rank && |field| == rank * rank
    requires forall q :: q in cands <==> 0 <= q < |field| && field[q] == InvalidNumber
    ensures value.Some? <==> TwoCrossings(rank, blocks, cands, horizontal, line, n)
    ensures value.Some? ==> 1 <= n <= rank ==> XWingOf(rank, blocks, cands, horizontal, XWingLine(value.value.0, value.value.1, n, line))
  {
    var line0, line1 := Uninitialized, Uninitialized;
    var i := 0;
    while i < rank
      invariant 0 <= i <= rank
      invariant line0 == Uninitialized ==> line1 == Uninitialized
      invariant line0 != Uninitialized ==> 0 <= line0 < i && HasCandidate(cands, LineCell(rank, horizontal, line, line0), n)
      invariant line1 != Uninitialized ==> line0 < line1 < i && HasCandidate(cands, LineCell(rank, horizontal, line, line1), n)
      invariant forall k :: 0 <= k < i && HasCandidate(cands, LineCell(rank, horizontal, line, k), n) ==> k == line0 || k == line1
    {
      var position := LineCell(rank, horizontal, line, i);
      if field[position] == InvalidNumber {
        var candidates := cands[position];
        if n in candidates {
          if line0 == Uninitialized {
            line0 := i;
          } else if line1 == Uninitialized {
            line1 := i;
          } else {
            LineCrowded(rank, blocks, cands, horizontal, line, n, line0, line1, i);
            return None;
          }
        }
      }
      i := i + 1;
    }
    LinePairSettled(rank, blocks, cands, horizontal, line, n, line0, line1);
    if line1 == Uninitialized {
      return None;
    }
    return Some((line0, line1));
  }

  /** Three cells of a line with candidate n: their crossing lines are three. */
  lemma LineCrowded(rank: int, blocks: seq<int>, cands: map<int, seq<int>>, horizontal: bool, line: int, n: int,
                    a: int, b: int, c: int)
    requires 0 <= line < rank && |blocks| == rank * rank && 0 <= a < b < c < rank
    requires HasCandidate(cands, LineCell(rank, horizontal, line, a), n)
    requires HasCandidate(cands, LineCell(rank, horizontal, line, b), n)
    requires HasCandidate(cands, LineCell(rank, horizontal, line, c), n)
    ensures !TwoCrossings(rank, blocks, cands, horizontal, line, n)
  {
    var cells := LineCells(rank, horizontal, line);
    assert cells[a] in cells && cells[b] in cells && cells[c] in cells;
    HolderGroupsCover(rank, blocks, LineGroup(!horizontal), cands, cells, n);
    ThreeMembers(HolderGroups(rank, blocks, LineGroup(!horizontal), cands, cells, n), a, b, c);
  }

  /** The scan of a line ended with at most two crossing lines taken: they are its holders' crossing lines. */
  lemma LinePairSettled(rank: int, blocks: seq<int>, cands: map<int, seq<int>>, horizontal: bool, line: int, n: int,
                        line0: int, line1: int)
    requires 0 <= line < rank && |blocks| == rank * rank
    requires forall q :: q in cands ==> 0 <= q < rank * rank
    requires line0 == Uninitialized ==> line1 == Uninitialized
    requires line0 != Uninitialized ==> 0 <= line0 < rank && HasCandidate(cands, LineCell(rank, horizontal, line, line0), n)
    requires line1 != Uninitialized ==> line0 < line1 < rank && HasCandidate(cands, LineCell(rank, horizontal, line, line1), n)
    requires forall k :: 0 <= k < rank && HasCandidate(cands, LineCell(rank, horizontal, line, k), n) ==> k == line0 || k == line1
    ensures line1 != Uninitialized <==> TwoCrossings(rank, blocks, cands, horizontal, line, n)
    ensures line1 != Uninitialized ==>
              Confined(rank, blocks, cands, LineGroup(horizontal), line, LineGroup(!horizontal), {line0, line1}, n)
  {
    if line0 == Uninitialized {
      HolderGroupsWithin(rank, blocks, LineGroup(!horizontal), cands, LineCells(rank, horizontal, line), n, {});
    } else if line1 == Uninitialized {
      LineSingleHolder(rank, blocks, cands, horizontal, line, n, line0, line1);
    } else {
      LinePairHolders(rank, blocks, cands, horizontal, line, n, line0, line1);
    }
  }

  /** The scan took one crossing line: it is the only one. */
  lemma LineSingleHolder(rank: int, blocks: seq<int>, cands: map<int, seq<int>>, horizontal: bool, line: int, n: int,
                        line0: int, line1: int)
    requires 0 <= line < rank && |blocks| == rank * rank
    requires forall q :: q in cands ==> 0 <= q < rank * rank
    requires line0 == Uninitialized ==> line1 == Uninitialized
    requires line0 != Uninitialized ==> 0 <= line0 < rank && HasCandidate(cands, LineCell(rank, horizontal, line, line0), n)
    requires line1 != Uninitialized ==> line0 < line1 < rank && HasCandidate(cands, LineCell(rank, horizontal, line, line1), n)
    requires forall k :: 0 <= k < rank && HasCandidate(cands, LineCell(rank, horizontal, line, k), n) ==> k == line0 || k == line1
    requires line0 != Uninitialized && line1 == Uninitialized
    ensures !TwoCrossings(rank, blocks, cands, horizontal, line, n)
  {
    var cells := LineCells(rank, horizontal, line);
    assert cells[line0] in cells;
    HolderGroupsCover(rank, blocks, LineGroup(!horizontal), cands, cells, n);
    HolderGroupsWithin(rank, blocks, LineGroup(!horizontal), cands, cells, n, {line0});
    assert HolderGroups(rank, blocks, LineGroup(!horizontal), cands, cells, n) == {line0};
  }

  /** The scan took two crossing lines: they are exactly the holders' crossing lines, which confine n. */
  lemma LinePairHolders(rank: int, blocks: seq<int>, cands: map<int, seq<int>>, horizontal: bool, line: int, n: int,
                        line0: int, line1: int)
    requires 0 <= line < rank && |blocks| == rank * rank
    requires forall q :: q in cands ==> 0 <= q < rank * rank
    requires line0 == Uninitialized ==> line1 == Uninitialized
    requires line0 != Uninitialized ==> 0 <= line0 < rank && HasCandidate(cands, LineCell(rank, horizontal, line, line0), n)
    requires line1 != Uninitialized ==> line0 < line1 < rank && HasCandidate(cands, LineCell(rank, horizontal, line, line1), n)
    requires forall k :: 0 <= k < rank && HasCandidate(cands, LineCell(rank, horizontal, line, k), n) ==> k == line0 || k == line1
    requires line1 != Uninitialized
    ensures TwoCrossings(rank, blocks, cands, horizontal, line, n)
    ensures Confined(rank, blocks, cands, LineGroup(horizontal), line, LineGroup(!horizontal), {line0, line1}, n)
  {
    var cells := LineCells(rank, horizontal, line);
    var all := HolderGroups(rank, blocks, LineGroup(!horizontal), cands, cells, n);
    assert cells[line0] in cells && cells[line1] in cells;
    HolderGroupsCover(rank, blocks, LineGroup(!horizontal), cands, cells, n);
    HolderGroupsWithin(rank, blocks, LineGroup(!horizontal), cands, cells, n, {line0, line1});
    assert all == {line0, line1};
    assert |{line0, line1}| == 2 by {
      assert {line0, line1} == {line0} + {line1} && line0 !in {line1};
    }
    LineListed(rank, blocks, cands, horizontal, line);
    ConfinedByHolders(rank, blocks, cands, LineGroup(horizontal), line, LineGroup(!horizontal), cells, {line0, line1}, n);
  }

  /**
   * The collection loop of updateCandidateByXWing: a record for every (line, number) whose
   * candidates in the line sit on exactly two crossing lines, in increasing (line, number) order.
   */
  method CollectXWings(rank: int, blocks: seq<int>, field: seq<int>, cands: map<int, seq<int>>, horizontal: bool)
    returns (values: seq<XWingLine>)
    requires |blocks| == rank * rank && |field| == rank * rank
    requires forall q :: q in cands <==> 0 <= q < |field| && field[q] == InvalidNumber
    ensures XWingLines(rank, blocks, cands, horizontal, values)
    ensures forall k :: 0 <= k < |values| ==> 0 <= values[k].line < rank
    ensures forall a, b :: 0 <= a < b < |values| ==> XWingBefore(values[a], values[b])
    ensures forall line, n :: 1 <= n <= rank && TwoCrossings(rank, blocks, cands, horizontal, line, n) ==>
              RecordedAt(values, line, n)
  {
    values := [];
    var i := 0;
    while i < rank
      invariant 0 <= i <= rank || (rank <= 0 && i == 0)
      invariant XWingsCollected(rank, blocks, cands, horizontal, values, i)
    {
      var row := LineXWings(rank, blocks, field, cands, horizontal, i);
      XWingsCollectedStep(rank, blocks, cands, horizontal, values, row, i);
      values := values + row;
      i := i + 1;
    }
  }

  /** What the collection has found once lines 0 to i - 1 are done. */
  ghost predicate XWingsCollected(rank: int, blocks: seq<int>, cands: map<int, seq<int>>, horizontal: bool,
                                  values: seq<XWingLine>, i: int)
  {
    XWingLines(rank, blocks, cands, horizontal, values)
    && (forall k :: 0 <= k < |values| ==> 0 <= values[k].line < i)
    && (forall a, b :: 0 <= a < b < |values| ==> XWingBefore(values[a], values[b]))
    && (forall line, n :: line < i && 1 <= n <= rank && TwoCrossings(rank, blocks, cands, horizontal, line, n) ==>
          RecordedAt(values, line, n))
  }

  /** Appending the records of line i, as LineXWings finds them, completes line i. */
  lemma XWingsCollectedStep(rank: int, blocks: seq<int>, cands: map<int, seq<int>>, horizontal: bool,
                            values: seq<XWingLine>, row: seq<XWingLine>, i: int)
    requires 0 <= i && XWingsCollected(rank, blocks, cands, horizontal, values, i)
    requires XWingLines(rank, blocks, cands, horizontal, row)
    requires forall k :: 0 <= k < |row| ==> row[k].line == i
    requires forall a, b :: 0 <= a < b < |row| ==> row[a].number < row[b].number
    requires forall n :: 1 <= n <= rank && TwoCrossings(rank, blocks, cands, horizontal, i, n) ==> Recorded(row, n)
    ensures XWingsCollected(rank, blocks, cands, horizontal, values + row, i + 1)
  {
    XWingLinesJoin(rank, blocks, cands, horizontal, values, row);
    RecordedJoin(values, row, i);
    var next := values + row;
    forall k | 0 <= k < |next|
      ensures 0 <= next[k].line < i + 1
    {
      if k >= |values| { assert next[k] == row[k - |values|]; }
    }
    forall a, b | 0 <= a < b < |next|
      ensures XWingBefore(next[a], next[b])
    {
      if b < |values| {
      } else if a < |values| {
        assert next[b] == row[b - |values|];
      } else {
        assert next[a] == row[a - |values|] && next[b] == row[b - |values|];
      }
    }
    forall line, n | line < i + 1 && 1 <= n <= rank && TwoCrossings(rank, blocks, cands, horizontal, line, n)
      ensures RecordedAt(next, line, n)
    {
      if line == i {
        assert Recorded(row, n);
      }
    }
  }

  /** The records of one line `line`, in increasing number order: the inner loop of the collection. */
  method LineXWings(rank: int, blocks: seq<int>, field: seq<int>, cands: map<int, seq<int>>, horizontal: bool, line: int)
    returns (row: seq<XWingLine>)
    requires 0 <= line < rank && |blocks| == rank * rank && |field| == rank * rank
    requires forall q :: q in cands <==> 0 <= q < |field| && field[q] == InvalidNumber
    ensures XWingLines(rank, blocks, cands, horizontal, row)
    ensures forall k :: 0 <= k < |row| ==> row[k].line == line
    ensures forall a, b :: 0 <= a < b < |row| ==> row[a].number < row[b].number
    ensures forall n :: 1 <= n <= rank && TwoCrossings(rank, blocks, cands, horizontal, line, n) ==> Recorded(row, n)
  {
    row := [];
    var n := 1;
    while n <= rank
      invariant 1 <= n <= rank + 1
      invariant LineScanned(rank, blocks, cands, horizontal, line, n, row)
    {
      var value := LinePair(rank, blocks, field, cands, horizontal, line, n);
      if value.Some? {
        var x := XWingLine(value.value.0, value.value.1, n, line);
        LineScanRecord(rank, blocks, cands, horizontal, line, n, row, x);
        row := row + [x];
      } else {
        LineScanSkip(rank, blocks, cands, horizontal, line, n, row);
      }
      n := n + 1;
    }
  }

  /** What the scan of line `line` has found once numbers 1 to n - 1 are done. */
  ghost predicate LineScanned(rank: int, blocks: seq<int>, cands: map<int, seq<int>>, horizontal: bool, line: int, n: int,
                              row: seq<XWingLine>)
  {
    XWingLines(rank, blocks, cands, horizontal, row)
    && (forall k :: 0 <= k < |row| ==> row[k].line == line && row[k].number < n)
    && (forall a, b :: 0 <= a < b < |row| ==> row[a].number < row[b].number)
    && (forall m :: 1 <= m < n && TwoCrossings(rank, blocks, cands, horizontal, line, m) ==> Recorded(row, m))
  }

  /** One round of the scan that finds two crossing lines for n: the record for n is appended. */
  lemma LineScanRecord(rank: int, blocks: seq<int>, cands: map<int, seq<int>>, horizontal: bool, line: int, n: int,
                       row: seq<XWingLine>, x: XWingLine)
    requires 1 <= n <= rank && LineScanned(rank, blocks, cands, horizontal, line, n, row)
    requires x.line == line && x.number == n && XWingOf(rank, blocks, cands, horizontal, x)
    ensures LineScanned(rank, blocks, cands, horizontal, line, n + 1, row + [x])
  {
    LineRecordAppended(rank, blocks, cands, horizontal, line, n, row, x);
    forall m | 1 <= m < n + 1 && TwoCrossings(rank, blocks, cands, horizontal, line, m)
      ensures Recorded(row + [x], m)
    {
      if m < n {
        assert Recorded(row, m);
      }
    }
  }

  /** One round of the scan that finds no two crossing lines for n: nothing is appended. */
  lemma LineScanSkip(rank: int, blocks: seq<int>, cands: map<int, seq<int>>, horizontal: bool, line: int, n: int,
                     row: seq<XWingLine>)
    requires 1 <= n <= rank && LineScanned(rank, blocks, cands, horizontal, line, n, row)
    requires !TwoCrossings(rank, blocks, cands, horizontal, line, n)
    ensures LineScanned(rank, blocks, cands, horizontal, line, n + 1, row)
  {
    forall m | 1 <= m < n + 1 && TwoCrossings(rank, blocks, cands, horizontal, line, m)
      ensures Recorded(row, m)
    {
      assert m != n;
    }
  }

  /** Appending the record x for number n to the records of one line keeps what the scan of that line promises. */
  lemma LineRecordAppended(rank: int, blocks: seq<int>, cands: map<int, seq<int>>, horizontal: bool, line: int, n: int,
                           row: seq<XWingLine>, x: XWingLine)
    requires XWingLines(rank, blocks, cands, horizontal, row) && XWingOf(rank, blocks, cands, horizontal, x)
    requires x.line == line && x.number == n
    requires forall k :: 0 <= k < |row| ==> row[k].line == line && row[k].number < n
    requires forall a, b :: 0 <= a < b < |row| ==> row[a].number < row[b].number
    ensures XWingLines(rank, blocks, cands, horizontal, row + [x])
    ensures forall k :: 0 <= k < |row + [x]| ==> (row + [x])[k].line == line && (row + [x])[k].number < n + 1
    ensures forall a, b :: 0 <= a < b < |row + [x]| ==> (row + [x])[a].number < (row + [x])[b].number
    ensures forall m :: Recorded(row, m) ==> Recorded(row + [x], m)
    ensures Recorded(row + [x], n)
  {
    var row' := row + [x];
    assert row'[..|row'| - 1] == row;
    RecordedKept(row, row', n);
  }

  /** Some record of `row` is about number m. */
  ghost predicate Recorded(row: seq<XWingLine>, m: int)
  {
    exists k :: 0 <= k < |row| && row[k].number == m
  }

  /** Some record of `values` is about line `line` and number n. */
  ghost predicate RecordedAt(values: seq<XWingLine>, line: int, n: int)
  {
    exists k :: 0 <= k < |values| && values[k].line == line && values[k].number == n
  }

  /** Appending the records of line i keeps the earlier records and adds those of line i. */
  lemma RecordedJoin(values: seq<XWingLine>, row: seq<XWingLine>, i: int)
    requires forall k :: 0 <= k < |row| ==> row[k].line == i
    ensures forall line, n :: RecordedAt(values, line, n) ==> RecordedAt(values + row, line, n)
    ensures forall n :: Recorded(row, n) ==> RecordedAt(values + row, i, n)
  {
    forall line, n | RecordedAt(values, line, n)
      ensures RecordedAt(values + row, line, n)
    {
      var k :| 0 <= k < |values| && values[k].line == line && values[k].number == n;
      assert (values + row)[k] == values[k];
    }
    forall n | Recorded(row, n)
      ensures RecordedAt(values + row, i, n)
    {
      var k :| 0 <= k < |row| && row[k].number == n;
      assert (values + row)[|values| + k] == row[k];
    }
  }

  /** Appending a record for n keeps every number the row already had, and adds n. */
  lemma RecordedKept(row0: seq<XWingLine>, row: seq<XWingLine>, n: int)
    requires |row| == |row0| + 1 && row[..|row0|] == row0 && row[|row0|].number == n
    ensures forall m :: Recorded(row0, m) ==> Recorded(row, m)
    ensures Recorded(row, n)
  {
    forall m | Recorded(row0, m)
      ensures Recorded(row, m)
    {
      var k :| 0 <= k < |row0| && row0[k].number == m;
      assert row[k] == row0[k];
    }
    assert row[|row0|].number == n;
  }
}
