// The bookkeeping a Sudoku keeps beside its field (Sudoku.h:27-34): the block map, the
// candidate lists of the blank cells and the blank cells of each block; the invariant that
// ties them to the field; and what it means for that state to be sound with respect to a
// solution of the puzzle.

module SudokuState {
  import opened SudokuCodec
  import opened SudokuGrid

  /** removeElement: erase the first occurrence of `element`, telling whether there was one. */
  method RemoveElement(list: seq<int>, element: int) returns (rest: seq<int>, removed: bool)
    ensures removed <==> element in list
    ensures rest == Without(list, element)
    ensures removed ==>
              exists k :: 0 <= k < |list| && list[k] == element && element !in list[..k]
                          && rest == list[..k] + list[k + 1..]
  {
    var k := 0;
    while k < |list| && list[k] != element
      invariant 0 <= k <= |list|
      invariant element !in list[..k]
    {
      k := k + 1;
    }
    if k < |list| {
      var k' := WithoutFirst(list, element);
      assert k' == k;
      rest, removed := list[..k] + list[k + 1..], true;
    } else {
      assert list[..k] == list;
      rest, removed := list, false;
    }
  }

  /** Erasing the same number twice from an ascending list erases it once. */
  lemma WithoutTwice(s: seq<int>, x: int)
    requires Ascending(s)
    ensures Without(Without(s, x), x) == Without(s, x)
  {
    WithoutAscending(s, x);
  }

  /** The slot of (block b, number n) in the block map: (b - 1) * rank + (n - 1). */
  function MapIndex(rank: int, b: int, n: int): (i: int)
    requires 1 <= b <= rank && 1 <= n <= rank
    ensures 0 <= i < rank * rank
    ensures RowOf(rank, i) == b - 1 && ColumnOf(rank, i) == n - 1
  {
    CellAt(rank, b - 1, n - 1)
  }

  /** A map slot holds the cell of block b that holds n, or InvalidPosition when there is none. */
  predicate MapEntry(blocks: seq<int>, field: seq<int>, b: int, n: int, q: int)
  {
    if q == InvalidPosition then
      forall p :: 0 <= p < |field| && p < |blocks| && blocks[p] == b ==> field[p] != n
    else
      0 <= q < |field| && q < |blocks| && blocks[q] == b && field[q] == n
  }

  predicate MapMatches(rank: int, blocks: seq<int>, field: seq<int>, m: seq<int>)
  {
    |m| == rank * rank
    && forall b, n :: 1 <= b <= rank && 1 <= n <= rank ==>
         MapEntry(blocks, field, b, n, m[MapIndex(rank, b, n)])
  }

  /** A candidate list: strictly ascending numbers of 1..rank, none present among p's peers. */
  predicate CandidateList(rank: int, blocks: seq<int>, field: seq<int>, p: int, l: seq<int>)
  {
    Ascending(l) && forall n :: n in l ==> 1 <= n <= rank && Absent(rank, blocks, field, p, n)
  }

  /** The candidate map has a key for each blank cell and nothing else. */
  ghost predicate CandidatesMatch(rank: int, blocks: seq<int>, field: seq<int>, cands: map<int, seq<int>>)
  {
    (forall p :: p in cands <==> 0 <= p < |field| && field[p] == InvalidNumber)
    && forall p :: p in cands ==> CandidateList(rank, blocks, field, p, cands[p])
  }

  /** blankBlocks[b] lists the blank cells of block b in increasing order; slot 0 is unused. */
  ghost predicate BlankBlocksMatch(rank: int, blocks: seq<int>, field: seq<int>, bb: seq<seq<int>>)
  {
    |bb| == rank + 1 >= 1 && bb[0] == []
    && forall b :: 1 <= b <= rank ==>
         Ascending(bb[b])
         && forall p :: p in bb[b] <==> 0 <= p < |field| && p < |blocks| && blocks[p] == b && field[p] == 0
  }

  /** The numbers 1..k absent from p's peers, in increasing order. */
  function AbsentNumbers(rank: int, blocks: seq<int>, field: seq<int>, p: int, k: int): (l: seq<int>)
    ensures Ascending(l)
    ensures forall n :: n in l <==> 1 <= n <= k && Absent(rank, blocks, field, p, n)
    decreases k
  {
    if k <= 0 then []
    else
      var prefix := AbsentNumbers(rank, blocks, field, p, k - 1);
      assert forall i :: 0 <= i < |prefix| ==> prefix[i] < k by {
        forall i | 0 <= i < |prefix|
          ensures prefix[i] < k
        {
          assert prefix[i] in prefix;
        }
      }
      prefix + (if Absent(rank, blocks, field, p, k) then [k] else [])
  }

  /** One more number considered: k joins the list exactly when it is absent. */
  lemma AbsentNumbersNext(rank: int, blocks: seq<int>, field: seq<int>, p: int, k: int)
    requires k >= 1
    ensures AbsentNumbers(rank, blocks, field, p, k)
            == AbsentNumbers(rank, blocks, field, p, k - 1) + (if Absent(rank, blocks, field, p, k) then [k] else [])
  {
  }

  /** Everything the engine keeps agrees with its field, and the field has no conflict. */
  ghost predicate Consistent(rank: int, blocks: seq<int>, field: seq<int>, m: seq<int>,
                       cands: map<int, seq<int>>, bb: seq<seq<int>>)
  {
    Shaped(rank, blocks, field) && PartitionValid(rank, blocks) && NoConflict(rank, blocks, field)
    && MapMatches(rank, blocks, field, m) && CandidatesMatch(rank, blocks, field, cands)
    && BlankBlocksMatch(rank, blocks, field, bb)
  }

  /**
   * A solution s is still reachable from a state: s extends the field and every blank cell's
   * number in s is among the cell's candidates.
   */
  ghost predicate SoundState(rank: int, blocks: seq<int>, field: seq<int>, cands: map<int, seq<int>>, s: seq<int>)
  {
    Solution(rank, blocks, s) && Agrees(field, s)
    && forall p :: p in cands ==> 0 <= p < |s| && s[p] in cands[p]
  }

  /** Every solution reachable from the first state is reachable from the second. */
  ghost predicate KeepsSolutions(rank: int, blocks: seq<int>, f0: seq<int>, c0: map<int, seq<int>>,
                           f1: seq<int>, c1: map<int, seq<int>>)
  {
    forall s :: SoundState(rank, blocks, f0, c0, s) ==> SoundState(rank, blocks, f1, c1, s)
  }

  /** The same blank cells, and no candidate gained. */
  predicate Shrinks(c0: map<int, seq<int>>, c1: map<int, seq<int>>)
  {
    c1.Keys == c0.Keys && forall p, n :: p in c1 && n in c1[p] ==> n in c0[p]
  }

  /** A solution reachable from a state is reachable from any state it shrank from. */
  lemma SoundBeforeShrinking(rank: int, blocks: seq<int>, field: seq<int>,
                             c0: map<int, seq<int>>, c1: map<int, seq<int>>, s: seq<int>)
    requires SoundState(rank, blocks, field, c1, s) && Shrinks(c0, c1)
    ensures SoundState(rank, blocks, field, c0, s)
  {
  }

  /** Erasing a number from one candidate list keeps the state consistent and shrinks it. */
  lemma RemovalConsistent(rank: int, blocks: seq<int>, field: seq<int>, m: seq<int>,
                          cands: map<int, seq<int>>, bb: seq<seq<int>>, p: int, n: int)
    requires Consistent(rank, blocks, field, m, cands, bb) && p in cands
    ensures Consistent(rank, blocks, field, m, cands[p := Without(cands[p], n)], bb)
    ensures Shrinks(cands, cands[p := Without(cands[p], n)])
  {
    WithoutAscending(cands[p], n);
    var c := cands[p := Without(cands[p], n)];
    assert forall q :: q in c ==> CandidateList(rank, blocks, field, q, c[q]);
  }

  /**
   * Erasing n from p's list keeps every solution reachable from a snapshot y (an earlier
   * state the candidates only shrank from) that puts no n at p.
   */
  lemma RemovalSound(rank: int, blocks: seq<int>, field: seq<int>, c0: map<int, seq<int>>,
                     y: map<int, seq<int>>, c: map<int, seq<int>>, p: int, n: int)
    requires p in c && Ascending(c[p])
    requires KeepsSolutions(rank, blocks, field, c0, field, c) && Shrinks(y, c)
    requires forall s :: SoundState(rank, blocks, field, y, s) ==> s[p] != n
    ensures KeepsSolutions(rank, blocks, field, c0, field, c[p := Without(c[p], n)])
  {
    WithoutAscending(c[p], n);
    forall s | SoundState(rank, blocks, field, c0, s)
      ensures SoundState(rank, blocks, field, c[p := Without(c[p], n)], s)
    {
      SoundBeforeShrinking(rank, blocks, field, y, c, s);
    }
  }

  /**
   * A strategy's removal: erasing n from p's list, when no solution reachable from the
   * strategy's starting candidates c0 puts n at p, keeps the state consistent, shrinking from
   * c0 and keeping every solution reachable from c0.
   */
  lemma RemovalKeeps(rank: int, blocks: seq<int>, field: seq<int>, m: seq<int>, bb: seq<seq<int>>,
                     c0: map<int, seq<int>>, c: map<int, seq<int>>, p: int, n: int)
    requires Consistent(rank, blocks, field, m, c, bb) && p in c
    requires Shrinks(c0, c) && KeepsSolutions(rank, blocks, field, c0, field, c)
    requires forall s :: SoundState(rank, blocks, field, c0, s) ==> s[p] != n
    ensures Consistent(rank, blocks, field, m, c[p := Without(c[p], n)], bb)
    ensures Shrinks(c0, c[p := Without(c[p], n)])
    ensures KeepsSolutions(rank, blocks, field, c0, field, c[p := Without(c[p], n)])
  {
    RemovalConsistent(rank, blocks, field, m, c, bb, p, n);
    assert CandidateList(rank, blocks, field, p, c[p]);
    RemovalSound(rank, blocks, field, c0, c0, c, p, n);
  }

  /** The candidate map after n is written at p: p's entry goes, n leaves every peer's list. */
  function AfterPlacing(rank: int, blocks: seq<int>, cands: map<int, seq<int>>, p: int, n: int): map<int, seq<int>>
  {
    map q | q in cands && q != p :: if Peers(rank, blocks, p, q) then Without(cands[q], n) else cands[q]
  }

  lemma PeersSymmetric(rank: int, blocks: seq<int>, p: int, q: int)
    ensures Peers(rank, blocks, p, q) <==> Peers(rank, blocks, q, p)
  {
  }

  /** n crossed out of the lists of the other cells of p's column. */
  function ColumnCrossed(rank: int, c: map<int, seq<int>>, p: int, n: int): map<int, seq<int>>
    requires 0 < rank
  {
    map q | q in c :: if q != p && ColumnOf(rank, q) == ColumnOf(rank, p) then Without(c[q], n) else c[q]
  }

  /** n crossed out of the lists of the other cells of p's row. */
  function RowCrossed(rank: int, c: map<int, seq<int>>, p: int, n: int): map<int, seq<int>>
    requires 0 < rank
  {
    map q | q in c :: if q != p && RowOf(rank, q) == RowOf(rank, p) then Without(c[q], n) else c[q]
  }

  /** n crossed out of the lists of every cell of p's block, p included. */
  function BlockCrossed(blocks: seq<int>, c: map<int, seq<int>>, p: int, n: int): map<int, seq<int>>
    requires 0 <= p < |blocks|
  {
    map q | q in c :: if 0 <= q < |blocks| && blocks[q] == blocks[p] then Without(c[q], n) else c[q]
  }

  /** ColumnCrossed for the rows below r only: the first r rounds of the column loop of updateNumber. */
  function ColumnCrossedBelow(rank: int, c: map<int, seq<int>>, p: int, n: int, r: int): (c': map<int, seq<int>>)
    requires 0 < rank
    ensures c'.Keys == c.Keys
  {
    map q | q in c :: if q != p && ColumnOf(rank, q) == ColumnOf(rank, p) && RowOf(rank, q) < r then Without(c[q], n) else c[q]
  }

  /** One more round of the column loop: the cell of row r, when it has a list and is not p, loses n. */
  lemma ColumnCrossedStep(rank: int, c: map<int, seq<int>>, p: int, n: int, r: int)
    requires 0 < rank && 0 <= r < rank && 0 <= p < rank * rank
    requires forall q :: q in c ==> 0 <= q < rank * rank
    ensures var q := CellAt(rank, r, ColumnOf(rank, p));
            ColumnCrossedBelow(rank, c, p, n, r + 1) ==
              if q in c && q != p then ColumnCrossedBelow(rank, c, p, n, r)[q := Without(c[q], n)]
              else ColumnCrossedBelow(rank, c, p, n, r)
  {
    var q := CellAt(rank, r, ColumnOf(rank, p));
    forall q' | q' in c
      ensures RowOf(rank, q') == r && ColumnOf(rank, q') == ColumnOf(rank, p) <==> q' == q
    {
      SameCell(rank, q', r, ColumnOf(rank, p));
    }
  }

  /** No round crosses anything out, and all rank rounds cross out what ColumnCrossed does. */
  lemma ColumnCrossedEnds(rank: int, c: map<int, seq<int>>, p: int, n: int)
    requires 0 < rank && forall q :: q in c ==> 0 <= q < rank * rank
    ensures ColumnCrossedBelow(rank, c, p, n, 0) == c
    ensures ColumnCrossedBelow(rank, c, p, n, rank) == ColumnCrossed(rank, c, p, n)
  {
    forall q | q in c
      ensures 0 <= RowOf(rank, q) < rank
    {
      PositionCoordinates(rank, q);
    }
  }

  /** RowCrossed for the columns below k only: the first k rounds of the row loop of updateNumber. */
  function RowCrossedBelow(rank: int, c: map<int, seq<int>>, p: int, n: int, k: int): (c': map<int, seq<int>>)
    requires 0 < rank
    ensures c'.Keys == c.Keys
  {
    map q | q in c :: if q != p && RowOf(rank, q) == RowOf(rank, p) && ColumnOf(rank, q) < k then Without(c[q], n) else c[q]
  }

  /** One more round of the row loop: the cell of column k, when it has a list and is not p, loses n. */
  lemma RowCrossedStep(rank: int, c: map<int, seq<int>>, p: int, n: int, k: int)
    requires 0 < rank && 0 <= k < rank && 0 <= p < rank * rank
    requires forall q :: q in c ==> 0 <= q < rank * rank
    ensures var q := CellAt(rank, RowOf(rank, p), k);
            RowCrossedBelow(rank, c, p, n, k + 1) ==
              if q in c && q != p then RowCrossedBelow(rank, c, p, n, k)[q := Without(c[q], n)]
              else RowCrossedBelow(rank, c, p, n, k)
  {
    PositionCoordinates(rank, p);
    var q := CellAt(rank, RowOf(rank, p), k);
    forall q' | q' in c
      ensures RowOf(rank, q') == RowOf(rank, p) && ColumnOf(rank, q') == k <==> q' == q
    {
      SameCell(rank, q', RowOf(rank, p), k);
    }
  }

  /** No round crosses anything out, and all rank rounds cross out what RowCrossed does. */
  lemma RowCrossedEnds(rank: int, c: map<int, seq<int>>, p: int, n: int)
    requires 0 < rank && forall q :: q in c ==> 0 <= q < rank * rank
    ensures RowCrossedBelow(rank, c, p, n, 0) == c
    ensures RowCrossedBelow(rank, c, p, n, rank) == RowCrossed(rank, c, p, n)
  {
    forall q | q in c
      ensures 0 <= ColumnOf(rank, q) < rank
    {
      PositionCoordinates(rank, q);
    }
  }

  /** BlockCrossed for the keys below k only: the first k rounds of the block loop of updateNumber. */
  function BlockCrossedBelow(blocks: seq<int>, c: map<int, seq<int>>, p: int, n: int, k: int): (c': map<int, seq<int>>)
    requires 0 <= p < |blocks|
    ensures c'.Keys == c.Keys
  {
    map q | q in c :: if 0 <= q < |blocks| && blocks[q] == blocks[p] && q < k then Without(c[q], n) else c[q]
  }

  /** One more round of the block loop: key k, a cell of p's block, loses n. */
  lemma BlockCrossedStep(blocks: seq<int>, c: map<int, seq<int>>, p: int, n: int, k: int)
    requires 0 <= p < |blocks| && 0 <= k < |blocks| && k in c && blocks[k] == blocks[p]
    ensures BlockCrossedBelow(blocks, c, p, n, k + 1) == BlockCrossedBelow(blocks, c, p, n, k)[k := Without(c[k], n)]
  {
    var before, after := BlockCrossedBelow(blocks, c, p, n, k), BlockCrossedBelow(blocks, c, p, n, k + 1);
    var expected := before[k := Without(c[k], n)];
    forall q | q in c
      ensures after[q] == expected[q]
    {
      BlockCrossedStepAt(blocks, c, p, n, k, q);
    }
    assert after.Keys == expected.Keys;
  }

  /** One more round of the block loop: key k, not a cell of p's block with a list, changes nothing. */
  lemma BlockCrossedSkip(blocks: seq<int>, c: map<int, seq<int>>, p: int, n: int, k: int)
    requires 0 <= p < |blocks| && 0 <= k < |blocks| && !(k in c && blocks[k] == blocks[p])
    ensures BlockCrossedBelow(blocks, c, p, n, k + 1) == BlockCrossedBelow(blocks, c, p, n, k)
  {
    var before, after := BlockCrossedBelow(blocks, c, p, n, k), BlockCrossedBelow(blocks, c, p, n, k + 1);
    forall q | q in c
      ensures after[q] == before[q]
    {
      BlockCrossedStepAt(blocks, c, p, n, k, q);
    }
    assert after.Keys == before.Keys;
  }

  /** The same, for one key. */
  lemma BlockCrossedStepAt(blocks: seq<int>, c: map<int, seq<int>>, p: int, n: int, k: int, q: int)
    requires 0 <= p < |blocks| && 0 <= k < |blocks| && q in c
    ensures BlockCrossedBelow(blocks, c, p, n, k + 1)[q] ==
              if q == k && blocks[k] == blocks[p] then Without(c[k], n) else BlockCrossedBelow(blocks, c, p, n, k)[q]
  {
  }

  /** No round crosses anything out, and a round per cell crosses out what BlockCrossed does. */
  lemma BlockCrossedEnds(blocks: seq<int>, c: map<int, seq<int>>, p: int, n: int)
    requires 0 <= p < |blocks| && forall q :: q in c ==> 0 <= q < |blocks|
    ensures BlockCrossedBelow(blocks, c, p, n, 0) == c
    ensures BlockCrossedBelow(blocks, c, p, n, |blocks|) == BlockCrossed(blocks, c, p, n)
  {
  }

  /**
   * Crossing n out of p's column, then p's row, then every list of p's block, and dropping
   * p's own entry, leaves exactly the candidate map after placing n at p.
   */
  lemma CrossingOutPlaces(rank: int, blocks: seq<int>, c0: map<int, seq<int>>, p: int, n: int)
    requires 0 < rank && |blocks| == rank * rank && 0 <= p < rank * rank
    requires forall q :: q in c0 ==> 0 <= q < rank * rank && Ascending(c0[q])
    ensures BlockCrossed(blocks, RowCrossed(rank, ColumnCrossed(rank, c0, p, n), p, n), p, n) - {p}
            == AfterPlacing(rank, blocks, c0, p, n)
  {
    var c3 := BlockCrossed(blocks, RowCrossed(rank, ColumnCrossed(rank, c0, p, n), p, n), p, n);
    var after := AfterPlacing(rank, blocks, c0, p, n);
    assert (c3 - {p}).Keys == after.Keys;
    forall q | q in after
      ensures (c3 - {p})[q] == after[q]
    {
      CrossingOutPlacesAt(rank, blocks, c0, p, n, q);
    }
  }

  /** The same, for the list of one cell q other than p. */
  lemma CrossingOutPlacesAt(rank: int, blocks: seq<int>, c0: map<int, seq<int>>, p: int, n: int, q: int)
    requires 0 < rank && |blocks| == rank * rank && 0 <= p < rank * rank
    requires forall q :: q in c0 ==> 0 <= q < rank * rank && Ascending(c0[q])
    requires q in c0 && q != p
    ensures BlockCrossed(blocks, RowCrossed(rank, ColumnCrossed(rank, c0, p, n), p, n), p, n)[q]
            == AfterPlacing(rank, blocks, c0, p, n)[q]
  {
    var c1 := ColumnCrossed(rank, c0, p, n);
    var c2 := RowCrossed(rank, c1, p, n);
    var c3 := BlockCrossed(blocks, c2, p, n);
    var x := c0[q];
    var column := ColumnOf(rank, q) == ColumnOf(rank, p);
    var row := RowOf(rank, q) == RowOf(rank, p);
    var block := blocks[q] == blocks[p];
    assert c1[q] == if column then Without(x, n) else x;
    assert c2[q] == if row then Without(c1[q], n) else c1[q];
    assert c3[q] == if block then Without(c2[q], n) else c2[q];
    assert Peers(rank, blocks, p, q) <==> column || row || block;
    WithoutTwice(x, n);
    WithoutAscending(x, n);
    WithoutTwice(Without(x, n), n);
  }

  /** The candidate keys are the blank cells of the field and the cell `position` being filled. */
  ghost predicate KeysBlankBut(rank: int, blocks: seq<int>, field: seq<int>, cands: map<int, seq<int>>, position: int)
  {
    0 < rank && |field| == rank * rank && |blocks| == rank * rank && 0 <= position < rank * rank
    && forall q :: q in cands <==> 0 <= q < |field| && (field[q] == InvalidNumber || q == position)
  }

  /** The state a blank cell p is in once n has been written to the field but nothing else. */
  ghost predicate Pending(rank: int, blocks: seq<int>, field: seq<int>, m: seq<int>,
                    cands: map<int, seq<int>>, bb: seq<seq<int>>, p: int, n: int)
  {
    0 <= p < |field| && 1 <= n <= rank && field[p] == n
    && Consistent(rank, blocks, field[p := InvalidNumber], m, cands, bb)
    && NoConflict(rank, blocks, field)
  }

  lemma PlacedShaped(rank: int, blocks: seq<int>, field: seq<int>, p: int, n: int)
    requires 0 <= p < |field| && 1 <= n <= rank && field[p] == n
    requires Shaped(rank, blocks, field[p := InvalidNumber])
    ensures Shaped(rank, blocks, field)
  {
    forall q | 0 <= q < |field|
      ensures 0 <= field[q] <= rank
    {
      if q != p {
        assert field[q] == field[p := InvalidNumber][q];
      }
    }
  }

  lemma PlacedMap(rank: int, blocks: seq<int>, field: seq<int>, m: seq<int>, p: int, n: int)
    requires 0 <= p < |field| && 1 <= n <= rank && field[p] == n
    requires Shaped(rank, blocks, field) && NoConflict(rank, blocks, field)
    requires MapMatches(rank, blocks, field[p := InvalidNumber], m)
    ensures MapMatches(rank, blocks, field, m[MapIndex(rank, blocks[p], n) := p])
  {
    var f0 := field[p := InvalidNumber];
    var m1 := m[MapIndex(rank, blocks[p], n) := p];
    forall b, n' | 1 <= b <= rank && 1 <= n' <= rank
      ensures MapEntry(blocks, field, b, n', m1[MapIndex(rank, b, n')])
    {
      assert MapEntry(blocks, f0, b, n', m[MapIndex(rank, b, n')]);
    }
  }

  lemma PlacedCandidates(rank: int, blocks: seq<int>, field: seq<int>, cands: map<int, seq<int>>, p: int, n: int)
    requires 0 <= p < |field| && 1 <= n <= rank && field[p] == n
    requires CandidatesMatch(rank, blocks, field[p := InvalidNumber], cands)
    ensures CandidatesMatch(rank, blocks, field, AfterPlacing(rank, blocks, cands, p, n))
  {
    var c1 := AfterPlacing(rank, blocks, cands, p, n);
    forall q | q in c1
      ensures CandidateList(rank, blocks, field, q, c1[q])
    {
      PlacedCandidateList(rank, blocks, field, cands, p, n, q);
    }
  }

  /** The same, for the list of one blank cell q. */
  lemma PlacedCandidateList(rank: int, blocks: seq<int>, field: seq<int>, cands: map<int, seq<int>>, p: int, n: int, q: int)
    requires 0 <= p < |field| && 1 <= n <= rank && field[p] == n
    requires CandidatesMatch(rank, blocks, field[p := InvalidNumber], cands)
    requires q in AfterPlacing(rank, blocks, cands, p, n)
    ensures CandidateList(rank, blocks, field, q, AfterPlacing(rank, blocks, cands, p, n)[q])
  {
    assert CandidateList(rank, blocks, field[p := InvalidNumber], q, cands[q]);
    WithoutAscending(cands[q], n);
    PeersSymmetric(rank, blocks, p, q);
  }

  lemma PlacedBlankBlocks(rank: int, blocks: seq<int>, field: seq<int>, bb: seq<seq<int>>, p: int, n: int)
    requires 0 <= p < |field| && p < |blocks| && 1 <= blocks[p] <= rank && n != 0 && field[p] == n
    requires BlankBlocksMatch(rank, blocks, field[p := InvalidNumber], bb)
    ensures BlankBlocksMatch(rank, blocks, field, bb[blocks[p] := Without(bb[blocks[p]], p)])
  {
    WithoutAscending(bb[blocks[p]], p);
  }

  /**
   * Finishing a placement (updateNumber) keeps the state consistent: the candidates are
   * AfterPlacing, p leaves its block's blank list and the map records p for (block, n).
   */
  lemma PlacingConsistent(rank: int, blocks: seq<int>, field: seq<int>, m: seq<int>,
                          cands: map<int, seq<int>>, bb: seq<seq<int>>, p: int, n: int)
    requires Pending(rank, blocks, field, m, cands, bb, p, n)
    ensures 1 <= blocks[p] <= rank
    ensures Consistent(rank, blocks, field, m[MapIndex(rank, blocks[p], n) := p],
                       AfterPlacing(rank, blocks, cands, p, n), bb[blocks[p] := Without(bb[blocks[p]], p)])
  {
    PlacedShaped(rank, blocks, field, p, n);
    PlacedMap(rank, blocks, field, m, p, n);
    PlacedCandidates(rank, blocks, field, cands, p, n);
    PlacedBlankBlocks(rank, blocks, field, bb, p, n);
  }

  /** Finishing a placement keeps every solution that puts n at p. */
  lemma PlacingSound(rank: int, blocks: seq<int>, field: seq<int>, cands: map<int, seq<int>>,
                     p: int, n: int, s: seq<int>)
    requires 0 <= p < |field| && field[p] == InvalidNumber
    requires forall q :: q in cands ==> Ascending(cands[q])
    requires SoundState(rank, blocks, field, cands, s) && s[p] == n
    ensures SoundState(rank, blocks, field[p := n], AfterPlacing(rank, blocks, cands, p, n), s)
  {
    var c1 := AfterPlacing(rank, blocks, cands, p, n);
    forall q | q in c1
      ensures 0 <= q < |s| && s[q] in c1[q]
    {
      WithoutAscending(cands[q], n);
      if Peers(rank, blocks, p, q) {
        PeersDiffer(rank, blocks, s, p, q);
      }
    }
  }

  /**
   * The converse of PlacingSound: a solution reachable after placing n at a blank cell whose
   * candidates held n was reachable before.
   */
  lemma PlacedSound(rank: int, blocks: seq<int>, field: seq<int>, cands: map<int, seq<int>>,
                    p: int, n: int, s: seq<int>)
    requires 0 <= p < |field| && field[p] == InvalidNumber && n != InvalidNumber
    requires p in cands ==> n in cands[p]
    requires SoundState(rank, blocks, field[p := n], AfterPlacing(rank, blocks, cands, p, n), s)
    ensures SoundState(rank, blocks, field, cands, s)
  {
    var c1 := AfterPlacing(rank, blocks, cands, p, n);
    assert s[p] == n;
    forall q | q in cands
      ensures 0 <= q < |s| && s[q] in cands[q]
    {
      if q != p {
        assert q in c1 && s[q] in c1[q];
        WithoutSubset(cands[q], n);
      }
    }
  }

  /** With no conflict so far, writing n at a blank cell keeps it so exactly when n is absent around it. */
  lemma PlacingConflictFree(rank: int, blocks: seq<int>, field: seq<int>, p: int, n: int)
    requires NoConflict(rank, blocks, field) && 0 <= p < |field| && field[p] == InvalidNumber && n != 0
    ensures NoConflict(rank, blocks, field[p := n]) <==> Absent(rank, blocks, field, p, n)
  {
    var f := field[p := n];
    if Absent(rank, blocks, field, p, n) {
      forall g | g == Row || g == Column || g == Block
        ensures Clean(rank, blocks, f, g)
      {
        forall i, j | 0 <= i < j < |f| && SameGroup(rank, blocks, g, i, j) && f[i] != 0
          ensures f[i] != f[j]
        {
          assert SameGroup(rank, blocks, g, j, i);
          assert Clean(rank, blocks, field, g);
        }
      }
    } else {
      var q :| 0 <= q < |field| && Peers(rank, blocks, p, q) && field[q] == n;
      var g := if SameGroup(rank, blocks, Row, p, q) then Row
        else if SameGroup(rank, blocks, Column, p, q) then Column else Block;
      assert SameGroup(rank, blocks, g, q, p);
      if q < p {
        assert !Clean(rank, blocks, f, g);
      } else {
        assert !Clean(rank, blocks, f, g);
      }
    }
  }

  /** A field that a solution extends has no conflict. */
  lemma AgreeingConflictFree(rank: int, blocks: seq<int>, field: seq<int>, s: seq<int>)
    requires Solution(rank, blocks, s) && Agrees(field, s)
    ensures NoConflict(rank, blocks, field)
  {
    forall g | g == Row || g == Column || g == Block
      ensures Clean(rank, blocks, field, g)
    {
      assert Clean(rank, blocks, s, g);
    }
  }

  /** The number of candidates of the blank cells below `upto`: the countCandidate lambda of solve. */
  function CandidateCount(cands: map<int, seq<int>>, upto: int): nat
    decreases upto
  {
    if upto <= 0 then 0
    else CandidateCount(cands, upto - 1) + (if upto - 1 in cands then |cands[upto - 1]| else 0)
  }

  /** The count is zero exactly when every blank cell below `upto` has run out of candidates. */
  lemma {:induction false} CountZero(cands: map<int, seq<int>>, upto: int)
    ensures CandidateCount(cands, upto) == 0 <==> forall p :: 0 <= p < upto && p in cands ==> cands[p] == []
    decreases upto
  {
    if upto > 0 {
      CountZero(cands, upto - 1);
    }
  }

  /** Fewer blank cells, each with no more candidates, give no larger a count. */
  lemma {:induction false} CountMonotone(c0: map<int, seq<int>>, c1: map<int, seq<int>>, upto: int)
    requires forall p :: p in c1 ==> p in c0 && |c1[p]| <= |c0[p]|
    ensures CandidateCount(c1, upto) <= CandidateCount(c0, upto)
    decreases upto
  {
    if upto > 0 {
      CountMonotone(c0, c1, upto - 1);
    }
  }

  /** Crossing candidates out of ascending lists never raises the count. */
  lemma CountShrinks(c0: map<int, seq<int>>, c1: map<int, seq<int>>, upto: int)
    requires Shrinks(c0, c1)
    requires forall p :: p in c0 ==> Ascending(c0[p])
    requires forall p :: p in c1 ==> Ascending(c1[p])
    ensures CandidateCount(c1, upto) <= CandidateCount(c0, upto)
  {
    forall p | p in c1
      ensures p in c0 && |c1[p]| <= |c0[p]|
    {
      AscendingShorter(c1[p], c0[p]);
    }
    CountMonotone(c0, c1, upto);
  }

  /** Placing a number never raises the count: the cell's entry goes and its peers only lose n. */
  lemma CountAfterPlacing(rank: int, blocks: seq<int>, cands: map<int, seq<int>>, p: int, n: int, upto: int)
    ensures CandidateCount(AfterPlacing(rank, blocks, cands, p, n), upto) <= CandidateCount(cands, upto)
  {
    CountMonotone(cands, AfterPlacing(rank, blocks, cands, p, n), upto);
  }
}
