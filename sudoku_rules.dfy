// Why each deduction of the engine is sound: for any solution still reachable from the
// current state, the cell a rule fills really holds that number, and the candidates a rule
// crosses out are not the solution's numbers.

module SudokuRules {
  import opened SudokuCodec
  import opened SudokuGrid
  import opened SudokuState

  /** A group that exists: rows and columns 0..rank-1, blocks 1..rank. */
  predicate GroupIndex(rank: int, g: Group, i: int)
  {
    match g
    case Row => 0 <= i < rank
    case Column => 0 <= i < rank
    case Block => 1 <= i <= rank
    case NoGroup => false
  }

  /** n is written in no cell of group i of kind g. */
  predicate Unplaced(rank: int, blocks: seq<int>, field: seq<int>, g: Group, i: int, n: int)
  {
    forall q :: 0 <= q < |field| && InGroup(rank, blocks, g, i, q) ==> field[q] != n
  }

  /** Cell q is blank and n is one of its candidates. */
  predicate HasCandidate(cands: map<int, seq<int>>, q: int, n: int)
  {
    q in cands && n in cands[q]
  }

  /** Two cells of one group hold different numbers in a solution. */
  lemma SeatsApart(rank: int, blocks: seq<int>, s: seq<int>, g: Group, i: int, p: int, q: int)
    requires Solution(rank, blocks, s) && p != q
    requires InGroup(rank, blocks, g, i, p) && InGroup(rank, blocks, g, i, q)
    ensures s[p] != s[q]
  {
    assert SameGroup(rank, blocks, g, p, q) && SameGroup(rank, blocks, g, q, p);
    assert Clean(rank, blocks, s, g);
  }

  /** A cell lies in the group of kind g that GroupOf names. */
  lemma OwnGroup(rank: int, blocks: seq<int>, g: Group, p: int)
    requires 0 < rank && 0 <= p < |blocks| == rank * rank && IdsInRange(rank, blocks) && g != NoGroup
    ensures GroupIndex(rank, g, GroupOf(rank, blocks, g, p)) && InGroup(rank, blocks, g, GroupOf(rank, blocks, g, p), p)
  {
    PositionCoordinates(rank, p);
  }

  /**
   * Where a solution puts n in a group that does not hold n yet: at a blank cell of the
   * group that still has n among its candidates.
   */
  lemma Seat(rank: int, blocks: seq<int>, field: seq<int>, cands: map<int, seq<int>>, s: seq<int>,
             g: Group, i: int, n: int) returns (p: int)
    requires SoundState(rank, blocks, field, cands, s)
    requires forall q :: q in cands <==> 0 <= q < |field| && field[q] == InvalidNumber
    requires GroupIndex(rank, g, i) && 1 <= n <= rank
    requires Unplaced(rank, blocks, field, g, i, n)
    ensures 0 <= p < |s| && InGroup(rank, blocks, g, i, p) && HasCandidate(cands, p, n) && s[p] == n
  {
    assert CoversGroup(rank, blocks, s, g, i);
    assert Covered(rank, blocks, s, g, i, n);
    p :| 0 <= p < |s| && InGroup(rank, blocks, g, i, p) && s[p] == n;
  }

  /** A map slot holding InvalidPosition means the block does not hold the number. */
  lemma UnplacedByMap(rank: int, blocks: seq<int>, field: seq<int>, m: seq<int>, b: int, n: int)
    requires MapMatches(rank, blocks, field, m) && 1 <= b <= rank && 1 <= n <= rank
    requires |blocks| == |field| && m[MapIndex(rank, b, n)] == InvalidPosition
    ensures Unplaced(rank, blocks, field, Block, b, n)
  {
    assert MapEntry(blocks, field, b, n, m[MapIndex(rank, b, n)]);
  }

  /** A cell that still has n as a candidate shows that none of its groups holds n. */
  lemma UnplacedNearCandidate(rank: int, blocks: seq<int>, field: seq<int>, cands: map<int, seq<int>>,
                              q0: int, n: int, g: Group)
    requires CandidatesMatch(rank, blocks, field, cands) && |blocks| == |field|
    requires HasCandidate(cands, q0, n) && g != NoGroup && 0 < rank
    ensures Unplaced(rank, blocks, field, g, GroupOf(rank, blocks, g, q0), n)
  {
    assert CandidateList(rank, blocks, field, q0, cands[q0]);
    forall q | 0 <= q < |field| && InGroup(rank, blocks, g, GroupOf(rank, blocks, g, q0), q)
      ensures field[q] != n
    {
      assert SameGroup(rank, blocks, g, q0, q);
    }
  }

  /** A blank cell whose only candidate is n holds n in every reachable solution. */
  lemma NakedSingleForced(rank: int, blocks: seq<int>, field: seq<int>, cands: map<int, seq<int>>,
                          s: seq<int>, p: int, n: int)
    requires SoundState(rank, blocks, field, cands, s) && p in cands && cands[p] == [n]
    ensures s[p] == n
  {
  }

  /** p is the only cell of its group of kind g with n among its candidates. */
  ghost predicate HiddenSingleIn(rank: int, blocks: seq<int>, cands: map<int, seq<int>>, g: Group, p: int, n: int)
  {
    HasCandidate(cands, p, n)
    && forall q :: HasCandidate(cands, q, n) && SameGroup(rank, blocks, g, p, q) ==> q == p
  }

  /** A hidden single in its row, its column or its block. */
  ghost predicate IsHiddenSingle(rank: int, blocks: seq<int>, cands: map<int, seq<int>>, p: int, n: int)
  {
    HiddenSingleIn(rank, blocks, cands, Row, p, n) || HiddenSingleIn(rank, blocks, cands, Column, p, n)
    || HiddenSingleIn(rank, blocks, cands, Block, p, n)
  }

  /** A hidden single holds its number in every reachable solution. */
  lemma HiddenSingleForced(rank: int, blocks: seq<int>, field: seq<int>, cands: map<int, seq<int>>,
                           s: seq<int>, p: int, n: int)
    requires Shaped(rank, blocks, field) && CandidatesMatch(rank, blocks, field, cands)
    requires SoundState(rank, blocks, field, cands, s)
    requires IsHiddenSingle(rank, blocks, cands, p, n)
    ensures s[p] == n
  {
    var g := if HiddenSingleIn(rank, blocks, cands, Row, p, n) then Row
      else if HiddenSingleIn(rank, blocks, cands, Column, p, n) then Column else Block;
    assert CandidateList(rank, blocks, field, p, cands[p]);
    OwnGroup(rank, blocks, g, p);
    var i := GroupOf(rank, blocks, g, p);
    UnplacedNearCandidate(rank, blocks, field, cands, p, n, g);
    var q := Seat(rank, blocks, field, cands, s, g, i, n);
    assert SameGroup(rank, blocks, g, p, q);
  }

  /**
   * Naked pair: two cells of one group whose candidate lists are both [a, b] take a and b
   * between them, so no other cell of the group holds a or b.
   */
  lemma NakedPairExcludes(rank: int, blocks: seq<int>, field: seq<int>, cands: map<int, seq<int>>,
                          s: seq<int>, g: Group, p: int, q: int, r: int, a: int, b: int)
    requires SoundState(rank, blocks, field, cands, s)
    requires p in cands && q in cands && cands[p] == [a, b] && cands[q] == [a, b]
    requires p != q && r != p && r != q && 0 <= r < |s|
    requires SameGroup(rank, blocks, g, p, q) && SameGroup(rank, blocks, g, p, r)
    ensures s[r] != a && s[r] != b
  {
    var i := GroupOf(rank, blocks, g, p);
    SeatsApart(rank, blocks, s, g, i, p, q);
    SeatsApart(rank, blocks, s, g, i, p, r);
    SeatsApart(rank, blocks, s, g, i, q, r);
  }

  /** A naked pair of group i of kind g rules both its numbers out of every other cell of the group. */
  lemma PairClears(rank: int, blocks: seq<int>, field: seq<int>, cands: map<int, seq<int>>,
                   g: Group, i: int, p0: int, p1: int, a: int, b: int)
    requires p0 in cands && p1 in cands && cands[p0] == [a, b] && cands[p1] == [a, b] && p0 != p1
    requires InGroup(rank, blocks, g, i, p0) && InGroup(rank, blocks, g, i, p1)
    ensures forall s, q, x ::
              SoundState(rank, blocks, field, cands, s) && InGroup(rank, blocks, g, i, q) && q !in {p0, p1} && x in [a, b] ==>
                s[q] != x
  {
    forall s, q, x | SoundState(rank, blocks, field, cands, s) && InGroup(rank, blocks, g, i, q) && q !in {p0, p1} && x in [a, b]
      ensures s[q] != x
    {
      NakedPairExcludes(rank, blocks, field, cands, s, g, p0, p1, q, a, b);
    }
  }

  /**
   * Naked triple: three cells of one group whose candidates all lie in {u0, u1, u2} take those
   * three numbers between them, so no other cell of the group holds any of them.
   */
  lemma NakedTripleExcludes(rank: int, blocks: seq<int>, field: seq<int>, cands: map<int, seq<int>>,
                            s: seq<int>, g: Group, p0: int, p1: int, p2: int, r: int, u: set<int>)
    requires SoundState(rank, blocks, field, cands, s) && |u| <= 3
    requires p0 in cands && p1 in cands && p2 in cands
    requires forall x :: x in cands[p0] ==> x in u
    requires forall x :: x in cands[p1] ==> x in u
    requires forall x :: x in cands[p2] ==> x in u
    requires p0 != p1 && p1 != p2 && p0 != p2 && r != p0 && r != p1 && r != p2 && 0 <= r < |s|
    requires SameGroup(rank, blocks, g, p0, p1) && SameGroup(rank, blocks, g, p0, p2)
    requires SameGroup(rank, blocks, g, p0, r)
    ensures s[r] !in u
  {
    var i := GroupOf(rank, blocks, g, p0);
    SeatsApart(rank, blocks, s, g, i, p0, p1);
    SeatsApart(rank, blocks, s, g, i, p0, p2);
    SeatsApart(rank, blocks, s, g, i, p1, p2);
    SeatsApart(rank, blocks, s, g, i, p0, r);
    SeatsApart(rank, blocks, s, g, i, p1, r);
    SeatsApart(rank, blocks, s, g, i, p2, r);
    if s[r] in u {
      var taken := {s[p0], s[p1], s[p2], s[r]};
      assert |taken| == 4;
      assert taken <= u;
      SubsetSize(taken, u);
      assert false;
    }
  }

  /**
   * A naked triple of group i of kind g in the candidates `cands` rules its three numbers out of
   * every other cell of the group, for every solution reachable from an earlier state c0.
   */
  lemma TripleClears(rank: int, blocks: seq<int>, field: seq<int>, c0: map<int, seq<int>>, cands: map<int, seq<int>>,
                     g: Group, i: int, p0: int, p1: int, p2: int, numbers: seq<int>)
    requires KeepsSolutions(rank, blocks, field, c0, field, cands)
    requires p0 in cands && p1 in cands && p2 in cands && p0 != p1 && p1 != p2 && p0 != p2
    requires |numbers| == 3
    requires forall x :: x in cands[p0] ==> x in numbers
    requires forall x :: x in cands[p1] ==> x in numbers
    requires forall x :: x in cands[p2] ==> x in numbers
    requires InGroup(rank, blocks, g, i, p0) && InGroup(rank, blocks, g, i, p1) && InGroup(rank, blocks, g, i, p2)
    ensures forall s, q, x ::
              SoundState(rank, blocks, field, c0, s) && InGroup(rank, blocks, g, i, q) && q !in {p0, p1, p2} && x in numbers ==>
                s[q] != x
  {
    var u := {numbers[0], numbers[1], numbers[2]};
    assert |u| <= 3;
    forall s, q, x | SoundState(rank, blocks, field, c0, s) && InGroup(rank, blocks, g, i, q) && q !in {p0, p1, p2} && x in numbers
      ensures s[q] != x
    {
      NakedTripleExcludes(rank, blocks, field, cands, s, g, p0, p1, p2, q, u);
    }
  }

  lemma SubsetSize(a: set<int>, b: set<int>)
    requires a <= b
    ensures |a| <= |b|
  {
    assert b == a + (b - a);
  }

  /**
   * One group pointing into another: when every candidate n of group (g, i), which still
   * lacks n, lies in group (h, j), the cells of (h, j) outside (g, i) do not hold n.
   */
  lemma PointingExcludes(rank: int, blocks: seq<int>, field: seq<int>, cands: map<int, seq<int>>,
                         s: seq<int>, g: Group, i: int, h: Group, j: int, n: int, r: int)
    requires SoundState(rank, blocks, field, cands, s)
    requires forall q :: q in cands <==> 0 <= q < |field| && field[q] == InvalidNumber
    requires GroupIndex(rank, g, i) && 1 <= n <= rank && Unplaced(rank, blocks, field, g, i, n)
    requires forall q :: HasCandidate(cands, q, n) && InGroup(rank, blocks, g, i, q) ==> InGroup(rank, blocks, h, j, q)
    requires 0 <= r < |s| && InGroup(rank, blocks, h, j, r) && !InGroup(rank, blocks, g, i, r)
    ensures s[r] != n
  {
    var p := Seat(rank, blocks, field, cands, s, g, i, n);
    SeatsApart(rank, blocks, s, h, j, p, r);
  }

  /**
   * Two groups of kind g whose candidates n all lie in two groups of kind h (an X-Wing, or
   * two blocks on two lines): the two seats of n fill both h groups, so the rest of those
   * h groups does not hold n.
   */
  lemma TwoGroupsExclude(rank: int, blocks: seq<int>, field: seq<int>, cands: map<int, seq<int>>,
                         s: seq<int>, g: Group, i1: int, i2: int, h: Group, j1: int, j2: int, n: int, r: int)
    requires SoundState(rank, blocks, field, cands, s)
    requires forall q :: q in cands <==> 0 <= q < |field| && field[q] == InvalidNumber
    requires GroupIndex(rank, g, i1) && GroupIndex(rank, g, i2) && i1 != i2 && 1 <= n <= rank
    requires Unplaced(rank, blocks, field, g, i1, n) && Unplaced(rank, blocks, field, g, i2, n)
    requires forall q :: HasCandidate(cands, q, n) && (InGroup(rank, blocks, g, i1, q) || InGroup(rank, blocks, g, i2, q))
               ==> InGroup(rank, blocks, h, j1, q) || InGroup(rank, blocks, h, j2, q)
    requires 0 <= r < |s| && (InGroup(rank, blocks, h, j1, r) || InGroup(rank, blocks, h, j2, r))
    requires !InGroup(rank, blocks, g, i1, r) && !InGroup(rank, blocks, g, i2, r)
    ensures s[r] != n
  {
    var p1 := Seat(rank, blocks, field, cands, s, g, i1, n);
    var p2 := Seat(rank, blocks, field, cands, s, g, i2, n);
    var k1 := if InGroup(rank, blocks, h, j1, p1) then j1 else j2;
    var k2 := if InGroup(rank, blocks, h, j1, p2) then j1 else j2;
    if k1 == k2 {
      SeatsApart(rank, blocks, s, h, k1, p1, p2);
    } else if InGroup(rank, blocks, h, k1, r) {
      SeatsApart(rank, blocks, s, h, k1, p1, r);
    } else {
      SeatsApart(rank, blocks, s, h, k2, p2, r);
    }
  }

  /** Three groups of kind g whose candidates n all lie in three groups of kind h. */
  lemma ThreeGroupsExclude(rank: int, blocks: seq<int>, field: seq<int>, cands: map<int, seq<int>>,
                           s: seq<int>, g: Group, i1: int, i2: int, i3: int,
                           h: Group, j1: int, j2: int, j3: int, n: int, r: int)
    requires SoundState(rank, blocks, field, cands, s)
    requires forall q :: q in cands <==> 0 <= q < |field| && field[q] == InvalidNumber
    requires GroupIndex(rank, g, i1) && GroupIndex(rank, g, i2) && GroupIndex(rank, g, i3)
    requires i1 != i2 && i1 != i3 && i2 != i3 && 1 <= n <= rank
    requires Unplaced(rank, blocks, field, g, i1, n) && Unplaced(rank, blocks, field, g, i2, n)
    requires Unplaced(rank, blocks, field, g, i3, n)
    requires forall q :: HasCandidate(cands, q, n)
               && (InGroup(rank, blocks, g, i1, q) || InGroup(rank, blocks, g, i2, q) || InGroup(rank, blocks, g, i3, q))
               ==> InGroup(rank, blocks, h, j1, q) || InGroup(rank, blocks, h, j2, q) || InGroup(rank, blocks, h, j3, q)
    requires 0 <= r < |s|
    requires InGroup(rank, blocks, h, j1, r) || InGroup(rank, blocks, h, j2, r) || InGroup(rank, blocks, h, j3, r)
    requires !InGroup(rank, blocks, g, i1, r) && !InGroup(rank, blocks, g, i2, r) && !InGroup(rank, blocks, g, i3, r)
    ensures s[r] != n
  {
    var p1 := Seat(rank, blocks, field, cands, s, g, i1, n);
    var p2 := Seat(rank, blocks, field, cands, s, g, i2, n);
    var p3 := Seat(rank, blocks, field, cands, s, g, i3, n);
    var k1 := CoverOf(rank, blocks, h, j1, j2, j3, p1);
    var k2 := CoverOf(rank, blocks, h, j1, j2, j3, p2);
    var k3 := CoverOf(rank, blocks, h, j1, j2, j3, p3);
    if k1 == k2 {
      SeatsApart(rank, blocks, s, h, k1, p1, p2);
    } else if k1 == k3 {
      SeatsApart(rank, blocks, s, h, k1, p1, p3);
    } else if k2 == k3 {
      SeatsApart(rank, blocks, s, h, k2, p2, p3);
    } else if InGroup(rank, blocks, h, k1, r) {
      SeatsApart(rank, blocks, s, h, k1, p1, r);
    } else if InGroup(rank, blocks, h, k2, r) {
      SeatsApart(rank, blocks, s, h, k2, p2, r);
    } else {
      SeatsApart(rank, blocks, s, h, k3, p3, r);
    }
  }

  /** The one of three groups of kind h that holds p. */
  function CoverOf(rank: int, blocks: seq<int>, h: Group, j1: int, j2: int, j3: int, p: int): (k: int)
    requires InGroup(rank, blocks, h, j1, p) || InGroup(rank, blocks, h, j2, p) || InGroup(rank, blocks, h, j3, p)
    ensures (k == j1 || k == j2 || k == j3) && InGroup(rank, blocks, h, k, p)
  {
    if InGroup(rank, blocks, h, j1, p) then j1 else if InGroup(rank, blocks, h, j2, p) then j2 else j3
  }

  /** How many of the listed cells have n among their candidates (findHiddenSingle's histogram). */
  function Holders(cands: map<int, seq<int>>, cells: seq<int>, n: int): nat
  {
    if |cells| == 0 then 0
    else Holders(cands, cells[..|cells| - 1], n) + (if HasCandidate(cands, cells[|cells| - 1], n) then 1 else 0)
  }

  /** The last listed cell with n among its candidates, or InvalidPosition (findHiddenSingle's positions). */
  function LastHolder(cands: map<int, seq<int>>, cells: seq<int>, n: int): int
  {
    if |cells| == 0 then InvalidPosition
    else if HasCandidate(cands, cells[|cells| - 1], n) then cells[|cells| - 1]
    else LastHolder(cands, cells[..|cells| - 1], n)
  }

  /** A count of one singles out one listed cell: the last holder, and no other entry holds n. */
  lemma {:induction false} OnlyHolder(cands: map<int, seq<int>>, cells: seq<int>, n: int) returns (k: int)
    requires Holders(cands, cells, n) == 1
    ensures 0 <= k < |cells| && cells[k] == LastHolder(cands, cells, n) && HasCandidate(cands, cells[k], n)
    ensures forall j :: 0 <= j < |cells| && j != k ==> !HasCandidate(cands, cells[j], n)
  {
    var last := |cells| - 1;
    var prefix := cells[..last];
    if HasCandidate(cands, cells[last], n) {
      NoHolder(cands, prefix, n);
      k := last;
    } else {
      k := OnlyHolder(cands, prefix, n);
    }
  }

  /** A count of zero: no listed cell holds n. */
  lemma {:induction false} NoHolder(cands: map<int, seq<int>>, cells: seq<int>, n: int)
    requires Holders(cands, cells, n) == 0
    ensures forall j :: 0 <= j < |cells| ==> !HasCandidate(cands, cells[j], n)
  {
    if |cells| > 0 {
      NoHolder(cands, cells[..|cells| - 1], n);
    }
  }

  /** When exactly the entry at index k holds n, the count is one and k's cell is the last holder. */
  lemma {:induction false} CountedOnce(cands: map<int, seq<int>>, cells: seq<int>, n: int, k: int)
    requires 0 <= k < |cells| && HasCandidate(cands, cells[k], n)
    requires forall j :: 0 <= j < |cells| && j != k ==> !HasCandidate(cands, cells[j], n)
    ensures Holders(cands, cells, n) == 1 && LastHolder(cands, cells, n) == cells[k]
  {
    var last := |cells| - 1;
    var prefix := cells[..last];
    if k == last {
      NoneCounted(cands, prefix, n);
    } else {
      CountedOnce(cands, prefix, n, k);
    }
  }

  /** When no entry holds n, the count is zero. */
  lemma {:induction false} NoneCounted(cands: map<int, seq<int>>, cells: seq<int>, n: int)
    requires forall j :: 0 <= j < |cells| ==> !HasCandidate(cands, cells[j], n)
    ensures Holders(cands, cells, n) == 0
  {
    if |cells| > 0 {
      NoneCounted(cands, cells[..|cells| - 1], n);
    }
  }

  /** The listed cells are the cells of group i of kind g that have candidates, each once. */
  ghost predicate ListsGroup(rank: int, blocks: seq<int>, cands: map<int, seq<int>>, g: Group, i: int, cells: seq<int>)
  {
    (forall j :: 0 <= j < |cells| ==> InGroup(rank, blocks, g, i, cells[j]))
    && (forall j, k :: 0 <= j < k < |cells| ==> cells[j] != cells[k])
    && forall q :: q in cands && InGroup(rank, blocks, g, i, q) ==> q in cells
  }

  /**
   * Counting the holders of n over a group's cells finds a hidden single exactly: a count of
   * one names a cell that is the group's only holder of n, and every such cell gives a count
   * of one.
   */
  lemma CountedHiddenSingle(rank: int, blocks: seq<int>, cands: map<int, seq<int>>, g: Group, i: int,
                            cells: seq<int>, n: int, p: int)
    requires ListsGroup(rank, blocks, cands, g, i, cells) && InGroup(rank, blocks, g, i, p)
    ensures Holders(cands, cells, n) == 1 && LastHolder(cands, cells, n) == p
            <==> HiddenSingleIn(rank, blocks, cands, g, p, n)
  {
    if Holders(cands, cells, n) == 1 && LastHolder(cands, cells, n) == p {
      var k := OnlyHolder(cands, cells, n);
      forall q | HasCandidate(cands, q, n) && SameGroup(rank, blocks, g, p, q)
        ensures q == p
      {
        assert InGroup(rank, blocks, g, i, q);
        var j :| 0 <= j < |cells| && cells[j] == q;
      }
    }
    if HiddenSingleIn(rank, blocks, cands, g, p, n) {
      var k :| 0 <= k < |cells| && cells[k] == p;
      forall j | 0 <= j < |cells| && j != k
        ensures !HasCandidate(cands, cells[j], n)
      {
        assert SameGroup(rank, blocks, g, p, cells[j]);
      }
      CountedOnce(cands, cells, n, k);
    }
  }

  /** The cells of row r, in column order, list the row. */
  lemma RowListed(rank: int, blocks: seq<int>, cands: map<int, seq<int>>, r: int, cells: seq<int>)
    requires 0 <= r < rank && |blocks| == rank * rank && |cells| == rank
    requires forall j :: 0 <= j < rank ==> cells[j] == CellAt(rank, r, j)
    requires forall q :: q in cands ==> 0 <= q < rank * rank
    ensures ListsGroup(rank, blocks, cands, Row, r, cells)
  {
    forall q | q in cands && InGroup(rank, blocks, Row, r, q)
      ensures q in cells
    {
      PositionCoordinates(rank, q);
      assert cells[ColumnOf(rank, q)] == q;
    }
  }

  /** The cells of column c, in row order, list the column. */
  lemma ColumnListed(rank: int, blocks: seq<int>, cands: map<int, seq<int>>, c: int, cells: seq<int>)
    requires 0 <= c < rank && |blocks| == rank * rank && |cells| == rank
    requires forall j :: 0 <= j < rank ==> cells[j] == CellAt(rank, j, c)
    requires forall q :: q in cands ==> 0 <= q < rank * rank
    ensures ListsGroup(rank, blocks, cands, Column, c, cells)
  {
    forall q | q in cands && InGroup(rank, blocks, Column, c, q)
      ensures q in cells
    {
      PositionCoordinates(rank, q);
      assert cells[RowOf(rank, q)] == q;
    }
  }

  /** The blank list of block b lists the block. */
  lemma BlockListed(rank: int, blocks: seq<int>, field: seq<int>, cands: map<int, seq<int>>,
                    bb: seq<seq<int>>, b: int)
    requires BlankBlocksMatch(rank, blocks, field, bb) && 1 <= b <= rank && 0 < rank
    requires forall q :: q in cands <==> 0 <= q < |field| && field[q] == InvalidNumber
    requires |blocks| == |field|
    ensures ListsGroup(rank, blocks, cands, Block, b, bb[b])
  {
    var cells := bb[b];
    forall j | 0 <= j < |cells|
      ensures InGroup(rank, blocks, Block, b, cells[j])
    {
      assert cells[j] in cells;
    }
  }

  /** The cells of a line, in order, list the line. */
  lemma LineListed(rank: int, blocks: seq<int>, cands: map<int, seq<int>>, horizontal: bool, i: int)
    requires 0 <= i < rank && |blocks| == rank * rank
    requires forall q :: q in cands ==> 0 <= q < rank * rank
    ensures ListsGroup(rank, blocks, cands, LineGroup(horizontal), i, LineCells(rank, horizontal, i))
  {
    if horizontal {
      RowListed(rank, blocks, cands, i, LineCells(rank, horizontal, i));
    } else {
      ColumnListed(rank, blocks, cands, i, LineCells(rank, horizontal, i));
    }
  }

  /** The groups of kind h through the listed cells that have n among their candidates. */
  function HolderGroups(rank: int, blocks: seq<int>, h: Group, cands: map<int, seq<int>>, cells: seq<int>, n: int): set<int>
  {
    if |cells| == 0 then {}
    else
      var last := cells[|cells| - 1];
      HolderGroups(rank, blocks, h, cands, cells[..|cells| - 1], n)
      + (if HasCandidate(cands, last, n) && 0 < rank && 0 <= last < |blocks| then {GroupOf(rank, blocks, h, last)} else {})
  }

  /** Two candidate maps that agree on which listed cells hold n have the same holder groups. */
  lemma {:induction false} HolderGroupsAgree(rank: int, blocks: seq<int>, h: Group, cands: map<int, seq<int>>,
                                             cands': map<int, seq<int>>, cells: seq<int>, n: int)
    requires forall j :: 0 <= j < |cells| ==> (HasCandidate(cands, cells[j], n) <==> HasCandidate(cands', cells[j], n))
    ensures HolderGroups(rank, blocks, h, cands', cells, n) == HolderGroups(rank, blocks, h, cands, cells, n)
    decreases |cells|
  {
    if |cells| > 0 {
      HolderGroupsAgree(rank, blocks, h, cands, cands', cells[..|cells| - 1], n);
    }
  }

  /** One more listed cell: its group joins when the cell has candidate n. */
  lemma HolderGroupsNext(rank: int, blocks: seq<int>, h: Group, cands: map<int, seq<int>>, cells: seq<int>, n: int, k: int)
    requires 0 <= k < |cells|
    ensures HolderGroups(rank, blocks, h, cands, cells[..k + 1], n)
            == HolderGroups(rank, blocks, h, cands, cells[..k], n)
               + (if HasCandidate(cands, cells[k], n) && 0 < rank && 0 <= cells[k] < |blocks|
                  then {GroupOf(rank, blocks, h, cells[k])} else {})
  {
    assert cells[..k + 1][..k] == cells[..k];
  }

  /** Every listed cell with candidate n contributes its group. */
  lemma {:induction false} HolderGroupsCover(rank: int, blocks: seq<int>, h: Group, cands: map<int, seq<int>>,
                                             cells: seq<int>, n: int)
    ensures forall q :: q in cells && HasCandidate(cands, q, n) && 0 < rank && 0 <= q < |blocks| ==>
              GroupOf(rank, blocks, h, q) in HolderGroups(rank, blocks, h, cands, cells, n)
  {
    if |cells| > 0 {
      var prefix := cells[..|cells| - 1];
      HolderGroupsCover(rank, blocks, h, cands, prefix, n);
      assert cells == prefix + [cells[|cells| - 1]];
    }
  }

  /** Every group counted comes from a listed cell with candidate n. */
  lemma {:induction false} HolderWitness(rank: int, blocks: seq<int>, h: Group, cands: map<int, seq<int>>,
                                         cells: seq<int>, n: int, x: int) returns (q: int)
    requires x in HolderGroups(rank, blocks, h, cands, cells, n)
    ensures q in cells && HasCandidate(cands, q, n) && 0 < rank && 0 <= q < |blocks|
    ensures GroupOf(rank, blocks, h, q) == x
  {
    var prefix := cells[..|cells| - 1];
    var last := cells[|cells| - 1];
    if x in HolderGroups(rank, blocks, h, cands, prefix, n) {
      q := HolderWitness(rank, blocks, h, cands, prefix, n, x);
      assert q in cells by {
        var k :| 0 <= k < |prefix| && prefix[k] == q;
        assert cells[k] == q;
      }
    } else {
      q := last;
    }
  }

  /** Every blank cell of group (g, i) with candidate n lies in a group of kind h listed in js. */
  ghost predicate Confined(rank: int, blocks: seq<int>, cands: map<int, seq<int>>, g: Group, i: int,
                           h: Group, js: set<int>, n: int)
  {
    forall q :: HasCandidate(cands, q, n) && InGroup(rank, blocks, g, i, q) ==> GroupOf(rank, blocks, h, q) in js
  }

  /** When the listed cells cover the group's holders of n, their holder groups confine them. */
  lemma ConfinedByHolders(rank: int, blocks: seq<int>, cands: map<int, seq<int>>, g: Group, i: int,
                          h: Group, cells: seq<int>, js: set<int>, n: int)
    requires forall q :: HasCandidate(cands, q, n) && InGroup(rank, blocks, g, i, q) ==> q in cells
    requires HolderGroups(rank, blocks, h, cands, cells, n) <= js
    ensures Confined(rank, blocks, cands, g, i, h, js, n)
  {
    HolderGroupsCover(rank, blocks, h, cands, cells, n);
  }

  /**
   * Pointing: group (g, i) still lacks n and all its candidates n lie in group (h, j), so in a
   * solution reachable from c0 no cell of (h, j) outside (g, i) holds n.
   */
  lemma PointingClears(rank: int, blocks: seq<int>, field: seq<int>, c0: map<int, seq<int>>, cands: map<int, seq<int>>,
                       g: Group, i: int, h: Group, j: int, n: int)
    requires KeepsSolutions(rank, blocks, field, c0, field, cands)
    requires forall q :: q in cands <==> 0 <= q < |field| && field[q] == InvalidNumber
    requires GroupIndex(rank, g, i) && 1 <= n <= rank && Unplaced(rank, blocks, field, g, i, n)
    requires Confined(rank, blocks, cands, g, i, h, {j}, n)
    ensures forall s, q ::
              SoundState(rank, blocks, field, c0, s) && InGroup(rank, blocks, h, j, q) && !InGroup(rank, blocks, g, i, q) ==>
                s[q] != n
  {
    forall s, q | SoundState(rank, blocks, field, c0, s) && InGroup(rank, blocks, h, j, q) && !InGroup(rank, blocks, g, i, q)
      ensures s[q] != n
    {
      PointingExcludes(rank, blocks, field, cands, s, g, i, h, j, n, q);
    }
  }

  /**
   * Two groups of kind g that still lack n and whose candidates n all lie in groups j1 and j2
   * of kind h: no other cell of those two groups holds n in a solution reachable from c0.
   */
  lemma TwoGroupsClear(rank: int, blocks: seq<int>, field: seq<int>, c0: map<int, seq<int>>, cands: map<int, seq<int>>,
                       g: Group, i1: int, i2: int, h: Group, j1: int, j2: int, n: int)
    requires KeepsSolutions(rank, blocks, field, c0, field, cands)
    requires forall q :: q in cands <==> 0 <= q < |field| && field[q] == InvalidNumber
    requires GroupIndex(rank, g, i1) && GroupIndex(rank, g, i2) && i1 != i2 && 1 <= n <= rank
    requires Unplaced(rank, blocks, field, g, i1, n) && Unplaced(rank, blocks, field, g, i2, n)
    requires Confined(rank, blocks, cands, g, i1, h, {j1, j2}, n) && Confined(rank, blocks, cands, g, i2, h, {j1, j2}, n)
    ensures forall s, q ::
              SoundState(rank, blocks, field, c0, s) && (InGroup(rank, blocks, h, j1, q) || InGroup(rank, blocks, h, j2, q))
              && !InGroup(rank, blocks, g, i1, q) && !InGroup(rank, blocks, g, i2, q) ==>
                s[q] != n
  {
    forall s, q | SoundState(rank, blocks, field, c0, s) && (InGroup(rank, blocks, h, j1, q) || InGroup(rank, blocks, h, j2, q))
                  && !InGroup(rank, blocks, g, i1, q) && !InGroup(rank, blocks, g, i2, q)
      ensures s[q] != n
    {
      TwoGroupsExclude(rank, blocks, field, cands, s, g, i1, i2, h, j1, j2, n, q);
    }
  }

  /** Three groups of kind g whose candidates n all lie in three groups of kind h. */
  lemma ThreeGroupsClear(rank: int, blocks: seq<int>, field: seq<int>, c0: map<int, seq<int>>, cands: map<int, seq<int>>,
                         g: Group, i1: int, i2: int, i3: int, h: Group, j1: int, j2: int, j3: int, n: int)
    requires KeepsSolutions(rank, blocks, field, c0, field, cands)
    requires forall q :: q in cands <==> 0 <= q < |field| && field[q] == InvalidNumber
    requires GroupIndex(rank, g, i1) && GroupIndex(rank, g, i2) && GroupIndex(rank, g, i3)
    requires i1 != i2 && i1 != i3 && i2 != i3 && 1 <= n <= rank
    requires Unplaced(rank, blocks, field, g, i1, n) && Unplaced(rank, blocks, field, g, i2, n)
    requires Unplaced(rank, blocks, field, g, i3, n)
    requires Confined(rank, blocks, cands, g, i1, h, {j1, j2, j3}, n) && Confined(rank, blocks, cands, g, i2, h, {j1, j2, j3}, n)
    requires Confined(rank, blocks, cands, g, i3, h, {j1, j2, j3}, n)
    ensures forall s, q ::
              SoundState(rank, blocks, field, c0, s)
              && (InGroup(rank, blocks, h, j1, q) || InGroup(rank, blocks, h, j2, q) || InGroup(rank, blocks, h, j3, q))
              && !InGroup(rank, blocks, g, i1, q) && !InGroup(rank, blocks, g, i2, q) && !InGroup(rank, blocks, g, i3, q) ==>
                s[q] != n
  {
    forall s, q | SoundState(rank, blocks, field, c0, s)
                  && (InGroup(rank, blocks, h, j1, q) || InGroup(rank, blocks, h, j2, q) || InGroup(rank, blocks, h, j3, q))
                  && !InGroup(rank, blocks, g, i1, q) && !InGroup(rank, blocks, g, i2, q) && !InGroup(rank, blocks, g, i3, q)
      ensures s[q] != n
    {
      ThreeGroupsExclude(rank, blocks, field, cands, s, g, i1, i2, i3, h, j1, j2, j3, n, q);
    }
  }

  /** Holder groups only grow as more cells are listed. */
  lemma {:induction false} HolderGroupsPrefix(rank: int, blocks: seq<int>, h: Group, cands: map<int, seq<int>>,
                                              cells: seq<int>, n: int, k: int)
    requires 0 <= k <= |cells|
    ensures HolderGroups(rank, blocks, h, cands, cells[..k], n) <= HolderGroups(rank, blocks, h, cands, cells, n)
    decreases |cells|
  {
    if k < |cells| {
      var prefix := cells[..|cells| - 1];
      assert prefix[..k] == cells[..k];
      HolderGroupsPrefix(rank, blocks, h, cands, prefix, n, k);
    } else {
      assert cells[..k] == cells;
    }
  }

  /** A set with two different members has at least two. */
  lemma TwoMembers(s: set<int>, a: int, b: int)
    requires a in s && b in s && a != b
    ensures |s| >= 2
  {
    SubsetSize({a, b}, s);
  }

  /** A set with three different members has at least three. */
  lemma ThreeMembers(s: set<int>, a: int, b: int, c: int)
    requires a in s && b in s && c in s && a != b && a != c && b != c
    ensures |s| >= 3
  {
    SubsetSize({a, b, c}, s);
  }

  /** A set containing a part with a member a and some other member has at least two. */
  lemma SpreadOut(s: set<int>, part: set<int>, a: int)
    requires part <= s && a in part && !(part <= {a})
    ensures |s| >= 2
  {
    if !(exists x :: x in part && x != a) {
      assert false;
    }
    var x :| x in part && x != a;
    TwoMembers(s, a, x);
  }

  /** A set with member a has at most one member exactly when a is its only member. */
  lemma AtMostOne(s: set<int>, a: int)
    requires a in s
    ensures |s| <= 1 <==> s <= {a}
  {
    if s <= {a} {
      SubsetSize(s, {a});
    } else {
      SpreadOut(s, s, a);
    }
  }

  /** Holder groups lie within s when every listed holder's group is in s. */
  lemma {:induction false} HolderGroupsWithin(rank: int, blocks: seq<int>, h: Group, cands: map<int, seq<int>>,
                                              cells: seq<int>, n: int, s: set<int>)
    requires forall j :: 0 <= j < |cells| && HasCandidate(cands, cells[j], n) && 0 < rank && 0 <= cells[j] < |blocks| ==>
               GroupOf(rank, blocks, h, cells[j]) in s
    ensures HolderGroups(rank, blocks, h, cands, cells, n) <= s
  {
    if |cells| > 0 {
      HolderGroupsWithin(rank, blocks, h, cands, cells[..|cells| - 1], n, s);
    }
  }
}
