// The command-line front end of the solver: the integer square root, the regular
// block partition built when no partition is given, and the argument checks of main().

module SudokuSolverMain {
  import opened SudokuCodec
  import opened SudokuGrid

  /** 2^k. */
  function Pow2(k: nat): (r: int)
    ensures r >= 1
  {
    if k == 0 then 1 else 2 * Pow2(k - 1)
  }

  /** r is the floor square root of n. */
  predicate IsFloorRoot(n: int, r: int)
  {
    0 <= r && r * r <= n < (r + 1) * (r + 1)
  }

  /** n is the square of some natural number. */
  ghost predicate IsSquare(n: int)
  {
    exists s :: 0 <= s && s * s == n
  }

  /** Squares of naturals grow with their base. */
  lemma SquareMonotone(a: int, b: int)
    requires 0 <= a <= b
    ensures a * a <= b * b
  {
    MulMonotone(a, b, b + 1);
    assert a * a <= a * b by { MulMonotone(a, b, a + 1); }
  }

  /** The floor square root is the root of a square, and only of a square. */
  lemma FloorRootOfSquare(n: int, r: int)
    requires IsFloorRoot(n, r)
    ensures r * r == n <==> IsSquare(n)
  {
    if r * r == n {
      assert 0 <= r && r * r == n;
    }
    if IsSquare(n) {
      var s :| 0 <= s && s * s == n;
      if s < r {
        SquareMonotone(s + 1, r);
      } else if s > r {
        SquareMonotone(r + 1, s);
      }
    }
  }

  /** The first loop of isqrt(): quarter bit until it is no longer above n. */
  function TopDigit(n: int, bit: int): (t: int)
    requires 0 <= n && 0 <= bit
    ensures 0 <= t <= bit
    decreases bit
  {
    if bit > n then TopDigit(n, bit / 4) else bit
  }

  /**
   * The second loop of isqrt(), one round per base-4 digit: take the digit when the
   * remainder allows it, halve res and move bit to the next lower digit.
   */
  function DigitRoot(rest: int, res: int, bit: int): int
    requires 0 <= bit
    decreases bit
  {
    if bit == 0 then res
    else if rest >= res + bit then DigitRoot(rest - (res + bit), res / 2 + bit, bit / 4)
    else DigitRoot(rest, res / 2, bit / 4)
  }

  /**
   * a * b by repeated addition. The bookkeeping below is stated with Mul so that the
   * induction over the rounds stays linear; MulIs converts where products are needed.
   */
  ghost function Mul(a: nat, b: int): int
  {
    if a == 0 then 0 else Mul(a - 1, b) + b
  }

  lemma {:induction false} MulIs(a: nat, b: int)
    ensures Mul(a, b) == a * b
  {
    if a > 0 {
      MulIs(a - 1, b);
    }
  }

  /** Doubling a weight quadruples its square. */
  lemma DoubleSquare(p: nat, h: nat)
    requires p == 2 * h
    ensures Mul(p, p) == 4 * Mul(h, h)
    ensures h >= 1 ==> Mul(h, h) >= 1
  {
    MulIs(p, p);
    MulIs(h, h);
    if h >= 1 {
      MulMonotone(1, h, h);
    }
  }

  lemma MulAddLeft(a: nat, b: nat, c: int)
    ensures Mul(a + b, c) == Mul(a, c) + Mul(b, c)
  {
    MulIs(a + b, c);
    MulIs(a, c);
    MulIs(b, c);
  }

  lemma MulDouble(a: nat, h: int)
    ensures Mul(a, 2 * h) == 2 * Mul(a, h)
  {
    MulIs(a, 2 * h);
    MulIs(a, h);
  }

  /** (a + b)^2 = a^2 + 2ab + b^2. */
  lemma MulSquareSum(a: nat, b: nat)
    ensures Mul(a + b, a + b) == Mul(a, a) + 2 * Mul(a, b) + Mul(b, b)
  {
    MulIs(a + b, a + b);
    MulIs(a, a);
    MulIs(a, b);
    MulIs(b, b);
    assert (a + b) * (a + b) == a * a + 2 * (a * b) + b * b;
  }

  /** A round that takes digit weight p into the root q keeps the loop's bookkeeping. */
  lemma DigitTaken(n: int, rest: int, res: int, bit: int, q: nat, p: nat, h: nat, last: bool)
    requires 1 <= p && bit == Mul(p, p) && res == 2 * Mul(q, p) && rest == n - Mul(q, q)
    requires Mul(q, q) <= n < Mul(q + 2 * p, q + 2 * p) && rest >= res + bit
    requires if last then p == 1 else p == 2 * h && h >= 1
    ensures rest - (res + bit) == n - Mul(q + p, q + p) && Mul(q + p, q + p) <= n
    ensures last ==> bit / 4 == 0 && res / 2 + bit == q + p && IsFloorRoot(n, q + p)
    ensures !last ==> res / 2 + bit == 2 * Mul(q + p, h) && bit / 4 == Mul(h, h) && Mul(h, h) >= 1
                      && n < Mul(q + p + 2 * h, q + p + 2 * h)
  {
    MulSquareSum(q, p);
    if last {
      MulIs(q + 1, q + 1);
      MulIs(q + 2, q + 2);
      MulIs(1, 1);
      MulIs(q, 1);
    } else {
      MulDouble(q, h);
      MulDouble(p, h);
      MulAddLeft(q, p, h);
      DoubleSquare(p, h);
      assert q + p + 2 * h == q + 2 * p;
    }
  }

  /** A round that leaves the root q as it is keeps the loop's bookkeeping. */
  lemma DigitSkipped(n: int, rest: int, res: int, bit: int, q: nat, p: nat, h: nat, last: bool)
    requires 1 <= p && bit == Mul(p, p) && res == 2 * Mul(q, p) && rest == n - Mul(q, q)
    requires Mul(q, q) <= n < Mul(q + 2 * p, q + 2 * p) && rest < res + bit
    requires if last then p == 1 else p == 2 * h && h >= 1
    ensures last ==> bit / 4 == 0 && res / 2 == q && IsFloorRoot(n, q)
    ensures !last ==> res / 2 == 2 * Mul(q, h) && bit / 4 == Mul(h, h) && Mul(h, h) >= 1
                      && n < Mul(q + 2 * h, q + 2 * h)
  {
    MulSquareSum(q, p);
    if last {
      MulIs(q, q);
      MulIs(q + 1, q + 1);
      MulIs(1, 1);
      MulIs(q, 1);
    } else {
      MulDouble(q, h);
      DoubleSquare(p, h);
    }
  }

  /**
   * From the state where the root so far is q, the digit weight is p = 2^k, bit = p * p,
   * res = 2 * q * p and the remainder is n - q * q, the rounds end on the floor root of n.
   */
  lemma {:induction false} DigitRootIsRoot(n: int, rest: int, res: int, bit: int, q: nat, p: nat, k: nat)
    requires p == Pow2(k) && 1 <= bit == Mul(p, p) && res == 2 * Mul(q, p) && rest == n - Mul(q, q)
    requires Mul(q, q) <= n < Mul(q + 2 * p, q + 2 * p)
    ensures IsFloorRoot(n, DigitRoot(rest, res, bit))
    decreases k
  {
    var h := if k == 0 then 0 else Pow2(k - 1);
    if rest >= res + bit {
      DigitTaken(n, rest, res, bit, q, p, h, k == 0);
      if k > 0 {
        DigitRootIsRoot(n, rest - (res + bit), res / 2 + bit, bit / 4, q + p, h, k - 1);
      }
    } else {
      DigitSkipped(n, rest, res, bit, q, p, h, k == 0);
      if k > 0 {
        DigitRootIsRoot(n, rest, res / 2, bit / 4, q, h, k - 1);
      }
    }
  }

  /**
   * The first loop ends on 0 when n is 0, and otherwise on the largest power of four
   * not above n, given as (2^k)^2.
   */
  lemma {:induction false} TopDigitIsTop(n: int, bit: int, p: nat, k: nat) returns (p': nat, k': nat)
    requires 0 <= n && p == Pow2(k) && bit == Mul(p, p) && n < 4 * bit
    ensures TopDigit(n, bit) == 0 ==> n == 0
    ensures TopDigit(n, bit) != 0 ==>
              p' == Pow2(k') && TopDigit(n, bit) == Mul(p', p') && Mul(p', p') <= n < Mul(2 * p', 2 * p')
    decreases k
  {
    if bit > n {
      if k > 0 {
        var h := Pow2(k - 1);
        DoubleSquare(p, h);
        p', k' := TopDigitIsTop(n, bit / 4, h, k - 1);
      } else {
        assert bit == 1 && TopDigit(n, bit / 4) == 0;
        p', k' := p, k;
      }
    } else {
      DoubleSquare(2 * p, p);
      p', k' := p, k;
    }
  }

  /** The starting bit of isqrt(), 1 << 30, is the square of 2^15. */
  lemma FirstDigit() returns (p: nat, k: nat)
    ensures p == Pow2(k) && Mul(p, p) == 0x4000_0000
  {
    k, p := 15, Pow2(15);
    assert Pow2(5) == 0x20 && Pow2(10) == 0x400 && p == 0x8000;
    MulIs(p, p);
  }

  /** What isqrt() computes is the floor square root. */
  lemma IsqrtIsRoot(n: int)
    requires 0 <= n < 0x8000_0000
    ensures IsFloorRoot(n, DigitRoot(n, 0, TopDigit(n, 0x4000_0000)))
  {
    var p0, k0 := FirstDigit();
    var p, k := TopDigitIsTop(n, 0x4000_0000, p0, k0);
    var top := TopDigit(n, 0x4000_0000);
    if top == 0 {
      assert DigitRoot(n, 0, 0) == 0;
    } else {
      assert Mul(0, p) == 0 && Mul(0, 0) == 0 && 0 + 2 * p == 2 * p;
      DigitRootIsRoot(n, n, 0, top, 0, p, k);
    }
  }

  /**
   * isqrt(): the digit-by-digit method in base 4. bit starts at the largest power of four
   * not above n (or 0 when n is 0) and moves down one base-4 digit per round; res carries
   * the root found so far, doubled and scaled by the current digit's weight.
   */
  method Isqrt(n: int) returns (res: int)
    requires 0 <= n < 0x8000_0000
    ensures IsFloorRoot(n, res)
  {
    var rest := n;
    res := 0;
    var bit := 0x4000_0000;
    while bit > rest
      invariant 0 <= bit && TopDigit(n, bit) == TopDigit(n, 0x4000_0000)
      decreases bit
    {
      bit := bit / 4;
    }
    ghost var top := bit;
    while bit != 0
      invariant 0 <= bit && DigitRoot(rest, res, bit) == DigitRoot(n, 0, top)
      decreases bit
    {
      if rest >= res + bit {
        rest := rest - (res + bit);
        res := (res / 2) + bit;
      } else {
        res := res / 2;
      }
      bit := bit / 4;
    }
    IsqrtIsRoot(n);
  }

  // The regular partition built when no block table is given: blockSize x blockSize
  // blocks numbered from 1, left to right and top to bottom.

  /** The block id main() gives to a cell: 1 + row / blockSize * blockSize + column / blockSize. */
  function RegularId(rank: int, blockSize: int, p: int): (id: int)
    requires 1 <= blockSize && blockSize * blockSize == rank && 0 <= p < rank * rank
    ensures 1 <= id <= rank
  {
    PositionCoordinates(rank, p);
    BlockCorner(blockSize, p / rank);
    BlockCorner(blockSize, p % rank);
    1 + p / rank / blockSize * blockSize + p % rank / blockSize
  }

  /** A line index below blockSize^2 lies in a band of blockSize lines starting at most blockSize^2 - blockSize. */
  lemma BlockCorner(blockSize: int, i: int)
    requires 1 <= blockSize && 0 <= i < blockSize * blockSize
    ensures 0 <= i / blockSize < blockSize
    ensures 0 <= i / blockSize * blockSize <= blockSize * blockSize - blockSize
  {
    var band := i / blockSize;
    assert band < blockSize by {
      if band >= blockSize {
        MulMonotone(blockSize, band, blockSize);
      }
    }
    MulMonotone(band, blockSize - 1, blockSize);
  }

  /** The block ids of every cell of the regular partition. */
  function RegularIds(rank: int, blockSize: int): (ids: seq<int>)
    requires 1 <= blockSize && blockSize * blockSize == rank
    ensures |ids| == rank * rank && IdsInRange(rank, ids)
  {
    seq(rank * rank, p requires 0 <= p < rank * rank => RegularId(rank, blockSize, p))
  }

  /** `len` copies of v. */
  function Repeat(v: int, len: nat): (r: seq<int>)
    ensures |r| == len && forall i :: 0 <= i < len ==> r[i] == v
  {
    seq(len, _ => v)
  }

  lemma {:induction false} RepeatCount(v: int, len: nat, b: int)
    ensures multiset(Repeat(v, len))[b] == if b == v then len else 0
  {
    if len > 0 {
      assert Repeat(v, len) == Repeat(v, len - 1) + [v];
      RepeatCount(v, len - 1, b);
    }
  }

  /** One line of the regular partition: j runs of `width` cells with ids base, base + 1, ... */
  ghost function Runs(base: int, width: nat, j: nat): (r: seq<int>)
    ensures |r| == Mul(j, width)
  {
    if j == 0 then [] else Runs(base, width, j - 1) + Repeat(base + j - 1, width)
  }

  lemma {:induction false} RunsAt(base: int, width: nat, j: nat, c: int)
    requires 1 <= width && 0 <= c < Mul(j, width)
    ensures Runs(base, width, j)[c] == base + c / width
  {
    if c < Mul(j - 1, width) {
      RunsAt(base, width, j - 1, c);
    } else {
      var m := c - Mul(j - 1, width);
      MulIs(j - 1, width);
      DivUnique(c, width, j - 1, m);
    }
  }

  lemma {:induction false} RunsCount(base: int, width: nat, j: nat, b: int)
    ensures multiset(Runs(base, width, j))[b] == if base <= b < base + j then width else 0
  {
    if j > 0 {
      RunsCount(base, width, j - 1, b);
      RepeatCount(base + j - 1, width, b);
    }
  }

  /**
   * The first line of the band of blockSize lines holding line i, that is i / blockSize * blockSize,
   * counted up in steps of blockSize (which keeps division out of the counting proofs).
   */
  ghost function BandStart(blockSize: int, i: int): int
    decreases i
  {
    if blockSize < 1 || i < blockSize then 0 else BandStart(blockSize, i - blockSize) + blockSize
  }

  lemma {:induction false} BandStartIs(blockSize: int, i: int)
    requires 1 <= blockSize && 0 <= i
    ensures BandStart(blockSize, i) == i / blockSize * blockSize
    ensures BandStart(blockSize, i) <= i < BandStart(blockSize, i) + blockSize
    decreases i
  {
    if i < blockSize {
      DivUnique(i, blockSize, 0, i);
    } else {
      BandStartIs(blockSize, i - blockSize);
      var q := (i - blockSize) / blockSize;
      DivUnique(i - blockSize, blockSize, q, i - blockSize - q * blockSize);
      DivUnique(i, blockSize, q + 1, i - blockSize - q * blockSize);
    }
  }

  /** Line i of the regular partition: blockSize runs of blockSize cells, ids counting up from its band's first id. */
  ghost function RegularLines(blockSize: nat): (rows: nat -> seq<int>)
  {
    i => Runs(1 + BandStart(blockSize, i), blockSize, blockSize)
  }

  /** The first r rows, one after the other. */
  ghost function Concat(rows: nat -> seq<int>, r: nat): seq<int>
  {
    if r == 0 then [] else Concat(rows, r - 1) + rows(r - 1)
  }

  /** How often b occurs in the first r rows, row by row. */
  ghost function RowCounts(rows: nat -> seq<int>, r: nat, b: int): int
  {
    if r == 0 then 0 else RowCounts(rows, r - 1, b) + multiset(rows(r - 1))[b]
  }

  lemma {:induction false} ConcatCount(rows: nat -> seq<int>, r: nat, b: int)
    ensures multiset(Concat(rows, r))[b] == RowCounts(rows, r, b)
  {
    if r > 0 {
      ConcatCount(rows, r - 1, b);
      assert multiset(Concat(rows, r)) == multiset(Concat(rows, r - 1)) + multiset(rows(r - 1));
    }
  }

  /** With rows of one length, cell p of the concatenation is cell p % len of row p / len. */
  lemma {:induction false} ConcatAt(rows: nat -> seq<int>, len: nat, r: nat, p: int)
    requires 1 <= len && forall i :: |rows(i)| == len
    ensures |Concat(rows, r)| == Mul(r, len)
    ensures 0 <= p < Mul(r, len) ==> Concat(rows, r)[p] == rows(p / len)[p % len]
  {
    if r > 0 {
      ConcatAt(rows, len, r - 1, p);
      if Mul(r - 1, len) <= p < Mul(r, len) {
        MulIs(r - 1, len);
        DivUnique(p, len, r - 1, p - Mul(r - 1, len));
      }
    }
  }

  /** Cells of the first r lines that a band of lines starting at `start` holds, blockSize per line. */
  ghost function BandCells(blockSize: int, r: nat, start: int): int
  {
    if r == 0 then 0
    else BandCells(blockSize, r - 1, start) + if start <= r - 1 < start + blockSize then blockSize else 0
  }

  /** A band that ends within the first r lines has all its blockSize lines among them. */
  lemma {:induction false} BandCellsFull(blockSize: int, r: nat, start: int)
    requires 1 <= blockSize && 0 <= start
    ensures r <= start ==> BandCells(blockSize, r, start) == 0
    ensures start <= r <= start + blockSize ==> BandCells(blockSize, r, start) == Mul(r - start, blockSize)
    ensures start + blockSize <= r ==> BandCells(blockSize, r, start) == Mul(blockSize, blockSize)
  {
    if r > 0 {
      BandCellsFull(blockSize, r - 1, start);
      if start < r <= start + blockSize {
        assert Mul(r - start, blockSize) == Mul(r - 1 - start, blockSize) + blockSize;
      }
    }
  }

  /** A line r is in the band of id b exactly when its run of ids covers b. */
  lemma BandOfLine(blockSize: int, r: int, b: int)
    requires 1 <= blockSize && 0 <= r && 1 <= b
    ensures var base := 1 + BandStart(blockSize, r);
            var start := BandStart(blockSize, b - 1);
            (base <= b < base + blockSize) <==> (start <= r < start + blockSize)
  {
    BandStartIs(blockSize, r);
    BandStartIs(blockSize, b - 1);
    var i := (b - 1) / blockSize;
    var band := r / blockSize;
    if 1 + band * blockSize <= b < 1 + band * blockSize + blockSize {
      DivUnique(b - 1, blockSize, band, b - 1 - band * blockSize);
    }
    if i * blockSize <= r < i * blockSize + blockSize {
      DivUnique(r, blockSize, i, r - i * blockSize);
    }
  }

  /**
   * When each row holds b blockSize times if its band of ids covers b and never otherwise,
   * b occurs blockSize times on each of the first r rows in its band of lines.
   */
  lemma {:induction false} LinesCount(rows: nat -> seq<int>, blockSize: nat, r: nat, b: int)
    requires 1 <= blockSize && 1 <= b
    requires forall i: nat :: multiset(rows(i))[b] == if 1 + BandStart(blockSize, i) <= b < 1 + BandStart(blockSize, i) + blockSize then blockSize else 0
    ensures RowCounts(rows, r, b) == BandCells(blockSize, r, BandStart(blockSize, b - 1))
  {
    if r > 0 {
      LinesCount(rows, blockSize, r - 1, b);
      BandOfLine(blockSize, r - 1, b);
    }
  }

  /** Id b occurs blockSize times on each regular line of its band of lines and on no other line. */
  lemma RegularLinesCount(blockSize: nat, b: int)
    requires 1 <= blockSize && 1 <= b
    ensures RowCounts(RegularLines(blockSize), blockSize * blockSize, b)
            == BandCells(blockSize, blockSize * blockSize, BandStart(blockSize, b - 1))
  {
    var rows := RegularLines(blockSize);
    forall i: nat
      ensures multiset(rows(i))[b] == if 1 + BandStart(blockSize, i) <= b < 1 + BandStart(blockSize, i) + blockSize then blockSize else 0
    {
      RunsCount(1 + BandStart(blockSize, i), blockSize, blockSize, b);
    }
    LinesCount(rows, blockSize, blockSize * blockSize, b);
  }

  /** Cell p of the regular lines is the id RegularId gives it. */
  lemma LinesAt(blockSize: nat, p: int)
    requires 1 <= blockSize && 0 <= p < (blockSize * blockSize) * (blockSize * blockSize)
    ensures |Concat(RegularLines(blockSize), blockSize * blockSize)| == (blockSize * blockSize) * (blockSize * blockSize)
    ensures Concat(RegularLines(blockSize), blockSize * blockSize)[p] == RegularId(blockSize * blockSize, blockSize, p)
  {
    var rank := blockSize * blockSize;
    var rows := RegularLines(blockSize);
    MulIs(blockSize, blockSize);
    MulIs(rank, rank);
    forall i ensures |rows(i)| == rank {
    }
    ConcatAt(rows, rank, rank, p);
    PositionCoordinates(rank, p);
    BandStartIs(blockSize, p / rank);
    RunsAt(1 + BandStart(blockSize, p / rank), blockSize, blockSize, p % rank);
  }

  /** Every id of the regular partition occurs on exactly rank cells. */
  lemma RegularCount(blockSize: nat, b: int)
    requires 1 <= blockSize && 1 <= b <= blockSize * blockSize
    ensures multiset(Concat(RegularLines(blockSize), blockSize * blockSize))[b] == blockSize * blockSize
  {
    var rank := blockSize * blockSize;
    var rows := RegularLines(blockSize);
    var start := BandStart(blockSize, b - 1);
    RegularLinesCount(blockSize, b);
    ConcatCount(rows, rank, b);
    BlockCorner(blockSize, b - 1);
    BandStartIs(blockSize, b - 1);
    assert 0 <= start && start + blockSize <= rank;
    BandCellsFull(blockSize, rank, start);
    MulIs(blockSize, blockSize);
  }


  /** Cell p of the regular lines, one after the other, is the id RegularIds gives it. */
  lemma RegularGridAt(blockSize: nat, p: int)
    requires 1 <= blockSize && 0 <= p < |RegularIds(blockSize * blockSize, blockSize)|
    ensures |Concat(RegularLines(blockSize), blockSize * blockSize)| == |RegularIds(blockSize * blockSize, blockSize)|
    ensures Concat(RegularLines(blockSize), blockSize * blockSize)[p] == RegularIds(blockSize * blockSize, blockSize)[p]
  {
    LinesAt(blockSize, p);
  }

  /** The regular lines, one after the other, are the ids RegularId gives cell by cell. */
  lemma RegularGrid(blockSize: nat)
    requires 1 <= blockSize
    ensures Concat(RegularLines(blockSize), blockSize * blockSize) == RegularIds(blockSize * blockSize, blockSize)
  {
    var ids := RegularIds(blockSize * blockSize, blockSize);
    var grid := Concat(RegularLines(blockSize), blockSize * blockSize);
    RegularGridAt(blockSize, 0);
    forall p | 0 <= p < |ids|
      ensures grid[p] == ids[p]
    {
      RegularGridAt(blockSize, p);
    }
  }

  /** The regular partition passes the engine's partition check. */
  lemma RegularIdsValid(rank: int, blockSize: int)
    requires 1 <= blockSize && blockSize * blockSize == rank
    ensures PartitionValid(rank, RegularIds(rank, blockSize))
  {
    RegularGrid(blockSize);
    forall b | 1 <= b <= rank
      ensures multiset(RegularIds(rank, blockSize))[b] == rank
    {
      RegularCount(blockSize, b);
    }
  }

  /**
   * The loop of main() that fills blockPartition: cell `position` gets the letter of
   * its regular block id.
   */
  method RegularPartition(rank: int, blockSize: int) returns (block: seq<char>)
    requires 1 <= blockSize && blockSize * blockSize == rank && rank <= RankMax
    ensures block == Encoded(RegularIds(rank, blockSize))
    ensures AllReadable(block, false) && PartitionValid(rank, Decoded(block, false))
  {
    var cells := new char[rank * rank];
    for position := 0 to rank * rank
      invariant forall p :: 0 <= p < position ==> cells[p] == Letter(RegularId(rank, blockSize, p))
    {
      var row := position / rank;
      var column := position % rank;
      var index := 1 + row / blockSize * blockSize + column / blockSize;
      assert index == RegularId(rank, blockSize, position);
      cells[position] := Letter(index);
    }
    block := cells[..];
    DecodeEncoded(RegularIds(rank, blockSize));
    RegularIdsValid(rank, blockSize);
  }

  // main(): argv[0] is the program name, the usage line reads "rank state [block] [placeholder]".

  /** What main() goes on to do with its arguments: print the usage, exit with a code, fail an assertion, or solve. */
  datatype Outcome =
    | Usage
    | Exit(code: int)
    | Aborted
    | Run(rank: int, state: seq<char>, block: seq<char>, placeholder: char)

  /** The first character of a C string: the terminating NUL when it is empty. */
  function Initial(arg: seq<char>): char
  {
    if |arg| == 0 then 0 as char else arg[0]
  }

  /** The command line the usage line describes, with the optional block table and placeholder. */
  function CommandLine(program: seq<char>, rank: seq<char>, state: seq<char>,
                       block: Option<seq<char>>, placeholder: Option<char>): (args: seq<seq<char>>)
    requires placeholder.Some? ==> block.Some?
  {
    [program, rank, state]
      + (if block.Some? then [block.value] else [])
      + (if placeholder.Some? then [[placeholder.value]] else [])
  }

  /** The block table main() reads as written: argv[3], taken only when argc > 4. */
  function BlockArgumentAsWritten(args: seq<seq<char>>): Option<seq<char>>
  {
    if |args| > 4 then Some(args[3]) else None
  }

  /** The placeholder main() reads as written: argv[5], taken only when argc > 5, '0' otherwise. */
  function PlaceholderAsWritten(args: seq<seq<char>>): char
  {
    if |args| > 5 then Initial(args[5]) else '0'
  }

  /** The block table at its place in the usage line: argv[3] when given. */
  function BlockArgument(args: seq<seq<char>>): Option<seq<char>>
  {
    if |args| > 3 then Some(args[3]) else None
  }

  /** The placeholder at its place in the usage line: argv[4] when given, '0' otherwise. */
  function Placeholder(args: seq<seq<char>>): char
  {
    if |args| > 4 then Initial(args[4]) else '0'
  }

  /** Reading a command line built as the usage line describes gives back its block table and placeholder. */
  lemma ArgumentsRoundTrip(program: seq<char>, rank: seq<char>, state: seq<char>,
                           block: Option<seq<char>>, placeholder: Option<char>)
    requires placeholder.Some? ==> block.Some?
    ensures var args := CommandLine(program, rank, state, block, placeholder);
            args[1] == rank && args[2] == state
            && BlockArgument(args) == block
            && Placeholder(args) == if placeholder.Some? then placeholder.value else '0'
  {
  }

  /**
   * As written, main() drops a block table given without a placeholder, and drops every
   * placeholder: "sudoku 6 <state> <block>" takes the regular path and a rank-6 grid exits with -3.
   */
  lemma ArgumentsAsWrittenShifted(program: seq<char>, rank: seq<char>, state: seq<char>, block: seq<char>, mark: char)
    ensures BlockArgumentAsWritten(CommandLine(program, rank, state, Some(block), None)) == None
    ensures BlockArgument(CommandLine(program, rank, state, Some(block), None)) == Some(block)
    ensures PlaceholderAsWritten(CommandLine(program, rank, state, Some(block), Some(mark))) == '0'
    ensures Placeholder(CommandLine(program, rank, state, Some(block), Some(mark))) == mark
  {
  }

  /**
   * The argument checks of main(), with the block table and placeholder read at their places in the
   * usage line. rank is argv[1] after std::stoi and the cast to int8_t.
   */
  method ReadArguments(args: seq<seq<char>>, rank: int) returns (outcome: Outcome)
    requires -128 <= rank < 128
    ensures outcome == Usage <==> |args| < 3
    ensures outcome == Exit(-1) <==> |args| >= 3 && rank <= 1
    ensures outcome == Exit(-2) <==>
              |args| >= 3 && rank > 1 && (|args[2]| < rank * rank || (|args| > 3 && |args[3]| < rank * rank))
    ensures outcome == Exit(-3) <==>
              |args| == 3 && rank > 1 && |args[2]| >= rank * rank && !IsSquare(rank)
    ensures outcome == Aborted <==>
              |args| == 3 && rank > 1 && |args[2]| >= rank * rank && IsSquare(rank) && rank > RankMax
    ensures outcome.Exit? ==> outcome.code in {-1, -2, -3}
    ensures outcome.Run? ==>
              outcome.rank == rank && outcome.state == args[2] && outcome.placeholder == Placeholder(args)
              && (|args| > 3 ==> outcome.block == args[3])
              && (|args| == 3 ==> AllReadable(outcome.block, false) && PartitionValid(rank, Decoded(outcome.block, false))
                                  && exists blockSize :: 1 <= blockSize && blockSize * blockSize == rank
                                                         && outcome.block == Encoded(RegularIds(rank, blockSize)))
  {
    if |args| < 3 {
      return Usage;
    }
    if rank <= 1 {
      return Exit(-1);
    }
    var state := args[2];
    if |state| < rank * rank {
      return Exit(-2);
    }
    var placeholder := Placeholder(args);
    var given := BlockArgument(args);
    if given.Some? {
      if |given.value| < rank * rank {
        return Exit(-2);
      }
      return Run(rank, state, given.value, placeholder);
    }
    var blockSize := Isqrt(rank);
    FloorRootOfSquare(rank, blockSize);
    if blockSize * blockSize != rank {
      return Exit(-3);
    }
    if rank > RankMax {
      return Aborted;
    }
    var block := RegularPartition(rank, blockSize);
    outcome := Run(rank, state, block, placeholder);
  }
}
