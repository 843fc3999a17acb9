// Population count of a 32-bit unsigned word, in the nine ways
// popcount/popcount.cpp computes it, each proved equal to one reference
// definition (Pop).
module Popcount {

  /** The reference: the number of set bits of n, peeled off from the low end. */
  function Pop(n: bv32): nat
    decreases n
  {
    if n == 0 then 0 else (if n & 1 == 1 then 1 else 0) + Pop(n >> 1)
  }

  /** The same count on a natural number (used for table indices). */
  function PopNat(k: nat): nat
  {
    if k == 0 then 0 else k % 2 + PopNat(k / 2)
  }

  // ---------------------------------------------------------------------
  // Bit-by-bit sums. These spell the reference out term by term so that
  // the bit-slicing algorithms can be compared with it one byte (or one
  // six-bit field) at a time.

  ghost function BitSum(n: bv32): int
  {
    (if n & 0x00000001 != 0 then 1 else 0) + (if n & 0x00000002 != 0 then 1 else 0) + (if n & 0x00000004 != 0 then 1 else 0) + (if n & 0x00000008 != 0 then 1 else 0)
      + (if n & 0x00000010 != 0 then 1 else 0) + (if n & 0x00000020 != 0 then 1 else 0) + (if n & 0x00000040 != 0 then 1 else 0) + (if n & 0x00000080 != 0 then 1 else 0)
      + (if n & 0x00000100 != 0 then 1 else 0) + (if n & 0x00000200 != 0 then 1 else 0) + (if n & 0x00000400 != 0 then 1 else 0) + (if n & 0x00000800 != 0 then 1 else 0)
      + (if n & 0x00001000 != 0 then 1 else 0) + (if n & 0x00002000 != 0 then 1 else 0) + (if n & 0x00004000 != 0 then 1 else 0) + (if n & 0x00008000 != 0 then 1 else 0)
      + (if n & 0x00010000 != 0 then 1 else 0) + (if n & 0x00020000 != 0 then 1 else 0) + (if n & 0x00040000 != 0 then 1 else 0) + (if n & 0x00080000 != 0 then 1 else 0)
      + (if n & 0x00100000 != 0 then 1 else 0) + (if n & 0x00200000 != 0 then 1 else 0) + (if n & 0x00400000 != 0 then 1 else 0) + (if n & 0x00800000 != 0 then 1 else 0)
      + (if n & 0x01000000 != 0 then 1 else 0) + (if n & 0x02000000 != 0 then 1 else 0) + (if n & 0x04000000 != 0 then 1 else 0) + (if n & 0x08000000 != 0 then 1 else 0)
      + (if n & 0x10000000 != 0 then 1 else 0) + (if n & 0x20000000 != 0 then 1 else 0) + (if n & 0x40000000 != 0 then 1 else 0) + (if n & 0x80000000 != 0 then 1 else 0)
  }

  ghost function ByteSum(b: bv32): int
  {
    (if b & 0x01 != 0 then 1 else 0) + (if b & 0x02 != 0 then 1 else 0) + (if b & 0x04 != 0 then 1 else 0) + (if b & 0x08 != 0 then 1 else 0)
      + (if b & 0x10 != 0 then 1 else 0) + (if b & 0x20 != 0 then 1 else 0) + (if b & 0x40 != 0 then 1 else 0) + (if b & 0x80 != 0 then 1 else 0)
  }

  ghost function SixSum(b: bv32): int
  {
    (if b & 0x01 != 0 then 1 else 0) + (if b & 0x02 != 0 then 1 else 0) + (if b & 0x04 != 0 then 1 else 0)
      + (if b & 0x08 != 0 then 1 else 0) + (if b & 0x10 != 0 then 1 else 0) + (if b & 0x20 != 0 then 1 else 0)
  }

  lemma BitSumShift(n: bv32)
    ensures BitSum(n) == (if n & 1 == 1 then 1 else 0) + BitSum(n >> 1)
  {
  }

  lemma {:induction false} PopIsBitSum(n: bv32)
    ensures Pop(n) == BitSum(n)
    decreases n
  {
    if n != 0 {
      PopIsBitSum(n >> 1);
      BitSumShift(n);
    }
  }

  lemma BitSumBytes(n: bv32)
    ensures BitSum(n) == ByteSum(n & 0xFF) + ByteSum((n >> 8) & 0xFF) + ByteSum((n >> 16) & 0xFF) + ByteSum(n >> 24)
  {
  }

  lemma BitSumSixes(n: bv32)
    ensures BitSum(n) == SixSum(n & 0x3F) + SixSum((n >> 6) & 0x3F) + SixSum((n >> 12) & 0x3F)
                         + SixSum((n >> 18) & 0x3F) + SixSum((n >> 24) & 0x3F) + SixSum(n >> 30)
  {
  }

  lemma ByteSumComplement(b: bv32)
    requires b < 256
    ensures ByteSum(b ^ 0xFF) == 8 - ByteSum(b)
  {
  }

  lemma BitSumComplement(n: bv32)
    ensures BitSum(!n) == 32 - BitSum(n)
  {
    BitSumBytes(n);
    BitSumBytes(!n);
    assert !n & 0xFF == (n & 0xFF) ^ 0xFF && (!n >> 8) & 0xFF == ((n >> 8) & 0xFF) ^ 0xFF;
    assert (!n >> 16) & 0xFF == ((n >> 16) & 0xFF) ^ 0xFF && !n >> 24 == (n >> 24) ^ 0xFF;
    ByteSumComplement(n & 0xFF);
    ByteSumComplement((n >> 8) & 0xFF);
    ByteSumComplement((n >> 16) & 0xFF);
    ByteSumComplement(n >> 24);
  }

  /** Every word has at most 32 set bits, and its complement has the rest. */
  lemma PopBounds(n: bv32)
    ensures Pop(n) <= 32
    ensures Pop(!n) == 32 - Pop(n)
  {
    PopIsBitSum(n);
    PopIsBitSum(!n);
    BitSumComplement(n);
  }

  // ---------------------------------------------------------------------
  // Clearing the lowest set bit: n & (n - 1) has exactly one bit fewer.

  lemma PopEven(m: bv32)
    requires m & 1 == 0
    ensures Pop(m) == Pop(m >> 1)
  {
  }

  lemma PopOdd(m: bv32)
    requires m & 1 == 1
    ensures Pop(m) == 1 + Pop(m >> 1)
  {
  }

  lemma HalfSmaller(n: bv32)
    requires n & 1 == 0 && n != 0
    ensures n >> 1 != 0 && n >> 1 < n
  {
  }

  lemma EvenLow(n: bv32)
    requires n & 1 == 0 && n != 0
    ensures (n & (n - 1)) & 1 == 0
  {
  }

  lemma EvenHigh(n: bv32)
    requires n & 1 == 0
    ensures (n & (n - 1)) >> 1 == (n >> 1) & ((n >> 1) - 1)
  {
  }

  lemma OddBits(n: bv32)
    requires n & 1 == 1
    ensures (n & (n - 1)) & 1 == 0 && (n & (n - 1)) >> 1 == n >> 1
  {
  }

  /** For even n, clearing the lowest set bit commutes with the shift. */
  lemma EvenHalf(n: bv32) returns (h: bv32)
    requires n & 1 == 0 && n != 0
    ensures h == n >> 1
    ensures Pop(n & (n - 1)) == Pop(h & (h - 1))
    ensures Pop(n) == Pop(h)
  {
    EvenLow(n);
    EvenHigh(n);
    PopEven(n & (n - 1));
    PopEven(n);
    h := n >> 1;
  }

  /** For odd n, the cleared bit is bit 0. */
  lemma OddHalf(n: bv32)
    requires n & 1 == 1
    ensures Pop(n & (n - 1)) + 1 == Pop(n)
  {
    OddBits(n);
    PopEven(n & (n - 1));
    PopOdd(n);
  }

  lemma {:induction false} ClearLowest(n: bv32)
    requires n != 0
    ensures Pop(n & (n - 1)) + 1 == Pop(n)
    decreases n
  {
    if n & 1 == 0 {
      HalfSmaller(n);
      var h := EvenHalf(n);
      ClearLowest(h);
    } else {
      OddHalf(n);
    }
  }

  // ---------------------------------------------------------------------
  // The three loops (popcount.cpp:7-36).

  /** Test the low bit and shift, until no bit is left. */
  method IteratedPopcount(n0: bv32) returns (count: int)
    ensures count == Pop(n0)
  {
    var n := n0;
    count := 0;
    while n != 0
      invariant count + Pop(n) == Pop(n0)
      decreases n
    {
      count := count + (n & 1) as int;
      n := n >> 1;
    }
  }

  /** One round per set bit: each round clears the lowest one. */
  method SparsePopcount(n0: bv32) returns (count: int)
    ensures count == Pop(n0)
  {
    var n := n0;
    count := 0;
    while n != 0
      invariant count + Pop(n) == Pop(n0)
      decreases Pop(n)
    {
      ClearLowest(n);
      count := count + 1;
      n := n & (n - 1);
    }
  }

  /** One round per clear bit: count down from 32 over the set bits of the complement.
    * The unsigned counter never wraps, since it stays at least the bits still to clear. */
  method DensePopcount(n0: bv32) returns (count: int)
    ensures count == Pop(n0)
  {
    var n := n0 ^ 0xFFFF_FFFF;
    count := 32;
    PopBounds(n0);
    assert n == !n0;
    while n != 0
      invariant count - Pop(n) == Pop(n0)
      invariant count >= Pop(n)
      decreases Pop(n)
    {
      ClearLowest(n);
      count := count - 1;
      n := n & (n - 1);
    }
  }

  // ---------------------------------------------------------------------
  // Table lookup (popcount.cpp:58-65, table built at 171-175).

  /** A byte and its halving, read as integers. */
  lemma ByteHalf(b: bv32) returns (k: nat, h: nat, r: nat)
    requires b < 256
    ensures k == b as int && h == (b >> 1) as int && r == (if b & 1 == 1 then 1 else 0)
    ensures h == k / 2 && r == k % 2 && (b == 0) == (k == 0)
  {
    k, h, r := b as int, (b >> 1) as int, if b & 1 == 1 then 1 else 0;
  }

  lemma PopNatStep(k: nat, h: nat, r: nat)
    requires k > 0 && h == k / 2 && r == k % 2
    ensures PopNat(k) == r + PopNat(h)
  {
  }

  lemma {:induction false} PopNatOfByte(b: bv32)
    requires b < 256
    ensures PopNat(b as int) == Pop(b)
    decreases b
  {
    var k, h, r := ByteHalf(b);
    if b != 0 {
      PopNatOfByte(b >> 1);
      PopNatStep(k, h, r);
    }
  }

  /** Filling the table: entry i is entry i/2 plus the low bit of i. */
  method BuildTable() returns (table: array<int>)
    ensures table.Length == 256
    ensures forall i :: 0 <= i < 256 ==> table[i] == PopNat(i)
  {
    table := new int[256](_ => 0);
    var i := 1;
    while i < 256
      invariant 1 <= i <= 256
      invariant forall j :: 0 <= j < i ==> table[j] == PopNat(j)
    {
      table[i] := table[i / 2] + i % 2;
      i := i + 1;
    }
  }

  /** Sum of the table entries of the four bytes of n. */
  function LookupPopcount(table: seq<int>, n: bv32): int
    requires |table| == 256
  {
    table[(n & 0xFF) as int] + table[((n >> 8) & 0xFF) as int]
      + table[((n >> 16) & 0xFF) as int] + table[(n >> 24) as int]
  }

  lemma ByteIsByteSum(b: bv32)
    requires b < 256
    ensures PopNat(b as int) == ByteSum(b)
  {
    PopNatOfByte(b);
    PopIsBitSum(b);
  }

  lemma LookupIsPop(table: seq<int>, n: bv32)
    requires |table| == 256
    requires forall i :: 0 <= i < 256 ==> table[i] == PopNat(i)
    ensures LookupPopcount(table, n) == Pop(n)
  {
    ByteIsByteSum(n & 0xFF);
    ByteIsByteSum((n >> 8) & 0xFF);
    ByteIsByteSum((n >> 16) & 0xFF);
    ByteIsByteSum(n >> 24);
    BitSumBytes(n);
    PopIsBitSum(n);
  }

  // ---------------------------------------------------------------------
  // Bit slicing (popcount.cpp:69-138). Each algorithm first leaves the
  // count of every byte (or six-bit field) in that byte, then adds the
  // fields up.

  /** POW2(c). */
  function Shift(c: bv32): bv32
    requires c < 32
  {
    1 << c
  }

  /** MASK(c): all ones divided by 2^(2^c) + 1, i.e. alternating runs of 2^c zeros and ones. */
  function Mask(c: bv32): bv32
    requires c <= 4
  {
    0xFFFF_FFFF / (Shift(Shift(c)) + 1)
  }

  lemma MaskValues()
    ensures Mask(0) == 0x5555_5555 && Mask(1) == 0x3333_3333 && Mask(2) == 0x0F0F_0F0F
    ensures Mask(3) == 0x00FF_00FF && Mask(4) == 0x0000_FFFF
  {
  }

  /** COUNT(x, c): add neighbouring fields of width 2^c into fields of twice that width. */
  function CountStep(x: bv32, c: bv32): bv32
    requires c <= 4
  {
    (x & Mask(c)) + ((x >> Shift(c)) & Mask(c))
  }

  function ParallelPopcount(n: bv32): int
  {
    CountStep(CountStep(CountStep(CountStep(CountStep(n, 0), 1), 2), 3), 4) as int
  }

  const Mask01010101: bv32 := 0xFFFF_FFFF / 3
  const Mask00110011: bv32 := 0xFFFF_FFFF / 5
  const Mask00001111: bv32 := 0xFFFF_FFFF / 17

  /** The first three lines of nifty_popcnt: each byte now holds its own count. */
  function NiftyFields(n0: bv32): bv32
  {
    var n1 := (n0 & Mask01010101) + ((n0 >> 1) & Mask01010101);
    var n2 := (n1 & Mask00110011) + ((n1 >> 2) & Mask00110011);
    (n2 & Mask00001111) + ((n2 >> 4) & Mask00001111)
  }

  /** The unsigned remainder of the byte-count word by 255. */
  function NiftyPopcount(n: bv32): int
  {
    (NiftyFields(n) as int) % 255
  }

  /** The first three lines of hacker_popcnt. */
  function HackerFields(n0: bv32): bv32
  {
    var n1 := n0 - ((n0 >> 1) & 0x5555_5555);
    var n2 := (n1 & 0x3333_3333) + ((n1 >> 2) & 0x3333_3333);
    ((n2 >> 4) + n2) & 0x0F0F_0F0F
  }

  /** The last three lines of hacker_popcnt: fold the bytes onto the low one. */
  function HackerSum(n3: bv32): bv32
  {
    var n4 := n3 + (n3 >> 8);
    var n5 := n4 + (n4 >> 16);
    n5 & 0x0000_003F
  }

  function HackerPopcount(n: bv32): int
  {
    HackerSum(HackerFields(n)) as int
  }

  /** tmp of hakmem_popcnt: each octal digit replaced by its count.
    * 0xDB6DB6DB is octal 033333333333, 0x49249249 is octal 011111111111. */
  function HakmemDigits(n: bv32): bv32
  {
    n - ((n >> 1) & 0xDB6D_B6DB) - ((n >> 2) & 0x4924_9249)
  }

  /** Neighbouring octal digits added into six-bit fields (0xC71C71C7 is octal 030707070707). */
  function HakmemFields(n: bv32): bv32
  {
    var tmp := HakmemDigits(n);
    (tmp + (tmp >> 3)) & 0xC71C_71C7
  }

  function HakmemPopcount(n: bv32): int
  {
    (HakmemFields(n) as int) % 63
  }

  // Byte-wise behaviour of the field computations. The "...Of" lemmas hand
  // back the fields as fresh values, so that a caller reasons about them
  // without the bit-level circuits that produced them.

  lemma NiftySplit(n: bv32)
    ensures NiftyFields(n) == NiftyFields(n & 0xFF) | (NiftyFields((n >> 8) & 0xFF) << 8)
                              | (NiftyFields((n >> 16) & 0xFF) << 16) | (NiftyFields(n >> 24) << 24)
  {
  }

  lemma NiftyByte(b: bv32)
    requires b < 256
    ensures NiftyFields(b) <= 8 && NiftyFields(b) as int == ByteSum(b)
  {
  }

  lemma NiftyByteOf(b: bv32) returns (c: bv32)
    requires b < 256
    ensures c == NiftyFields(b) && c <= 8 && c as int == ByteSum(b)
  {
    NiftyByte(b);
    c := NiftyFields(b);
  }

  /** After the first three lines of nifty_popcnt, byte k holds the count of byte k. */
  lemma NiftyFieldsOf(n: bv32) returns (b0: bv32, b1: bv32, b2: bv32, b3: bv32)
    ensures NiftyFields(n) == b0 | (b1 << 8) | (b2 << 16) | (b3 << 24)
    ensures b0 <= 8 && b0 as int == ByteSum(n & 0xFF)
    ensures b1 <= 8 && b1 as int == ByteSum((n >> 8) & 0xFF)
    ensures b2 <= 8 && b2 as int == ByteSum((n >> 16) & 0xFF)
    ensures b3 <= 8 && b3 as int == ByteSum(n >> 24)
  {
    NiftySplit(n);
    b0 := NiftyByteOf(n & 0xFF);
    b1 := NiftyByteOf((n >> 8) & 0xFF);
    b2 := NiftyByteOf((n >> 16) & 0xFF);
    b3 := NiftyByteOf(n >> 24);
  }

  lemma HackerSplit(n: bv32)
    ensures HackerFields(n) == HackerFields(n & 0xFF) | (HackerFields((n >> 8) & 0xFF) << 8)
                               | (HackerFields((n >> 16) & 0xFF) << 16) | (HackerFields(n >> 24) << 24)
  {
  }

  lemma HackerByte(b: bv32)
    requires b < 256
    ensures HackerFields(b) <= 8 && HackerFields(b) as int == ByteSum(b)
  {
  }

  lemma HackerByteOf(b: bv32) returns (c: bv32)
    requires b < 256
    ensures c == HackerFields(b) && c <= 8 && c as int == ByteSum(b)
  {
    HackerByte(b);
    c := HackerFields(b);
  }

  /** After the first three lines of hacker_popcnt, byte k holds the count of byte k. */
  lemma HackerFieldsOf(n: bv32) returns (b0: bv32, b1: bv32, b2: bv32, b3: bv32)
    ensures HackerFields(n) == b0 | (b1 << 8) | (b2 << 16) | (b3 << 24)
    ensures b0 <= 8 && b0 as int == ByteSum(n & 0xFF)
    ensures b1 <= 8 && b1 as int == ByteSum((n >> 8) & 0xFF)
    ensures b2 <= 8 && b2 as int == ByteSum((n >> 16) & 0xFF)
    ensures b3 <= 8 && b3 as int == ByteSum(n >> 24)
  {
    HackerSplit(n);
    b0 := HackerByteOf(n & 0xFF);
    b1 := HackerByteOf((n >> 8) & 0xFF);
    b2 := HackerByteOf((n >> 16) & 0xFF);
    b3 := HackerByteOf(n >> 24);
  }

  // Each six-bit field of hakmem_popcnt's word, taken on its own, holds the
  // count of the matching six-bit slice of the input: octal digits never
  // borrow from each other, and two digit counts (at most 6) fit in a field.

  lemma HakmemSlice0(n: bv32)
    ensures HakmemFields(n) & 0x3F <= 6
    ensures (HakmemFields(n) & 0x3F) as int == SixSum(n & 0x3F)
  {
  }

  lemma HakmemSlice1(n: bv32)
    ensures (HakmemFields(n) >> 6) & 0x3F <= 6
    ensures ((HakmemFields(n) >> 6) & 0x3F) as int == SixSum((n >> 6) & 0x3F)
  {
  }

  lemma HakmemSlice2(n: bv32)
    ensures (HakmemFields(n) >> 12) & 0x3F <= 6
    ensures ((HakmemFields(n) >> 12) & 0x3F) as int == SixSum((n >> 12) & 0x3F)
  {
  }

  lemma HakmemSlice3(n: bv32)
    ensures (HakmemFields(n) >> 18) & 0x3F <= 6
    ensures ((HakmemFields(n) >> 18) & 0x3F) as int == SixSum((n >> 18) & 0x3F)
  {
  }

  lemma HakmemSlice4(n: bv32)
    ensures (HakmemFields(n) >> 24) & 0x3F <= 6
    ensures ((HakmemFields(n) >> 24) & 0x3F) as int == SixSum((n >> 24) & 0x3F)
  {
  }

  /** The top field has only two bits of input, so it holds at most 2. */
  lemma HakmemSlice5(n: bv32)
    ensures HakmemFields(n) >> 30 <= 2
    ensures (HakmemFields(n) >> 30) as int == SixSum(n >> 30)
  {
  }

  // Adding up the fields. Reading a word of small fields as an integer is
  // done one field at a time.

  lemma Join8(lo: bv32, hi: bv32)
    requires lo < 0x100 && hi <= 8
    ensures (lo | (hi << 8)) as int == lo as int + 0x100 * hi as int
  {
  }

  lemma Join16(lo: bv32, hi: bv32)
    requires lo < 0x1_0000 && hi <= 8
    ensures (lo | (hi << 16)) as int == lo as int + 0x1_0000 * hi as int
  {
  }

  lemma Join24(lo: bv32, hi: bv32)
    requires lo < 0x100_0000 && hi <= 8
    ensures (lo | (hi << 24)) as int == lo as int + 0x100_0000 * hi as int
  {
  }

  lemma Join6(lo: bv32, hi: bv32)
    requires lo < 0x40 && hi <= 8
    ensures (lo | (hi << 6)) as int == lo as int + 0x40 * hi as int
  {
  }

  lemma Join12(lo: bv32, hi: bv32)
    requires lo < 0x1000 && hi <= 8
    ensures (lo | (hi << 12)) as int == lo as int + 0x1000 * hi as int
  {
  }

  lemma Join18(lo: bv32, hi: bv32)
    requires lo < 0x4_0000 && hi <= 8
    ensures (lo | (hi << 18)) as int == lo as int + 0x4_0000 * hi as int
  {
  }

  lemma AddSmall(a: bv32, b: bv32)
    requires a <= 32 && b <= 32
    ensures (a + b) as int == a as int + b as int
  {
  }

  lemma ByteFieldsValue(b0: bv32, b1: bv32, b2: bv32, b3: bv32)
    requires b0 <= 8 && b1 <= 8 && b2 <= 8 && b3 <= 8
    ensures (b0 | (b1 << 8) | (b2 << 16) | (b3 << 24)) as int
            == b0 as int + 0x100 * b1 as int + 0x1_0000 * b2 as int + 0x100_0000 * b3 as int
  {
    Join8(b0, b1);
    assert b0 | (b1 << 8) < 0x1_0000;
    Join16(b0 | (b1 << 8), b2);
    assert b0 | (b1 << 8) | (b2 << 16) < 0x100_0000;
    Join24(b0 | (b1 << 8) | (b2 << 16), b3);
  }

  /** A word made of four byte fields, read as an integer. */
  lemma ByteWordValue(x: bv32, b0: bv32, b1: bv32, b2: bv32, b3: bv32)
    requires b0 <= 8 && b1 <= 8 && b2 <= 8 && b3 <= 8
    requires x == b0 | (b1 << 8) | (b2 << 16) | (b3 << 24)
    ensures x as int == b0 as int + 0x100 * b1 as int + 0x1_0000 * b2 as int + 0x100_0000 * b3 as int
  {
    ByteFieldsValue(b0, b1, b2, b3);
  }

  lemma JoinTop(lo: bv32, hi: bv32)
    requires lo < 0x100_0000 && hi < 0x100
    ensures (lo | (hi << 24)) as int == lo as int + 0x100_0000 * hi as int
  {
  }

  /** The low four six-bit fields. */
  lemma SixFieldsLow(f0: bv32, f1: bv32, f2: bv32, f3: bv32)
    requires f0 <= 6 && f1 <= 6 && f2 <= 6 && f3 <= 6
    ensures f0 | (f1 << 6) | (f2 << 12) | (f3 << 18) < 0x100_0000
    ensures (f0 | (f1 << 6) | (f2 << 12) | (f3 << 18)) as int
            == f0 as int + 0x40 * f1 as int + 0x1000 * f2 as int + 0x4_0000 * f3 as int
  {
    Join6(f0, f1);
    assert f0 | (f1 << 6) < 0x1000;
    Join12(f0 | (f1 << 6), f2);
    assert f0 | (f1 << 6) | (f2 << 12) < 0x4_0000;
    Join18(f0 | (f1 << 6) | (f2 << 12), f3);
  }

  /** The top two fields (the last one only two bits wide). */
  lemma SixFieldsHigh(f4: bv32, f5: bv32)
    requires f4 <= 6 && f5 <= 2
    ensures f4 | (f5 << 6) < 0x100
    ensures (f4 | (f5 << 6)) as int == f4 as int + 0x40 * f5 as int
  {
    Join6(f4, f5);
  }

  lemma SixFieldsRegroup(f0: bv32, f1: bv32, f2: bv32, f3: bv32, f4: bv32, f5: bv32)
    ensures f0 | (f1 << 6) | (f2 << 12) | (f3 << 18) | (f4 << 24) | (f5 << 30)
            == (f0 | (f1 << 6) | (f2 << 12) | (f3 << 18)) | ((f4 | (f5 << 6)) << 24)
  {
  }

  lemma SixFieldsValue(f0: bv32, f1: bv32, f2: bv32, f3: bv32, f4: bv32, f5: bv32)
    requires f0 <= 6 && f1 <= 6 && f2 <= 6 && f3 <= 6 && f4 <= 6 && f5 <= 2
    ensures (f0 | (f1 << 6) | (f2 << 12) | (f3 << 18) | (f4 << 24) | (f5 << 30)) as int
            == f0 as int + 0x40 * f1 as int + 0x1000 * f2 as int + 0x4_0000 * f3 as int
               + 0x100_0000 * f4 as int + 0x4000_0000 * f5 as int
  {
    SixFieldsLow(f0, f1, f2, f3);
    SixFieldsHigh(f4, f5);
    SixFieldsRegroup(f0, f1, f2, f3, f4, f5);
    JoinTop(f0 | (f1 << 6) | (f2 << 12) | (f3 << 18), f4 | (f5 << 6));
  }

  /** A word made of six-bit fields, read as an integer. */
  lemma SixWordValue(x: bv32, f0: bv32, f1: bv32, f2: bv32, f3: bv32, f4: bv32, f5: bv32)
    requires f0 <= 6 && f1 <= 6 && f2 <= 6 && f3 <= 6 && f4 <= 6 && f5 <= 2
    requires x == f0 | (f1 << 6) | (f2 << 12) | (f3 << 18) | (f4 << 24) | (f5 << 30)
    ensures x as int == f0 as int + 0x40 * f1 as int + 0x1000 * f2 as int + 0x4_0000 * f3 as int
                        + 0x100_0000 * f4 as int + 0x4000_0000 * f5 as int
  {
    SixFieldsValue(f0, f1, f2, f3, f4, f5);
  }

  /** Reading a word of four byte counts as an integer. The integers come
    * back as fresh values, so callers do not reason about the conversion. */
  lemma WordOfBytes(x: bv32, b0: bv32, b1: bv32, b2: bv32, b3: bv32) returns (v: int, c0: int, c1: int, c2: int, c3: int)
    requires b0 <= 8 && b1 <= 8 && b2 <= 8 && b3 <= 8
    requires x == b0 | (b1 << 8) | (b2 << 16) | (b3 << 24)
    ensures v == x as int && c0 == b0 as int && c1 == b1 as int && c2 == b2 as int && c3 == b3 as int
    ensures 0 <= c0 <= 8 && 0 <= c1 <= 8 && 0 <= c2 <= 8 && 0 <= c3 <= 8
    ensures v == c0 + 0x100 * c1 + 0x1_0000 * c2 + 0x100_0000 * c3
  {
    ByteWordValue(x, b0, b1, b2, b3);
    v, c0, c1, c2, c3 := x as int, b0 as int, b1 as int, b2 as int, b3 as int;
  }

  /** Reading a word of six six-bit counts as an integer. */
  lemma WordOfSixes(x: bv32, f0: bv32, f1: bv32, f2: bv32, f3: bv32, f4: bv32, f5: bv32)
    returns (v: int, c0: int, c1: int, c2: int, c3: int, c4: int, c5: int)
    requires f0 <= 6 && f1 <= 6 && f2 <= 6 && f3 <= 6 && f4 <= 6 && f5 <= 2
    requires x == f0 | (f1 << 6) | (f2 << 12) | (f3 << 18) | (f4 << 24) | (f5 << 30)
    ensures v == x as int && c0 == f0 as int && c1 == f1 as int && c2 == f2 as int
    ensures c3 == f3 as int && c4 == f4 as int && c5 == f5 as int
    ensures 0 <= c0 <= 6 && 0 <= c1 <= 6 && 0 <= c2 <= 6 && 0 <= c3 <= 6 && 0 <= c4 <= 6 && 0 <= c5 <= 2
    ensures v == c0 + 0x40 * c1 + 0x1000 * c2 + 0x4_0000 * c3 + 0x100_0000 * c4 + 0x4000_0000 * c5
  {
    SixWordValue(x, f0, f1, f2, f3, f4, f5);
    v, c0, c1, c2, c3, c4, c5 := x as int, f0 as int, f1 as int, f2 as int, f3 as int, f4 as int, f5 as int;
  }

  /** A word cut into its six-bit slices (the top one two bits wide). */
  lemma SixSlicesOf(x: bv32) returns (f0: bv32, f1: bv32, f2: bv32, f3: bv32, f4: bv32, f5: bv32)
    ensures x == f0 | (f1 << 6) | (f2 << 12) | (f3 << 18) | (f4 << 24) | (f5 << 30)
    ensures f0 == x & 0x3F && f1 == (x >> 6) & 0x3F && f2 == (x >> 12) & 0x3F
    ensures f3 == (x >> 18) & 0x3F && f4 == (x >> 24) & 0x3F && f5 == x >> 30
  {
    f0, f1, f2 := x & 0x3F, (x >> 6) & 0x3F, (x >> 12) & 0x3F;
    f3, f4, f5 := (x >> 18) & 0x3F, (x >> 24) & 0x3F, x >> 30;
  }

  /** A word whose six-bit slices are small counts, read in base 64. */
  lemma SixSlicesValue(x: bv32)
    requires x & 0x3F <= 6 && (x >> 6) & 0x3F <= 6 && (x >> 12) & 0x3F <= 6 && (x >> 18) & 0x3F <= 6
    requires (x >> 24) & 0x3F <= 6 && x >> 30 <= 2
    ensures x as int == (x & 0x3F) as int + 0x40 * ((x >> 6) & 0x3F) as int + 0x1000 * ((x >> 12) & 0x3F) as int
              + 0x4_0000 * ((x >> 18) & 0x3F) as int + 0x100_0000 * ((x >> 24) & 0x3F) as int + 0x4000_0000 * (x >> 30) as int
  {
    var f0, f1, f2, f3, f4, f5 := SixSlicesOf(x);
    var v, c0, c1, c2, c3, c4, c5 := WordOfSixes(x, f0, f1, f2, f3, f4, f5);
  }

  /** Casting out 255s: 256 leaves remainder 1, so the remainder is the digit sum. */
  lemma CastOut255(v: int, c0: int, c1: int, c2: int, c3: int)
    requires 0 <= c0 <= 8 && 0 <= c1 <= 8 && 0 <= c2 <= 8 && 0 <= c3 <= 8
    requires v == c0 + 0x100 * c1 + 0x1_0000 * c2 + 0x100_0000 * c3
    ensures v % 255 == c0 + c1 + c2 + c3
  {
    assert v == 255 * (c1 + 257 * c2 + 65793 * c3) + (c0 + c1 + c2 + c3);
  }

  /** Casting out 63s: 64 leaves remainder 1. */
  lemma CastOut63(v: int, c0: int, c1: int, c2: int, c3: int, c4: int, c5: int)
    requires 0 <= c0 <= 6 && 0 <= c1 <= 6 && 0 <= c2 <= 6 && 0 <= c3 <= 6 && 0 <= c4 <= 6 && 0 <= c5 <= 2
    requires v == c0 + 0x40 * c1 + 0x1000 * c2 + 0x4_0000 * c3 + 0x100_0000 * c4 + 0x4000_0000 * c5
    ensures v % 63 == c0 + c1 + c2 + c3 + c4 + c5
  {
    assert v == 63 * (c1 + 65 * c2 + 4161 * c3 + 266305 * c4 + 17043521 * c5) + (c0 + c1 + c2 + c3 + c4 + c5);
  }

  /** The sum of four byte counts, as an integer. */
  lemma SumOfBytes(b0: bv32, b1: bv32, b2: bv32, b3: bv32) returns (t: int)
    requires b0 <= 8 && b1 <= 8 && b2 <= 8 && b3 <= 8
    ensures t == (b0 + b1 + b2 + b3) as int && t == b0 as int + b1 as int + b2 as int + b3 as int
  {
    SumSmall(b0, b1, b2, b3);
    t := (b0 + b1 + b2 + b3) as int;
  }

  lemma SumSmall(b0: bv32, b1: bv32, b2: bv32, b3: bv32)
    requires b0 <= 8 && b1 <= 8 && b2 <= 8 && b3 <= 8
    ensures (b0 + b1 + b2 + b3) as int == b0 as int + b1 as int + b2 as int + b3 as int
  {
    AddSmall(b0, b1);
    var s1 := b0 + b1;
    assert s1 <= 16;
    AddSmall(s1, b2);
    var s2 := s1 + b2;
    assert s2 <= 24;
    AddSmall(s2, b3);
  }

  lemma HackerAdd(x: bv32, b0: bv32, b1: bv32, b2: bv32, b3: bv32)
    requires b0 <= 8 && b1 <= 8 && b2 <= 8 && b3 <= 8
    requires x == b0 | (b1 << 8) | (b2 << 16) | (b3 << 24)
    ensures HackerSum(x) == b0 + b1 + b2 + b3
  {
  }

  /** COUNT(x, 3) and COUNT(x, 4) add the four byte counts. */
  lemma ParallelAdd(x: bv32, b0: bv32, b1: bv32, b2: bv32, b3: bv32)
    requires b0 <= 8 && b1 <= 8 && b2 <= 8 && b3 <= 8
    requires x == b0 | (b1 << 8) | (b2 << 16) | (b3 << 24)
    ensures CountStep(CountStep(x, 3), 4) == b0 + b1 + b2 + b3
  {
    MaskValues();
  }

  /** COUNT(n, 0) .. COUNT(n, 2) are the first three lines of nifty_popcnt. */
  lemma ParallelHead(n: bv32)
    ensures CountStep(CountStep(CountStep(n, 0), 1), 2) == NiftyFields(n)
  {
    MaskValues();
  }

  // The results: every bit-slicing variant returns the number of set bits.

  /** Pop(n) as the sum of the counts of the four bytes. */
  lemma PopOfBytes(n: bv32) returns (s0: int, s1: int, s2: int, s3: int)
    ensures s0 == ByteSum(n & 0xFF) && s1 == ByteSum((n >> 8) & 0xFF)
    ensures s2 == ByteSum((n >> 16) & 0xFF) && s3 == ByteSum(n >> 24)
    ensures Pop(n) == s0 + s1 + s2 + s3
  {
    BitSumBytes(n);
    PopIsBitSum(n);
    s0, s1, s2, s3 := ByteSum(n & 0xFF), ByteSum((n >> 8) & 0xFF), ByteSum((n >> 16) & 0xFF), ByteSum(n >> 24);
  }

  /** Pop(n) as the sum of the counts of the six-bit fields. */
  lemma PopOfSixes(n: bv32) returns (s0: int, s1: int, s2: int, s3: int, s4: int, s5: int)
    ensures s0 == SixSum(n & 0x3F) && s1 == SixSum((n >> 6) & 0x3F) && s2 == SixSum((n >> 12) & 0x3F)
    ensures s3 == SixSum((n >> 18) & 0x3F) && s4 == SixSum((n >> 24) & 0x3F) && s5 == SixSum(n >> 30)
    ensures Pop(n) == s0 + s1 + s2 + s3 + s4 + s5
  {
    BitSumSixes(n);
    PopIsBitSum(n);
    s0, s1, s2 := SixSum(n & 0x3F), SixSum((n >> 6) & 0x3F), SixSum((n >> 12) & 0x3F);
    s3, s4, s5 := SixSum((n >> 18) & 0x3F), SixSum((n >> 24) & 0x3F), SixSum(n >> 30);
  }

  /** The byte counts left by nifty_popcnt (and by COUNT up to c = 2) add up to Pop(n). */
  lemma NiftyCounts(n: bv32) returns (b0: bv32, b1: bv32, b2: bv32, b3: bv32)
    ensures NiftyFields(n) == b0 | (b1 << 8) | (b2 << 16) | (b3 << 24)
    ensures b0 <= 8 && b1 <= 8 && b2 <= 8 && b3 <= 8
    ensures Pop(n) == b0 as int + b1 as int + b2 as int + b3 as int
  {
    b0, b1, b2, b3 := NiftyFieldsOf(n);
    var s0, s1, s2, s3 := PopOfBytes(n);
  }

  lemma HackerCounts(n: bv32) returns (b0: bv32, b1: bv32, b2: bv32, b3: bv32)
    ensures HackerFields(n) == b0 | (b1 << 8) | (b2 << 16) | (b3 << 24)
    ensures b0 <= 8 && b1 <= 8 && b2 <= 8 && b3 <= 8
    ensures Pop(n) == b0 as int + b1 as int + b2 as int + b3 as int
  {
    b0, b1, b2, b3 := HackerFieldsOf(n);
    var s0, s1, s2, s3 := PopOfBytes(n);
  }

  /** The six field counts of hakmem_popcnt, as integers: the bit counts of the six-bit slices. */
  lemma HakmemCounts(n: bv32) returns (c0: int, c1: int, c2: int, c3: int, c4: int, c5: int)
    ensures HakmemFields(n) as int == c0 + 0x40 * c1 + 0x1000 * c2 + 0x4_0000 * c3 + 0x100_0000 * c4 + 0x4000_0000 * c5
    ensures 0 <= c0 <= 6 && 0 <= c1 <= 6 && 0 <= c2 <= 6 && 0 <= c3 <= 6 && 0 <= c4 <= 6 && 0 <= c5 <= 2
    ensures c0 == SixSum(n & 0x3F) && c1 == SixSum((n >> 6) & 0x3F) && c2 == SixSum((n >> 12) & 0x3F)
    ensures c3 == SixSum((n >> 18) & 0x3F) && c4 == SixSum((n >> 24) & 0x3F) && c5 == SixSum(n >> 30)
  {
    HakmemSlice0(n);
    HakmemSlice1(n);
    HakmemSlice2(n);
    HakmemSlice3(n);
    HakmemSlice4(n);
    HakmemSlice5(n);
    SixSlicesValue(HakmemFields(n));
    c0, c1, c2 := SixSum(n & 0x3F), SixSum((n >> 6) & 0x3F), SixSum((n >> 12) & 0x3F);
    c3, c4, c5 := SixSum((n >> 18) & 0x3F), SixSum((n >> 24) & 0x3F), SixSum(n >> 30);
  }

  lemma NiftyIsPop(n: bv32)
    ensures NiftyPopcount(n) == Pop(n)
  {
    var b0, b1, b2, b3 := NiftyCounts(n);
    var v, c0, c1, c2, c3 := WordOfBytes(NiftyFields(n), b0, b1, b2, b3);
    CastOut255(v, c0, c1, c2, c3);
  }

  lemma ParallelIsPop(n: bv32)
    ensures ParallelPopcount(n) == Pop(n)
  {
    ParallelHead(n);
    var b0, b1, b2, b3 := NiftyCounts(n);
    ParallelAdd(NiftyFields(n), b0, b1, b2, b3);
    var t := SumOfBytes(b0, b1, b2, b3);
  }

  lemma HackerIsPop(n: bv32)
    ensures HackerPopcount(n) == Pop(n)
  {
    var b0, b1, b2, b3 := HackerCounts(n);
    HackerAdd(HackerFields(n), b0, b1, b2, b3);
    var t := SumOfBytes(b0, b1, b2, b3);
  }

  lemma HakmemIsPop(n: bv32)
    ensures HakmemPopcount(n) == Pop(n)
  {
    var c0, c1, c2, c3, c4, c5 := HakmemCounts(n);
    CastOut63(HakmemFields(n) as int, c0, c1, c2, c3, c4, c5);
    var s0, s1, s2, s3, s4, s5 := PopOfSixes(n);
  }
}
