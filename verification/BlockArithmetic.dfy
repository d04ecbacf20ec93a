/** Block arithmetic on 64-bit integers, written with masks and shifts. */
module BlockArithmetic {
  import opened DivMod
  import opened Intervals

  const TWO64: nat := 0x1_0000_0000_0000_0000
  const TWO32: nat := 0x1_0000_0000

  type Word = n: nat | n < TWO64

  // ---------------------------------------------------------------- the machine operations

  /** Bitwise and. */
  function And(a: nat, b: nat): nat
    decreases a
  {
    if a == 0 then 0 else (if a % 2 == 1 && b % 2 == 1 then 1 else 0) + 2 * And(a / 2, b / 2)
  }

  /** Bitwise complement of a 64-bit word. */
  function Not(a: Word): Word {
    TWO64 - 1 - a
  }

  function Wrap(n: int): Word {
    n % TWO64
  }

  function Power2(k: nat): (p: nat)
    ensures p > 0
  {
    if k == 0 then 1 else 2 * Power2(k - 1)
  }

  function Quotient(n: nat, d: nat): (q: nat)
    requires d > 0
    ensures q <= n
  {
    DivAtMost(n, d);
    n / d
  }

  /** Shift to the right. */
  function Shr(a: Word, k: nat): Word {
    Quotient(a, Power2(k))
  }

  /** The number of bits of a number. */
  function Bits(n: nat): nat {
    if n == 0 then 0 else 1 + Bits(n / 2)
  }

  /** `__builtin_clzll` */
  function CountLeadingZeros(n: Word): int
    requires n != 0
  {
    64 - Bits(n)
  }

  // ---------------------------------------------------------------- the functions of the source

  predicate IsPowerOf2(n: Word) {
    n != 0 && And(n, Wrap(n - 1)) == 0
  }

  function Log2(n: Word): int
    requires n != 0
  {
    64 - CountLeadingZeros(n) - 1
  }

  /** `1u << k` is computed in 32 bits. */
  predicate IsAligned(n: Word, blockSize: Word)
    requires IsPowerOf2(blockSize) && 0 <= Log2(blockSize) < 32
  {
    And(n, (Power2(Log2(blockSize)) % TWO32 + TWO32 - 1) % TWO32) == 0
  }

  function AlignLeft(offset: Word, blockSize: Word): Word
    requires IsPowerOf2(blockSize)
  {
    And(offset, Not(blockSize - 1)) % TWO64
  }

  function AlignRight(offset: Word, blockSize: Word): Word
    requires IsPowerOf2(blockSize)
  {
    Wrap(AlignLeft(offset, blockSize) + blockSize)
  }

  function BlockOverrun(offset: Word, blockSize: Word): Word
    requires IsPowerOf2(blockSize)
  {
    And(offset, blockSize - 1) % TWO64
  }

  function BlockUnderrun(offset: Word, blockSize: Word): Word
    requires IsPowerOf2(blockSize)
  {
    Wrap(AlignRight(offset, blockSize) - offset)
  }

  function BlockIndex(offset: Word, blockSize: Word): Word
    requires IsPowerOf2(blockSize) && Log2(blockSize) >= 0
  {
    Shr(AlignLeft(offset, blockSize), Log2(blockSize))
  }

  function BlockCount(offset: Word, size: Word, blockSize: Word): Word
    requires IsPowerOf2(blockSize) && 0 <= Log2(blockSize) < 32
    requires offset + size < TWO64
  {
    var first := AlignLeft(offset, blockSize);
    var final := AlignLeft(offset + size, blockSize);
    var mask: Word := if size == 0 then 0 else TWO64 - 1;
    var count := Wrap(Shr(final, Log2(blockSize)) - Shr(first, Log2(blockSize))
                      + if IsAligned(offset + size, blockSize) then 0 else 1);
    And(count, mask) % TWO64
  }

  // ---------------------------------------------------------------- masks are remainders

  lemma {:induction false} AndSelf(a: nat)
    ensures And(a, a) == a
    decreases a
  {
    if a > 0 {
      AndSelf(a / 2);
    }
  }

  lemma {:induction false} AndLowMask(a: nat, k: nat)
    ensures And(a, Power2(k) - 1) == a % Power2(k)
    decreases k
  {
    hide And;
    if k == 0 {
      AndZero(a);
    } else if a > 0 {
      var p := Power2(k - 1);
      AndOdd(a, p);
      AndLowMask(a / 2, k - 1);
      ModDouble(a, p);
    } else {
      ZeroAnd(Power2(k) - 1);
      assert 0 % Power2(k) == 0;
    }
  }

  lemma ZeroAnd(b: nat)
    ensures And(0, b) == 0
  {
  }

  lemma AndOdd(a: nat, p: nat)
    requires a > 0 && p > 0
    ensures And(a, 2 * p - 1) == a % 2 + 2 * And(a / 2, p - 1)
  {
  }

  lemma {:induction false} AndZero(a: nat)
    ensures And(a, 0) == 0
    decreases a
  {
    if a > 0 {
      AndZero(a / 2);
    }
  }

  lemma ModDouble(a: nat, p: nat)
    requires p > 0
    ensures a % (2 * p) == a % 2 + 2 * (a / 2 % p)
  {
    var q, r := a / 2, a % 2;
    var x, y := q / p, q % p;
    assert q == p * x + y;
    assert a == (2 * p) * x + (r + 2 * y);
    DivModUnique(a, 2 * p, x, r + 2 * y);
  }

  /** And with the complement of a low mask of an n-bit word clears the low bits. */
  lemma {:induction false} AndHighMask(a: nat, k: nat, n: nat)
    requires k <= n && a < Power2(n)
    ensures Power2(k) <= Power2(n)
    ensures And(a, Power2(n) - Power2(k)) == a - a % Power2(k)
    decreases k
  {
    if k == 0 {
      AndFull(a, n);
      assert a % 1 == 0;
    } else {
      var p, q := Power2(k - 1), Power2(n - 1);
      AndHighMask(a / 2, k - 1, n - 1);
      assert 2 * q - 2 * p == 2 * (q - p);
      assert (2 * (q - p)) % 2 == 0 && (2 * (q - p)) / 2 == q - p;
      ModDouble(a, p);
    }
  }

  lemma {:induction false} AndFull(a: nat, n: nat)
    requires a < Power2(n)
    ensures And(a, Power2(n) - 1) == a
    decreases n
  {
    AndLowMask(a, n);
    DivModUnique(a, Power2(n), 0, a);
  }

  lemma Power2Of64()
    ensures Power2(64) == TWO64 && Power2(32) == TWO32
  {
    assert Power2(8) == 0x100;
    assert Power2(16) == 0x1_0000;
    assert Power2(24) == 0x100_0000;
    assert Power2(32) == TWO32;
    assert Power2(40) == 0x100_0000_0000;
    assert Power2(48) == 0x1_0000_0000_0000;
    assert Power2(56) == 0x100_0000_0000_0000;
  }

  lemma {:induction false} BitsOfPower2(k: nat)
    ensures Bits(Power2(k)) == k + 1
    decreases k
  {
    if k > 0 {
      assert Power2(k) / 2 == Power2(k - 1);
      BitsOfPower2(k - 1);
    } else {
      assert Bits(1) == 1 + Bits(0);
    }
  }

  lemma {:induction false} Power2Monotonic(j: nat, k: nat)
    requires j <= k
    ensures Power2(j) <= Power2(k)
    decreases k
  {
    if j < k {
      Power2Monotonic(j, k - 1);
    }
  }

  /** The bit trick recognises exactly the powers of two. */
  lemma {:induction false} PowerOf2Exactly(n: nat)
    requires n > 0
    ensures And(n, n - 1) == 0 <==> n == Power2(Bits(n) - 1)
    decreases n
  {
    if n % 2 == 1 {
      assert (n - 1) % 2 == 0 && (n - 1) / 2 == n / 2;
      AndSelf(n / 2);
      assert And(n, n - 1) == 2 * (n / 2);
      if n > 1 {
        assert Bits(n) - 1 > 0 && Power2(Bits(n) - 1) % 2 == 0;
      }
    } else {
      assert (n - 1) % 2 == 1 && (n - 1) / 2 == n / 2 - 1;
      PowerOf2Exactly(n / 2);
      assert Power2(Bits(n) - 1) == 2 * Power2(Bits(n / 2) - 1);
    }
  }

  // ---------------------------------------------------------------- what the functions compute

  lemma PositiveBits(n: nat)
    requires n > 0
    ensures Bits(n) > 0
  {
  }

  /** A 64-bit power of two and its logarithm. */
  lemma PowerOf2Form(n: Word)
    requires IsPowerOf2(n)
    ensures 0 <= Log2(n) < 64 && n == Power2(Log2(n))
  {
    hide And, Bits, Power2, Wrap;
    PowerOf2Exactly(n);
    Power2Of64();
    PositiveBits(n);
    WrapCases(n - 1);
    if Log2(n) >= 64 {
      Power2Monotonic(64, Log2(n));
    }
  }

  lemma PowersPass(k: nat)
    requires k < 64
    ensures Power2(k) < TWO64 && IsPowerOf2(Power2(k)) && Log2(Power2(k)) == k
  {
    hide And, Power2, Bits;
    BitsOfPower2(k);
    PowerOf2Exactly(Power2(k));
    Power2Strict(k, 64);
    Power2Of64();
    WrapCases(Power2(k) - 1);
  }

  lemma Power2Strict(j: nat, k: nat)
    requires j < k
    ensures Power2(j) < Power2(k)
  {
  }

  /** `is_power_of_2` and `log2` mean what they say. */
  lemma IsPowerOf2Iff(n: Word)
    ensures IsPowerOf2(n) <==> exists k: nat :: k < 64 && n == Power2(k)
    ensures IsPowerOf2(n) ==> 0 <= Log2(n) < 64 && n == Power2(Log2(n))
  {
    hide And, Power2, Bits, IsPowerOf2, Log2;
    if IsPowerOf2(n) {
      PowerOf2Form(n);
    }
    if k: nat :| k < 64 && n == Power2(k) {
      PowersPass(k);
    }
  }

  lemma WrapCases(n: int)
    ensures 0 <= n < TWO64 ==> Wrap(n) == n
    ensures TWO64 <= n < 2 * TWO64 ==> Wrap(n) == n - TWO64
    ensures n < 0 && n + TWO64 >= 0 ==> Wrap(n) == n + TWO64
  {
  }

  lemma AlignLeftForm(offset: Word, blockSize: Word, k: nat)
    requires IsPowerOf2(blockSize) && blockSize == Power2(k) && k < 64
    ensures AlignLeft(offset, blockSize) == offset - offset % blockSize
    ensures BlockOverrun(offset, blockSize) == offset % blockSize
  {
    hide And, Power2, Bits;
    Power2Of64();
    AndLowMask(offset, k);
    AndHighMask(offset, k, 64);
    WrapCases(offset - offset % blockSize);
    WrapCases(offset % blockSize);
    assert Not(blockSize - 1) == TWO64 - blockSize;
  }

  /** The next boundary, which is 0 past the largest word. */
  function NextBoundary(boundary: nat, blockSize: nat): int {
    if boundary + blockSize < TWO64 then boundary + blockSize else boundary + blockSize - TWO64
  }

  lemma UnderrunForm(offset: Word, blockSize: Word, r: nat)
    requires IsPowerOf2(blockSize) && r < blockSize && r <= offset && AlignLeft(offset, blockSize) == offset - r
    ensures BlockUnderrun(offset, blockSize) == blockSize - r
    ensures AlignRight(offset, blockSize) == NextBoundary(offset - r, blockSize)
  {
    hide And, Power2, Bits, AlignLeft, Wrap, IsPowerOf2;
    var right := offset - r + blockSize;
    WrapCases(right);
    WrapCases(Wrap(right) - offset);
  }

  lemma IndexForm(offset: Word, blockSize: Word, k: nat)
    requires IsPowerOf2(blockSize) && Log2(blockSize) == k && blockSize == Power2(k)
    requires AlignLeft(offset, blockSize) == offset - offset % blockSize
    ensures BlockIndex(offset, blockSize) == offset / blockSize
  {
    hide And, Power2, Bits, AlignLeft, IsPowerOf2, Log2;
    Divides(offset, blockSize);
    DivModUnique(offset - offset % blockSize, blockSize, offset / blockSize, 0);
  }

  lemma MaskIn32Bits(k: nat)
    requires k < 32
    ensures (Power2(k) % TWO32 + TWO32 - 1) % TWO32 == Power2(k) - 1
  {
    Power2Below32(k);
    Mask32(Power2(k));
  }

  lemma Power2Below32(k: nat)
    requires k < 32
    ensures Power2(k) < TWO32
  {
    Power2Monotonic(k, 31);
    Power2Of64();
    assert Power2(32) == 2 * Power2(31);
  }

  lemma Mask32(p: nat)
    requires 0 < p < TWO32
    ensures (p % TWO32 + TWO32 - 1) % TWO32 == p - 1
  {
  }

  /** The masks and shifts agree with division and remainder; the distance to the next boundary is
      right even where aligning to the right wraps around. */
  lemma MasksAreDivision(offset: Word, blockSize: Word)
    requires IsPowerOf2(blockSize)
    ensures Log2(blockSize) >= 0
    ensures AlignLeft(offset, blockSize) == offset - offset % blockSize
    ensures AlignRight(offset, blockSize) == NextBoundary(offset - offset % blockSize, blockSize)
    ensures BlockOverrun(offset, blockSize) == offset % blockSize
    ensures BlockUnderrun(offset, blockSize) == blockSize - offset % blockSize
    ensures BlockIndex(offset, blockSize) == offset / blockSize
    ensures Log2(blockSize) < 32 ==> (IsAligned(offset, blockSize) <==> offset % blockSize == 0)
  {
    hide And, Power2, Bits, AlignLeft, AlignRight, BlockOverrun, BlockUnderrun, BlockIndex, Log2, IsPowerOf2;
    PowerOf2Form(blockSize);
    var k: nat := Log2(blockSize);
    Divides(offset, blockSize);
    AlignLeftForm(offset, blockSize, k);
    UnderrunForm(offset, blockSize, offset % blockSize);
    IndexForm(offset, blockSize, k);
    if k < 32 {
      MaskIn32Bits(k);
      AndLowMask(offset, k);
    }
  }

  /** The block indices of the bytes of a range. */
  function BlocksTouched(offset: Word, size: Word, blockSize: Word): set<Word>
    requires IsPowerOf2(blockSize) && Log2(blockSize) >= 0 && offset + size < TWO64
  {
    set i | i in Interval(offset, offset + size) :: BlockIndex(i, blockSize)
  }

  /** A block index between those of the first and the last byte is the index of some byte between them. */
  lemma ByteOfBlock(first: nat, last: nat, d: nat, block: nat) returns (i: nat)
    requires d > 0 && first <= last && first / d <= block <= last / d
    ensures first <= i <= last && i / d == block
  {
    if block == first / d {
      i := first;
    } else {
      i := d * block;
      DivModUnique(i, d, block, 0);
      Divides(first, d);
      Divides(last, d);
      Boundary(first, last, d, first / d, last / d, block);
    }
  }

  lemma Boundary(first: nat, last: nat, d: nat, a: nat, b: nat, block: nat)
    requires d > 0 && a < block <= b
    requires first < d * a + d && d * b <= last
    ensures first <= d * block <= last
  {
    Distribute(block, a, d);
    AtLeast(d, block - a);
    Distribute(b, block, d);
  }

  lemma IndexBetween(offset: Word, size: Word, blockSize: Word, i: Word)
    requires IsPowerOf2(blockSize) && Log2(blockSize) >= 0 && offset <= i < offset + size
    ensures blockSize > 0 && Quotient(offset, blockSize) <= BlockIndex(i, blockSize) <= Quotient(offset + size - 1, blockSize)
  {
    hide And, Power2, Bits, BlockIndex, IsPowerOf2, Log2;
    PowerOf2Form(blockSize);
    MasksAreDivision(i, blockSize);
    DivMonotonic(offset, i, blockSize);
    DivMonotonic(i, offset + size - 1, blockSize);
  }

  lemma BlockIsTouched(offset: Word, size: Word, blockSize: Word, block: nat)
    requires IsPowerOf2(blockSize) && Log2(blockSize) >= 0 && offset + size < TWO64 && size > 0
    requires blockSize > 0 && Quotient(offset, blockSize) <= block <= Quotient(offset + size - 1, blockSize)
    ensures block in BlocksTouched(offset, size, blockSize)
  {
    hide And, Power2, Bits, BlockIndex, IsPowerOf2, Log2, Interval;
    var i := ByteOfBlock(offset, offset + size - 1, blockSize, block);
    MasksAreDivision(i, blockSize);
    DivAtMost(offset + size - 1, blockSize);
    assert i in Interval(offset, offset + size) && BlockIndex(i, blockSize) == block;
  }

  lemma TouchedIsInterval(offset: Word, size: Word, blockSize: Word)
    requires IsPowerOf2(blockSize) && Log2(blockSize) >= 0 && offset + size < TWO64 && size > 0
    ensures blockSize > 0 &&
            BlocksTouched(offset, size, blockSize) ==
            Interval(Quotient(offset, blockSize), Quotient(offset + size - 1, blockSize) + 1)
  {
    hide And, Power2, Bits, BlockIndex, Quotient, IsPowerOf2, Log2, Interval, BlocksTouched;
    PowerOf2Form(blockSize);
    forall b | b in BlocksTouched(offset, size, blockSize)
      ensures b in Interval(Quotient(offset, blockSize), Quotient(offset + size - 1, blockSize) + 1)
    {
      var i := ByteTouching(offset, size, blockSize, b);
      IndexBetween(offset, size, blockSize, i);
    }
    forall b | b in Interval(Quotient(offset, blockSize), Quotient(offset + size - 1, blockSize) + 1)
      ensures b in BlocksTouched(offset, size, blockSize)
    {
      BlockIsTouched(offset, size, blockSize, b);
    }
  }

  lemma ByteTouching(offset: Word, size: Word, blockSize: Word, block: Word) returns (i: Word)
    requires IsPowerOf2(blockSize) && Log2(blockSize) >= 0 && offset + size < TWO64
    requires block in BlocksTouched(offset, size, blockSize)
    ensures offset <= i < offset + size && block == BlockIndex(i, blockSize)
  {
    i :| i in Interval(offset, offset + size) && block == BlockIndex(i, blockSize);
  }

  /** `block_count` is the number of distinct block indices of the bytes of the range. */
  lemma BlockCountCounts(offset: Word, size: Word, blockSize: Word)
    requires IsPowerOf2(blockSize) && 0 <= Log2(blockSize) < 32 && offset + size < TWO64
    ensures BlockCount(offset, size, blockSize) == |BlocksTouched(offset, size, blockSize)|
  {
    hide And, Power2, Bits, BlockIndex, Quotient, IsPowerOf2, Log2, BlocksTouched, BlockCount, Interval;
    if size == 0 {
      NothingTouched(offset, blockSize);
    } else {
      TouchedIsInterval(offset, size, blockSize);
      var a, b, r, t := RangeForms(offset, size, blockSize);
      RoomAbove(b, t, blockSize, offset + size);
      CountForm(offset, size, blockSize, a, b, t);
    }
  }

  lemma NothingTouched(offset: Word, blockSize: Word)
    requires IsPowerOf2(blockSize) && 0 <= Log2(blockSize) < 32
    ensures BlocksTouched(offset, 0, blockSize) == {} && BlockCount(offset, 0, blockSize) == 0
  {
    hide And, Power2, Bits, BlockIndex, IsPowerOf2, Log2;
    assert Interval(offset, offset + 0) == {};
    AndZero(BlockDifference(offset, 0, blockSize));
  }

  /** The count before it is masked. */
  function BlockDifference(offset: Word, size: Word, blockSize: Word): Word
    requires IsPowerOf2(blockSize) && 0 <= Log2(blockSize) < 32
    requires offset + size < TWO64
  {
    Wrap(BlockIndex(offset + size, blockSize) - BlockIndex(offset, blockSize)
         + if IsAligned(offset + size, blockSize) then 0 else 1)
  }

  /** Both ends of a range as blocks and remainders. */
  lemma RangeForms(offset: Word, size: Word, d: Word) returns (a: Word, b: Word, r: nat, t: nat)
    requires IsPowerOf2(d) && 0 <= Log2(d) < 32 && offset + size < TWO64 && size > 0
    ensures d > 0 && offset == d * a + r && r < d && offset + size == d * b + t && t < d && a <= b
    ensures BlockIndex(offset, d) == a && BlockIndex(offset + size, d) == b
    ensures Quotient(offset, d) == a && Quotient(offset + size - 1, d) + 1 == b + if t == 0 then 0 else 1
    ensures BlockOverrun(offset, d) == r && BlockUnderrun(offset + size, d) == d - t
    ensures IsAligned(offset + size, d) <==> t == 0
  {
    hide AlignLeft, AlignRight, NextBoundary;
    hide And, Power2, Bits, BlockIndex, BlockOverrun, BlockUnderrun, IsPowerOf2, Log2, IsAligned;
    PowerOf2Form(d);
    MasksAreDivision(offset, d);
    MasksAreDivision(offset + size, d);
    a, r := offset / d, offset % d;
    b, t := (offset + size) / d, (offset + size) % d;
    Divides(offset, d);
    Divides(offset + size, d);
    DivMonotonic(offset, offset + size, d);
    LastBlock(offset + size, d);
  }

  lemma CountForm(offset: Word, size: Word, d: Word, a: Word, b: Word, t: nat)
    requires IsPowerOf2(d) && 0 <= Log2(d) < 32 && offset + size < TWO64 && size > 0
    requires BlockIndex(offset, d) == a <= BlockIndex(offset + size, d) == b && (IsAligned(offset + size, d) <==> t == 0)
    requires t > 0 ==> b + 1 < TWO64
    ensures BlockCount(offset, size, d) == b - a + if t == 0 then 0 else 1
  {
    hide And, Power2, Bits, AlignLeft, IsPowerOf2, Log2, IsAligned, Wrap;
    var n: nat := b - a + if t == 0 then 0 else 1;
    WrapCases(n);
    assert BlockDifference(offset, size, d) == n;
    Power2Of64();
    AndFull(n, 64);
    WrapCases(And(n, TWO64 - 1));
    CountMasked(offset, size, d);
  }

  lemma CountMasked(offset: Word, size: Word, d: Word)
    requires IsPowerOf2(d) && 0 <= Log2(d) < 32 && offset + size < TWO64 && size > 0
    ensures BlockCount(offset, size, d) == Wrap(And(BlockDifference(offset, size, d), TWO64 - 1))
  {
  }

  lemma LastBlock(end: nat, d: nat)
    requires end > 0 && d > 0
    ensures (end - 1) / d + 1 == end / d + if end % d == 0 then 0 else 1
  {
    var q, r := end / d, end % d;
    Divides(end, d);
    if r == 0 {
      Distribute(q, 1, d);
      DivModUnique(end - 1, d, q - 1, d - 1);
    } else {
      DivModUnique(end - 1, d, q, r - 1);
    }
  }

  /** Counting whole blocks, and taking off what lies before the range in its first block and after it
      in its last one, gives back the size of the range, except for an empty range inside a block,
      where it is one block short. */
  lemma BlocksConserveSize(offset: Word, size: Word, blockSize: Word)
    requires IsPowerOf2(blockSize) && 0 <= Log2(blockSize) < 32 && offset + size < TWO64
    ensures BlockCount(offset, size, blockSize) * blockSize
            - BlockOverrun(offset, blockSize)
            - (if IsAligned(offset + size, blockSize) then 0 else BlockUnderrun(offset + size, blockSize))
            == size - if size == 0 && offset % blockSize != 0 then blockSize else 0
  {
    hide And, Power2, Bits, AlignLeft, BlockOverrun, BlockUnderrun, BlockIndex;
    hide BlockCount, IsPowerOf2, Log2, IsAligned, Wrap, Quotient;
    if size == 0 {
      NothingTouched(offset, blockSize);
      MasksAreDivision(offset, blockSize);
    } else {
      var a, b, r, t := RangeForms(offset, size, blockSize);
      RoomAbove(b, t, blockSize, offset + size);
      CountForm(offset, size, blockSize, a, b, t);
      Conserve(offset, size, blockSize, a, b, r, t, BlockCount(offset, size, blockSize));
    }
  }

  lemma RoomAbove(b: nat, t: nat, d: nat, end: Word)
    requires d > 0 && end == d * b + t
    ensures t > 0 ==> b + 1 < TWO64
  {
  }

  lemma Conserve(offset: nat, size: nat, d: nat, a: nat, b: nat, r: nat, t: nat, n: nat)
    requires offset == d * a + r && offset + size == d * b + t
    requires n == b + (if t == 0 then 0 else 1) - a
    ensures n * d - r - (if t == 0 then 0 else d - t) == size
  {
  }

}
