/**
 * The size-class index of the segregated-fits allocator: a size is filed in
 * the bucket named by its highest set bit, counting from bit 3.
 */
module SizeClass {
  import opened HeaderCodec

  /** SIZE_CLASS_COUNT: the number of free-list buckets. */
  const SIZE_CLASS_COUNT: nat := 60

  /** The scan looks at bits 3, 4, ..., 63 of the size: 61 positions. */
  const SCANNED_BITS: nat := 61

  function Pow2(n: nat): (r: nat)
    ensures r >= 1
  {
    if n == 0 then 1 else 2 * Pow2(n - 1)
  }

  /** The position of the highest set bit of x (0 when x < 2). */
  function Log2(x: nat): nat
  {
    if x < 2 then 0 else 1 + Log2(x / 2)
  }

  lemma {:induction false} Pow2Add(a: nat, b: nat)
    ensures Pow2(a + b) == Pow2(a) * Pow2(b)
  {
    if a > 0 {
      Pow2Add(a - 1, b);
      assert Pow2(a + b) == 2 * Pow2(a - 1 + b);
    }
  }

  lemma Pow2Constants()
    ensures Pow2(3) == 8 && Pow2(4) == 16
    ensures Pow2(60) == 0x1000_0000_0000_0000
    ensures Pow2(61) == 0x2000_0000_0000_0000
    ensures Pow2(63) == 0x8000_0000_0000_0000
  {
    assert Pow2(4) == 16 by { assert Pow2(3) == 8 by { assert Pow2(2) == 4; } }
    assert Pow2(8) == 0x100 by { Pow2Add(4, 4); }
    assert Pow2(16) == 0x1_0000 by { Pow2Add(8, 8); }
    assert Pow2(32) == 0x1_0000_0000 by { Pow2Add(16, 16); }
    assert Pow2(48) == 0x1_0000_0000_0000 by { Pow2Add(32, 16); }
    assert Pow2(56) == 0x100_0000_0000_0000 by { Pow2Add(48, 8); }
    assert Pow2(60) == 0x1000_0000_0000_0000 by { Pow2Add(56, 4); }
    assert Pow2(61) == 0x2000_0000_0000_0000 by { Pow2Add(60, 1); }
    assert Pow2(63) == 0x8000_0000_0000_0000 by { Pow2Add(61, 2); }
  }

  /** Pow2(Log2(x)) <= x < Pow2(Log2(x) + 1) for every positive x. */
  lemma {:induction false} Log2Bounds(x: nat)
    requires x >= 1
    ensures Pow2(Log2(x)) <= x < Pow2(Log2(x) + 1)
  {
    if x >= 2 {
      Log2Bounds(x / 2);
    }
  }

  /** Log2 is monotone. */
  lemma {:induction false} Log2Monotone(x: nat, y: nat)
    requires x <= y
    ensures Log2(x) <= Log2(y)
  {
    if x >= 2 {
      Log2Monotone(x / 2, y / 2);
    }
  }

  /** x < Pow2(n) bounds the highest set bit of x below n. */
  lemma {:induction false} Log2Below(x: nat, n: nat)
    requires x < Pow2(n)
    ensures x == 0 || Log2(x) < n
  {
    if x >= 1 {
      Log2Bounds(x);
      if Log2(x) >= n {
        Pow2Monotone(n, Log2(x));
      }
    }
  }

  lemma {:induction false} Pow2Monotone(a: nat, b: nat)
    requires a <= b
    ensures Pow2(a) <= Pow2(b)
  {
    if a < b {
      Pow2Monotone(a, b - 1);
    }
  }

  /**
   * The loop of get_size_class_index from the iteration with
   * iter_count == k on: `rest` holds the bits of the size from position
   * k + 3 upward, and `leftmost` the last iteration that found a set bit.
   */
  function ClassScan(rest: nat, k: nat, leftmost: nat): nat
    decreases SCANNED_BITS - k
  {
    if k >= SCANNED_BITS then leftmost
    else ClassScan(rest / 2, k + 1, if rest % 2 == 1 then k else leftmost)
  }

  /** While the highest set bit is still ahead, the scan ends on it. */
  lemma {:induction false} ClassScanFindsHighestBit(rest: nat, k: nat, leftmost: nat)
    requires k <= SCANNED_BITS
    requires rest < Pow2(SCANNED_BITS - k)
    ensures ClassScan(rest, k, leftmost) == if rest == 0 then leftmost else k + Log2(rest)
    decreases SCANNED_BITS - k
  {
    if k < SCANNED_BITS {
      assert Pow2(SCANNED_BITS - k) == 2 * Pow2(SCANNED_BITS - (k + 1));
      ClassScanFindsHighestBit(rest / 2, k + 1, if rest % 2 == 1 then k else leftmost);
    }
  }

  /**
   * get_size_class_index as written: the scan over bits 3 to 63 of `size`,
   * keeping the last iteration that found a set bit.
   */
  function ScanClassIndex(size: Word): nat
  {
    ClassScan(size / 8, 0, 0)
  }

  /**
   * The bucket of a size: the number of positions above bit 3 of its highest
   * set bit, or 0 when no bit from 3 up is set.
   */
  function SizeClassIndex(size: Word): nat
  {
    Log2(size / 8)
  }

  /** The scan of get_size_class_index ends on the highest set bit: it computes SizeClassIndex. */
  lemma {:induction false} ScanComputesSizeClass(size: Word)
    ensures ScanClassIndex(size) == SizeClassIndex(size)
  {
    Pow2Constants();
    ClassScanFindsHighestBit(size / 8, 0, 0);
  }

  /** A size of class r lies in [2^(r+3), 2^(r+4)); sizes below 16 are in class 0; no class passes 60. */
  lemma {:induction false} SizeClassBounds(size: Word)
    ensures SizeClassIndex(size) <= SIZE_CLASS_COUNT
    ensures size >= 8 ==> Pow2(SizeClassIndex(size) + 3) <= size < Pow2(SizeClassIndex(size) + 4)
    ensures size < 16 ==> SizeClassIndex(size) == 0
  {
    Pow2Constants();
    Log2Below(size / 8, SCANNED_BITS);
    if size >= 8 {
      Log2Bounds(size / 8);
      Pow2Add(Log2(size / 8), 3);
      Pow2Add(Log2(size / 8) + 1, 3);
    }
  }

  /** Only sizes with bit 63 set reach index 60, one past the last bucket. */
  lemma {:induction false} SizeClassInRange(size: Word)
    ensures SizeClassIndex(size) < SIZE_CLASS_COUNT <==> size < 0x8000_0000_0000_0000
  {
    Pow2Constants();
    if size < 0x8000_0000_0000_0000 {
      Log2Below(size / 8, 60);
    } else {
      Log2Monotone(0x1000_0000_0000_0000, size / 8);
      ExactLog2(60);
    }
  }

  lemma {:induction false} ExactLog2(n: nat)
    ensures Log2(Pow2(n)) == n
  {
    if n > 0 {
      ExactLog2(n - 1);
      assert Pow2(n) / 2 == Pow2(n - 1);
    }
  }

  /** The class index never decreases as the size grows. */
  lemma {:induction false} SizeClassMonotone(s1: Word, s2: Word)
    requires s1 <= s2
    ensures SizeClassIndex(s1) <= SizeClassIndex(s2)
  {
    Log2Monotone(s1 / 8, s2 / 8);
  }

  /** Every size filed in a strictly higher class is strictly larger. */
  lemma {:induction false} HigherClassIsLarger(s1: Word, s2: Word)
    requires SizeClassIndex(s1) < SizeClassIndex(s2)
    ensures s1 < s2
  {
    if s2 <= s1 {
      SizeClassMonotone(s2, s1);
    }
  }
}
