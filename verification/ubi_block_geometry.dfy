/**
 * Block geometry of a UBI block device (drivers/mtd/ubi/block.c, lines 105-107):
 * the block size is the lowest set bit of the LEB size, computed in C as
 * `leb_size & ~(leb_size - 1)` on a 32-bit `int`, and the block count is
 * `reserved_pebs * (leb_size / blksz)`.
 *
 * The bitwise operators are modelled on naturals: `BitAnd` is bitwise and,
 * `Complement32` is `~` on a 32-bit word read as unsigned.  As a C `int`,
 * `~(leb_size - 1)` is `-leb_size`, which is negative; but `leb_size - 1` is
 * non-negative, and the `&` keeps the sign bit of `leb_size`, which is 0, so
 * the signed and unsigned readings of the result agree.
 */
module UbiBlockGeometry {

  const INT_MAX: int := 0x7FFF_FFFF
  const WORD_BITS: nat := 32

  function Pow2(k: nat): (p: nat)
    ensures p >= 1
  {
    if k == 0 then 1 else 2 * Pow2(k - 1)
  }

  lemma {:induction false} Pow2Sum(a: nat, b: nat)
    ensures Pow2(a + b) == Pow2(a) * Pow2(b)
  {
    if a > 0 {
      Pow2Sum(a - 1, b);
    }
  }

  /** A 32-bit word holds the values below 2^32. */
  lemma WordLimit()
    ensures Pow2(WORD_BITS) == 0x1_0000_0000
  {
    assert Pow2(4) == 16;
    Pow2Sum(4, 4);
    Pow2Sum(8, 8);
    Pow2Sum(16, 16);
  }

  /** n is 1, 2, 4, 8, ... */
  predicate IsPow2(n: int)
    decreases if n < 0 then 0 else n
  {
    n == 1 || (n > 1 && n % 2 == 0 && IsPow2(n / 2))
  }

  /** Bitwise and of two naturals, bit by bit from the least significant. */
  function BitAnd(a: nat, b: nat): nat
  {
    if a == 0 || b == 0 then 0
    else 2 * BitAnd(a / 2, b / 2) + (if a % 2 == 1 && b % 2 == 1 then 1 else 0)
  }

  /**
   * `~y` on a 32-bit word, as the unsigned value of its bit pattern: a word
   * sharing no set bit with y whose bits together with y's fill all 32.
   */
  function Complement32(y: nat): (r: nat)
    requires y < Pow2(WORD_BITS)
    ensures r < Pow2(WORD_BITS)
    ensures BitAnd(y, r) == 0
    ensures r + y == Pow2(WORD_BITS) - 1
  {
    WordLimit();
    AndComplementIsZero(y, WORD_BITS);
    Pow2(WORD_BITS) - 1 - y
  }

  /** The largest power of two that divides n, defined by halving. */
  function LowBit(n: int): int
    requires 0 < n
  {
    if n % 2 == 1 then 1 else 2 * LowBit(n / 2)
  }

  /** n with every factor 2 removed. */
  function OddPart(n: int): int
    requires 0 < n
  {
    if n % 2 == 1 then n else OddPart(n / 2)
  }

  /** n splits into its lowest set bit, a power of two, times an odd factor. */
  lemma {:induction false} LowBitFactors(n: int)
    requires 0 < n
    ensures IsPow2(LowBit(n))
    ensures n == LowBit(n) * OddPart(n) && OddPart(n) % 2 == 1
  {
    if n % 2 == 0 {
      LowBitFactors(n / 2);
      assert IsPow2(2 * LowBit(n / 2));
    }
  }

  /** A power of two is its own lowest set bit. */
  lemma {:induction false} LowBitOfPow2(n: int)
    requires 0 < n
    ensures IsPow2(n) ==> LowBit(n) == n
  {
    if n > 1 && n % 2 == 0 {
      LowBitOfPow2(n / 2);
    }
  }

  /** A k-bit number and its k-bit complement share no set bit. */
  lemma {:induction false} AndComplementIsZero(y: nat, k: nat)
    requires y < Pow2(k)
    ensures BitAnd(y, Pow2(k) - 1 - y) == 0
  {
    if k > 0 && y > 0 {
      var m := Pow2(k) - 1 - y;
      assert m / 2 == Pow2(k - 1) - 1 - y / 2;
      AndComplementIsZero(y / 2, k - 1);
    }
  }

  /** `n & ~(n - 1)` in k bits is the lowest set bit of n. */
  lemma {:induction false} AndNotPredIsLowBit(n: int, k: nat)
    requires 0 < n < Pow2(k)
    ensures BitAnd(n, Pow2(k) - 1 - (n - 1)) == LowBit(n)
  {
    var m := Pow2(k) - 1 - (n - 1);
    assert k > 0;
    if n % 2 == 1 {
      assert m / 2 == Pow2(k - 1) - 1 - n / 2;
      AndComplementIsZero(n / 2, k - 1);
    } else {
      assert m / 2 == Pow2(k - 1) - 1 - (n / 2 - 1);
      AndNotPredIsLowBit(n / 2, k - 1);
    }
  }

  /** Euclidean division by b undoes multiplication by b. */
  lemma DividesExactly(n: int, b: int, q: int)
    requires 0 < b && n == b * q
    ensures n % b == 0 && n / b == q
  {
    var d, r := n / b, n % b;
    assert b * (q - d) == r by {
      assert n == d * b + r;
      assert b * q - b * d == b * (q - d);
    }
    OnlyZeroBelow(b, q - d);
  }

  /** The only multiple of b in [0, b) is b * 0. */
  lemma OnlyZeroBelow(b: int, x: int)
    requires 0 < b && 0 <= b * x < b
    ensures x == 0
  {
  }

  /**
   * The block size of a volume whose LEB size is lebSize: a power of two that
   * divides lebSize with an odd quotient (so the largest such power), and
   * lebSize itself when lebSize is a power of two.
   */
  function BlockSize(lebSize: int): (blksz: int)
    requires 0 < lebSize <= INT_MAX
    ensures blksz == LowBit(lebSize)
    ensures IsPow2(blksz) && lebSize % blksz == 0 && (lebSize / blksz) % 2 == 1
    ensures IsPow2(lebSize) ==> blksz == lebSize
  {
    WordLimit();
    AndNotPredIsLowBit(lebSize, WORD_BITS);
    LowBitFactors(lebSize);
    DividesExactly(lebSize, LowBit(lebSize), OddPart(lebSize));
    LowBitOfPow2(lebSize);
    BitAnd(lebSize, Complement32(lebSize - 1))
  }

  /**
   * The number of blocks of a volume: exactly the bytes of its reserved LEBs,
   * so no partial LEB is addressable.
   */
  function BlockCount(reservedPebs: int, lebSize: int): (size: int)
    requires 0 < lebSize <= INT_MAX
    ensures size * BlockSize(lebSize) == reservedPebs * lebSize
    ensures IsPow2(lebSize) ==> size == reservedPebs
  {
    var blksz := BlockSize(lebSize);
    var q := lebSize / blksz;
    ScaledQuotient(reservedPebs, lebSize, blksz);
    reservedPebs * q
  }

  lemma ScaledQuotient(r: int, n: int, b: int)
    requires 0 < b && n % b == 0
    ensures r * (n / b) * b == r * n
    ensures n == b ==> r * (n / b) == r
  {
    var q := n / b;
    assert n == q * b;
    assert r * q * b == r * (q * b);
    if n == b {
      DividesExactly(n, b, 1);
    }
  }
}
