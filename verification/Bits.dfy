/** Rounding to multiples of powers of two, and the position of the highest bit.

    The source adds and masks.  `Align4` and its siblings round without bits, which is easier to
    compute with; `AlignIsRounding` says that they are what the masks do. */
module Bits {
  import opened Wrappers

  const TWO_64 := 0x1_0000_0000_0000_0000

  function Align4(n: nat): (r: nat)
    ensures n <= r < n + 4
  {
    if n == 0 then 0 else if n < 4 then 4 else 4 + Align4(n - 4)
  }

  lemma {:induction false} Align4Rounds(n: nat)
    ensures Align4(n) % 4 == 0
  {
    if n >= 4 {
      Align4Rounds(n - 4);
    }
  }

  function Align64(n: nat): (r: nat)
    ensures r % 64 == 0 && n <= r < n + 64
  {
    (n + 63) / 64 * 64
  }

  function Align4096(n: nat): (r: nat)
    ensures r % 4096 == 0 && n <= r < n + 4096
  {
    (n + 4095) / 4096 * 4096
  }

  // ----- masking -----

  function Pow2(k: nat): (r: nat)
    ensures r > 0
  {
    if k == 0 then 1 else 2 * Pow2(k - 1)
  }

  /** `x & y`, bit by bit. */
  function And(x: nat, y: nat): nat
    decreases x
  {
    if x == 0 || y == 0 then 0 else 2 * And(x / 2, y / 2) + if x % 2 == 1 && y % 2 == 1 then 1 else 0
  }

  /** `~m` in a 64-bit word. */
  function Not(m: nat): nat
    requires m < TWO_64
  {
    TWO_64 - 1 - m
  }

  /** Exactly the powers of two have no bit in common with the number before them. */
  predicate IsPowerOfTwo(value: nat) {
    value > 0 && And(value, value - 1) == 0
  }

  lemma {:induction false} AndSame(x: nat)
    ensures And(x, x) == x
  {
    if x > 0 {
      AndSame(x / 2);
    }
  }

  ghost predicate IsPower(value: nat) {
    exists k: nat :: value == Pow2(k)
  }

  lemma HalfOfPower(value: nat)
    requires value > 0
    ensures IsPower(value) <==> if value % 2 == 1 then value == 1 else IsPower(value / 2)
  {
    if k: nat :| value == Pow2(k) {
      if k > 0 {
        assert value / 2 == Pow2(k - 1);
      }
    }
    if k: nat :| value == 2 * Pow2(k) {
      assert value == Pow2(k + 1) && value / 2 == Pow2(k);
    }
    assert Pow2(0) == 1;
  }

  lemma {:induction false} PowersHaveOneBit(value: nat)
    ensures IsPowerOfTwo(value) <==> IsPower(value)
  {
    if value > 0 {
      HalfOfPower(value);
      if value % 2 == 1 {
        AndSame(value / 2);
      } else {
        PowersHaveOneBit(value / 2);
        assert (value - 1) / 2 == value / 2 - 1;
      }
    }
  }

  /** `x` with its lowest `k` bits cleared. */
  function Floor(x: nat, k: nat): nat
    decreases k
  {
    if k == 0 then x else 2 * Floor(x / 2, k - 1)
  }

  predicate IsMultiple(x: nat, k: nat)
    decreases k
  {
    k == 0 || (x % 2 == 0 && IsMultiple(x / 2, k - 1))
  }

  lemma {:induction false} FloorFits(x: nat, k: nat)
    ensures Floor(x, k) <= x < Floor(x, k) + Pow2(k) && IsMultiple(Floor(x, k), k)
    decreases k
  {
    if k > 0 {
      FloorFits(x / 2, k - 1);
    }
  }

  lemma {:induction false} MultiplesApart(x: nat, y: nat, k: nat)
    requires IsMultiple(x, k) && IsMultiple(y, k) && x < y
    ensures x + Pow2(k) <= y
    decreases k
  {
    if k > 0 {
      MultiplesApart(x / 2, y / 2, k - 1);
    }
  }

  /** Masking with ones from bit `k` up to bit `n` clears the bits below. */
  lemma {:induction false} MaskClears(x: nat, n: nat, k: nat)
    requires k <= n && x < Pow2(n)
    ensures Pow2(k) <= Pow2(n) && And(x, Pow2(n) - Pow2(k)) == Floor(x, k)
    decreases n
  {
    if n > 0 {
      if k == 0 {
        MaskClears(x / 2, n - 1, 0);
        assert (Pow2(n) - 1) / 2 == Pow2(n - 1) - 1;
      } else {
        MaskClears(x / 2, n - 1, k - 1);
        assert (Pow2(n) - Pow2(k)) / 2 == Pow2(n - 1) - Pow2(k - 1);
      }
    }
  }

  /** `bits::Align` and `bits::AlignDown` as they are written, in wrapping 64-bit arithmetic. */
  function Align(size: nat, alignment: nat): nat
    requires 0 < alignment <= TWO_64
  {
    And((size + alignment - 1) % TWO_64, Not(alignment - 1))
  }

  function AlignDown(size: nat, alignment: nat): nat
    requires 0 < alignment <= TWO_64
  {
    And(size, Not(alignment - 1))
  }

  lemma {:induction false} PowersGrow(j: nat, k: nat)
    requires j < k
    ensures 2 * Pow2(j) <= Pow2(k)
    decreases k
  {
    if j + 1 < k {
      PowersGrow(j, k - 1);
    }
  }

  lemma EightMore(k: nat)
    ensures Pow2(k + 8) == 256 * Pow2(k)
  {
    assert Pow2(k + 2) == 4 * Pow2(k);
    assert Pow2(k + 4) == 4 * Pow2(k + 2);
    assert Pow2(k + 6) == 4 * Pow2(k + 4);
  }

  lemma ThirtyTwoMore(k: nat)
    ensures Pow2(k + 32) == 0x1_0000_0000 * Pow2(k)
  {
    EightMore(k);
    EightMore(k + 8);
    EightMore(k + 16);
    EightMore(k + 24);
  }

  lemma Pow2Of64(n: nat)
    requires n == 64
    ensures Pow2(n) == TWO_64
  {
    ThirtyTwoMore(n - 32);
    ThirtyTwoMore(n - 64);
  }

  lemma WordLimit(k: nat)
    requires k <= 63
    ensures Pow2(64) == TWO_64 && 2 * Pow2(k) <= TWO_64
  {
    Pow2Of64(64);
    PowersGrow(k, 64);
  }

  /** In a 64-bit word, masking is clearing. */
  lemma MaskIsFloor(x: nat, k: nat)
    requires x < TWO_64 && k <= 63
    ensures 0 < 2 * Pow2(k) <= TWO_64 && And(x, Not(Pow2(k) - 1)) == Floor(x, k)
  {
    WordLimit(k);
    MaskClears(x, 64, k);
  }

  /** Aligning down gives the largest multiple up to the size. */
  lemma AlignDownFits(size: nat, k: nat, m: nat)
    requires size < TWO_64 && k <= 63 && IsMultiple(m, k) && m <= size
    ensures 0 < Pow2(k) <= TWO_64
    ensures var r := AlignDown(size, Pow2(k)); IsMultiple(r, k) && m <= r <= size
  {
    MaskIsFloor(size, k);
    FloorFits(size, k);
    if Floor(size, k) < m {
      MultiplesApart(Floor(size, k), m, k);
    }
  }

  lemma FloorIsLeast(size: nat, k: nat, m: nat)
    requires IsMultiple(m, k) && size <= m
    ensures size <= Floor(size + Pow2(k) - 1, k) <= m
  {
    var r := Floor(size + Pow2(k) - 1, k);
    FloorFits(size + Pow2(k) - 1, k);
    if m < r {
      MultiplesApart(m, r, k);
    }
  }

  /** The sum before masking, as a 64-bit word. */
  function Raised(size: nat, alignment: nat): (r: nat)
    requires size < TWO_64 && 0 < alignment <= TWO_64
    ensures r < TWO_64
  {
    if size + alignment - 1 < TWO_64 then size + alignment - 1 else size + alignment - 1 - TWO_64
  }

  lemma AlignIsMask(size: nat, alignment: nat)
    requires size < TWO_64 && 0 < alignment <= TWO_64
    ensures Align(size, alignment) == And(Raised(size, alignment), Not(alignment - 1))
  {
    assert (size + alignment - 1) % TWO_64 == Raised(size, alignment);
  }

  lemma AlignIsFloor(size: nat, k: nat, alignment: nat)
    requires size < TWO_64 && k <= 63 && alignment == Pow2(k) <= TWO_64
    ensures Align(size, alignment) == Floor(Raised(size, alignment), k)
  {
    AlignIsMask(size, alignment);
    MaskIsFloor(Raised(size, alignment), k);
  }

  /** Aligning gives the smallest multiple from the size on, exactly when the sum does not wrap. */
  lemma AlignFits(size: nat, k: nat, m: nat)
    requires size < TWO_64 && k <= 63 && IsMultiple(m, k) && size <= m
    ensures 0 < Pow2(k) <= TWO_64
    ensures var r := Align(size, Pow2(k));
            IsMultiple(r, k) && (size <= r <==> size + Pow2(k) - 1 < TWO_64) && (size <= r ==> r <= m)
  {
    WordLimit(k);
    AlignIsFloor(size, k, Pow2(k));
    FloorFits(Raised(size, Pow2(k)), k);
    if size + Pow2(k) - 1 < TWO_64 {
      FloorIsLeast(size, k, m);
    }
  }

  lemma {:induction false} TimesPower(q: nat, k: nat)
    ensures IsMultiple(q * Pow2(k), k)
    decreases k
  {
    if k > 0 {
      TimesPower(q, k - 1);
      TimesDouble(q, Pow2(k - 1));
    }
  }

  lemma TimesDouble(q: nat, p: nat)
    ensures q * (2 * p) == 2 * (q * p)
  {
  }

  /** A multiple of the alignment less than one alignment above the size is what aligning gives. */
  lemma AlignIs(size: nat, k: nat, q: nat)
    requires k <= 63 && size + Pow2(k) - 1 < TWO_64 && size <= q * Pow2(k) < size + Pow2(k)
    ensures 0 < Pow2(k) <= TWO_64 && Align(size, Pow2(k)) == q * Pow2(k)
  {
    TimesPower(q, k);
    AlignFits(size, k, q * Pow2(k));
    var r := Align(size, Pow2(k));
    if r < q * Pow2(k) {
      MultiplesApart(r, q * Pow2(k), k);
    }
  }

  lemma SmallPowers()
    ensures Pow2(2) == 4 && Pow2(6) == 64 && Pow2(12) == 4096
  {
    assert Pow2(4) == 4 * Pow2(2);
    assert Pow2(6) == 4 * Pow2(4);
    EightMore(4);
  }

  /** The three alignments that are used. */
  lemma AlignIsRounding(size: nat)
    ensures size <= TWO_64 - 4 ==> Align(size, 4) == Align4(size)
    ensures size <= TWO_64 - 64 ==> Align(size, 64) == Align64(size)
    ensures size <= TWO_64 - 4096 ==> Align(size, 4096) == Align4096(size)
  {
    SmallPowers();
    Align4Rounds(size);
    if size <= TWO_64 - 4 {
      AlignIs(size, 2, Align4(size) / 4);
    }
    if size <= TWO_64 - 64 {
      AlignIs(size, 6, Align64(size) / 64);
    }
    if size <= TWO_64 - 4096 {
      AlignIs(size, 12, Align4096(size) / 4096);
    }
  }

  // ----- the position of the highest bit -----

  /** What the processor's bit scan finds: the position of the highest bit that is set. */
  function BitScanReverse(n: nat): (index: Option<nat>)
    ensures index == None <==> n == 0
    ensures index.Some? ==> Pow2(index.value) <= n < Pow2(index.value + 1)
  {
    if n == 0 then None
    else if n == 1 then Some(0)
    else Some(BitScanReverse(n / 2).value + 1)
  }

  /** No other position has this property. */
  lemma HighestIsUnique(n: nat, j: nat, k: nat)
    requires Pow2(j) <= n < Pow2(j + 1) && Pow2(k) <= n < Pow2(k + 1)
    ensures j == k
  {
    if j < k {
      PowersGrow(j, k);
    } else if k < j {
      PowersGrow(k, j);
    }
  }

  function CountLeadingZeroBits32(x: nat): int {
    match BitScanReverse(x) case Some(index) => 31 - index case None => 32
  }

  /** On a 32-bit target the halves are scanned one after the other. */
  function CountLeadingZeroBits64(x: nat): int {
    match BitScanReverse(x / 0x1_0000_0000)
    case Some(index) => 31 - index
    case None => match BitScanReverse(x % 0x1_0000_0000) case Some(index) => 63 - index case None => 64
  }

  lemma HighHalf(x: nat, left: nat, k: nat)
    requires left == x / 0x1_0000_0000 && Pow2(k) <= left < Pow2(k + 1)
    ensures Pow2(k + 32) <= x < Pow2(k + 33)
  {
    ThirtyTwoMore(k);
    ThirtyTwoMore(k + 1);
  }

  /** Scanning the halves gives what scanning the whole would. */
  lemma SplitCounts(x: nat)
    requires x < 0x1_0000_0000_0000_0000
    ensures CountLeadingZeroBits64(x) == match BitScanReverse(x) case Some(index) => 63 - index case None => 64
  {
    var left := x / 0x1_0000_0000;
    if left > 0 {
      var k := BitScanReverse(left).value;
      HighHalf(x, left, k);
      HighestIsUnique(x, BitScanReverse(x).value, k + 32);
    } else {
      assert x % 0x1_0000_0000 == x;
    }
  }

  function Log2Floor(n: nat): int {
    31 - CountLeadingZeroBits32(n)
  }

  function WrappedMinusOne(n: nat): nat {
    if n == 0 then 0xFFFF_FFFF else n - 1
  }

  function Log2Ceiling(n: nat): int {
    (if n != 0 then 32 else -1) - CountLeadingZeroBits32(WrappedMinusOne(n))
  }

  lemma ScanFits(n: nat)
    requires 0 < n <= 0xFFFF_FFFF
    ensures BitScanReverse(n).value <= 31
  {
    var k := BitScanReverse(n).value;
    ThirtyTwoMore(0);
    if k > 32 {
      PowersGrow(32, k);
    }
  }

  /** The logarithm rounded down; that of zero is -1. */
  lemma Log2FloorIs(n: nat)
    requires n <= 0xFFFF_FFFF
    ensures var i := Log2Floor(n); if n == 0 then i == -1 else i >= 0 && Pow2(i) <= n < Pow2(i + 1)
  {
    if n > 0 {
      ScanFits(n);
    }
  }

  lemma AllOnes(n: nat, k: nat)
    requires k > 0 && n + 1 == Pow2(k)
    ensures BitScanReverse(n) == Some(k - 1)
  {
    HighestIsUnique(n, BitScanReverse(n).value, k - 1);
  }

  /** The logarithm rounded up; that of zero is -1, because there the subtraction wraps around. */
  lemma Log2CeilingIs(n: nat)
    requires n <= 0xFFFF_FFFF
    ensures var i := Log2Ceiling(n); if n == 0 then i == -1 else i >= 0 && n <= Pow2(i) && (i > 0 ==> Pow2(i - 1) < n)
  {
    if n == 0 {
      ThirtyTwoMore(0);
      AllOnes(WrappedMinusOne(n), 32);
    } else if n > 1 {
      ScanFits(n - 1);
    }
  }
}
