/** Random numbers below a bound, without favouring any of them. */
module RandUtil {
  import opened Wrappers

  const UINT64_MAX := 0xFFFF_FFFF_FFFF_FFFF
  const TWO_64 := 0x1_0000_0000_0000_0000

  type Word = n: int | 0 <= n <= UINT64_MAX

  /** How many of the random words are accepted. */
  function Accepted(range: Word): nat
    requires range > 0
  {
    UINT64_MAX / range * range
  }

  /** How many of the words below `n` leave the residue `r`. */
  function Count(n: nat, range: nat, r: nat): nat
    requires range > 0
  {
    if n == 0 then 0 else Count(n - 1, range, r) + if (n - 1) % range == r then 1 else 0
  }

  lemma AtLeastOnce(times: nat, range: nat)
    requires times > 0
    ensures times * range >= range
  {
    assert times * range == (times - 1) * range + range;
  }

  /** Quotient and remainder are unique. */
  lemma Unique(a: nat, x: nat, b: nat, y: nat, range: nat)
    requires a * range + x == b * range + y && x < range && y < range
    ensures x == y
  {
    if a > b {
      assert a * range == (a - b) * range + b * range;
      AtLeastOnce(a - b, range);
    } else if a < b {
      assert b * range == (b - a) * range + a * range;
      AtLeastOnce(b - a, range);
    }
  }

  lemma ModOf(q: nat, range: nat, k: nat)
    requires k < range
    ensures (q * range + k) % range == k
  {
    var n := q * range + k;
    Unique(n / range, n % range, q, k, range);
  }

  lemma {:induction false} CountPartial(q: nat, range: nat, k: nat, r: nat)
    requires r < range && k <= range
    ensures Count(q * range + k, range, r) == Count(q * range, range, r) + if r < k then 1 else 0
    decreases k
  {
    if k > 0 {
      CountPartial(q, range, k - 1, r);
      ModOf(q, range, k - 1);
      assert q * range + k - 1 == q * range + (k - 1);
    }
  }

  lemma {:induction false} CountWhole(q: nat, range: nat, r: nat)
    requires r < range
    ensures Count(q * range, range, r) == q
    decreases q
  {
    if q > 0 {
      CountWhole(q - 1, range, r);
      CountPartial(q - 1, range, range, r);
      assert (q - 1) * range + range == q * range;
    }
  }

  /** Among the accepted words every residue occurs equally often. */
  lemma Uniform(range: Word, r: nat)
    requires 0 < range && r < range
    ensures Count(Accepted(range), range, r) == UINT64_MAX / range
  {
    CountWhole(UINT64_MAX / range, range, r);
  }

  /** At least half of all words are accepted, and more than half unless the range is 2 to the 63. */
  lemma HalfAccepted(range: Word)
    requires range > 0
    ensures TWO_64 <= 2 * Accepted(range) <= 2 * UINT64_MAX
    ensures 2 * Accepted(range) > TWO_64 <==> range != 0x8000_0000_0000_0000
  {
    var q, rest := UINT64_MAX / range, UINT64_MAX % range;
    assert UINT64_MAX == q * range + rest;
    if range >= 0x8000_0000_0000_0000 {
      assert q == 1;
    } else {
      assert q >= 2;
      assert q * range == (q - 2) * range + 2 * range;
    }
  }

  /** Draws until a word is accepted.  The draws are given as a list, which may run out. */
  method RandGenerator(range: Word, draws: seq<Word>) returns (value: Option<Word>, used: nat)
    requires range > 0
    ensures used <= |draws|
    ensures value.None? ==> used == |draws| && forall k :: 0 <= k < |draws| ==> draws[k] >= Accepted(range)
    ensures value.Some? ==> used > 0 && value.value == draws[used - 1] % range < range
    ensures value.Some? ==> draws[used - 1] < Accepted(range)
    ensures value.Some? ==> forall k :: 0 <= k < used - 1 ==> draws[k] >= Accepted(range)
  {
    HalfAccepted(range);
    var maxAcceptableValue: Word := UINT64_MAX / range * range - 1;
    used := 0;
    while used < |draws|
      invariant used <= |draws| && forall k :: 0 <= k < used ==> draws[k] >= Accepted(range)
    {
      var drawn := draws[used];
      used := used + 1;
      if drawn <= maxAcceptableValue {
        return Some(drawn % range), used;
      }
    }
    return None, used;
  }

  // ----- integers between two bounds -----

  type Int32 = n: int | -0x8000_0000 <= n <= 0x7FFF_FFFF

  /** `static_cast<uint64_t>`. */
  function ToUint64(n: int): Word {
    n % TWO_64
  }

  /** The range as it is computed, in wrapping 64-bit arithmetic. */
  function IntRange(min: Int32, max: Int32): Word {
    ToUint64(ToUint64(ToUint64(max) - ToUint64(min)) + 1)
  }

  /** It never wraps. */
  lemma RangeIsExact(min: Int32, max: Int32)
    requires min <= max
    ensures IntRange(min, max) == max - min + 1
  {
    if min < 0 {
      assert ToUint64(min) == min + TWO_64;
    }
    if max < 0 {
      assert ToUint64(max) == max + TWO_64;
    }
  }

  /** Every integer between the bounds comes from a residue, and as often as any other. */
  lemma ResiduesCover(min: Int32, max: Int32, n: int)
    requires min <= n <= max
    ensures 0 <= n - min < IntRange(min, max)
    ensures Count(Accepted(IntRange(min, max)), IntRange(min, max), n - min) == UINT64_MAX / (max - min + 1)
  {
    RangeIsExact(min, max);
    Uniform(IntRange(min, max), n - min);
  }

  /** The first accepted draw decides, and its residue is what is added to the lower bound. */
  method RandInt(min: Int32, max: Int32, draws: seq<Word>) returns (result: Option<Int32>, used: nat)
    requires min <= max
    ensures used <= |draws|
    ensures result.Some? ==> used > 0 && result.value == min + draws[used - 1] % (max - min + 1) <= max
    ensures result.Some? ==> draws[used - 1] < Accepted(IntRange(min, max))
    ensures result.Some? ==> forall k :: 0 <= k < used - 1 ==> draws[k] >= Accepted(IntRange(min, max))
    ensures result.None? ==> used == |draws| && forall k :: 0 <= k < |draws| ==> draws[k] >= Accepted(IntRange(min, max))
  {
    RangeIsExact(min, max);
    var range := IntRange(min, max);
    var value;
    value, used := RandGenerator(range, draws);
    result := if value.None? then None else Some(min + value.value);
  }
}
