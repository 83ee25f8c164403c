/** Distributions map an item and its metadata to a number in a declared range. */
module Distributions {
  import opened Arithmetic
  import opened Powers
  import opened Results

  const MASK32: bv64 := 0x00000000FFFFFFFF
  const MASK16: bv64 := 0x0000FFFF0000FFFF
  const MASK8: bv64 := 0x00FF00FF00FF00FF
  const MASK4: bv64 := 0x0F0F0F0F0F0F0F0F
  const MASK2: bv64 := 0x3333333333333333
  const MASK1: bv64 := 0x5555555555555555

  /** The number of zero bits below the lowest one bit; 64 when there is none. */
  function TrailingZeros(n: bv64): nat
    decreases n
  {
    if n == 0 then 64
    else if n & 1 == 1 then 0
    else
      assert n >> 1 < n;
      1 + TrailingZeros(n >> 1)
  }

  /** The number that a word spells in binary. */
  function ValueOf(n: bv64): nat
    decreases n
  {
    if n == 0 then 0
    else
      assert n >> 1 < n;
      2 * ValueOf(n >> 1) + if n & 1 == 1 then 1 else 0
  }

  lemma {:induction false} PositiveValue(n: bv64)
    ensures n != 0 ==> ValueOf(n) > 0
    decreases n
  {
    if n != 0 && n & 1 == 0 {
      assert n >> 1 != 0 && n >> 1 < n;
      PositiveValue(n >> 1);
    }
  }

  lemma ValueStep(n: bv64)
    ensures n & 1 == 0 || n & 1 == 1
    ensures ValueOf(n) == 2 * ValueOf(n >> 1) + if n & 1 == 1 then 1 else 0
    ensures n != 0 ==> ValueOf(n) > ValueOf(n >> 1)
  {
    PositiveValue(n);
  }

  lemma ValueOfZero()
    ensures ValueOf(0) == 0
  {
  }

  lemma NextOfEven(n: bv64)
    requires n & 1 == 0
    ensures (n + 1) >> 1 == n >> 1 && (n + 1) & 1 == 1
  {
  }

  lemma NextOfOdd(n: bv64)
    requires n & 1 == 1 && n + 1 != 0
    ensures (n + 1) >> 1 == (n >> 1) + 1 && (n + 1) & 1 == 0 && (n >> 1) + 1 != 0 && n != 0
  {
  }

  /** Counting up from 0, which leaves no choice for the value of any word. */
  lemma {:induction false} ValuesCountUp(n: bv64)
    ensures if n + 1 == 0 then ValueOf(n + 1) == 0 else ValueOf(n + 1) == ValueOf(n) + 1
    decreases ValueOf(n)
  {
    hide *;
    if n + 1 == 0 {
      ValueOfZero();
    } else {
      ValueStep(n);
      ValueStep(n + 1);
      if n & 1 == 0 {
        NextOfEven(n);
      } else {
        NextOfOdd(n);
        ValuesCountUp(n >> 1);
      }
    }
  }

  lemma DoubledQuotient(x: nat, p: nat)
    requires p >= 1
    ensures 2 * x % (2 * p) == 2 * (x % p) && 2 * x / (2 * p) == x / p
  {
    QuotientBounds(x, p);
    Distribute(2, p * (x / p), x % p);
    ModUnique(2 * x, 2 * p, x / p, 2 * (x % p));
  }

  lemma OddQuotient(x: nat, p: nat)
    requires p >= 1
    ensures (2 * x + 1) % (2 * p) != 0
  {
    QuotientBounds(x, p);
    Distribute(2, p * (x / p), x % p);
    ModUnique(2 * x + 1, 2 * p, x / p, 2 * (x % p) + 1);
  }

  /** 2^c divides x, with an odd quotient. */
  ghost predicate DividesOnce(c: nat, x: nat) {
    x % Pow2(c) == 0 && x / Pow2(c) % 2 == 1
  }

  lemma OddDividedOnce(c: nat, half: nat)
    ensures DividesOnce(c, 2 * half + 1) <==> c == 0
  {
    if c > 0 {
      OddQuotient(half, Pow2(c - 1));
    }
  }

  lemma EvenDividedOnce(c: nat, half: nat)
    ensures DividesOnce(c, 2 * half) <==> c > 0 && DividesOnce(c - 1, half)
  {
    if c > 0 {
      DoubledQuotient(half, Pow2(c - 1));
    }
  }

  /** For a word other than 0 there is just one such exponent. */
  lemma {:induction false} TrailingZerosDivide(n: bv64, c: nat)
    requires n != 0
    ensures c == TrailingZeros(n) <==> DividesOnce(c, ValueOf(n))
    decreases n
  {
    hide DividesOnce;
    if n & 1 == 1 {
      OddDividedOnce(c, ValueOf(n >> 1));
    } else {
      EvenDividedOnce(c, ValueOf(n >> 1));
      assert n >> 1 < n && n >> 1 != 0;
      if c > 0 {
        TrailingZerosDivide(n >> 1, c - 1);
      }
    }
  }

  lemma EvenDividedBy(c: nat, half: nat)
    ensures 2 * half % Pow2(c) == 0 <==> c == 0 || half % Pow2(c - 1) == 0
  {
    if c > 0 {
      DoubledQuotient(half, Pow2(c - 1));
    }
  }

  lemma OddDividedBy(c: nat, half: nat)
    ensures (2 * half + 1) % Pow2(c) == 0 <==> c == 0
  {
    if c > 0 {
      OddQuotient(half, Pow2(c - 1));
    }
  }

  /** All smaller powers of two divide the number as well, and no larger one does. */
  lemma {:induction false} TrailingZerosAtLeast(n: bv64, c: nat)
    requires n != 0
    ensures TrailingZeros(n) >= c <==> ValueOf(n) % Pow2(c) == 0
    decreases n
  {
    hide Pow2;
    if n & 1 == 1 {
      OddDividedBy(c, ValueOf(n >> 1));
    } else {
      EvenDividedBy(c, ValueOf(n >> 1));
      assert n >> 1 < n && n >> 1 != 0;
      if c > 0 {
        TrailingZerosAtLeast(n >> 1, c - 1);
      }
    }
  }

  lemma ZerosOfZero()
    ensures TrailingZeros(0) == 64
  {
  }

  /** w is the lowest one bit of n. */
  predicate IsLowestBit(n: bv64, w: bv64) {
    w != 0 && w & (w - 1) == 0 && n & w == w && n & (w - 1) == 0
  }

  lemma LowestBitHalves(n: bv64, w: bv64)
    requires IsLowestBit(n, w) && w & 1 == 0
    ensures n & 1 == 0 && n != 0 && n >> 1 != 0 && n >> 1 < n
    ensures w >> 1 != 0 && IsLowestBit(n >> 1, w >> 1)
  {
  }

  lemma LowestBitIsOne(n: bv64, w: bv64)
    requires IsLowestBit(n, w) && w & 1 == 1
    ensures n & 1 == 1 && w == 1
  {
  }

  /** What the six mask tests add up to: each mask that misses the bit leaves its weight in the count. */
  function MaskCount(w: bv64): nat {
    (if w & MASK32 == 0 then 32 else 0) + (if w & MASK16 == 0 then 16 else 0)
    + (if w & MASK8 == 0 then 8 else 0) + (if w & MASK4 == 0 then 4 else 0)
    + (if w & MASK2 == 0 then 2 else 0) + (if w & MASK1 == 0 then 1 else 0)
  }

  lemma MaskCountStep(w: bv64)
    requires IsLowestBit(w, w) && w & 1 == 0
    ensures MaskCount(w) == 1 + MaskCount(w >> 1)
  {
  }

  lemma {:induction false} MaskCountCorrect(n: bv64, w: bv64)
    requires IsLowestBit(n, w)
    ensures TrailingZeros(n) == MaskCount(w) < 64
    decreases n
  {
    if w & 1 == 1 {
      LowestBitIsOne(n, w);
    } else {
      LowestBitHalves(n, w);
      MaskCountCorrect(n >> 1, w >> 1);
      LowestBitHalves(w, w);
      MaskCountStep(w);
    }
  }

  lemma LowestBitOf(n: bv64)
    requires n != 0
    ensures IsLowestBit(n, n & (!n + 1))
  {
  }

  lemma LowestBitCount(n: bv64)
    requires n != 0
    ensures TrailingZeros(n) == MaskCount(n & (!n + 1)) < 64
  {
    LowestBitOf(n);
    MaskCountCorrect(n, n & (!n + 1));
  }

  /** The six mask tests of CountTrailingZeros. */
  method WeighLowestBit(n: bv64) returns (c: int)
    ensures c == MaskCount(n)
  {
    c := 63;
    if n & MASK32 != 0 { c := c - 32; }
    if n & MASK16 != 0 { c := c - 16; }
    if n & MASK8 != 0 { c := c - 8; }
    if n & MASK4 != 0 { c := c - 4; }
    if n & MASK2 != 0 { c := c - 2; }
    if n & MASK1 != 0 { c := c - 1; }
  }

  method CountTrailingZeros(n: bv64) returns (c: int)
    ensures c == TrailingZeros(n)
    ensures 0 <= c <= 64 && (c == 64 <==> n == 0)
  {
    if n == 0 {
      return 64;
    }
    c := WeighLowestBit(n & (!n + 1));
    LowestBitCount(n);
  }

  type Metadata = map<string, int>

  /** The floating-point formula of an exponential distribution is kept as an arbitrary function. */
  datatype Distribution =
    | Oracle(min: int, max: int, feature: string)
    | Uniform(min: int, max: int, fingerprint: string -> bv64)
    | Geometric(min: int, max: int, fingerprint: string -> bv64)
    | Exponential(min: int, max: int, fingerprint: string -> bv64, value: bv64 -> int)
  {
    function Size(): int {
      max - min + 1
    }

    function ApplyInternal(item: string, metadata: Metadata): Result<int> {
      match this
      case Oracle(_, _, feature) =>
        if feature in metadata then Success(metadata[feature]) else Failure(InvalidArgument)
      case Uniform(_, _, fingerprint) =>
        // A remainder by a size of zero, or by a negative one taken as a 64-bit word, is not modelled.
        if Size() <= 0 then Failure(UndefinedBehavior)
        else Success(ValueOf(fingerprint(item)) % Size() + min)
      case Geometric(_, _, fingerprint) =>
        var value := min + TrailingZeros(fingerprint(item));
        Success(if max <= value then max else value)
      case Exponential(_, _, fingerprint, value) =>
        Success(value(fingerprint(item)))
    }

    function Apply(item: string, metadata: Metadata): (r: Result<int>)
      ensures r.Success? ==> min <= r.value <= max
    {
      match ApplyInternal(item, metadata)
      case Failure(e) => Failure(e)
      case Success(value) =>
        if value < min then Failure(InvalidArgument)
        else if value > max then Failure(InvalidArgument)
        else Success(value)
    }
  }

  /** Hashed distributions never trip their own range check, on any item, unless the range is empty. */
  lemma HashedApplyNeverFails(d: Distribution, item: string, metadata: Metadata)
    requires d.Geometric? || d.Uniform?
    ensures d.Apply(item, metadata).Success? <==> d.min <= d.max
  {
  }

  /** A geometric value reaches past max only by saturating there; min means an odd fingerprint. */
  lemma GeometricValue(d: Distribution, item: string, metadata: Metadata)
    requires d.Geometric? && d.min < d.max
    ensures d.Apply(item, metadata).Success?
    ensures var v := d.Apply(item, metadata).value;
            && (v == d.min <==> d.fingerprint(item) & 1 == 1)
            && (v == d.max <==> TrailingZeros(d.fingerprint(item)) >= d.max - d.min)
  {
  }

  // Which value an item gets, from the number that its fingerprint spells.

  /** The offset from the minimum is the remainder by the number of values. */
  lemma UniformApply(d: Distribution, item: string, metadata: Metadata, v: int)
    requires d.Uniform?
    ensures d.Apply(item, metadata) == Success(v)
       <==> d.min <= v <= d.max && (ValueOf(d.fingerprint(item)) - (v - d.min)) % (d.max - d.min + 1) == 0
    ensures d.Apply(item, metadata).Failure? ==>
              d.Apply(item, metadata) == Failure(UndefinedBehavior) && d.max < d.min
  {
    hide ValueOf;
    if d.min <= d.max {
      var x, k := ValueOf(d.fingerprint(item)), d.max - d.min + 1;
      assert d.Apply(item, metadata) == Success(x % k + d.min);
      if d.min <= v <= d.max {
        RemainderIs(x, k, v - d.min);
      }
    }
  }

  /** The offset from the minimum is the exponent of 2 in the fingerprint, or 64 for 0, up to the maximum. */
  lemma GeometricApply(d: Distribution, item: string, metadata: Metadata, v: int)
    requires d.Geometric?
    ensures var n := d.fingerprint(item);
            d.Apply(item, metadata) == Success(v)
            <==> && d.min <= v <= d.max
                 && if v == d.max then
                      if n == 0 then d.min + 64 >= d.max else ValueOf(n) % Pow2(d.max - d.min) == 0
                    else
                      if n == 0 then v == d.min + 64 else DividesOnce(v - d.min, ValueOf(n))
    ensures d.Apply(item, metadata).Failure? ==> d.Apply(item, metadata) == Failure(InvalidArgument) && d.max < d.min
  {
    hide DividesOnce, ValueOf, Pow2, TrailingZeros;
    var n := d.fingerprint(item);
    ZerosOfZero();
    if d.min <= v <= d.max && n != 0 {
      TrailingZerosDivide(n, v - d.min);
      TrailingZerosAtLeast(n, d.max - d.min);
    }
  }

  /** The value is that of the feature in the metadata; without it, or out of range, there is none. */
  lemma OracleApply(d: Distribution, item: string, metadata: Metadata, v: int)
    requires d.Oracle?
    ensures d.Apply(item, metadata) == Success(v)
       <==> d.feature in metadata && metadata[d.feature] == v && d.min <= v <= d.max
    ensures d.Apply(item, metadata).Failure? ==> d.Apply(item, metadata) == Failure(InvalidArgument)
  {
  }

  /** The formula's value, where it is in range. */
  lemma ExponentialApply(d: Distribution, item: string, metadata: Metadata, v: int)
    requires d.Exponential?
    ensures d.Apply(item, metadata) == Success(v) <==> d.value(d.fingerprint(item)) == v && d.min <= v <= d.max
    ensures d.Apply(item, metadata).Failure? ==> d.Apply(item, metadata) == Failure(InvalidArgument)
  {
  }
}
