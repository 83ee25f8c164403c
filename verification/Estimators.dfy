/** Inverting a monotone counting function, as the cardinality estimators do. */
module Estimators {
  import opened Powers
  import opened Words

  function Wrap(x: int): (r: nat)
    ensures r < WORD
    ensures 0 <= x < WORD ==> r == x
  {
    x % WORD
  }

  /** (right + left) / 2 on 64-bit words; it can only go wrong on left == right == 2^63. */
  function MidPoint(left: nat, right: nat): (mid: nat)
    requires left <= HALF_WORD && right <= HALF_WORD
    ensures mid == if left + right == WORD then 0 else (right + left) / 2
  {
    Wrap(right + left) / 2
  }

  ghost predicate Monotonic(f: nat -> nat) {
    forall x: nat, y: nat :: x <= y ==> f(x) <= f(y)
  }

  /** The greatest argument in [0, bound] whose value does not exceed the target. */
  ghost function Inverse(f: nat -> nat, target: nat, bound: nat): (b: nat)
    requires Monotonic(f) && f(0) <= target
    ensures b <= bound
    ensures forall x: nat :: x <= bound ==> (f(x) <= target <==> x <= b)
  {
    if f(bound) <= target then bound else Inverse(f, target, bound - 1)
  }

  /** Where the binary search on left, ..., right ends when b is the true inverse. */
  ghost function Narrow(left: int, right: int, b: int): int
    decreases right - left + 1
  {
    if right <= left then right
    else
      var mid := (right + left) / 2;
      if mid > b then Narrow(left, mid - 1, b) else Narrow(mid + 1, right, b)
  }

  /** The number of calls of the function made by that search. */
  ghost function Probes(left: int, right: int, b: int): nat
    decreases right - left + 1
  {
    if right <= left then 0
    else
      var mid := (right + left) / 2;
      1 + if mid > b then Probes(left, mid - 1, b) else Probes(mid + 1, right, b)
  }

  lemma {:induction false} ProbesBound(left: int, right: int, b: int, j: nat)
    requires right < left + Pow2(j)
    ensures Probes(left, right, b) <= j
    decreases j
  {
    if right > left {
      var mid := (right + left) / 2;
      assert j > 0;
      if mid > b {
        ProbesBound(left, mid - 1, b, j - 1);
      } else {
        ProbesBound(mid + 1, right, b, j - 1);
      }
    }
  }

  /** The first probe of a search interval, and what is left of it. */
  lemma NarrowSplit(left: int, right: int, mid: int, b: int)
    requires left < right && right + left - 1 <= 2 * mid <= right + left
    ensures Narrow(left, right, b) == if mid > b then Narrow(left, mid - 1, b) else Narrow(mid + 1, right, b)
    ensures Probes(left, right, b) == 1 + if mid > b then Probes(left, mid - 1, b) else Probes(mid + 1, right, b)
  {
  }

  /** Where a search of n - 1 candidates from l ends, for n a power of two: even offsets are never probed. */
  predicate PerfectMiss(n: int, offset: int) {
    offset < n - 1 && offset % 2 == 0
  }

  lemma SameParity(x: int, even: int)
    requires even % 2 == 0
    ensures (x - even) % 2 == x % 2
    ensures x % 2 == 0 ==> x != even - 1 && x != 2 * even - 3 && x != 2 * even - 1
  {
  }

  lemma PerfectMissSplits(half: int, offset: int)
    requires half % 2 == 0 && 0 <= offset <= 2 * half - 1
    ensures PerfectMiss(2 * half, offset)
       <==> if offset < half then PerfectMiss(half, offset) else PerfectMiss(half, offset - half)
  {
    SameParity(offset, half);
  }

  lemma PerfectStep(l: int, half: int, b: int)
    requires half >= 2 && half % 2 == 0 && 0 <= b + 1 - l <= 2 * half - 1
    requires l + half - 1 > b ==> Narrow(l, l + half - 2, b) == if PerfectMiss(half, b + 1 - l) then b + 1 else b
    requires l + half - 1 <= b ==>
               Narrow(l + half, l + 2 * half - 2, b) == if PerfectMiss(half, b + 1 - l - half) then b + 1 else b
    ensures Narrow(l, l + 2 * half - 2, b) == if PerfectMiss(2 * half, b + 1 - l) then b + 1 else b
  {
    hide *;
    NarrowSplit(l, l + 2 * half - 2, l + half - 1, b);
    PerfectMissSplits(half, b + 1 - l);
    assert l + half - 1 - 1 == l + half - 2;
  }

  /** On 2^j - 1 candidates the search tree is perfect. */
  lemma {:induction false} NarrowPerfect(l: int, j: nat, n: int, b: int)
    requires n == Pow2(j) && 0 <= b + 1 - l <= n - 1
    ensures Narrow(l, l + n - 2, b) == if PerfectMiss(n, b + 1 - l) then b + 1 else b
    decreases j
  {
    if j >= 2 {
      var half := Pow2(j - 1);
      assert half == 2 * Pow2(j - 2);
      if l + half - 1 > b {
        NarrowPerfect(l, j - 1, half, b);
      } else {
        NarrowPerfect(l + half, j - 1, half, b);
      }
      PerfectStep(l, half, b);
    } else {
      assert n == if j == 0 then 1 else 2;
    }
  }

  /** Offsets that a search of n candidates, n a power of two, never probes before it ends on them. */
  predicate Unprobed(n: int, offset: int) {
    offset == n - 1 || (0 <= offset <= n - 4 && offset % 2 == 0)
  }

  lemma UnprobedSplits(half: int, offset: int)
    requires 0 <= offset <= 2 * half && half >= 1 && (half == 1 || half % 2 == 0)
    ensures Unprobed(2 * half, offset)
       <==> if offset < half then PerfectMiss(half, offset) else Unprobed(half, offset - half)
  {
    if half > 1 {
      SameParity(offset, half);
    }
  }

  lemma PowerStep(l: int, half: int, b: int)
    requires half >= 1 && (half == 1 || half % 2 == 0) && 0 <= b + 1 - l <= 2 * half
    requires l + half - 1 > b ==> Narrow(l, l + half - 2, b) == if PerfectMiss(half, b + 1 - l) then b + 1 else b
    requires l + half - 1 <= b ==>
               Narrow(l + half, l + 2 * half - 1, b) == if Unprobed(half, b + 1 - l - half) then b + 1 else b
    ensures Narrow(l, l + 2 * half - 1, b) == if Unprobed(2 * half, b + 1 - l) then b + 1 else b
  {
    hide *;
    NarrowSplit(l, l + 2 * half - 1, l + half - 1, b);
    UnprobedSplits(half, b + 1 - l);
    assert l + half - 1 - 1 == l + half - 2;
  }

  lemma NarrowOne(l: int, b: int)
    requires 0 <= b + 1 - l <= 1
    ensures Narrow(l, l + 1 - 1, b) == if Unprobed(1, b + 1 - l) then b + 1 else b
  {
  }

  lemma PowerParity(j: nat)
    ensures if j == 0 then Pow2(j) == 1 else Pow2(j) == 2 * Pow2(j - 1)
    ensures Pow2(j) == 1 || Pow2(j) % 2 == 0
  {
    var half := if j == 0 then 0 else Pow2(j - 1);
    assert (2 * half) % 2 == 0;
  }

  lemma {:induction false} NarrowPowerOfTwo(l: int, j: nat, n: int, b: int)
    requires n == Pow2(j) && 0 <= b + 1 - l <= n
    ensures Narrow(l, l + n - 1, b) == if Unprobed(n, b + 1 - l) then b + 1 else b
    decreases j
  {
    hide *;
    PowerParity(j);
    if j == 0 {
      NarrowOne(l, b);
    } else {
      var half := Pow2(j - 1);
      if l + half - 1 > b {
        NarrowPerfect(l, j - 1, half, b);
      } else {
        NarrowPowerOfTwo(l + half, j - 1, half, b);
        assert l + half + half - 1 == l + 2 * half - 1;
        assert b + 1 - (l + half) == b + 1 - l - half;
      }
      PowerParity(j - 1);
      PowerStep(l, half, b);
    }
  }

  /**
   * The candidates on which the whole search can end without having evaluated
   * the function there. After k doublings the interval is [2^(k-1), 2^k]; its
   * midpoint is probed first and leaves 2^(k-2) candidates on each side.
   */
  predicate Overshoots(k: nat, candidate: nat) {
    if k <= 1 then candidate == k + 1
    else
      var quarter := Pow2(k - 2);
      || Unprobed(quarter, candidate - 2 * quarter)
      || Unprobed(quarter, candidate - 3 * quarter - 1)
  }

  ghost function Start(k: nat): nat {
    if k == 0 then 0 else Pow2(k - 1)
  }

  lemma UnprobedInside(n: int, offset: int)
    requires n >= 1
    ensures Unprobed(n, offset) ==> 0 <= offset < n
  {
  }

  /** One probe at the midpoint of 2 * 2^j + 1 candidates leaves 2^j on each side. */
  lemma NarrowFromMiddle(l: int, j: nat, q: nat, b: int)
    requires q == Pow2(j) && l <= b <= l + 2 * q
    ensures Narrow(l, l + 2 * q, b)
         == if Unprobed(q, b + 1 - l) || Unprobed(q, b - l - q) then b + 1 else b
    ensures Probes(l, l + 2 * q, b) <= j + 1
  {
    hide *;
    NarrowSplit(l, l + 2 * q, l + q, b);
    UnprobedInside(q, b + 1 - l);
    UnprobedInside(q, b - l - q);
    if l + q > b {
      NarrowPowerOfTwo(l, j, q, b);
      ProbesBound(l, l + q - 1, b, j);
    } else {
      NarrowPowerOfTwo(l + q + 1, j, q, b);
      ProbesBound(l + q + 1, l + 2 * q, b, j);
      assert l + 2 * q == l + q + 1 + q - 1;
      assert b + 1 - (l + q + 1) == b - l - q;
    }
  }

  lemma NarrowFromDoublings(k: nat, b: nat)
    requires Start(k) <= b <= Pow2(k)
    ensures Narrow(Start(k), Pow2(k), b) == if Overshoots(k, b + 1) then b + 1 else b
    ensures Probes(Start(k), Pow2(k), b) <= if k <= 1 then 1 else k - 1
  {
    if k <= 1 {
      assert Pow2(k) == k + 1 && Start(k) == k;
      assert Narrow(k, k + 1, b) == Narrow(k + 1, k + 1, b);
    } else {
      var q := Pow2(k - 2);
      assert Start(k) == 2 * q && Pow2(k) == 2 * Pow2(k - 1) == 4 * q;
      hide Pow2, Start, Unprobed, Narrow, Probes;
      NarrowFromMiddle(2 * q, k - 2, q, b);
      assert b + 1 - 3 * q - 1 == b - 2 * q - q;
    }
  }

  /** The value the search settles on, before the code's final word-sized addition. */
  ghost function Answer(f: nat -> nat, target: nat, k: nat): nat
    requires Monotonic(f) && f(0) <= target
  {
    var b := Inverse(f, target, Pow2(k));
    if Overshoots(k, b + 1) then b + 1 else b
  }

  /** The calls on which right + left reaches 2^64 when the search ends, so that the code returns 0. */
  predicate SumWraps(f: nat -> nat, target: nat) {
    f(HALF_WORD / 2) < target && f(HALF_WORD - 1) <= target
  }

  /** The region found by the doubling loop: its upper end is the first power of two to reach the target. */
  ghost predicate Region(f: nat -> nat, target: nat, k: nat) {
    f(Pow2(k)) >= target && (k > 0 ==> f(Pow2(k - 1)) < target)
  }

  /** What the answer of the search says about the function itself. */
  lemma AnswerBrackets(f: nat -> nat, target: nat, k: nat)
    requires Monotonic(f) && f(0) <= target && Region(f, target, k)
    ensures var r := Answer(f, target, k);
            r >= 1 && f(r - 1) <= target && (f(r + 1) > target || f(r) == target)
  {
  }

  /** A power of two below 2^63 can be doubled without passing 2^63. */
  lemma DoublingFits(k: nat)
    requires Pow2(k) < HALF_WORD
    ensures 2 * Pow2(k) <= HALF_WORD
  {
    Pow2At63();
    if k >= 63 {
      if k > 63 {
        Pow2Strict(63, k);
      }
      assert false;
    }
    if k < 62 {
      Pow2Strict(k + 1, 63);
    }
    assert Pow2(k + 1) == 2 * Pow2(k);
  }

  /** The right end after k doublings, in 64-bit arithmetic. */
  function Doubled(k: nat): nat {
    if k == 0 then 1 else Wrap(2 * Doubled(k - 1))
  }

  lemma WrapOfWord()
    ensures Wrap(2 * HALF_WORD) == 0
  {
  }

  /** The doublings run through the powers of two up to 2^63 and then stay at 0. */
  lemma {:induction false} DoubledIs(k: nat)
    ensures Doubled(k) == if k <= 63 then Pow2(k) else 0
    ensures Doubled(k) <= HALF_WORD
    decreases k
  {
    hide Pow2, Wrap;
    Pow2At63();
    PowerParity(k);
    if k > 0 {
      DoubledIs(k - 1);
      if k < 63 {
        Pow2Strict(k, 63);
      } else if k == 64 {
        WrapOfWord();
      }
    }
  }

  /** The doubling loop comes to an end. */
  ghost predicate DoublingEnds(f: nat -> nat, target: nat) {
    exists k: nat :: f(Doubled(k)) >= target
  }

  /** It does so exactly for the targets that the function reaches by 2^63. */
  lemma DoublingEndsIff(f: nat -> nat, target: nat)
    requires Monotonic(f)
    ensures DoublingEnds(f, target) <==> target <= f(HALF_WORD)
  {
    hide Doubled;
    DoubledIs(63);
    Pow2At63();
    if DoublingEnds(f, target) {
      var k: nat :| f(Doubled(k)) >= target;
      DoubledIs(k);
    }
  }

  /**
   * One past 2^63, the identity never reaches its target by doubling, although a word does reach it:
   * from the 64th turn on the right end is 0.
   */
  lemma EndlessDoubling(k: nat)
    ensures var f, target := (x: nat) => x, HALF_WORD + 1;
            && Monotonic(f) && f(0) <= target && f(target) == target < WORD
            && f(Doubled(k)) < target
            && (k >= 64 ==> Doubled(k) == 0)
            && !DoublingEnds(f, target)
  {
    DoubledIs(k);
    DoublingEndsIff((x: nat) => x, HALF_WORD + 1);
  }

  /** The search never overshoots its own upper end, and it always overshoots onto that end. */
  lemma OvershootsAtTop(k: nat, candidate: nat)
    ensures Overshoots(k, candidate) ==> candidate <= Pow2(k)
    ensures candidate == Pow2(k) ==> Overshoots(k, candidate)
  {
    if k <= 1 {
      assert k == 0 || k == 1;
      assert Pow2(k) == k + 1;
    } else {
      var j := k - 2;
      assert Pow2(k) == 2 * Pow2(j + 1) == 4 * Pow2(j);
    }
  }

  lemma AnswerWraps(f: nat -> nat, target: nat, k: nat)
    requires Monotonic(f) && f(0) <= target && Region(f, target, k) && Pow2(k) <= HALF_WORD
    ensures Answer(f, target, k) <= HALF_WORD
    ensures Answer(f, target, k) == HALF_WORD <==> SumWraps(f, target)
  {
    var b := Inverse(f, target, Pow2(k));
    Pow2At63();
    OvershootsAtTop(k, b + 1);
    assert Answer(f, target, k) <= Pow2(k);
    if Pow2(k) < HALF_WORD {
      DoublingFits(k);
      assert f(Pow2(k)) <= f(HALF_WORD / 2);
    } else {
      if k > 63 {
        Pow2Strict(63, k);
      } else if k < 63 {
        Pow2Strict(k, 63);
      }
      assert Pow2(62) == HALF_WORD / 2;
    }
  }

  lemma AnswerOfRegion(f: nat -> nat, target: nat, k: nat)
    requires Monotonic(f) && f(0) <= target && Region(f, target, k) && Pow2(k) <= HALF_WORD
    ensures var b, r := Inverse(f, target, Pow2(k)), Answer(f, target, k);
            && Start(k) <= b
            && Narrow(Start(k), Pow2(k), b) == r
            && Probes(Start(k), Pow2(k), b) <= (if k <= 1 then 1 else k - 1)
            && (r == HALF_WORD <==> SumWraps(f, target))
            && r >= 1 && f(r - 1) <= target && (f(r + 1) > target || f(r) == target)
  {
    var b := Inverse(f, target, Pow2(k));
    assert Start(k) <= b;
    NarrowFromDoublings(k, b);
    AnswerBrackets(f, target, k);
    AnswerWraps(f, target, k);
  }

  /** The second loop of InvertMonotonic, from the region [left0, right0] that the first one found. */
  method Bisect(f: nat -> nat, target: nat, left0: nat, right0: nat, ghost b: nat)
    returns (mid: nat, ghost calls: nat)
    requires left0 <= b <= right0 <= HALF_WORD && left0 < right0
    requires forall x: nat :: x <= right0 ==> (f(x) <= target <==> x <= b)
    ensures var r := Narrow(left0, right0, b); mid == if r == HALF_WORD then 0 else r
    ensures calls == Probes(left0, right0, b)
  {
    var left: nat, right: nat := left0, right0;
    calls := 0;
    mid := MidPoint(left, right);
    while right > left
      invariant left < right ==> mid == (right + left) / 2
      invariant left >= right ==> mid == if right == HALF_WORD then 0 else right
      invariant left <= right + 1 && left <= right0 && right <= right0
      invariant Narrow(left, right, b) == Narrow(left0, right0, b)
      invariant Probes(left, right, b) + calls == Probes(left0, right0, b)
      decreases right - left
    {
      var value := f(mid);
      calls := calls + 1;
      assert value > target <==> mid > b;
      if value > target {
        right := Wrap(mid - 1);
      } else {
        left := mid + 1;
      }
      mid := MidPoint(left, right);
    }
  }

  /** The state of the doubling loop after k turns. */
  ghost predicate Doubling(f: nat -> nat, target: nat, k: nat, left: nat, right: nat) {
    && right == Pow2(k) == Doubled(k)
    && left == Start(k)
    && left < right <= HALF_WORD
    && (k > 0 ==> f(left) < target)
  }

  lemma DoublingStarts(f: nat -> nat, target: nat)
    ensures Doubling(f, target, 0, 0, 1)
  {
  }

  lemma DoublingGoesOn(f: nat -> nat, target: nat, k: nat, left: nat, right: nat)
    requires Doubling(f, target, k, left, right) && f(right) < target <= f(HALF_WORD)
    ensures right < HALF_WORD
    ensures Doubling(f, target, k + 1, right, Wrap(right * 2)) && Wrap(right * 2) > right
  {
    DoublingFits(k);
  }

  lemma DoublingFound(f: nat -> nat, target: nat, k: nat, left: nat, right: nat)
    requires Doubling(f, target, k, left, right) && f(right) >= target
    ensures Region(f, target, k) && left == Start(k) && right == Pow2(k) && left < right <= HALF_WORD
  {
  }

  lemma InverseIs(f: nat -> nat, target: nat, bound: nat)
    requires Monotonic(f) && f(0) <= target
    ensures forall x: nat :: x <= bound ==> (f(x) <= target <==> x <= Inverse(f, target, bound))
    ensures Inverse(f, target, bound) <= bound
  {
  }

  /**
   * The result is the true inverse or, on the candidates of Overshoots, one more;
   * it is 0 instead exactly when the last addition wraps.
   */
  method InvertMonotonic(f: nat -> nat, target: nat)
    returns (mid: nat, ghost k: nat, ghost calls: nat)
    requires Monotonic(f)
    requires f(0) <= target && DoublingEnds(f, target)
    ensures Region(f, target, k)
    ensures mid == if SumWraps(f, target) then 0 else Answer(f, target, k)
    ensures !SumWraps(f, target) ==>
              mid >= 1 && f(mid - 1) <= target && (f(mid + 1) > target || f(mid) == target)
    ensures calls <= if k <= 1 then 2 * k + 3 else 2 * k + 1
  {
    hide *;
    DoublingEndsIff(f, target);
    DoublingStarts(f, target);
    var left: nat, right: nat := 0, 1;
    k := 0;
    while f(right) < target
      invariant Doubling(f, target, k, left, right)
      decreases HALF_WORD - right
    {
      DoublingGoesOn(f, target, k, left, right);
      left, right := right, Wrap(right * 2);
      k := k + 1;
    }
    DoublingFound(f, target, k, left, right);
    AnswerOfRegion(f, target, k);
    InverseIs(f, target, right);
    ghost var probes;
    mid, probes := Bisect(f, target, left, right, Inverse(f, target, right));
    calls := 1 + (k + 1) + probes;
  }

  ghost predicate Strict(f: nat -> nat) {
    forall i: nat, j: nat :: i < j ==> f(i) < f(j)
  }

  lemma StrictIsMonotonic(f: nat -> nat)
    requires Strict(f)
    ensures Monotonic(f)
  {
  }

  lemma InverseOfOwnValue(f: nat -> nat, x: nat, bound: nat)
    requires Strict(f) && Monotonic(f) && f(bound) >= f(x)
    ensures x <= bound && Inverse(f, f(x), bound) == x
  {
  }

  /**
   * Inverting a strictly increasing function at one of its own values gives the
   * argument back exactly when the search does not overshoot from it.
   */
  lemma InvertOwnValue(f: nat -> nat, x: nat, k: nat)
    requires Strict(f)
    requires Region(f, f(x), k)
    ensures Monotonic(f)
    ensures k == if x == 0 then 0 else BitLength(x)
    ensures Answer(f, f(x), k) == if Overshoots(k, x + 1) then x + 1 else x
  {
    StrictIsMonotonic(f);
    InverseOfOwnValue(f, x, Pow2(k));
    hide Overshoots;
    if x > 0 {
      BitLengthUnique(x, k);
    }
  }

  /** The smallest argument is never given back: 0 is inverted to 1, as the estimator's own test expects. */
  lemma ZeroIsInvertedToOne(f: nat -> nat)
    requires Monotonic(f)
    ensures DoublingEnds(f, f(0)) && Region(f, f(0), 0)
    ensures Answer(f, f(0), 0) == 1 && !SumWraps(f, f(0))
  {
    assert Pow2(0) == 1;
    DoublingEndsIff(f, f(0));
  }

  /** A call that meets the preconditions and on which the code returns 0 although the answer is 2^63. */
  lemma WrappingCall()
    ensures var f, target := (x: nat) => x, HALF_WORD - 1;
            Monotonic(f) && f(0) <= target && DoublingEnds(f, target) && SumWraps(f, target)
  {
    DoublingEndsIff((x: nat) => x, HALF_WORD - 1);
  }
}
