/** The seeded Fisher-Yates shuffle: an in-place loop, its permutation, and what it reaches. */
module Shuffling {
  import opened Arithmetic
  import opened Batching
  import opened Powers
  import opened Results
  import opened Sampling
  import opened Seeds
  import opened Sequences

  const BYTES_PER_RANDOM := 16

  function Swap<T>(s: seq<T>, i: nat, j: nat): (r: seq<T>)
    requires i < |s| && j < |s|
    ensures |r| == |s|
  {
    s[i := s[j]][j := s[i]]
  }

  lemma SwapTwice<T>(s: seq<T>, j: nat)
    requires j < |s|
    ensures Swap(Swap(s, 0, j), 0, j) == s
  {
  }

  lemma SwapPermutes<T>(s: seq<T>, j: nat)
    requires j < |s|
    ensures multiset(Swap(s, 0, j)) == multiset(s)
  {
  }

  lemma MultisetOfTail<T>(s: seq<T>)
    requires |s| > 0
    ensures multiset(s[1..]) == multiset(s) - multiset{s[0]}
    ensures multiset(s) == multiset(s[1..]) + multiset{s[0]}
  {
    MultisetRemoveAt(s, 0);
    assert RemoveAt(s, 0) == s[1..];
    assert s == [s[0]] + s[1..];
  }

  /** The first element and the rest of equal multisets, once the first elements agree. */
  lemma TailsAgree<T>(s: seq<T>, t: seq<T>)
    requires |s| > 0 && |t| > 0 && s[0] == t[0]
    ensures multiset(s) == multiset(t) <==> multiset(s[1..]) == multiset(t[1..])
  {
    MultisetOfTail(s);
    MultisetOfTail(t);
  }

  /** Offset i chooses among the n - i elements that are not placed yet; the last element has no choice. */
  predicate ValidOffsets(n: nat, offsets: seq<nat>) {
    && |offsets| == (if n == 0 then 0 else n - 1)
    && forall i :: 0 <= i < |offsets| ==> offsets[i] < n - i
  }

  lemma OffsetsTail(n: nat, offsets: seq<nat>)
    requires n >= 2 && ValidOffsets(n, offsets)
    ensures ValidOffsets(n - 1, offsets[1..]) && offsets[0] < n
  {
  }

  /** The shuffle as a function: place the chosen element first, shuffle the rest. */
  function FisherYates<T>(s: seq<T>, offsets: seq<nat>): (r: seq<T>)
    requires ValidOffsets(|s|, offsets)
    ensures |r| == |s|
    decreases |s|
  {
    if |s| <= 1 then s
    else
      OffsetsTail(|s|, offsets);
      var t := Swap(s, 0, offsets[0]);
      [t[0]] + FisherYates(t[1..], offsets[1..])
  }

  /** Replaying the swaps from the last to the first. */
  function Unshuffle<T>(t: seq<T>, offsets: seq<nat>): (r: seq<T>)
    requires ValidOffsets(|t|, offsets)
    ensures |r| == |t|
    decreases |t|
  {
    if |t| <= 1 then t
    else
      OffsetsTail(|t|, offsets);
      Swap([t[0]] + Unshuffle(t[1..], offsets[1..]), 0, offsets[0])
  }

  lemma {:induction false} ShufflePermutes<T>(s: seq<T>, offsets: seq<nat>)
    requires ValidOffsets(|s|, offsets)
    ensures multiset(FisherYates(s, offsets)) == multiset(s)
    decreases |s|
  {
    if |s| > 1 {
      OffsetsTail(|s|, offsets);
      var t := Swap(s, 0, offsets[0]);
      SwapPermutes(s, offsets[0]);
      ShufflePermutes(t[1..], offsets[1..]);
      var r := FisherYates(s, offsets);
      assert r[1..] == FisherYates(t[1..], offsets[1..]);
      TailsAgree(t, r);
    }
  }

  /** Replaying backwards undoes the shuffle. */
  lemma {:induction false} UnshuffleUndoes<T>(s: seq<T>, offsets: seq<nat>)
    requires ValidOffsets(|s|, offsets)
    ensures Unshuffle(FisherYates(s, offsets), offsets) == s
    decreases |s|
  {
    if |s| > 1 {
      OffsetsTail(|s|, offsets);
      var t := Swap(s, 0, offsets[0]);
      UnshuffleUndoes(t[1..], offsets[1..]);
      var r := FisherYates(s, offsets);
      assert r[1..] == FisherYates(t[1..], offsets[1..]);
      assert [t[0]] + t[1..] == t;
      SwapTwice(s, offsets[0]);
    }
  }

  /** Every sequence is the shuffle of its replay. */
  lemma {:induction false} ShuffleUndoes<T>(t: seq<T>, offsets: seq<nat>)
    requires ValidOffsets(|t|, offsets)
    ensures FisherYates(Unshuffle(t, offsets), offsets) == t
    decreases |t|
  {
    if |t| > 1 {
      OffsetsTail(|t|, offsets);
      ShuffleUndoes(t[1..], offsets[1..]);
      var u := [t[0]] + Unshuffle(t[1..], offsets[1..]);
      SwapTwice(u, offsets[0]);
      assert u[1..] == Unshuffle(t[1..], offsets[1..]);
      assert t == [t[0]] + t[1..];
    }
  }

  /** Every rearrangement is reached by some offsets. */
  lemma {:induction false} EveryPermutationReached<T>(s: seq<T>, t: seq<T>) returns (offsets: seq<nat>)
    requires multiset(s) == multiset(t)
    ensures ValidOffsets(|s|, offsets) && FisherYates(s, offsets) == t
    decreases |s|
  {
    assert |s| == |multiset(s)| == |multiset(t)| == |t|;
    if |s| <= 1 {
      offsets := [];
      if |s| == 1 {
        var i := FindIn(s, t, s[0]);
      }
    } else {
      var i := FindIn(t, s, t[0]);
      var s' := Swap(s, 0, i);
      SwapPermutes(s, i);
      TailsAgree(s', t);
      var rest := EveryPermutationReached(s'[1..], t[1..]);
      offsets := [i] + rest;
      assert offsets[1..] == rest;
      assert t == [t[0]] + t[1..];
    }
  }

  predicate Distinct<T(==)>(s: seq<T>) {
    forall i, j :: 0 <= i < j < |s| ==> s[i] != s[j]
  }

  lemma SwapDistinct<T>(s: seq<T>, j: nat)
    requires Distinct(s) && j < |s|
    ensures Distinct(Swap(s, 0, j)) && Distinct(Swap(s, 0, j)[1..])
  {
  }

  /** Different offsets give different results as soon as the elements are distinct. */
  lemma {:induction false} OffsetsAreUnique<T>(s: seq<T>, o: seq<nat>, o': seq<nat>)
    requires Distinct(s) && ValidOffsets(|s|, o) && ValidOffsets(|s|, o')
    requires FisherYates(s, o) == FisherYates(s, o')
    ensures o == o'
    decreases |s|
  {
    if |s| > 1 {
      OffsetsTail(|s|, o);
      OffsetsTail(|s|, o');
      assert FisherYates(s, o)[0] == s[o[0]] && FisherYates(s, o')[0] == s[o'[0]];
      assert o[0] == o'[0];
      var t := Swap(s, 0, o[0]);
      SwapDistinct(s, o[0]);
      assert FisherYates(s, o)[1..] == FisherYates(t[1..], o[1..]);
      assert FisherYates(s, o')[1..] == FisherYates(t[1..], o'[1..]);
      OffsetsAreUnique(t[1..], o[1..], o'[1..]);
      assert o == [o[0]] + o[1..] && o' == [o'[0]] + o'[1..];
    }
  }

  /** Each permutation of distinct elements comes from exactly one offset sequence. */
  lemma ShuffleIsBijection<T>(s: seq<T>, t: seq<T>)
    requires Distinct(s)
    ensures multiset(t) == multiset(s) <==> exists o :: ValidOffsets(|s|, o) && FisherYates(s, o) == t
    ensures forall o, o' | ValidOffsets(|s|, o) && ValidOffsets(|s|, o') ::
              FisherYates(s, o) == FisherYates(s, o') ==> o == o'
  {
    if multiset(t) == multiset(s) {
      var o := EveryPermutationReached(s, t);
    }
    forall o | ValidOffsets(|s|, o) && FisherYates(s, o) == t
      ensures multiset(t) == multiset(s)
    {
      ShufflePermutes(s, o);
    }
    forall o, o' | ValidOffsets(|s|, o) && ValidOffsets(|s|, o') && FisherYates(s, o) == FisherYates(s, o')
      ensures o == o'
    {
      OffsetsAreUnique(s, o, o');
    }
  }

  lemma {:induction false} ShuffleOfMap<T, U>(f: T -> U, s: seq<T>, offsets: seq<nat>)
    requires ValidOffsets(|s|, offsets)
    ensures FisherYates(Map(f, s), offsets) == Map(f, FisherYates(s, offsets))
    decreases |s|
  {
    if |s| > 1 {
      OffsetsTail(|s|, offsets);
      var t := Swap(s, 0, offsets[0]);
      assert Swap(Map(f, s), 0, offsets[0]) == Map(f, t);
      assert Map(f, t)[1..] == Map(f, t[1..]);
      ShuffleOfMap(f, t[1..], offsets[1..]);
    }
  }

  function Identity(n: nat): (r: seq<nat>)
    ensures |r| == n
  {
    seq(n, (i: nat) => i)
  }

  /** Where each position of the result comes from: a function of the length and the offsets only. */
  function Origins(n: nat, offsets: seq<nat>): (p: seq<nat>)
    requires ValidOffsets(n, offsets)
    ensures |p| == n
  {
    FisherYates(Identity(n), offsets)
  }

  lemma ShuffleByOrigins<T>(s: seq<T>, offsets: seq<nat>, k: nat)
    requires ValidOffsets(|s|, offsets) && k < |s|
    ensures Origins(|s|, offsets)[k] < |s|
    ensures FisherYates(s, offsets)[k] == s[Origins(|s|, offsets)[k]]
  {
    var n := |s|;
    var ids := Identity(n);
    var f := (i: nat) => if i < n then s[i] else s[0];
    assert Map(f, ids) == s;
    ShuffleOfMap(f, ids, offsets);
    ShufflePermutes(ids, offsets);
    var i := FindIn(Origins(n, offsets), ids, Origins(n, offsets)[k]);
  }

  // The loop.

  function LittleEndian(bytes: seq<Byte>): nat {
    if |bytes| == 0 then 0 else bytes[0] + 256 * LittleEndian(bytes[1..])
  }

  /** The least significant byte comes first. */
  lemma {:induction false} LittleEndianPlaces(bytes: seq<Byte>, i: nat)
    requires i < |bytes|
    ensures LittleEndian(bytes) / Pow2(8 * i) % 256 == bytes[i]
    decreases |bytes|
  {
    var rest := LittleEndian(bytes[1..]);
    if i == 0 {
      ScaledQuotient(rest, bytes[0], 256, 1);
      assert Pow2(8 * i) == 1;
    } else {
      LittleEndianPlaces(bytes[1..], i - 1);
      Pow2Adds(8, 8 * (i - 1));
      assert 8 + 8 * (i - 1) == 8 * i;
      Pow2At8();
      ScaledQuotient(rest, bytes[0], 256, Pow2(8 * (i - 1)));
    }
  }

  /** The i-th 128-bit random value drawn from a fresh generator. */
  function Random(s: Stream, i: nat): nat {
    LittleEndian(Bytes(s, i * BYTES_PER_RANDOM, BYTES_PER_RANDOM))
  }

  function SeedOffsets(s: Stream, n: nat): (offsets: seq<nat>)
    ensures ValidOffsets(n, offsets)
    ensures |offsets| == if n == 0 then 0 else n - 1
  {
    seq(if n == 0 then 0 else n - 1, i requires 0 <= i < n - 1 => Random(s, i) % (n - i))
  }

  /** Each byte of a random value, straight from the stream. */
  lemma RandomPlaces(s: Stream, i: nat, j: nat)
    requires j < BYTES_PER_RANDOM
    ensures Random(s, i) / Pow2(8 * j) % 256 == s(BYTES_PER_RANDOM * i + j)
  {
    LittleEndianPlaces(Bytes(s, i * BYTES_PER_RANDOM, BYTES_PER_RANDOM), j);
  }

  /** The offset for place i is the one among the n - i choices that the random value leaves as a remainder. */
  lemma OffsetOfRandom(s: Stream, n: nat, i: nat, offset: nat)
    requires i + 1 < n && offset < n - i
    ensures |SeedOffsets(s, n)| == n - 1
    ensures SeedOffsets(s, n)[i] == offset <==> (Random(s, i) - offset) % (n - i) == 0
  {
    hide Random;
    RemainderIs(Random(s, i), n - i, offset);
  }

  lemma SwapExchanges<T>(s: seq<T>, i: nat, j: nat, k: nat)
    requires i < |s| && j < |s| && k < |s|
    ensures Swap(s, i, j)[k] == if k == i then s[j] else if k == j then s[i] else s[k]
  {
  }

  /** The sequence after the first i swaps, each of place k with place k + offsets[k]. */
  ghost function AfterSwaps<T>(s: seq<T>, offsets: seq<nat>, i: nat): (r: seq<T>)
    requires ValidOffsets(|s|, offsets) && i <= |offsets|
    ensures |r| == |s|
  {
    if i == 0 then s else Swap(AfterSwaps(s, offsets, i - 1), i - 1, i - 1 + offsets[i - 1])
  }

  /** What is placed before i, followed by the shuffle of the rest, is the target. */
  ghost predicate Placed<T>(s: seq<T>, offsets: seq<nat>, i: nat, target: seq<T>) {
    && ValidOffsets(|s|, offsets) && i < |s|
    && ValidOffsets(|s| - i, offsets[i..])
    && s[..i] + FisherYates(s[i..], offsets[i..]) == target
  }

  lemma LoopStart<T>(s: seq<T>, offsets: seq<nat>)
    requires ValidOffsets(|s|, offsets) && |s| > 0
    ensures Placed(s, offsets, 0, FisherYates(s, offsets))
  {
    assert s[0..] == s && offsets[0..] == offsets;
  }

  lemma LoopStep<T>(s: seq<T>, offsets: seq<nat>, i: nat, target: seq<T>, j: nat)
    requires Placed(s, offsets, i, target) && i + 1 < |s| && j == i + offsets[i]
    ensures j < |s| && Placed(s[i := s[j]][j := s[i]], offsets, i + 1, target)
  {
  }

  lemma LoopEnd<T>(s: seq<T>, offsets: seq<nat>, target: seq<T>)
    requires |s| > 0 && Placed(s, offsets, |s| - 1, target)
    ensures s == target
  {
    assert s == s[..|s| - 1] + s[|s| - 1..];
  }

  lemma {:induction false} SwapsPlace<T>(s: seq<T>, offsets: seq<nat>, i: nat)
    requires ValidOffsets(|s|, offsets) && |s| > 0 && i <= |offsets|
    ensures Placed(AfterSwaps(s, offsets, i), offsets, i, FisherYates(s, offsets))
    decreases i
  {
    hide Placed, FisherYates;
    if i == 0 {
      LoopStart(s, offsets);
    } else {
      SwapsPlace(s, offsets, i - 1);
      LoopStep(AfterSwaps(s, offsets, i - 1), offsets, i - 1, FisherYates(s, offsets), i - 1 + offsets[i - 1]);
    }
  }

  /** The shuffle is the result of all these swaps, in order. */
  lemma ShuffleIsSwaps<T>(s: seq<T>, offsets: seq<nat>)
    requires ValidOffsets(|s|, offsets)
    ensures FisherYates(s, offsets) == AfterSwaps(s, offsets, |offsets|)
  {
    if |s| > 0 {
      SwapsPlace(s, offsets, |offsets|);
      LoopEnd(AfterSwaps(s, offsets, |offsets|), offsets, FisherYates(s, offsets));
    }
  }

  lemma RandomOfBatch(s: Stream, n: nat, i: nat)
    requires i < n
    ensures (i + 1) * BYTES_PER_RANDOM <= n * BYTES_PER_RANDOM
    ensures Bytes(s, 0, n * BYTES_PER_RANDOM)[i * BYTES_PER_RANDOM..(i + 1) * BYTES_PER_RANDOM]
         == Bytes(s, i * BYTES_PER_RANDOM, BYTES_PER_RANDOM)
  {
  }

  lemma OffsetIs(s: Stream, n: nat, i: nat)
    requires i + 1 < n
    ensures |SeedOffsets(s, n)| == n - 1
    ensures SeedOffsets(s, n)[i]
         == LittleEndian(Bytes(s, i * BYTES_PER_RANDOM, BYTES_PER_RANDOM)) % (n - i)
  {
  }

  /** The loop over pre-drawn random values, swapping in place. */
  method ShuffleInPlace(data: array<nat>, arr: seq<Byte>, ghost s: Stream)
    requires data.Length >= 2 && arr == Bytes(s, 0, data.Length * BYTES_PER_RANDOM)
    modifies data
    ensures data[..] == FisherYates(old(data[..]), SeedOffsets(s, data.Length))
  {
    hide *;
    var n := data.Length;
    ghost var offsets, target := SeedOffsets(s, n), FisherYates(data[..], SeedOffsets(s, n));
    LoopStart(data[..], offsets);
    for i := 0 to n - 1
      invariant Placed(data[..], offsets, i, target)
    {
      RandomOfBatch(s, n, i);
      OffsetIs(s, n, i);
      var random := LittleEndian(arr[i * BYTES_PER_RANDOM..(i + 1) * BYTES_PER_RANDOM]);
      var index := i + random % (n - i);
      LoopStep(data[..], offsets, i, target, index);
      data[i], data[index] := data[index], data[i];
    }
    LoopEnd(data[..], offsets, target);
  }

  method SecureShuffleWithSeed(data: array<nat>, cipher: Cipher, seed: PrngSeed) returns (status: Status)
    modifies data
    ensures status == if data.Length <= 1 || WellSized(seed) then Ok else Failed(InvalidArgument)
    ensures data[..] == if status.Ok? then FisherYates(old(data[..]), SeedOffsets(cipher(seed), data.Length))
                        else old(data[..])
  {
    if data.Length <= 1 {
      return Ok;
    }
    var prng := CreatePrngFromSeed(cipher, seed);
    if prng.Failure? {
      return Failed(prng.error);
    }
    var arr := prng.value.GeneratePseudorandomBytes(data.Length * BYTES_PER_RANDOM);
    ShuffleInPlace(data, arr.value, cipher(seed));
    return Ok;
  }

  // Bias.

  lemma {:induction false} LittleEndianBound(bytes: seq<Byte>)
    ensures LittleEndian(bytes) < Pow2(8 * |bytes|)
    decreases |bytes|
  {
    if |bytes| > 0 {
      LittleEndianBound(bytes[1..]);
      Pow2At32();
      Pow2Adds(8, 8 * (|bytes| - 1));
      assert 8 * |bytes| == 8 + 8 * (|bytes| - 1);
    }
  }

  /** A random value ranges over [0, 2^128). */
  lemma RandomBound(s: Stream, i: nat)
    ensures Random(s, i) < Pow2(128)
  {
    LittleEndianBound(Bytes(s, i * BYTES_PER_RANDOM, BYTES_PER_RANDOM));
  }

  /** How many numbers below bound leave the remainder r. */
  ghost function Preimages(bound: nat, k: nat, r: nat): nat
    requires k >= 1
  {
    if bound == 0 then 0 else Preimages(bound - 1, k, r) + if (bound - 1) % k == r then 1 else 0
  }

  lemma NextRemainder(x: nat, k: nat)
    requires k >= 1
    ensures if (x + 1) % k == 0 then x % k == k - 1 && (x + 1) / k == x / k + 1
            else (x + 1) % k == x % k + 1 && (x + 1) / k == x / k
  {
    var q, r := x / k, x % k;
    if r == k - 1 {
      Distribute(k, q, 1);
      ModUnique(x + 1, k, q + 1, 0);
    } else {
      ModUnique(x + 1, k, q, r + 1);
    }
  }

  /** Remainders below bound % k come up once more than the others. */
  lemma {:induction false} PreimagesCount(bound: nat, k: nat, r: nat)
    requires r < k
    ensures Preimages(bound, k, r) == bound / k + if r < bound % k then 1 else 0
  {
    if bound > 0 {
      PreimagesCount(bound - 1, k, r);
      NextRemainder(bound - 1, k);
    }
  }

  /** Any two candidates for a position differ by at most one preimage. */
  lemma NearlyUniform(bound: nat, k: nat, r: nat, r': nat)
    requires r < k && r' < k
    ensures -1 <= Preimages(bound, k, r) - Preimages(bound, k, r') <= 1
  {
    PreimagesCount(bound, k, r);
    PreimagesCount(bound, k, r');
  }

  /** Every remainder comes up equally often below the bound. */
  ghost predicate Even(bound: nat, k: nat)
    requires k >= 1
  {
    forall r, r' :: 0 <= r < k && 0 <= r' < k ==> Preimages(bound, k, r) == Preimages(bound, k, r')
  }

  lemma EvenIff(bound: nat, k: nat)
    requires k >= 1
    ensures Even(bound, k) <==> bound % k == 0
  {
    hide Preimages;
    forall r | 0 <= r < k
      ensures Preimages(bound, k, r) == bound / k + if r < bound % k then 1 else 0
    {
      PreimagesCount(bound, k, r);
    }
    if bound % k != 0 {
      assert Preimages(bound, k, 0) != Preimages(bound, k, k - 1);
    }
  }

  /** The random values that an unbiased shuffle of n elements would have to draw again, over all its steps. */
  ghost function BiasedValues(bound: nat, n: nat): nat {
    if n <= 1 then 0 else bound % n + BiasedValues(bound, n - 1)
  }

  /** The step with n choices adds the fewest values that have to go for all choices to be equally likely. */
  lemma BiasedStep(bound: nat, n: nat, fewer: nat)
    requires n >= 2
    ensures BiasedValues(bound, 1) == 0
    ensures var c := BiasedValues(bound, n) - BiasedValues(bound, n - 1);
            0 <= c <= bound && Even(bound - c, n) && (0 <= fewer < c ==> !Even(bound - fewer, n))
  {
    hide Even;
    var c := bound % n;
    QuotientBounds(bound, n);
    ModUnique(bound - c, n, bound / n, 0);
    EvenIff(bound - c, n);
    if fewer < c {
      ModUnique(bound - fewer, n, bound / n, c - fewer);
      EvenIff(bound - fewer, n);
    }
  }

  lemma {:induction false} FewBiasedValues(bound: nat, n: nat)
    ensures BiasedValues(bound, n) <= n * n
    ensures n >= 1 ==> BiasedValues(bound, n) < n * n
  {
    if n > 1 {
      FewBiasedValues(bound, n - 1);
      assert n * n == (n - 1) * (n - 1) + 2 * n - 1;
    }
  }
}
