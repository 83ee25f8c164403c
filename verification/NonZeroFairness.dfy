/** On which streams drawing without zeros ends: how long the runs of usable candidates have to be. */
module NonZeroFairness {
  import opened Arithmetic
  import opened Batching
  import opened NonZeroDraws
  import opened Powers
  import opened Sampling

  /** This many candidates from the j-th on can all be used: accepted and not 0. */
  ghost predicate Usable(s: Stream, pos: nat, modulus: nat, j: nat, length: nat)
    requires modulus >= 1
  {
    forall k :: j <= k < j + length ==> 1 <= Candidate(s, pos, modulus, k) < modulus
  }

  ghost predicate RunAfter(s: Stream, pos: nat, modulus: nat, q: nat, length: nat)
    requires modulus >= 1
  {
    exists j: nat :: j >= q && Usable(s, pos, modulus, j, length)
  }

  /** After every candidate there are, sooner or later, this many usable ones in a row. */
  ghost predicate RunsRecur(s: Stream, pos: nat, modulus: nat, length: nat)
    requires modulus >= 1
  {
    forall q: nat :: RunAfter(s, pos, modulus, q, length)
  }

  /** The candidates of the first batch of a round that the round can do without. */
  ghost function Spare(size: nat, modulus: nat): nat
    requires modulus >= 2 && size >= 1
  {
    var n := NonZeroSampleSize(size, modulus);
    BatchSize(n, modulus) - n
  }

  // The number of spare candidates grows with what is missing.

  lemma ScaledQuotientsGrow(c: nat, c': nat, range: nat, modulus: nat)
    requires c <= c' && 1 <= modulus <= range
    ensures c' - c <= c' * range / modulus - c * range / modulus
  {
    var q, q', d := c * range / modulus, c' * range / modulus, c' - c;
    QuotientBounds(c * range, modulus);
    QuotientBounds(c' * range, modulus);
    Distribute(range, c, d);
    Distribute(modulus, q, d);
    ScaledDistance(d, range, modulus, 0);
    if q' < q + d {
      ScaledDistance(modulus, q + d, q', 1);
    }
  }

  lemma SparesOfBatchGrow(n: nat, n': nat, modulus: nat)
    requires modulus >= 2 && 1 <= n <= n'
    ensures BatchSize(n, modulus) - n <= BatchSize(n', modulus) - n'
  {
    hide *;
    BatchSizeIs(n, modulus);
    BatchSizeIs(n', modulus);
    RangeOfModulus(modulus);
    SampleSizeInIntegers(n, modulus);
    SampleSizeInIntegers(n', modulus);
    ScaledQuotientsGrow(n, n', Pow2(BitLength(modulus)), modulus);
  }

  lemma SpareIs(size: nat, modulus: nat)
    requires modulus >= 2 && size >= 1
    ensures NonZeroSampleSize(size, modulus) >= 1
    ensures Spare(size, modulus)
         == BatchSize(NonZeroSampleSize(size, modulus), modulus) - NonZeroSampleSize(size, modulus)
  {
    hide BatchSize;
    QuotientBounds(size * modulus, modulus - 1);
  }

  lemma SpareGrows(size: nat, size': nat, modulus: nat)
    requires modulus >= 2 && 1 <= size <= size'
    ensures Spare(size, modulus) <= Spare(size', modulus)
  {
    hide *;
    var n, n' := NonZeroSampleSize(size, modulus), NonZeroSampleSize(size', modulus);
    assert n == 1 + size * modulus / (modulus - 1) && n' == 1 + size' * modulus / (modulus - 1);
    ScaledQuotientsGrow(size, size', modulus, modulus - 1);
    SpareIs(size, modulus);
    SpareIs(size', modulus);
    SparesOfBatchGrow(n, n', modulus);
  }

  // One round.

  /** The last batch of a call: what came before it was not enough. */
  lemma {:induction false} LastBatch(s: Stream, pos: nat, modulus: nat, n: nat, enough: nat) returns (b: nat)
    requires modulus >= 2 && n >= 1
    requires BytesPerValue(modulus) == 1 ==> |Accepted(s, pos, modulus, enough)| >= n
    ensures |Accepted(s, pos, modulus, b)| < n
    ensures Batches(s, pos, modulus, n, enough)
         == b + BatchSize(n - |Accepted(s, pos, modulus, b)|, modulus)
    decreases enough
  {
    hide *;
    var size := BatchSize(n, modulus);
    var got := |Accepted(s, pos, modulus, size)|;
    BatchesStep(s, pos, modulus, n, enough, size);
    if got >= n || BytesPerValue(modulus) != 1 {
      AcceptedNone(s, pos, modulus);
      b := 0;
    } else {
      var later := LastBatch(s, Past(pos, modulus, size), modulus, n - got, enough - size);
      AcceptedSplit(s, pos, modulus, size, later);
      b := size + later;
    }
  }

  lemma AcceptedGrows(s: Stream, pos: nat, modulus: nat, m: nat, n: nat)
    requires modulus >= 1 && m <= n
    ensures |Accepted(s, pos, modulus, m)| <= |Accepted(s, pos, modulus, n)|
         <= |Accepted(s, pos, modulus, m)| + (n - m)
  {
    hide *;
    AcceptedSplit(s, pos, modulus, m, n - m);
  }

  lemma {:induction false} NonZerosNone(values: seq<nat>, i: nat)
    requires NonZeros(values) == [] && i < |values|
    ensures values[i] == 0
    decreases |values|
  {
    var n := |values| - 1;
    if i < n {
      NonZerosNone(values[..n], i);
    }
  }

  /** A usable candidate is kept if fewer values than the round asks for were accepted before it. */
  lemma UsableIsKept(s: Stream, pos: nat, modulus: nat, n: nat, total: nat, j: nat)
    requires modulus >= 1 && |Accepted(s, pos, modulus, total)| >= n
    requires j < total && 1 <= Candidate(s, pos, modulus, j) < modulus && |Accepted(s, pos, modulus, j)| < n
    ensures NonZeros(Accepted(s, pos, modulus, total)[..n]) != []
  {
    hide *;
    var values := Accepted(s, pos, modulus, total)[..n];
    AcceptedStep(s, pos, modulus, j);
    AcceptedPrefix(s, pos, modulus, j + 1, total);
    var i := |Accepted(s, pos, modulus, j)|;
    assert values[i] == Candidate(s, pos, modulus, j);
    if NonZeros(values) == [] {
      NonZerosNone(values, i);
    }
  }

  /** A round that keeps nothing ends before a long enough run does, and did not start with it. */
  lemma EmptyRound(s: Stream, pos: nat, modulus: nat, n: nat, j: nat, length: nat)
    requires modulus >= 2 && n >= 1 && Terminates(s, pos, modulus, n) && ReadsInside(s, pos, modulus, n)
    requires NonZeros(Outcome(s, pos, modulus, n).value) == []
    requires Usable(s, pos, modulus, j, length) && length > 0
    requires j == 0 || length > BatchSize(n, modulus) - n
    ensures j > 0 && 0 < Consumed(s, pos, modulus, n) < j + length
  {
    hide SampleSize, RoundedSamples, BatchSize, BytesPerValue, Accepted, Candidate, Batches, Draw, Past, NonZeros;
    var enough := LongEnough(s, pos, modulus, n);
    var total := Consumed(s, pos, modulus, n);
    ConsumedIs(s, pos, modulus, n, enough);
    DrawnFromBatches(s, pos, modulus, n, enough);
    DrawFrom(s, pos, modulus, n, total);
    var b := LastBatch(s, pos, modulus, n, enough);
    var before := |Accepted(s, pos, modulus, b)|;
    AcceptedNone(s, pos, modulus);
    if j < total && |Accepted(s, pos, modulus, j)| < n {
      UsableIsKept(s, pos, modulus, n, total, j);
    }
    if b <= j {
      AcceptedGrows(s, pos, modulus, b, j);
      SparesOfBatchGrow(n - before, n, modulus);
    } else {
      AcceptedGrows(s, pos, modulus, j, b);
    }
  }

  // All rounds.

  /** A run, or what is left of it, seen from a later position. */
  lemma UsableShift(s: Stream, pos: nat, modulus: nat, m: nat, j: nat, length: nat, j': nat, length': nat)
    requires modulus >= 1 && Usable(s, pos, modulus, j, length)
    requires j <= m + j' && m + j' + length' <= j + length
    ensures Usable(s, Past(pos, modulus, m), modulus, j', length')
  {
    hide Candidate, Past;
    forall k | j' <= k < j' + length'
      ensures 1 <= Candidate(s, Past(pos, modulus, m), modulus, k) < modulus
    {
      CandidateShift(s, pos, modulus, m, k);
    }
  }

  lemma NextRun(s: Stream, pos: nat, modulus: nat, length: nat, q: nat) returns (j: nat)
    requires modulus >= 1 && RunsRecur(s, pos, modulus, length)
    ensures j >= q && Usable(s, pos, modulus, j, length)
  {
    hide Usable;
    assert RunAfter(s, pos, modulus, q, length);
    j :| j >= q && Usable(s, pos, modulus, j, length);
  }

  lemma RunsRecurLater(s: Stream, pos: nat, modulus: nat, length: nat, m: nat)
    requires modulus >= 1 && RunsRecur(s, pos, modulus, length)
    ensures RunsRecur(s, Past(pos, modulus, m), modulus, length)
  {
    hide Usable, Past;
    forall q: nat
      ensures RunAfter(s, Past(pos, modulus, m), modulus, q, length)
    {
      var j := NextRun(s, pos, modulus, length, m + q);
      UsableShift(s, pos, modulus, m, j, length, j - m, length);
    }
  }

  lemma {:induction false} RunsAreFair(s: Stream, pos: nat, modulus: nat, length: nat, size: nat)
    returns (n: nat)
    requires modulus >= 1 && length >= 1 && RunsRecur(s, pos, modulus, length)
    ensures |Accepted(s, pos, modulus, n)| >= size
    decreases size
  {
    hide Candidate, RunsRecur, Accepted;
    if size == 0 {
      n := 0;
    } else {
      var m := RunsAreFair(s, pos, modulus, length, size - 1);
      var j := NextRun(s, pos, modulus, length, m);
      AcceptedGrows(s, pos, modulus, m, j);
      AcceptedStep(s, pos, modulus, j);
      n := j + 1;
    }
  }

  lemma OneMoreRound(s: Stream, pos: nat, modulus: nat, size: nat, rounds: nat)
    requires modulus >= 2 && size >= 1 && Terminates(s, pos, modulus, NonZeroSampleSize(size, modulus))
    requires var n := NonZeroSampleSize(size, modulus);
             ReadsInside(s, pos, modulus, n) ==>
               var got := |NonZeros(Outcome(s, pos, modulus, n).value)|;
               || got >= size
               || EndsWithin(s, Past(pos, modulus, Consumed(s, pos, modulus, n)), modulus, size - got, rounds)
    ensures EndsWithin(s, pos, modulus, size, rounds + 1)
  {
    hide SampleSize, RoundedSamples, BatchSize, Accepted, Past, Consumed, Draw, NonZeroSampleSize;
  }

  lemma TerminatesIfFair(s: Stream, pos: nat, modulus: nat, n: nat, enough: nat)
    requires modulus >= 2 && |Accepted(s, pos, modulus, enough)| >= n
    ensures Terminates(s, pos, modulus, n)
  {
    hide Accepted;
  }

  lemma OutcomeInside(s: Stream, pos: nat, modulus: nat, n: nat)
    requires modulus >= 2 && Terminates(s, pos, modulus, n) && ReadsInside(s, pos, modulus, n)
    ensures Outcome(s, pos, modulus, n).Success?
  {
  }

  /** The rounds go on until one of them meets the run; then less is missing. */
  lemma {:induction false} RunsEnd(s: Stream, pos: nat, modulus: nat, size: nat, length: nat, j: nat, ahead: nat)
    returns (rounds: nat)
    requires modulus >= 2 && size >= 1 && length > Spare(size, modulus) && RunsRecur(s, pos, modulus, length)
    requires Usable(s, pos, modulus, j, ahead) && ahead > 0 && (j == 0 || ahead > Spare(size, modulus))
    ensures EndsWithin(s, pos, modulus, size, rounds)
    decreases size, j
  {
    hide *;
    var n := NonZeroSampleSize(size, modulus);
    SpareIs(size, modulus);
    var enough := RunsAreFair(s, pos, modulus, length, n);
    TerminatesIfFair(s, pos, modulus, n, enough);
    rounds := 0;
    if ReadsInside(s, pos, modulus, n) {
      OutcomeInside(s, pos, modulus, n);
      var got := NonZeros(Outcome(s, pos, modulus, n).value);
      var total := Consumed(s, pos, modulus, n);
      var next := Past(pos, modulus, total);
      RunsRecurLater(s, pos, modulus, length, total);
      if got == [] {
        EmptyRound(s, pos, modulus, n, j, ahead);
        var j', ahead' := if j < total then 0 else j - total, if j < total then j + ahead - total else ahead;
        UsableShift(s, pos, modulus, total, j, ahead, j', ahead');
        rounds := RunsEnd(s, next, modulus, size, length, j', ahead');
      } else if |got| < size {
        SpareGrows(size - |got|, size, modulus);
        var later := NextRun(s, next, modulus, length, 0);
        rounds := RunsEnd(s, next, modulus, size - |got|, length, later, length);
      }
    }
    OneMoreRound(s, pos, modulus, size, rounds);
    rounds := rounds + 1;
  }

  /** Runs longer than the spare candidates of a batch make the call end. */
  lemma LongRunsSuffice(s: Stream, pos: nat, modulus: nat, size: nat, length: nat)
    requires modulus >= 2 && size >= 1 && length > Spare(size, modulus) && RunsRecur(s, pos, modulus, length)
    ensures NonZeroTerminates(s, pos, modulus, size)
  {
    hide *;
    var j := NextRun(s, pos, modulus, length, 0);
    var rounds := RunsEnd(s, pos, modulus, size, length, j, length);
    NonZeroOutcomeIs(s, pos, modulus, size, rounds);
  }

  // Streams on which no run is long enough.

  /** Batches of this size whose first n candidates are 0 and whose spare ones are 1. */
  ghost predicate Wasteful(s: Stream, pos: nat, modulus: nat, n: nat, batch: nat)
    requires modulus >= 1 && batch >= 1
  {
    forall k: nat :: Candidate(s, pos, modulus, k) == if k % batch < n then 0 else 1
  }

  lemma WastefulShift(s: Stream, pos: nat, modulus: nat, n: nat, batch: nat)
    requires modulus >= 1 && batch >= 1 && Wasteful(s, pos, modulus, n, batch)
    ensures Wasteful(s, Past(pos, modulus, batch), modulus, n, batch)
  {
    hide Candidate, Past;
    forall k: nat
      ensures Candidate(s, Past(pos, modulus, batch), modulus, k) == if k % batch < n then 0 else 1
    {
      CandidateShift(s, pos, modulus, batch, k);
      ModMultiple(k, 1, batch);
      assert k + batch * 1 == batch + k;
    }
  }

  lemma {:induction false} WastefulAccepted(s: Stream, pos: nat, modulus: nat, n: nat, batch: nat, m: nat)
    requires modulus >= 2 && batch >= 1 && m <= batch && Wasteful(s, pos, modulus, n, batch)
    ensures |Accepted(s, pos, modulus, m)| == m
    ensures m <= n ==> NonZeros(Accepted(s, pos, modulus, m)) == []
  {
    hide Candidate, Accepted;
    AcceptedNone(s, pos, modulus);
    if m > 0 {
      WastefulAccepted(s, pos, modulus, n, batch, m - 1);
      AcceptedStep(s, pos, modulus, m - 1);
      ModUnique(m - 1, batch, 0, m - 1);
      var all := Accepted(s, pos, modulus, m);
      assert all[..m - 1] == Accepted(s, pos, modulus, m - 1);
    }
  }

  /** A round over such a batch reads all of it and keeps nothing. */
  lemma WastedRound(s: Stream, pos: nat, modulus: nat, n: nat)
    requires modulus >= 2 && n >= 1 && Wasteful(s, pos, modulus, n, BatchSize(n, modulus))
    ensures Terminates(s, pos, modulus, n) && ReadsInside(s, pos, modulus, n)
    ensures NonZeros(Outcome(s, pos, modulus, n).value) == []
    ensures Consumed(s, pos, modulus, n) == BatchSize(n, modulus)
  {
    hide SampleSize, RoundedSamples, BatchSize, BytesPerValue, Accepted, Candidate, Batches, Draw, Past, NonZeros,
         Wasteful;
    var batch := BatchSize(n, modulus);
    WastefulAccepted(s, pos, modulus, n, batch, n);
    WastefulAccepted(s, pos, modulus, n, batch, batch);
    DrawFrom(s, pos, modulus, n, n);
    assert Accepted(s, pos, modulus, n)[..n] == Accepted(s, pos, modulus, n);
    ConsumedIs(s, pos, modulus, n, batch);
    BatchesStep(s, pos, modulus, n, batch, batch);
  }

  lemma RoundsLeft(s: Stream, pos: nat, modulus: nat, size: nat, rounds: nat)
    requires modulus >= 2 && size >= 1 && EndsWithin(s, pos, modulus, size, rounds)
    requires var n := NonZeroSampleSize(size, modulus);
             && Terminates(s, pos, modulus, n)
             && ReadsInside(s, pos, modulus, n)
             && NonZeros(Outcome(s, pos, modulus, n).value) == []
    ensures rounds > 0
    ensures EndsWithin(s, Past(pos, modulus, Consumed(s, pos, modulus, NonZeroSampleSize(size, modulus))), modulus,
                       size, rounds - 1)
  {
    hide SampleSize, RoundedSamples, BatchSize, Accepted, Past, Consumed, Draw, NonZeroSampleSize;
  }

  /** On such a stream every round reads its batch for nothing. */
  lemma {:induction false} WastefulNeverEnds(s: Stream, pos: nat, modulus: nat, size: nat, rounds: nat)
    requires modulus >= 2 && size >= 1
    requires var n := NonZeroSampleSize(size, modulus);
             n >= 1 && Wasteful(s, pos, modulus, n, BatchSize(n, modulus))
    ensures !EndsWithin(s, pos, modulus, size, rounds)
    decreases rounds
  {
    hide *;
    if EndsWithin(s, pos, modulus, size, rounds) {
      var n := NonZeroSampleSize(size, modulus);
      WastedRound(s, pos, modulus, n);
      RoundsLeft(s, pos, modulus, size, rounds);
      WastefulShift(s, pos, modulus, n, BatchSize(n, modulus));
      WastefulNeverEnds(s, Past(pos, modulus, BatchSize(n, modulus)), modulus, size, rounds - 1);
    }
  }

  /** All spare candidates of every batch are usable. */
  lemma WastefulRuns(s: Stream, pos: nat, modulus: nat, n: nat, batch: nat, length: nat)
    requires modulus >= 2 && n + length <= batch && batch >= 1 && Wasteful(s, pos, modulus, n, batch)
    ensures RunsRecur(s, pos, modulus, length)
  {
    hide Candidate;
    forall q: nat
      ensures RunAfter(s, pos, modulus, q, length)
    {
      ScaledDistance(q, batch, 1, 0);
      var j := batch * q + n;
      forall k | j <= k < j + length
        ensures 1 <= Candidate(s, pos, modulus, k) < modulus
      {
        ModUnique(k, batch, q, k - batch * q);
      }
      assert j >= q && Usable(s, pos, modulus, j, length);
    }
  }

  /** Such a stream for values of w bytes. */
  function WastefulStream(w: nat, n: nat, batch: nat): Stream
    requires w >= 1 && batch >= 1
  {
    i => if (i / w) % batch < n || i % w != w - 1 then 0 else 1
  }

  lemma WastefulByte(w: nat, n: nat, batch: nat, k: nat, i: nat)
    requires w >= 1 && batch >= 1 && i < w
    ensures k * w + i >= 0
    ensures WastefulStream(w, n, batch)(k * w + i) == if k % batch < n || i != w - 1 then 0 else 1
  {
    ModUnique(k * w + i, w, k, i);
  }

  lemma {:induction false} WastefulBigEndian(w: nat, n: nat, batch: nat, k: nat, m: nat)
    requires w >= 1 && batch >= 1 && m <= w
    ensures k * w >= 0
    ensures BigEndian(WastefulStream(w, n, batch), k * w, m) == if k % batch < n || m < w then 0 else 1
  {
    hide WastefulStream;
    if m > 0 {
      WastefulBigEndian(w, n, batch, k, m - 1);
      WastefulByte(w, n, batch, k, m - 1);
    }
  }

  lemma WastefulStreamIs(modulus: nat, n: nat, batch: nat)
    requires modulus >= 2 && batch >= 1
    ensures BytesPerValue(modulus) >= 1
    ensures Wasteful(WastefulStream(BytesPerValue(modulus), n, batch), 0, modulus, n, batch)
  {
    hide BitLength, WastefulStream, BigEndian;
    RangeOfModulus(modulus);
    var w := BytesPerValue(modulus);
    forall k: nat
      ensures Candidate(WastefulStream(w, n, batch), 0, modulus, k) == if k % batch < n then 0 else 1
    {
      WastefulBigEndian(w, n, batch, k, w);
      assert 0 + k * w == k * w;
      CandidateIs(WastefulStream(w, n, batch), 0, modulus, k);
      ModUnique(1, Pow2(BitLength(modulus)), 0, 1);
      ModUnique(0, Pow2(BitLength(modulus)), 0, 0);
    }
  }

  lemma WastefulCall(s: Stream, pos: nat, modulus: nat, size: nat)
    requires modulus >= 2 && size >= 1
    requires var n := NonZeroSampleSize(size, modulus);
             n >= 1 && Wasteful(s, pos, modulus, n, BatchSize(n, modulus))
    ensures !NonZeroTerminates(s, pos, modulus, size)
  {
    hide EndsWithin, NonZeroSampleSize, Wasteful, BatchSize;
    forall rounds: nat
      ensures !EndsWithin(s, pos, modulus, size, rounds)
    {
      WastefulNeverEnds(s, pos, modulus, size, rounds);
    }
  }

  /**
   * Usable candidates that come in recurring runs make every call end exactly when the runs are longer
   * than the spare candidates of a batch. Shorter runs can be dropped as spares for ever.
   */
  lemma EndsOnEveryFairStream(modulus: nat, size: nat, length: nat)
    requires modulus >= 2 && size >= 1
    ensures (forall s: Stream, pos: nat :: RunsRecur(s, pos, modulus, length) ==>
                                             NonZeroTerminates(s, pos, modulus, size))
       <==> length > Spare(size, modulus)
  {
    hide *;
    if length > Spare(size, modulus) {
      forall s: Stream, pos: nat | RunsRecur(s, pos, modulus, length)
        ensures NonZeroTerminates(s, pos, modulus, size)
      {
        LongRunsSuffice(s, pos, modulus, size, length);
      }
    } else {
      SpareIs(size, modulus);
      var n := NonZeroSampleSize(size, modulus);
      var batch := BatchSize(n, modulus);
      WastefulStreamIs(modulus, n, batch);
      var s := WastefulStream(BytesPerValue(modulus), n, batch);
      WastefulRuns(s, 0, modulus, n, batch, length);
      WastefulCall(s, 0, modulus, size);
    }
  }

  /** Modulus 4, one value: on the bytes 0, 0, 1, 0, 0, 1, ... each round reads three and keeps two zeros. */
  lemma ZeroZeroOne(s: Stream, i: nat)
    requires forall k: nat :: s(k) == if k % 3 == 2 then 1 else 0
    ensures RunsRecur(s, 3 * i, 4, 1)
    ensures !NonZeroTerminates(s, 3 * i, 4, 1)
  {
    hide Accepted, EndsWithin;
    var n, batch := 2, 3;
    assert NonZeroSampleSize(1, 4) == n;
    SampleSizeInIntegers(n, 4);
    assert BatchSize(n, 4) == batch;
    forall k: nat
      ensures Candidate(s, 3 * i, 4, k) == if k % batch < n then 0 else 1
    {
      BigEndianOfNone(s, 3 * i + k);
    }
    WastefulRuns(s, 3 * i, 4, n, batch, 1);
    WastefulCall(s, 3 * i, 4, 1);
  }
}
