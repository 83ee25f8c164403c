/** On which streams drawing without zeros returns its values, instead of ending with an undefined read. */
module NonZeroResults {
  import opened Arithmetic
  import opened Batching
  import opened NonZeroDraws
  import opened NonZeroFairness
  import opened Powers
  import opened Results
  import opened Sampling
  import opened StreamSafety

  /** The call ends with values. */
  ghost predicate Returns(s: Stream, pos: nat, modulus: nat, size: nat)
    requires modulus >= 2
  {
    NonZeroTerminates(s, pos, modulus, size) && NonZeroOutcome(s, pos, modulus, size).Success?
  }

  /** No inner draw can leave its buffer, whatever it asks for. */
  predicate SafeModulus(modulus: nat)
    requires modulus >= 1
  {
    modulus <= 256 || modulus == Pow2(BitLength(modulus))
  }

  lemma SafeModulusReadsInside(s: Stream, pos: nat, modulus: nat, n: nat)
    requires modulus >= 2 && SafeModulus(modulus)
    ensures ReadsInside(s, pos, modulus, n)
  {
    hide BitLength, BytesPerValue, Accepted, SampleSize, RoundedSamples;
    if modulus <= 256 {
      AtMostFourBytes(modulus);
    } else if n >= 1 {
      PowerOfTwoAcceptsAll(s, pos, modulus, BatchSize(n, modulus));
    }
  }

  lemma PrependedSuccess(kept: seq<nat>, rest: Result<seq<nat>>)
    requires rest.Success?
    ensures Prepend(kept, rest).Success?
  {
  }

  lemma {:induction false} SafeRoundsSucceed(s: Stream, pos: nat, modulus: nat, size: nat, rounds: nat)
    requires modulus >= 2 && SafeModulus(modulus) && EndsWithin(s, pos, modulus, size, rounds)
    ensures OutcomeWithin(s, pos, modulus, size, rounds).Success?
    decreases rounds
  {
    hide *;
    if size == 0 {
      NoneMissing(s, pos, modulus, rounds);
    } else {
      var n := NonZeroSampleSize(size, modulus);
      NonZeroStep(s, pos, modulus, size, rounds);
      SafeModulusReadsInside(s, pos, modulus, n);
      OutcomeInside(s, pos, modulus, n);
      var got := NonZeros(Outcome(s, pos, modulus, n).value);
      if |got| < size {
        var next := Past(pos, modulus, Consumed(s, pos, modulus, n));
        SafeRoundsSucceed(s, next, modulus, size - |got|, rounds - 1);
        PrependedSuccess(got, OutcomeWithin(s, next, modulus, size - |got|, rounds - 1));
      }
    }
  }

  lemma ReturnsIs(s: Stream, pos: nat, modulus: nat, size: nat)
    requires modulus >= 2
    ensures Returns(s, pos, modulus, size)
       <==> NonZeroTerminates(s, pos, modulus, size) && NonZeroOutcome(s, pos, modulus, size).Success?
  {
  }

  /** Where no draw leaves its buffer, recurring runs that are long enough make the call return values. */
  lemma LongRunsReturn(s: Stream, pos: nat, modulus: nat, size: nat, length: nat)
    requires modulus >= 2 && size >= 1 && SafeModulus(modulus)
    requires length > Spare(size, modulus) && RunsRecur(s, pos, modulus, length)
    ensures Returns(s, pos, modulus, size)
  {
    hide *;
    LongRunsSuffice(s, pos, modulus, size, length);
    var rounds := SomeRounds(s, pos, modulus, size);
    SafeRoundsSucceed(s, pos, modulus, size, rounds);
    ReturnsIs(s, pos, modulus, size);
  }

  // A stream that starts with one rejected batch.

  /** Bytes of 255 up to a place, then another stream. */
  function RejectedFirst(end: nat, later: Stream): Stream {
    i => if i < end then 255 else later(i)
  }

  lemma {:induction false} SameBytes(s: Stream, t: Stream, pos: nat, n: nat)
    requires forall i: nat :: pos <= i < pos + n ==> s(i) == t(i)
    ensures BigEndian(s, pos, n) == BigEndian(t, pos, n)
    decreases n
  {
    if n > 0 {
      SameBytes(s, t, pos, n - 1);
    }
  }

  lemma SameCandidate(s: Stream, t: Stream, modulus: nat, k: nat, start: nat)
    requires modulus >= 1 && start == k * BytesPerValue(modulus)
    requires forall i: nat :: start <= i < start + BytesPerValue(modulus) ==> s(i) == t(i)
    ensures Candidate(s, 0, modulus, k) == Candidate(t, 0, modulus, k)
  {
    hide *;
    CandidateIs(s, 0, modulus, k);
    CandidateIs(t, 0, modulus, k);
    SameBytes(s, t, start, BytesPerValue(modulus));
    assert 0 + k * BytesPerValue(modulus) == start;
  }

  lemma RejectedCandidate(later: Stream, modulus: nat, batch: nat, k: nat)
    requires modulus >= 1
    ensures Candidate(RejectedFirst(batch * BytesPerValue(modulus), later), 0, modulus, k)
         == if k < batch then Pow2(BitLength(modulus)) - 1 else Candidate(later, 0, modulus, k)
  {
    hide BitLength, BytesPerValue, Candidate, Pow2;
    var w := BytesPerValue(modulus);
    var s := RejectedFirst(batch * w, later);
    if k < batch {
      ScaledDistance(w, batch, k + 1, 0);
      assert (k + 1) * w == k * w + w;
      SameCandidate(s, AllOnes(), modulus, k, k * w);
      AllOnesCandidate(0, modulus, k);
    } else {
      ScaledDistance(w, k, batch, 0);
      SameCandidate(s, later, modulus, k, k * w);
    }
  }

  lemma {:induction false} RejectedBatch(later: Stream, modulus: nat, batch: nat, n: nat)
    requires modulus >= 2 && modulus != Pow2(BitLength(modulus)) && n <= batch
    ensures Accepted(RejectedFirst(batch * BytesPerValue(modulus), later), 0, modulus, n) == []
    decreases n
  {
    hide *;
    var s := RejectedFirst(batch * BytesPerValue(modulus), later);
    if n == 0 {
      AcceptedNone(s, 0, modulus);
    } else {
      RejectedBatch(later, modulus, batch, n - 1);
      AcceptedStep(s, 0, modulus, n - 1);
      RejectedCandidate(later, modulus, batch, n - 1);
      RangeOfModulus(modulus);
    }
  }

  lemma RejectedRuns(modulus: nat, batch: nat, length: nat)
    requires modulus >= 2
    ensures BytesPerValue(modulus) >= 1
    ensures var w := BytesPerValue(modulus);
            RunsRecur(RejectedFirst(batch * w, WastefulStream(w, 0, 1)), 0, modulus, length)
  {
    hide BitLength, BytesPerValue, Candidate, WastefulStream, RejectedFirst;
    WastefulStreamIs(modulus, 0, 1);
    var w := BytesPerValue(modulus);
    var later := WastefulStream(w, 0, 1);
    var s := RejectedFirst(batch * w, later);
    forall q: nat
      ensures RunAfter(s, 0, modulus, q, length)
    {
      var j := q + batch;
      forall k | j <= k < j + length
        ensures 1 <= Candidate(s, 0, modulus, k) < modulus
      {
        RejectedCandidate(later, modulus, batch, k);
      }
      assert j >= q && Usable(s, 0, modulus, j, length);
    }
  }

  lemma FirstDrawFails(s: Stream, pos: nat, modulus: nat, size: nat)
    requires modulus >= 2 && size >= 1 && BytesPerValue(modulus) != 1
    requires var n := NonZeroSampleSize(size, modulus);
             n >= 1 && |Accepted(s, pos, modulus, BatchSize(n, modulus))| < n
    ensures NonZeroTerminates(s, pos, modulus, size)
    ensures NonZeroOutcome(s, pos, modulus, size) == Failure(UndefinedBehavior)
  {
    hide SampleSize, RoundedSamples, BatchSize, BytesPerValue, Accepted, NonZeroSampleSize, Outcome, Consumed, Past,
         EndsWithin, OutcomeWithin, NonZeroTerminates, NonZeroOutcome, PositionWithin, NonZeroEnd;
    var n := NonZeroSampleSize(size, modulus);
    OneMoreRound(s, pos, modulus, size, 0);
    OutcomeFails(s, pos, modulus, n);
    NonZeroStep(s, pos, modulus, size, 1);
    NonZeroOutcomeIs(s, pos, modulus, size, 1);
  }

  /**
   * For moduli above 256 that are not powers of two: one rejected batch, and nothing but usable candidates
   * from there on, end the call with an undefined read.
   */
  lemma RejectedFirstFails(modulus: nat, size: nat, length: nat) returns (s: Stream)
    requires 2 <= modulus <= MAX_MODULUS && size >= 1 && !SafeModulus(modulus)
    ensures RunsRecur(s, 0, modulus, length)
    ensures NonZeroTerminates(s, 0, modulus, size)
    ensures NonZeroOutcome(s, 0, modulus, size) == Failure(UndefinedBehavior)
  {
    hide BitLength, BytesPerValue, Pow2, NonZeroSampleSize, BatchSize, Accepted, WastefulStream, RejectedFirst,
         RunsRecur, NonZeroTerminates, NonZeroOutcome;
    AtMostFourBytes(modulus);
    SpareIs(size, modulus);
    var n := NonZeroSampleSize(size, modulus);
    var w, batch := BytesPerValue(modulus), BatchSize(n, modulus);
    var later := WastefulStream(w, 0, 1);
    s := RejectedFirst(batch * w, later);
    RejectedRuns(modulus, batch, length);
    RejectedBatch(later, modulus, batch, batch);
    FirstDrawFails(s, 0, modulus, size);
  }

  /**
   * Usable candidates that come in recurring runs make every call return values exactly when the runs are
   * longer than the spare candidates of a batch and no draw can leave its buffer.
   */
  lemma ReturnsOnEveryFairStream(modulus: nat, size: nat, length: nat)
    requires 2 <= modulus <= MAX_MODULUS && size >= 1
    ensures (forall s: Stream, pos: nat :: RunsRecur(s, pos, modulus, length) ==> Returns(s, pos, modulus, size))
       <==> length > Spare(size, modulus) && (modulus <= 256 || modulus == Pow2(BitLength(modulus)))
  {
    hide RunsRecur, NonZeroTerminates, NonZeroOutcome, Spare, BitLength, Pow2;
    if length <= Spare(size, modulus) {
      EndsOnEveryFairStream(modulus, size, length);
    } else if SafeModulus(modulus) {
      forall s: Stream, pos: nat | RunsRecur(s, pos, modulus, length)
        ensures Returns(s, pos, modulus, size)
      {
        LongRunsReturn(s, pos, modulus, size, length);
      }
    } else {
      var s := RejectedFirstFails(modulus, size, length);
      assert !Returns(s, 0, modulus, size);
    }
  }
}
