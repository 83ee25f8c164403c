/** Drawing without zeros: rounds of batched draws, each dropping its zeros. */
module NonZeroDraws {
  import opened Arithmetic
  import opened Batching
  import opened Results
  import opened Sampling

  function NonZeros(s: seq<nat>): (r: seq<nat>)
    ensures |r| <= |s|
  {
    if |s| == 0 then []
    else
      var n := |s| - 1;
      if s[n] > 0 then NonZeros(s[..n]) + [s[n]] else NonZeros(s[..n])
  }

  lemma NonZerosStep(s: seq<nat>, i: nat)
    ensures NonZeros(s[..0]) == []
    ensures i < |s| ==> NonZeros(s[..i + 1]) == if s[i] > 0 then NonZeros(s[..i]) + [s[i]] else NonZeros(s[..i])
  {
    if i < |s| {
      assert s[..i + 1][..i] == s[..i];
    }
  }

  function FirstOf(s: seq<nat>, size: nat): seq<nat> {
    if |s| >= size then s[..size] else s
  }

  lemma FirstOfPrefix(a: seq<nat>, b: seq<nat>, size: nat)
    requires |a| <= size
    ensures |a| == size ==> FirstOf(a + b, size) == a
    ensures |b| == 0 ==> FirstOf(a + b, size) == a
  {
  }

  lemma {:induction false} NonZerosGrow(a: seq<nat>, b: seq<nat>)
    ensures NonZeros(a + b) == NonZeros(a) + NonZeros(b)
    decreases |b|
  {
    if |b| == 0 {
      assert a + b == a;
    } else {
      var n := |b| - 1;
      assert (a + b)[..|a + b| - 1] == a + b[..n];
      NonZerosGrow(a, b[..n]);
    }
  }

  /** c + 1 + f*c/(1 - f) rounded down, for the failure rate f = 1/modulus. */
  function NonZeroSampleSize(c: nat, modulus: nat): (n: nat)
    requires modulus >= 2
    ensures n == 1 + c * modulus / (modulus - 1)
  {
    RealParts(c * modulus, c, modulus, 0);
    RoundedSamplesInIntegers(c, modulus, modulus - 1, c * modulus);
    QuotientBounds(c * modulus, modulus - 1);
    RoundedSamples(c as real, modulus as real, (modulus - 1) as real)
  }

  function Prepend(kept: seq<nat>, rest: Result<seq<nat>>): Result<seq<nat>> {
    if rest.Failure? then rest else Success(kept + rest.value)
  }

  /** The rounds end: each inner draw ends, and all of them together give enough values other than 0. */
  ghost predicate EndsWithin(s: Stream, pos: nat, modulus: nat, size: nat, rounds: nat)
    requires modulus >= 2
    decreases rounds
  {
    hide SampleSize, RoundedSamples, BatchSize, Accepted;
    size == 0
    || var n := NonZeroSampleSize(size, modulus);
       && rounds > 0
       && Terminates(s, pos, modulus, n)
       && (ReadsInside(s, pos, modulus, n) ==>
             var got := NonZeros(Outcome(s, pos, modulus, n).value);
             |got| >= size
             || EndsWithin(s, Past(pos, modulus, Consumed(s, pos, modulus, n)), modulus,
                                  size - |got|, rounds - 1))
  }

  /** Rounds of drawing and dropping zeros until there are enough; each round goes on where the last one stopped. */
  ghost function OutcomeWithin(s: Stream, pos: nat, modulus: nat, size: nat, rounds: nat): Result<seq<nat>>
    requires modulus >= 2 && EndsWithin(s, pos, modulus, size, rounds)
    decreases rounds
  {
    hide SampleSize, RoundedSamples, BatchSize, Accepted;
    if size == 0 then Success([])
    else
      var n := NonZeroSampleSize(size, modulus);
      if !ReadsInside(s, pos, modulus, n) then Failure(UndefinedBehavior)
      else
        var got := NonZeros(Outcome(s, pos, modulus, n).value);
        if |got| >= size then Success(got[..size])
        else
          Prepend(got, OutcomeWithin(s, Past(pos, modulus, Consumed(s, pos, modulus, n)), modulus,
                                      size - |got|, rounds - 1))
  }

  /** Where the generator stands after those rounds. */
  ghost function PositionWithin(s: Stream, pos: nat, modulus: nat, size: nat, rounds: nat): nat
    requires modulus >= 2 && EndsWithin(s, pos, modulus, size, rounds)
    decreases rounds
  {
    hide SampleSize, RoundedSamples, BatchSize, Accepted;
    if size == 0 then pos
    else
      var n := NonZeroSampleSize(size, modulus);
      var next := Past(pos, modulus, Consumed(s, pos, modulus, n));
      if !ReadsInside(s, pos, modulus, n) then next
      else
        var got := |NonZeros(Outcome(s, pos, modulus, n).value)|;
        if got >= size then next else PositionWithin(s, next, modulus, size - got, rounds - 1)
  }

  lemma PrependNothing(r: Result<seq<nat>>)
    ensures Prepend([], r) == r
  {
    if r.Success? {
      assert [] + r.value == r.value;
    }
  }

  lemma PrependFailure(kept: seq<nat>, e: Error)
    ensures Prepend(kept, Failure(e)) == Failure(e)
  {
  }

  lemma PrependSuccess(kept: seq<nat>)
    ensures Prepend(kept, Success([])) == Success(kept)
  {
    assert kept + [] == kept;
  }

  lemma FirstOfLength(kept: seq<nat>, got: seq<nat>, size: nat)
    requires |kept| <= size
    ensures |FirstOf(kept + got, size)| == if |got| >= size - |kept| then size else |kept| + |got|
  {
  }

  /** What a round adds to the values kept so far. */
  lemma PrependRound(kept: seq<nat>, got: seq<nat>, size: nat, here: Result<seq<nat>>, next: Result<seq<nat>>)
    requires |kept| < size
    requires here == if |got| >= size - |kept| then Success(got[..size - |kept|]) else Prepend(got, next)
    requires |got| >= size - |kept| ==> next == Success([])
    ensures Prepend(kept, here) == Prepend(FirstOf(kept + got, size), next)
  {
    if |got| >= size - |kept| {
      assert (kept + got)[..size] == kept + got[..size - |kept|];
      assert (kept + got)[..size] + [] == (kept + got)[..size];
    } else if next.Success? {
      assert kept + (got + next.value) == kept + got + next.value;
    }
  }

  lemma NoneMissing(s: Stream, pos: nat, modulus: nat, rounds: nat)
    requires modulus >= 2
    ensures EndsWithin(s, pos, modulus, 0, rounds)
    ensures OutcomeWithin(s, pos, modulus, 0, rounds) == Success([])
    ensures PositionWithin(s, pos, modulus, 0, rounds) == pos
  {
  }

  lemma NonZeroStep(s: Stream, pos: nat, modulus: nat, size: nat, rounds: nat)
    requires modulus >= 2 && size >= 1 && EndsWithin(s, pos, modulus, size, rounds)
    ensures rounds > 0
    ensures var n := NonZeroSampleSize(size, modulus);
            && Terminates(s, pos, modulus, n)
            && var drawn, next := Outcome(s, pos, modulus, n), Past(pos, modulus, Consumed(s, pos, modulus, n));
            && (drawn.Failure? ==>
                  OutcomeWithin(s, pos, modulus, size, rounds) == Failure(drawn.error)
                  && PositionWithin(s, pos, modulus, size, rounds) == next)
            && (drawn.Success? ==>
                  var got := NonZeros(drawn.value);
                  if |got| >= size then
                    OutcomeWithin(s, pos, modulus, size, rounds) == Success(got[..size])
                    && PositionWithin(s, pos, modulus, size, rounds) == next
                  else
                    && EndsWithin(s, next, modulus, size - |got|, rounds - 1)
                    && OutcomeWithin(s, pos, modulus, size, rounds)
                       == Prepend(got, OutcomeWithin(s, next, modulus, size - |got|, rounds - 1))
                    && PositionWithin(s, pos, modulus, size, rounds)
                       == PositionWithin(s, next, modulus, size - |got|, rounds - 1))
  {
    hide SampleSize, RoundedSamples, BatchSize, Accepted, Past, Consumed, Draw, NonZeroSampleSize;
    var n := NonZeroSampleSize(size, modulus);
    assert Outcome(s, pos, modulus, n).Success? <==> ReadsInside(s, pos, modulus, n);
  }

  /** The bound on the number of rounds shows neither in the result nor in the final position. */
  lemma {:induction false} NonZeroDetermined(s: Stream, pos: nat, modulus: nat, size: nat, k: nat, k': nat)
    requires modulus >= 2
    requires EndsWithin(s, pos, modulus, size, k) && EndsWithin(s, pos, modulus, size, k')
    ensures OutcomeWithin(s, pos, modulus, size, k) == OutcomeWithin(s, pos, modulus, size, k')
    ensures PositionWithin(s, pos, modulus, size, k) == PositionWithin(s, pos, modulus, size, k')
    decreases k
  {
    hide *;
    if size == 0 {
      NoneMissing(s, pos, modulus, k);
      NoneMissing(s, pos, modulus, k');
    } else {
      NonZeroStep(s, pos, modulus, size, k);
      NonZeroStep(s, pos, modulus, size, k');
      var n := NonZeroSampleSize(size, modulus);
      var drawn := Outcome(s, pos, modulus, n);
      if drawn.Success? && |NonZeros(drawn.value)| < size {
        NonZeroDetermined(s, Past(pos, modulus, Consumed(s, pos, modulus, n)), modulus,
                          size - |NonZeros(drawn.value)|, k - 1, k' - 1);
      }
    }
  }

  /** The rounds end, after however many there are. */
  ghost predicate NonZeroTerminates(s: Stream, pos: nat, modulus: nat, size: nat)
    requires modulus >= 2
  {
    exists rounds: nat :: EndsWithin(s, pos, modulus, size, rounds)
  }

  /** What a call for `size` values other than 0 gives. */
  ghost function NonZeroOutcome(s: Stream, pos: nat, modulus: nat, size: nat): Result<seq<nat>>
    requires modulus >= 2 && NonZeroTerminates(s, pos, modulus, size)
  {
    hide EndsWithin, OutcomeWithin;
    var rounds: nat :| EndsWithin(s, pos, modulus, size, rounds);
    OutcomeWithin(s, pos, modulus, size, rounds)
  }

  /** Where such a call leaves the generator. */
  ghost function NonZeroEnd(s: Stream, pos: nat, modulus: nat, size: nat): nat
    requires modulus >= 2 && NonZeroTerminates(s, pos, modulus, size)
  {
    hide EndsWithin, PositionWithin;
    var rounds: nat :| EndsWithin(s, pos, modulus, size, rounds);
    PositionWithin(s, pos, modulus, size, rounds)
  }

  lemma NonZeroOutcomeIs(s: Stream, pos: nat, modulus: nat, size: nat, rounds: nat)
    requires modulus >= 2 && EndsWithin(s, pos, modulus, size, rounds)
    ensures NonZeroTerminates(s, pos, modulus, size)
    ensures NonZeroOutcome(s, pos, modulus, size) == OutcomeWithin(s, pos, modulus, size, rounds)
    ensures NonZeroEnd(s, pos, modulus, size) == PositionWithin(s, pos, modulus, size, rounds)
  {
    hide EndsWithin, OutcomeWithin, PositionWithin;
    var k: nat :| EndsWithin(s, pos, modulus, size, k)
                  && NonZeroOutcome(s, pos, modulus, size) == OutcomeWithin(s, pos, modulus, size, k);
    NonZeroDetermined(s, pos, modulus, size, k, rounds);
    var l: nat :| EndsWithin(s, pos, modulus, size, l)
                  && NonZeroEnd(s, pos, modulus, size) == PositionWithin(s, pos, modulus, size, l);
    NonZeroDetermined(s, pos, modulus, size, l, rounds);
  }

  lemma SomeRounds(s: Stream, pos: nat, modulus: nat, size: nat) returns (rounds: nat)
    requires modulus >= 2 && NonZeroTerminates(s, pos, modulus, size)
    ensures EndsWithin(s, pos, modulus, size, rounds)
    ensures NonZeroOutcome(s, pos, modulus, size) == OutcomeWithin(s, pos, modulus, size, rounds)
    ensures NonZeroEnd(s, pos, modulus, size) == PositionWithin(s, pos, modulus, size, rounds)
  {
    hide EndsWithin, OutcomeWithin, PositionWithin, NonZeroOutcome, NonZeroEnd;
    rounds :| EndsWithin(s, pos, modulus, size, rounds);
    NonZeroOutcomeIs(s, pos, modulus, size, rounds);
  }

  /** The values are candidates at these indexes, in increasing order, all below the bound. */
  ghost predicate Picked(s: Stream, pos: nat, modulus: nat, indexes: seq<nat>, values: seq<nat>, bound: nat)
    requires modulus >= 1
  {
    && |indexes| == |values|
    && (forall i :: 0 <= i < |indexes| ==> indexes[i] < bound && values[i] == Candidate(s, pos, modulus, indexes[i]))
    && forall i, j :: 0 <= i < j < |indexes| ==> indexes[i] < indexes[j]
  }

  /** The accepted values are those of all candidates below the modulus, in order. */
  lemma {:induction false} AcceptedPicked(s: Stream, pos: nat, modulus: nat, n: nat) returns (indexes: seq<nat>)
    requires modulus >= 1
    ensures Picked(s, pos, modulus, indexes, Accepted(s, pos, modulus, n), n)
    ensures forall k :: 0 <= k < n ==> (k in indexes <==> Candidate(s, pos, modulus, k) < modulus)
  {
    hide Candidate;
    if n == 0 {
      indexes := [];
    } else {
      indexes := AcceptedPicked(s, pos, modulus, n - 1);
      if Candidate(s, pos, modulus, n - 1) < modulus {
        indexes := indexes + [n - 1];
      }
    }
  }

  lemma {:induction false} NonZerosPicked(s: Stream, pos: nat, modulus: nat, indexes: seq<nat>, values: seq<nat>,
                                          bound: nat)
    returns (kept: seq<nat>)
    requires modulus >= 1 && Picked(s, pos, modulus, indexes, values, bound)
    ensures Picked(s, pos, modulus, kept, NonZeros(values), bound)
    ensures forall i :: 0 <= i < |kept| ==> kept[i] in indexes
    decreases |values|
  {
    hide Candidate, NonZeros;
    if |values| == 0 {
      NonZerosStep(values, 0);
      assert values == values[..0];
      kept := [];
    } else {
      var n := |values| - 1;
      NonZerosStep(values, n);
      assert values == values[..n + 1];
      kept := NonZerosPicked(s, pos, modulus, indexes[..n], values[..n], bound);
      if values[n] > 0 {
        assert forall i :: 0 <= i < |kept| ==> kept[i] < indexes[n];
        kept := kept + [indexes[n]];
      }
    }
  }

  lemma {:induction false} NonZerosPositive(values: seq<nat>, modulus: nat)
    requires forall i :: 0 <= i < |values| ==> values[i] < modulus
    ensures forall i :: 0 <= i < |NonZeros(values)| ==> 1 <= NonZeros(values)[i] < modulus
    decreases |values|
  {
    if |values| > 0 {
      NonZerosPositive(values[..|values| - 1], modulus);
    }
  }

  /** What a successful call returns was accepted among the candidates it consumed. */
  lemma {:induction false} DrawnFromBatches(s: Stream, pos: nat, modulus: nat, size: nat, enough: nat)
    requires modulus >= 2 && ReadsInside(s, pos, modulus, size)
    requires BytesPerValue(modulus) == 1 ==> |Accepted(s, pos, modulus, enough)| >= size
    ensures |Accepted(s, pos, modulus, Batches(s, pos, modulus, size, enough))| >= size
    decreases enough
  {
    hide SampleSize, RoundedSamples, BatchSize, BytesPerValue, Accepted, Past;
    if size > 0 {
      var n := BatchSize(size, modulus);
      BatchesStep(s, pos, modulus, size, enough, n);
      var got := |Accepted(s, pos, modulus, n)|;
      if got < size {
        var next := Past(pos, modulus, n);
        DrawnFromBatches(s, next, modulus, size - got, enough - n);
        AcceptedSplit(s, pos, modulus, n, Batches(s, next, modulus, size - got, enough - n));
      }
    }
  }

  lemma DrawPicked(s: Stream, pos: nat, modulus: nat, size: nat) returns (indexes: seq<nat>)
    requires modulus >= 2 && Terminates(s, pos, modulus, size) && Outcome(s, pos, modulus, size).Success?
    ensures Picked(s, pos, modulus, indexes, Outcome(s, pos, modulus, size).value,
                   Consumed(s, pos, modulus, size))
  {
    hide SampleSize, RoundedSamples, BatchSize, BytesPerValue, Accepted, Candidate, Batches, Draw;
    var enough := LongEnough(s, pos, modulus, size);
    var n := Consumed(s, pos, modulus, size);
    ConsumedIs(s, pos, modulus, size, enough);
    DrawnFromBatches(s, pos, modulus, size, enough);
    DrawFrom(s, pos, modulus, size, n);
    var all := AcceptedPicked(s, pos, modulus, n);
    indexes := all[..size];
  }

  lemma PickedAfter(s: Stream, pos: nat, modulus: nat, a: seq<nat>, v: seq<nat>, n: nat,
                    b: seq<nat>, w: seq<nat>, bound: nat)
    returns (indexes: seq<nat>)
    requires modulus >= 1 && Picked(s, pos, modulus, a, v, n)
    requires Picked(s, Past(pos, modulus, n), modulus, b, w, bound)
    ensures Picked(s, pos, modulus, indexes, v + w, n + bound)
  {
    hide Candidate, Past;
    indexes := a + seq(|b|, i requires 0 <= i < |b| => n + b[i]);
    forall i | 0 <= i < |indexes|
      ensures indexes[i] < n + bound && (v + w)[i] == Candidate(s, pos, modulus, indexes[i])
    {
      if i >= |a| {
        CandidateShift(s, pos, modulus, n, b[i - |a|]);
      }
    }
  }

  lemma {:induction false} SelectionWithin(s: Stream, pos: nat, modulus: nat, size: nat, rounds: nat)
    returns (indexes: seq<nat>, bound: nat)
    requires modulus >= 2 && EndsWithin(s, pos, modulus, size, rounds)
    requires OutcomeWithin(s, pos, modulus, size, rounds).Success?
    ensures var values := OutcomeWithin(s, pos, modulus, size, rounds).value;
            && |values| == size
            && (forall i :: 0 <= i < size ==> 1 <= values[i] < modulus)
            && Picked(s, pos, modulus, indexes, values, bound)
    ensures PositionWithin(s, pos, modulus, size, rounds) == Past(pos, modulus, bound)
    decreases rounds
  {
    hide SampleSize, RoundedSamples, BatchSize, BytesPerValue, Accepted, Candidate, Batches, Draw, Consumed, Past,
         NonZeroSampleSize, ReadsInside, Terminates, NonZeros, EndsWithin, OutcomeWithin, PositionWithin;
    if size == 0 {
      NoneMissing(s, pos, modulus, rounds);
      PastIs(pos, modulus, 0, 0);
      indexes, bound := [], 0;
      return;
    }
    NonZeroStep(s, pos, modulus, size, rounds);
    var n := NonZeroSampleSize(size, modulus);
    var drawn := Outcome(s, pos, modulus, n);
    var consumed := Consumed(s, pos, modulus, n);
    var got, next := NonZeros(drawn.value), Past(pos, modulus, consumed);
    var picks := DrawPicked(s, pos, modulus, n);
    var first := NonZerosPicked(s, pos, modulus, picks, drawn.value, consumed);
    NonZerosPositive(drawn.value, modulus);
    if |got| >= size {
      indexes, bound := first[..size], consumed;
    } else {
      var later, end := SelectionWithin(s, next, modulus, size - |got|, rounds - 1);
      var rest := OutcomeWithin(s, next, modulus, size - |got|, rounds - 1);
      indexes := PickedAfter(s, pos, modulus, first, got, consumed, later, rest.value, end);
      bound := consumed + end;
      PastIs(pos, modulus, consumed, end);
    }
  }

  /** The values without zeros are an in-order selection, all in [1, modulus), from the candidates of the call. */
  lemma NonZeroSelection(s: Stream, pos: nat, modulus: nat, size: nat) returns (indexes: seq<nat>, bound: nat)
    requires modulus >= 2 && NonZeroTerminates(s, pos, modulus, size)
    requires NonZeroOutcome(s, pos, modulus, size).Success?
    ensures var values := NonZeroOutcome(s, pos, modulus, size).value;
            && |values| == size
            && (forall i :: 0 <= i < size ==> 1 <= values[i] < modulus)
            && Picked(s, pos, modulus, indexes, values, bound)
    ensures NonZeroEnd(s, pos, modulus, size) == Past(pos, modulus, bound)
  {
    hide *;
    var rounds := SomeRounds(s, pos, modulus, size);
    indexes, bound := SelectionWithin(s, pos, modulus, size, rounds);
  }
}
