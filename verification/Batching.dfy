/** Rejection sampling in batches: what a call draws, how far it reads, and when it stays inside its buffers. */
module Batching {
  import opened Arithmetic
  import opened Powers
  import opened Results
  import opened Sampling

  lemma {:induction false} BigEndianBound(s: Stream, pos: nat, n: nat)
    ensures BigEndian(s, pos, n) < Pow2(8 * n)
  {
    if n > 0 {
      BigEndianBound(s, pos, n - 1);
      Pow2Adds(8 * (n - 1), 8);
      assert Pow2(8) == 256;
      assert 8 * n == 8 * (n - 1) + 8;
    }
  }

  lemma Pow2At32()
    ensures Pow2(8) == 256 && Pow2(30) == MAX_MODULUS && Pow2(32) == 0x1_0000_0000
  {
    var n := 10;
    assert Pow2(n) == 1024;
    Pow2Adds(n, n);
    Pow2Adds(n + n, n);
    assert Pow2(2) == 4;
    Pow2Adds(n + n + n, 2);
    assert Pow2(8) == 256;
  }

  lemma WordHoldsFourBytes(s: Stream, pos: nat, n: nat)
    requires n <= 4
    ensures BigEndian(s, pos, n) < 0x1_0000_0000
  {
    BigEndianBound(s, pos, n);
    var bits := 8 * n;
    if bits < 32 {
      Pow2Strict(bits, 32);
    }
    Pow2At32();
  }

  lemma AtMostFourBytes(modulus: nat)
    requires 2 <= modulus <= MAX_MODULUS
    ensures 1 <= BytesPerValue(modulus) <= 4
    ensures BytesPerValue(modulus) == 1 <==> modulus <= 256
  {
    hide Pow2, BitLength;
    var b := BitLength(modulus);
    RangeOfModulus(modulus);
    Pow2At32();
    if b > 30 {
      if b > 31 {
        Pow2Strict(30, b - 1);
      }
      assert false;
    }
    if b < 8 {
      Pow2Strict(b, 8);
    } else if b > 9 {
      Pow2Strict(8, b - 1);
    }
  }

  /** The position after n candidates. */
  function Past(pos: nat, modulus: nat, n: nat): nat
    requires modulus >= 1
  {
    pos + n * BytesPerValue(modulus)
  }

  lemma CandidateShift(s: Stream, pos: nat, modulus: nat, m: nat, k: nat)
    requires modulus >= 1
    ensures Candidate(s, pos, modulus, m + k) == Candidate(s, Past(pos, modulus, m), modulus, k)
  {
  }

  lemma AcceptedNone(s: Stream, pos: nat, modulus: nat)
    requires modulus >= 1
    ensures Accepted(s, pos, modulus, 0) == []
  {
  }

  lemma AcceptedStep(s: Stream, pos: nat, modulus: nat, n: nat)
    requires modulus >= 1
    ensures var v := Candidate(s, pos, modulus, n);
            Accepted(s, pos, modulus, n + 1)
            == if v < modulus then Accepted(s, pos, modulus, n) + [v] else Accepted(s, pos, modulus, n)
  {
  }

  /** The candidates of one read followed by those of the next are the candidates of both. */
  lemma {:induction false} AcceptedSplit(s: Stream, pos: nat, modulus: nat, m: nat, n: nat)
    requires modulus >= 1
    ensures Accepted(s, pos, modulus, m + n)
         == Accepted(s, pos, modulus, m) + Accepted(s, Past(pos, modulus, m), modulus, n)
    decreases n
  {
    hide *;
    var next := Past(pos, modulus, m);
    if n == 0 {
      AcceptedNone(s, next, modulus);
    } else {
      AcceptedSplit(s, pos, modulus, m, n - 1);
      CandidateShift(s, pos, modulus, m, n - 1);
      AcceptedStep(s, pos, modulus, m + (n - 1));
      AcceptedStep(s, next, modulus, n - 1);
    }
  }

  lemma PastIs(pos: nat, modulus: nat, m: nat, n: nat)
    requires modulus >= 1
    ensures Past(pos, modulus, n) == pos + n * BytesPerValue(modulus)
    ensures Past(pos, modulus, 0) == pos
    ensures Past(Past(pos, modulus, m), modulus, n) == Past(pos, modulus, m + n)
  {
  }

  ghost function BatchSize(size: nat, modulus: nat): nat
    requires modulus >= 2 && size >= 1
    ensures BatchSize(size, modulus) >= size + 1
  {
    SampleSizeBounds(size, modulus);
    SampleSize(size, modulus)
  }

  /** Whether a call stays inside the bytes it drew: the loop over a batch counts bytes but indexes values. */
  ghost predicate ReadsInside(s: Stream, pos: nat, modulus: nat, size: nat)
    requires modulus >= 2
  {
    || size == 0
    || BytesPerValue(modulus) == 1
    || |Accepted(s, pos, modulus, BatchSize(size, modulus))| >= size
  }

  /** One-byte values are drawn until there are enough, which takes a fair stream. */
  ghost predicate Terminates(s: Stream, pos: nat, modulus: nat, size: nat)
    requires modulus >= 2
  {
    BytesPerValue(modulus) == 1 ==> Fair(s, pos, modulus, size)
  }

  lemma InsideIsFair(s: Stream, pos: nat, modulus: nat, size: nat)
    requires modulus >= 2 && Terminates(s, pos, modulus, size) && ReadsInside(s, pos, modulus, size)
    ensures Fair(s, pos, modulus, size)
  {
    assert |Accepted(s, pos, modulus, 0)| == 0;
  }

  /** What a call for `size` values from this position gives. */
  ghost function Outcome(s: Stream, pos: nat, modulus: nat, size: nat): Result<seq<nat>>
    requires modulus >= 2 && Terminates(s, pos, modulus, size)
  {
    if ReadsInside(s, pos, modulus, size) then
      InsideIsFair(s, pos, modulus, size);
      Success(Draw(s, pos, modulus, size))
    else Failure(UndefinedBehavior)
  }

  lemma StillShort(s: Stream, pos: nat, modulus: nat, size: nat, n: nat, enough: nat)
    requires modulus >= 1 && |Accepted(s, pos, modulus, n)| < size <= |Accepted(s, pos, modulus, enough)|
    ensures n < enough
  {
    if enough <= n {
      AcceptedPrefix(s, pos, modulus, enough, n);
    }
  }

  lemma RemainsEnough(s: Stream, pos: nat, modulus: nat, size: nat, n: nat, enough: nat)
    requires modulus >= 2 && BytesPerValue(modulus) == 1 && n >= 1
    requires |Accepted(s, pos, modulus, n)| < size <= |Accepted(s, pos, modulus, enough)|
    ensures n < enough
    ensures |Accepted(s, Past(pos, modulus, n), modulus, enough - n)|
         >= size - |Accepted(s, pos, modulus, n)|
  {
    StillShort(s, pos, modulus, size, n, enough);
    AcceptedSplit(s, pos, modulus, n, enough - n);
  }

  /** The candidates of all batches that a call draws; `enough` of them would hold what is missing. */
  ghost function Batches(s: Stream, pos: nat, modulus: nat, size: nat, enough: nat): nat
    requires modulus >= 2
    requires BytesPerValue(modulus) == 1 ==> |Accepted(s, pos, modulus, enough)| >= size
    decreases enough
  {
    hide SampleSize, RoundedSamples, Accepted, BytesPerValue, Past;
    if size == 0 then 0
    else
      var n := BatchSize(size, modulus);
      var got := |Accepted(s, pos, modulus, n)|;
      if got >= size || BytesPerValue(modulus) != 1 then n
      else
        RemainsEnough(s, pos, modulus, size, n, enough);
        n + Batches(s, Past(pos, modulus, n), modulus, size - got, enough - n)
  }

  /** The bound `enough` does not show in the number of candidates drawn. */
  lemma {:induction false} BatchesDetermined(s: Stream, pos: nat, modulus: nat, size: nat, e: nat, e': nat)
    requires modulus >= 2
    requires BytesPerValue(modulus) == 1 ==>
               |Accepted(s, pos, modulus, e)| >= size && |Accepted(s, pos, modulus, e')| >= size
    ensures Batches(s, pos, modulus, size, e) == Batches(s, pos, modulus, size, e')
    decreases e
  {
    hide SampleSize, RoundedSamples, Accepted, BytesPerValue, BatchSize, Past;
    if size > 0 {
      var n := BatchSize(size, modulus);
      var got := |Accepted(s, pos, modulus, n)|;
      if got < size && BytesPerValue(modulus) == 1 {
        RemainsEnough(s, pos, modulus, size, n, e);
        RemainsEnough(s, pos, modulus, size, n, e');
        BatchesDetermined(s, Past(pos, modulus, n), modulus, size - got, e - n, e' - n);
      }
    }
  }

  /** How far a call moves the generator, in candidates. */
  ghost function Consumed(s: Stream, pos: nat, modulus: nat, size: nat): nat
    requires modulus >= 2 && Terminates(s, pos, modulus, size)
  {
    if BytesPerValue(modulus) == 1 then
      var enough: nat :| |Accepted(s, pos, modulus, enough)| >= size;
      Batches(s, pos, modulus, size, enough)
    else Batches(s, pos, modulus, size, 0)
  }

  lemma ConsumedIs(s: Stream, pos: nat, modulus: nat, size: nat, enough: nat)
    requires modulus >= 2 && Terminates(s, pos, modulus, size)
    requires BytesPerValue(modulus) == 1 ==> |Accepted(s, pos, modulus, enough)| >= size
    ensures Consumed(s, pos, modulus, size) == Batches(s, pos, modulus, size, enough)
  {
    if BytesPerValue(modulus) == 1 {
      var e: nat :| |Accepted(s, pos, modulus, e)| >= size
                    && Consumed(s, pos, modulus, size) == Batches(s, pos, modulus, size, e);
      BatchesDetermined(s, pos, modulus, size, e, enough);
    }
  }

  /** One batch: either it is the last one, or the rest is drawn after it. */
  lemma BatchesStep(s: Stream, pos: nat, modulus: nat, size: nat, enough: nat, n: nat)
    requires modulus >= 2 && size >= 1 && n == BatchSize(size, modulus)
    requires BytesPerValue(modulus) == 1 ==> |Accepted(s, pos, modulus, enough)| >= size
    ensures var got := |Accepted(s, pos, modulus, n)|;
            if got >= size || BytesPerValue(modulus) != 1 then
              Batches(s, pos, modulus, size, enough) == n
            else
              && n < enough
              && |Accepted(s, Past(pos, modulus, n), modulus, enough - n)| >= size - got
              && Batches(s, pos, modulus, size, enough)
                 == n + Batches(s, Past(pos, modulus, n), modulus, size - got, enough - n)
  {
    hide SampleSize, RoundedSamples, Accepted, BytesPerValue, BatchSize, Past;
    if |Accepted(s, pos, modulus, n)| < size && BytesPerValue(modulus) == 1 {
      RemainsEnough(s, pos, modulus, size, n, enough);
    }
  }

  lemma BigEndianOfNone(s: Stream, pos: nat)
    ensures BigEndian(s, pos, 0) == 0
  {
  }

  lemma BatchByte(s: Stream, start: nat, size: nat, i: nat, j: nat, w: nat)
    requires (i + 1) * w <= size && j < w
    ensures i * w + j < size
    ensures Bytes(s, start, size)[i * w + j] == s(start + i * w + j)
    ensures BigEndian(s, start + i * w, j + 1) == BigEndian(s, start + i * w, j) * 256 + s(start + i * w + j)
  {
  }

  lemma CandidateIs(s: Stream, pos: nat, modulus: nat, k: nat)
    requires modulus >= 1
    ensures Candidate(s, pos, modulus, k)
         == BigEndian(s, pos + k * BytesPerValue(modulus), BytesPerValue(modulus)) % Pow2(BitLength(modulus))
  {
  }

  /** The state of the outer loop: what is kept, how many candidates were drawn, and what is still to come. */
  ghost predicate Drawing(s: Stream, start: nat, modulus: nat, size: nat, enough: nat,
                          ret: seq<nat>, consumed: nat, pos: nat)
    requires modulus >= 2 && Terminates(s, start, modulus, size)
  {
    var w, total := BytesPerValue(modulus), Consumed(s, start, modulus, size);
    && pos == Past(start, modulus, consumed)
    && |ret| <= size
    && if |ret| == size then Outcome(s, start, modulus, size) == Success(ret) && consumed == total
       else
         && consumed <= enough
         && ret == Accepted(s, start, modulus, consumed)
         && (consumed == 0 || w == 1)
         && (w == 1 ==> |Accepted(s, pos, modulus, enough - consumed)| >= size - |ret|)
         && total == consumed + Batches(s, pos, modulus, size - |ret|, enough - consumed)
  }

  lemma OutcomeSucceeds(s: Stream, pos: nat, modulus: nat, size: nat, n: nat)
    requires modulus >= 2 && Terminates(s, pos, modulus, size)
    requires |Accepted(s, pos, modulus, n)| >= size
    requires size == 0 || BytesPerValue(modulus) == 1 || n == BatchSize(size, modulus)
    ensures Outcome(s, pos, modulus, size) == Success(Accepted(s, pos, modulus, n)[..size])
  {
    DrawFrom(s, pos, modulus, size, n);
  }

  lemma DrawingStarts(s: Stream, start: nat, modulus: nat, size: nat, enough: nat)
    requires modulus >= 2 && Terminates(s, start, modulus, size)
    requires BytesPerValue(modulus) == 1 ==> |Accepted(s, start, modulus, enough)| >= size
    ensures Drawing(s, start, modulus, size, enough, [], 0, start)
  {
    hide SampleSize, RoundedSamples, BatchSize, BytesPerValue, Past;
    PastIs(start, modulus, 0, 0);
    ConsumedIs(s, start, modulus, size, enough);
    if size == 0 {
      OutcomeSucceeds(s, start, modulus, size, 0);
    }
  }

  lemma OutcomeFails(s: Stream, pos: nat, modulus: nat, size: nat)
    requires modulus >= 2 && Terminates(s, pos, modulus, size)
    requires size >= 1 && BytesPerValue(modulus) != 1
    requires |Accepted(s, pos, modulus, BatchSize(size, modulus))| < size
    ensures Outcome(s, pos, modulus, size) == Failure(UndefinedBehavior)
  {
  }

  lemma DrawingStep(s: Stream, start: nat, modulus: nat, size: nat, enough: nat,
                    ret: seq<nat>, consumed: nat, pos: nat, n: nat, ret': seq<nat>, inside: bool)
    requires modulus >= 2 && Terminates(s, start, modulus, size)
    requires |ret| < size && Drawing(s, start, modulus, size, enough, ret, consumed, pos)
    requires n == BatchSize(size - |ret|, modulus)
    requires var all := ret + Accepted(s, pos, modulus, n);
             && (inside <==> |all| >= size || BytesPerValue(modulus) == 1)
             && (inside ==> ret' == if |all| >= size then all[..size] else all)
    ensures |ret'| < size && inside ==> consumed + n <= enough
    ensures !inside ==>
              Outcome(s, start, modulus, size) == Failure(UndefinedBehavior)
              && Past(pos, modulus, n) == Past(start, modulus, Consumed(s, start, modulus, size))
    ensures inside ==>
              Drawing(s, start, modulus, size, enough, ret', consumed + n, Past(pos, modulus, n))
  {
    hide Accepted, SampleSize, RoundedSamples, BatchSize, Batches, BytesPerValue, Outcome, Consumed, Terminates, Past;
    BatchesStep(s, pos, modulus, size - |ret|, enough - consumed, n);
    AcceptedSplit(s, start, modulus, consumed, n);
    PastIs(start, modulus, consumed, n);
    if !inside {
      OutcomeFails(s, start, modulus, size);
    } else if |Accepted(s, start, modulus, consumed + n)| >= size {
      OutcomeSucceeds(s, start, modulus, size, consumed + n);
    }
  }

  lemma DrawingEnds(s: Stream, start: nat, modulus: nat, size: nat, enough: nat,
                    ret: seq<nat>, consumed: nat, pos: nat)
    requires modulus >= 2 && Terminates(s, start, modulus, size)
    requires |ret| == size && Drawing(s, start, modulus, size, enough, ret, consumed, pos)
    ensures Outcome(s, start, modulus, size) == Success(ret)
    ensures pos == Past(start, modulus, Consumed(s, start, modulus, size))
  {
  }

  lemma BatchSizeIs(size: nat, modulus: nat)
    requires modulus >= 2 && size >= 1
    ensures BatchSize(size, modulus) == SampleSize(size, modulus)
  {
  }

  /** A prefix length that one-byte drawing cannot pass without being done. */
  lemma LongEnough(s: Stream, pos: nat, modulus: nat, size: nat) returns (n: nat)
    requires modulus >= 2 && Terminates(s, pos, modulus, size)
    ensures n >= 1
    ensures BytesPerValue(modulus) == 1 ==> |Accepted(s, pos, modulus, n)| >= size
  {
    n := 1;
    if BytesPerValue(modulus) == 1 {
      var k: nat :| |Accepted(s, pos, modulus, k)| >= size;
      AcceptedPrefix(s, pos, modulus, k, k + 1);
      n := k + 1;
    }
  }

  lemma LastValueOfBatch(i: nat, n: nat, w: nat)
    requires w >= 1 && i <= n && (i + 1) * w > n * w
    ensures i == n
    ensures w > 1 || i >= n * w
  {
    if i < n {
      ScaledDistance(w, n, i + 1, 0);
    }
  }

  lemma WholeBatchOfBytes(n: nat, w: nat)
    requires n >= 1 && w >= 1 && n * w <= n
    ensures w == 1 && n * w == n
  {
    if w > 1 {
      ScaledDistance(n, w, 2, 0);
    }
  }

  lemma ValueInsideBatch(i: nat, n: nat, w: nat)
    requires w >= 1 && (i + 1) * w <= n * w
    ensures i + 1 <= n
  {
    if n < i + 1 {
      ScaledDistance(w, i + 1, n, 1);
    }
  }
}
