/** The generator object: its position advances on every read, and samplers are built on reads. */
module Generators {
  import opened Batching
  import opened NonZeroDraws
  import opened Powers
  import opened Results
  import opened Sampling

  class Prng {
    const stream: Stream
    var pos: nat

    constructor (stream: Stream)
      ensures this.stream == stream && pos == 0
    {
      this.stream := stream;
      pos := 0;
    }

    method GeneratePseudorandomBytes(size: int) returns (r: Result<seq<Byte>>)
      modifies this`pos
      ensures size < 0 ==> r == Failure(InvalidArgument) && pos == old(pos)
      ensures size >= 0 ==> r == Success(Bytes(stream, old(pos), size)) && pos == old(pos) + size
    {
      if size < 0 {
        return Failure(InvalidArgument);
      }
      var p := pos;
      pos := pos + size;
      return Success(Bytes(stream, p, size));
    }

    /** One value of a batch: the inner loop over its bytes, on 32-bit words. */
    method ReadValue(arr: seq<Byte>, i: nat, modulus: nat, ghost start: nat, ghost n: nat) returns (temp: nat)
      requires 2 <= modulus <= MAX_MODULUS
      requires arr == Bytes(stream, start, n * BytesPerValue(modulus))
      requires (i + 1) * BytesPerValue(modulus) <= |arr|
      ensures temp == Candidate(stream, start, modulus, i)
    {
      hide *;
      var bytesPerValue := BytesPerValue(modulus);
      AtMostFourBytes(modulus);
      temp := 0;
      BigEndianOfNone(stream, start + i * bytesPerValue);
      for j := 0 to bytesPerValue
        invariant temp == BigEndian(stream, start + i * bytesPerValue, j)
      {
        BatchByte(stream, start, n * bytesPerValue, i, j, bytesPerValue);
        WordHoldsFourBytes(stream, start + i * bytesPerValue, j + 1);
        temp := (temp * 256 + arr[i * bytesPerValue + j]) % 0x1_0000_0000;
      }
      temp := temp % Pow2(BitLength(modulus));
      CandidateIs(stream, start, modulus, i);
    }

    /** The rejection loop over one batch of n values, with the source's bound on the number of bytes. */
    method AcceptBatch(arr: seq<Byte>, kept: seq<nat>, size: nat, modulus: nat, ghost start: nat, ghost n: nat)
      returns (ret: seq<nat>, inside: bool)
      requires 2 <= modulus <= MAX_MODULUS && |kept| < size && n >= 1
      requires arr == Bytes(stream, start, n * BytesPerValue(modulus))
      ensures var all := kept + Accepted(stream, start, modulus, n);
              && (inside <==> |all| >= size || BytesPerValue(modulus) == 1)
              && (inside ==> ret == if |all| >= size then all[..size] else all)
    {
      hide *;
      AtMostFourBytes(modulus);
      var bytesPerValue := BytesPerValue(modulus);
      ret := kept;
      ghost var done := 0;
      AcceptedNone(stream, start, modulus);
      for i := 0 to |arr|
        invariant done == i <= n
        invariant ret == kept + Accepted(stream, start, modulus, i)
        invariant |ret| <= size
        invariant |arr| == n * bytesPerValue
      {
        if |ret| >= size {
          break;
        }
        if (i + 1) * bytesPerValue > |arr| {
          LastValueOfBatch(i, n, bytesPerValue);
          return ret, false;
        }
        ValueInsideBatch(i, n, bytesPerValue);
        var temp := ReadValue(arr, i, modulus, start, n);
        AcceptedStep(stream, start, modulus, i);
        if temp < modulus {
          ret := ret + [temp];
        }
        done := i + 1;
      }
      AcceptedPrefix(stream, start, modulus, done, n);
      if |ret| < size {
        WholeBatchOfBytes(n, bytesPerValue);
      }
      inside := true;
    }

    method GenerateUniformRandomRange(size: int, modulus: nat) returns (r: Result<seq<nat>>)
      requires modulus <= MAX_MODULUS
      requires modulus >= 2 && size >= 0 ==> Terminates(stream, pos, modulus, size)
      modifies this`pos
      ensures modulus <= 1 || size < 0 ==> r == Failure(InvalidArgument) && pos == old(pos)
      ensures modulus >= 2 && size >= 0 ==>
                && r == Outcome(stream, old(pos), modulus, size)
                && pos == Past(old(pos), modulus, Consumed(stream, old(pos), modulus, size))
    {
      hide *;
      if modulus <= 1 {
        return Failure(InvalidArgument);
      }
      if size < 0 {
        return Failure(InvalidArgument);
      }
      ghost var start, consumed: nat := pos, 0;
      ghost var enough := LongEnough(stream, start, modulus, size);
      AtMostFourBytes(modulus);
      var bytesPerValue := BytesPerValue(modulus);
      var ret: seq<nat> := [];
      DrawingStarts(stream, start, modulus, size, enough);
      while |ret| < size
        invariant |ret| <= size && (|ret| < size ==> consumed <= enough)
        invariant Drawing(stream, start, modulus, size, enough, ret, consumed, pos)
        decreases if |ret| < size then 1 + enough - consumed else 0
      {
        var missing := size - |ret|;
        BatchSizeIs(missing, modulus);
        SampleSizeBounds(missing, modulus);
        var sampleSize := SampleSize(missing, modulus);
        ghost var here, kept := pos, ret;
        PastIs(pos, modulus, 0, sampleSize);
        var arr := GeneratePseudorandomBytes(sampleSize * bytesPerValue);
        var inside;
        ret, inside := AcceptBatch(arr.value, ret, size, modulus, here, sampleSize);
        DrawingStep(stream, start, modulus, size, enough, kept, consumed, here, sampleSize, ret, inside);
        if !inside {
          return Failure(UndefinedBehavior);
        }
        consumed := consumed + sampleSize;
      }
      DrawingEnds(stream, start, modulus, size, enough, ret, consumed, pos);
      return Success(ret);
    }

    /** The rejection loop over one inner draw. */
    method KeepNonZero(arr: seq<nat>, kept: seq<nat>, size: nat) returns (ret: seq<nat>)
      requires |kept| <= size
      ensures ret == FirstOf(kept + NonZeros(arr), size)
    {
      hide *;
      ret := kept;
      ghost var done := 0;
      NonZerosStep(arr, 0);
      for i := 0 to |arr|
        invariant done == i && |ret| <= size
        invariant ret == kept + NonZeros(arr[..i])
      {
        if |ret| >= size {
          break;
        }
        NonZerosStep(arr, i);
        if arr[i] > 0 {
          ret := ret + [arr[i]];
        }
        done := i + 1;
      }
      NonZerosGrow(arr[..done], arr[done..]);
      assert arr == arr[..done] + arr[done..];
      ghost var rest := NonZeros(arr[done..]);
      assert kept + (NonZeros(arr[..done]) + rest) == ret + rest;
      if |ret| < size {
        NonZerosStep(arr[done..], 0);
        assert arr[done..] == arr[done..][..0];
      }
      FirstOfPrefix(ret, rest, size);
    }

    method GenerateNonZeroUniformRandomRange(size: int, modulus: nat) returns (r: Result<seq<nat>>)
      requires modulus <= MAX_MODULUS
      requires modulus >= 2 && size >= 0 ==> NonZeroTerminates(stream, pos, modulus, size)
      modifies this`pos
      ensures modulus <= 1 || size < 0 ==> r == Failure(InvalidArgument) && pos == old(pos)
      ensures modulus >= 2 && size >= 0 ==>
                && r == NonZeroOutcome(stream, old(pos), modulus, size)
                && pos == NonZeroEnd(stream, old(pos), modulus, size)
    {
      hide *;
      if modulus <= 1 {
        return Failure(InvalidArgument);
      }
      if size < 0 {
        return Failure(InvalidArgument);
      }
      var ret: seq<nat> := [];
      ghost var start := pos;
      ghost var rounds := SomeRounds(stream, start, modulus, size);
      ghost var left := rounds;
      PrependNothing(OutcomeWithin(stream, start, modulus, size, rounds));
      while |ret| < size
        invariant |ret| <= size && EndsWithin(stream, pos, modulus, size - |ret|, left)
        invariant OutcomeWithin(stream, start, modulus, size, rounds)
               == Prepend(ret, OutcomeWithin(stream, pos, modulus, size - |ret|, left))
        invariant PositionWithin(stream, start, modulus, size, rounds)
               == PositionWithin(stream, pos, modulus, size - |ret|, left)
        decreases left
      {
        ghost var here, kept := pos, ret;
        var missing := size - |ret|;
        NonZeroStep(stream, here, modulus, missing, left);
        var arr := GenerateUniformRandomRange(NonZeroSampleSize(missing, modulus), modulus);
        if arr.Failure? {
          PrependFailure(ret, arr.error);
          return Failure(arr.error);
        }
        ret := KeepNonZero(arr.value, ret, size);
        FirstOfLength(kept, NonZeros(arr.value), size);
        PrependRound(kept, NonZeros(arr.value), size, OutcomeWithin(stream, here, modulus, missing, left),
                     if |ret| == size then Success([])
                     else OutcomeWithin(stream, pos, modulus, size - |ret|, left - 1));
        if |ret| == size {
          NoneMissing(stream, pos, modulus, left - 1);
        }
        left := left - 1;
      }
      NoneMissing(stream, pos, modulus, left);
      PrependSuccess(ret);
      return Success(ret);
    }
  }
}
