/** Which sampler calls stay inside their buffers whatever the stream is. */
module StreamSafety {
  import opened Arithmetic
  import opened Batching
  import opened Powers
  import opened Sampling

  lemma {:induction false} PowerOfTwoAcceptsAll(s: Stream, pos: nat, modulus: nat, n: nat)
    requires modulus >= 1 && modulus == Pow2(BitLength(modulus))
    ensures |Accepted(s, pos, modulus, n)| == n
  {
    if n > 0 {
      PowerOfTwoAcceptsAll(s, pos, modulus, n - 1);
    }
  }

  function AllOnes(): Stream {
    i => 255
  }

  lemma {:induction false} AllOnesBigEndian(pos: nat, n: nat)
    ensures BigEndian(AllOnes(), pos, n) == Pow2(8 * n) - 1
  {
    if n > 0 {
      AllOnesBigEndian(pos, n - 1);
      Pow2Adds(8 * (n - 1), 8);
      Pow2At32();
      assert 8 * n == 8 * (n - 1) + 8;
    }
  }

  lemma AllOnesCandidate(pos: nat, modulus: nat, k: nat)
    requires modulus >= 1
    ensures Candidate(AllOnes(), pos, modulus, k) == Pow2(BitLength(modulus)) - 1
  {
    hide Pow2, BitLength, BigEndian;
    var b, w := BitLength(modulus), BytesPerValue(modulus);
    AllOnesBigEndian(pos + k * w, w);
    Pow2Adds(b, 8 * w - b);
    var range, rest := Pow2(b), Pow2(8 * w - b);
    Distribute(range, rest - 1, 1);
    ModUnique(range * rest - 1, range, rest - 1, range - 1);
  }

  lemma {:induction false} AllOnesAcceptsNone(pos: nat, modulus: nat, n: nat)
    requires modulus >= 1 && modulus != Pow2(BitLength(modulus))
    ensures Accepted(AllOnes(), pos, modulus, n) == []
  {
    if n > 0 {
      AllOnesAcceptsNone(pos, modulus, n - 1);
      AllOnesCandidate(pos, modulus, n - 1);
    }
  }

  /**
   * A call keeps inside its buffers on every stream exactly when it asks for nothing,
   * when values take one byte, or when no value is ever rejected.
   */
  lemma SafeOnEveryStream(modulus: nat, size: nat)
    requires 2 <= modulus <= MAX_MODULUS
    ensures (forall s: Stream, pos: nat :: ReadsInside(s, pos, modulus, size))
       <==> size == 0 || modulus <= 256 || modulus == Pow2(BitLength(modulus))
  {
    AtMostFourBytes(modulus);
    if size >= 1 && modulus > 256 {
      if modulus == Pow2(BitLength(modulus)) {
        forall s: Stream, pos: nat
          ensures ReadsInside(s, pos, modulus, size)
        {
          SampleSizeBounds(size, modulus);
          PowerOfTwoAcceptsAll(s, pos, modulus, BatchSize(size, modulus));
        }
      } else {
        AllOnesAcceptsNone(0, modulus, BatchSize(size, modulus));
        assert !ReadsInside(AllOnes(), 0, modulus, size);
      }
    }
  }

  /** Powers of two need no fairness: every stream is fair to them. */
  lemma PowerOfTwoIsFair(s: Stream, pos: nat, modulus: nat, size: nat)
    requires modulus >= 2 && modulus == Pow2(BitLength(modulus))
    ensures Fair(s, pos, modulus, size)
  {
    PowerOfTwoAcceptsAll(s, pos, modulus, size);
  }
}
