/** The seeded generator: a byte stream with a position, and rejection sampling from it. */
module Sampling {
  import opened Arithmetic
  import opened Powers

  type Byte = b: nat | b < 256

  /** The keystream of one key and IV; in counter mode each byte depends on its position only. */
  type Stream = nat -> Byte

  const MAX_MODULUS := 0x4000_0000

  function Bytes(s: Stream, pos: nat, n: nat): (r: seq<Byte>)
    ensures |r| == n
    ensures forall i :: 0 <= i < n ==> r[i] == s(pos + i)
  {
    seq(n, i requires 0 <= i < n => s(pos + i))
  }

  lemma SplitReads(s: Stream, pos: nat, m: nat, n: nat)
    ensures Bytes(s, pos, m) + Bytes(s, pos + m, n) == Bytes(s, pos, m + n)
  {
  }

  /** n bytes of the stream read as one big-endian number. */
  function BigEndian(s: Stream, pos: nat, n: nat): nat {
    if n == 0 then 0 else BigEndian(s, pos, n - 1) * 256 + s(pos + n - 1)
  }

  function BytesPerValue(modulus: nat): nat
    requires modulus >= 1
  {
    (BitLength(modulus) + 7) / 8
  }

  /** The least number of bytes that covers the modulus. */
  lemma BytesCover(modulus: nat, w: nat)
    requires modulus >= 1
    ensures w == BytesPerValue(modulus)
       <==> modulus <= Pow2(8 * w) && (w > 0 ==> Pow2(8 * (w - 1)) < modulus)
  {
    hide Pow2, BitLength;
    var b, v := BitLength(modulus), BytesPerValue(modulus);
    Pow2Monotone(b, 8 * v);
    if v > 0 {
      Pow2Monotone(8 * (v - 1), b - 1);
    }
    if w < v {
      Pow2Monotone(8 * w, 8 * (v - 1));
    } else if w > v {
      Pow2Monotone(8 * v, 8 * (w - 1));
    }
  }

  /** The most significant byte comes first. */
  lemma {:induction false} BigEndianPlaces(s: Stream, pos: nat, n: nat, j: nat)
    requires j < n
    ensures BigEndian(s, pos, n) / Pow2(8 * j) % 256 == s(pos + n - 1 - j)
    decreases n
  {
    var front, last := BigEndian(s, pos, n - 1), s(pos + n - 1);
    if j == 0 {
      ScaledQuotient(front, last, 256, 1);
      assert Pow2(8 * j) == 1;
    } else {
      BigEndianPlaces(s, pos, n - 1, j - 1);
      Pow2Adds(8, 8 * (j - 1));
      assert 8 + 8 * (j - 1) == 8 * j;
      Pow2At8();
      ScaledQuotient(front, last, 256, Pow2(8 * (j - 1)));
    }
  }

  /** The k-th candidate after a position: bytes_per_value bytes, masked to bit_length bits. */
  function Candidate(s: Stream, pos: nat, modulus: nat, k: nat): nat
    requires modulus >= 1
  {
    BigEndian(s, pos + k * BytesPerValue(modulus), BytesPerValue(modulus)) % Pow2(BitLength(modulus))
  }

  /** The mask keeps the low bits of the number that the bytes spell, and nothing else. */
  lemma CandidateBits(s: Stream, pos: nat, modulus: nat, k: nat, i: nat)
    requires modulus >= 1
    ensures Candidate(s, pos, modulus, k) < Pow2(BitLength(modulus))
    ensures i < BitLength(modulus) ==>
              Candidate(s, pos, modulus, k) / Pow2(i) % 2
              == BigEndian(s, pos + k * BytesPerValue(modulus), BytesPerValue(modulus)) / Pow2(i) % 2
  {
    hide Pow2, BitLength, BigEndian;
    if i < BitLength(modulus) {
      LowBits(BigEndian(s, pos + k * BytesPerValue(modulus), BytesPerValue(modulus)), BitLength(modulus), i);
    }
  }

  /** The candidates below the modulus among the first n, in order: the plain filter. */
  ghost function Accepted(s: Stream, pos: nat, modulus: nat, n: nat): (r: seq<nat>)
    requires modulus >= 1
    ensures |r| <= n
    ensures forall i :: 0 <= i < |r| ==> r[i] < modulus
  {
    if n == 0 then []
    else
      var v := Candidate(s, pos, modulus, n - 1);
      Accepted(s, pos, modulus, n - 1) + if v < modulus then [v] else []
  }

  lemma {:induction false} AcceptedPrefix(s: Stream, pos: nat, modulus: nat, m: nat, n: nat)
    requires modulus >= 1 && m <= n
    ensures Accepted(s, pos, modulus, m) <= Accepted(s, pos, modulus, n)
    decreases n
  {
    if m < n {
      AcceptedPrefix(s, pos, modulus, m, n - 1);
    }
  }

  /** Some prefix of the stream holds enough accepted candidates. */
  ghost predicate Fair(s: Stream, pos: nat, modulus: nat, size: nat)
    requires modulus >= 1
  {
    exists n: nat :: |Accepted(s, pos, modulus, n)| >= size
  }

  /** The first `size` accepted candidates of a fair stream. */
  ghost function Draw(s: Stream, pos: nat, modulus: nat, size: nat): (r: seq<nat>)
    requires modulus >= 1 && Fair(s, pos, modulus, size)
    ensures |r| == size
    ensures forall i :: 0 <= i < size ==> r[i] < modulus
  {
    var n: nat :| |Accepted(s, pos, modulus, n)| >= size;
    Accepted(s, pos, modulus, n)[..size]
  }

  /** It does not matter how long a prefix is looked at. */
  lemma DrawFrom(s: Stream, pos: nat, modulus: nat, size: nat, n: nat)
    requires modulus >= 1 && |Accepted(s, pos, modulus, n)| >= size
    ensures Fair(s, pos, modulus, size)
    ensures Draw(s, pos, modulus, size) == Accepted(s, pos, modulus, n)[..size]
  {
    var m: nat :| |Accepted(s, pos, modulus, m)| >= size
                  && Draw(s, pos, modulus, size) == Accepted(s, pos, modulus, m)[..size];
    if m <= n {
      AcceptedPrefix(s, pos, modulus, m, n);
    } else {
      AcceptedPrefix(s, pos, modulus, n, m);
    }
  }

  /** Fewer values from the same position are a prefix of more values. */
  lemma DrawsAreNested(s: Stream, pos: nat, modulus: nat, fewer: nat, more: nat)
    requires modulus >= 1 && fewer <= more && Fair(s, pos, modulus, more)
    ensures Fair(s, pos, modulus, fewer)
    ensures Draw(s, pos, modulus, fewer) == Draw(s, pos, modulus, more)[..fewer]
  {
    var n: nat :| |Accepted(s, pos, modulus, n)| >= more;
    DrawFrom(s, pos, modulus, fewer, n);
    DrawFrom(s, pos, modulus, more, n);
  }

  /** c + 1 + f*c/(1 - f) rounded down, for the failure rate f = (range - modulus)/range over exact reals. */
  function RoundedSamples(c: real, range: real, modulus: real): int
    requires 0.0 < modulus <= range
  {
    var failureRate := (range - modulus) / range;
    DivMul(range - modulus, range);
    (c + 1.0 + failureRate * c / (1.0 - failureRate)).Floor
  }

  /** The batch size for c missing values. */
  function SampleSize(c: nat, modulus: nat): int
    requires modulus >= 1
  {
    RoundedSamples(c as real, Pow2(BitLength(modulus)) as real, modulus as real)
  }

  /** c + f*c/(1 - f) for the failure rate f = (range - modulus)/range is c*range/modulus. */
  lemma ExpectedSamples(c: real, range: real, modulus: real, product: real)
    requires 0.0 < modulus <= range && product == c * range
    ensures var rate := (range - modulus) / range;
            rate < 1.0 && c + 1.0 + rate * c / (1.0 - rate) == 1.0 + product / modulus
  {
    var rate := (range - modulus) / range;
    DivMul(range - modulus, range);
    SignOfProduct(rate, range);
    var p := 1.0 - rate;
    assert p * range == modulus;
    var q := rate * c / p;
    DivMul(rate * c, p);
    assert q * modulus == product - c * modulus by {
      Associate(q, p, range);
      Associate(c, rate, range);
      assert rate * c == c * rate;
    }
    var t := product / modulus;
    DivMul(product, modulus);
    assert (c + q) * modulus == t * modulus;
    Cancel(c + q, t, modulus);
  }

  lemma RoundedSamplesAre(c: real, range: real, modulus: real, product: real)
    requires 0.0 < modulus <= range && product == c * range
    ensures RoundedSamples(c, range, modulus) == (1.0 + product / modulus).Floor
  {
    ExpectedSamples(c, range, modulus, product);
  }

  lemma RoundedSamplesInIntegers(c: nat, range: nat, modulus: nat, product: nat)
    requires 1 <= modulus <= range && product as real == c as real * range as real
    ensures RoundedSamples(c as real, range as real, modulus as real) == 1 + product / modulus
  {
    hide *;
    FloorOfQuotient(product, modulus);
    RoundedSamplesAre(c as real, range as real, modulus as real, product as real);
  }

  /** In whole numbers: one more than c / (1 - failure rate), rounded down. */
  lemma SampleSizeInIntegers(c: nat, modulus: nat)
    requires modulus >= 1
    ensures SampleSize(c, modulus) == 1 + c * Pow2(BitLength(modulus)) / modulus
  {
    var range := Pow2(BitLength(modulus));
    RealParts(c * range, c, range, 0);
    RoundedSamplesInIntegers(c, range, modulus, c * range);
  }

  lemma QuotientRange(c: nat, range: nat, modulus: nat)
    requires c >= 1 && 1 <= modulus <= range < 2 * modulus
    ensures c <= c * range / modulus < 2 * c
  {
    var q := c * range / modulus;
    QuotientBounds(c * range, modulus);
    if q < c {
      ScaledDistance(modulus, c, q, 1);
      ScaledDistance(c, range, modulus, 0);
    }
    if q >= 2 * c {
      ScaledDistance(modulus, q, 2 * c, 0);
      ScaledDistance(c, 2 * modulus, range, 1);
    }
  }

  lemma RangeOfModulus(modulus: nat)
    requires modulus >= 2
    ensures BitLength(modulus) >= 1
    ensures modulus <= Pow2(BitLength(modulus)) < 2 * modulus
  {
  }

  lemma SpareSamples(x: nat, modulus: nat)
    requires modulus >= 1
    ensures x < (1 + x / modulus) * modulus <= x + modulus
  {
  }

  /**
   * Each batch asks for at least one spare value and at most twice what is missing; on average that is enough,
   * with at most one accepted value to spare.
   */
  lemma SampleSizeBounds(c: nat, modulus: nat)
    requires modulus >= 2 && c >= 1
    ensures c + 1 <= SampleSize(c, modulus) <= 2 * c
    ensures c * Pow2(BitLength(modulus)) < SampleSize(c, modulus) * modulus
         <= c * Pow2(BitLength(modulus)) + modulus
  {
    hide *;
    var range := Pow2(BitLength(modulus));
    RangeOfModulus(modulus);
    SampleSizeInIntegers(c, modulus);
    QuotientRange(c, range, modulus);
    SpareSamples(c * range, modulus);
  }
}
