/** The arithmetic that turns a vector of index parts into one register number. */
module LinearIndex {
  import opened Arithmetic
  import opened Words

  function Product(sizes: seq<nat>): nat {
    if |sizes| == 0 then 1 else Product(sizes[..|sizes| - 1]) * sizes[|sizes| - 1]
  }

  /** The linearized index over unbounded integers. */
  function Linear(sizes: seq<nat>, parts: seq<nat>): nat
    requires |parts| == |sizes|
  {
    if |sizes| == 0 then 0
    else
      var n := |sizes| - 1;
      Product(sizes[..n]) * Linear(sizes[..n], parts[..n]) + parts[n]
  }

  /** How much one step of part i moves the index: the products that the later turns multiply by. */
  function Weight(sizes: seq<nat>, i: nat): nat
    requires i < |sizes|
  {
    var n := |sizes| - 1;
    if i == n then 1 else Product(sizes[..n]) * Weight(sizes[..n], i)
  }

  /** Products of more sizes are products of products. */
  lemma {:induction false} ProductOfBoth(a: seq<nat>, b: seq<nat>)
    ensures Product(a + b) == Product(a) * Product(b)
    ensures |a| == 1 ==> Product(a) == a[0]
    decreases |b|
  {
    if |b| == 0 {
      assert a + b == a;
    } else {
      var n := |b| - 1;
      assert (a + b)[..|a + b| - 1] == a + b[..n];
      ProductOfBoth(a, b[..n]);
      assert Product(a) * Product(b[..n]) * b[n] == Product(a) * (Product(b[..n]) * b[n]);
    }
    if |a| == 1 {
      assert Product(a[..0]) == 1;
    }
  }

  lemma LinearStep(sizes: seq<nat>, parts: seq<nat>, n: nat)
    requires |parts| == |sizes| == n + 1
    ensures Linear(sizes, parts) == Product(sizes[..n]) * Linear(sizes[..n], parts[..n]) + parts[n]
  {
  }

  lemma ScaledDifference(p: int, a: int, b: int, w: int, d: int)
    requires a - b == w * d
    ensures p * a - p * b == p * w * d
  {
    Distribute(p, a, -b);
    assert p * (w * d) == p * w * d;
  }

  /** The index is linear in every part. */
  lemma {:induction false} LinearWeights(sizes: seq<nat>, parts: seq<nat>, i: nat, x: nat)
    requires |parts| == |sizes| && i < |sizes|
    ensures Linear(sizes, parts[i := x]) - Linear(sizes, parts) == Weight(sizes, i) * (x - parts[i])
    decreases |sizes|
  {
    var n := |sizes| - 1;
    var s := sizes[..n];
    LinearStep(sizes, parts[i := x], n);
    LinearStep(sizes, parts, n);
    if i == n {
      assert parts[i := x][..n] == parts[..n];
    } else {
      assert parts[i := x][..n] == parts[..n][i := x];
      LinearWeights(s, parts[..n], i, x);
      hide Linear, Product;
      ScaledDifference(Product(s), Linear(s, parts[..n][i := x]), Linear(s, parts[..n]), Weight(s, i), x - parts[i]);
    }
  }

  /** All parts 0 give index 0. */
  lemma {:induction false} LinearZero(sizes: seq<nat>, parts: seq<nat>)
    requires |parts| == |sizes| && forall i :: 0 <= i < |parts| ==> parts[i] == 0
    ensures Linear(sizes, parts) == 0
    decreases |sizes|
  {
    if |sizes| > 0 {
      LinearZero(sizes[..|sizes| - 1], parts[..|sizes| - 1]);
    }
  }

  predicate InRange(sizes: seq<nat>, parts: seq<nat>) {
    && |parts| == |sizes|
    && forall i :: 0 <= i < |sizes| ==> parts[i] < sizes[i]
  }

  predicate Positive(sizes: seq<nat>) {
    forall i :: 0 <= i < |sizes| ==> sizes[i] >= 1
  }

  /** The least distance between the indexes of two different part vectors; 0 if there is only one vector. */
  function Gap(sizes: seq<nat>): nat {
    if |sizes| == 0 then 0
    else
      var n := |sizes| - 1;
      if sizes[n] >= 2 then 1 else Product(sizes[..n]) * Gap(sizes[..n])
  }

  /** Every size fits between two neighbouring indexes of the sizes before it. */
  predicate Fits(sizes: seq<nat>) {
    |sizes| == 0
    || var n := |sizes| - 1;
       && Fits(sizes[..n])
       && (sizes[n] <= 1 || Gap(sizes[..n]) == 0 || sizes[n] <= Product(sizes[..n]) * Gap(sizes[..n]))
  }

  ghost predicate Injective(sizes: seq<nat>) {
    forall p, q :: InRange(sizes, p) && InRange(sizes, q) && Linear(sizes, p) == Linear(sizes, q) ==> p == q
  }

  lemma {:induction false} ProductPositive(sizes: seq<nat>)
    requires Positive(sizes)
    ensures Product(sizes) >= 1
    decreases |sizes|
  {
    if |sizes| > 0 {
      ProductPositive(sizes[..|sizes| - 1]);
    }
  }

  lemma {:induction false} NoGapMeansOneVector(sizes: seq<nat>, p: seq<nat>, q: seq<nat>)
    requires Positive(sizes) && InRange(sizes, p) && InRange(sizes, q) && Gap(sizes) == 0
    ensures p == q
    decreases |sizes|
  {
    if |sizes| > 0 {
      var n := |sizes| - 1;
      ProductPositive(sizes[..n]);
      assert Gap(sizes[..n]) == 0;
      NoGapMeansOneVector(sizes[..n], p[..n], q[..n]);
      assert p == p[..n] + [p[n]] && q == q[..n] + [q[n]];
    }
  }

  lemma LinearAppend(sizes: seq<nat>, p: seq<nat>, x: nat)
    requires |sizes| > 0 && InRange(sizes[..|sizes| - 1], p) && x < sizes[|sizes| - 1]
    ensures InRange(sizes, p + [x])
    ensures Linear(sizes, p + [x]) == Product(sizes[..|sizes| - 1]) * Linear(sizes[..|sizes| - 1], p) + x
  {
  }

  /** Where every size fits, different vectors are at least a gap apart. */
  lemma {:induction false} FitsSeparates(sizes: seq<nat>, p: seq<nat>, q: seq<nat>)
    requires Positive(sizes) && Fits(sizes) && InRange(sizes, p) && InRange(sizes, q) && p != q
    ensures Gap(sizes) >= 1
    ensures Linear(sizes, p) >= Linear(sizes, q) + Gap(sizes) || Linear(sizes, q) >= Linear(sizes, p) + Gap(sizes)
    decreases |sizes|
  {
    if Gap(sizes) == 0 {
      NoGapMeansOneVector(sizes, p, q);
    }
    var n := |sizes| - 1;
    var s, p', q' := sizes[..n], p[..n], q[..n];
    assert p == p' + [p[n]] && q == q' + [q[n]];
    if p' != q' {
      FitsSeparates(s, p', q');
      if Linear(s, p') >= Linear(s, q') + Gap(s) {
        ScaledDistance(Product(s), Linear(s, p'), Linear(s, q'), Gap(s));
      } else {
        ScaledDistance(Product(s), Linear(s, q'), Linear(s, p'), Gap(s));
      }
    }
  }

  /** The gap is reached by some pair of vectors. */
  lemma {:induction false} GapIsReached(sizes: seq<nat>) returns (p: seq<nat>, q: seq<nat>)
    requires Positive(sizes) && Gap(sizes) >= 1
    ensures InRange(sizes, p) && InRange(sizes, q)
    ensures Linear(sizes, p) == Linear(sizes, q) + Gap(sizes)
    decreases |sizes|
  {
    var n := |sizes| - 1;
    var s := sizes[..n];
    if sizes[n] >= 2 {
      var zeros := seq(n, _ => 0);
      p, q := zeros + [1], zeros + [0];
      assert p[..n] == zeros == q[..n];
    } else {
      assert Gap(s) >= 1;
      var p', q' := GapIsReached(s);
      p, q := p' + [0], q' + [0];
      LinearAppend(sizes, p', 0);
      LinearAppend(sizes, q', 0);
      Distribute(Product(s), Linear(s, q'), Gap(s));
    }
  }

  /** The first size that does not fit makes the step past a gap an allowed last part. */
  lemma LastMisfitCollides(sizes: seq<nat>, n: nat) returns (p: seq<nat>, q: seq<nat>)
    requires |sizes| == n + 1 && Positive(sizes) && Gap(sizes[..n]) >= 1
    requires Product(sizes[..n]) * Gap(sizes[..n]) < sizes[n]
    ensures InRange(sizes, p) && InRange(sizes, q) && p != q
    ensures Linear(sizes, p) == Linear(sizes, q)
  {
    var p', q' := GapIsReached(sizes[..n]);
    var step := Product(sizes[..n]) * Gap(sizes[..n]);
    p, q := p' + [0], q' + [step];
    LinearAppend(sizes, p', 0);
    LinearAppend(sizes, q', step);
    Distribute(Product(sizes[..n]), Linear(sizes[..n], q'), Gap(sizes[..n]));
    assert p[..n] == p' && q[..n] == q';
  }

  /** Where some size does not fit, two different vectors share an index. */
  lemma {:induction false} MisfitCollides(sizes: seq<nat>) returns (p: seq<nat>, q: seq<nat>)
    requires Positive(sizes) && !Fits(sizes)
    ensures InRange(sizes, p) && InRange(sizes, q) && p != q
    ensures Linear(sizes, p) == Linear(sizes, q)
    decreases |sizes|
  {
    var n := |sizes| - 1;
    if Fits(sizes[..n]) {
      p, q := LastMisfitCollides(sizes, n);
    } else {
      var p', q' := MisfitCollides(sizes[..n]);
      p, q := p' + [0], q' + [0];
      LinearAppend(sizes, p', 0);
      LinearAppend(sizes, q', 0);
      assert p[..n] == p' && q[..n] == q';
    }
  }

  /** One register per index vector holds exactly for the sizes that fit. */
  lemma InjectiveIffFits(sizes: seq<nat>)
    requires Positive(sizes)
    ensures Injective(sizes) <==> Fits(sizes)
  {
    if Fits(sizes) {
      forall p, q | InRange(sizes, p) && InRange(sizes, q) && Linear(sizes, p) == Linear(sizes, q)
        ensures p == q
      {
        if p != q {
          FitsSeparates(sizes, p, q);
        }
      }
    } else {
      var p, q := MisfitCollides(sizes);
    }
  }

  /** One more size of at least two behind others of that kind. */
  lemma FitsStep(sizes: seq<nat>, n: nat)
    requires |sizes| == n + 1 && forall i :: 0 <= i < |sizes| ==> sizes[i] >= 2
    ensures Fits(sizes) <==> Fits(sizes[..n]) && (n >= 1 ==> sizes[n] <= Product(sizes[..n]))
  {
    var s := sizes[..n];
    assert Gap(s) == if n == 0 then 0 else 1;
  }

  /** No size exceeds the product of the sizes before it. */
  ghost predicate WithinProducts(sizes: seq<nat>) {
    forall i :: 1 <= i < |sizes| ==> sizes[i] <= Product(sizes[..i])
  }

  lemma WithinProductsStep(sizes: seq<nat>, n: nat)
    requires |sizes| == n + 1
    ensures WithinProducts(sizes) <==> WithinProducts(sizes[..n]) && (n >= 1 ==> sizes[n] <= Product(sizes[..n]))
  {
    hide Product;
    var s := sizes[..n];
    forall i | 0 <= i < n
      ensures s[..i] == sizes[..i] && s[i] == sizes[i]
    {
    }
  }

  lemma NoSizes(sizes: seq<nat>)
    requires |sizes| == 0
    ensures Fits(sizes) && WithinProducts(sizes)
  {
  }

  /** For sizes of at least two, that is the whole condition. */
  lemma {:induction false} FitsByProducts(sizes: seq<nat>)
    requires forall i :: 0 <= i < |sizes| ==> sizes[i] >= 2
    ensures Fits(sizes) <==> WithinProducts(sizes)
    decreases |sizes|
  {
    hide *;
    if |sizes| == 0 {
      NoSizes(sizes);
    } else {
      var n := |sizes| - 1;
      FitsByProducts(sizes[..n]);
      FitsStep(sizes, n);
      WithinProductsStep(sizes, n);
    }
  }

  /** Sizes 2 and 3: the vectors (1, 0) and (0, 2) land in the same register. */
  lemma TwoByThreeCollides()
    ensures InRange([2, 3], [1, 0]) && InRange([2, 3], [0, 2])
    ensures Linear([2, 3], [1, 0]) == Linear([2, 3], [0, 2]) == 2
    ensures !Fits([2, 3])
  {
  }

  function Word(x: nat): nat {
    x % WORD
  }

  /** Multiply and add on 64-bit words. */
  function MulAdd(a: nat, b: nat, c: nat): nat {
    Word(a * b + c)
  }

  /** Word arithmetic on reduced operands agrees with reducing once at the end. */
  lemma MulAddReduced(a: nat, b: nat, c: nat)
    ensures MulAdd(Word(a), Word(b), c) == MulAdd(Word(a), b, c) == MulAdd(a, b, c)
  {
    ModOfFactor(a, b, c, WORD);
    ModOfFactor(b, Word(a), c, WORD);
    assert Word(a) * b == b * Word(a) && Word(a) * Word(b) == Word(b) * Word(a);
  }

  ghost function Largest(sizes: seq<nat>): (parts: seq<nat>)
    requires Positive(sizes)
    ensures InRange(sizes, parts)
  {
    seq(|sizes|, i requires 0 <= i < |sizes| => (sizes[i] - 1) as nat)
  }

  lemma {:induction false} LargestBounds(sizes: seq<nat>, parts: seq<nat>)
    requires Positive(sizes) && InRange(sizes, parts)
    ensures Linear(sizes, parts) <= Linear(sizes, Largest(sizes))
    decreases |sizes|
  {
    if |sizes| > 0 {
      var n := |sizes| - 1;
      var s := sizes[..n];
      LargestBounds(s, parts[..n]);
      assert Largest(sizes)[..n] == Largest(s);
      ScaledDistance(Product(s), Linear(s, Largest(s)), Linear(s, parts[..n]), 0);
    }
  }

  /** While the largest index fits a word, the stored 64-bit register number is still injective exactly then. */
  lemma WordInjectiveIffFits(sizes: seq<nat>)
    requires Positive(sizes) && Linear(sizes, Largest(sizes)) < WORD
    ensures (forall p, q :: InRange(sizes, p) && InRange(sizes, q) && Word(Linear(sizes, p)) == Word(Linear(sizes, q))
                            ==> p == q)
       <==> Fits(sizes)
  {
    forall p | InRange(sizes, p)
      ensures Word(Linear(sizes, p)) == Linear(sizes, p)
    {
      LargestBounds(sizes, p);
    }
    InjectiveIffFits(sizes);
  }
}
