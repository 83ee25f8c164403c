/** Additive secret sharing modulo m: one share is a seed, the other a vector. */
module Sharing {
  import opened Batching
  import opened Results
  import opened Sampling
  import opened Seeds
  import opened Shuffling

  const UINT32 := 0x1_0000_0000

  /** x - y mod m in 32-bit arithmetic that wraps around. */
  function SubMod(x: nat, y: nat, modulus: nat): Result<nat>
    requires x < UINT32 && y < UINT32 && modulus < UINT32
  {
    if x >= modulus || y >= modulus then Failure(InvalidArgument)
    else
      var cmp := if x < y then 1 else 0;
      Success((x - y + cmp * modulus) % UINT32)
  }

  function Add(x: nat, y: nat, modulus: nat): nat
    requires modulus >= 1
  {
    (x + y) % modulus
  }

  lemma AddReduced(y: nat, z: nat, modulus: nat)
    requires y < modulus && z < modulus
    ensures Add(y, z, modulus) == if y + z < modulus then y + z else y + z - modulus
  {
  }

  lemma SubReduced(x: nat, y: nat, modulus: nat)
    requires x < modulus && y < modulus && modulus < UINT32
    ensures SubMod(x, y, modulus) == Success(if x < y then x - y + modulus else x - y)
  {
  }

  /** The only reduced number that adds up with y to x. */
  lemma SubModUnique(x: nat, y: nat, modulus: nat, z: nat)
    requires x < UINT32 && y < UINT32 && modulus < UINT32
    ensures SubMod(x, y, modulus).Success? <==> x < modulus && y < modulus
    ensures x < modulus && y < modulus && z < modulus ==>
              (Add(y, z, modulus) == x <==> SubMod(x, y, modulus) == Success(z))
  {
    if x < modulus && y < modulus && z < modulus {
      hide Add;
      AddReduced(y, z, modulus);
      SubReduced(x, y, modulus);
    }
  }

  predicate Reduced(s: seq<nat>, modulus: nat) {
    forall i :: 0 <= i < |s| ==> s[i] < modulus
  }

  /** Adding two share vectors. */
  function AddVectors(a: seq<nat>, b: seq<nat>, modulus: nat): (r: seq<nat>)
    requires |a| == |b| && modulus >= 1
    ensures |r| == |a|
  {
    seq(|a|, i requires 0 <= i < |a| => Add(a[i], b[i], modulus))
  }

  /** The vector that completes share1 to the input; defined for reduced inputs. */
  function Complement(input: seq<nat>, share1: seq<nat>, modulus: nat): (r: seq<nat>)
    requires |input| == |share1| && Reduced(input, modulus) && Reduced(share1, modulus) && modulus < UINT32
    ensures |r| == |input|
  {
    seq(|input|, i requires 0 <= i < |input| => SubMod(input[i], share1[i], modulus).value)
  }

  lemma ComplementIsReduced(input: seq<nat>, share1: seq<nat>, modulus: nat)
    requires |input| == |share1| && Reduced(input, modulus) && Reduced(share1, modulus) && modulus < UINT32
    ensures Reduced(Complement(input, share1, modulus), modulus)
  {
  }

  lemma BijectionFromElements(input: seq<nat>, share1: seq<nat>, share2: seq<nat>, modulus: nat)
    requires |input| == |share1| == |share2| && 1 <= modulus < UINT32
    requires Reduced(input, modulus) && Reduced(share1, modulus) && Reduced(share2, modulus)
    requires forall i :: 0 <= i < |input| ==>
               (SubMod(input[i], share1[i], modulus) == Success(share2[i])
                <==> Add(share1[i], share2[i], modulus) == input[i])
    requires forall i :: 0 <= i < |input| ==>
               (SubMod(input[i], share2[i], modulus) == Success(share1[i])
                <==> Add(share1[i], share2[i], modulus) == input[i])
    ensures Complement(input, share1, modulus) == share2 <==> AddVectors(share1, share2, modulus) == input
    ensures Complement(input, share2, modulus) == share1 <==> AddVectors(share1, share2, modulus) == input
  {
  }

  /** For each input and each second share there is exactly one first share that leads to it, and back. */
  lemma SharingIsBijection(input: seq<nat>, share1: seq<nat>, share2: seq<nat>, modulus: nat)
    requires |input| == |share1| == |share2| && 1 <= modulus < UINT32
    requires Reduced(input, modulus) && Reduced(share1, modulus) && Reduced(share2, modulus)
    ensures Complement(input, share1, modulus) == share2 <==> AddVectors(share1, share2, modulus) == input
    ensures Complement(input, share1, modulus) == share2 <==> Complement(input, share2, modulus) == share1
  {
    forall i | 0 <= i < |input|
      ensures SubMod(input[i], share1[i], modulus) == Success(share2[i])
         <==> Add(share1[i], share2[i], modulus) == input[i]
      ensures SubMod(input[i], share2[i], modulus) == Success(share1[i])
         <==> Add(share1[i], share2[i], modulus) == input[i]
    {
      SubModUnique(input[i], share1[i], modulus, share2[i]);
      SubModUnique(input[i], share2[i], modulus, share1[i]);
      assert Add(share1[i], share2[i], modulus) == Add(share2[i], share1[i], modulus);
    }
    BijectionFromElements(input, share1, share2, modulus);
  }

  datatype SecretShare = SecretShare(vector: seq<nat>, seed: PrngSeed)

  /** What the operating system's random source did: its status, then the two draws. */
  datatype Entropy = Entropy(seeded: bool, keyDrawn: bool, ivDrawn: bool, seed: PrngSeed)

  ghost predicate Usable(entropy: Entropy) {
    entropy.seeded && entropy.keyDrawn && entropy.ivDrawn
  }

  /** The first share vector, regenerated from its seed. */
  ghost function FirstShare(cipher: Cipher, seed: PrngSeed, modulus: nat, size: nat): (r: seq<nat>)
    requires modulus >= 2 && Fair(cipher(seed), 0, modulus, size)
    ensures |r| == size && Reduced(r, modulus)
  {
    Draw(cipher(seed), 0, modulus, size)
  }

  /** A share pair determines the input. */
  ghost predicate Reconstructs(cipher: Cipher, share: SecretShare, modulus: nat, input: seq<nat>)
    requires modulus >= 2
  {
    && |share.vector| == |input|
    && Reduced(share.vector, modulus)
    && Fair(cipher(share.seed), 0, modulus, |input|)
    && AddVectors(FirstShare(cipher, share.seed, modulus, |input|), share.vector, modulus) == input
  }

  lemma UsableIs(entropy: Entropy)
    ensures Usable(entropy) <==> entropy.seeded && entropy.keyDrawn && entropy.ivDrawn
    ensures MAX_MODULUS < UINT32
  {
  }

  lemma FirstShareDrawn(cipher: Cipher, seed: PrngSeed, modulus: nat, size: nat)
    requires modulus >= 2 && Terminates(cipher(seed), 0, modulus, size)
    ensures if ReadsInside(cipher(seed), 0, modulus, size) then
              && Fair(cipher(seed), 0, modulus, size)
              && Outcome(cipher(seed), 0, modulus, size) == Success(FirstShare(cipher, seed, modulus, size))
            else Outcome(cipher(seed), 0, modulus, size) == Failure(UndefinedBehavior)
  {
    if ReadsInside(cipher(seed), 0, modulus, size) {
      InsideIsFair(cipher(seed), 0, modulus, size);
    }
  }

  lemma SharesReconstruct(cipher: Cipher, seed: PrngSeed, modulus: nat, input: seq<nat>, share2: seq<nat>)
    requires 2 <= modulus < UINT32 && Reduced(input, modulus)
    requires Fair(cipher(seed), 0, modulus, |input|)
    requires share2 == Complement(input, FirstShare(cipher, seed, modulus, |input|), modulus)
    ensures Reconstructs(cipher, SecretShare(share2, seed), modulus, input)
  {
    var share1 := FirstShare(cipher, seed, modulus, |input|);
    ComplementIsReduced(input, share1, modulus);
    SharingIsBijection(input, share1, share2, modulus);
  }

  /** The loop that fills the second share vector; it stops at the first input that is not reduced. */
  method SubtractAll(input: seq<nat>, share1: seq<nat>, modulus: nat) returns (share2: seq<nat>, ok: bool)
    requires |input| == |share1| && 1 <= modulus < UINT32 && Reduced(input, UINT32) && Reduced(share1, modulus)
    ensures ok <==> Reduced(input, modulus)
    ensures ok ==> share2 == Complement(input, share1, modulus)
  {
    share2 := seq(|input|, _ => 0);
    for i := 0 to |input|
      invariant |share2| == |input|
      invariant forall j :: 0 <= j < i ==>
                  input[j] < modulus && SubMod(input[j], share1[j], modulus) == Success(share2[j])
    {
      var difference := SubMod(input[i], share1[i], modulus);
      if difference.Failure? {
        return share2, false;
      }
      share2 := share2[i := difference.value];
    }
    ok := true;
  }

  method GenerateSecretShares(cipher: Cipher, modulus: nat, input: seq<nat>, entropy: Entropy)
    returns (r: Result<SecretShare>)
    requires modulus <= MAX_MODULUS && Reduced(input, UINT32)
    requires WellSized(entropy.seed)
    requires |input| > 0 && modulus >= 2 && Usable(entropy) ==> Terminates(cipher(entropy.seed), 0, modulus, |input|)
    ensures |input| == 0 || modulus <= 1 ==> r == Failure(InvalidArgument)
    ensures |input| > 0 && modulus >= 2 && !Usable(entropy) ==> r == Failure(Internal)
    ensures |input| > 0 && modulus >= 2 && Usable(entropy) ==>
              var inside := ReadsInside(cipher(entropy.seed), 0, modulus, |input|);
              && (r.Success? <==> inside && Reduced(input, modulus))
              && (r.Failure? ==> r.error == if inside then InvalidArgument else UndefinedBehavior)
              && (r.Success? ==> r.value.seed == entropy.seed && Reconstructs(cipher, r.value, modulus, input))
  {
    hide *;
    UsableIs(entropy);
    if |input| == 0 {
      return Failure(InvalidArgument);
    }
    if modulus <= 1 {
      return Failure(InvalidArgument);
    }
    if !entropy.seeded {
      return Failure(Internal);
    }
    if !entropy.keyDrawn {
      return Failure(Internal);
    }
    if !entropy.ivDrawn {
      return Failure(Internal);
    }
    var prng := CreatePrngFromSeed(cipher, entropy.seed);
    FirstShareDrawn(cipher, entropy.seed, modulus, |input|);
    var share1 := prng.value.GenerateUniformRandomRange(|input|, modulus);
    if share1.Failure? {
      return Failure(share1.error);
    }
    var share2, ok := SubtractAll(input, share1.value, modulus);
    if !ok {
      return Failure(InvalidArgument);
    }
    SharesReconstruct(cipher, entropy.seed, modulus, input, share2);
    return Success(SecretShare(share2, entropy.seed));
  }

  /** Shuffling both share vectors alike and adding is shuffling the sum: the order never depends on the data. */
  lemma SharesShuffleTogether(a: seq<nat>, b: seq<nat>, modulus: nat, offsets: seq<nat>)
    requires |a| == |b| && modulus >= 1 && ValidOffsets(|a|, offsets)
    ensures AddVectors(FisherYates(a, offsets), FisherYates(b, offsets), modulus)
         == FisherYates(AddVectors(a, b, modulus), offsets)
  {
    var l, r := AddVectors(FisherYates(a, offsets), FisherYates(b, offsets), modulus),
                FisherYates(AddVectors(a, b, modulus), offsets);
    forall k | 0 <= k < |a|
      ensures l[k] == r[k]
    {
      ShuffleByOrigins(a, offsets, k);
      ShuffleByOrigins(b, offsets, k);
      ShuffleByOrigins(AddVectors(a, b, modulus), offsets, k);
    }
  }

  /** Two parties that shuffle their own shares with one common seed hold shares of the shuffled input. */
  lemma ShuffledSharesReconstruct(cipher: Cipher, share: SecretShare, modulus: nat, input: seq<nat>, seed: PrngSeed)
    requires modulus >= 2 && Reconstructs(cipher, share, modulus, input)
    ensures var offsets := SeedOffsets(cipher(seed), |input|);
            var first := FirstShare(cipher, share.seed, modulus, |input|);
            AddVectors(FisherYates(first, offsets), FisherYates(share.vector, offsets), modulus)
            == FisherYates(input, offsets)
  {
    SharesShuffleTogether(FirstShare(cipher, share.seed, modulus, |input|), share.vector, modulus,
                          SeedOffsets(cipher(seed), |input|));
  }
}
