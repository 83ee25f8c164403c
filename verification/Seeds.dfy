/** Seeds of the AES-256 counter-mode generator and the errors for badly sized ones. */
module Seeds {
  import opened Generators
  import opened Results
  import opened Sampling

  const BYTES_PER_AES256_KEY := 32
  const BYTES_PER_AES256_IV := 16

  datatype PrngSeed = PrngSeed(key: seq<Byte>, iv: seq<Byte>)

  /** The cipher's keystream as a function of the seed. */
  type Cipher = PrngSeed -> Stream

  predicate WellSized(seed: PrngSeed) {
    |seed.key| == BYTES_PER_AES256_KEY && |seed.iv| == BYTES_PER_AES256_IV
  }

  method CreatePrngFromSeed(cipher: Cipher, seed: PrngSeed) returns (r: Result<Prng>)
    ensures r.Success? <==> WellSized(seed)
    ensures r.Success? ==> fresh(r.value) && r.value.stream == cipher(seed) && r.value.pos == 0
    ensures r.Failure? ==> r.error == InvalidArgument
  {
    if |seed.key| != BYTES_PER_AES256_KEY {
      return Failure(InvalidArgument);
    }
    if |seed.iv| != BYTES_PER_AES256_IV {
      return Failure(InvalidArgument);
    }
    var prng := new Prng(cipher(seed));
    return Success(prng);
  }
}
