# AnySketch verification model

A Dafny 4.11 model of the algorithms of the AnySketch C++ library, with proofs of what they
promise. `dafny verify dfyconfig.toml` checks the whole project.

The library builds mergeable sketches of item streams, encrypts their registers for a
multi-party protocol, and secret-shares and shuffles frequency vectors. The model follows it
component by component:

| file | component |
|---|---|
| `Results`, `Words`, `Arithmetic`, `Powers`, `Sequences`, `Decimals` | status values, 64-bit words, and facts about numbers, sequences and decimal strings |
| `Sampling`, `Batching`, `NonZeroDraws`, `StreamSafety`, `NonZeroFairness`, `NonZeroResults`, `Generators`, `Seeds` | the seeded generator: a byte stream with a position, batched rejection sampling on it, the streams on which that is safe and ends, seeds |
| `Sharing` | additive secret sharing of a vector: one share is a seed, the other a vector |
| `Shuffling` | the seeded in-place Fisher-Yates shuffle |
| `Distributions` | distributions of items over a range, and the bit trick behind the geometric one |
| `Aggregators`, `Registers`, `LinearIndex`, `AnySketches` | aggregation, the register map as a value, register numbers, and the sketch class |
| `Curves`, `Encrypters`, `Decryption` | ElGamal over a group of scalars, the encrypter class, and reading its output back |
| `Histories`, `Unions`, `Conflicts` | whole runs of inserts and merges, when a merge is the sketch of a union, and conflicts through to the decrypted registers |
| `Estimators` | the inversion of a monotone function behind the cardinality estimators |

Objects that the library updates in place are classes (`Prng`, `AnySketch`, `SketchEncrypter`,
`ByteString`), the shuffle works on an array, and each method is tied to a specification function
about which the lemmas speak. `hide` only keeps definitions away from the solver where they are not needed.

## How the system is represented

- A generator is an arbitrary function from positions to bytes together with a position. Counter
  mode (section 6.5 of NIST SP 800-38A) makes split reads concatenate. The cipher that turns a seed
  into such a function is a parameter, and so is everything drawn from the operating system.
- `double` expressions in the samplers are exact reals, and `ceil(log2(m))` is the least sufficient
  bit length. A mask of b low bits is a remainder by 2^b.
- A read outside a vector is the error `UndefinedBehavior` instead of an arbitrary value.
- A sketch object carries the contributions that went into it as a ghost history, and `Valid` says that its
  registers are the sketch of that history. After a merge with other aggregators the other registers take
  the place of the other history. The theorems on histories thus speak of every reachable object.
- A curve point is a scalar below a prime group order q > 2^64; scalar 0, the point at infinity, has
  no byte form. Compressed bytes, the hash to the curve and the group order are parameters bound by
  `ValidCurve`. A ciphertext is (r·g, m + r·y), and the numbers r are an input.
- 64-bit words are modelled with their wrap-around in `GetIndex`, `max_counter_value + 1` and
  `InvertMonotonic`, and 32-bit words in `SubMod` and in the sampler's byte loop.

## Where the code and its promises differ

- The rejection loop of `GenerateUniformRandomRange` is bounded by the number of bytes but indexes whole
  values. `SafeOnEveryStream` gives the exact calls for which it stays inside its buffer on every stream:
  size 0, a modulus of at most 256, or a power of two. `Outcome` says, stream by stream, when it does
  not: values take several bytes and the first batch holds too few accepted ones. `AllOnesAcceptsNone` is such a stream.
- `InvertMonotonic` may return one more than the true inverse. `Answer` says exactly when, in terms of
  the interval found by doubling. For a strictly increasing function, `InvertOwnValue` turns this into a
  condition on the argument alone, and argument 0 always comes back as 1. If the answer is 2^63, the last
  addition wraps and the code returns 0 (`AnswerWraps`, `WrappingCall`).
- The doubling loop of `InvertMonotonic` works on 64-bit words and stays at 0 after 64 turns. For a monotone
  function it ends iff the target is at most f(2^63) (`DoublingEndsIff`), although larger arguments exist:
  for the identity and the target 2^63 + 1 the code does not end (`EndlessDoubling`).
- The repository's README intends one register per vector of indexes. The linearization gives that exactly
  for sizes that `Fits` (`InjectiveIffFits`); sizes 2 and 3 already collide (`TwoByThreeCollides`).
- A call for values other than 0 drops the spare values of its inner draws, so it may run for ever on a stream
  that offers usable values for ever: bytes 0, 0, 1 repeated, with modulus 4 and one value wanted (`ZeroZeroOne`).
  `EndsOnEveryFairStream` gives the exact condition for ending at all, by a result or by an undefined read: usable
  candidates that come in recurring runs suffice iff the runs are longer than the spare candidates of a batch.
  `ReturnsOnEveryFairStream` gives it for returning values: the modulus must also be at most 256 or a power of two.
  For any other modulus one rejected batch at the start ends the call with an undefined read, even if only
  usable candidates follow (`RejectedFirstFails`).
- The comment on `Merge` speaks of the union of the sets. The result is the sketch of one history after
  the other (`MergeIsConcatenation`). It is that of the union iff the items in both sets add up to 0 in every SUM
  column (`MergeIsUnionIff`). That holds for disjoint sets and without SUM columns (`MergeIsUnion`) and,
  for items that count positively, in no other case (`MergeIsUnionOnlyIf`). One shared item counts
  twice (`SharedItemCountsTwice`).
- The header says that large counters are encrypted as `max_counter_value`; the code uses that value
  plus one, and so does the model. The two agree for n iff n is at most `max_counter_value` (`HeaderClamping`).
  With `max_counter_value` 0 the two halves of a conflict become equal (`ConflictIsVisible`), and with 2^64 - 1
  the sum wraps to 0 and no counter can be encrypted (`EncryptSucceedsIff`).

## Model

| member | source | states |
|---|---|---|
| Generators.Prng.GeneratePseudorandomBytes | src/main/cc/math/open_ssl_uniform_random_generator.cc:73-94 | a read returns exactly the next bytes of the stream and moves the position past them; a negative size is refused and moves nothing |
| Sampling.SplitReads | src/test/cc/math/open_ssl_uniform_random_generator_test.cc:237-270 | reading in two parts gives the bytes of one read |
| Generators.Prng.GenerateUniformRandomRange | src/main/cc/math/open_ssl_uniform_random_generator.cc:99-156 | whatever batches the estimate picks, the result is the first `size` accepted candidates of the stream, or the undefined read; the new position is the end of the batches drawn |
| Generators.Prng.AcceptBatch | src/main/cc/math/open_ssl_uniform_random_generator.cc:137-152 | one batch extends the kept values by its accepted ones up to `size`, and stays inside the buffer iff there are enough or values take one byte |
| Generators.Prng.ReadValue | src/main/cc/math/open_ssl_uniform_random_generator.cc:142-146 | the inner byte loop on 32-bit words reads one big-endian masked value without losing a bit |
| Sampling.BytesCover | src/main/cc/math/open_ssl_uniform_random_generator.cc:110-113 | a value takes w bytes iff w is the least number of bytes that covers the modulus |
| Sampling.BigEndianPlaces | src/main/cc/math/open_ssl_uniform_random_generator.cc:142-145 | every byte has its place value, the most significant one first |
| Sampling.CandidateBits | src/main/cc/math/open_ssl_uniform_random_generator.cc:115-146 | a candidate consists of exactly the low bits that the modulus needs |
| NonZeroDraws.AcceptedPicked | src/main/cc/math/open_ssl_uniform_random_generator.cc:137-152 | the accepted values are all candidates below the modulus, each once, in order |
| Sampling.DrawFrom | src/main/cc/math/open_ssl_uniform_random_generator.cc:126-155 | the values drawn do not depend on how long a prefix of the stream is looked at |
| Sampling.DrawsAreNested | src/main/cc/math/open_ssl_uniform_random_generator.cc:126-155 | fewer values from a position are a prefix of more values from it |
| Batching.AcceptedSplit | src/main/cc/math/open_ssl_uniform_random_generator.cc:134-152 | filtering two consecutive reads is filtering one long read |
| StreamSafety.SafeOnEveryStream | src/main/cc/math/open_ssl_uniform_random_generator.cc:138-144 | the calls that stay inside their buffers on every stream, exactly: size 0, modulus at most 256, or a power of two |
| StreamSafety.AllOnesAcceptsNone | src/main/cc/math/open_ssl_uniform_random_generator.cc:138-152 | the stream of bytes 255 has no accepted candidate unless the modulus is a power of two |
| StreamSafety.PowerOfTwoIsFair | src/main/cc/math/open_ssl_uniform_random_generator.cc:117-119 | a power of two rejects nothing, so every stream has enough values for it |
| Sampling.SampleSizeInIntegers | src/main/cc/math/open_ssl_uniform_random_generator.cc:120-132 | the real-number estimate is one more than c·2^b/m rounded down |
| Sampling.SampleSizeBounds | src/main/cc/math/open_ssl_uniform_random_generator.cc:128-132 | a batch for c missing values has between c+1 and 2c candidates; on average that is enough, with at most one accepted value to spare |
| NonZeroDraws.DrawnFromBatches | src/main/cc/math/open_ssl_uniform_random_generator.cc:126-153 | the candidates consumed by a call hold at least `size` accepted ones |
| Batching.BatchesDetermined | src/main/cc/math/open_ssl_uniform_random_generator.cc:126-153 | how far a call moves the generator does not depend on the bound used to show that it ends |
| Generators.Prng.GenerateNonZeroUniformRandomRange | src/main/cc/math/open_ssl_uniform_random_generator.cc:160-196 | on every stream on which the loop ends, it refines rounds that each drop the zeros of one inner draw and go on where it stopped: result, errors and final position |
| Generators.Prng.KeepNonZero | src/main/cc/math/open_ssl_uniform_random_generator.cc:183-193 | one inner draw adds its values other than 0, in order, up to `size` |
| NonZeroDraws.NonZeroSelection | src/main/cc/math/open_ssl_uniform_random_generator.cc:171-195 | a successful call returns exactly `size` values in [1, modulus), at strictly increasing places among the candidates up to its final position |
| NonZeroDraws.NonZeroDetermined | src/main/cc/math/open_ssl_uniform_random_generator.cc:175-194 | neither the outcome nor the final position depends on a bound on the number of rounds |
| NonZeroFairness.EndsOnEveryFairStream | src/main/cc/math/open_ssl_uniform_random_generator.cc:171-195 | usable candidates that come in recurring runs make every call end, by a result or by an undefined read, iff the runs are longer than the spare candidates of a batch |
| NonZeroFairness.LongRunsSuffice | src/main/cc/math/open_ssl_uniform_random_generator.cc:171-195 | recurring runs that are longer make the call end, by a result or by an undefined read, whatever its batches are |
| NonZeroFairness.EmptyRound | src/main/cc/math/open_ssl_uniform_random_generator.cc:175-193 | a round that keeps nothing ends before a long enough run does, so that the next round starts inside it |
| NonZeroFairness.WastefulNeverEnds | src/main/cc/math/open_ssl_uniform_random_generator.cc:171-195 | where every batch starts with enough zeros, each round reads a batch, keeps nothing and is followed by another |
| NonZeroFairness.ZeroZeroOne | src/main/cc/math/open_ssl_uniform_random_generator.cc:171-195 | the bytes 0, 0, 1 repeated: with modulus 4, one value is never found |
| NonZeroResults.ReturnsOnEveryFairStream | src/main/cc/math/open_ssl_uniform_random_generator.cc:171-195 | recurring runs make every call return values iff they are longer than the spare candidates of a batch and the modulus is at most 256 or a power of two |
| NonZeroResults.LongRunsReturn | src/main/cc/math/open_ssl_uniform_random_generator.cc:171-195 | for such moduli, recurring runs that are longer make the call return values |
| NonZeroResults.RejectedFirstFails | src/main/cc/math/open_ssl_uniform_random_generator.cc:138-144 | for every other modulus, one rejected batch followed by usable candidates only ends the call with an undefined read |
| Seeds.CreatePrngFromSeed | src/main/cc/math/open_ssl_uniform_random_generator.cc:36-70 | a generator at position 0 of the seed's stream, iff key and IV have 32 and 16 bytes |
| Sharing.SubModUnique | src/main/cc/frequency_count/generate_secret_shares.cc:36-44 | with 32-bit wrap-around, the result is the only reduced z with (y + z) mod m = x; failure iff an operand is not reduced |
| Sharing.SharingIsBijection | src/main/cc/frequency_count/generate_secret_shares.cc:86-92 | for each input and second share exactly one first share leads to it, and the shares add up to the input iff they are complements |
| Sharing.SubtractAll | src/main/cc/frequency_count/generate_secret_shares.cc:86-92 | the second vector is the complement of the first; the loop fails iff some input is not reduced |
| Sharing.GenerateSecretShares | src/main/cc/frequency_count/generate_secret_shares.cc:48-102 | success iff the parameters, the random source, the sampler and every input are good, each failure with its error; a success can be reconstructed from seed and vector |
| Sharing.SharesShuffleTogether | src/main/cc/crypto/shuffle.cc:48-59 | shuffling two vectors alike and adding is shuffling their sum |
| Sharing.ShuffledSharesReconstruct | src/main/cc/crypto/shuffle.cc:44-59 | shares shuffled separately with one seed are shares of the shuffled input |
| Shuffling.SecureShuffleWithSeed | src/main/cc/crypto/shuffle.cc:25-62 | at most one element: nothing happens, whatever the seed; a bad seed fails and changes nothing; otherwise the array is the Fisher-Yates shuffle for the seed's offsets |
| Shuffling.LittleEndianPlaces | src/main/cc/crypto/shuffle.cc:48 | every byte of a drawn value has its place value, the least significant one first |
| Shuffling.RandomPlaces | src/main/cc/crypto/shuffle.cc:44-48 | the j-th byte of the i-th drawn value is byte 16i + j of the stream |
| Shuffling.OffsetOfRandom | src/main/cc/crypto/shuffle.cc:56 | the offset for place i is the remainder of the i-th drawn value by n - i, characterised without remainders |
| Shuffling.ShuffleIsSwaps | src/main/cc/crypto/shuffle.cc:50-59 | the recursive shuffle is the result of exchanging place i with place i + offset, for each i in order |
| Shuffling.SwapExchanges | src/main/cc/crypto/shuffle.cc:58 | a swap exchanges two places and leaves all others alone |
| Shuffling.ShuffleInPlace | src/main/cc/crypto/shuffle.cc:48-59 | the swapping loop refines the recursive shuffle |
| Shuffling.ShufflePermutes | src/main/cc/crypto/shuffle.cc:50-59 | every run keeps the multiset of elements |
| Shuffling.UnshuffleUndoes | src/main/cc/crypto/shuffle.cc:50-59 | replaying the swaps backwards restores the input |
| Shuffling.ShuffleUndoes | src/main/cc/crypto/shuffle.cc:50-59 | every sequence is the shuffle of its own replay |
| Shuffling.EveryPermutationReached | src/main/cc/crypto/shuffle.h:27-31 | every rearrangement comes from some offsets |
| Shuffling.OffsetsAreUnique | src/main/cc/crypto/shuffle.h:27-31 | on distinct elements different offsets give different results |
| Shuffling.ShuffleIsBijection | src/main/cc/crypto/shuffle.h:27-31 | each permutation of distinct elements comes from exactly one offset sequence |
| Shuffling.ShuffleByOrigins | src/main/cc/crypto/shuffle.cc:48-59 | where each position comes from depends on length and offsets only, not on the data |
| Shuffling.RandomBound | src/main/cc/crypto/shuffle.cc:46-48 | a drawn value lies in [0, 2^128) |
| Shuffling.PreimagesCount | src/main/cc/crypto/shuffle.cc:51-56 | how many drawn values lead to an offset: bound/k, plus one for the offsets below bound mod k |
| Shuffling.NearlyUniform | src/main/cc/crypto/shuffle.cc:51-56 | any two offsets differ by at most one preimage |
| Shuffling.BiasedStep | src/main/cc/crypto/shuffle.cc:51-53 | each step counts the fewest values that have to be drawn again for its choices to be equally likely |
| Shuffling.FewBiasedValues | src/main/cc/crypto/shuffle.cc:51-55 | the values an unbiased shuffle would draw again number less than n² over all steps |
| Distributions.CountTrailingZeros | src/main/cc/any_sketch/distributions.cc:148-161 | the mask tests count the zero bits below the lowest one bit of any 64-bit word; 64 iff the word is 0 |
| Distributions.MaskCountCorrect | src/main/cc/any_sketch/distributions.cc:153-159 | for the isolated lowest bit the masks spell its position in binary |
| Distributions.TrailingZerosDivide | src/main/cc/any_sketch/distributions.cc:148-161 | for a word other than 0 the count is the one c for which 2^c divides it with an odd quotient |
| Distributions.ValuesCountUp | src/main/cc/any_sketch/distributions.cc:148-161 | the number that a word spells grows by one from word to word, from 0 on, and is 0 again after the last |
| Distributions.Distribution.Apply | src/main/cc/any_sketch/distributions.cc:56-70 | an accepted value lies between the declared minimum and maximum |
| Distributions.OracleApply | src/main/cc/any_sketch/distributions.cc:80-89 | the value of the feature in the metadata if it is in range; otherwise an error |
| Distributions.UniformApply | src/main/cc/any_sketch/distributions.cc:121-124 | the value between the minimum and the maximum that differs from the fingerprint by whole multiples of the number of values |
| Distributions.GeometricApply | src/main/cc/any_sketch/distributions.cc:170-174 | below the maximum, the offset is the exponent of 2 in the fingerprint, or 64 for 0; the maximum takes all larger exponents |
| Distributions.ExponentialApply | src/main/cc/any_sketch/distributions.cc:139-145 | the value of the formula if it is in range; otherwise an error |
| Distributions.HashedApplyNeverFails | src/main/cc/any_sketch/distributions.cc:121-125 | uniform and geometric distributions never trip the range check, on any item, iff the range is not empty |
| Distributions.GeometricValue | src/main/cc/any_sketch/distributions.cc:170-174 | the minimum means an odd fingerprint; the maximum means at least max - min trailing zeros |
| Aggregators.AggregateAssociates | src/main/cc/any_sketch/aggregators.cc:23-40 | both aggregators are commutative and associative, destroyed values included |
| Aggregators.ColumnValueGrows | src/main/cc/any_sketch/aggregators.cc:25-34 | aggregating one more value keeps the column the total, or the common value or -1, of all values so far |
| Aggregators.CodingRoundTrip | src/main/cc/any_sketch/aggregators.cc:35-38 | encoding and decoding for protos are inverse both ways |
| LinearIndex.InjectiveIffFits | src/main/cc/any_sketch/any_sketch.cc:76-85 | different index vectors get different numbers iff every size fits between two neighbouring numbers of the sizes before it; sizes of 1 included |
| LinearIndex.FitsByProducts | src/main/cc/any_sketch/any_sketch.cc:76-85 | for sizes of at least 2: iff no later size exceeds the product of the sizes before it |
| LinearIndex.FitsSeparates | src/main/cc/any_sketch/any_sketch.cc:82-83 | where all sizes fit, different vectors are at least a gap apart |
| LinearIndex.MisfitCollides | src/main/cc/any_sketch/any_sketch.cc:82-83 | where a size does not fit, two different vectors share a number |
| LinearIndex.TwoByThreeCollides | src/main/cc/any_sketch/any_sketch.cc:82-83 | sizes 2 and 3: (1, 0) and (0, 2) both get number 2 |
| LinearIndex.WordInjectiveIffFits | src/main/cc/any_sketch/any_sketch.cc:76-85 | the stored 64-bit number is injective under the same condition while the largest number fits a word |
| LinearIndex.MulAddReduced | src/main/cc/any_sketch/any_sketch.cc:76-85 | reducing to words at every step agrees with reducing once |
| LinearIndex.LinearWeights | src/main/cc/any_sketch/any_sketch.cc:82 | the index is linear in each part, with the product of the later multipliers as its weight |
| LinearIndex.ProductOfBoth | src/main/cc/any_sketch/any_sketch.cc:83 | the running product of sizes is multiplicative, and that of one size is the size |
| AnySketches.AnySketch.constructor | src/main/cc/any_sketch/any_sketch.cc:38-43 | a new sketch has no registers and an empty history |
| AnySketches.AnySketch.AggregateIntoRegister | src/main/cc/any_sketch/any_sketch.cc:47-72 | one register absorbs the tuple, no other changes, and the registers are the sketch of the longer history; a tuple of the wrong size is refused and changes nothing |
| AnySketches.AnySketch.GetIndex | src/main/cc/any_sketch/any_sketch.cc:74-86 | the 64-bit loop computes the unbounded linearized index reduced once to a word, or the first distribution's failure |
| AnySketches.AnySketch.Insert | src/main/cc/any_sketch/any_sketch.cc:103-112 | it succeeds iff every distribution has a value for the item; then the history grows by the contribution whose columns are the values of their distributions and whose index is the linearized offsets modulo 2^64, and one register absorbs it; otherwise the error is that of the first distribution without a value, and nothing changes |
| AnySketches.ApplyAllMeaning | src/main/cc/any_sketch/any_sketch.cc:106-110 | the values of all distributions in order, or the failure of the first one without |
| AnySketches.AnySketch.RegisterMeaning | src/main/cc/any_sketch/any_sketch.cc:74-86 | the register number is that of the offsets of all index values, and there is one iff all index distributions have a value |
| AnySketches.AnySketch.ContributionUnique | src/main/cc/any_sketch/any_sketch.cc:103-112 | an item has at most one contribution |
| Words.WordRoundTrip | src/main/cc/any_sketch/any_sketch.cc:85 | the signed form of a word is the one in the range of int64, and reading it as a word gives it back |
| AnySketches.AnySketch.NewValues | src/main/cc/any_sketch/any_sketch.cc:106-110 | the item's value in every column, or the first failure |
| AnySketches.AnySketch.Merge | src/main/cc/any_sketch/any_sketch.cc:114-120 | in any iteration order, and for a sketch merged into itself, the result is the register-wise combination, and the sketch of one history after the other; a refused merge changes nothing |
| AnySketches.AnySketch.MergeAll | src/main/cc/any_sketch/any_sketch.cc:122-128 | all sketches in turn, registers and histories; on failure exactly the merge of those before the refused one |
| Registers.CombineAssociates | src/main/cc/any_sketch/any_sketch.cc:65-70 | combining register maps is associative |
| Registers.CombineCommutes | src/main/cc/any_sketch/any_sketch.cc:65-70 | combining register maps is commutative |
| Registers.MergeIsConcatenation | src/main/cc/any_sketch/any_sketch.cc:114-120 | merging the sketches of two histories is sketching one after the other |
| Registers.MergeOrderIrrelevant | src/main/cc/any_sketch/any_sketch.h:109-112 | the order of the other sketches does not change the registers |
| Registers.SelfMerge | src/main/cc/any_sketch/any_sketch.cc:114-120 | merging a sketch into itself doubles SUM columns and leaves UNIQUE ones alone |
| Registers.SketchKeys | src/main/cc/any_sketch/any_sketch.cc:56-63 | a sketch has a register for exactly the indexes that were sent to it |
| Registers.SketchMeaning | src/main/cc/any_sketch/any_sketch.cc:65-70 | each column holds the total, or the common value or -1, of everything sent to that register |
| Histories.InsertionOrderIrrelevant | src/main/cc/any_sketch/any_sketch.cc:47-72 | the same contributions in any order give the same sketch |
| Histories.StateIsSketch | src/main/cc/any_sketch/any_sketch.h:105-112 | any run of inserts and merges leaves the sketch of all contributions that went into it |
| Unions.MergeIsUnionIff | src/main/cc/any_sketch/any_sketch.h:105-107 | merging the sketches of two sets gives the sketch of their union iff the items in both add up to 0 in every SUM column |
| Unions.MergeIsUnion | src/main/cc/any_sketch/any_sketch.h:105-107 | disjoint sets, and sketches without SUM columns, merge to the sketch of the union |
| Unions.MergeIsUnionOnlyIf | src/main/cc/any_sketch/any_sketch.h:105-107 | where shared items count positively, no others do |
| Unions.RepeatedContributions | src/main/cc/any_sketch/any_sketch.cc:65-70 | contributions seen before change a sketch iff some SUM column of theirs does not add up to 0 |
| Unions.SharedItemCountsTwice | src/main/cc/any_sketch/any_sketch.h:105-107 | one item in both sketches is counted twice after the merge |
| Conflicts.DestroyedIff | src/main/cc/any_sketch/crypto/sketch_encrypter.cc:71-85 | after any run a register counts as destroyed iff two contributions disagree in a UNIQUE column or one is negative there |
| Conflicts.DestroyedInSketch | src/main/cc/any_sketch/crypto/sketch_encrypter.cc:71-85 | the same for every sketch object, whatever inserts and merges, refused ones included, it went through |
| Conflicts.ConflictsSurviveEncryption | src/main/cc/any_sketch/crypto/sketch_encrypter.cc:182-205 | the registers of any run, in any order, encrypted under CONFLICTING_KEYS, decrypted and cut: an index is found twice iff its contributions conflict, otherwise once; with non-negative inputs a conflict is a disagreement; the two copies differ iff max_counter_value is at least 1 |
| Conflicts.FlagsSurviveEncryption | src/main/cc/any_sketch/crypto/sketch_encrypter.cc:273-287 | the same under FLAGGED_KEY: an index is found once, with the flag in every value if its contributions conflict, and otherwise without it in any UNIQUE column whose value is not hashed to the flag |
| Conflicts.ValuesSurviveEncryption | src/main/cc/any_sketch/crypto/sketch_encrypter.cc:317-355 | the registers of any run without a conflict, encrypted and decrypted: SUM columns show the clamped total of what was sent, as a multiple of the unit point, UNIQUE columns the common value |
| Conflicts.EncryptsIff | src/main/cc/any_sketch/crypto/sketch_encrypter.cc:182-205 | the registers of a run are encrypted iff the strategy covers every conflict, all totals of other registers are positive, and no ciphertext half is the point at infinity |
| Decryption.RegisterFound | src/main/cc/any_sketch/crypto/sketch_encrypter.cc:198-204 | under the index point of a register the reader finds exactly its plaintext, if no other register shares the point |
| Curves.EncryptDecrypts | src/main/cc/any_sketch/crypto/sketch_encrypter.cc:369-376 | a ciphertext that can be written is 66 bytes long and decrypts to its message |
| Curves.CiphertextHalves | src/main/cc/any_sketch/crypto/sketch_encrypter.cc:369-376 | the first half of a ciphertext is r·g and the second m + r·y |
| Curves.AddedCiphertexts | src/test/cc/any_sketch/crypto/sketch_encrypter_test.cc:250-283 | adding ciphertexts half by half adds the plaintexts |
| Curves.MultiplesDiffer | src/main/cc/any_sketch/crypto/sketch_encrypter.cc:394-396 | below the group order, different multiples of a point are different points |
| Decimals.ToStringMeaning | src/main/cc/any_sketch/crypto/sketch_encrypter.cc:411-413 | a sign for negative integers, then every decimal digit in its place, none missing and without leading zeros |
| Decimals.ToStringInjective | src/main/cc/any_sketch/crypto/sketch_encrypter.cc:411-413 | different integers are hashed as different strings |
| Encrypters.ValidateSketch | src/main/cc/any_sketch/crypto/sketch_encrypter.cc:57-69 | valid iff every register has as many values as the config |
| Encrypters.IsRegisterDestroyed | src/main/cc/any_sketch/crypto/sketch_encrypter.cc:71-85 | true iff some UNIQUE value is not positive |
| Encrypters.ExecuteSequence | src/main/cc/any_sketch/crypto/sketch_encrypter.cc:200-204 | running one program after another concatenates their output, and the first error wins |
| Encrypters.SketchEncrypter.MapToCurve | src/main/cc/any_sketch/crypto/sketch_encrypter.cc:404-409 | the bytes of a point other than infinity |
| Encrypters.SketchEncrypter.GetECPointForInteger | src/main/cc/any_sketch/crypto/sketch_encrypter.cc:378-402 | with any memo, the point min(n, max + 1)·P of a cacheless lookup, failing iff n or the wrapped cap is 0; the memo gains at most that entry |
| Encrypters.SketchEncrypter.EnsureFlag | src/main/cc/any_sketch/crypto/sketch_encrypter.cc:277-281 | after the call the cached flag is the point of the destroyed-register key, cached before or not |
| Encrypters.SketchEncrypter.EncryptAdditionalECPoint | src/main/cc/any_sketch/crypto/sketch_encrypter.cc:369-376 | appends the ciphertext of the point behind the bytes and uses one random number |
| Encrypters.SketchEncrypter.AppendRepeatedly | src/main/cc/any_sketch/crypto/sketch_encrypter.cc:267-269 | appends one ciphertext a value, or stops at the first error with what was there still in front |
| Encrypters.SketchEncrypter.AppendEncryptedRegisterWithSameValue | src/main/cc/any_sketch/crypto/sketch_encrypter.cc:262-271 | index, then the counter in every value; the lookup can fail even without values |
| Encrypters.SketchEncrypter.AppendFlaggedDestroyedRegister | src/main/cc/any_sketch/crypto/sketch_encrypter.cc:273-287 | index, then the flag in every value |
| Encrypters.SketchEncrypter.EncryptDestroyedRegister | src/main/cc/any_sketch/crypto/sketch_encrypter.cc:289-315 | two registers, one flagged register or an error, by strategy |
| Encrypters.SketchEncrypter.EncryptValue | src/main/cc/any_sketch/crypto/sketch_encrypter.cc:328-352 | UNIQUE values are hashed, positive SUM values are counters, anything else is an error |
| Encrypters.SketchEncrypter.EncryptNonDestroyedRegister | src/main/cc/any_sketch/crypto/sketch_encrypter.cc:317-355 | index, then every value in order, up to the first error |
| Encrypters.SketchEncrypter.EncryptAdditionalRegister | src/main/cc/any_sketch/crypto/sketch_encrypter.cc:357-367 | the program of a register, destroyed or not |
| Encrypters.SketchEncrypter.Encrypt | src/main/cc/any_sketch/crypto/sketch_encrypter.cc:182-205 | an invalid sketch is refused; otherwise the output is that of all registers' programs, whatever the caches held, and the caches stay correct |
| Encrypters.SketchEncrypter.EncryptRegisters | src/main/cc/any_sketch/crypto/sketch_encrypter.cc:198-204 | the loop over the registers, stopping at the first error |
| Decryption.EncryptRoundTrip | src/main/cc/any_sketch/crypto/sketch_encrypter.cc:182-205 | cutting the output every 66 bytes and every 1 + values ciphertexts and decrypting gives the plaintext registers in order; the length is exact |
| Decryption.EncryptSucceedsIff | src/main/cc/any_sketch/crypto/sketch_encrypter.cc:289-355 | success iff every register can be encrypted under the strategy and no ciphertext half is the point at infinity |
| Decryption.ExecuteDecrypts | src/main/cc/any_sketch/crypto/sketch_encrypter.cc:369-376 | what was written decrypts, ciphertext by ciphertext, to the points that were meant |
| Decryption.ParseFlattened | src/main/cc/any_sketch/crypto/sketch_encrypter.cc:192-197 | cutting by width recovers registers of one width |
| Decryption.SketchMeaning | src/main/cc/any_sketch/crypto/sketch_encrypter.cc:289-355 | a sketch's program has no error iff all its registers can be encrypted, and then emits exactly the plaintext registers |
| Decryption.RegisterMeaning | src/main/cc/any_sketch/crypto/sketch_encrypter.cc:357-367 | one register's program has no error iff the register can be encrypted, and then emits exactly its plaintext |
| Decryption.ConflictIsVisible | src/main/cc/any_sketch/crypto/sketch_encrypter.cc:295-303 | a conflict's two registers share the index; the first carries the unit point in every value and the second twice that point, unless max_counter_value is 0 and they are equal |
| Decryption.ValueErrors | src/main/cc/any_sketch/crypto/sketch_encrypter.cc:328-352 | a value that cannot be encrypted is an invalid argument, except for a counter under a wrapped cap |
| Decryption.CountersToldApart | src/main/cc/any_sketch/crypto/sketch_encrypter.cc:118-120 | two counters have one point iff they are equal after clamping |
| Decryption.HeaderClamping | src/main/cc/any_sketch/crypto/sketch_encrypter.h:68-69 | a counter gets the point that the header promises iff it is at most max_counter_value |
| Decryption.IndexesToldApart | src/main/cc/any_sketch/crypto/sketch_encrypter.cc:320-323 | without hash collisions on the two strings, index points are equal iff the indexes are |
| Decryption.EarlyClampingIsExact | src/main/cc/any_sketch/crypto/sketch_encrypter.cc:384-386 | clamping every count before adding agrees with clamping the total |
| Decryption.AddedCounters | src/main/cc/any_sketch/crypto/sketch_encrypter.cc:336-346 | adding ciphertexts of counters encrypts the sum of the clamped counts times the unit point |
| Estimators.InvertMonotonic | src/main/cc/estimation/estimators.cc:46-68 | whenever the doubling loop ends: the result in terms of the true inverse, including the overshoot and the wrap; f(r-1) <= target, and f(r+1) > target or f(r) = target; the number of calls |
| Estimators.DoublingEndsIff | src/main/cc/estimation/estimators.cc:50-54 | the doubling loop ends iff the target is at most f(2^63) |
| Estimators.DoubledIs | src/main/cc/estimation/estimators.cc:51-54 | the right end runs through the powers of two up to 2^63 and then stays at 0 |
| Estimators.EndlessDoubling | src/main/cc/estimation/estimators.cc:50-54 | for the identity and the target 2^63 + 1, which an argument does reach, the loop does not end |
| Estimators.Bisect | src/main/cc/estimation/estimators.cc:57-67 | the 64-bit binary search follows the unbounded one, without underflow, except for the final sum 2^64 |
| Estimators.NarrowFromDoublings | src/main/cc/estimation/estimators.cc:50-67 | the search overshoots exactly on the candidates that its probes never reach, and makes at most k - 1 probes after k > 1 doublings |
| Estimators.AnswerBrackets | src/main/cc/estimation/estimators.cc:45-68 | what either answer says about the function next to it |
| Estimators.AnswerWraps | src/main/cc/estimation/estimators.cc:65-67 | the answer is 2^63, where the sum wraps, iff f(2^62) < target and f(2^63 - 1) <= target |
| Estimators.InvertOwnValue | src/main/cc/estimation/estimators.cc:45-68 | a strictly increasing function gives its argument back iff the search does not overshoot from it; otherwise one more |
| Estimators.ZeroIsInvertedToOne | src/test/cc/estimation/estimators_test.cc:76-79 | for every monotone function the argument 0 comes back as 1 |
| Estimators.WrappingCall | src/main/cc/estimation/estimators.cc:65-67 | a concrete call that meets the preconditions and on which the sum wraps |

## Left out

- OpenSSL itself, key and IV entropy, and cipher contexts: the keystream is an arbitrary function of seed and position, and context failures are not modelled.
- Generators.Prng.GenerateUniformRandomRange: moduli above 2^30 are excluded, because the code's shifts are undefined there; on a stream that never yields enough one-byte values the code does not end, and `Terminates` excludes exactly that.
- Generators.Prng.GenerateNonZeroUniformRandomRange: `NonZeroTerminates` excludes exactly the streams on which the code does not end; failed cipher calls and rounded batch sizes are not modelled.
- Generators.Prng.GeneratePseudorandomBytes: the two cipher calls never fail here, and the size is not narrowed to an `int`, so reads of 2^31 bytes or more are not covered (a shuffle of 2^27 elements asks for that many).
- Sampling.SampleSizeInIntegers: exact reals instead of `double`. The uniform estimate agrees with rounded arithmetic only while c·2^b stays below about 2^53. In the sampler without zeros 1/modulus is already rounded for small sizes, so the code may draw one value more or less in a round, which can change which values are kept.
- Sampling.SampleSizeBounds: about the same exact estimate.
- Seeds.CreatePrngFromSeed: failures to create or initialise a cipher context are not modelled.
- Shuffling.SecureShuffleWithSeed: a failed read of the random bytes is not modelled, and the machine that reads the bytes as 128-bit numbers is little-endian.
- AnySketches.AnySketch.Insert: items are byte strings; the overload that turns an integer into eight bytes is not modelled.
- Distributions.HashedApplyNeverFails: integers are unbounded, so overflow of min + 64 and of max - min + 1 is outside the statement.
- Encrypters.SketchEncrypter.MapToCurve: the hash to the curve is a total function, so its error return is not modelled.
- The curve and ElGamal libraries: the group laws, the byte form and decryption come through the scalar model, and hash collisions are only excluded where a lemma says so.
- Protobuf messages, the adapters, `key_combiner_main.cc`, mutexes and logging: they carry no algorithm.
- `AppendNoiseRegisters`, the noisers and their parameters: claims about distributions of library samplers.
- `CombineElGamalPublicKeys`: a fold of group additions.
- `GetExpectedActiveRegisterCount`, `expint` and the exponential formula: real analysis; the inverted function is an arbitrary monotone one, and the exponential distribution an arbitrary function of the fingerprint.
- AnySketches.AnySketch.AggregateIntoRegister: SUM values are unbounded integers, so int64 overflow is not modelled; the tuple is a value, so a span that aliases the register is read before the loop, which gives the same result because the loop reads each element before it writes it.
- Distributions.Distribution.Apply: overflow of min + 64 or of max - min + 1 is not modelled; a uniform range of size 0 or less is an undefined remainder.
- Estimators.InvertMonotonic: functions that are not monotone and targets below f(0) are excluded, as the source's name and assertion do; `DoublingEnds` excludes exactly the calls on which the code does not end.
- Distributions.TrailingZerosDivide: the number behind a word is `ValueOf`, fixed by counting up from 0, instead of the conversion built into the language, about which the solver proves nothing at 64 bits.
- Encrypters.SketchEncrypter.Encrypt: on failure the number of random values used is only bounded from below.
