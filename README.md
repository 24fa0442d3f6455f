# Any Sketch: keystream generator, sketch encrypter and value functions in Dafny

This project models three parts of the Any Sketch system and proves their
properties with Dafny.

- **The uniform pseudorandom generator** (`prng.dfy`, module
  `UniformPseudorandomGenerator`). It is AES-256 in counter mode, as in section
  6.5 and Appendix B.1 of NIST SP 800-38A, used as a keystream.
  - `Create` checks that the key is 32 bytes and the IV 16 bytes. On failure it
    reports both the actual and the required byte count.
  - `GetPseudorandomBytes(n)` refuses a non-positive `n`. Otherwise it hands
    out the next `n` bytes of one fixed stream.
  - The generator is a class: a counter block, a 16-byte output buffer, the
    number of buffer bytes already used, and a ghost record of everything
    handed out so far.
  - Leftover bytes of a block carry over to the next call. So any way of
    chunking the requests reads the same stream. Output block `i` is
    `E(key, iv + i mod 2^128)`.
  - The generator reproduces the CTR-AES256 example of section F.5.5 of NIST
    SP 800-38A for any block function that has the published values.
- **The sketch encrypter** (`sketch.dfy`, module `Sketches`;
  `sketch_encrypter.dfy`, module `SketchEncrypter`).
  - A sketch is a list of registers, each an index plus one value per value
    spec of the config.
  - `Encrypt` walks the registers in order. For each one it ElGamal-encrypts
    the index, then every value clamped to the counter ceiling. Each scalar
    gets its own randomness draw.
  - Each ciphertext goes to the stream as two 33-byte compressed points, u
    then e.
  - The lemmas give:
    - the exact size, R·(1+K)·66 bytes;
    - the position of every scalar's words;
    - what a decrypting party recovers: each scalar modulo the order of the
      group.
  - They also restate the scenarios the encrypter is checked against. These
    hold for any ElGamal, ciphertext addition and randomness that meet four
    stated conditions:
    - decryption inverts encryption modulo the group order;
    - blinding factors distinct modulo the order give distinct u and e;
    - the draws a stream uses are distinct modulo the order;
    - adding ciphertexts adds plaintexts modulo the order.
  - A toy ElGamal meets all four for streams of at most 256 scalars: the
    additive group of integers modulo 256, generator 1, secret key 1,
    counting draws. On it the repeated-index scenario is proved outright.
  - `GetCipherStrings` cuts a stream into 33-byte words.
- **Value functions** (`value_function.dfy`, module `ValueFunctions`). A value
  function is a named rule that combines the stored value of a register slot
  with an incoming one, plus the value a slot takes on first insertion.
  - Values are Java `long`s, so `Sum` wraps modulo 2^64. `Unique` keeps a
    value all contributions agree on and otherwise records a collision value.
  - Both instances are commutative and associative. So the value a slot ends
    with does not depend on the order of insertion.

Shared support: `wrappers.dfy` (a `Result` type), `bytes.dfy` (bytes,
big-endian values, the counter increment) and `decimal.dfy` (decimal
rendering of counts, and reading a numeral back out of text).

The AES-256 block function, ElGamal encryption, decryption, curve-point
validation, ciphertext addition and the randomness source are all outside
this code. They are parameters of the model, given as function values. Where
a property needs something of them, such as decryption inverting encryption
or the published AES values, it is a `requires` on the lemma that uses it.

## Model

| member | source | states |
|---|---|---|
| UniformPseudorandomGenerator.Create | src/test/cc/math/open_ssl_uniform_random_generator_test.cc:26-67 | Succeeds exactly when the key has 32 bytes and the IV 16. A wrong key length fails with KeyLength(actual, 32). With a right key, a wrong IV length fails with IvLength(actual, 16). Success gives a fresh, valid generator over that key, IV and cipher that has handed out nothing. |
| UniformPseudorandomGenerator.InvalidArgument.Message | src/test/cc/math/open_ssl_uniform_random_generator_test.cc:45-50 | A non-positive count gives the fixed text. A length error's message opens with the text naming the key or the IV and ends with " bytes are required.", with room for the counts in between. |
| UniformPseudorandomGenerator.MessageReportsLengths | src/test/cc/math/open_ssl_uniform_random_generator_test.cc:37-67 | In a length error's message, the numeral right after the lead text reads back as the actual byte count. The numeral after " bytes but " reads back as the required count. |
| Decimal.ReadsTwoRenderedNumerals | src/test/cc/math/open_ssl_uniform_random_generator_test.cc:48-50 | In any text of the form lead, count, separator, count, trailer, both counts read back from their positions, provided the separator and the trailer do not start with a digit. |
| UniformPseudorandomGenerator.Generator.constructor | src/test/cc/math/open_ssl_uniform_random_generator_test.cc:33-34 | A new generator keeps its key, IV and cipher, satisfies the invariant, and has handed out no bytes. |
| UniformPseudorandomGenerator.Generator.Refill | src/test/cc/math/open_ssl_uniform_random_generator_test.cc:123-130 | When the buffer is used up, it is refilled with the next output block and the counter moves on. The invariant is kept and nothing is handed out. |
| UniformPseudorandomGenerator.Generator.NextByte | src/test/cc/math/open_ssl_uniform_random_generator_test.cc:123-130 | Hands out one byte and appends it to the record. The invariant (the record is the keystream prefix of its length) is kept. |
| UniformPseudorandomGenerator.Generator.GetPseudorandomBytes | src/test/cc/math/open_ssl_uniform_random_generator_test.cc:69-83 | n ≤ 0 fails with NonPositiveCount and hands out nothing. Otherwise it succeeds with exactly the n keystream bytes after those already handed out, and appends them to the record. |
| UniformPseudorandomGenerator.CounterBlockIsIvPlusIndex | src/test/cc/math/open_ssl_uniform_random_generator_test.cc:204-251 | Counter block i, as a big-endian number, is (iv + i) mod 2^128. |
| UniformPseudorandomGenerator.KeystreamSplit | src/test/cc/math/open_ssl_uniform_random_generator_test.cc:169-202 | Reading a + b bytes from an offset gives the a bytes there followed by the b bytes after them. |
| UniformPseudorandomGenerator.KeystreamAlignedBlock | src/test/cc/math/open_ssl_uniform_random_generator_test.cc:232-250 | The 16 keystream bytes at offset 16·i are output block i. |
| UniformPseudorandomGenerator.KeystreamIsOutputBlocks | src/test/cc/math/open_ssl_uniform_random_generator_test.cc:232-250 | The first 16·k keystream bytes are output blocks 0 to k−1 in order. |
| UniformPseudorandomGenerator.ResponsesAreOneStream | src/test/cc/math/open_ssl_uniform_random_generator_test.cc:169-202 | Any sequence of requests gets one answer per request. The successful answers joined together are the keystream from the starting offset for the total bytes served, with no gap and no repeat. |
| UniformPseudorandomGenerator.Replay | src/test/cc/math/open_ssl_uniform_random_generator_test.cc:123-130 | A generator answering requests one after another gives exactly the reference answers, and its position advances by the bytes served. |
| UniformPseudorandomGenerator.SameKeyAndIvSameResponses | src/test/cc/math/open_ssl_uniform_random_generator_test.cc:85-167 | Two generators from the same key and IV give equal answers to the same requests, one per request. Each positive request succeeds with exactly the bytes asked for, and each non-positive one fails with NonPositiveCount. Together the answers are the keystream from offset 0. |
| UniformPseudorandomGenerator.ResponseAt | src/test/cc/math/open_ssl_uniform_random_generator_test.cc:123-134 | Request i of a sequence fails with NonPositiveCount when its count is not positive. Otherwise it succeeds with exactly that many keystream bytes, read right after the bytes served to the requests before it. |
| UniformPseudorandomGenerator.TwoRequests | src/test/cc/math/open_ssl_uniform_random_generator_test.cc:184-191 | A fresh generator asked for a and then b bytes returns a and b bytes that together are the first a + b keystream bytes. |
| UniformPseudorandomGenerator.InterleavedRequests | src/test/cc/math/open_ssl_uniform_random_generator_test.cc:169-202 | One generator is asked for a then b bytes, and another for b then a. Each answer has the requested length, and both concatenations equal the first a + b keystream bytes. |
| UniformPseudorandomGenerator.NistCounterBlocks | src/test/cc/math/open_ssl_uniform_random_generator_test.cc:212-214 | Counter blocks 0 to 3 of the example's IV are its four input blocks, f0…feff, f0…ff00, f0…ff01 and f0…ff02. |
| UniformPseudorandomGenerator.NistKeystream | src/test/cc/math/open_ssl_uniform_random_generator_test.cc:208-226 | For a block function with the published AES-256 values, the four 16-byte keystream blocks of the example's key and IV are its four output blocks. |
| UniformPseudorandomGenerator.NistVector | src/test/cc/math/open_ssl_uniform_random_generator_test.cc:228-250 | A generator built from the example's key and IV answers four 16-byte requests with the four published output blocks. |
| Sketches.CreateSketchConfig | src/main/cc/any_sketch/crypto/sketch_encrypter_test.cc:52-61 | The config holds max(u, 0) UNIQUE specs followed by max(s, 0) SUM specs. |
| SketchEncrypter.CreateWithPublicKey | src/main/cc/any_sketch/crypto/sketch_encrypter_test.cc:114-124 | Fails with InvalidPublicKey exactly when either point of the key is not a valid point on the curve. Otherwise it returns a fresh encrypter with that ceiling, key, encryption and randomness, which has drawn nothing. |
| SketchEncrypter.Encrypter.constructor | src/main/cc/any_sketch/crypto/sketch_encrypter_test.cc:122-123 | Stores the curve, ceiling, key, encryption and randomness; no draws made. |
| SketchEncrypter.Encrypter.EncryptIntegerAndAppend | src/main/cc/any_sketch/crypto/sketch_encrypter_test.cc:158-164 | Appends the u and e words of one scalar, encrypted with the next draw. Exactly one draw is used. |
| SketchEncrypter.Encrypter.EncryptValuesAndAppend | src/main/cc/any_sketch/crypto/sketch_encrypter_test.cc:199-214 | Extends the stream by the ciphertexts of the register's values, each clamped to the ceiling, with one draw per value. |
| SketchEncrypter.Encrypter.EncryptRegisterAndAppend | src/main/cc/any_sketch/crypto/sketch_encrypter_test.cc:147-159 | Extends the stream by the ciphertext of the register's index, unclamped, then those of its clamped values. |
| SketchEncrypter.Encrypter.Encrypt | src/main/cc/any_sketch/crypto/sketch_encrypter_test.cc:134-145 | The output is the reference stream: every scalar of every register in register-major order, with consecutive draws starting at the draws made before. The draw count grows by the number of scalars. |
| SketchEncrypter.Clamp | src/main/cc/any_sketch/crypto/sketch_encrypter_test.cc:199-218 | A clamped value never exceeds the ceiling. At or below the ceiling it is unchanged, and at or above it it is the ceiling. |
| SketchEncrypter.ClampedValueAt | src/main/cc/any_sketch/crypto/sketch_encrypter_test.cc:206-207 | Clamping a register's values works slot by slot. |
| SketchEncrypter.ScalarCount | src/main/cc/any_sketch/crypto/sketch_encrypter_test.cc:134-145 | With K values per register, R registers give R·(1+K) scalars. |
| SketchEncrypter.ScalarAt | src/main/cc/any_sketch/crypto/sketch_encrypter_test.cc:181-188 | Scalar j of register r is scalar number r·(1+K)+j. For j = 0 it is the index, unclamped; for j > 0 it is value j−1, clamped. |
| SketchEncrypter.CipherStreamAt | src/main/cc/any_sketch/crypto/sketch_encrypter_test.cc:156-159 | Ciphertext p of the stream is the encryption of scalar p with draw first + p. |
| SketchEncrypter.PairWords | src/main/cc/any_sketch/crypto/sketch_encrypter_test.cc:158-159 | Ciphertext p occupies 33-byte word 2p (u) and word 2p+1 (e). |
| SketchEncrypter.EncryptedSize | src/main/cc/any_sketch/crypto/sketch_encrypter_test.cc:134-145 | For a sketch of R registers and K value specs, the stream is R·(1+K)·66 bytes. |
| SketchEncrypter.EncryptedLayout | src/main/cc/any_sketch/crypto/sketch_encrypter_test.cc:181-188 | For p = r·(1+K)+j, the u of scalar j of register r is word 2p and its e is word 2p+1. The scalar is encrypted with draw first + p. |
| SketchEncrypter.PairDecrypts | src/main/cc/any_sketch/crypto/sketch_encrypter_test.cc:41-49 | When decryption inverts encryption modulo the group order, ciphertext p decrypts to scalar p modulo the order. |
| SketchEncrypter.SameScalarEncryptedApart | src/main/cc/any_sketch/crypto/sketch_encrypter_test.cc:158-164 | Assume decryption inverts encryption modulo the group order, the stream's draws are distinct modulo the order, and factors distinct modulo the order give distinct u and e. Then two positions holding the same scalar have different u and different e words, yet decrypt alike. |
| SketchEncrypter.IndexEncryptedTwice | src/main/cc/any_sketch/crypto/sketch_encrypter_test.cc:147-165 | Two registers with index 1 and no value specs give four words. Under the decryption, separation and distinct-draw conditions, with a group order above 1, the two ciphertexts differ in u and in e, and both decrypt to 1. |
| SketchEncrypter.ToyIndexEncryptedTwice | src/main/cc/any_sketch/crypto/sketch_encrypter_test.cc:147-165 | The same scenario on the toy group with counting draws: the two ciphertexts differ in u and in e, and both decrypt to 1. |
| SketchEncrypter.CountValuesAddUp | src/main/cc/any_sketch/crypto/sketch_encrypter_test.cc:167-197 | Five registers with one SUM value each, 1 to 5, under ceiling 100 give 20 words. If decryption inverts encryption modulo the group order and ciphertext addition adds plaintexts modulo the order, words 2,3 plus 14,15 and words 6,7 plus 10,11 both decrypt like words 18,19. |
| SketchEncrypter.ValuesAboveCeilingDecryptAsCeiling | src/main/cc/any_sketch/crypto/sketch_encrypter_test.cc:199-218 | For a ceiling with ceiling+10 below 2^64, the values ceiling+10 and ceiling in two registers give eight words. If decryption inverts encryption modulo the group order, words 2,3 and words 6,7 decrypt alike, to the ceiling modulo the group order. That is the ceiling itself whenever it is below the order. |
| SketchEncrypter.ZeroValueEncrypted | src/main/cc/any_sketch/crypto/sketch_encrypter_test.cc:220-228 | A register with the single value 0 gives four words. Words 2,3 are the encryption of 0 with the second draw. |
| SketchEncrypter.GetCipherStrings | src/main/cc/any_sketch/crypto/sketch_encrypter_test.cc:79-88 | Returns |bytes| div 33 words, word i being bytes 33i to 33i+33. |
| SketchEncrypter.WordsRejoin | src/main/cc/any_sketch/crypto/sketch_encrypter_test.cc:79-88 | When the length is a multiple of 33, the words joined back together are the original bytes. |
| ValueFunctions.Wrap | src/main/java/org/wfanet/anysketch/ValueFunction.java:31 | Truncating to a long leaves every value within the long range unchanged. |
| ValueFunctions.GetValueCommutes | src/main/java/org/wfanet/anysketch/ValueFunction.java:17-21 | For every value function, getValue(a, b) = getValue(b, a). |
| ValueFunctions.GetValueAssociates | src/main/java/org/wfanet/anysketch/ValueFunction.java:28-31 | For every value function, combining (a, b) then c equals combining a with (b, c), with long wrap-around for Sum. |
| ValueFunctions.ValueFunction.GetValue | src/main/java/org/wfanet/anysketch/ValueFunction.java:28-31 | Sum's getValue is a + b when that fits in a long. Otherwise it is a + b − 2^64 on overflow or a + b + 2^64 on underflow, as Java long addition gives. Unique keeps a value the incoming one agrees with and otherwise gives the collision value. |
| ValueFunctions.ValueFunction.GetInitialValue | src/main/java/org/wfanet/anysketch/ValueFunction.java:33-36 | A slot's first value is stored as it is, before any combination. |
| ValueFunctions.AggregateMovesLast | src/main/java/org/wfanet/anysketch/ValueFunction.java:28-36 | Folding a run of values from its initial value is the same as folding it without value i and then combining value i last. |
| ValueFunctions.AggregateOrderIndependent | src/main/java/org/wfanet/anysketch/ValueFunction.java:17-36 | Any reordering of the inserted values gives the same stored value: the initial value of the first, then getValue with each later one. |
| ValueFunctions.SumAggregatesTotal | src/main/java/org/wfanet/anysketch/ValueFunction.java:28-36 | Summing values into a slot gives their mathematical total wrapped to a long. |
| ValueFunctions.UniqueAggregatesAgreement | src/main/java/org/wfanet/anysketch/ValueFunction.java:28-36 | A unique slot holds the common value when all contributions agree and the collision value when any differs. |
| ValueFunctions.ValueFunction.Name | src/main/java/org/wfanet/anysketch/ValueFunction.java:23-26 | The name is "sum" exactly for Sum and "unique" exactly for Unique. |
| ValueFunctions.ByName | src/main/java/org/wfanet/anysketch/ValueFunction.java:23-26 | In the lookup map built from a list of functions, every name finds a function of that name drawn from the list. Every listed function's name is a key. |

## Left out

- The AES-256 block function and the OpenSSL EVP calls are not modelled. The block function is the parameter `cipher`. The published values of section F.5.5 of NIST SP 800-38A are a requirement on it (`MatchesNistAes256`), not something proved.
- The generator's implementation file is not part of this model. Its state here is a design: a counter block, a 16-byte buffer and a used count. The promised behaviour, the next bytes of one CTR keystream, is what the contracts fix.
- UniformPseudorandomGenerator.Create: checks the key length before the IV length. The tests and the design do not fix the order of the two checks, so when both lengths are wrong the model reports the key.
- `RAND_bytes`, which the tests use to make keys and IVs, is not modelled. Keys and IVs are parameters. Every lemma holds for all of them except UniformPseudorandomGenerator.NistKeystream and UniformPseudorandomGenerator.NistVector, which fix the published key and IV.
- UniformPseudorandomGenerator.Generator.GetPseudorandomBytes: collects bytes into a sequence (the C++ returns a vector). An allocation failure inside OpenSSL is not modelled.
- ElGamal encryption, decryption, point compression, curve setup and key-pair generation are not modelled. They are parameters: `elgamal`, `decrypt` and `isPoint`.
- SketchEncrypter.PairDecrypts: decryption returns the plaintext point m·G, and the model names that point by m modulo the group order (a parameter). Which curve and order are used is not modelled.
- The decryption failure for the point at infinity (a zero count) is not modelled. SketchEncrypter.ZeroValueEncrypted states only that 0 is encrypted into a full ciphertext.
- The homomorphic ciphertext addition `AddCiphertext` is a parameter `add`. SketchEncrypter.CountValuesAddUp assumes it adds plaintexts.
- SketchEncrypter.Encrypter.Encrypt: cannot fail in the model. The curve library's encoding and encryption failures are outside it, and so is a scalar outside the curve's field.
- SketchEncrypter.SameScalarEncryptedApart: requires the stream's draws to be distinct modulo the group order. A real randomness source gives this only with overwhelming probability, not always.
- `AddRandomRegisters`, which fills test sketches with `rand()`, is not modelled. The size and layout lemmas hold for every well-formed sketch instead.
- SketchEncrypter.GetCipherStrings: the test's check that the length is a multiple of 66 is a test expectation, not a branch. SketchEncrypter.WordsRejoin requires a multiple of 33, which that check implies, and the ensures of `CipherStream` gives a multiple of 66 for every encrypted stream. Overflow of the C++ `int` word count is not modelled.
- The curve id is stored but not interpreted.
- Protobuf plumbing for `Sketch` and `SketchConfig` is not modelled. Both are plain datatypes.
- The sketch store's insert-and-merge (which calls the value functions on collision) is not part of this model.
- The Java classes implementing `ValueFunction` are not part of this model. `Sum` and `Unique` follow the system's documented merge policies. The collision value of `Unique` is a parameter, because the protocol does not fix it.
- Concurrency is not modelled: no generator or encrypter is shared between threads.
