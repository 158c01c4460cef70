# Verification of yoctoTLS's arithmetic and QUIC bookkeeping

This Dafny project models the parts of yoctoTLS whose correctness is not visible from
reading one function, and proves them against one-line mathematical definitions or
against the standards they implement. `dafny verify dfyconfig.toml` checks everything.

**ML-KEM-768** (`pqclean_mlkem/`, FIPS 203). The reference is multiplication in
Z_3329[X]/(X^256 + 1), written as a schoolbook product in `Ring` together with its ring
laws. `NttTree` describes the transform as a binary tree of residues modulo X^n - w;
`Ntt` and `InvNtt` prove that the in-place butterflies on 256 16-bit cells walk that tree,
with every coefficient bound carried through the loops. `PolyArith`, `PolyBytes`,
`Compress`, `Codec` and `Sample` cover the rest of the ring code, `Kpke` proves that key
generation, encryption and decryption compute K-PKE over the ring, `Correct` gives the
exact noise condition under which decryption undoes encryption, and `Kem` lifts it to
decapsulation with implicit rejection. `Equations` writes the equations of K-PKE out with
every seed byte, nonce and offset, and `SampleBits` states the samplers by input bits.

**X25519** (`crypto.c`, section 5 of RFC 7748). `Int128` is the hand-made 128-bit
arithmetic, `FiveLimbs` the product on five limbs that X25519 shares with Poly1305,
`Fe25519` addition, subtraction and multiplication on five signed 51-bit limbs, `FeInverse` the addition chain for z^(p-2), `FeBytes` the conversions, and `X25519`
the ladder: the whole function equals the ladder of the RFC over the integers modulo
2^255 - 19. `Montgomery` says what that ladder computes: doubling and differential addition
on the curve, and multiples of the point by binary recursion.

**ChaCha20-Poly1305** (`chacha20.c`, `crypto.c`, RFC 8439). `Poly1305` and `Poly1305State`
prove the five 26-bit limbs, the partial final carry and the branch-free final subtraction
against the definition over the integers. `ChaCha` proves that four blocks on vector lanes
are four scalar blocks and that the key stream is the same either way; `ChaChaRounds` fixes
the rounds by the matrix picture and the worked example of the RFC, `Poly1305Clamp` the
clamped key by its bytes; `ChaChaPoly` is the authenticated encryption and its round trip.

**AES-GCM** (`aes.c`, NIST SP 800-38D). `Gf128` is the bit-by-bit product; `GcmTable` proves
the 4-bit tables and `GcmClmul` the carry-less multiplication against it, so both paths
compute the same GHASH. `Ctr` proves the eight-way interleaved loop and the loop with its
byte-by-byte carry against counter mode, and `Gcm` that encryption and decryption are the
standard's and undo each other on any combination of paths; `GcmStream` numbers the counter
block behind every block of ciphertext and behind the tag.

**Hashing** (`keccak.c`, `crypto.c`). `Chunks` folds a byte string block by block; on it,
`Sponge` and `Sha` prove that any split of the input gives the digest of the whole, padded
as FIPS 202 and FIPS 180-4 demand; `Sha` covers SHA-256 and SHA-384, which differ in four
numbers. `Symmetric` shows that ML-KEM's hash functions are such sponges. `Hkdf` is HMAC and
both expansion loops of HKDF.

**Huffman decoding** (`qpack.c`, RFC 7541). `HuffTable` proves that the 256 entries are the
canonical code of their lengths, `HuffCode` which symbols have which length and that codes
of one length ascend, `Huffman` that the decoder is the left inverse of the encoder of the
standard.

**QUIC** (`quic.c`, RFC 9000 and RFC 9002). `AckRanges` is the list of received packet
ranges as a class, proved to be a canonical form of a set; `AckFrame` the ACK frame
builder and parser and their round trip; `SentQueue` the linked list of sent packets with
acknowledgement, probe timeout and round-trip estimate, and `SentInvariants` what every run
keeps; `Http3` the HTTP/3 frame machine, and `Http3Cuts` where a stream may be cut and what
its frames deliver.

Conventions. A byte is an integer from 0 to 255. Machine words are integers; each
operation either stays inside its width, which its contract then demands, or is reduced
modulo the width explicitly. Arrays that the program updates in place are Dafny arrays;
output buffers filled through a moving pointer are sequences that grow. A GHASH operand is
a string of bits, most significant first, the numbering of SP 800-38D. Block functions whose
insides do not matter (AES rounds, Keccak-f, the SHA compression functions) are arbitrary
functions; ML-KEM's hash functions are an arbitrary function from inputs to byte streams.
Clocks and randomness are parameters; sent packets leave no trace but the queue.

Seven places where the code and its comments or its callers' expectations differ:

- The comment at crypto.c:386 bounds the last carry by 2^54. With sums of reduced limbs fed
  back in, it can be larger; `Fe25519.CarryChain` proves that 19 times the carry still fits.
- The comments at aes.c:240-241 call the carry-less path disabled; `gcm_ghash_tab` takes it
  whenever the processor offers the instruction. Both paths are modelled and agree.
- The AEAD tag of ChaCha20-Poly1305 stores only the low 32 bits of both lengths;
  `Poly1305State.LengthsFit` says exactly when that is the standard's block.
- HKDF for SHA-256 asks its one-byte counter whether an earlier block exists, so beyond the
  255 blocks RFC 5869 allows its output starts again; `Hkdf.BlocksRepeat` proves the period.
- A clock that goes back between sending and acknowledgement makes a round-trip sample near
  2^64, and the smoothed estimate leaves the range of its samples
  (`SentInvariants.ClockSetBack`). It is an average exactly for samples below 2^61
  (`SentInvariants.SrttThreshold`), which is exactly when the clock has not gone back
  (`SentInvariants.SampleInRange`).
- An HTTP/3 stream cut inside a frame header loses the part of the header it held.
  `Http3Cuts.LeftInHeader` says for every stream and cut when that happens, `Http3.FeedSplit`
  what the rest would have to be preceded by, and `Http3Cuts.CutInsideHeader` gives a stream
  on which it shows.
- An empty HTTP/3 frame at the end of what has arrived is delivered only when another byte
  arrives (`Http3Cuts.FrameStep`).

## Model

| member | source | states |
|---|---|---|
| `Zq.MontgomeryReduce` | pqclean_mlkem/reduce.c:16-22 | for every input within q * 2^15: 2^16 * r is congruent to the input and r lies strictly between -q and q |
| `Zq.BarrettReduce` | pqclean_mlkem/reduce.c:34-41 | for every int16 value, the centred representative in -1664..1664 |
| `Zq.FqMul` | pqclean_mlkem/ntt.c:68-70 | the product up to the Montgomery factor 2^16, strictly between -q and q |
| `Roots.ZetaIsRoot` | pqclean_mlkem/ntt.c:38-56 | every one of the 128 table entries is 2^16 * 17^brv7(k) modulo q and centred |
| `Roots.LeafModulus` | pqclean_mlkem/ntt.c:80-95 | the leaf reached by the butterflies' roots has modulus 17^(2 * brv7(i) + 1), the constant of FIPS 203 |
| `Roots.MirrorInverse` | pqclean_mlkem/ntt.c:106-127 | walking the table backwards, as the inverse does, meets minus the inverse of the forward root |
| `Ring.ConvAgrees` | pqclean_mlkem/ntt.c:129-146 | the reference product equals the coefficient-by-coefficient wrapped convolution |
| `NttTree.SplitMul` | pqclean_mlkem/ntt.c:80-95 | one layer X^(2n) - c^2 = (X^n - c)(X^n + c): taking residues respects products |
| `NttTree.NodeMul` | pqclean_mlkem/ntt.c:80-95 | by induction over the layers, every residue of a product is the product of the residues |
| `NttTree.LeafIsResidue` | pqclean_mlkem/ntt.c:72-95 | leaf i is the residue of the polynomial modulo X^2 - 17^(2 * brv7(i) + 1) |
| `NttTree.InvOfNtt` | pqclean_mlkem/ntt.c:106-127 | merging the residues upward gives 128 times the polynomial |
| `NttTree.ToNttIsNtt` | pqclean_mlkem/ntt.c:80-95 | every polynomial has a transform with coefficients in [0, q) |
| `NttTree.FromNttIsInverse` | pqclean_mlkem/ntt.c:106-127 | every 256 values are the transform of some polynomial |
| `NttTree.NttInjective` | pqclean_mlkem/ntt.c:80-95 | two polynomials with the same transform agree modulo q |
| `Ntt.NttBlock` | pqclean_mlkem/ntt.c:84-93 | one block of a layer: its butterflies, nothing outside it touched, bound grown by one q |
| `Ntt.Transform` | pqclean_mlkem/ntt.c:80-95 | the in-place transform leaves the residues of the input; seven layers add less than 7q, so no int16 overflows |
| `InvNtt.InvBlock` | pqclean_mlkem/ntt.c:112-122 | one block of an inverse layer: sum reduced, difference times the root, nothing else touched, no overflow |
| `InvNtt.Inverse` | pqclean_mlkem/ntt.c:106-127 | the in-place inverse leaves 512 times the merged tree, strictly between -q and q |
| `InvNtt.InverseOfTransform` | pqclean_mlkem/ntt.c:97-127 | the inverse of a transform is 2^16 times the polynomial modulo q |
| `Bits.DecodeEncode` | pqclean_mlkem/poly.c:67-108 | ByteDecode undoes ByteEncode for every width d |
| `Bits.EncodeDecode` | pqclean_mlkem/poly.c:67-108 | ByteEncode undoes ByteDecode for every width d |
| `Compress.Code4Rounds` | pqclean_mlkem/poly.c:28-36 | the 32-bit multiply-and-shift for d = 4 is the rounding of FIPS 203 on every residue |
| `Compress.Code10Rounds` | pqclean_mlkem/polyvec.c:23-31 | the 64-bit multiply-and-shift for d = 10 is the rounding of FIPS 203 on every residue |
| `Compress.Code1Decides` | pqclean_mlkem/poly.c:144-151 | for every centred coefficient, with 32-bit wrap-around: 0 exactly on -832..832, which is rounding with d = 1 |
| `Compress.Error4` | pqclean_mlkem/poly.c:57-65 | compressing and decompressing with d = 4 moves a coefficient by at most 104 |
| `Compress.Error10` | pqclean_mlkem/polyvec.c:54-71 | compressing and decompressing with d = 10 moves a coefficient by at most 2 |
| `PolyBytes.PolyToBytes` | pqclean_mlkem/poly.c:76-90 | the bytes are ByteEncode with d = 12 of the canonical coefficients |
| `PolyBytes.PolyFromBytes` | pqclean_mlkem/poly.c:102-108 | the coefficients are ByteDecode with d = 12, in 0..4095 |
| `PolyBytes.PolyCompress` | pqclean_mlkem/poly.c:19-45 | the bytes are ByteEncode with d = 4 of the rounded coefficients |
| `PolyBytes.PolyDecompress` | pqclean_mlkem/poly.c:57-65 | the coefficients are the expansions of ByteDecode with d = 4 |
| `PolyBytes.PolyCompress10` | pqclean_mlkem/polyvec.c:15-42 | the bytes are ByteEncode with d = 10 of the rounded coefficients |
| `PolyBytes.PolyDecompress10` | pqclean_mlkem/polyvec.c:54-71 | the coefficients are the expansions of ByteDecode with d = 10 |
| `PolyBytes.CmovInt16` | pqclean_mlkem/verify.c:64-67 | the masked move on 16-bit words selects by the bit |
| `PolyBytes.PolyFromMsg` | pqclean_mlkem/poly.c:118-127 | each message bit becomes 0 or 1665 |
| `PolyBytes.PolyToMsg` | pqclean_mlkem/poly.c:137-155 | the bytes are the coefficients rounded with d = 1 |
| `PolyArith.PolyReduce` | pqclean_mlkem/poly.c:262-267 | every int16 cell becomes its centred representative, in place |
| `PolyArith.PolyNtt` | pqclean_mlkem/poly.c:203-206 | transform and reduction in place: the transform of the input, centred |
| `PolyArith.BaseMul` | pqclean_mlkem/ntt.c:140-146 | product modulo X^2 - g of two pairs up to 2^16, other cells kept, within 2q |
| `PolyArith.PolyBaseMul` | pqclean_mlkem/poly.c:230-236 | all 128 pair products with the right root and sign |
| `PolyArith.BaseMulAcc` | pqclean_mlkem/polyvec.c:145-156 | the three-term sum stays in int16 (below 6q) and is reduced to the centred sum of products |
| `PolyArith.PolyAccumulate` | pqclean_mlkem/poly.c:278-283 | coefficientwise sum in place when it fits int16 |
| `PolyArith.PolySubtractFrom` | pqclean_mlkem/poly.c:294-299 | coefficientwise difference in place when it fits int16 |
| `PolyArith.ToMont` | pqclean_mlkem/poly.c:246-252 | multiplies by 2^16 modulo q |
| `PolyArith.InverseOfProduct` | pqclean_mlkem/poly.c:203-236 | inverse of a base-multiplied pair of transforms is the ring product, all Montgomery factors cancelled |
| `PolyArith.AccIsNtt` | pqclean_mlkem/polyvec.c:145-156 | the accumulated products are the transform of the inner product over the ring, up to 2^16 |
| `Sample.RejUniform` | pqclean_mlkem/indcpa.c:115-137 | the first len of the accepted 12-bit values of the buffer |
| `Sample.AcceptedAppend` | pqclean_mlkem/indcpa.c:115-137 | reading in chunks of whole 3-byte groups accepts the same values as reading at once |
| `Sample.GenPoly` | pqclean_mlkem/indcpa.c:162-178 | however many refills, the first 256 accepted values of the stream |
| `Sample.MoreBytes` | pqclean_mlkem/indcpa.c:162-178 | the polynomial does not depend on how much of the stream is read beyond what suffices |
| `Sample.GenMatrix` | pqclean_mlkem/indcpa.c:157-183 | entry (i, j) is sampled from the seed followed by the bytes j, i, or i, j when transposed |
| `Sample.RowSeeds` | pqclean_mlkem/indcpa.c:165-169 | the same of the matrix and its transpose that key generation and encryption are stated over |
| `Sample.EntryTransposed` | pqclean_mlkem/indcpa.c:139-183 | the transposed matrix is the exact transpose |
| `Sample.Cbd2` | pqclean_mlkem/cbd.c:47-63 | the bit-sliced sampler equals, nibble by nibble, the difference of bit counts, within -2..2 |
| `SampleBits.AcceptedIsDecoded` | pqclean_mlkem/indcpa.c:115-137 | on whole groups of three bytes, what is accepted are the words of ByteDecode with d = 12 that are below q |
| `SampleBits.CbdByBits` | pqclean_mlkem/cbd.c:47-63 | coefficient i is the sum of bits 4i and 4i + 1 of the input minus that of the next two, the bits being ByteDecode with d = 1 |
| `Kpke.KeyPair` | pqclean_mlkem/indcpa.c:198-235 | the byte strings of t = A s + e and s over the ring, in transform representation |
| `Kpke.Encrypt` | pqclean_mlkem/indcpa.c:255-295 | the compressed u = A^T y + e1 and v = t y + e2 + message over the ring, for every key string |
| `Kpke.Decrypt` | pqclean_mlkem/indcpa.c:311-327 | the bits of v - s u over the ring, for every ciphertext and key string |
| `Equations.KeyEquation` | pqclean_mlkem/indcpa.c:198-235 | t_i = sum of a_ij s_j, plus e_i, each polynomial from its own seed bytes: rho, j, i; sigma, j; sigma, 3 + i |
| `Equations.CipherEquation` | pqclean_mlkem/indcpa.c:255-295 | u_i = sum of a_ji y_j, plus e1_i, from rho, i, j; the coins, j; the coins, 3 + i |
| `Equations.MessageEquation` | pqclean_mlkem/indcpa.c:255-295 | v = sum of t_j y_j, plus e2 from the coins, 6, plus the message |
| `Equations.KeyPart` | pqclean_mlkem/polyvec.c:82-88 | polynomial i of a key lies in bytes 384i to 384i + 383 |
| `Equations.CipherPart` | pqclean_mlkem/indcpa.c:82-85 | polynomial i of u lies in bytes 320i to 320i + 319 of the ciphertext, v in the last 128 |
| `Correct.KeyReadBack` | pqclean_mlkem/indcpa.c:20-69 | a packed key reads back to the same ring elements |
| `Correct.UnpackPack` | pqclean_mlkem/indcpa.c:72-100 | an unpacked ciphertext is the rounded (u, v) |
| `Correct.Adjoint` | pqclean_mlkem/indcpa.c:139-140 | (A s) y = s (A^T y), which lets the secret cancel |
| `Correct.ErrorBounds` | pqclean_mlkem/polyvec.c:15-71 | compression errors of a whole polynomial are at most 2 (d = 10) and 104 (d = 4) |
| `Correct.DecryptedPoly` | pqclean_mlkem/indcpa.c:311-327 | what is decrypted is message + e y + e2 + c_v - s (e1 + c_u) modulo q |
| `Correct.BitSurvives` | pqclean_mlkem/poly.c:137-155 | a bit survives noise x if and only if the centred x lies in -832..832 (zero) or -832..831 (one) |
| `Correct.DecryptionCorrect` | pqclean_mlkem/indcpa.c:198-327 | for every seed, message and coins: decryption returns the message if and only if each noise coefficient is in that range |
| `Correct.SmallNoiseDecrypts` | pqclean_mlkem/indcpa.c:198-327 | noise of at most 831 in absolute value always decrypts |
| `Verify.Compare` | pqclean_mlkem/verify.c:17-26 | 0 exactly when the strings are equal, else 1 |
| `Verify.Cmov` | pqclean_mlkem/verify.c:41-50 | copies or keeps the whole string, by the bit |
| `Kem.KemKeyPair` | pqclean_mlkem/kem.c:25-34 | the four parts of the decapsulation key |
| `Kem.KemEnc` | pqclean_mlkem/kem.c:74-93 | with g = SHA3-512 of m followed by SHA3-256 of pk: the secret is the first half of g, the ciphertext that of m with the second half as coins |
| `Kem.KemDec` | pqclean_mlkem/kem.c:136-164 | with g = SHA3-512 of m' followed by the stored digest: the first half of g if re-encryption gives the ciphertext, else SHAKE256 of z followed by ct |
| `Kem.DecapsulationCorrect` | pqclean_mlkem/kem.c:74-164 | decapsulation returns the encapsulated secret whenever the noise condition holds |
| `Kem.ImplicitRejection` | pqclean_mlkem/kem.c:136-164 | a ciphertext no message encrypts to gives the rejection secret |
| `Kem.BytesRoundTrip` | pqclean_mlkem/poly.c:76-108 | serialising a deserialised polynomial gives back every byte string, reduced or not |
| `LittleEndian.FromToLe` | crypto.c:9-10 | reading back a stored number of any length gives the number |
| `LittleEndian.ToFromLe` | crypto.c:9-10 | storing a loaded number gives the bytes |
| `Int128.Mul128` | crypto.c:320-338 | the two-word product of two int64 values is exact |
| `Int128.Add128` | crypto.c:340-345 | the two-word sum is exact when it fits |
| `Int128.Shr51` | crypto.c:347-352 | the arithmetic shift is floor division by 2^51 |
| `Fe25519.FeAdd` | crypto.c:310 | for all limbs whose sums fit int64: limbwise sum, sum modulo p; carried operands stay in the range of fe_mul |
| `Fe25519.FeSub` | crypto.c:311 | for all limbs whose differences fit int64: limbwise difference, difference modulo p; carried operands stay in the range of fe_mul |
| `Fe25519.CarryChain` | crypto.c:379-389 | the carries keep the value modulo p and leave limbs small enough to be summed once before the next product |
| `Fe25519.FeMul` | crypto.c:358-390 | for limbs up to 2^53 in absolute value: exact product modulo p, no 64- or 128-bit overflow, carried limbs |
| `Fe25519.Folded` | crypto.c:366-375 | the five sums of limb products, folded with 19, are the product up to a multiple of p |
| `Fe25519.ProductField` | crypto.c:358-375 | folding the high columns with 19 keeps the product modulo p |
| `FeInverse.FeInv` | crypto.c:394-439 | for limbs up to 2^53, the addition chain computes z^(p-2) |
| `FeBytes.FeFromBytes` | crypto.c:278-292 | the little-endian number without its top bit, in carried limbs |
| `FeBytes.FullCarry` | crypto.c:295-299 | the five carry passes bring every limb into 51 bits and keep the residue |
| `FeBytes.Canonical` | crypto.c:300-301 | the conditional subtraction leaves the unique representative in [0, p) |
| `FeBytes.FeToBytes` | crypto.c:294-308 | the 32 little-endian bytes of the unique representative |
| `X25519.Clamp` | crypto.c:446-447 | the clamped bytes are the scalar of RFC 7748 |
| `X25519.FeCswap` | crypto.c:441-444 | swaps or keeps both elements, by the bit |
| `X25519.LadderStep` | crypto.c:455-465 | one rung on limbs is one rung of RFC 7748 on residues, and the limb bounds are invariant |
| `X25519.Compute` | crypto.c:446-470 | for every scalar and point, the bytes of the ladder of RFC 7748 over the integers modulo 2^255 - 19 |
| `Montgomery.StepLaw` | crypto.c:455-465 | modulo 2^255 - 19, a step makes of x/z and x'/z' the fractions (x^2 - z^2)^2 over 4xz(x^2 + 486662xz + z^2), the double, and 4(xx' - zz')^2 over 4u(xz' - zx')^2, the sum of two points whose difference is u |
| `Montgomery.RungDoublesAndAdds` | crypto.c:453-466 | with its swaps, a rung doubles one point, by the bit, and replaces the other with the sum of both |
| `Montgomery.LadderIsMultiples` | crypto.c:446-468 | after the bits down to t the two points are the n-fold and the (n + 1)-fold of u, for n the scalar without its t low bits |
| `Montgomery.ScalarMultIsMultiple` | crypto.c:446-470 | the result is x times z^(p - 2) of the multiple by the decoded scalar |
| `Poly1305.BlockLimbs` | crypto.c:187-191 | five overlapping word loads hold the block's number plus 2^128 |
| `Poly1305.KeyLimbs` | crypto.c:173-182 | masked word loads hold the clamped key half |
| `Poly1305Clamp.ClampedBytes` | crypto.c:173-182 | the clamped key half by its bytes: the top four bits of bytes 3, 7, 11, 15 and the bottom two of bytes 4, 8, 12 are cleared |
| `FiveLimbs.Product` | crypto.c:192-196 | for any radix whose fifth power is c modulo p, the five folded columns are the product of the numbers modulo p |
| `Poly1305State.Dot5` | crypto.c:192-196 | the sum of five products, with the bound that keeps it in 64 bits |
| `Poly1305State.MulReduce` | crypto.c:185-203 | the next limbs are in range and hold the product modulo 2^130 - 5; no word overflows |
| `Poly1305State.FinalCarry` | crypto.c:207-209 | the single partial carry leaves every limb below 2^26, so h1 = 2^26 is not reached |
| `Poly1305State.ReduceOnce` | crypto.c:210-215 | the masked selection leaves the residue in [0, 2^130 - 5) |
| `Poly1305State.PackWords` | crypto.c:216-217 | four packed words are the number modulo 2^128 |
| `Poly1305State.AddKey` | crypto.c:218-221 | adding the key half with carries, modulo 2^128, in little-endian bytes |
| `Poly1305State.State.constructor` | crypto.c:173-182 | accumulator zero and the clamped key |
| `Poly1305State.State.Block16` | crypto.c:185-203 | the accumulator becomes (a + block + 2^128) * r modulo 2^130 - 5 |
| `Poly1305State.State.Done` | crypto.c:205-222 | the tag is (accumulator + s) modulo 2^128 |
| `Poly1305State.AccumulateAppend` | crypto.c:226-240 | the sum over a concatenation is the sum continued |
| `Poly1305State.AeadTag` | crypto.c:226-240 | for every key, associated data and ciphertext: Poly1305 of RFC 8439 over the padded data with the lengths modulo 2^32 |
| `Poly1305State.LengthsFit` | crypto.c:235-238 | that is the standard's MAC data if and only if both lengths are below 2^32 |
| `GcmTable.Shift4IsMulX4` | aes.c:226-233 | shifting by four bits with the 16-entry remainder table is multiplication by x^4 |
| `GcmTable.ProductNibble` | aes.c:218-237 | one nibble of the operand: the product by Horner's rule |
| `GcmTable.Table.constructor` | aes.c:199-215 | entry n of the tables is the n-fold multiple of H, for all 16 |
| `GcmTable.Mul` | aes.c:218-237 | the table-driven product in place equals the bit-by-bit product of section 6.3 |
| `GcmTable.GhashTab` | aes.c:315-324 | GHASH of the zero-padded data, in place, whatever the last block's length |
| `GcmClmul.ReduceBits` | aes.c:281-296 | bit by bit, what the shifts on 32-bit lanes reduce to |
| `GcmClmul.WholeProduct` | aes.c:262-270 | four 64-bit carry-less products joined are the 256-bit product |
| `GcmClmul.FoldTerms` | aes.c:271-297 | shifting and reducing the long product is the bit-by-bit product |
| `GcmClmul.GcmMultiplyIsProduct` | aes.c:260-298 | for all operands, the carry-less multiplication equals the product of section 6.3 |
| `GcmClmul.SwappedLoad` | aes.c:251-254 | loading after the byte reversal reads the bits in the order of SP 800-38D |
| `GcmClmul.GhashClmul` | aes.c:301-312 | the same GHASH as the table path |
| `Varint.VarintRoundTrip` | quic.c:83-99 | parsing a written varint ahead of any suffix returns the value and its length |
| `Varint.Examples` | quic.c:83-92 | the five encodings of section A.1 of RFC 9000 parse to their values |
| `AckRanges.Packets.Add` | quic.c:830-874 | the list stays sorted, disjoint, non-adjacent, at most 32; it becomes the old set plus pn, or is unchanged when full and pn is isolated |
| `AckRanges.Canonical` | quic.c:830-874 | two such lists with the same members are equal, so the list is a normal form of the set |
| `AckRanges.EveryRun` | quic.c:830-874 | over every arrival sequence: invariant kept, only arrived numbers recorded, none forgotten |
| `AckRanges.NothingDropped` | quic.c:830-874 | while no isolated number arrives at a full list, exactly the arrived numbers are recorded |
| `AckFrame.Build` | quic.c:876-909 | the frame of a non-empty list is the type, the four fields and the gap pairs in descending order |
| `AckFrame.FrameExample` | quic.c:876-909 | the bytes of one frame with two ranges, field by field |
| `AckFrame.HandleAck` | quic.c:344-381 | the parser, with its wrap-around and its underflow guards, on every payload: numbers acknowledged in order and bytes consumed |
| `AckFrame.AckRoundTrip` | quic.c:344-381 | parsing a built frame ahead of any bytes acknowledges the ranges in descending order and consumes exactly the frame |
| `AckFrame.DownIsTheSet` | quic.c:876-909 | that order lists each number of the set exactly once, strictly descending |
| `SentQueue.Connection.Add` | quic.c:911-924 | pushes on the list unless the payload is empty or over 2048 bytes |
| `SentQueue.Connection.HandleAcked` | quic.c:926-956 | removes the first match and updates the estimate, or changes nothing |
| `SentQueue.Connection.Observe` | quic.c:940-946 | the smoothed estimate after a sample |
| `SentQueue.Connection.Send` | quic.c:211-239 | sends under the next number of its epoch and queues it |
| `SentQueue.Connection.Resend` | quic.c:969-975 | the sender of the epoch is called with the same payload; other epochs have none |
| `SentQueue.Connection.Retransmit` | quic.c:965-987 | retransmission pushes on the list being walked, then unlinks the old node; the walk continues at its successor |
| `SentQueue.Connection.CheckPto` | quic.c:958-992 | the whole walk on the linked list ends in the queue and counters of the walk on sequences |
| `SentInvariants.PtoKeepsData` | quic.c:958-992 | the multiset of (epoch, payload) is preserved |
| `SentInvariants.PtoKeepsOrder` | quic.c:958-992 | unexpired entries stay, in order |
| `SentInvariants.PtoByAge` | quic.c:958-992 | for clocks that do not wrap: exactly the entries of age at most srtt + 4 rttvar, or 300000 if that is 0, stay, in order; of the others, those of epoch 0, 2 or 3 with 1 to 2048 bytes are queued again, in order, under numbers not below the counters |
| `SentInvariants.PtoFresh` | quic.c:958-992 | every retransmitted entry has a number not used before |
| `SentInvariants.PtoUnique` | quic.c:958-992 | (epoch, number) stays unique through a timeout |
| `SentInvariants.AckRemovesOne` | quic.c:926-956 | an acknowledgement removes exactly the one matching entry |
| `SentInvariants.EveryRun` | quic.c:911-992 | over every run of sends, acknowledgements and timeouts, (epoch, number) is unique and below the counter |
| `SentInvariants.SrttBetween` | quic.c:937-946 | for samples below 2^61, srtt stays between the smallest and largest sample |
| `SentInvariants.EstimateWeights` | quic.c:940-946 | below 2^61: the new srtt is 7/8 of the old and 1/8 of the sample, the new rttvar 3/4 of the old and 1/4 of the distance of the sample from the old srtt, rounded down; the first sample sets both |
| `SentInvariants.SrttThreshold` | quic.c:940-946 | the smoothed value stays in the range of the samples, for all sequences of samples of at most m, if and only if m is below 2^61 |
| `SentInvariants.SrttWraps` | quic.c:940-946 | two samples of 2^61 wrap the 64-bit sum to a smoothed value of 0 |
| `SentInvariants.SampleInRange` | quic.c:937-938 | for clock readings below 2^61, a sample is below 2^61 if and only if the clock has not gone back |
| `SentInvariants.ClockSetBack` | quic.c:937-946 | a clock set back by a millisecond makes the next estimate smaller than both samples |
| `Http3.Stream.Receive` | quic.c:414-483 | the loop on a piece, with state kept across pieces, equals the frame machine; it terminates by (bytes left, state) |
| `Http3.FeedSplit` | quic.c:414-483 | for every cut, inside headers too: feeding a stream whole is feeding the first piece, then what that piece left behind in front of the rest |
| `Http3Cuts.LeftInHeader` | quic.c:415-424 | a piece leaves bytes behind if and only if it ends strictly inside a frame header of the whole stream, found by walking the stream |
| `Http3Cuts.PiecesAgree` | quic.c:414-483 | any number of pieces not cut inside a header give the same HEADERS blocks, DATA bytes and final state as the whole stream |
| `Http3Cuts.FrameStep` | quic.c:414-483 | one encoded frame ahead of more bytes is delivered whole; an empty frame waits for the next byte |
| `Http3Cuts.FramesDelivered` | quic.c:414-483 | a list of encoded frames ahead of any rest is delivered frame by frame |
| `Http3Cuts.StreamDelivered` | quic.c:414-483 | frames arriving in any pieces not cut inside a header: exactly the HEADERS bodies become blocks, exactly the DATA bodies are stored |
| `Http3Cuts.CutInsideHeader` | quic.c:415-424 | a concrete stream that loses its data when cut inside a header |
| `HuffTable.EveryEntry` | qpack.c:12-269 | each of the 256 table entries has the code that its place among the codes of its length demands |
| `HuffTable.Gap` | qpack.c:12-269 | all codes of one length come before the longer ones: the code is canonical |
| `HuffTable.BelowOnes` | qpack.c:12-269 | no code is all ones, so padding never looks like a symbol |
| `HuffCode.LengthIs` | qpack.c:12-269 | which symbols have codes of which length, listed length by length as in appendix B of RFC 7541, in both directions |
| `HuffCode.CodesAscend` | qpack.c:12-269 | codes of one length ascend with the symbol; with the lengths and the ranges this leaves no choice for any code |
| `HuffCode.EncodesPrivate` | qpack.c:272-312 | the Huffman string of appendix C.6.1 of RFC 7541 for private, encoded and decoded |
| `Huffman.PrefixFree` | qpack.c:12-269 | no code is the beginning of another |
| `Huffman.Fill` | qpack.c:280-283 | the accumulator keeps the unread bits, in at most 63 bits, and holds at least 56 of them or the end of the input |
| `Huffman.Scan` | qpack.c:286-305 | the scan finds the first symbol whose code starts the accumulator |
| `Huffman.LongEnough` | qpack.c:278-308 | what it finds there is what the whole remaining input starts with |
| `Huffman.Decode` | qpack.c:272-312 | for every input: the symbols up to the first mismatch, truncated to max_out - 1 |
| `Huffman.SymbolsOfEncoding` | qpack.c:272-312 | the symbols of an encoded string followed by any number of ones are the string |
| `Huffman.RoundTrip` | qpack.c:272-312 | decoding the encoding of section 5.2 of RFC 7541 gives back the string, truncated to max_out - 1 |
| `Ctr.IncNumber` | aes.c:354-359 | the increment is addition of one modulo 2^n |
| `Ctr.IncJoin` | aes.c:359 | the carry leaves a byte exactly when the byte wraps to zero |
| `Ctr.IncBytes` | aes.c:359 | the byte-by-byte increment of the last four bytes is the 32-bit increment, the rest stays |
| `Ctr.CtrXor` | aes.c:356-360 | the plain loop masks the data with the key stream of section 6.5 and advances the counter |
| `Ctr.MiddleRounds` | aes.c:59-60 | rounds interleaved over eight registers give each register its own rounds |
| `Ctr.EightWay` | aes.c:48-75 | eight blocks at a time plus the tail: the same output and the same final counter as the plain loop |
| `Ctr.StreamTwice` | aes.c:356-360 | masking twice gives back the data, at every length |
| `Gcm.HashedIsGhash` | aes.c:362-367 | the three GHASH calls are one GHASH of the padded data and lengths, as section 7.1 defines it |
| `GcmStream.FirstCounter` | aes.c:328 | the first counter block is the IV and a 32-bit number that is 1 |
| `GcmStream.CipherBlock` | aes.c:326-371 | block k of the ciphertext is the data masked with the cipher of the IV followed by k + 2 modulo 2^32 |
| `GcmStream.TagMask` | aes.c:362-370 | the tag is GHASH, under the cipher of zeros, masked with the cipher of the IV followed by 1 |
| `GcmStream.LengthsAre` | aes.c:364-366 | read as numbers, the two halves of the length block are 8 times the lengths |
| `Gcm.FillLengths` | aes.c:364-366 | the length block holds both bit lengths in 64 bits, most significant byte first |
| `Gcm.GhashInto` | aes.c:315-324 | GHASH in place on whichever path the processor allows |
| `Gcm.ComputeTag` | aes.c:362-370 | the tag is that GHASH masked with the enciphered first counter block |
| `Gcm.Encrypt` | aes.c:326-371 | ciphertext and tag, the same with and without the processor's instructions |
| `Gcm.Differ` | aes.c:422-423 | the accumulated difference is zero exactly for equal tags |
| `Gcm.Decrypt` | aes.c:383-433 | the length as an int and the plaintext for exactly the right tag; otherwise -1 and the output buffer as before |
| `Gcm.RoundTrip` | aes.c:326-433 | decryption accepts and undoes encryption at every length, whichever path either side takes |
| `ChaCha.RotlRotates` | chacha20.c:57-60 | rotl32 moves the n high bits below the others |
| `ChaChaRounds.QuarterExample` | chacha20.c:63-68 | the worked quarter round of section 2.1.1 of RFC 8439 |
| `ChaChaRounds.QuarterAt` | chacha20.c:63-68 | a quarter round on four words of the state is that on the words alone, and the others stay |
| `ChaChaRounds.ColumnsThenDiagonals` | chacha20.c:83-92 | a double round mixes the four columns of the 4 by 4 matrix, then its four diagonals |
| `ChaChaRounds.InitialBytes` | chacha20.c:101-121 | written out, the initial state is the text, the key, the counter and the nonce |
| `ChaCha.BlockOf` | chacha20.c:77-99 | in-place rounds, the feed-forward addition and little-endian output: the block function of section 2.3 of RFC 8439 |
| `ChaCha.MixV` | chacha20.c:9-13 | a vector step is the scalar step on each of the four lanes |
| `ChaCha.FourBlocks` | chacha20.c:17-35 | the vector form gives the blocks at counters c to c + 3 modulo 2^32 |
| `ChaCha.StreamBlocks` | chacha20.c:123-149 | taking n blocks at once is taking them in turn |
| `ChaChaRounds.StreamFrom` | chacha20.c:123-149 | block k of the output is the data masked with the block function at counter c + k modulo 2^32 |
| `ChaCha.ChaChaXor` | chacha20.c:123-149 | for every length the int counters can pass: the key stream of section 2.4, with or without the vector unit |
| `ChaCha.StreamTwice` | chacha20.c:123-149 | masking twice gives back the data, at every length |
| `ChaChaPoly.OneTimeKey` | crypto.c:243-244 | masking zeros with counter 0 gives the one-time key |
| `ChaChaPoly.TagIsStandard` | crypto.c:226-240 | for lengths below 2^32 the tag is that of section 2.8 of RFC 8439 |
| `ChaChaPoly.Encrypt` | crypto.c:242-247 | ciphertext from counter 1 on, and its tag |
| `ChaChaPoly.Decrypt` | crypto.c:249-260 | the length and the plaintext for the right tag; -1 and an untouched output for any other |
| `ChaChaPoly.RoundTrip` | crypto.c:242-260 | decryption undoes encryption at every length |
| `Chunks.FoldAppend` | crypto.c:128-138 | folding whole blocks first and the rest later is folding everything |
| `Chunks.FoldMore` | crypto.c:128-138 | bytes that stay inside a block only join the rest; bytes that complete it cause exactly one step |
| `Sponge.State.Absorb` | keccak.c:68-73 | any split of the input into calls leaves the state of the concatenation, absorbed block by block |
| `Sponge.State.Finalize` | keccak.c:74-79 | the state after the padded message, also when suffix and last bit share a byte |
| `Sponge.State.Squeeze` | keccak.c:80-85 | the next n bytes of the output, wherever the last call stopped |
| `Sponge.State.SqueezeBlocks` | keccak.c:86-91 | whole blocks of the same output |
| `Sponge.Hash` | keccak.c:94-102 | the digest of the concatenation of all pieces |
| `Sponge.Shake128` | keccak.c:105-113 | blocks squeezed in two calls are the same stream that byte squeezing gives |
| `Sha.Context.Update` | crypto.c:128-138 | any split of the message into calls leaves the same context, also when the bit count wraps |
| `Sha.Context.Mark` | crypto.c:140-141 | the padding loop ends at the length field, by the shortest run of zeros |
| `Sha.Context.WriteLength` | crypto.c:142 | the bit length from before the padding, most significant byte first |
| `Sha.PaddedExample` | crypto.c:139-142 | the padding of abc, as worked out in section 5.1 of FIPS 180-4, for both block lengths |
| `Sha.Context.Final` | crypto.c:139-147 | the digest of the padded message |
| `Sha.EmittedWord` | crypto.c:143-146 | word i of the digest is word i of the chaining value, most significant byte first |
| `Sha.HashPieces` | crypto.c:548-586 | the digest of the concatenation of all pieces |
| `Sha.LengthFits` | crypto.c:560-574 | SHA-384's length field is the standard's 128-bit one if and only if the message has fewer than 2^64 bits |
| `Hkdf.HmacContext.Final` | crypto.c:158-162 | HMAC of everything fed, for keys of any length |
| `Hkdf.HmacWritten` | crypto.c:149-162 | section 2 of RFC 2104 with both constants written out, for a key that fits into the block |
| `Hkdf.ZerosBehind` | crypto.c:149-157 | zeros behind a key that still fits make no difference |
| `Hkdf.LongKey` | crypto.c:149-157 | a key longer than a block acts as its digest |
| `Hkdf.ExpandByOffset` | crypto.c:265-272 | for every length, the first bytes of the blocks with their one-byte counter |
| `Hkdf.ExpandByCount` | crypto.c:633-652 | the same by block count |
| `Hkdf.OkmIsStandard` | crypto.c:265-272 | up to 255 blocks both loops give the output of section 2.3 of RFC 5869 |
| `Hkdf.OkmPrefix` | crypto.c:633-652 | a shorter output is the beginning of a longer one |
| `Hkdf.BlocksRepeat` | crypto.c:265-272 | beyond 255 blocks the SHA-256 loop repeats itself with period 256 |
| `Symmetric.DigestIsSponge` | pqclean_mlkem/symmetric.h:22-29 | ML-KEM's hash functions, an arbitrary parameter elsewhere, are the sponge with their rates and suffixes |
| `Symmetric.PaddingBytes` | keccak.c:74-76 | the padding bytes of table 6 of FIPS 202, also when suffix and last bit share a byte |
| `Symmetric.OneShot` | pqclean_mlkem/symmetric.h:22-23 | the one-call functions give that digest |
| `Symmetric.RejectionSecret` | pqclean_mlkem/symmetric-shake.c:62-71 | key and ciphertext absorbed in two calls give the rejection secret of decapsulation |
| `Symmetric.StreamBlocks` | pqclean_mlkem/symmetric-shake.c:18-29 | the squeezed blocks are the consecutive pieces of the stream that the matrix sampler reads |

## Left out

- nanotls.c: handshake, records and fallback are interleaved with sockets and allocation.
- Sockets, wall clock, `getrandom` and printing: time and randomness are parameters.
- The insides of AES, Keccak-f and the hash compression functions: nothing proved here depends on them.
- That the AES instructions compute the rounds of `aes_encrypt_block`: both paths of `Gcm` take the same rounds.
- The key schedules of AES, HKDF extraction (one HMAC with default arguments) and the TLS 1.2 PRF.
- ChaCha.ChaChaXor: demands fewer than 2^31 - 256 bytes of input, beyond which the int counters of chacha20.c:135-144 overflow.
- Huffman.Decode: the zero byte written behind the result is not part of the sequence.
- Hkdf.HmacContext.Final: the flag with which the SHA-256 version ignores calls after the result was taken is not modelled; a context yields one result.
- How likely ML-KEM decryption fails: the noise condition is exact, its probability is not a functional property.
- Termination of the matrix sampling loop: stated for streams of which some number n of bytes holds enough accepted values.
- The elliptic-curve group law and Fermat's theorem: `Montgomery` gives the formulas of doubling and differential addition and the multiples they build up, not that these are points of a group, nor that z^(p-2) is an inverse.
- The polynomial, field-element and ciphertext buffers that C passes by pointer: those the code only builds are results, so that input and output may not overlap is not captured.
- GHASH registers and words, and the bytes of AES-GCM, are bit strings; that a shift of a machine word is the shift of its bit string is the definition used.
- The `max_len` argument of the ACK builder (quic.c:876), which the code does not use; the builder's output is a sequence.
- Retry (nanotls.c resets the Initial packet number to 1): uniqueness of packet numbers is claimed for runs without it.
- 1-RTT acknowledgements clearing the queue end to end: frames are parsed with epoch 1 and queued under epoch 3.
- `quic_skip_frame`, header protection, packet encryption, flow control, the QPACK dynamic table and the ticket cache.
- AckFrame.HandleAck: counts its offset without bound. In C it is an int that, on a truncated frame with a huge range count, keeps growing by the length of the last complete varint and overflows. No promise of RFC 9000 is claimed for truncated frames.
- SHA-NI (disabled at crypto.c:116-122) and CPU detection; whether an instruction is present is a parameter.
- Epochs outside 0 to 3 (quic.c:831, quic.c:877): each epoch has its own `Packets`, so such a call does not arise.
