# Verification of the NOIR wallet firmware

A Dafny model of the arithmetic and protocol core of the wallet, with proofs. `dafny verify dfyconfig.toml`
checks the whole project.

The sources change limb arrays, contexts and static variables in place, and so does the model: each C function
is a method over arrays or over the fields of a class, proved against a specification function, and the
properties the sources promise are lemmas about these functions. Machine words are subset types
(`Words.uint32`, `Words.uint64`), so a verified method is one whose accumulators never wrap unless it says
`Wrap32`; bytes that are combined by exclusive or are `bv8`.

The layers, from the bottom:

* **256-bit modular arithmetic** (`Limbs`, `Bignum`, `BignumMod`, `LongMultiplication`, `BignumWindow`,
  `BignumMul`, `BignumDivide`, `EuclidRounds`, `BignumInverse`, `BignumPower`, `BignumCodec`): nine 29-bit
  limbs, lazily carried and lazily reduced. `Limbs.Low` is the number a limb array holds. The main result is
  `BignumInverse.InverseFast`, the constant-time inverse in 522 rounds.
* **Curve arithmetic** (`Jacobian`, `JacobianLaw`, `CurveGroup`, `AffinePoint`, `Window`, `PointMultiply`):
  the coordinate formulas in the field, then points as multiples of the base point. `CurveGroup.CurveLaw` is
  the hypothesis that a prime-order curve is a group under chords and tangents; that the formulas, the signed
  windows and the lazy sign flips compute multiples is proved.
* **ECDSA** (`PublicKey`, `EcdsaLaw`, `Ecdsa`, `EcdsaSign`, `Der`): signing with low s, blinding and the
  recovery byte, verification, key recovery, DER. `EcdsaLaw` holds the algebra, `Ecdsa` the code, and
  `EcdsaSign` the signing loop over the nonces of `Rfc6979`; `EcdsaSign.SignedIsGood` joins signing,
  verification and recovery on bytes.
* **AES-GCM** (`ByteStrings`, `Gf128`, `GfMul`, `GcmSpec`, `GcmCounter`, `Gcm`, `AesGcm`): the field GF(2^128), its
  byte-wise product, the split GHASH accumulators and the counter blocks.
* **Hashes and what is built on them** (`Sha2Spec`, `Sha2Compress`, `Sha2`, `Sha2Words`, `HmacSha2`, `Pbkdf2`,
  `HmacDrbg`, `Rfc6979`, `Bip39Seed`): streaming SHA-2 with its padding and ring schedule, HMAC midstates,
  PBKDF2 over them, and the deterministic nonce generator. One description covers the 32-bit and the 64-bit
  variants: the word size `w` is a parameter of `Sha2Spec.Algorithm`, and rows that cite one of the two
  variants hold for both. The contexts are proved for every compression function; `Sha2Words` shows that the
  rounds of `Sha2Compress` on little-endian memory are one.
* **Codecs and caches** (`Rlp`, `EthTx`, `EthSighash`, `EthFits`, `EthReadBack`, `WalletHandlers`, `HidFrame`,
  `Base58`, `Bip39Spec`, `Bip39`, `Bip32Cache`).
* **The lock protocol** (`LockProtocol`, `LockRuns`, `MainLoop`): the device as a transition system over USB
  commands, polls and button events, with its invariant and its answers over all runs; `MainLoop.Firmware`
  takes the same steps in place.
* **The standards** (`Standards`): what the specification functions say, spelled out with the constants of
  SEC 1, RFC 2104, RFC 6979, FIPS 180-4, SP 800-38D, BIP-39 and the Yellow Paper.

Where the code differs from its comments or from what one would expect, the model follows the code:

* `bn_fast_mod` asks for normalized limbs, but `bn_mult_k` and `bn_addmod` hand it limbs above 2^29. Its
  contract here covers any nine 32-bit words (`BignumMod.FastMod`); the quotient guess may then be too small.
* `mnemonic_from_data` makes phrases of 15 and 21 words that `mnemonic_check` refuses: `Bip39.MadeButRefused`
  says exactly when a phrase that was made is let through.
* A PBKDF2 call with no iterations computes one. Splitting the count over several `Update` calls is harmless
  if and only if the first call is not empty or all of them are (`Pbkdf2.SplitCounts`); `Pbkdf2.EmptyFirstCall`
  is an input where it is not. The sixteen equal calls of `mnemonic_to_seed` are (`Bip39Seed.MnemonicToSeed`).
* Not every transaction that `eth_tx_parse` accepts can be encoded in the buffers of `eth_tx_sighash`: a list in
  the place of a number grows by a header, and a declared length of 2^31 or more turns negative.
  `EthFits.FitsExactly` gives the exact condition, `EthFits.FullDoesNotFit` and `EthFits.HugeDoesNotFit` an
  input for each of its halves.
* `eth_tx_sighash` takes the access list for a canonical RLP list and copies it. For a list whose declared length
  turns negative it is not one, and what is hashed cannot be read back: `EthReadBack.PreimageReadsBack` says
  exactly when it can, `EthReadBack.ClippedNotRead` is an input where it cannot.
* The main loop brings up a screen for a request only when neither of the two deciding screens is shown. A command
  that puts a request of the other kind in the place of the one shown leaves the screen as it is:
  `LockProtocol.MatchesExactly` says when the two agree, `LockRuns.SignedOnAddressScreen` is a run on which they
  do not.
* The 32-bit block count in `gcm_compute_tag` and the 32-bit bit count of the iv in `gcm_init_message` are
  right exactly up to the sizes in `AesGcm.WrappedIs` and `GcmSpec.TruncatedIs`.
* Verification accepts high s; low s is chosen by the signer only (`EcdsaLaw.NegatedVerifies`).
* `ecdsa_verify_digest` reports a zero digest before an r or s out of range.

## Model

| member | source | states |
|---|---|---|
| BignumCodec.ReadBe | lib/trezor-crypto/bignum.c:95-108 | Nine normalized limbs whose value is the number spelled by the 32 bytes |
| BignumCodec.WriteBe | lib/trezor-crypto/bignum.c:137-148 | 32 bytes that spell the value of the limbs, for every normalized number below 2^256; nothing else in the buffer changes |
| BignumCodec.ReadWriteRoundTrip | lib/trezor-crypto/bignum.c:95-148 | Reading 32 bytes and writing them back gives the same bytes |
| BignumCodec.ReadLimb | lib/trezor-crypto/bignum.c:95-108 | The OR of the left-over bits and the shifted word is a sum that does not wrap, and no bit is lost between limb and carry |
| Bignum.IsZero | lib/trezor-crypto/bignum.c:261-267 | True exactly for the number 0, found without wrapping |
| Bignum.IsOne | lib/trezor-crypto/bignum.c:271-277 | True exactly for the number 1 |
| Bignum.IsLess | lib/trezor-crypto/bignum.c:281-289 | The comparison of the two nine-bit masks is the comparison of the numbers |
| Bignum.IsEqual | lib/trezor-crypto/bignum.c:293-299 | True exactly if the numbers are equal |
| Bignum.Cmov | lib/trezor-crypto/bignum.c:305-316 | Selection between two numbers, also when the destination is one of them |
| BignumMod.CNegate | lib/trezor-crypto/bignum.c:326-400 | 2p - (x mod p) with the flag set, else p + (x mod p), normalized: congruent to -x or x, from masked 32-bit sums that wrap on purpose |
| Bignum.Lshift | lib/trezor-crypto/bignum.c:405-411 | 2x modulo 2^261, exactly 2x when it fits |
| Bignum.Rshift | lib/trezor-crypto/bignum.c:418-424 | x / 2 rounded down |
| Bignum.MultHalf | lib/trezor-crypto/bignum.c:472-523 | Normalized, and twice the result is x or x + p, whichever is even |
| BignumMod.MultK | lib/trezor-crypto/bignum.c:529-540 | For k <= 8 a partly reduced number congruent to k x, although bn_fast_mod is given limbs above 2^29 |
| Bignum.Mod | lib/trezor-crypto/bignum.c:547-555 | x mod p for x < 2p |
| LongMultiplication.ColumnsProduct | lib/trezor-crypto/bignum.c:561-604 | The column sums of the limb products, weighted, are the product of the two numbers |
| BignumMul.MultiplyLong | lib/trezor-crypto/bignum.c:561-604 | All eighteen limbs of the exact product; the 64-bit accumulator never wraps |
| BignumMul.MultiplyReduceStep | lib/trezor-crypto/bignum.c:611-701 | With one quotient guess, a number below 2p * 2^(29 d) congruent to the one before |
| BignumMul.Reduce | lib/trezor-crypto/bignum.c:707-720 | An eighteen-limb number below 2^519 becomes a congruent one below 2p |
| BignumMul.Multiply | lib/trezor-crypto/bignum.c:726-734 | k x below 2^519 becomes a partly reduced number congruent to k x, also for k = x in the same array |
| BignumMod.FastMod | lib/trezor-crypto/bignum.c:740-829 | Below 2p and congruent for any nine 32-bit words, carried or not; and not 0 for a non-zero input when p < 2^256 |
| BignumMod.GuessBound | lib/trezor-crypto/bignum.c:740-829 | The quotient guessed from an uncarried top limb may be too small, but never by so much that 2p is reached, and never too large |
| BignumPower.PowerMod | lib/trezor-crypto/bignum.c:838-873 | x^e modulo p, partly reduced |
| BignumPower.Sqrt | lib/trezor-crypto/bignum.c:884-902 | x^((p + 1) / 4) mod p, fully reduced |
| BignumDivide.InverseModPowerTwo | lib/trezor-crypto/bignum.c:908-929 | a times the result is 1 modulo 2^n for every odd a and n <= 32, by wrapping 32-bit products |
| BignumDivide.InverseStep | lib/trezor-crypto/bignum.c:908-929 | One Newton-like step squares the error: it vanishes modulo 2^(2i) after being 0 modulo 2^i |
| BignumDivide.DivideBase | lib/trezor-crypto/bignum.c:937-997 | 2^29 times the result is congruent to x, and the result is at most (x + (2^29 - 1) p) / 2^29 |
| EuclidRounds.EuclidStep | lib/trezor-crypto/bignum.c:1127-1231 | Each of the four branches keeps p = u s + v r and x s = v 2^k with k one larger, keeps u and v coprime, and at least halves u v |
| EuclidRounds.RoundsSuffice | lib/trezor-crypto/bignum.c:1127-1231 | After 522 rounds v has become 1 and fewer than 512 factors of two are left to divide out |
| EuclidRounds.RoundReady | lib/trezor-crypto/bignum.c:1127-1231 | In every round, finished or not, the chosen subtraction is non-negative and the sums stay below 2p |
| EuclidRounds.TwosDivided | lib/trezor-crypto/bignum.c:1127-1231 | Dividing s by 2^e modulo p takes e factors of two off x s |
| BignumInverse.InverseRound | lib/trezor-crypto/bignum.c:1127-1231 | The branch-free operand selection changes u, v, r and s as the branch says; after the finish u and s stay, v is halved and r doubled |
| BignumInverse.RunRounds | lib/trezor-crypto/bignum.c:1127-1231 | For every x < p coprime to p the rounds end with x s = 2^k; rounds after the finish do not reach s |
| BignumInverse.DivideByPower | lib/trezor-crypto/bignum.c:1127-1231 | The eighteen divisions by 2^29 and the halvings, of which only as many as needed are kept, divide by exactly 2^k |
| BignumInverse.InverseFast | lib/trezor-crypto/bignum.c:1127-1231 | For every odd p from 2^256 - 2^224 to 2^256 and x coprime to p: s < p with x s = 1 modulo p; 0 for x = 0 modulo p |
| Bignum.Add | lib/trezor-crypto/bignum.c:1402-1426 | The exact sum when it stays below 2^261 |
| BignumMod.AddMod | lib/trezor-crypto/bignum.c:1432-1443 | A partly reduced number congruent to x + y, although bn_fast_mod is given limbs above 2^29 |
| BignumPower.AddI | lib/trezor-crypto/bignum.c:1450-1481 | x + y for a 32-bit y |
| BignumMod.SubI | lib/trezor-crypto/bignum.c:1491-1520 | x + p - y, although the accumulator starts at a wrapped -y |
| Bignum.SubtractMod | lib/trezor-crypto/bignum.c:1528-1574 | x + 2p - y exactly, for y < 2p |
| Bignum.Subtract | lib/trezor-crypto/bignum.c:1581-1620 | x - y modulo 2^261, exact for x >= y, for any aliasing of the three arguments |
| Jacobian.DoublingTest | lib/trezor-crypto/ecdsa.c:221-338 | The reduced difference equals p, not 0, exactly when the x coordinates agree |
| Jacobian.PointJacobianAdd | lib/trezor-crypto/ecdsa.c:221-338 | The three coordinates satisfy the addition formulas for the chosen slope; every number stays within the bounds its callee needs |
| Jacobian.PointJacobianDouble | lib/trezor-crypto/ecdsa.c:340-406 | The three coordinates satisfy the doubling formulas; every number stays within the bounds its callee needs |
| JacobianLaw.AddIsChord | lib/trezor-crypto/ecdsa.c:221-338 | For different x the result stands for the reflected third point of the chord of the affine points |
| JacobianLaw.AddIsTangent | lib/trezor-crypto/ecdsa.c:221-338 | For the same point twice it stands for the reflected third point of the tangent |
| JacobianLaw.AddIsInfinity | lib/trezor-crypto/ecdsa.c:221-338 | For opposite points z becomes 0: the point at infinity |
| JacobianLaw.DoubleIsTangent | lib/trezor-crypto/ecdsa.c:340-406 | Doubling gives the reflected third point of the tangent, and z stays invertible |
| CurveGroup.AddSum | lib/trezor-crypto/ecdsa.c:221-338 | On a curve that meets the group law, adding j G to a representation of m G, with a sum that is not infinity, represents (m + j) G |
| CurveGroup.DoubleSum | lib/trezor-crypto/ecdsa.c:340-406 | Doubling a representation of m G represents 2 m G |
| AffinePoint.PointAdd | lib/trezor-crypto/ecdsa.c:47-91 | In place (j + m) G for every j and m, through all five cases of the code |
| AffinePoint.PointDouble | lib/trezor-crypto/ecdsa.c:94-136 | In place 2 m G for every m, infinity included |
| PointMultiply.CurveToJacobian | lib/trezor-crypto/ecdsa.c:187-201 | Randomized coordinates that represent the same point |
| PointMultiply.JacobianToCurve | lib/trezor-crypto/ecdsa.c:203-219 | The affine point that the coordinates represent, fully reduced |
| Window.HeadStep | lib/trezor-crypto/ecdsa.c:410-533 | Sixteen times the odd part above a window plus its signed digit is the odd part including the window |
| Window.DigitsAreScalar | lib/trezor-crypto/ecdsa.c:410-533 | The 64 signed odd digits, each below 16 in size, sum with weights 16^i to a - 2^256 |
| Window.BitsInLimb | lib/trezor-crypto/ecdsa.c:410-533 | Shifting within a limb gives the five bits of the window |
| Window.BitsAcross | lib/trezor-crypto/ecdsa.c:410-533 | Putting the next limb on top before shifting gives the five bits of a window across two limbs, wrapped bits notwithstanding |
| PointMultiply.MakeOdd | lib/trezor-crypto/ecdsa.c:410-533 | a = k + 2^256, less the order for an even k, in normalized limbs; and whether k is zero |
| PointMultiply.ScalarPoint | lib/trezor-crypto/ecdsa.c:410-533 | The digits sum to k or to k - order, which name the same multiple of the point |
| PointMultiply.FiniteDigits | lib/trezor-crypto/ecdsa.c:410-533 | No partial sum and no table entry is the point at infinity, so no exceptional case of the formulas is met |
| PointMultiply.BuildTable | lib/trezor-crypto/ecdsa.c:410-533 | The table holds P, 3P, ..., 15P |
| PointMultiply.NextBits | lib/trezor-crypto/ecdsa.c:410-533 | The loop's limb index and shift always deliver the next window |
| PointMultiply.ProcessWindow | lib/trezor-crypto/ecdsa.c:410-533 | Four doublings, the delayed sign change and the table entry turn c P into (16 c + d) P |
| PointMultiply.RunWindows | lib/trezor-crypto/ecdsa.c:410-533 | The lazy sign flips evaluate the signed digit sum by Horner's rule |
| PointMultiply.PointMultiply | lib/trezor-crypto/ecdsa.c:410-533 | k P for every 0 < k < order; infinity and status 1 for k = 0; status 1 and no change for k >= order |
| PublicKey.UncompressCoords | lib/trezor-crypto/ecdsa.c:942-978 | The y of the wanted parity on the curve above x; failure exactly if no finite point has that x |
| PublicKey.ValidatePubkey | lib/trezor-crypto/ecdsa.c:1005-1036 | Succeeds exactly on finite points of the curve with coordinates in range |
| PublicKey.ReadPubkey | lib/trezor-crypto/ecdsa.c:980-997 | Succeeds exactly on the 33- and 65-byte encodings of finite points, and returns that point: x from the bytes, and y from the bytes after 04, even after 02 and odd after 03 |
| PublicKey.KeyIsUnique | lib/trezor-crypto/ecdsa.c:980-997 | One encoding names one point |
| Ecdsa.ScalarMultiply | lib/trezor-crypto/ecdsa.c:631-634 | k G |
| Ecdsa.GetPublicKey33 | lib/trezor-crypto/ecdsa.c:790-813 | For a private key d in range 02 or 03, as y of d G is even or odd, and the 32 bytes of its x; else zeros and a failure |
| Ecdsa.Blinded | lib/trezor-crypto/ecdsa.c:683-787 | The blinded computation gives k^-1 (z + r d) whatever the random factor |
| Ecdsa.LowS | lib/trezor-crypto/ecdsa.c:683-787 | The smaller of s and n - s, and the parity bit of the recovery byte toggled exactly if the other was taken |
| Ecdsa.Attempt | lib/trezor-crypto/ecdsa.c:683-787 | One turn: the signature for the nonce if it is acceptable, a retry exactly if it is not, an error for a bad key |
| EcdsaSign.Turn | lib/trezor-crypto/ecdsa.c:707-760 | The next candidate of the deterministic generator, and exactly what becomes of it: passed over, an error for the private key, or the signature for it |
| EcdsaSign.TryCandidates | lib/trezor-crypto/ecdsa.c:707-760 | Of up to 10000 candidates the first that is not passed over decides |
| EcdsaSign.SignDigest | lib/trezor-crypto/ecdsa.c:683-787 | The signature and recovery byte for the first acceptable candidate of section 3.2 of RFC 6979, or the exact reason why there is none: zero digest, bad private key, no acceptable candidate |
| EcdsaSign.Deterministic | lib/trezor-crypto/ecdsa.c:683-787 | Key, digest and the coin's rule determine status, signature and recovery byte: blinding factors and projective masks do not show |
| EcdsaSign.SignedIsGood | lib/trezor-crypto/ecdsa.c:683-787 | Every signature handed out is accepted by verification, and recovery with its byte succeeds, with the signer's key and no other |
| EcdsaSign.SignVerifyRecover | lib/trezor-crypto/ecdsa.c:683-1170 | On bytes and return codes: once signing returns 0, encoding the key, verifying and recovering return 0, and the recovered bytes encode the signer's key |
| Standards.IssuedEquation | lib/trezor-crypto/ecdsa.c:707-787 | Section 4.1.3 of SEC 1 on the 64 bytes: r is x of k G reduced, s k is z + r d or its negative as the byte tells, s at most n / 2 |
| EcdsaLaw.SignatureRange | lib/trezor-crypto/ecdsa.c:683-787 | 0 < r < n, 0 < s <= n / 2, recovery byte below 4 |
| EcdsaLaw.SignedVerifies | lib/trezor-crypto/ecdsa.c:1109-1170 | Every signature so made is accepted under the signer's key |
| EcdsaLaw.VerdictSameKey | lib/trezor-crypto/ecdsa.c:1109-1170 | The verdict depends on the key as a point: multiples of the order do not show |
| Standards.VerdictEquation | lib/trezor-crypto/ecdsa.c:1109-1170 | Section 4.1.4 of SEC 1: with any w inverse to s, accepted exactly if x of (w z + w r d) G reduced is r |
| EcdsaLaw.NegatedVerifies | lib/trezor-crypto/ecdsa.c:1109-1170 | (r, n - s) is accepted exactly like (r, s): low s is a choice of the signer, not a check |
| EcdsaLaw.SignedRecovers | lib/trezor-crypto/ecdsa.c:1056-1106 | Recovery with the signature's own byte singles out the signer's key |
| EcdsaLaw.RecoveryIsUnique | lib/trezor-crypto/ecdsa.c:1056-1106 | At most one key is singled out by a signature, digest and recovery byte |
| EcdsaLaw.RecoveredVerifies | lib/trezor-crypto/ecdsa.c:1056-1106 | Whatever key recovery returns accepts the signature |
| Ecdsa.Quotients | lib/trezor-crypto/ecdsa.c:1109-1170 | z / s and r / s modulo the order, in place |
| Ecdsa.VerifyUnder | lib/trezor-crypto/ecdsa.c:1109-1170 | The result is the verdict of section 4.1.4 of SEC 1 on r, s and z under the key, with the code's order of error numbers |
| Ecdsa.VerifyDigest | lib/trezor-crypto/ecdsa.c:1109-1170 | 1 exactly if the key bytes encode no point, otherwise that verdict |
| Ecdsa.NonceFromR | lib/trezor-crypto/ecdsa.c:1056-1106 | The point with x coordinate r, or r + order, and the parity asked for; failure exactly if there is none |
| Ecdsa.RecoverPubFromSig | lib/trezor-crypto/ecdsa.c:1056-1106 | 04, x and y of the key that section 4.1.6 of SEC 1 singles out, or 1 and an unchanged buffer exactly if there is none |
| Ecdsa.IssuedIsGood | lib/trezor-crypto/ecdsa.c:683-787 | On bytes: what signing hands out is accepted by verification, and recovery with the byte that came along leads to the signer's key and no other |
| Der.EcdsaSigToDer | lib/trezor-crypto/ecdsa.c:1215-1272 | The DER sequence of two minimal INTEGERs, at most 72 bytes |
| Der.EcdsaSigFromDer | lib/trezor-crypto/ecdsa.c:1276-1331 | 0 and the signature exactly for the outputs of ecdsa_sig_to_der; 1 only if no signature has that encoding |
| Der.GetInteger | lib/trezor-crypto/ecdsa.c:1276-1331 | Accepts an INTEGER exactly if it is the minimal one of some 32 bytes, and stores these |
| Der.SigToDerInjective | lib/trezor-crypto/ecdsa.c:1215-1272 | Different signatures have different encodings |
| Standards.DerExamples | lib/trezor-crypto/ecdsa.c:1215-1272 | 30 44 02 20 r 02 20 s, and an octet 00 before a number with its first bit set |
| Gf128.MulAssociative | lib/trezor-crypto/aes/gf128mul.c:54-88 | The product of polynomials modulo x^128 + x^7 + x^2 + x + 1 is associative |
| Gf128.MulCommutative | lib/trezor-crypto/aes/gf128mul.c:54-88 | ... and commutative |
| Gf128.MulDistributes | lib/trezor-crypto/aes/gf128mul.c:54-88 | ... and distributes over exclusive or, with 1 as unit |
| Standards.FieldConventions | lib/trezor-crypto/aes/gf128mul.c:54-88 | x times x^127 is x^7 + x^2 + x + 1, and the first bit of a byte is its most significant one |
| GfMul.MulX1 | lib/trezor-crypto/aes/gf128mul.c:54-88 | The shift by one bit of four 32-bit units, with the table look-up for the bit shifted out, is multiplication by x |
| GfMul.MulX8 | lib/trezor-crypto/aes/gf128mul.c:54-88 | The shift by a byte with its table look-up is multiplication by x^8, in place |
| GfMul.FieldMul | lib/trezor-crypto/aes/gf128mul.c:54-88 | Byte-wise Horner evaluation is the field product, also for a = b |
| GcmSpec.GhashConcat | lib/trezor-crypto/aes/aesgcm.c:384-484 | GHASH of a concatenation is the one of the front times a power of H, plus the one of the back |
| GcmSpec.AccMul | lib/trezor-crypto/aes/aesgcm.c:209-321 | A byte-wise accumulator with its multiplication pending completes to GHASH of the padded blocks |
| Gcm.Absorb | lib/trezor-crypto/aes/aesgcm.c:209-321 | From any position in a block and on both alignment branches, absorbing a piece gives the accumulator of everything absorbed so far |
| Gcm.IncCtr | lib/trezor-crypto/aes/aesgcm.c:323-382 | The byte-wise increment is inc_32 of section 6.2 of NIST SP 800-38D |
| Gcm.Crypt | lib/trezor-crypto/aes/aesgcm.c:323-382 | A piece of text at any offset and on both alignment branches is encrypted as that part of the whole text: byte i under the block of J0 whose last word is raised by i / 16 + 1 |
| GcmCounter.CounterSpelled | lib/trezor-crypto/aes/aesgcm.c:94-97 | Counter block n is J0 with its last four bytes, as a number, raised by n modulo 2^32 |
| GcmCounter.TwelveBytes | lib/trezor-crypto/aes/aesgcm.c:161-207 | With an iv of twelve bytes the first block of text is encrypted under iv, 0, 0, 0, 2, the next under 3, and so on |
| GcmCounter.MaskNotInStream | lib/trezor-crypto/aes/aesgcm.c:323-484 | The block that masks the tag is encrypted for no byte of the text before the counter comes round at block 2^32, and no two blocks of text share one |
| GcmSpec.GctrConcat | lib/trezor-crypto/aes/aesgcm.c:323-382 | Encrypting in pieces is encrypting in one |
| AesGcm.MulPower | lib/trezor-crypto/aes/aesgcm.c:130-159 | Square-and-multiply gives hdr times H^n |
| AesGcm.AddLengths | lib/trezor-crypto/aes/aesgcm.c:384-484 | The lengths in bits are added byte by byte at their places in the last block |
| AesGcm.HashIv | lib/trezor-crypto/aes/aesgcm.c:161-207 | J0 of section 7.1, with the bit count of the iv as the code computes it |
| GcmSpec.TruncatedIs | lib/trezor-crypto/aes/aesgcm.c:161-207 | That bit count is right if and only if the iv is shorter than 2^29 bytes |
| AesGcm.Context.InitMessage | lib/trezor-crypto/aes/aesgcm.c:161-207 | A fresh message with J0 for the iv; an error for an empty iv |
| AesGcm.Context.AuthHeader | lib/trezor-crypto/aes/aesgcm.c:209-264 | The header so far is extended by the piece |
| AesGcm.Context.AuthData | lib/trezor-crypto/aes/aesgcm.c:266-321 | The authenticated text so far is extended by the piece |
| AesGcm.Context.CryptData | lib/trezor-crypto/aes/aesgcm.c:323-382 | The piece is encrypted at the running offset |
| AesGcm.Context.ComputeTag | lib/trezor-crypto/aes/aesgcm.c:384-484 | However header and text were split into calls, the tag from the two accumulators and the code's block count; a warning or error if the counts of encrypted and authenticated bytes differ |
| AesGcm.WrappedIs | lib/trezor-crypto/aes/aesgcm.c:384-484 | The 32-bit block count is right if and only if the text has at most 2^32 - 16 bytes |
| AesGcm.TagIsRight | lib/trezor-crypto/aes/aesgcm.c:384-484 | Up to that size of text the code's tag is MSB_t(GCTR(J0, GHASH(header, text, lengths))) of section 7.1, and no other |
| GcmCounter.TagSpelled | lib/trezor-crypto/aes/aesgcm.c:384-484 | That tag is the GHASH of the padded header, the padded ciphertext and their lengths in bits, masked with the encryption of J0 |
| AesGcm.Context.EncryptMessage | lib/trezor-crypto/aes/aesgcm.c:514-530 | The ciphertext and the code's tag, with header and text on one or two alignments; for a twelve-byte iv byte i is encrypted under the iv and 2 + i / 16 |
| AesGcm.Context.DecryptMessage | lib/trezor-crypto/aes/aesgcm.c:532-551 | The plaintext, and GOOD if and only if the tag is the one encryption makes for the ciphertext received |
| AesGcm.SealedOpens | lib/trezor-crypto/aes/aesgcm.c:514-551 | What encryption made, decryption accepts and turns back into the message |
| Rlp.RlpDecode | src/protocol/eth_tx.c:19-51 | Header, kind, content and length of an item as the code reads them, 32-bit truncation of declared lengths and signed comparison included |
| Rlp.DecodePrefix | src/protocol/eth_tx.c:19-51 | What an item takes up does not depend on what follows it |
| Rlp.DecodePutStr | src/protocol/eth_tx.c:19-74 | An encoded string decodes to itself, whatever follows |
| Rlp.RlpPutStr | src/protocol/eth_tx.c:61-74 | The encoding of the string, of all lengths below 2^32, and nothing else in the buffer changes |
| Rlp.RlpPutInt | src/protocol/eth_tx.c:78-82 | The encoding of the number without leading zeros |
| Rlp.RlpPutListHdr | src/protocol/eth_tx.c:85-92 | The header of a list of that length |
| Standards.RlpStrings | src/protocol/eth_tx.c:61-74 | Encodings of Appendix B of the Yellow Paper: short, empty and single-byte strings, 56 and 1024 bytes |
| Standards.RlpLists | src/protocol/eth_tx.c:85-92 | List headers at both sides of 55 bytes |
| Rlp.U64ToBe | src/protocol/eth_tx.c:95-101 | The minimal big-endian bytes of a 64-bit number |
| Rlp.PutStrShort | src/protocol/eth_tx.c:19-74 | A string is never longer re-encoded than as the item it was read from |
| EthTx.EthTxParse | src/protocol/eth_tx.c:116-209 | The parser's loops compute Parse: kind, chain id, and where each field lies |
| EthTx.PrefixFree | src/protocol/eth_tx.c:116-209 | No accepted transaction is a proper prefix of another |
| EthSighash.EthTxSighash | src/protocol/eth_tx.c:211-262 | The hash of the canonical encoding of the fields to be signed, built in two fixed buffers, whenever the fields lie in the transaction and the encoding in the buffers |
| EthReadBack.PreimageReadsBack | src/protocol/eth_tx.c:211-262 | What is hashed, read with the parser's own walk, holds the signed items of the transaction in its order: numbers by value, destination, data and access list byte for byte, chain id of EIP-155 and two empty strings at the end; for typed transactions if and only if the access list is an item of its own |
| EthReadBack.ClippedNotRead | src/protocol/eth_tx.c:26-66 | The failing input of 29 bytes: an access list whose declared length turns negative is accepted and cut off inside its header |
| EthFits.LegacyFields | src/protocol/eth_tx.c:116-209 | The fields of a parsed legacy transaction are its items by position |
| EthFits.TypedFields | src/protocol/eth_tx.c:116-209 | The fields of a parsed EIP-1559 transaction are its items by position |
| EthFits.FitsExactly | src/protocol/eth_tx.c:116-262 | An accepted transaction can be encoded inside the two buffers if and only if no signed item declares 2^31 bytes or more and not every signed item is a list with as long a header as possible in a transaction of 2048 bytes |
| EthFits.SmallFits | src/protocol/eth_tx.c:116-262 | Below 2048 bytes the declared lengths alone decide |
| EthFits.FullDoesNotFit | src/protocol/eth_tx.c:211-262 | The failing input of 2048 bytes: what has to be hashed is longer than the buffer with its 16 spare bytes |
| EthFits.HugeDoesNotFit | src/protocol/eth_tx.c:19-66 | The failing input of 25 bytes: a nonce of 2^32 - 1 declared bytes is accepted and does not lie in the transaction |
| EthSighash.PreimageInjective | src/protocol/eth_tx.c:216-262 | Equal signing bytes mean equal kind, chain id, nonce, fees, gas limit, destination, value, data and access list, numbers up to leading zeros |
| WalletHandlers.ParsePath | src/app/wallet_handlers.c:47-64 | 21 bytes and the index exactly for m/44'/60'/0'/0/index, else -1 |
| WalletHandlers.CutDoesNotMatter | src/app/wallet_handlers.c:105-136 | From an idle slot, any cut of an accepted transaction into chunks is put up for review exactly at the last chunk, with the same fields, index and signing hash as in one piece |
| WalletHandlers.VByteTells | src/app/wallet_handlers.c:155-159 | The byte is the low byte of v (EIP-155, its predecessor, or the parity), and with the chain id known it determines v |
| WalletHandlers.VTellsChain | src/app/wallet_handlers.c:155-159 | The parser reads the chain id back from v: 27 and 28 without one, 37 and 38 for chain id 1 |
| WalletHandlers.Handlers.Reset | src/app/wallet_handlers.c:21-28 | Nothing pending, nothing collected, hash and account cleared; transaction and index stay |
| WalletHandlers.Handlers.SignTx | src/app/wallet_handlers.c:105-136 | One chunk changes slot, transaction, hash, index and buffer as SignStep says, on every error path as well |
| WalletHandlers.Handlers.GetPubkey | src/app/wallet_handlers.c:72-101 | The answer, or a deferred confirmation with the derived account, or the error for a bad path or a locked wallet |
| WalletHandlers.Handlers.Approve | src/app/wallet_handlers.c:163-192 | The signature with its v byte, or the address confirmed; the slot is settled also when signing fails, and stays when the address does not fit |
| WalletHandlers.Handlers.Reject | src/app/wallet_handlers.c:194-200 | 0x6985, and the slot is settled |
| Standards.HexExample | src/app/wallet_handlers.c:30-40 | Addresses are spelled in lower-case hexadecimal, the high half of a byte first |
| HidFrame.Receiver.Receive | src/protocol/hid_frame.c:18-68 | One report changes the receiver as Step says; the buffer is never overrun |
| HidFrame.StepSound | src/protocol/hid_frame.c:18-68 | Every delivered message has 4 to 255 bytes |
| HidFrame.Send | src/protocol/hid_frame.c:71-104 | The 64-byte reports of a response, none for an empty or oversized one |
| HidFrame.Delivery | src/protocol/hid_frame.c:18-104 | From any receiver state, with reports (of at least 5 bytes) of other channels or tags anywhere between them, the reports of a message give NEED_MORE until the last and then exactly that message |
| HidFrame.DeliveryIsRun | src/protocol/hid_frame.c:18-68 | On any stream every delivery is the payload of the latest unbroken run 0..m, cut to the announced length |
| HidFrame.OneReport | src/protocol/hid_frame.c:18-68 | 01 01 05 00 00, the length in two bytes and a message of at most 57 bytes is that message |
| HidFrame.TwoReports | src/protocol/hid_frame.c:18-68 | A longer one goes on after 01 01 05 00 01 |
| HidFrame.LongRefused | src/protocol/hid_frame.c:18-68 | A length of 256 is refused |
| HidFrame.FrameStarts | src/protocol/hid_frame.c:71-104 | Reports that are sent start with the same bytes |
| Sha2Compress.RingStep | lib/trezor-crypto/sha2.c:780-847 | The word sixteen steps back is overwritten by W_t: the ring stays the last sixteen words of the schedule |
| Sha2Compress.Transform | lib/trezor-crypto/sha2.c:780-847 | The ring schedule and the rounds compute the compression of sections 6.2.2 and 6.4.2 of FIPS 180-4, also when the output is an input |
| Standards.RoundRecurrence | lib/trezor-crypto/sha2.c:780-847 | In a round only a and e are new: T_1 + T_2 and d + T_1 as FIPS 180-4 has them, the others move on |
| Sha2Words.Transform | lib/trezor-crypto/sha2.c:780-847 | The same on words in little-endian memory: the contract of Sha2.Transform for the algorithm with these rounds |
| Sha2Words.DigestedIs | lib/trezor-crypto/sha2.c:780-847 | Read back as numbers, the words the transform leaves are those of the compression function |
| Sha2Words.RoundsProper | lib/trezor-crypto/sha2.c:780-847 | The algorithm with these rounds is one of those the contexts, HMAC and PBKDF2 are proved for |
| Sha2.AddInc128 | lib/trezor-crypto/sha2.c:106-111 | The count in two 64-bit words plus n, modulo 2^128 |
| Sha2.CountUsed | lib/trezor-crypto/sha2.c:859-859 | The lower word of the count, wrapped around or not, gives the place in the block |
| Sha2.CountBits | lib/trezor-crypto/sha2.c:943-944 | The wrapped count spells the length field of the standard |
| Sha2.Context.Update | lib/trezor-crypto/sha2.c:851-907 | However the message is split, the context stands for everything absorbed |
| Sha2.Context.Final | lib/trezor-crypto/sha2.c:909-961 | The digest of section 6 of FIPS 180-4, one or two padded blocks as needed; also from a midstate |
| Sha2Spec.MidState | lib/trezor-crypto/sha2.c:692-699 | Hashing on from the chaining value after whole blocks is hashing the concatenation |
| Sha2Spec.HashOneBlock | lib/trezor-crypto/hmac.c:70-102 | A message whose rest fits one block is hashed by one compression of the padded block |
| Standards.OneBlockHash | lib/trezor-crypto/sha2.c:909-961 | A short message is compressed followed by 0x80, zeros and its length in bits |
| HmacSha2.HmacContext.Update | lib/trezor-crypto/hmac.c:48-51 | The message so far is extended |
| HmacSha2.HmacContext.Final | lib/trezor-crypto/hmac.c:53-60 | HMAC of section 2 of RFC 2104 over the message, keys longer than a block hashed first |
| HmacSha2.Prepare | lib/trezor-crypto/hmac.c:70-102 | The two words arrays are the midstates after the inner and the outer key pad |
| Sha2Spec.HmacFromMidstates | lib/trezor-crypto/hmac.c:70-102 | HMAC is the inner hash from one midstate and a single compression from the other |
| Standards.HmacEquation | lib/trezor-crypto/hmac.c:29-60 | Section 2 of RFC 2104: the hash of the key with 0x5c and the hash of the key with 0x36 and the message |
| Pbkdf2.Pbkdf2Context.Init | lib/trezor-crypto/pbkdf2.c:105-132 | After the setup g holds U_1, f the sum, and the padding words are in place |
| Pbkdf2.Pbkdf2Context.Iterate | lib/trezor-crypto/pbkdf2.c:134-144 | Two compressions give the next U, and f its sum with the others |
| Pbkdf2.Pbkdf2Context.Update | lib/trezor-crypto/pbkdf2.c:134-144 | The iterations done, where the first call counts the one that Init has done |
| Pbkdf2.Pbkdf2Context.Final | lib/trezor-crypto/pbkdf2.c:146-154 | U_1 xor ... xor U_c |
| Pbkdf2.UpdateAll | lib/trezor-crypto/pbkdf2.c:134-144 | The iterations done after any list of calls on a fresh context |
| Pbkdf2.SplitCounts | lib/trezor-crypto/pbkdf2.c:134-144 | However the count is split over calls, as many iterations are done as in one call, if and only if the first call is not empty or all are |
| Pbkdf2.EmptyFirstCall | lib/trezor-crypto/pbkdf2.c:134-144 | The failing input: an empty call and one of a single iteration do two |
| Pbkdf2.Derive | lib/trezor-crypto/pbkdf2.c:156-179 | The derived key of section 5.2 of RFC 8018 for every password, salt and key length; no iterations count as one; with a single iteration block i is the HMAC of the salt and i in four bytes |
| Pbkdf2.BlockIs | lib/trezor-crypto/pbkdf2.c:105-144 | Block i is the HMAC of the salt and i in four bytes, most significant first, for one iteration, and that combined with the HMAC of it for two |
| Bip39Seed.MnemonicToSeed | lib/trezor-crypto/bip39.c:195-242 | The seed is PBKDF2 with 2048 iterations, made in sixteen calls, over the phrase, salted with mnemonic and at most 256 bytes of the passphrase |
| HmacDrbg.FastBlock | lib/trezor-crypto/hmac_drbg.c:28-79 | The padding words of the fast path make up the block for V || 00 |
| HmacDrbg.Drbg.UpdateK | lib/trezor-crypto/hmac_drbg.c:28-79 | K = HMAC_K(V || domain || data) on the fast and on the slow path, and the value block is restored |
| HmacDrbg.Drbg.UpdateV | lib/trezor-crypto/hmac_drbg.c:81-84 | V = HMAC_K(V) by two compressions |
| HmacDrbg.Drbg.Init | lib/trezor-crypto/hmac_drbg.c:86-106 | Steps b to g of section 3.2 of RFC 6979 |
| HmacDrbg.Drbg.Reseed | lib/trezor-crypto/hmac_drbg.c:108-115 | K and V updated with the entropy and the additional input, twice if there is any |
| HmacDrbg.Drbg.Generate | lib/trezor-crypto/hmac_drbg.c:117-130 | As many values V as the buffer needs, one after the other, then the key is updated |
| HmacDrbg.GenerateCandidate | lib/trezor-crypto/rfc6979.c:51-53 | Candidate number n of section 3.2 of RFC 6979, and the state before the next |
| Standards.FirstCandidates | lib/trezor-crypto/rfc6979.c:30-53 | Section 3.2 of RFC 6979, steps b to h: the first two candidates as chains of HMAC values |
| Rfc6979.Init | lib/trezor-crypto/rfc6979.c:30-48 | The state for the private key and the hash reduced modulo the order |
| Rfc6979.GenerateK | lib/trezor-crypto/rfc6979.c:57-62 | The next candidate as a normalized number |
| Base58.DigitsSuffice | lib/trezor-crypto/base58.c:149-186 | 256^n <= 58^(138 n / 100 + 1) for every n: the digit buffer is long enough |
| Base58.AddByte | lib/trezor-crypto/base58.c:149-186 | The inner loop multiplies the digits by 256 and adds a byte; the carry is 0 whenever the loop stops at index 0 |
| Base58.EncodeInto | lib/trezor-crypto/base58.c:149-186 | The encoding and a terminator, or the size needed and an untouched buffer, exactly as the capacity allows |
| Base58.DecodeInto | lib/trezor-crypto/base58.c:53-129 | The bytes at the end of the buffer exactly if the string is well-formed and its bytes fit; a carry out of the limbs, the mask on the first limb and the count of leading ones tell that |
| Base58.MulAdd | lib/trezor-crypto/base58.c:53-129 | The limb loop multiplies by 58 and adds a digit, with the carry that does not fit |
| Base58.FirstLimb | lib/trezor-crypto/base58.c:53-129 | The mask test on the first limb is the test whether the number needs more than the bytes of the buffer |
| Base58.DecodeEncode | lib/trezor-crypto/base58.c:53-186 | Decoding an encoding gives the bytes back, leading zeros included |
| Base58.EncodeDecode | lib/trezor-crypto/base58.c:53-186 | Every well-formed string is the encoding of what it decodes to |
| Base58.SymbolsAndDigits | lib/trezor-crypto/base58.c:32-45 | The symbols are those of the alphabet in order; the digit table inverts them and refuses every other character |
| Standards.Base58Examples | lib/trezor-crypto/base58.c:149-186 | 58 is 21, a zero byte is 1: most significant digit first |
| Bip39.FromData | lib/trezor-crypto/bip39.c:56-88 | The phrase of entropy and checksum for the five legal lengths, within 240 characters; nothing for other lengths |
| Bip39.FindWord | lib/trezor-crypto/bip39.c:249-264 | The word of the list that stands at the place, terminator included; -1 if there is none |
| Bip39.ToBits | lib/trezor-crypto/bip39.c:92-170 | The indices of the words packed into 33 bytes exactly if the string is a phrase of 12, 15, 18, 21 or 24 words of the list, single spaces between them; else 0 and an untouched buffer |
| Bip39.Check | lib/trezor-crypto/bip39.c:172-192 | Accepts a string exactly if it is the phrase that mnemonic_from_data makes from some 16, 24 or 32 bytes |
| Bip39.ReadBack | lib/trezor-crypto/bip39.c:56-170 | Reading back the phrase of d gives d, its checksum bits and zeros, for every legal length |
| Bip39.MadeButRefused | lib/trezor-crypto/bip39.c:56-192 | A phrase made by mnemonic_from_data passes mnemonic_check if and only if the entropy has 16, 24 or 32 bytes |
| Bip39Spec.JoinInjective | lib/trezor-crypto/bip39.c:92-170 | A phrase is made of one sequence of words only |
| Bip39Spec.MnemonicInjective | lib/trezor-crypto/bip39.c:56-88 | Different entropy, different phrase |
| Standards.FirstIndex | lib/trezor-crypto/bip39.c:56-88 | The first index is the first eleven bits of the entropy, most significant first |
| Standards.LastIndex | lib/trezor-crypto/bip39.c:56-88 | The checksum bits end the last index |
| Bip32Cache.CachedIsPlain | lib/trezor-crypto/bip32.c:372-440 | From every sound cache: status, node and fingerprint of plain derivation, and a sound cache afterwards |
| Bip32Cache.HistoryIsPlain | lib/trezor-crypto/bip32.c:365-440 | The same after any history of calls and clears; without a fingerprint the node is that of single steps along the path |
| Bip32Cache.FingerprintOfParent | lib/trezor-crypto/bip32.c:372-440 | The fingerprint is that of the parent, asked for before the last step, and asking for it does not change the node |
| Bip32Cache.RingKeepsTen | lib/trezor-crypto/bip32.c:372-440 | A parent once derived serves the next ten calls for the same root, whatever their paths, with a single step each |
| Bip32Cache.Cache.PrivateCkd | lib/trezor-crypto/bip32.c:372-440 | In place: the cache changes as Cached says and the outcome is that of plain derivation |
| Bip32Cache.Cache.Clear | lib/trezor-crypto/bip32.c:365-370 | The empty cache without a root |
| LockProtocol.RegisterFinds | src/protocol/apdu.c:22-38 | A registered handler is the one found and no other instruction is affected; only a new one beyond the eighth is ignored |
| LockProtocol.CommandSafe | src/protocol/apdu.c:75-110 | A command keeps the invariant and touches neither lock, screen nor seed; while locked it changes nothing at all |
| LockProtocol.NextSafe | src/main.c:529-677 | Every command, poll and button event keeps the invariant |
| LockProtocol.AlwaysSafe | src/main.c:529-677 | On every run: locked means nothing pending or half received, unlocked means a seed is cached, the six open screens are shown exactly while unlocked, and the two screens that ask for approval only while a request is pending |
| LockProtocol.BackupInRange | src/main.c:370-383 | The backup page never shows a word beyond the twenty-fourth |
| LockProtocol.OnlyPinUnlocks | src/main.c:566-618 | The lock opens only for the stored PIN with a seed at hand, or for a new PIN entered twice and a wallet of 24 words set up |
| LockProtocol.OnlyMenuLocks | src/main.c:636-649 | It closes only from the home menu, and then the seed is gone and nothing is pending |
| LockProtocol.BackupOnlyAtSetup | src/main.c:594-606 | The backup words come on the screen only right after a new PIN was entered twice and a wallet of 24 words set up |
| LockProtocol.OnlyButtonsSettle | src/main.c:544-669 | A pending request is settled only by holding center on the review, center or left on the address, left on the review, or by locking on the home screen |
| LockProtocol.LoopSettles | src/main.c:533-669 | On every run that polls before each button: a request is pending exactly if one of the deciding screens is shown, and it ends only by approval or rejection there; locking cannot drop it |
| LockProtocol.AnswersOfRequests | src/main.c:533-669 | On every run: left on a deciding screen sends 0x6985 and nothing else; center on the address and center held on the review send the key and address or the signature; no other event sends anything for a request |
| LockProtocol.MatchesExactly | src/main.c:533-541 | On every run the screen shown is the one for the kind of the request exactly if commands have replaced the kind an even number of times since it came up |
| LockProtocol.ApprovedAsShown | src/main.c:545-661 | While it is, a transaction is signed only by holding center on the review and an address sent only by center on the address; otherwise it is the other way round |
| LockRuns.SignedOnAddressScreen | src/main.c:533-661 | A run on which the property fails: an address is shown, a transaction arrives, and a short press of center signs it |
| LockProtocol.PinModeFits | src/main.c:556-562 | On every run the stored PIN is asked for exactly if there was a wallet when the splash screen was left |
| LockProtocol.SetupOnlyWhenBlank | src/main.c:556-617 | On every run a wallet is set up only on a device that held none |
| LockProtocol.WrongPin | src/main.c:572-586 | A wrong PIN leaves everything locked, and leads to the wiped screen only if the storage was wiped |
| LockProtocol.KeyOnRequest | src/app/wallet_handlers.c:72-101 | With an odd P1 the key waits for approval on the device, otherwise it is sent at once, as 41 key 28 address 9000 |
| LockProtocol.CommandPends | src/usb/hid_callbacks.c:94-112 | A command cannot take a pending request away, and gets no answer while one is pending |
| LockProtocol.LockedAnswersAlike | src/protocol/apdu.c:75-110 | While locked, the answer to a command depends on the command alone |
| MainLoop.Gate.Register | src/protocol/apdu.c:22-28 | The route table changes as Register says |
| MainLoop.Gate.FindHandler | src/protocol/apdu.c:34-38 | The handler of the first route for the instruction |
| MainLoop.Firmware.constructor | src/usb/hid_callbacks.c:46-58 | Locked, three routes, nothing pending, the splash screen |
| MainLoop.Firmware.SetLocked | src/usb/hid_callbacks.c:68-71 | The gate, and on locking everything in flight is dropped |
| MainLoop.Firmware.Dispatch | src/protocol/apdu.c:75-110 | Answer and state of apdu_dispatch as the transition system has them, in the code's order of checks |
| MainLoop.Firmware.Command | src/usb/hid_callbacks.c:94-112 | The answer is held back exactly while an approval is pending |
| MainLoop.Firmware.Poll | src/main.c:533-541 | A deferred approval takes over the screen |
| MainLoop.Firmware.PinEntered | src/main.c:572-617 | The three PIN modes with all outcomes of storage, unlocking and provisioning |
| MainLoop.Firmware.Press | src/main.c:555-675 | Every screen's reaction to a short press, and the bytes it queues for the host |
| MainLoop.Firmware.LongPress | src/main.c:545-553 | Hold to sign: only on the review screen, with the bytes it queues |
| MainLoop.Firmware.Approve | src/usb/hid_callbacks.c:73-76 | The pending request is settled and its answer queued |

## Left out

Hypotheses and parameters of the model:

- The group law of the curve (associativity, chords and tangents, odd prime order), the primality of its constants and Fermat's little theorem are hypotheses, collected in `CurveGroup.CurveLaw`.
- Random numbers (blinding factors, Jacobian masks) are parameters in their documented range; nothing is said about their quality.
- The AES block cipher, Keccak, the six logical functions and the constants of SHA-2, one BIP-32 derivation step, key derivation in the wallet and the BIP-39 word list (2048 distinct space-free words of 1 to 8 letters) are parameters.
- Storage, entropy mixing and provisioning enter `LockProtocol` as the outcomes of a button event; the digits of a PIN are what the PIN screen confirms.

Narrower than the sources:

- EthSighash.EthTxSighash: says nothing when a signed field lies outside the transaction or the encoding outside the buffer, where the C code has no defined behaviour; `EthFits.FitsExactly` says for which accepted transactions that is.
- WalletHandlers.Handlers.SignTx: leaves the same transactions out.
- MainLoop.Firmware.Dispatch: leaves them out for a SIGN_TX while unlocked.
- MainLoop.Firmware.Command: leaves them out for a SIGN_TX while unlocked.
- WalletHandlers.CutDoesNotMatter: starts from an idle slot.
- LockProtocol.ApprovedAsShown: tells requests apart by kind only; the text on the screen is not modelled, so a transaction that replaces another one while that is reviewed is not noticed.
- BignumMod.MultK: k up to 8, as the comment of bn_mult_k demands.
- AesGcm.Context.AuthHeader: header totals of 2^32 bytes and more, where the 32-bit counter hdr_cnt wraps around, are left out.
- AesGcm.Context.AuthData: text totals of 2^32 bytes and more, where the 32-bit counter txt_acnt wraps around, are left out.
- AesGcm.Context.CryptData: text totals of 2^32 bytes and more, where the 32-bit counter txt_ccnt wraps around, are left out.
- AesGcm.Context.EncryptMessage: headers and messages of 2^32 bytes and more are left out, as in the three calls it makes.
- AesGcm.Context.DecryptMessage: headers and messages of 2^32 bytes and more are left out, as in the three calls it makes.
- Bip39Seed.MnemonicToSeed: without the cache in front, which only stores earlier results.
- Bip32Cache.Cache.PrivateCkd: nodes are compared as values; padding bytes inside the structure, which could only turn a hit into a miss, are not modelled.
- Bip39.FindWord: the constant-time comparison and selection are an ordinary comparison and assignment.
- Gcm.Absorb: the 32-bit unit build is modelled; the 64-bit build differs in the size of a unit only.

Not modelled:

- Constant-time behaviour, wiping of memory and the interiors of rendering and text layout.
- Hardware access: flash, I2C, the secure element, display, buttons, USB descriptors, clocks and fault handlers.
- The precomputed-table variant of scalar_multiply, the disabled variants of bn_inverse, table-driven GHASH variants and the unrolled SHA-2 transforms.
- Other modes and digests (CTR, CFB, OFB, CCM, SHA-1, SHA-3, RIPEMD), `bn_format`, bn_read_le and bn_write_le, addresses, WIF, extended keys and their serialization.
- base58_encode_check, base58_decode_check and b58check: they add a hash comparison to the two functions modelled.
- The seed cache of bip39.c and mnemonic completion; the PIN wheel, the storage fail counter and debouncing.
- Header-only or absent parts of the library (Noise, Shamir, SLIP-39, NEM, Cardano, curve25519 field arithmetic) are not part of this model.
