# Verified models of the Kite plugins

Dafny models of the four hardest parts of this repository, with proofs about them. Each method follows the loops and
branches of the TypeScript code it models and is proved against a function of its inputs; the lemmas then prove what
that function means.

**The Rescue cipher** (`kit-plugin-arcium`). The field is the integers modulo an arbitrary prime `p`; `IsPrime(p)` is a
precondition, and Fermat's theorem, inverses and Euclid's lemma are proved from it. The bit width `binSize`, the number
of rounds and the round constants are parameters.

- `ConstantTime`, `Bits`: the two's-complement bit unit. It computes in the signed range modulo 2^n for *all* integers.
- `FieldEncoding`: range guards, signed encoding and decoding.
- `Matrices`: the matrix class. `Determinant`, `Laplace`, `DeterminantTheorems`: elimination against the Laplace expansion.
- `Interpolation`, `Cauchy`: the closed-form inverse of the Cauchy matrix, from divided differences.
- `MaximumDistance`: no square submatrix of the Cauchy matrix is singular.
- `RescuePermutation`, `RescueConstants`, `RescueDescription`: the permutation, its separately written inverse, the round
  constants, and the constructor.
- `RescueHash`, `RescueCipher`, `RescueKey`: padding and sponge, the counter-mode cipher, and the cipher for a secret.
- `SquareRoots`, `Ed25519Root`: the square root of section 5.1.3 of RFC 8032, for any prime 8e + 5 and then for
  p = 2^255 - 19, with its addition chain.
- `LittleEndian`: the byte serializers of both plugins.
- `ModArith`, `PrimeField`, `Sums`: the number theory they share.

**The TukTuk transaction compiler and slot allocator** (`TukTukCompiler`, `TukTukRoundTrip`, `TukTukOrder`, `TaskSlots`):
deduplication, stable role sort, header and indices, an independent reader of the compiled form, the account list in
terms of the instructions, and the bitmap search.

**The circuit upload planner** (`UploadPlan`, `UploadRuns`, `UploadTheorem`, `UploadInstruction`): splitting, growing,
chunked writes that complete in any order as a state machine over completed writes, the lengths for which this succeeds,
and the layout of one instruction.

**The Pyth accumulator parser and Borsh printer** (`PythAccumulator`, `PythRoundTrip`, `PythAcceptance`,
`PythPostUpdate`): a cursor parser against a wire encoder, exactly what it accepts, and the instruction data.

`ByteBuffers`, `ByteReaders` and `Pieces` hold what the byte formats share.

## Where the code does less than one might expect

Each of these is a theorem: what the code does, and the exact condition under which it does what one would hope for.

- The determinant has the right sign only when the row reorderings are even or the matrix is singular (`WhenSignIsRight`;
  `SignLost` shows a matrix on which it is wrong). A matrix of one row passes the squareness test whatever its length (`Det`).
- The checked serializer does not refuse negative values (`SerializeChecked`).
- Over the Curve25519 base field the secret is read as one number modulo p, so secrets below p are told apart
  (`SmallSecretsDiffer`), but a secret has a twin exactly if it reaches p or stays below 2^256 with p added
  (`BaseFieldSecrets`); for this p that is every secret (`EverySecretHasTwin`). Twins have the same digest, hence the
  same key and the same cipher (`SameResiduesSameCipher`; `TwoSecretsOneKey` for the secrets 0 and p). The comment in
  the source promises an injective map only for other fields, where it holds (`ChunksInjective`).
- Encoding a signed integer and decoding it again is the identity exactly for |v| <= (p - 1) / 2 (`EncodeThenDecode`).
- The transaction compiler keeps the privileges of the first mention of an account (`PositionTellsFirstRole`,
  `FirstPassedRole`; later ones are lost in `LaterPrivilegesLost` within one instruction and in
  `LaterInstructionLosesPrivileges` across two) and stores account indices in a byte (`CompileDecompileAddresses`; one
  is lost in `TooManyAccounts`).
- The slot search ignores the capacity of the queue (`CapacityRespectedIff`; exceeded in `CapacityExceeded`), and a
  two-byte seed names a slot only below 65536 (`SeedsCollideIff`).
- The last resize transaction of a part may be empty (`LastResizeEmptyIff`; it is in `EmptyResize`).
- Accounts are grown to the size of their part, without the nine bytes of their header, and are numbered with one byte.
  So an upload of a length always succeeds exactly if the length needs at most 256 accounts and its last part does not
  end in the last nine bytes of a grow step (`UploadSucceedsIff`; 10232 bytes are too many in `FirstBadLength`, and the
  257th part meets the first in `OrderMatters`).
- The accumulator parser accepts a message that ends inside its last proof (`AcceptedIff`; `CutAccepted` is one). It
  returns everything else unchanged, and some node of that proof is then short (`CutMessage`, `StopsInsideIff`). The
  printer fills short nodes with zeros (`ReadOfAny`), so a price is posted unchanged exactly if its nodes are full
  (`ParsedPricePosts`; one is not in `CutPriceChanges`).

## Model

| member | source | states |
|---|---|---|
| ConstantTime.ToBinLE | kit-plugin-arcium/src/lib/rescue-cipher.ts:98-104 | the n lowest bits of any integer, least significant first |
| ConstantTime.UnsignedOfBits | kit-plugin-arcium/src/lib/rescue-cipher.ts:98-104 | read as an unsigned number these bits are the residue modulo 2^n, for negative integers as well |
| ConstantTime.FromBinLE | kit-plugin-arcium/src/lib/rescue-cipher.ts:110-116 | the value of a bit list in two's complement, built up with shifts and bitwise or |
| ConstantTime.FromBitsIsWrap | kit-plugin-arcium/src/lib/rescue-cipher.ts:110-116 | that value is the representative in [-2^(n-1), 2^(n-1)) of the unsigned value |
| ConstantTime.Adder | kit-plugin-arcium/src/lib/rescue-cipher.ts:125-138 | the sum bits are the exact sum of operands and carry-in, less 2^n when it overflows |
| ConstantTime.AdderConserves | kit-plugin-arcium/src/lib/rescue-cipher.ts:125-138 | at every position: operands plus carry-in equal the sum bits plus the weighted carry-out |
| ConstantTime.WrapUnique | kit-plugin-arcium/src/lib/rescue-cipher.ts:146-165 | there is exactly one number in the signed range in each residue class modulo 2^n |
| ConstantTime.CtAddIsWrap | kit-plugin-arcium/src/lib/rescue-cipher.ts:146-149 | for all integers: the unique number in the signed n-bit range congruent to x + y modulo 2^n |
| ConstantTime.CtSubIsWrap | kit-plugin-arcium/src/lib/rescue-cipher.ts:157-165 | for all integers: the unique number in the signed n-bit range congruent to x - y modulo 2^n |
| ConstantTime.CtLtIsExact | kit-plugin-arcium/src/lib/rescue-cipher.ts:172-184 | the comparison is the sign of the wrapped difference, hence exact whenever x - y fits |
| ConstantTime.CtSelectIsWrap | kit-plugin-arcium/src/lib/rescue-cipher.ts:193-195 | selection returns the chosen operand whenever that operand fits, even if the inner subtraction wraps |
| ConstantTime.VerifyBinSizeIsRange | kit-plugin-arcium/src/lib/rescue-cipher.ts:204-207 | the test accepts exactly -2^k <= x < 2^k |
| FieldEncoding.EncodeGuardExact | kit-plugin-arcium/src/lib/rescue-cipher.ts:255-259 | the encoder accepts exactly the integers in [-(p-1), p-1], also where the comparison wraps |
| FieldEncoding.EncryptGuardExact | kit-plugin-arcium/src/lib/rescue-cipher.ts:997-999 | encryption accepts exactly the integers in [0, p) |
| FieldEncoding.EncodeIsResidue | kit-plugin-arcium/src/lib/rescue-cipher.ts:255-261 | an accepted integer is encoded as its residue modulo p, any other is refused |
| FieldEncoding.DecodeIsCentred | kit-plugin-arcium/src/lib/rescue-cipher.ts:278-283 | a field element decodes to its representative nearest to zero |
| FieldEncoding.EncodeThenDecode | kit-plugin-arcium/src/lib/rescue-cipher.ts:251-283 | decoding an encoding returns v exactly when the absolute value of v is at most (p-1)/2 |
| FieldEncoding.DecodeThenEncode | kit-plugin-arcium/src/lib/rescue-cipher.ts:251-283 | encoding a decoding is the identity on all of [0, p) |
| Matrices.NewMatrix | kit-plugin-arcium/src/lib/rescue-cipher.ts:306-316 | succeeds exactly on nonempty rectangular data, with every entry reduced |
| Matrices.MatMul | kit-plugin-arcium/src/lib/rescue-cipher.ts:320-341 | every entry is the sum of products modulo p; fails exactly on shapes that do not fit |
| Matrices.MulAssociative | kit-plugin-arcium/src/lib/rescue-cipher.ts:320-341 | the product is associative for all rectangular shapes |
| Matrices.Add | kit-plugin-arcium/src/lib/rescue-cipher.ts:345-372 | elementwise sum modulo p, the same with and without the constant-time flag |
| Matrices.Sub | kit-plugin-arcium/src/lib/rescue-cipher.ts:376-403 | elementwise difference modulo p, the same with and without the constant-time flag |
| Matrices.CtFieldAddExact | kit-plugin-arcium/src/lib/rescue-cipher.ts:361-364 | constant-time addition of field elements is addition modulo p |
| Matrices.CtFieldSubExact | kit-plugin-arcium/src/lib/rescue-cipher.ts:392-395 | constant-time subtraction of field elements is subtraction modulo p |
| Matrices.AddSubCancel | kit-plugin-arcium/src/lib/rescue-cipher.ts:345-403 | matrix addition and subtraction of one matrix undo each other |
| Matrices.PowElements | kit-plugin-arcium/src/lib/rescue-cipher.ts:407-416 | every entry is raised to e modulo p |
| Matrices.PowInverse | kit-plugin-arcium/src/lib/rescue-cipher.ts:407-416 | raising to e and then to f is the identity when e * f is 1 plus a multiple of p - 1 |
| Determinant.IsSquare | kit-plugin-arcium/src/lib/rescue-cipher.ts:460-468 | tests every row but the first |
| Determinant.Det | kit-plugin-arcium/src/lib/rescue-cipher.ts:422-459 | the elimination loop returns the product of pivots modulo p; a single row of any positive length is accepted |
| DeterminantTheorems.StepDet | kit-plugin-arcium/src/lib/rescue-cipher.ts:431-457 | one step multiplies the true determinant of the rest by the pivot and by the sign of the partition |
| DeterminantTheorems.GaussDetIsSignedDeterminant | kit-plugin-arcium/src/lib/rescue-cipher.ts:422-459 | the result is the true determinant times the sign of all row reorderings, for every square matrix |
| DeterminantTheorems.WhenSignIsRight | kit-plugin-arcium/src/lib/rescue-cipher.ts:433-456 | for an odd prime the result is the determinant exactly when the reorderings are even or the matrix is singular |
| DeterminantTheorems.SignLost | kit-plugin-arcium/src/lib/rescue-cipher.ts:433-456 | a matrix of determinant -1 on which the elimination returns 1 |
| DeterminantTheorems.StepKernel | kit-plugin-arcium/src/lib/rescue-cipher.ts:433-457 | a vector is in the kernel exactly when it is orthogonal to the pivot row and its tail is in the kernel of the rest |
| DeterminantTheorems.GaussDetZeroIffSingular | kit-plugin-arcium/src/lib/rescue-cipher.ts:422-459 | the result is zero exactly when a nonzero vector lies in the kernel |
| Laplace.DetSwap | kit-plugin-arcium/src/lib/rescue-cipher.ts:419-422 | the reference determinant changes sign when adjacent rows are swapped |
| Laplace.DetLinear | kit-plugin-arcium/src/lib/rescue-cipher.ts:419-422 | the reference determinant is linear in every row |
| PrimeField.Fermat | kit-plugin-arcium/src/lib/rescue-cipher.ts:667-681 | Fermat's little theorem, on which the exponents rest |
| RescuePermutation.GetAlphaAndInverse | kit-plugin-arcium/src/lib/rescue-cipher.ts:667-681 | the first of the fifteen primes that does not divide p - 1, with its inverse; fails exactly when all divide it |
| RescuePermutation.FirstCandidateIsLeast | kit-plugin-arcium/src/lib/rescue-cipher.ts:667-681 | that candidate is the least prime that does not divide p - 1: every prime below it divides p - 1 |
| RescueDescription.NoExponentIff | kit-plugin-arcium/src/lib/rescue-cipher.ts:670-679 | there is no exponent exactly if every prime up to 47 divides p - 1 |
| RescuePermutation.ExponentsUnique | kit-plugin-arcium/src/lib/rescue-cipher.ts:667-681 | both exponents are determined by p |
| RescuePermutation.ExponentProduct | kit-plugin-arcium/src/lib/rescue-cipher.ts:679-680 | the product of the exponents is 1 plus a multiple of p - 1 |
| Cauchy.BuildCauchy | kit-plugin-arcium/src/lib/rescue-cipher.ts:744-754 | entry (i, j) is the inverse of i + j; fails exactly when p <= 2 * size |
| Cauchy.EntryProducts | kit-plugin-arcium/src/lib/rescue-cipher.ts:763-781 | the four products of one entry as values of the node polynomials |
| Cauchy.BuildInverseCauchy | kit-plugin-arcium/src/lib/rescue-cipher.ts:762-787 | the closed-form matrix; fails exactly when p <= 2 * size |
| Cauchy.CauchyInverse | kit-plugin-arcium/src/lib/rescue-cipher.ts:744-787 | for every size m and prime p > 2m the two matrices are inverse to each other, on either side |
| MaximumDistance.CauchyIsMds | kit-plugin-arcium/src/lib/rescue-cipher.ts:508-509 | for every prime p > 2m no square submatrix of the Cauchy matrix, for any choice of rows and columns, is singular |
| MaximumDistance.SubmatrixDeterminant | kit-plugin-arcium/src/lib/rescue-cipher.ts:744-754 | the elimination returns a nonzero determinant for each of them |
| Interpolation.LowDegreeVanishes | kit-plugin-arcium/src/lib/rescue-cipher.ts:762-787 | divided differences of a polynomial of too low degree vanish modulo p |
| RescuePermutation.RescuePermutation | kit-plugin-arcium/src/lib/rescue-cipher.ts:828-843 | all intermediate states of the permutation; fails exactly on a state of the wrong shape |
| RescuePermutation.NextEntry | kit-plugin-arcium/src/lib/rescue-cipher.ts:828-843 | each entry of the next state is a row of the matrix times the powers of a column, plus the round key, modulo p; the exponent is 1/alpha in even rounds of the cipher and odd rounds of the hash, and alpha otherwise |
| RescuePermutation.RoundUndone | kit-plugin-arcium/src/lib/rescue-cipher.ts:793-814 | alpha undoes the even rounds of the cipher, the first included, and its inverse those of the hash; odd rounds the other way round |
| RescuePermutation.ForwardInjective | kit-plugin-arcium/src/lib/rescue-cipher.ts:828-843 | every intermediate state determines the state the permutation started from |
| RescuePermutation.RescuePermutationInverse | kit-plugin-arcium/src/lib/rescue-cipher.ts:844-863 | all states of the inverse, with the first one shifted out and the initial key removed last |
| RescuePermutation.RoundInverse | kit-plugin-arcium/src/lib/rescue-cipher.ts:832-858 | an inverse round with the opposite exponent undoes a round and the other way round |
| RescuePermutation.BackwardRetraces | kit-plugin-arcium/src/lib/rescue-cipher.ts:844-863 | inverse round r is in the state of forward round N - 1 - r, because the number of rounds is even |
| RescuePermutation.PermutationInverses | kit-plugin-arcium/src/lib/rescue-cipher.ts:828-863 | for every state, every odd-length subkey list and both modes, each undoes the other |
| RescuePermutation.PermuteInjective | kit-plugin-arcium/src/lib/rescue-cipher.ts:828-843 | the permutation is injective |
| RescueDescription.ToVec | kit-plugin-arcium/src/lib/rescue-cipher.ts:864-870 | a list as a column |
| RescueDescription.NewParams | kit-plugin-arcium/src/lib/rescue-cipher.ts:540-548 | the first candidate exponent with its reduced inverse, the Cauchy matrix and its closed-form inverse, which satisfy what the inversion needs; fails exactly when p is too small or has no exponent |
| RescueDescription.KeySchedule | kit-plugin-arcium/src/lib/rescue-cipher.ts:549-553 | round key r is state r of the permutation of the key under the round constants |
| RescueDescription.NewRescueDesc | kit-plugin-arcium/src/lib/rescue-cipher.ts:520-564 | the instance of the field, mode and constants, which is invertible; its exact error condition; the hash keeps its constants as round keys, and the first round key of the cipher is the key plus the first constant, modulo p |
| RescueDescription.FirstRoundKey | kit-plugin-arcium/src/lib/rescue-cipher.ts:549-553 | the first round key of any cipher instance is its key plus the first constant, entry by entry modulo p |
| RescueDescription.NextRoundKey | kit-plugin-arcium/src/lib/rescue-cipher.ts:549-553 | each later round key is the one before, raised to 1/alpha or alpha by parity, multiplied by the matrix, plus the next constant |
| RescueDescription.RoundKeyTellsKey | kit-plugin-arcium/src/lib/rescue-cipher.ts:549-553 | any single round key determines a key of field elements, so different keys give instances that differ in every round |
| RescueDescription.HashKeys | kit-plugin-arcium/src/lib/rescue-cipher.ts:555-558 | the round keys of the hash are the constants |
| RescueDescription.InstanceUnique | kit-plugin-arcium/src/lib/rescue-cipher.ts:520-564 | the field, the mode, the number of rounds and the constants determine the instance |
| RescueConstants.SampleCipherConstants | kit-plugin-arcium/src/lib/rescue-cipher.ts:592-613 | 2N + 1 columns: the initial one, then an affine step from each to the next |
| RescueConstants.NextConstantEntry | kit-plugin-arcium/src/lib/rescue-cipher.ts:609-612 | each entry of the next constant is a row of the matrix times the constant before, plus the affine term, modulo p |
| RescueConstants.ConstantsInjective | kit-plugin-arcium/src/lib/rescue-cipher.ts:599-611 | over a matrix that is not singular the constants of any round determine the initial ones |
| RescueConstants.SampleHashConstants | kit-plugin-arcium/src/lib/rescue-cipher.ts:619-638 | 2N + 1 columns: zeros, then the sampled elements in order |
| RescueConstants.HashConstantEntry | kit-plugin-arcium/src/lib/rescue-cipher.ts:631-637 | entry i of the constant of round r is sampled element r * m + i, reduced |
| RescueDescription.PermuteState | kit-plugin-arcium/src/lib/rescue-cipher.ts:648-650 | the last of the 2N + 1 states |
| RescueDescription.PermuteInverseState | kit-plugin-arcium/src/lib/rescue-cipher.ts:656-658 | the last of the states of the inverse |
| RescueDescription.PermuteRoundTrip | kit-plugin-arcium/src/lib/rescue-cipher.ts:648-658 | for every instance the constructor can build, the two methods undo each other |
| RescueHash.PadMessage | kit-plugin-arcium/src/lib/rescue-cipher.ts:903-906 | the padding loop ends with the message, a one, and zeros |
| RescueHash.PaddedLength | kit-plugin-arcium/src/lib/rescue-cipher.ts:903-906 | the padded length is the least multiple of the rate above the message length |
| RescueHash.PaddingInjective | kit-plugin-arcium/src/lib/rescue-cipher.ts:903-906 | different messages, of any lengths, have different paddings (Algorithm 2 of ePrint 2020/1143) |
| RescueHash.Digest | kit-plugin-arcium/src/lib/rescue-cipher.ts:901-928 | five field elements: the first five of the last state of the sponge; for messages of up to six elements, of the permutation of the message, a one and zeros |
| RescueHash.SpongeStart | kit-plugin-arcium/src/lib/rescue-cipher.ts:907-911 | the sponge starts with a column of twelve zeros |
| RescueHash.SpongeStep | kit-plugin-arcium/src/lib/rescue-cipher.ts:912-922 | undoing the permutation of a state and taking away the column of seven message elements and five zeros gives the state before that block |
| RescueHash.DigestElement | kit-plugin-arcium/src/lib/rescue-cipher.ts:923-927 | digest element i is row i of the last state, for i below five |
| RescueHash.ShortDigest | kit-plugin-arcium/src/lib/rescue-cipher.ts:901-928 | the digest of up to six elements is the first five rows of one permutation, of the message, a one and zeros |
| RescueHash.ResiduesDetermineDigest | kit-plugin-arcium/src/lib/rescue-cipher.ts:901-928 | the digest of a message depends only on its elements modulo p |
| RescueHash.AbsorbInjective | kit-plugin-arcium/src/lib/rescue-cipher.ts:912-922 | from one state, different blocks of field elements lead to different states |
| RescueHash.OneBlockDecides | kit-plugin-arcium/src/lib/rescue-cipher.ts:912-922 | messages of one length whose residues differ inside one block only end in different states, whatever equal blocks follow |
| RescueKey.ConvertSecret | kit-plugin-arcium/src/lib/rescue-cipher.ts:954-965 | the secret as one number, or chunk by chunk |
| RescueKey.ConvertedAt | kit-plugin-arcium/src/lib/rescue-cipher.ts:954-965 | element i is the value of bytes i * (BYTES - 1) up to the next multiple or the end; over the base field there is one element, the value of all bytes |
| RescueKey.MaterialLayout | kit-plugin-arcium/src/lib/rescue-cipher.ts:974 | what is hashed starts with 1, ends with 5, and has the converted secret between them |
| RescueKey.MaterialResidues | kit-plugin-arcium/src/lib/rescue-cipher.ts:974 | it has the same residues for two secrets exactly if the converted secrets have |
| RescueKey.ChunksInjective | kit-plugin-arcium/src/lib/rescue-cipher.ts:958-965 | for a field order above 256^(BYTES-1) what is hashed, reduced into the field, is the same exactly for the same secret |
| RescueKey.SmallSecretsDiffer | kit-plugin-arcium/src/lib/rescue-cipher.ts:955-957 | over the base field what is hashed tells secrets below p apart |
| RescueKey.BaseFieldSecrets | kit-plugin-arcium/src/lib/rescue-cipher.ts:955-957 | over the base field a secret shares what is hashed, modulo p, with another secret exactly if it reaches p or stays below 2^256 with p added |
| RescueKey.EverySecretHasTwin | kit-plugin-arcium/src/lib/rescue-cipher.ts:955-957 | for a modulus of at most 2^255 that is every secret |
| RescueKey.TwoSecretsOneKey | kit-plugin-arcium/src/lib/rescue-cipher.ts:955-975 | two different secrets, 0 and p, with the same key under every hash instance |
| RescueKey.NewCipher | kit-plugin-arcium/src/lib/rescue-cipher.ts:947-977 | the cipher instance whose key is the Rescue-Prime digest of counter, secret and length; exact error conditions |
| RescueKey.BaseFieldKey | kit-plugin-arcium/src/lib/rescue-cipher.ts:955-976 | over the base field the key is the first five rows of the permutation of 1, secret, 5, 1 and eight zeros, under the hash instance of twelve elements with capacity five |
| RescueKey.SecretsTellStates | kit-plugin-arcium/src/lib/rescue-cipher.ts:955-975 | base field secrets leave the hash in one state exactly if they agree modulo p |
| RescueKey.SameResiduesSameCipher | kit-plugin-arcium/src/lib/rescue-cipher.ts:947-977 | secrets that agree after reduction into the field lead to one and the same cipher |
| RescueCipher.GetCounter | kit-plugin-arcium/src/lib/rescue-cipher.ts:1083-1094 | element 5i is the nonce, element 5i + 1 is i, and the next three are zero |
| RescueCipher.EncryptBatch | kit-plugin-arcium/src/lib/rescue-cipher.ts:990-1004 | each element plus its key-stream element modulo p; refuses exactly elements outside [0, p) |
| RescueCipher.EncryptRaw | kit-plugin-arcium/src/lib/rescue-cipher.ts:985-1016 | for lists of any length, with all error cases: element j is plaintext[j] plus row j mod 5 of the permutation of nonce, j / 5 and three zeros, modulo p |
| RescueCipher.EncryptedElement | kit-plugin-arcium/src/lib/rescue-cipher.ts:990-1015 | the same element law for every instance and every integer nonce |
| RescueCipher.DecryptedElement | kit-plugin-arcium/src/lib/rescue-cipher.ts:1038-1060 | on a field element decryption takes row j mod 5 of that permutation away, modulo p |
| RescueCipher.DecryptRaw | kit-plugin-arcium/src/lib/rescue-cipher.ts:1033-1061 | the constant-time difference with the key stream, for any integers |
| RescueCipher.Encrypt | kit-plugin-arcium/src/lib/rescue-cipher.ts:1023-1025 | serializes every element to 32 bytes; for p <= 2^256 serialization cannot fail |
| RescueCipher.Decrypt | kit-plugin-arcium/src/lib/rescue-cipher.ts:1068-1075 | all error cases, and decryption of the deserialized elements |
| RescueCipher.CipherRoundTrip | kit-plugin-arcium/src/lib/rescue-cipher.ts:985-1075 | decrypting an encryption returns the plaintext, for any length and nonce, through the serialization |
| RescueCipher.DecryptAny | kit-plugin-arcium/src/lib/rescue-cipher.ts:1044-1047 | what decryption makes of any integer, and when the result is a field element |
| RescueCipher.EncryptPrefix | kit-plugin-arcium/src/lib/rescue-cipher.ts:1005-1015 | encryption commutes with taking prefixes |
| RescueCipher.KeyBlocksEqualIff | kit-plugin-arcium/src/lib/rescue-cipher.ts:994-1006 | two key-stream blocks are equal exactly if nonce and block number agree modulo p: distinct pairs below p have distinct blocks |
| Ed25519Root.ChainIsPower | kit-plugin-arcium/src/lib/rescue-cipher.ts:1189-1207 | the addition chain computes a fixed power of every x, and x^3 |
| Ed25519Root.ChainExponentValue | kit-plugin-arcium/src/lib/rescue-cipher.ts:1189-1207 | the exponent is 2^252 - 3 = (p - 5) / 8 |
| SquareRoots.KeyIdentity | kit-plugin-arcium/src/lib/rescue-cipher.ts:1229-1234 | v * x^2 is u times (u * v^7)^((p-1)/4) |
| SquareRoots.UnityCases | kit-plugin-arcium/src/lib/rescue-cipher.ts:1237-1239 | that factor is 1 or -1, or it squares to -1 |
| SquareRoots.NoRoot | kit-plugin-arcium/src/lib/rescue-cipher.ts:1237-1239 | when it squares to -1, no y satisfies v * y^2 = u |
| SquareRoots.ChosenRoot | kit-plugin-arcium/src/lib/rescue-cipher.ts:1229-1246 | the comparisons tell exactly whether a root exists and which candidate is one, with u or v zero included |
| Ed25519Root.SqrtOfMinusOne | kit-plugin-arcium/src/lib/rescue-cipher.ts:1209 | the constant squares to -1 modulo p |
| Ed25519Root.UvRatio | kit-plugin-arcium/src/lib/rescue-cipher.ts:1227-1247 | valid exactly when some y has v * y^2 = u; then the value is such a y; it is always even |
| LittleEndian.SerializeTruncating | kit-plugin-arcium/src/lib/serialization.ts:11-19 | the n lowest bytes of any integer, least significant first |
| LittleEndian.SerializeChecked | kit-plugin-arcium/src/lib/rescue-cipher.ts:54-65 | the same bytes; fails exactly when the value is at least 256^n, never on a negative value |
| LittleEndian.DeserializeLE | kit-plugin-arcium/src/lib/serialization.ts:3-9 | the value of a byte string, built up with shifts and bitwise or |
| LittleEndian.ByteIs | kit-plugin-arcium/src/lib/serialization.ts:11-19 | byte i of a serialization is v / 256^i modulo 256, the lowest first |
| LittleEndian.ValueOfBytes | kit-plugin-arcium/src/lib/serialization.ts:3-19 | reading back the bytes of any integer gives it modulo 256^n |
| LittleEndian.BytesOfValue | kit-plugin-arcium/src/lib/serialization.ts:3-19 | writing the value of a byte string gives the byte string |
| LittleEndian.RoundTrip | kit-plugin-arcium/src/lib/rescue-cipher.ts:54-77 | values below 256^n survive |
| LittleEndian.BigIntToSeed | kit-plugin-tuktuk-task-scheduler/src/lib/tuktuk-client.ts:46-53 | stopping early writes the same bytes for non-negative values, and zeros for negative ones |
| LittleEndian.SeedAgreesWithSerializer | kit-plugin-tuktuk-task-scheduler/src/lib/tuktuk-client.ts:46-53 | it agrees with the full loop exactly on non-negative values and multiples of 256^n |
| LittleEndian.SeedsDistinct | kit-plugin-tuktuk-task-scheduler/src/lib/tuktuk-client.ts:46-53 | distinct ids below 256^n have distinct seeds |
| LittleEndian.SameBytesIff | kit-plugin-arcium/src/lib/serialization.ts:11-19 | two integers share their n bytes exactly when they are congruent modulo 256^n |
| TukTukCompiler.CollectMetas | kit-plugin-tuktuk-task-scheduler/src/lib/tuktuk-client.ts:422-446 | the list of mentions whose address is new, in the order in which the instructions make them |
| TukTukOrder.MentionsConcat | kit-plugin-tuktuk-task-scheduler/src/lib/tuktuk-client.ts:425-446 | instructions are scanned from the first to the last: the mentions of a list followed by another are those of the first, then those of the second |
| TukTukCompiler.FirstSeenAddresses | kit-plugin-tuktuk-task-scheduler/src/lib/tuktuk-client.ts:422-446 | that list has every mentioned address, once |
| TukTukCompiler.FirstSeenKeepsFirst | kit-plugin-tuktuk-task-scheduler/src/lib/tuktuk-client.ts:428-435 | each entry is the first mention of its address, with its flags |
| TukTukCompiler.CompareIsRank | kit-plugin-tuktuk-task-scheduler/src/lib/tuktuk-client.ts:448-452 | the comparator orders by the four roles of the header |
| TukTukCompiler.SortPermutes | kit-plugin-tuktuk-task-scheduler/src/lib/tuktuk-client.ts:448-452 | sorting permutes |
| TukTukCompiler.SortIsSections | kit-plugin-tuktuk-task-scheduler/src/lib/tuktuk-client.ts:448-452 | sorting concatenates the four role sections, each in its old order |
| TukTukCompiler.StableSortUnique | kit-plugin-tuktuk-task-scheduler/src/lib/tuktuk-client.ts:448-452 | a list is the sorted one exactly if it is ordered and keeps every section: any stable sort gives this result |
| TukTukCompiler.AllCovered | kit-plugin-tuktuk-task-scheduler/src/lib/tuktuk-client.ts:462-463 | every lookup in the account map succeeds |
| TukTukCompiler.Compile | kit-plugin-tuktuk-task-scheduler/src/lib/tuktuk-client.ts:418-480 | the compiled transaction as a function of the instructions; who is listed, where and with which role follows in TukTukOrder |
| TukTukRoundTrip.AccountsExact | kit-plugin-tuktuk-task-scheduler/src/lib/tuktuk-client.ts:422-455 | the account list has no duplicates and is exactly the set of mentioned addresses |
| TukTukRoundTrip.CountsDelimitSections | kit-plugin-tuktuk-task-scheduler/src/lib/tuktuk-client.ts:457-459 | the three counts delimit four sections, each the first-seen accounts of one role in order |
| TukTukRoundTrip.PositionTellsFirstRole | kit-plugin-tuktuk-task-scheduler/src/lib/tuktuk-client.ts:425-459 | the position of an account tells the privileges of its first mention |
| TukTukOrder.FirstPassedRole | kit-plugin-tuktuk-task-scheduler/src/lib/tuktuk-client.ts:425-459 | an account that no earlier instruction names, as account or program, and that its instruction does not pass earlier, stands in the section of the role it is passed with there |
| TukTukOrder.FirstAsProgram | kit-plugin-tuktuk-task-scheduler/src/lib/tuktuk-client.ts:437-445 | a program that is named first as a program stands among the read-only accounts |
| TukTukOrder.OrderInSection | kit-plugin-tuktuk-task-scheduler/src/lib/tuktuk-client.ts:425-455 | within a section accounts stand in the order of instruction and position of their first naming |
| TukTukOrder.HeaderDecides | kit-plugin-tuktuk-task-scheduler/src/lib/tuktuk-client.ts:448-459 | the role under which an address is named first decides between which header counts it stands |
| TukTukOrder.ListedIsNamed | kit-plugin-tuktuk-task-scheduler/src/lib/tuktuk-client.ts:425-455 | exactly the addresses that some instruction is the first to name are listed |
| TukTukRoundTrip.IndexIsPlace | kit-plugin-tuktuk-task-scheduler/src/lib/tuktuk-client.ts:448-455 | the index of an account is the number of first-seen accounts of a lower rank, or of the same rank and earlier |
| TukTukRoundTrip.RefReadBack | kit-plugin-tuktuk-task-scheduler/src/lib/tuktuk-client.ts:461-470 | one reference survives exactly if fewer than 256 first-seen accounts come before it in the order of the header, and its role exactly if it agrees with the first mention |
| TukTukRoundTrip.CompileDecompileAddresses | kit-plugin-tuktuk-task-scheduler/src/lib/tuktuk-client.ts:418-480 | reading back recovers programs, accounts and data exactly when every passed account comes among the first 256 of the first-seen accounts in the order of the header |
| TukTukRoundTrip.CompileDecompile | kit-plugin-tuktuk-task-scheduler/src/lib/tuktuk-client.ts:418-480 | it recovers roles as well exactly when they agree with the first mention |
| TukTukRoundTrip.CompileDecompileFew | kit-plugin-tuktuk-task-scheduler/src/lib/tuktuk-client.ts:418-480 | at most 256 distinct addresses are always enough |
| TukTukRoundTrip.LaterPrivilegesLost | kit-plugin-tuktuk-task-scheduler/src/lib/tuktuk-client.ts:428-435 | an instruction whose later privileges are dropped, so that it does not read back |
| TukTukOrder.LaterInstructionLosesPrivileges | kit-plugin-tuktuk-task-scheduler/src/lib/tuktuk-client.ts:428-435 | two instructions, the second of which passes a read-only account of the first as writable signer: all header counts are zero |
| TukTukRoundTrip.TooManyAccounts | kit-plugin-tuktuk-task-scheduler/src/lib/tuktuk-client.ts:463-467 | an instruction with 257 accounts, one index of which does not fit, so that it does not read back |
| TaskSlots.NextAvailableTaskId | kit-plugin-tuktuk-task-scheduler/src/lib/tuktuk-client.ts:78-90 | the least free slot over all bytes, or none exactly when every slot is taken |
| TaskSlots.FullByte | kit-plugin-tuktuk-task-scheduler/src/lib/tuktuk-client.ts:81 | skipping 0xff skips no free slot, and no other byte is full |
| TaskSlots.BitsOfByte | kit-plugin-tuktuk-task-scheduler/src/lib/tuktuk-client.ts:82-85 | slot i of a byte is its bit of weight 2^i |
| TaskSlots.AllTakenIsAllOnes | kit-plugin-tuktuk-task-scheduler/src/lib/tuktuk-client.ts:78-90 | nothing is free exactly if every byte is 0xff |
| TaskSlots.CapacityRespectedIff | kit-plugin-tuktuk-task-scheduler/src/lib/tuktuk-client.ts:231-235 | the answer is below the capacity exactly if some slot below the capacity is free |
| TaskSlots.CapacityExceeded | kit-plugin-tuktuk-task-scheduler/src/lib/tuktuk-client.ts:231-235 | a bitmap whose answer is not below its capacity |
| TaskSlots.TaskSeed | kit-plugin-tuktuk-task-scheduler/src/lib/tuktuk-client.ts:231-237 | the two-byte seed of the least free slot; fails exactly when nothing is free |
| TaskSlots.SeedNamesSlot | kit-plugin-tuktuk-task-scheduler/src/lib/tuktuk-client.ts:237-238 | in a bitmap of up to 65536 slots the seed names this slot and no other |
| TaskSlots.SeedsCollideIff | kit-plugin-tuktuk-task-scheduler/src/lib/tuktuk-client.ts:46-53 | two slots share a seed exactly when they are congruent modulo 65536 |
| UploadPlan.SplitCircuit | kit-plugin-arcium/src/lib/upload-circuit.ts:396-421 | nonempty parts of at most the account capacity that concatenate to the circuit |
| UploadPlan.AccountIndicesDistinctIff | kit-plugin-arcium/src/lib/upload-circuit.ts:207 | one-byte account indices are distinct exactly for circuits of up to 256 accounts |
| UploadPlan.ResizePlan | kit-plugin-arcium/src/lib/upload-circuit.ts:284-324 | ceil(len / 10240) - 1 grow instructions in all, at most 18 in a transaction, 18 in all but the last |
| UploadPlan.GrownEnough | kit-plugin-arcium/src/lib/upload-circuit.ts:284-324 | a grown account reaches the size of its part by less than one grow step; the part fits behind the nine-byte header exactly if (len - 1) mod 10240 is below 10231 |
| UploadPlan.RoomExamples | kit-plugin-arcium/src/lib/upload-circuit.ts:396-397 | a part that fills its account fits; a part of 10240 bytes does not |
| UploadPlan.LastResizeEmptyIff | kit-plugin-arcium/src/lib/upload-circuit.ts:294-311 | the last transaction is empty exactly if the others already reach the length, that is if (len - 1) mod 184320 is below 10240 |
| UploadPlan.EmptyResize | kit-plugin-arcium/src/lib/upload-circuit.ts:294-311 | a length whose last transaction is empty |
| UploadRuns.UploadPart | kit-plugin-arcium/src/lib/upload-circuit.ts:330-379 | for every chunk size and limit of at least 1, every write is issued once, in order |
| UploadRuns.WritesTile | kit-plugin-arcium/src/lib/upload-circuit.ts:347-360 | padded writes are pairwise disjoint and cover the part |
| UploadRuns.RunState | kit-plugin-arcium/src/lib/upload-circuit.ts:344-372 | after any run, with any number of parts, a byte is what the last write to its piece left, or as before |
| UploadRuns.RunStateApart | kit-plugin-arcium/src/lib/upload-circuit.ts:344-372 | for up to 256 parts a byte is in place exactly if its write has completed; every other byte is as before |
| UploadRuns.OrderIrrelevant | kit-plugin-arcium/src/lib/upload-circuit.ts:371 | for up to 256 parts, runs that complete the same writes, in any order and any number of times, end in the same state |
| UploadRuns.OrderMatters | kit-plugin-arcium/src/lib/upload-circuit.ts:207 | from 257 parts on, parts 0 and 256 write one account and the later write stays |
| UploadRuns.UploadedIff | kit-plugin-arcium/src/lib/upload-circuit.ts:344-372 | for up to 256 parts, they are prefixes of their accounts, whatever those held, exactly if every write completed |
| UploadRuns.UploadCircuit | kit-plugin-arcium/src/lib/upload-circuit.ts:396-424 | the parts of the circuit, and for each its resize plan and its writes |
| UploadTheorem.CircuitUploaded | kit-plugin-arcium/src/lib/upload-circuit.ts:396-425 | for a good length any complete upload, interleaved between accounts in any way, leaves every part in its account |
| UploadTheorem.HeldCircuit | kit-plugin-arcium/src/lib/upload-circuit.ts:406-421 | the parts in their accounts are together the circuit |
| UploadTheorem.UploadSucceedsIff | kit-plugin-arcium/src/lib/upload-circuit.ts:284-425 | uploads of a length always succeed exactly if it needs at most 256 accounts and its last part leaves room for the header |
| UploadTheorem.FirstBadLength | kit-plugin-arcium/src/lib/upload-circuit.ts:284-299 | 10232 is the least length that does not fit |
| UploadInstruction.BuildUploadInstruction | kit-plugin-arcium/src/lib/upload-circuit.ts:194-232 | the fields in order at the cursor; fails exactly when the data exceeds the limit |
| UploadInstruction.FieldPositions | kit-plugin-arcium/src/lib/upload-circuit.ts:212-232 | every field lies at its fixed position |
| UploadInstruction.ReadWritten | kit-plugin-arcium/src/lib/upload-circuit.ts:198-232 | reading the layout returns every field, reduced to its width |
| UploadInstruction.LayoutOfRead | kit-plugin-arcium/src/lib/upload-circuit.ts:212-232 | every byte string of the right length is the layout of exactly the fields read from it |
| UploadInstruction.PlannedWriteArrives | kit-plugin-arcium/src/lib/upload-circuit.ts:347-360 | every planned write reaches its reader with its offset and padded data |
| PythAccumulator.ParseAccumulatorUpdate | kit-plugin-pyth/src/lib/pyth-client.ts:140-192 | the parser with all its errors as a function of the data |
| PythRoundTrip.HeaderErrors | kit-plugin-pyth/src/lib/pyth-client.ts:140-161 | what a short or wrong header is answered with, byte by byte: magic, version, trailing header, update type; behind the header only the end of the data is an error |
| PythAccumulator.ReadFeeds | kit-plugin-pyth/src/lib/pyth-client.ts:168-189 | the loop over updates; the first error ends it |
| PythAccumulator.ReadUpdate | kit-plugin-pyth/src/lib/pyth-client.ts:172-182 | one message and its proof nodes, sliced without a bounds check |
| PythAccumulator.FeedMapKeepsLast | kit-plugin-pyth/src/lib/pyth-client.ts:184-188 | a feed is in the map exactly if a price message carries it, and then with the last one |
| ByteReaders.HexAt | kit-plugin-pyth/src/lib/pyth-client.ts:186 | byte i of a feed id is written as its high digit and its low digit |
| ByteReaders.HexDigitIs | kit-plugin-pyth/src/lib/pyth-client.ts:186 | digits are 0 to 9 and then lower-case letters |
| PythRoundTrip.ParseIff | kit-plugin-pyth/src/lib/pyth-client.ts:140-192 | the parser stops inside the data with a message exactly if the data starts with the encoding of that well-formed message |
| PythRoundTrip.ParseOfEncode | kit-plugin-pyth/src/lib/pyth-client.ts:140-192 | parsing an encoding, whatever follows it, returns the VAA and the last price message of every feed |
| PythRoundTrip.EncodeInjective | kit-plugin-pyth/src/lib/pyth-client.ts:140-192 | the wire format is unambiguous |
| PythRoundTrip.EncodedBytes | kit-plugin-pyth/src/lib/pyth-client.ts:140-169 | the bytes of a message: magic, version 1, minor version, trailing header behind its length, type 0, VAA behind its two-byte length, and the updates behind their number |
| PythRoundTrip.EncodedUpdateBytes | kit-plugin-pyth/src/lib/pyth-client.ts:172-182 | the bytes of an update: the message behind its two-byte length, and the nodes behind their number |
| ByteReaders.ByteBEIs | kit-plugin-pyth/src/lib/pyth-client.ts:144 | byte i of an n-byte number is v / 256^(n-1-i) modulo 256, the highest first |
| PythAcceptance.AcceptedIff | kit-plugin-pyth/src/lib/pyth-client.ts:140-192 | the parser accepts exactly data that is complete up to the nodes of the last proof |
| PythAcceptance.StopsInsideIff | kit-plugin-pyth/src/lib/pyth-client.ts:177-182 | the parser stops inside the data exactly if the nodes of the last proof are full |
| PythAcceptance.CutMessage | kit-plugin-pyth/src/lib/pyth-client.ts:140-192 | of a message cut inside its last proof everything else is returned unchanged, and the nodes are all full exactly if nothing is missing |
| PythAcceptance.CutAccepted | kit-plugin-pyth/src/lib/pyth-client.ts:179-182 | an accepted message whose node is short |
| PythPostUpdate.BorshEncodeBytes | kit-plugin-pyth/src/lib/pyth-client.ts:195-200 | four-byte length and the bytes |
| PythPostUpdate.BorshEncodeProofVec | kit-plugin-pyth/src/lib/pyth-client.ts:203-212 | four-byte count and the nodes, each cut or filled to 20 bytes |
| PythPostUpdate.BuildPostUpdateAtomicData | kit-plugin-pyth/src/lib/pyth-client.ts:214-235 | discriminator, fields and treasury byte in order |
| PythPostUpdate.LayoutFields | kit-plugin-pyth/src/lib/pyth-client.ts:195-235 | where every field lies, with its length before it, and every byte of every proof node in steps of twenty |
| PythPostUpdate.ReadIff | kit-plugin-pyth/src/lib/pyth-client.ts:214-235 | data reads as an update exactly if it is its layout and the update fits: nothing is lost exactly on updates that fit |
| PythPostUpdate.ReadOfAny | kit-plugin-pyth/src/lib/pyth-client.ts:203-225 | what a reader sees of an update that does not fit |
| PythPostUpdate.ParsedPricePosts | kit-plugin-pyth/src/lib/pyth-client.ts:140-235 | a price of any accepted data is posted and read back unchanged exactly if its proof nodes are full; of data that was not cut off that is every price |
| PythPostUpdate.CutPriceChanges | kit-plugin-pyth/src/lib/pyth-client.ts:179-212 | an accepted price that reads back differently |

## Left out

- Ed25519Root.UvRatio: takes the primality of 2^255 - 19 as a precondition, as RFC 8032 does.
- RescueDescription.NewRescueDesc: takes the number of rounds and the round constants as parameters; `getNRounds` is floating point.
- RescueConstants.SampleCipherConstants: takes the sampled matrix and columns as parameters; the loop that resamples a singular matrix ends only with probability one.
- Matrices.Add: takes the bit width as a parameter with p - 1 < 2^(n-2), which `getBinSize` computes from a floating-point logarithm.
- UploadRuns.RunState: models the account program as copying a write to its offset behind the header and dropping what lies behind the end of the account; the program itself is not part of this repository. That the header of nine bytes counts towards the account size follows the comment at kit-plugin-arcium/src/lib/upload-circuit.ts:396 and the account layout at kit-plugin-arcium/src/arcium.json:11264-11276.
- UploadRuns.UploadPart: requires a chunk size of at least 1; with 0 the loop of the source does not end. The limit of one upload, 814 bytes in the interface file, is a parameter.
- UploadPlan.ResizePlan: rounds quotients exactly, where the source rounds a floating-point quotient; the two agree on lengths of that size.
- TukTukCompiler.Compile: sorts by an insertion sort; `StableSortUnique` shows that every stable sort agrees with it. Signer seeds are empty and not modelled.
- PythAccumulator.ParseAccumulatorUpdate: keeps the minor version and trailing header in its specification, which the source skips.
- Library functions `invert`, `pow`, `pow2`, `mod` and `isNegativeLE` are modelled by their own bodies or specifications; field operations by arithmetic modulo p.
- The branches of `encodeAsRescueEncryptable` and `decodeRescueDecryptedToNumber` for floating-point numbers and booleans.
- SHA-256, SHA3, SHAKE256, base58, program-derived addresses, RPC calls, transaction sending, logging.
- AES counter mode, the twisted Edwards instance, scalar clamping and the random element generators: thin wrappers over libraries, or single byte masks.
- Timing behaviour: only the values computed by the constant-time functions are modelled.
- Decoders with fixed offsets (Switchboard, the legacy Pyth price account, the MXE account), caches, watchers and portfolio sums: nothing unbounded to prove.
- The Jupiter, ANS, Metaplex and Squads clients, generated code, plugin factories and the LiteSVM transport.
