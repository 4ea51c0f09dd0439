# nGraph-HE over SEAL: a verified model

nGraph-HE is a homomorphic-encryption backend for nGraph on SEAL's CKKS scheme.
This project models its hardest logic in Dafny and proves what that logic is
relied on for. It follows the C++ sources file by file: classes whose methods
change fields are classes, loops are loops with invariants, and each is proved
against a specification whose own properties are proved as lemmas.

Run `dafny verify dfyconfig.toml` in this directory to check everything.

## What is modelled

1. **Residue arithmetic** (`Rns`, `ScalarEncoding`, `RnsCiphertext`,
   `PlainOpsCommute`). A real value is scaled, rounded and reduced modulo every
   prime by a 64-bit, a 128-bit or a multi-limb path; the residues are added to
   or multiplied into every transformed coefficient. All three paths leave the
   same residues, the size guards make encoding injective (Chinese remainder
   theorem over pairwise coprime moduli), and the scalar operations commute with
   decryption and agree with constant-polynomial arithmetic.
2. **Levels and scales** (`LevelMatching`). Two ciphertexts, or a whole tensor,
   are brought to a common level, which can move a value by a factor within 1.02.
3. **Zero flags and packing** (`SealCiphertext`, `ScalarKernels`, `ZeroFlags`,
   `ComplexPacking`, `TensorIO`). A flagged ciphertext stands for 0; the kernels'
   shortcuts refine plain arithmetic, and tensor reads undo tensor writes.
4. **Tensor kernels** (`Coordinates`, `WeightedSums`, `Convolution`, `Dot`,
   `Pooling`, `AvgPool`, `MaxPool`, `Padding`). Coordinate loops compute the
   intended sums, means and maxima, exactly for inputs at one level and otherwise up
   to one such factor for every level a value can come down, including average
   pooling, which accumulates inside the input object it aliases.
5. **Offloading** (`TcpMessage`, `TcpChannel`, `CipherMessages`, `Session`,
   `OffloadRounds`, `HeSealClient`, `RemoteRelu`, `MaxPool`). Message framing, the
   write queue, saved ciphertexts in messages, the handshake, and the
   mutex/flag/condition-variable hand-off of Relu and MaxPool are labelled steps;
   theorems hold for every interleaving.
6. **Fusion** (`Fusion`). The BoundedRelu rewrite keeps every node's value.

`Prelude` holds result types and integer facts. SEAL appears as contracts on its
documented operations: `barrett_reduce_128`, `negate_uint_mod` and
`multiply_poly_scalar_coeffmod` in residues; in the kernels an evaluator that works
exactly on decoded slots, with level and scale, and, like the client's encoder, may
refuse any call that encodes, adds, subtracts, multiplies or changes a level, for a
reason that slots do not show (values or scales too large, a transparent result).
Which calls it refuses is left open. Results are stated for every call that passes,
whatever SEAL refuses, unless the kernel has swallowed a refusal; only that a call is
bound to pass is proved for a SEAL that refuses nothing. Saving and loading are
contracts too, in which a ciphertext's size depends on its level only. nGraph's
`CoordinateTransform` is defined as the row-major enumeration of a strided box over a
padded, dilated source, as src/seal/kernel/convolution_seal.hpp:82-100 describes it.

## Where the code falls short of its intent

The model keeps the code as it is; each shortfall has a lemma or method that
states exactly when it bites.

- src/seal/seal_util.cpp:389 compares a position with a chain index.
  `LevelMatching.AsWritten` states what the code does,
  `LevelMatching.PositionOneIsSkipped` shows a ciphertext left behind,
  `LevelMatching.AsMeant` proves the full claim for the comparison that was
  meant, and `RemoteRelu.RemoteReluIsRelu` and `RemoteRelu.LeftBehindStopsRelu`
  say when the ciphertext left behind stops a remote Relu.
- src/seal/he_seal_executable.cpp:1137-1153 does not match levels before it sends
  a MaxPool window, which the client then cuts in the wrong places:
  `MaxPool.MixedWindow`, `MaxPool.MixedWindowThrows`.
- A client that cannot read or answer a request throws and never replies; its socket
  closes, and the exception of the session's pending header read
  (src/tcp/tcp_session.hpp:39-56), which nothing catches on the I/O thread, ends the
  server: `OffloadRounds.LostClientEndsServer`.
- src/seal/he_seal_backend.cpp:184-193 never takes an old zero flag down, so a
  reused tensor can read back zeros: `TensorIO.ReturnedIff`,
  `TensorIO.HESealCipherTensor.WriteThenRead`, `TensorIO.StaleFlagHidesValue`.
- src/seal/kernel/add_seal.cpp:51-54 and
  src/seal/kernel/subtract_seal.cpp:46-57,64-71 clear the flag that `encrypt` has
  just set for a lone plaintext 0, and src/seal/kernel/add_seal.cpp:67-71 adds a
  lone complex-packed value to the real parts only:
  `ZeroFlags.AddCPRefinesIff`, `ZeroFlags.SubtractCPRefinesIff`,
  `ZeroFlags.SubtractPCRefinesIff`, `ZeroFlags.StaleAfterMultiplication`.
- src/seal/kernel/subtract_seal.cpp:46-49 encrypts a negated plaintext with the
  flagged ciphertext's packing mark instead of the plaintext's own:
  `ZeroFlags.SubtractCPRefinesIff`, `ZeroFlags.SubtractCPFailsIff`,
  `ZeroFlags.FlaggedSubtractionLosesPacking`.
- src/seal/kernel/multiply_seal.cpp:104-113 logs an exception of the evaluator and
  goes on with the unmultiplied copy that the evaluator has made of its operand:
  `ZeroFlags.MultiplyCPRefines`.
- src/seal/kernel/subtract_seal.cpp:36-37 does not match levels:
  `ZeroFlags.SubtractCCRefines` says exactly when it goes through.
- src/seal/kernel/subtract_seal.cpp:26-39, src/seal/kernel/multiply_seal.cpp:22-57 and
  others leave the packing mark of their output as it was, and
  src/seal/kernel/subtract_seal.cpp:68-69 goes through an unpacked ciphertext, so
  packed operands can give a result that is decrypted as unpacked:
  `ZeroFlags.TwoKeepMarkIff`, `ZeroFlags.PlainKeepsMarkIff`,
  `ZeroFlags.PackedDifferenceLosesMark`.
- src/he_plain_tensor.cpp:91-97 copies a lone plaintext without comparing its length
  with the batch size, so a short one is read past its end: `TensorIO.HEPlainTensor.Read`.
- src/pass/he_fusion.cpp:64-73 reads one element of alpha and not its sign:
  `Fusion.FusionKeepsEveryValue` and `Fusion.FusionBreaksOtherwise`.
- src/seal/kernel/max_pool_seal.hpp:323-325 encrypts without packing, which fails
  for packed inputs (`MaxPool.LocalFailsWhenPacked`).
- src/seal/kernel/pad_seal.hpp:136-151 does not terminate on an axis of one
  element: `Padding.ReflectionStopsIff`.

## Model

| member | source | states |
|---|---|---|
| `Rns.ResiduesDetermine` | src/seal/seal_util.cpp:97-111 | two integers inside (-Q/2, Q/2) with the same residues modulo pairwise coprime moduli are equal (CRT uniqueness) |
| `Rns.ProductFitsLimbs` | src/seal/seal_util.cpp:206-216 | one 64-bit limb per prime holds every value the guard admits |
| `ScalarEncoding.GuardCentres` | src/seal/seal_util.cpp:100-111 | the bit-count guard keeps the rounded value strictly inside (-Q/2, Q/2) |
| `ScalarEncoding.RoundIsNearest` | src/seal/seal_util.cpp:119 | rounding gives the nearest integer, and of two equally near ones the one further from 0 |
| `ScalarEncoding.TruncLog2IsLogarithm` | src/seal/seal_util.cpp:92-100 | the truncated logarithm is exact: 2^t is the power of 2 below the value, or above it for a fraction |
| `ScalarEncoding.AcceptedIff` | src/seal/seal_util.cpp:91-111 | for Q of so many bits, encoding succeeds if and only if 0 < scale < 2^bits and the scaled value is below 2^(bits - 2) in magnitude (at most 1/2 for Q = 3) |
| `ScalarEncoding.EncodingIsNearest` | src/seal/seal_util.cpp:119-238 | residue j of what is accepted is n modulo the j-th prime, for the integer n nearest to value * scale |
| `ScalarEncoding.EncodingInjective` | src/seal/seal_util.cpp:91-238 | two accepted values get the same residues if and only if they round to the same integer |
| `ScalarEncoding.RoundMagnitude` | src/seal/seal_util.cpp:100 | the truncated-logarithm bit count bounds the rounded magnitude |
| `ScalarEncoding.FastPathRange` | src/seal/seal_util.cpp:124-144 | on the 64- and 128-bit paths the value fits the words it is cast to |
| `ScalarEncoding.NegateIsNegation` | src/seal/seal_util.cpp:127-134 | negating a residue gives the residue of the negated integer, 0 included |
| `ScalarEncoding.StoreSmall` | src/seal/seal_util.cpp:124-141 | the 64-bit path leaves round(value * scale) mod q_j for every prime |
| `ScalarEncoding.StoreDouble` | src/seal/seal_util.cpp:142-162 | so does the 128-bit path |
| `ScalarEncoding.FloorDivision` | src/seal/seal_util.cpp:213-216 | dividing by 2^64 without flooring loses no digit |
| `ScalarEncoding.ExtractLimbs` | src/seal/seal_util.cpp:206-216 | the digit loop terminates, stays in the buffer and writes the base-2^64 digits of the whole number |
| `ScalarEncoding.ReduceFromTop` | src/seal/seal_util.cpp:194-202 | the top-down Barrett loop gives the whole number modulo q_j |
| `ScalarEncoding.DecomposeSingleCoeff` | src/seal/seal_util.cpp:165-204 | a limb buffer is reduced modulo every prime; with one prime the limb is copied unreduced |
| `ScalarEncoding.SlowPathShape` | src/seal/seal_util.cpp:163-188 | on the multi-limb path there are at least two primes, so the unreduced copy is unreachable, and the value fits the limbs |
| `ScalarEncoding.StoreLarge` | src/seal/seal_util.cpp:206-237 | the multi-limb path leaves round(value * scale) mod q_j for every prime |
| `ScalarEncoding.Encode` | src/seal/seal_util.cpp:65-238 | whichever path is taken, the result is the guard's error or, in every prime, the residue of the integer nearest to value * scale |
| `RnsCiphertext.BranchlessAdd` | src/seal/seal_util.hpp:114-127 | the masked uint64 subtraction is exact modular addition with no wrap-around |
| `RnsCiphertext.AddPolyScalarCoeffmod` | src/seal/seal_util.hpp:92-128 | exactly one block of coefficients gets the scalar added modulo q |
| `RnsCiphertext.MultiplyPolyScalarCoeffmod` | src/seal/seal_util.cpp:343-345 | exactly one block of coefficients is multiplied by the scalar modulo q |
| `RnsCiphertext.Locate` | src/seal/seal_util.cpp:340-351 | every buffer position is one component, modulus and slot |
| `RnsCiphertext.BlockStep` | src/seal/seal_util.cpp:340-351 | rewriting one block changes that block's entries and no others |
| `RnsCiphertext.PlanMultiply` | src/seal/seal_util.cpp:326-338 | which residues and scale a multiplication uses, or which check stops it |
| `RnsCiphertext.Ciphertext.AddPlainInplace` | src/seal/seal_util.cpp:240-291 | component 0 gets the encoded residue in every slot and modulus, the rest and the scale stay; errors for encoding and transparency |
| `RnsCiphertext.Ciphertext.MultiplyPlainInplace` | src/seal/seal_util.cpp:293-364 | every component is multiplied by the encoded residue and the scale is squared; errors for encoding, scale and transparency |
| `RnsCiphertext.Ciphertext.IsTransparent` | src/seal/seal_util.cpp:285-290 | all components past the first are 0 |
| `PlainOpsCommute.AddPlainCommutes` | src/seal/seal_util.cpp:268-283 | for any number of components and any key, adding then decrypting is decrypting then adding the integer nearest to value * scale |
| `PlainOpsCommute.MultiplyPlainCommutes` | src/seal/seal_util.cpp:326-354 | the same for multiplication by that integer |
| `PlainOpsCommute.DecryptOfTwoAndThree` | src/seal/seal_util.cpp:268-283 | decryption is c0 + c1 s for two components and c0 + c1 s + c2 s^2 for three |
| `PlainOpsCommute.ConstantEverywhere` | src/seal/seal_util.cpp:274-282 | a constant polynomial takes its constant value at every evaluation point |
| `PlainOpsCommute.ScalarFormIsPolynomialForm` | src/seal/seal_util.cpp:274-282 | working with the scalar agrees with encoding the constant polynomial and working coefficient by coefficient |
| `LevelMatching.MatchScale` | src/seal/seal_util.hpp:62-70 | within a factor of 1.02 the scale is relabelled and slot times scale stays what it was, otherwise the call fails and changes nothing |
| `LevelMatching.MatchModulusAndScaleInplace` | src/seal/seal_util.cpp:31-62 | the two ciphertexts become what the matching function says, refusals of the evaluator included; the one at the lower level is untouched |
| `LevelMatching.MatchedLevels` | src/seal/seal_util.cpp:31-62 | both end at the smaller chain index, scales agree if levels differed, the lowered value moves by a factor of at most 1.02 |
| `LevelMatching.MatchingKeepsMessage` | src/seal/seal_util.cpp:46-60 | the lowered ciphertext keeps its message: slot times new scale is slot times old scale where the modulus was switched, and that over the dropped primes where it was rescaled |
| `LevelMatching.TensorKeepsMessages` | src/seal/seal_util.cpp:385-395 | so does every ciphertext of a tensor that is lowered |
| `LevelMatching.DroppedSteps` | src/seal/seal_util.cpp:47-51 | lowering by one level drops that level's prime, and steps multiply |
| `LevelMatching.MatchedIsSymmetric` | src/seal/seal_util.cpp:42-44 | matching does not depend on the order of its arguments |
| `LevelMatching.MatchFailsIff` | src/seal/seal_util.cpp:46-60 | it fails exactly when neither the scale nor the rescaled one is within tolerance of the target, or the evaluator refuses to rescale or to switch the modulus |
| `LevelMatching.DriftBounds` | src/seal/seal_util.hpp:51-60 | scales within tolerance have a quotient between 1/1.02 and 1.02 |
| `LevelMatching.Smallest` | src/seal/seal_util.cpp:371-383 | the first unflagged position of the smallest chain index, if anything is unflagged |
| `LevelMatching.FindSmallest` | src/seal/seal_util.cpp:371-383 | the search loop finds that position |
| `LevelMatching.VisitOne` | src/seal/seal_util.cpp:385-395 | one pass matches a ciphertext to the shared copy and never writes the copy |
| `LevelMatching.LowerOne` | src/seal/seal_util.cpp:387-396 | one pass of the second loop lowers the object at its position, wherever else it is held, unless the position is skipped |
| `LevelMatching.LowerAll` | src/seal/seal_util.cpp:387-396 | exactly the visited unflagged ciphertexts are lowered, each to what matching says; the shared copy keeps its value |
| `LevelMatching.MatchToSmallestChainIndex` | src/seal/seal_util.cpp:366-398 | the tensor becomes what `MatchedTensor` says, or the call fails exactly when that says so |
| `LevelMatching.AsWritten` | src/seal/seal_util.cpp:385-390 | as written: an unflagged ciphertext ends at the smallest chain index if and only if it was there or is held at a position other than that index |
| `LevelMatching.MatchToSmallestPosition` | src/seal/seal_util.cpp:366-398 | the same method with the comparison that was meant; success and failure are both said |
| `LevelMatching.AsMeant` | src/seal/seal_util.cpp:385-390 | with that comparison every unflagged ciphertext ends at the smallest chain index |
| `LevelMatching.LoweredViews` | src/seal/seal_util.cpp:387-396 | matching a tensor keeps flags, scales what it lowers by a factor within 1.02, and leaves the rest exactly as it was |
| `LevelMatching.PositionOneIsSkipped` | src/seal/seal_util.cpp:389-390 | two ciphertexts at chain indices 1 and 2: the second stays at 2 |
| `ScalarKernels.Encrypt` | src/seal/he_seal_backend.cpp:178-196 | a lone 0 only sets the flag; anything else is stored without touching the flag; what cannot be encoded is an error |
| `ScalarKernels.Decrypt` | src/seal/he_seal_backend.cpp:198-246 | a flagged ciphertext gives one 0 for every slot, any other its decoded values |
| `ScalarKernels.ScalarAddCC` | src/seal/kernel/add_seal.cpp:21-42 | the new output, which may be the first operand or a new object, is what the addition function says, and which objects keep their contents |
| `ScalarKernels.ScalarAddCP` | src/seal/kernel/add_seal.cpp:44-87 | the same for a plaintext operand, with the errors of encoding and of `add_plain` |
| `ScalarKernels.ScalarMultiplyCC` | src/seal/kernel/multiply_seal.cpp:22-57 | product of two ciphertexts, with flags, depth limit, rescaling and the evaluator's refusal |
| `ScalarKernels.ScalarMultiplyCP` | src/seal/kernel/multiply_seal.cpp:59-117 | product with a plaintext, with flags, the 1e-5 flush, the depth check, and the refusal that is only logged: out is then a copy of the operand, or, if the evaluator throws only when the result is there, the product |
| `ScalarKernels.ScalarSubtractCC` | src/seal/kernel/subtract_seal.cpp:21-40 | difference of two ciphertexts by its four flag cases |
| `ScalarKernels.ScalarSubtractCP` | src/seal/kernel/subtract_seal.cpp:42-58 | ciphertext minus plaintext, which for a flagged ciphertext takes over the ciphertext's packing |
| `ScalarKernels.ScalarSubtractPC` | src/seal/kernel/subtract_seal.cpp:60-72 | plaintext minus ciphertext, through negation and addition |
| `ZeroFlags.AddCCRefines` | src/seal/kernel/add_seal.cpp:27-41 | addition denotes the slot-wise sum, up to the level-matching drift |
| `ZeroFlags.MultiplyCCRefines` | src/seal/kernel/multiply_seal.cpp:22-57 | multiplication denotes the slot-wise product, up to the level-matching drift |
| `ZeroFlags.SubtractCCRefines` | src/seal/kernel/subtract_seal.cpp:26-39 | subtraction succeeds if and only if an operand is flagged or level and scale agree and the evaluator accepts; its slots are then exactly the difference (its packing mark: `TwoKeepMarkIff`) |
| `ZeroFlags.SumLevels` | src/seal/kernel/add_seal.cpp:34-41 | an unflagged sum is at the lower operand's level and scale, a difference at the common one |
| `ZeroFlags.ProductLevels` | src/seal/kernel/multiply_seal.cpp:33-55 | a product is one level below the lower operand, its scale the product of the scales over the prime dropped |
| `ZeroFlags.PlainLevels` | src/seal/kernel/multiply_seal.cpp:84-116 | a product with a plaintext keeps its level and squares its scale; what is encrypted starts at the top level and the backend's scale |
| `ZeroFlags.EncodedSlot` | src/seal/he_seal_backend.cpp:248-288 | which value or pair of values every slot gets: one to a slot, two where packed, a lone one everywhere, 0 beyond |
| `ZeroFlags.EncryptThenClear` | src/seal/kernel/add_seal.cpp:51-55 | encrypting and clearing the flag keeps the value except for a lone 0 over stale slots |
| `ZeroFlags.AddCPRefinesIff` | src/seal/kernel/add_seal.cpp:44-87 | ciphertext plus plaintext denotes the sum if and only if neither the flag defect nor the packing defect bites |
| `ZeroFlags.SubtractCPRefinesIff` | src/seal/kernel/subtract_seal.cpp:42-58 | ciphertext minus plaintext denotes the difference if and only if, for a flagged ciphertext, no stale slots show and the values encode alike in both packings |
| `ZeroFlags.RepackedIff` | src/seal/kernel/subtract_seal.cpp:46-49 | values encode alike in both packings exactly when all but the first are 0, or a lone one is |
| `ZeroFlags.SubtractCPFailsIff` | src/seal/kernel/subtract_seal.cpp:46-49 | for a flagged ciphertext the call fails exactly when the values do not fit the slots in the ciphertext's packing, or SEAL refuses |
| `ZeroFlags.FlaggedSubtractionLosesPacking` | src/seal/kernel/subtract_seal.cpp:46-49 | one packed value comes out wrong, two make the call fail |
| `ZeroFlags.SubtractPCRefinesIff` | src/seal/kernel/subtract_seal.cpp:60-72 | the exact condition for the slots of plaintext minus ciphertext (the packing mark: `PlainKeepsMarkIff`) |
| `ZeroFlags.MultiplyCPRefines` | src/seal/kernel/multiply_seal.cpp:59-117 | multiplication by a plaintext denotes the product with small weights taken as 0, if and only if no refusal was swallowed over an operand that is not its own product |
| `ZeroFlags.FlushError` | src/seal/kernel/multiply_seal.cpp:76-82 | the flush costs at most 1e-5 of the other operand, part by part, or of the sum of both parts for packed weights |
| `ZeroFlags.FlagsRefineArithmetic` | src/seal/kernel/add_seal.cpp:21-95 | any expression of add, subtract and multiply, in place or not, that meets none of the stated defects denotes, slot by slot, what arithmetic without flags gives, up to the factor within 1.02 by which an operand is brought to the other's level; exactly, if ciphertext additions and multiplications find their operands at one level |
| `ZeroFlags.MeaningIsDenoted` | src/seal/kernel/add_seal.cpp:34-41 | the plain meaning is among the values allowed, so the exact case is a special one |
| `ZeroFlags.TwoKeepMarkIff` | src/seal/kernel/subtract_seal.cpp:26-39 | for operands of one packing, the result of an operation on two ciphertexts has their packing mark if and only if the output had it or the operation sets it |
| `ZeroFlags.PlainKeepsMarkIff` | src/seal/kernel/subtract_seal.cpp:60-72 | the same for a plaintext operand, where plaintext minus ciphertext goes through an unpacked ciphertext |
| `ZeroFlags.MarkSurvives` | src/seal/kernel/add_seal.cpp:27-39 | if every operation of an expression keeps the mark, the result has the mark of its operands |
| `ZeroFlags.MarksAreKept` | src/seal/kernel/add_seal.cpp:27-39 | without complex packing every operation of every expression keeps it; with packing, in place, every one but plaintext minus ciphertext |
| `ZeroFlags.DecryptsToMeaning` | src/seal/he_seal_backend.cpp:198-246 | decrypting the result of such an expression shows its plain meaning, decoded with the operands' packing; a flagged packed result shows the first half of the zeros |
| `ZeroFlags.PackedDifferenceLosesMark` | src/seal/kernel/subtract_seal.cpp:36-38 | packed minus packed in a fresh output: right slots, marked unpacked, half of the values when decrypted, and adding a packed ciphertext fails |
| `ZeroFlags.StaleAfterMultiplication` | src/seal/kernel/add_seal.cpp:51-54 | v * 0 + 0 in place denotes v, not 0 |
| `ComplexPacking.RealVecToComplexVec` | src/seal/client_util.hpp:72-85 | the packing loop pairs consecutive values, an odd last one with 0 |
| `ComplexPacking.ComplexVecToRealVec` | src/seal/client_util.hpp:59-67 | the unpacking loop lists real and imaginary parts in turn |
| `ComplexPacking.UnpackPack` | src/seal/client_util.hpp:57-85 | unpacking undoes packing, up to one trailing 0 for an odd length |
| `ComplexPacking.PackUnpack` | src/seal/client_util.hpp:57-85 | packing undoes unpacking |
| `TensorIO.At` | src/he_plain_tensor.cpp:63-66 | value j of element i has its own place i + j * n, from which i and j can be recovered |
| `TensorIO.AtIsOnto` | src/he_plain_tensor.cpp:104-109 | every place of the buffer is the place of one i and j |
| `TensorIO.ScatterGather` | src/he_plain_tensor.cpp:33-121 | scattering rows gives the source buffer if and only if each row starts with what was gathered for it |
| `TensorIO.SingleRow` | src/he_plain_tensor.cpp:41-56 | the single-element branch agrees with the general one |
| `TensorIO.HEPlainTensor.Write` | src/he_plain_tensor.cpp:33-79 | a plain tensor holds exactly the gathered rows, by either branch |
| `TensorIO.HEPlainTensor.Read` | src/he_plain_tensor.cpp:81-121 | reading several elements scatters their rows, and fails exactly when one is too short; a lone element is copied unchecked, on into the memory beyond if it is short |
| `TensorIO.HEPlainTensor.WriteThenRead` | src/he_plain_tensor.cpp:33-121 | writing and reading a whole plain tensor is the identity for every shape and batch size |
| `TensorIO.FreshReturns` | src/seal/he_seal_backend.cpp:229-288 | decoding undoes encoding on the values there are, packed or not, single or many |
| `TensorIO.ReturnedIff` | src/seal/he_seal_backend.cpp:178-212 | values come back from encrypt and decrypt if and only if the wrapper was not flagged, or they are zeros, one to a slot |
| `TensorIO.StaleFlagHidesValue` | src/seal/he_seal_backend.cpp:184-193 | a nonzero value written over a flagged ciphertext reads back as 0 |
| `TensorIO.HESealCipherTensor.Write` | src/seal/he_seal_cipher_tensor.cpp:39-91 | element i is the encryption of row i over what was there; it passes exactly when every row can be encoded |
| `TensorIO.HESealCipherTensor.Read` | src/seal/he_seal_cipher_tensor.cpp:93-128 | reading scatters the decrypted rows, and fails exactly when one is too short |
| `TensorIO.HESealCipherTensor.WriteThenRead` | src/seal/he_seal_cipher_tensor.cpp:39-128 | the round trip is the identity if and only if old zero flags do no harm; a fresh tensor has none |
| `TensorIO.HESealCipherTensor.constructor` | src/seal/he_seal_cipher_tensor.cpp:25-37 | a fresh tensor owns distinct empty ciphertexts, none flagged |
| `TensorIO.HESealCipherTensor.SetElements` | src/seal/he_seal_cipher_tensor.cpp:130-140 | elements are replaced exactly when their number is the element count over the batch size |
| `Coordinates.IndexOfCoordAt` | src/seal/kernel/convolution_seal.hpp:82-100 | the row-major enumeration visits coordinates in index order |
| `Coordinates.CoordAtOfIndex` | src/seal/kernel/convolution_seal.hpp:82-100 | every coordinate of a box is visited, at its index |
| `Coordinates.IndexMonotone` | src/seal/kernel/avg_pool_seal.hpp:43-46 | row-major order extends the componentwise order |
| `Coordinates.SplitIsCoordAt` | src/seal/kernel/dot_seal.hpp:339-341 | quotient and remainder of a flat index give the two parts of its coordinate |
| `WeightedSums.Accumulate` | src/seal/kernel/convolution_seal.hpp:346-360 | multiply into a fresh ciphertext and add, or start the sum with it: the running sum gains that term, each term off by at most one factor within 1.02 for every level it has been brought down; it passes if the inputs are uniform and SEAL refuses nothing |
| `WeightedSums.SumsExactly` | src/seal/seal_util.cpp:31-62 | a sum with no drift is the plain sum |
| `WeightedSums.SumsJoin` | src/seal/seal_util.cpp:31-62 | a term that has drifted as far as the others joins a sum |
| `WeightedSums.SumsScaled` | src/seal/kernel/add_seal.cpp:34-41 | scaling a sum multiplies the drift of every term |
| `WeightedSums.SpreadIsLargest` | src/seal/seal_util.cpp:31-62 | the spread of a tensor's levels is the largest difference of two unflagged chain indices, so 0 exactly for one level |
| `WeightedSums.HoldsMatched` | src/seal/seal_util.cpp:31-62 | matching adds a drift to a term only by lowering its chain index |
| `WeightedSums.HoldsNext` | src/seal/kernel/add_seal.cpp:21-42 | a sum and a term, each off by no more than the levels they have come down, are added to a sum of which the same holds |
| `WeightedSums.SumFlushError` | src/seal/kernel/multiply_seal.cpp:76-82 | flushing moves a sum by at most 1e-5 times the sum of the absolute values it weighs (`WeightedSums.MagnitudesNext`) |
| `WeightedSums.MagnitudesNext` | src/seal/kernel/multiply_seal.cpp:76-82 | each term adds its entry's absolute values to that sum, or their total to both parts where a packed weight mixes them |
| `WeightedSums.MaxDriftAdds` | src/seal/seal_util.hpp:51-60 | the largest drift of n levels is 1.02 to the n |
| `Convolution.IteratorsAgree` | src/seal/kernel/convolution_seal.hpp:274-336 | both iterators walk boxes of one shape, so they stay aligned and end together |
| `Convolution.StridedLength` | src/seal/kernel/convolution_seal.hpp:300-304 | ceil(((F - 1) * l + 1) / l) = F |
| `Convolution.DataLookup` | src/seal/kernel/convolution_seal.hpp:346-347 | the data transform has a source cell exactly on the grid of dilated data, and finds that cell |
| `Convolution.FilterLookup` | src/seal/kernel/convolution_seal.hpp:338-348 | the filter transform finds the cell for the channel and offset, mirrored if the filter is rotated |
| `Convolution.TapAt` | src/seal/kernel/convolution_seal.hpp:274-360 | in the geometry's own terms: the tap at a channel and offset is the product of the data cell x with x * data dilation + padding = stride * output + offset * window dilation on every axis, and the filter cell at that offset, or at F - 1 - offset if rotated |
| `Convolution.NoTapAt` | src/seal/kernel/convolution_seal.hpp:346-347 | where some axis has no such data cell, the tap is 0 |
| `Convolution.ConvolveTap` | src/seal/kernel/convolution_seal.hpp:334-364 | the loop body adds one tap, and nothing for padding or gaps |
| `Convolution.ConvolveCell` | src/seal/kernel/convolution_seal.hpp:270-373 | an output cell is the sum over every channel and window offset, exactly for data at one level; a window without a source cell gives 0 |
| `Convolution.ConvolutionSeal` | src/seal/kernel/convolution_seal.hpp:237-379 | out[k] is that sum at the k-th row-major output coordinate, each tap off by at most as many factors within 1.02 as the data's levels are apart, so exactly the sum for data at one level; this holds whenever the call passes and no product was swallowed; it is bound to pass for data at one level, scale and packing and fitting weights if SEAL refuses nothing |
| `Dot.OutIndexIsFlat` | src/seal/kernel/dot_seal.hpp:334-361 | the computed output index is the flat loop index, so each cell is written once |
| `Dot.EntriesMeet` | src/seal/kernel/dot_seal.hpp:364-383 | at a dotted coordinate d the operands are arg0 at c0 followed by d and arg1 at d followed by c1, both by row-major index |
| `Dot.ProductsOfOutput` | src/seal/kernel/dot_seal.hpp:334-392 | the products summed into the cell at output coordinate c0 followed by c1 are exactly those, one for every d |
| `Dot.MatrixProduct` | src/seal/kernel/dot_seal.hpp:334-392 | for matrices: cell i * N + j adds up a[i * K + l] * b[l * N + j] |
| `Dot.DotTap` | src/seal/kernel/dot_seal.hpp:370-392 | one dotted position adds one product to the sum |
| `Dot.DotCell` | src/seal/kernel/dot_seal.hpp:366-395 | a cell is the sum over the dotted axes, exactly for data at one level; over an empty axis it stays an empty ciphertext |
| `Dot.DotSeal` | src/seal/kernel/dot_seal.hpp:278-398 | every output cell is its dot product, each product off by at most as many factors within 1.02 as the data's levels are apart, so exactly for data at one level; this holds whenever the call passes and no product was swallowed; it is bound to pass for data at one level, scale and packing and fitting weights if SEAL refuses nothing |
| `Dot.EachCell` | src/seal/kernel/dot_seal.hpp:334-361 | what that says of the k-th cell |
| `Dot.FlushIsTheOnlyLoss` | src/seal/kernel/multiply_seal.cpp:76-82 | the flush moves it by at most 1e-5 times the sum of the absolute arg0 entries used (of both parts, where a packed weight mixes them) |
| `Pooling.WindowIsBox` | src/seal/kernel/max_pool_seal.hpp:52-123 | a cell is listed for an output coordinate if and only if batch and channel agree and, on every spatial axis, stride * output <= cell + padding < stride * output + window |
| `Pooling.WindowOfOutput` | src/seal/kernel/avg_pool_seal.hpp:83-123 | so the list at an output's row-major index holds exactly the positions of the cells in that box |
| `Pooling.WindowIsDistinct` | src/seal/kernel/max_pool_seal.hpp:118-123 | no position is listed twice |
| `Pooling.LeadingAxisIsIrrelevant` | src/seal/he_seal_executable.cpp:1119-1128 | dividing the batch axis by the batch size does not change a window's positions |
| `AvgPool.FirstIsStart` | src/seal/kernel/avg_pool_seal.hpp:123-133 | without padding below, the first cell of a window is the one at its start |
| `AvgPool.OverwrittenIsNotReadAgain` | src/seal/kernel/avg_pool_seal.hpp:43-153 | with strides of at least 1, a window reading another's first cell is not after it, at any rank |
| `AvgPool.WindowIsIntact` | src/seal/kernel/avg_pool_seal.hpp:43-153 | no object that an earlier window has taken over is read by a later one |
| `AvgPool.AddCell` | src/seal/kernel/avg_pool_seal.hpp:127-141 | a cell after the first joins the sum; besides the sum only that cell's own object can change, and it still holds its value up to the levels it has come down |
| `AvgPool.PoolStep` | src/seal/kernel/avg_pool_seal.hpp:127-141 | the first cell's object becomes the sum, any other is added |
| `AvgPool.SumWindow` | src/seal/kernel/avg_pool_seal.hpp:118-141 | the inner loop gives the sum and number of the window's cells |
| `AvgPool.PoolCell` | src/seal/kernel/avg_pool_seal.hpp:118-152 | the mean of what the window's cells held at first, or the error for a window without cells |
| `AvgPool.IntactNext` | src/seal/kernel/avg_pool_seal.hpp:43-153 | a cell that no window has taken over keeps its value, up to the levels it has come down, through every window |
| `AvgPool.MeanIsExactUpTo` | src/seal/kernel/avg_pool_seal.hpp:146-150 | the mean is exact if and only if the window has at most 100000 cells, and 0 otherwise |
| `AvgPool.JobFor` | src/seal/kernel/avg_pool_seal.hpp:33-46 | every input on the modulus chain is covered by the kernel's contract; for a uniform one the call is bound to pass if SEAL refuses nothing |
| `AvgPool.AvgPoolSeal` | src/seal/kernel/avg_pool_seal.hpp:33-154 | every output is the mean of its original window, each cell off by at most as many factors within 1.02 as the input's levels are apart, whenever the call passes; for a uniform input, if SEAL refuses nothing, it passes exactly when every window has a source cell |
| `AvgPool.MeansAreExact` | src/seal/kernel/avg_pool_seal.hpp:146-150 | for an input at one level every output of a call that passes is exactly the mean |
| `MaxPool.MaximizeList` | src/seal/kernel/max_pool_seal.hpp:30-126 | list k is the window of output k (`Pooling.WindowOfOutput` says which cells) |
| `MaxPool.RaiseTo` | src/seal/kernel/max_pool_seal.hpp:218-230 | max_vals holds the lane-wise maxima of the rows so far, or the size check fails |
| `MaxPool.MaxPoolPlain` | src/seal/kernel/max_pool_seal.hpp:128-235 | plaintext outputs are lane-wise maxima of their windows |
| `MaxPool.MaxPoolCipher` | src/seal/kernel/max_pool_seal.hpp:237-328 | cipher outputs are encryptions of the lane-wise maxima |
| `MaxPool.MaxPoolCell` | src/seal/kernel/max_pool_seal.hpp:208-232 | one plaintext output is the lane-wise maxima of its window's rows, or the size check fails |
| `MaxPool.LocalFailsWhenPacked` | src/seal/kernel/max_pool_seal.hpp:323-325 | with complex packing the local kernel cannot encode its result |
| `MaxPool.BuildMessage` | src/seal/he_seal_executable.cpp:1138-1153 | the loop that saves a window's ciphertexts makes the message that the stream constructor makes of them |
| `MaxPool.WindowAnswered` | src/seal/he_seal_executable.cpp:1137-1153 | a window of one level is answered exactly when request and reply fit a message and the client can encode the maxima, and the client then has its ciphertexts |
| `MaxPool.MixedWindow` | src/seal/he_seal_executable.cpp:1137-1153 | levels are not matched: for a window of mixed levels the message cannot be built or is cut in the wrong places, and an empty window is not answered |
| `MaxPool.MixedWindowThrows` | src/tcp/tcp_message.hpp:243-255 | two ciphertexts at levels 0 and 1, with an odd number of bytes per prime, throw |
| `MaxPool.OneReplyPerWindow` | src/seal/he_seal_executable.cpp:1138-1165 | the collected replies are one ciphertext per window, in order |
| `MaxPool.RemoteRuns` | src/seal/he_seal_executable.cpp:1130-1165 | over every interleaving, windows of one level are all answered exactly when all messages fit and the client can encode every maximum |
| `MaxPool.RemoteWindowsAreLocal` | src/seal/he_seal_executable.cpp:1119-1128 | the index lists of the batched shape are the local kernel's windows |
| `MaxPool.AnswerIsLocal` | src/seal/he_seal_client.cpp:209-270 | in the batch's lanes the client's answer is what the local kernel encrypts |
| `MaxPool.RemoteMaxPoolIsLocal` | src/seal/he_seal_executable.cpp:1112-1165 | for a tensor whose windows each have one level: over every interleaving the operation finishes exactly when all messages fit and the client can encode every maximum, with one ciphertext per output, in order, whose batch lanes are the window's maxima and, unpacked and unflagged, the local kernel's outputs |
| `Padding.Wave` | src/seal/kernel/pad_seal.hpp:101-129 | the triangular wave of period 2(n - 1) stays inside the axis |
| `Padding.ReflectionStopsIff` | src/seal/kernel/pad_seal.hpp:136-151 | the reflection loop stops if and only if the axis has two elements or the coordinate is inside already |
| `Padding.Reflect` | src/seal/kernel/pad_seal.hpp:132-153 | the loop bounces until it is inside and no longer, and then is on the wave |
| `Padding.PadSeal` | src/seal/kernel/pad_seal.hpp:37-164 | out[k] is the padded value at the k-th coordinate, in each mode; a non-scalar pad value is an error |
| `Padding.CentreOfPadding` | src/seal/kernel/pad_seal.hpp:71-163 | padding with non-negative pads and restricting to the centre returns the input, in every mode |
| `Padding.ConstantPadding` | src/seal/kernel/pad_seal.hpp:76-81 | CONSTANT: the data moved up by the padding below, the pad value everywhere else |
| `Padding.EdgePadding` | src/seal/kernel/pad_seal.hpp:82-99 | EDGE: on every axis the nearest data coordinate |
| `Padding.ReflectPadding` | src/seal/kernel/pad_seal.hpp:100-158 | REFLECT: on every axis the data coordinate s from which, or from -s, the position is a multiple of 2(n - 1) away |
| `TcpMessage.LittleEndianRoundTrip` | src/tcp/tcp_message.hpp:339-353 | a field copied into the buffer and back keeps its value |
| `TcpMessage.HeaderFits` | src/tcp/tcp_message.hpp:313-322 | the decimal body length of every legal message fits the header |
| `TcpMessage.HeaderRoundTrip` | src/tcp/tcp_message.hpp:313-337 | printing and parsing the length undo each other |
| `TcpMessage.TcpBuffer.constructor` | src/tcp/tcp_message.hpp:197-210 | the buffer is exactly header, type, count and data, for legal arguments |
| `TcpMessage.FrameRoundTrip` | src/tcp/tcp_message.hpp:324-368 | a frame at the front of the stream is read back as the message, with the rest left over |
| `TcpMessage.WireLayout` | src/tcp/tcp_message.hpp:197-210 | every byte on the wire: decimal digits of the body length, NUL up to byte 15, type and count low byte first, then the data |
| `TcpMessage.PartialFrame` | src/tcp/tcp_session.hpp:39-75 | a strict front part of a frame yields no message |
| `CipherMessages.CutRecoversIff` | src/tcp/tcp_message.hpp:262-274 | cutting joined pieces at data_size / count gives them back if and only if they all have one size |
| `CipherMessages.ReadBack` | src/seal/he_seal_client.cpp:209-230 | so the reader gets the saved ciphertexts back if and only if they have one level |
| `CipherMessages.VectorMessageIff` | src/tcp/tcp_message.hpp:163-197 | a vector of ciphertexts makes a message if and only if they have one level and fit, and it is then read back |
| `CipherMessages.StreamMessageIff` | src/tcp/tcp_message.hpp:149-161 | a stream of ciphertexts of one level makes a message if and only if they fit, and it is then read back |
| `CipherMessages.CopyPieces` | src/tcp/tcp_message.hpp:184-197 | the loop puts every saved ciphertext at its offset, or finds one of another size |
| `CipherMessages.FromCiphers` | src/tcp/tcp_message.hpp:163-197 | the constructor from a vector does what `VectorMessageIff` is about |
| `TcpChannel.ReadInPieces` | src/tcp/tcp_session.hpp:39-75 | how the bytes are cut into pieces does not matter |
| `TcpChannel.FailureIsFinal` | src/tcp/tcp_session.hpp:45-56 | after a bad header nothing more is delivered |
| `TcpChannel.ReadEncodings` | src/tcp/tcp_session.hpp:39-75 | the header/body loop recovers exactly the messages written |
| `TcpChannel.TcpSession.OnBytes` | src/tcp/tcp_session.hpp:39-75 | incoming bytes only ever add to what was delivered, as the reference reader says |
| `TcpChannel.TcpClient.WriteMessage` | src/tcp/tcp_client.hpp:51-57 | the message joins the queue; a nonempty queue has exactly one pending write |
| `TcpChannel.TcpClient.WriteCompleted` | src/tcp/tcp_client.hpp:112-131 | the finished message leaves the queue and the next write starts |
| `TcpChannel.ChannelDelivers` | src/tcp/tcp_client.hpp:112-131 | the whole wire reads back as a front part of what was submitted, and as all of it once the queue has drained |
| `TcpChannel.ReadPart` | src/tcp/tcp_session.hpp:39-75 | a reader of part of the stream has delivered exactly the messages that came in whole |
| `TcpChannel.SessionDelivers` | src/tcp/tcp_session.hpp:39-75 | however much of the wire a session has received, it has delivered exactly the messages that came in whole, in `write_message` order, each once |
| `Session.CountsAgree` | src/seal/he_seal_executable.cpp:241-250 | the announced number of ciphertexts is the one that execute is checked against, and times the batch size it is the parameter's size |
| `Session.StepKeepsInv` | src/seal/he_seal_executable.cpp:202-333 | every step of server and client keeps the session invariant |
| `Session.LogFollowsScript` | src/seal/he_seal_client.cpp:83-197 | at every moment the messages written are a front part of the one legal conversation |
| `Session.NothingRunsEarly` | src/seal/he_seal_executable.cpp:446-459 | no operation runs before keys and inputs are installed, and the count check cannot fail |
| `Session.NeverStuck` | src/seal/he_seal_executable.cpp:153-159 | some step is enabled until the client has its result or lacks data |
| `Session.StepAdvances` | src/seal/he_seal_executable.cpp:202-333 | every step moves the session on by exactly one stage |
| `Session.EverySessionCompletes` | src/seal/he_seal_executable.cpp:146-333 | every session ends after the same number of steps, having written exactly the script |
| `OffloadRounds.StepKeepsInv` | src/seal/he_seal_executable.cpp:334-397 | every step keeps mutual exclusion, one exchange at a time, no lost wakeup and the exact buffer contents |
| `OffloadRounds.AtMostOneOutstanding` | src/seal/he_seal_executable.cpp:1684-1694 | at most one request or reply is in flight |
| `OffloadRounds.NeverStuck` | src/seal/he_seal_executable.cpp:1686-1694 | until the operation has ended, some step other than a spurious wakeup is enabled |
| `OffloadRounds.LostClientEndsServer` | src/tcp/tcp_session.hpp:39-56 | once the client has thrown, no reply comes and the flag is never raised; the disconnect is enabled, is all that is left to a blocked server but spurious wakeups, and ends it |
| `OffloadRounds.StepDecreases` | src/seal/he_seal_executable.cpp:1636-1695 | every step makes progress in a well-founded measure |
| `OffloadRounds.EveryRunDelivers` | src/seal/he_seal_executable.cpp:1636-1696 | every run ends; it delivers all replies in order exactly when every request can be built and is answered, and otherwise ends at the first one where that fails, by throwing or by losing the client |
| `HeSealClient.LargestIsMaximum` | src/seal/he_seal_client.cpp:243-246 | the fold of std::max_element is a value of the list and bounds all of them |
| `HeSealClient.Client.DecodeEncode` | src/seal/he_seal_client.cpp:335-341 | decoding the batch lanes of an encoded vector gives the vector back |
| `HeSealClient.Client.DecodeToRealVec` | src/seal/he_seal_client.cpp:355-370 | the batch's lanes, packed or not |
| `HeSealClient.Client.LaneAt` | src/seal/he_seal_client.cpp:355-370 | lane l is the real part of slot l, or, packed, the real or imaginary part of slot l / 2 |
| `HeSealClient.Client.HandleReluRequest` | src/seal/he_seal_client.cpp:316-344 | the reply is one ciphertext per input, its lanes the activation of the input's lanes; none if the encoder refuses one |
| `HeSealClient.Client.ReluReplyDecodes` | src/seal/he_seal_client.cpp:295-333 | decoding reply i shows in every lane the larger of the input's lane and 0, or the lane moved to the nearest value in [0, 6] |
| `HeSealClient.ActivationMeans` | src/seal/he_seal_client.cpp:295-296 | the activations are: the larger of the value and 0, and that cut off at 6 |
| `HeSealClient.Client.ScaledLanes` | src/seal/he_seal_client.cpp:355-370 | scaling a ciphertext's slots scales its lanes, packed or not |
| `HeSealClient.Client.HandleMaxRequest` | src/seal/he_seal_client.cpp:209-270 | the reply is one ciphertext whose lanes are the maxima across the window; none if the encoder refuses them |
| `HeSealClient.Client.LoadCiphers` | src/seal/he_seal_client.cpp:308-324 | the loading loop cuts equal pieces and loads them, or throws |
| `HeSealClient.Client.HandleMessage` | src/seal/he_seal_client.cpp:196-270 | each request type gets its reply; what cannot be read, encoded, or replied in one message, gets none |
| `RemoteRelu.BatchesTile` | src/seal/he_seal_executable.cpp:1630-1641 | chunks of 10000 are consecutive, never empty, and end at the last element |
| `RemoteRelu.BuildMessage` | src/seal/he_seal_executable.cpp:1637-1679 | one pass of the chunk loop: flagged elements, the bound, the sizes, the message |
| `RemoteRelu.ChunkAnswered` | src/seal/he_seal_executable.cpp:1637-1679 | a chunk is answered if and only if it is unflagged, of one level and fits, the bound is 6 and the client can encode the activations; the reply is its activation |
| `RemoteRelu.AllChunksBuild` | src/seal/he_seal_executable.cpp:1637-1679 | every chunk is answered if and only if no element is flagged, the bound is 6, every chunk has one level, every chunk and reply fits, and the client can encode every activation |
| `RemoteRelu.MatchingLevelsChunks` | src/seal/he_seal_executable.cpp:1623-1625 | matching gives every chunk one level, unless it leaves behind the element at the position equal to the smallest chain index and that is not alone in its chunk |
| `RemoteRelu.RepliesReassemble` | src/seal/he_seal_executable.cpp:363-366 | the first replies are a front part of the reply to the whole tensor |
| `RemoteRelu.RemoteReluIsRelu` | src/seal/he_seal_executable.cpp:1611-1697 | over every interleaving the operation ends; it finishes if and only if the tensor can be matched, nothing is flagged, the bound is 6, nothing is left behind in a chunk with others, all messages fit and the client can encode the activations; then there is one result per element, every lane of result i the larger of input i's lane and 0 (or that lane moved into [0, 6]), exactly at the smallest level and up to the matching drift above it |
| `RemoteRelu.Operation.ActivationIsMeaning` | src/seal/he_seal_executable.cpp:1657-1672 | the activation asked of the client is what the operation computes as a node of a graph |
| `RemoteRelu.Operation.ResultIsMeaning` | src/seal/kernel/bounded_relu_seal.hpp:34-36 | and that is the larger of d and 0, or d moved to the nearest value in [0, 6] |
| `RemoteRelu.LeftBehindStopsRelu` | src/seal/he_seal_executable.cpp:1623-1675 | two unflagged ciphertexts at chain indices 1 and 2: a plain Relu throws before its first message |
| `Fusion.BoundedIsMinimumIff` | src/seal/kernel/bounded_relu_seal.hpp:34-36 | BoundedRelu equals Minimum of Relu for every input if and only if the bounds agree and are not negative |
| `Fusion.ElementFunctions` | src/seal/kernel/bounded_relu_seal.hpp:34-36 | Relu is the larger of a value and 0, Minimum the smaller of two, BoundedRelu the value moved to the nearest in [0, alpha] |
| `Fusion.PatternFuses` | src/pass/he_fusion.cpp:27-76 | a Minimum of a Relu and a constant, plain or broadcast and in either order, is matched if it is float and the shapes agree |
| `Fusion.Graph.ConstructBoundedRelu` | src/pass/he_fusion.cpp:27-80 | the callback replaces the root exactly on an accepted match, and the graph stays well formed |
| `Fusion.RootMeaning` | src/pass/he_fusion.cpp:28-37 | a matched root computes the minimum of relu and alpha, element by element, with or without a broadcast |
| `Fusion.RootAgreesIff` | src/pass/he_fusion.cpp:64-75 | for any input, the replaced root keeps its value if and only if every element x above alpha[0] has its own alpha equal to alpha[0] and every other has relu(x) within its own alpha |
| `Fusion.FusionKeepsEveryValue` | src/pass/he_fusion.cpp:39-76 | for a uniform, non-negative alpha every node of every graph keeps its value |
| `Fusion.FusionBreaksOtherwise` | src/pass/he_fusion.cpp:64-73 | for any other alpha, some values of a free input (a parameter or an operation not modelled) tell the graphs apart |

## Left out

- Floating point: doubles are reals; `round`, `log2` and `fmod` are exact, and CKKS approximation error is not modelled.
- `encode` of exactly 0, where the logarithm is undefined; the kernels avoid it on the paths modelled.
- SEAL's transforms, key generation, noise, relinearisation and encryption: contracts on exact slots, level and scale; nothing is said about security.
- ScalarKernels.Backend, LevelMatching.Context, HeSealClient.Client: which calls SEAL refuses is left open in the slot-level kernels; what `add_plain` and `multiply_plain` refuse is stated for the residue form in `RnsCiphertext`. Negation, encryption, decryption and decoding never refuse; relinearising and rescaling a product refuse with the product.
- Convolution.ConvolutionSeal, Dot.DotSeal, AvgPool.AvgPoolSeal: that the call passes is proved only for a SEAL that refuses nothing; for any other the result is stated for calls that pass.
- Expressions whose operands have different packing marks: their slots are covered by `ZeroFlags.FlagsRefineArithmetic`, what decrypting them shows is not.
- TensorIO.HEPlainTensor.Read: the memory beyond a short vector is a parameter; that reading it is undefined is not modelled.
- Convolution: axis order is the one its callers pass (batch and channel first); the cipher-by-cipher and plain-by-plain variants.
- Convolution.ConvolutionSeal, Dot.DotSeal: weights of more values than there are slots; where a refused product was swallowed nothing is said of the cells.
- Dot and average pool: cipher-by-plain and cipher variants only.
- Average pooling with padding below, with padding included in the average, or with one object at two positions: later windows can then read overwritten cells.
- MaxPool.RemoteMaxPoolIsLocal: asks for one level in every window (`MaxPool.MixedWindow` says why); that the local kernel agrees asks for unflagged inputs too, because saving a ciphertext ignores its flag.
- Fusion: a graph is its topological order and each node one element-type mark; nGraph's matcher is modelled by what it binds, with Minimum tried in both argument orders; a match whose alpha has no element.
- TcpMessage.NextFrame: a header that announces fewer than 12 body bytes counts as malformed, where the source would wrap around; leading blanks and signs in the header are not parsed.
- TcpChannel: error callbacks, sockets and the lifetime of the buffer in `TCPSession::do_write` (src/tcp/tcp_session.hpp:77-88); a send copies its bytes in steps.
- OffloadRounds.Init: `m_max_done` starts lowered, although the constructor (src/seal/he_seal_executable.cpp:85-94) does not initialise it.
- Session: one `call` per session and one parameter; logging, timing and the order of OpenMP loops, which are sequential here.
- The Minimum operation after its early `break`, multi-result functions, and plain-by-plain kernels.
- Broadcast, reverse, slice, reshape, concat, sum, negate, constant, result and batch-norm kernels, which add only easy members to the coordinate lemmas.
- Configuration parsing, Python bindings, examples and build files.
