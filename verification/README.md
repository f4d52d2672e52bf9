# Verified model of the AVSS protocols

This project models the algorithmic core of an asynchronous verifiable secret sharing testbed and proves what it
promises. Each theorem holds for every input size.

- **Polynomial engine.** The in-place FFT, three multiplications, accumulator polynomials, Lagrange coefficients,
  Neville interpolation and long division are each proved equal to a simple definition: the sum that defines the
  Fourier transform, the convolution, the product of linear factors, the basis polynomials (`Fft`, `Polynomials`,
  `Accumulators`, `Lagrange`, `LagrangeClosedForm`, `Neville`, `KzgPolynomial`).
- **Secret sharing.** Dealing, reconstruction, completion of missing shares, the low-degree test, KZG openings and the
  two message loops of Bingo, alone and joined to a whole exchange (`Scheme`, `DualCode`, `Kzg`, `Bingo`,
  `BingoManagers`, `BingoRows`, `BingoProtocol`).
- **NiVSS.** Chunked encryption, table look-up of logarithms, the chunking and sharing proofs, their completeness and
  that of a whole dealing (`Chunking`, `DlogRecovery`, `Encryption`, `NizkChunking`, `ChunkingProver`,
  `ChunkingCompleteness`, `NizkSharing`, `Dealing`), what accepted proofs say when the challenges are rewound
  (`ChunkingSoundness`, `SharingSoundness`, `DealingSoundness`), and that the random values hide the witness
  (`ChunkingRejection`, `ProverMasks`).
- **One-sided vote.** The listener as a class, and the protocol as a transition system with Byzantine senders
  (`OneSidedVote`).
- **Experiment counter.** The five-digit odometer over steps, algorithms and parameter values (`Variations`).
- **Secure message distribution.** Padding and splitting around the erasure code, dealing, decoding and what the root
  certifies (`ReedSolomon`, `SecureMessages`, `SecureAgreement`).

`dafny verify dfyconfig.toml` checks everything.

## How the code is modelled

- **Field.** `ScalarField.F` is an arbitrary prime field with a root of unity of order 2^s. Existence and uniqueness of
  inverses are proved from primality. Specifications are written over the integers and reduced once.
- **Groups.** The curve groups are cyclic of prime order, so an element is its discrete logarithm, `multi_exp` is an
  inner product and the pairing is a product.
- **Randomness, hashes and oracles** are parameters, and the theorems quantify over them. The attempts of the rejection
  loop in `prove_chunking` are a finite list of draws. The Merlin and ChaCha transcripts, the short table hash, the key
  hash and the Merkle root are function parameters. The erasure code is a parameter with one contract: as many recovery
  shards as there were originals determine the originals (`ReedSolomon.IdealCode`).
- **Vectors.** A `&mut Vec` argument is an in-parameter with an out-parameter. A slice that is overwritten in place is an
  `array`. The iteration order of a hash map is a parameter.
- **Message loops** run over the sequence of messages a task receives. As the code counts messages, the network is
  assumed to deliver at most one message of a kind from each sender.
- A failing assertion or `unwrap` is an explicit outcome where a message or an input can cause it; for
  `verify_sharing`, which panics instead of returning false, `NizkSharing.CheckSharing` is false in that case.
- `NivssUtils` and later modules use the constants of the code: 16 chunks of 16 bits, 32 repetitions, 8-bit challenges.
  `Chunking.ScalarsFit` says that a scalar fits in 16 chunks and that every chunk is a scalar.

## Where the code differs from its comments

- `get_dual_code_word` draws n - deg - 2 coefficients for a polynomial its comment gives degree n - deg - 2, so the test
  accepts one degree more than the comment intends. `DualCode.LowDegTestDecides` states what it decides and
  `DualCode.BeyondThresholdPasses` gives the input.
- `lagrange_coefficients` returns all zeros when alpha is one of the selected points. `Lagrange.CoefficientsInterpolate`
  states exactly when its result interpolates.
- `accumulator_poly` of the empty set is the empty vector, not the constant 1.
- The curve lists of `evolve` are in order only when no two blocks share a key
  (`Variations.ListsExactlyWhenDistinct`, `Variations.RepeatedAlgorithm`).

## Model

| member | source | states |
|---|---|---|
| `EvaluationDomain.SmallestPowerOf2GreaterOrEqThan` | nodes/src/crypto/crypto_lib/evaluation_domain.rs:46-56 | returns 2^logN with logN the least exponent that reaches n |
| `EvaluationDomain.GetNthRootOfUnity` | nodes/src/crypto/crypto_lib/evaluation_domain.rs:96-102 | repeated squaring of the field's root gives a primitive 2^logN-th root: its 2^(logN-1)-th power is -1 |
| `EvaluationDomain.NewDomain` | nodes/src/crypto/crypto_lib/evaluation_domain.rs:65-87 | a valid domain of the least power of two above n, or the error exactly in the case where that power exceeds the two-adicity |
| `EvaluationDomain.NewBatchDomain` | nodes/src/crypto/crypto_lib/evaluation_domain.rs:123-157 | all N roots in order and the inverses of all powers of two up to N |
| `EvaluationDomain.GetSubdomain` | nodes/src/crypto/crypto_lib/evaluation_domain.rs:165-197 | looking up the batch, with its wrap-around indices, gives the very domain `new` would compute, for every 1 <= k <= N |
| `EvaluationDomain.RootsDiffer` | nodes/src/crypto/crypto_lib/evaluation_domain.rs:210-231 | different powers of a primitive root below its order differ, which is what the order assertion of the domain is for |
| `Fft.SerialFftAssign` | nodes/src/crypto/crypto_lib/fft.rs:36-79 | the in-place bit reversal and butterfly loops leave position k holding the sum of a[j]*w^(jk), for every length 2^logN and every primitive root w |
| `Fft.BitReverse` | nodes/src/crypto/crypto_lib/fft.rs:37-44 | the bit loop reverses the l low bits |
| `Fft.ReverseInvolution` | nodes/src/crypto/crypto_lib/fft.rs:49-55 | bit reversal is its own inverse, so the guarded swap loop is a permutation |
| `Fft.BitReversePermute` | nodes/src/crypto/crypto_lib/fft.rs:49-55 | after the swap loop position i holds entry Reverse(i), each pair swapped once |
| `Fft.Butterfly` | nodes/src/crypto/crypto_lib/fft.rs:64-71 | one butterfly turns entries of two adjacent blocks of a stage into entries of one block of the next stage |
| `Fft.ButterflyStage` | nodes/src/crypto/crypto_lib/fft.rs:57-77 | one pass over all blocks turns stage s into stage s+1 |
| `Fft.FftAssign` | nodes/src/crypto/crypto_lib/fft.rs:9-15 | pads with zeros to N and returns the discrete Fourier transform of the coefficients |
| `Fft.IfftAssign` | nodes/src/crypto/crypto_lib/fft.rs:28-33 | the transform at the inverse root, scaled by 1/N |
| `Fft.Orthogonal` | nodes/src/crypto/crypto_lib/fft.rs:28-33 | the powers of w^(i-j) sum to N when i = j and to zero otherwise |
| `Fft.InverseDftOfDft` | nodes/src/crypto/crypto_lib/fft.rs:28-33 | `ifft_assign` undoes `fft_assign`: the inverse transform of the transform is the padded coefficient vector |
| `Polynomials.PolyEval` | nodes/src/crypto/crypto_lib/polynomials.rs:28-41 | the running-power loop returns the value of the polynomial at x |
| `Polynomials.PolyAddAssign` | nodes/src/crypto/crypto_lib/polynomials.rs:44-52 | coefficient-wise sum, growing f when g is longer |
| `Polynomials.PolySubAssign` | nodes/src/crypto/crypto_lib/polynomials.rs:55-62 | coefficient-wise difference, growing f when g is longer |
| `Polynomials.PolyXnmulAssign` | nodes/src/crypto/crypto_lib/polynomials.rs:221-240 | multiplication by X^n in place |
| `Polynomials.PolyDifferentiate` | nodes/src/crypto/crypto_lib/polynomials.rs:404-412 | the formal derivative |
| `Polynomials.PolyMulSlow` | nodes/src/crypto/crypto_lib/polynomials.rs:116-143 | the schoolbook double loop returns the convolution |
| `Polynomials.PolyMulAssignFftWithDom` | nodes/src/crypto/crypto_lib/polynomials.rs:95-112 | three transforms in any domain whose n is the product length return the convolution; g is left transformed |
| `Polynomials.PolyMulFft` | nodes/src/crypto/crypto_lib/polynomials.rs:77-91 | the same in a freshly computed domain |
| `Polynomials.PolyMulLessSlow` | nodes/src/crypto/crypto_lib/polynomials.rs:158-218 | the three-product recursion on equal power-of-two lengths returns the convolution |
| `Polynomials.KaratsubaIdentity` | nodes/src/crypto/crypto_lib/polynomials.rs:158-218 | the convolution of two split vectors from the three half-size convolutions |
| `PolynomialAlgebra.ProductCommutes` | nodes/src/crypto/crypto_lib/polynomials.rs:116-143 | convolution commutes, so the order of the factors in the accumulator code does not matter |
| `PolynomialAlgebra.InterpolationUnique` | nodes/src/crypto/crypto_lib/lagrange.rs:183-232 | values at enough distinct points determine all coefficients modulo the prime |
| `Accumulators.AccumulatorPoly` | nodes/src/crypto/crypto_lib/polynomials.rs:303-353 | for every threshold and every set it returns the coefficients of the product of (X - a), the empty vector for the empty set; every subdomain it asks for fits the batch |
| `Accumulators.AccumulatorPolyScheduled` | nodes/src/crypto/crypto_lib/polynomials.rs:368-401 | the scheduled variant returns the same accumulator for naive_thresh >= 2 |
| `Accumulators.AccumulatorPolyScheduledInner` | nodes/src/crypto/crypto_lib/polynomials.rs:415-455 | the recursion on 2^k - 1 elements, which multiplies out of order, returns the same accumulator |
| `Lagrange.AccumulatorPolyHelper` | nodes/src/crypto/crypto_lib/lagrange.rs:114-149 | the product of (X - w^i) over the selection, including a selection of the whole domain |
| `Lagrange.AccumulatorDerivative` | nodes/src/crypto/crypto_lib/lagrange.rs:88-104 | the derivative of the accumulator at one of its roots is the product of the distances to the others |
| `Lagrange.ComputeNumeratorsAtZero` | nodes/src/crypto/crypto_lib/lagrange.rs:153-176 | Z(0)/(0 - w^i) by one index into the roots, wrap-around included |
| `Lagrange.LagrangeCoefficientsAtZero` | nodes/src/crypto/crypto_lib/lagrange.rs:65-111 | the derivative, transform and batch inversion give the Lagrange basis values at 0 of the selected points, in the given order |
| `Lagrange.LagrangeCoefficients` | nodes/src/crypto/crypto_lib/lagrange.rs:183-232 | for every alpha the basis values at alpha; zeros when alpha is a selected point, because batch inversion leaves the zero distance in place |
| `Lagrange.CoefficientsInterpolate` | nodes/src/crypto/crypto_lib/lagrange.rs:183-262 | what the returned coefficients recombine is the value at alpha for every polynomial exactly when alpha is not a selected point |
| `Lagrange.AllLagrangeDenominators` | nodes/src/crypto/crypto_lib/lagrange.rs:263-276 | one over the product of w^i - w^j over j != i for the first n roots, when the power of two above n is the batch size |
| `LagrangeClosedForm.FullAccumulator` | nodes/src/crypto/crypto_lib/lagrange.rs:27-50 | the product of (X - w^i) over all N roots is X^N - 1 |
| `LagrangeClosedForm.AllNLagrangeCoefficients` | nodes/src/crypto/crypto_lib/lagrange.rs:27-50 | the closed form equals what the general algorithm returns on all N points, for every alpha |
| `Interpolation.Interpolates` | nodes/src/crypto/crypto_lib/lagrange.rs:178-183 | the Lagrange basis values at alpha recombine the values of every polynomial with at most as many coefficients as points |
| `Interpolation.DualCodeIdentity` | nodes/src/crypto/crypto_lib/vss/common.rs:86-113 | the weighted sum of the values of q is its coefficient of degree n-1, so zero for lower degrees |
| `DualCode.GetDualCodeWord` | nodes/src/crypto/crypto_lib/vss/common.rs:86-113 | transform, truncation and denominators give the values of f times the weights |
| `DualCode.LowDegTest` | nodes/src/crypto/crypto_lib/vss/common.rs:64-84 | accepts at full threshold, and otherwise exactly if every commitment vector is orthogonal to the code word |
| `DualCode.LowDegTestDecides` | nodes/src/crypto/crypto_lib/vss/common.rs:64-113 | a vector of committed values passes for every f exactly when the polynomial has no coefficient above index get_threshold() |
| `DualCode.BeyondThresholdPasses` | nodes/src/crypto/crypto_lib/vss/common.rs:86-113 | the input that separates code and comment: X^threshold passes for every f |
| `DualCode.HonestCommitmentPasses` | nodes/src/crypto/crypto_lib/vss/common.rs:64-113 | a Pedersen line of polynomials with get_threshold() coefficients passes for every f |
| `DualCode.TestDealtCommitment` | nodes/src/crypto/crypto_lib/vss/common.rs:64-84 | the test returns true on every dealt commitment, for every f it may draw |
| `Neville.EvalHorner` | nodes/src/crypto/crypto_lib/crypto_blstrs/mod.rs:13-30 | the Horner loop returns the value of the polynomial |
| `Neville.Interpolate` | nodes/src/crypto/crypto_lib/crypto_blstrs/mod.rs:83-122 | for all distinct xs and any ys the in-place loops return one coefficient for every point of a polynomial with P(xs[i]) = ys[i] |
| `Neville.NevilleRound` | nodes/src/crypto/crypto_lib/crypto_blstrs/mod.rs:92-120 | after a round of width w entry i interpolates the points i to i+w |
| `KzgPolynomial.New` | nodes/src/crypto/crypto_lib/crypto_blstrs/polynomial.rs:20-25 | strips trailing zeros and nothing else |
| `KzgPolynomial.AddPolynomials` | nodes/src/crypto/crypto_lib/crypto_blstrs/polynomial.rs:157-170 | coefficient-wise sum, stripped |
| `KzgPolynomial.DivRef` | nodes/src/crypto/crypto_lib/crypto_blstrs/polynomial.rs:106-135 | long division terminates with p = q*d + r and deg r < deg d, or the error for the empty divisor |
| `Kzg.PowersOfTau` | nodes/src/crypto/crypto_lib/crypto_blstrs/poly_commit/kzg.rs:149-161 | the powers g*tau^i up to the degree |
| `Kzg.NewSetup` | nodes/src/crypto/crypto_lib/crypto_blstrs/poly_commit/kzg.rs:19-33 | a setup in which every power belongs to the same trapdoor |
| `Kzg.Commit` | nodes/src/crypto/crypto_lib/crypto_blstrs/poly_commit/kzg.rs:39-45 | the commitment, or the error when the polynomial has more coefficients than there are powers |
| `Kzg.CommitmentValue` | nodes/src/crypto/crypto_lib/crypto_blstrs/poly_commit/kzg.rs:163-169 | a commitment is g times the value of the polynomial at the trapdoor |
| `Kzg.VerifyEquation` | nodes/src/crypto/crypto_lib/crypto_blstrs/poly_commit/kzg.rs:122-146 | the pairing equation holds exactly when c - g*v = w*(tau - x) in the exponent |
| `Kzg.Open` | nodes/src/crypto/crypto_lib/crypto_blstrs/poly_commit/kzg.rs:47-52 | the witness commits to a quotient q with p(t) - v = q(t)(t - x) + (p(x) - v) at every t |
| `Kzg.OpeningVerifies` | nodes/src/crypto/crypto_lib/crypto_blstrs/poly_commit/kzg.rs:39-146 | the opening at (x, v) verifies against the commitment exactly when v is the value of the polynomial at x |
| `Scheme.NewInputSecret` | nodes/src/crypto/crypto_lib/vss/keys.rs:74-99 | the drawn polynomial has the secret at 0, get_threshold() coefficients and the drawn ones above the constant |
| `Scheme.SharesHideSecret` | nodes/src/crypto/crypto_lib/vss/keys.rs:74-99 | one value fewer than there are coefficients is explained, for every secret, by exactly one polynomial |
| `Scheme.ComputeLine` | nodes/src/crypto/data_structures/commitment.rs:67-74 | one Pedersen commitment a player |
| `Scheme.ComputeCommAndShares` | nodes/src/crypto/scheme.rs:377-413 | player i gets the values of all polynomials at w^i, under the commitments to the same values |
| `Scheme.DealtShareVerifies` | nodes/src/crypto/data_structures/commitment.rs:128-137 | every dealt share verifies against the dealt commitment, in every batch slot |
| `Scheme.ChangedShareFails` | nodes/src/crypto/data_structures/commitment.rs:128-137 | under the same blindings a share that verifies verifies with no other values, in any slot |
| `Scheme.Interpolate` | nodes/src/crypto/scheme.rs:99-120 | true exactly if there are no secrets to compare with or every slot recombines to its secret |
| `Scheme.SharingThenReconstruction` | nodes/src/crypto/scheme.rs:99-120 | any selection of at least get_threshold() distinct players, in any order and up to all of the domain, recombines every slot to its dealt secret |
| `Scheme.ReconstructDealt` | nodes/src/crypto/scheme.rs:99-120 | `interpolate` returns true on dealt shares and dealt secrets |
| `Scheme.InterpolateOnSingle` | nodes/src/crypto/scheme.rs:134-151 | the combination of the values at every alpha |
| `Scheme.InterpolateOnSingleWithProofs` | nodes/src/crypto/scheme.rs:153-175 | the same coefficients combine the proofs |
| `Scheme.MergeMissing` | nodes/src/crypto/scheme.rs:219-233 | known entries land at their own index, the interpolated ones fill the gaps in order |
| `Scheme.CompleteEvaluations` | nodes/src/crypto/scheme.rs:203-234 | the given value at every given index, the combination at its root everywhere else |
| `Scheme.CompleteEvaluationsWithProofs` | nodes/src/crypto/scheme.rs:236-269 | the same with the combined proofs |
| `Scheme.CompletionIsEvaluation` | nodes/src/crypto/scheme.rs:203-234 | shares of a polynomial of degree below their count complete to its value in every slot |
| `Scheme.InterpolateSpecificShare` | nodes/src/crypto/scheme.rs:351-375 | every slot, and its blinding, combined at the point of player i |
| `Scheme.RecoveredShareIsDealt` | nodes/src/lightweight/receivers.rs:114-162 | from dealt shares of get_threshold() other players the recovered share is the one player i was dealt, blinding included |
| `ShareOrder.SortIsOrdered` | nodes/src/crypto/data_structures/share.rs:123-127 | shares of distinct senders are strictly increasing by index after sorting |
| `Bingo.ComputePowers` | nodes/src/crypto/data_structures/bivariate_polynomial.rs:100-106 | 1, y, ..., y^degree |
| `Bingo.EvaluateOnY` | nodes/src/crypto/data_structures/bivariate_polynomial.rs:108-125 | the row at y: every coefficient polynomial evaluated at y |
| `Bingo.RowMeetsColumn` | nodes/src/crypto/data_structures/bivariate_polynomial.rs:108-125 | the row at y and the column at x take the same value where they meet |
| `Bingo.Deal` | nodes/src/bingo/dealer.rs:33-57 | commitment and line m are those of the row at w^(m+1) |
| `Bingo.VerifyMyLine` | nodes/src/bingo/receivers.rs:19-73 | a row is accepted exactly if it matches its commitment; in either serving order player i is served the value at w^i with a proof that verifies, unless the sender is Byzantine |
| `Bingo.OneValuePerProof` | nodes/src/crypto/crypto_lib/crypto_blstrs/poly_commit/kzg.rs:122-146 | for one commitment, point and proof at most one value verifies, so a corrupted value never does |
| `Bingo.ColumnServesRow` | nodes/src/crypto/scheme.rs:271-284 | any t+1 accepted shares of distinct senders, whatever their values, combine at w^(m+1) to a value and proof that verify under commitment m |
| `BingoManagers.KzgInterpolateAll` | nodes/src/crypto/scheme.rs:271-284 | the shift by one, the completion over the whole domain and skip(1) give player m the entry of its own root |
| `BingoManagers.HonestColumnServesRow` | nodes/src/crypto/scheme.rs:271-284 | dealt values combine to the dealt value of row m |
| `BingoManagers.ColManager` | nodes/src/bingo/receivers.rs:118-156 | completes exactly when t+1 of the messages are valid openings; every entry it sends to player m verifies under commitment m at this node's root, unless it is Byzantine, and lies on the dealt row when the collected values were dealt |
| `BingoManagers.CollectedCount` | nodes/src/bingo/receivers.rs:125-133 | every valid opening is collected until there are enough |
| `BingoRows.KzgInterpolateAllWithoutProofs` | nodes/src/crypto/scheme.rs:286-295 | values on a row of at most as many coefficients as shares complete to the row at every player |
| `BingoRows.LineManager` | nodes/src/bingo/receivers.rs:158-187 | aborts exactly if a handled message fails the pairing check; the first 2t+1 handled messages complete the row, to the dealt one when their values lie on it |
| `BingoRows.HandledAre` | nodes/src/bingo/receivers.rs:166-169 | the handled messages are those that arrive while the node does not have all shares |
| `BingoProtocol.CompleteColumn` | nodes/src/bingo/receivers.rs:19-156 | what `verify_my_line` serves to player i makes its column complete exactly when t+1 of the senders are correct; its messages verify and lie on the dealt rows exactly if it is correct |
| `BingoProtocol.RecoverRow` | nodes/src/bingo/receivers.rs:19-187 | dealing, columns and rows joined: player m aborts exactly if it handles the row message of a Byzantine player, and otherwise 2t+1 handled messages give it the dealt row |
| `NivssUtils.GetXpowers` | nodes/src/crypto/crypto_lib/vss/ni_vss/utils.rs:8-18 | x, x^2, ..., x^cnt |
| `NivssUtils.GetXpowersAt0` | nodes/src/crypto/crypto_lib/vss/ni_vss/utils.rs:21-31 | 1, x, ..., x^(cnt-1) |
| `NivssUtils.ScalarMultExp` | nodes/src/crypto/crypto_lib/vss/ni_vss/utils.rs:37-44 | the inner product up to the shorter length |
| `NivssUtils.ScalarUsizeMultExp` | nodes/src/crypto/crypto_lib/vss/ni_vss/utils.rs:46-53 | the inner product with machine integers up to the shorter length |
| `Chunking.FromScalar` | nodes/src/crypto/crypto_lib/vss/ni_vss/chunking.rs:37-50 | the big-endian byte pairs in reverse are the base-2^16 digits |
| `Chunking.ChunksValue` | nodes/src/crypto/crypto_lib/vss/ni_vss/chunking.rs:37-83 | the digits carry the value of the scalar |
| `Chunking.FromDlogs` | nodes/src/crypto/crypto_lib/vss/ni_vss/chunking.rs:53-62 | the digits of the Horner sum of the logarithms |
| `Chunking.RecombineToScalar` | nodes/src/crypto/crypto_lib/vss/ni_vss/chunking.rs:70-83 | the sum of the chunks at their base-2^16 places |
| `DlogRecovery.Create` | nodes/src/crypto/crypto_lib/vss/ni_vss/dlog_recovery.rs:20-30 | entry i is the hash of the i-th multiple of the generator |
| `DlogRecovery.SolveSeveral` | nodes/src/crypto/crypto_lib/vss/ni_vss/dlog_recovery.rs:37-79 | per target the last table entry with its hash, kept only if it is a logarithm of the target |
| `DlogRecovery.SolvesExactly` | nodes/src/crypto/crypto_lib/vss/ni_vss/dlog_recovery.rs:37-79 | a logarithm is found exactly for targets below 2^16 whose hash does not come back later in the table |
| `Encryption.EncChunks` | nodes/src/crypto/crypto_lib/vss/ni_vss/encryption.rs:51-114 | every chunk encrypted under its receiver's key with the shared randomness; r_0 is the randomness at the base-2^16 weights |
| `Encryption.DecChunks` | nodes/src/crypto/crypto_lib/vss/ni_vss/encryption.rs:116-148 | the recombined logarithms, or None if one is not found |
| `Encryption.DecryptEncrypted` | nodes/src/crypto/crypto_lib/vss/ni_vss/encryption.rs:51-148 | for every scalar, key pair, randomness and position, decryption gives Some(s) exactly if the table finds every chunk of s |
| `Encryption.EncryptThenDecrypt` | nodes/src/crypto/crypto_lib/vss/ni_vss/encryption.rs:51-148 | with a hash that has no collision on the table, decryption of an encryption returns Some(s) |
| `NizkChunking.ChallengeIsStream` | nodes/src/crypto/crypto_lib/vss/ni_vss/nizk_chunking.rs:432-448 | the challenge consumes the stream serially: strung together it has 32 entries for every receiver and chunk, and entry p is byte p |
| `NizkChunking.EveryChallengeIsStream` | nodes/src/crypto/crypto_lib/vss/ni_vss/nizk_chunking.rs:440-448 | every challenge of that shape with entries of one byte comes from some stream |
| `NizkChunking.ChallengesBindInputs` | nodes/src/crypto/crypto_lib/vss/ni_vss/nizk_chunking.rs:158-161 | on inputs that differ in keys, ciphertext or first move the oracle may answer with any two challenges |
| `NizkChunking.Exchange` | nodes/src/crypto/crypto_lib/vss/ni_vss/nizk_chunking.rs:330-346 | the sum over repetitions of double sums equals the double sum against the weighted exponents |
| `NizkChunking.RespondAll` | nodes/src/crypto/crypto_lib/vss/ni_vss/nizk_chunking.rs:166-181 | response k is the challenge-weighted double sum of the chunks plus sigma_k |
| `ChunkingRejection.AcceptedDraws` | nodes/src/crypto/crypto_lib/vss/ni_vss/nizk_chunking.rs:122-193 | a draw leads to a published response exactly if it lies in a window of 64 * largest values that starts at largest minus the honest sum, and the response is its place there |
| `ChunkingRejection.AttemptAccepted` | nodes/src/crypto/crypto_lib/vss/ni_vss/nizk_chunking.rs:143-198 | the rejection loop accepts a draw exactly if it lies in the window of every repetition |
| `ProverMasks.BetaMasks` | nodes/src/crypto/crypto_lib/vss/ni_vss/nizk_chunking.rs:137-157 | the commitments of the first move come from exactly one beta, whatever sigma is |
| `ProverMasks.DeltaMasks` | nodes/src/crypto/crypto_lib/vss/ni_vss/nizk_chunking.rs:200-239 | for given challenges every vector of last responses is given for exactly one delta |
| `ChunkingProver.ProveChunking` | nodes/src/crypto/crypto_lib/vss/ni_vss/nizk_chunking.rs:111-251 | the first draw whose responses all lie in range is turned into a proof; there is none exactly if every draw is rejected |
| `ChunkingCompleteness.FlattenLayer` | nodes/src/crypto/crypto_lib/vss/ni_vss/nizk_chunking.rs:330-344 | the flattened multi-exponentiation of repetition k is the double sum over receivers and chunks |
| `ChunkingCompleteness.ChunkEquationHolds` | nodes/src/crypto/crypto_lib/vss/ni_vss/nizk_chunking.rs:326-355 | the last group equation holds for every challenge and every witness of the ciphertext |
| `ChunkingCompleteness.ChunkingComplete` | nodes/src/crypto/crypto_lib/vss/ni_vss/nizk_chunking.rs:111-357 | for any number of receivers, any chunks and any oracle answers, a proof that leaves the rejection loop passes the length, range and all three equation checks |
| `ChunkingSoundness.ChunkSums` | nodes/src/crypto/crypto_lib/vss/ni_vss/nizk_chunking.rs:254-357 | 33 accepted proofs that differ from the second challenge on: in every repetition the challenge-weighted sum of what the receivers see, plus the first commitment, is the published response below the bound plus y0 times beta |
| `ChunkingSoundness.SeenChunkIsBounded` | nodes/src/crypto/crypto_lib/vss/ni_vss/nizk_chunking.rs:254-357 | rewinding the first challenge in one entry too: what receiver i sees in place j, times the change of the challenge, is a difference of two responses below the bound |
| `ChunkingSoundness.OneRowEach` | nodes/src/crypto/crypto_lib/vss/ni_vss/nizk_chunking.rs:330-344 | an accepted ciphertext has one row for every receiver |
| `NizkSharing.SharingComplete` | nodes/src/crypto/crypto_lib/vss/ni_vss/nizk_sharing.rs:51-218 | on an honest statement the three equations hold for every oracle answer and every choice of the prover |
| `SharingSoundness.SharingExtracts` | nodes/src/crypto/crypto_lib/vss/ni_vss/nizk_sharing.rs:165-218 | two accepted proofs with one first move and different challenges: against the powers of the share answer the two ciphertext columns are the commitments plus the keys times the two encryption keys |
| `SharingSoundness.ReceiversExtract` | nodes/src/crypto/crypto_lib/vss/ni_vss/nizk_sharing.rs:165-218 | with as many rewound pairs on different share answers as receivers, the same holds for every receiver by itself |
| `SharingSoundness.DecryptionOpensCommitment` | nodes/src/crypto/crypto_lib/vss/ni_vss/nizk_sharing.rs:165-218 | then what receiver i decrypts from its recombined chunks and from its blinding ciphertext opens commitment i |
| `ProverMasks.SharingMasks` | nodes/src/crypto/crypto_lib/vss/ni_vss/nizk_sharing.rs:51-108 | whatever the witness, for a given challenge each triple of responses is given for exactly one triple of random scalars |
| `Dealing.RebuiltStatement` | nodes/src/crypto/crypto_lib/vss/ni_vss/nizk_sharing.rs:177-188 | the chunk ciphertexts recombined with the powers of 2^16 are the prover's enc_ss and r_aa |
| `Dealing.HonestStatement` | nodes/src/crypto/crypto_lib/vss/ni_vss/dealing.rs:23-61 | the statement `create_dealing` builds is honest: commitments and both ElGamal columns fit the witness |
| `Dealing.EncryptAndProve` | nodes/src/crypto/crypto_lib/vss/ni_vss/encryption.rs:155-174 | the ciphertext of the digits of the shares with a chunking proof that verifies; there is none exactly if every draw is rejected |
| `Dealing.CreateDealing` | nodes/src/crypto/crypto_lib/vss/ni_vss/dealing.rs:15-81 | on commitments to the shares, every returned transcript passes `verify_dealing` and encrypts the digits of the shares; there is none exactly if every draw is rejected |
| `DealingSoundness.DealingChunks` | nodes/src/crypto/crypto_lib/vss/ni_vss/dealing.rs:66-81 | rewound accepted dealings bound the chunks as accepted chunking proofs do |
| `DealingSoundness.DealingShares` | nodes/src/crypto/crypto_lib/vss/ni_vss/dealing.rs:66-81 | rewound accepted dealings let every receiver decrypt an opening of its commitment |
| `OneSidedVote.Listener.Handle` | nodes/src/one_sided_vote/mod.rs:28-71 | one turn of the loop: new variables and broadcasts are those of the step function |
| `OneSidedVote.RunInvariant` | nodes/src/one_sided_vote/mod.rs:27-72 | in every state of every run with n >= 3t+1 and at most t Byzantine parties, counters match handled messages and every vote is backed by t+1 honest Oks |
| `OneSidedVote.Safety` | nodes/src/one_sided_vote/mod.rs:32-68 | whoever has voted or output is preceded by t+1 honest Oks; each party votes and outputs at most once; vote_count > t implies has_voted |
| `OneSidedVote.Totality` | nodes/src/one_sided_vote/mod.rs:44-56 | once all honest votes are delivered, one honest output means that every honest party has output exactly once |
| `OneSidedVote.Termination` | nodes/src/one_sided_vote/mod.rs:34-56 | once all honest messages are delivered, 2t+1 honest Oks mean that every honest party has output |
| `OneSidedVote.AskedBroadcasts` | nodes/src/one_sided_vote/mod.rs:63-68 | a party asked to broadcast Ok while it listens has broadcast it exactly once in every later state |
| `OneSidedVote.BroadcastWasAsked` | nodes/src/one_sided_vote/mod.rs:63-68 | a party broadcasts Ok only after it was asked to |
| `OneSidedVote.RequestsTerminate` | nodes/src/one_sided_vote/mod.rs:34-68 | once all honest messages are delivered, 2t+1 honest parties that were asked while they listened mean that every honest party has output |
| `OneSidedVote.VoteRequestIsIdle` | nodes/src/one_sided_vote/mod.rs:57-62 | a request to vote never finds work: it changes nothing in any run |
| `Variations.Variation.constructor` | global_lib/src/config_treatment/variations.rs:73-83 | starts at rank 0 with empty curves, on a supported first pair |
| `Variations.Variation.IncVariationIndex` | global_lib/src/config_treatment/variations.rs:145-154 | the main digit, wrapping at the number of main values |
| `Variations.Variation.IncSubvariationIndex` | global_lib/src/config_treatment/variations.rs:156-171 | the secondary value digit, whose radix depends on the current secondary field |
| `Variations.Variation.IncSubvariedIndex` | global_lib/src/config_treatment/variations.rs:173-188 | the secondary field digit |
| `Variations.Variation.IncAlgoIndex` | global_lib/src/config_treatment/variations.rs:190-202 | the next algorithm that supports the step, skipping no supported one |
| `Variations.Variation.IncStepIndex` | global_lib/src/config_treatment/variations.rs:204-216 | the next supported pair of step and algorithm, or over with none left |
| `Variations.Variation.Next` | global_lib/src/config_treatment/variations.rs:137-143 | the next combination ranks one higher; over exactly at the last rank |
| `Variations.RankInjective` | global_lib/src/config_treatment/variations.rs:137-216 | different combinations have different ranks |
| `Variations.EachExactlyOnce` | global_lib/src/config_treatment/variations.rs:218-226 | a trace that climbs through all ranks visits every supported combination exactly once |
| `Variations.Insert` | global_lib/src/config_treatment/result_fields.rs:27-39 | appends the curve to the list of its step and key and leaves the others alone |
| `Variations.Variation.InsertResult` | global_lib/src/config_treatment/variations.rs:250-257 | the same under the key of the current digits; the support assertion never fails |
| `Variations.ListsExactlyWhenDistinct` | global_lib/src/config_treatment/variations.rs:232-257 | the list under a step, an algorithm and a secondary value holds at position k the result of main value k, exactly when no two blocks share a key |
| `Variations.DuplicateFreeIsDistinct` | global_lib/src/config_treatment/variations.rs:232-248 | listing no step, algorithm or secondary value twice keeps the keys of different blocks apart |
| `Variations.RepeatedAlgorithm` | global_lib/src/config_treatment/variations.rs:232-248 | the failing input: an algorithm listed twice puts two blocks under one key |
| `Variations.Variation.Evolve` | global_lib/src/config_treatment/variations.rs:218-226 | stores the current result and moves on; ends after exactly Total(data) calls, having visited every combination once |
| `ReedSolomon.ReedSolomonEncode` | nodes/src/crypto/data_structures/reed_solomon_code.rs:61-93 | pads to a multiple of t, splits into t zero-filled shards and codes them |
| `ReedSolomon.ShardSizeIsLeast` | nodes/src/crypto/data_structures/reed_solomon_code.rs:67-70 | the shard size is the least power of two that reaches both the share size and 64 |
| `ReedSolomon.ComputeSecretFromShares` | nodes/src/crypto/data_structures/reed_solomon_code.rs:45-53 | cuts, strings together and truncates the shards |
| `ReedSolomon.RejoinOriginals` | nodes/src/crypto/data_structures/reed_solomon_code.rs:45-93 | splitting and rejoining give the message back, whatever its length |
| `SecureMessages.DecryptEncrypted` | nodes/src/secure_message_dist/enc_dec.rs:5-16 | decrypting an encryption gives the bytes back |
| `SecureAgreement.KeyBytesValue` | nodes/src/secure_message_dist/enc_dec.rs:5-12 | the 32 bytes of a key are its big-endian value |
| `SecureAgreement.DifferentKeysDiffer` | nodes/src/secure_message_dist/enc_dec.rs:5-16 | different keys give different ciphertexts of a message of 32 bytes or more |
| `SecureMessages.GetTranscripts` | nodes/src/secure_message_dist/init.rs:15-72 | node j gets share j of every message with its root, the evaluations at j+1, and the decoder data of message j |
| `SecureMessages.InterpolateAt` | nodes/src/secure_message_dist/smd_memory.rs:175-188 | the nested product loop is Lagrange interpolation at integer points |
| `SecureMessages.Decode` | nodes/src/secure_message_dist/smd_memory.rs:132-209 | panics on too few or clashing secrets or a wrong root, and otherwise returns the decrypted rejoined message |
| `SecureMessages.SecretIsDealt` | nodes/src/secure_message_dist/smd_memory.rs:250-311 | what `propose` echoes and `new_echo` stores is the dealt secret of its sender |
| `SecureMessages.DecodesDealt` | nodes/src/secure_message_dist/smd_memory.rs:132-209 | any n - 2t dealt secrets of a message, in any order, pass the root assertion and decode to the message |
| `SecureMessages.DistributeThenDecode` | nodes/src/secure_message_dist/init.rs:15-72 | for messages of equal length any n - 2t nodes let node i decode its message, with the decoder data of any node |
| `SecureAgreement.RootDecides` | nodes/src/secure_message_dist/smd_memory.rs:191-208 | two recovered secrets of one length that pass the assertion under one root decrypt to one message, without collisions of the hashes |
| `SecureAgreement.DecodingsAgree` | nodes/src/secure_message_dist/smd_memory.rs:132-209 | two decodings with the same decoder data and root never return different messages, whatever their secrets are |

## Left out

- Networking, process management, logging, timers, plotting, JSON and serialization.
- Curve and pairing arithmetic, SHA, Merlin, ChaCha and the erasure code crate, which are parameters with contracts.
- Machine integer widths: indices and counters are unbounded, and the bounds the code needs appear as preconditions.
- The probabilities of soundness and zero knowledge: the soundness theorems take rewound runs as given, and the masking
  theorems count choices.
- SecureAgreement.DecodingsAgree: that the erasure decoder returns as many shards as it was given originals for, each at
  least as long as a share, is a precondition; shards of other lengths may rejoin to messages that differ in trailing
  zeros.
- `done_manager` of Bingo, and the vote and share counters of secure message distribution: their correctness depends on
  message timing beyond at-most-once delivery.
- `broadcast_memory.rs`, `haven/receiver.rs` and `disperse_retrieve`, for the same reason.
- `batch_open`, `verify_single_evaluation`, `evaluate_on_x` and `feldman.rs`, which the modelled path does not call.
- `accumulator_poly_slow`, `batch_verify`, `interpolate_on` and the one-value variants beside `interpolate_one`: they
  repeat members modelled here.
- The copying of the current values into the experiment fields after `evolve`. The label of a curve is modelled as the
  secondary field with its value, not as a string.
- Aliasing: a Byzantine sender of Bingo is modelled only by the corruption the code performs on its own shares.
- Vectors that a Rust function grows or shrinks are sequences; only the fixed-size transforms are arrays.
- SecureMessages.DistributeThenDecode: the secrets are collected directly from the proposals, so delivery, the root
  proofs of single leaves and the forwarding of complaints are not part of this model.
- Variations.Variation.Evolve: the assertion that a curve map is still present after the end is a precondition.
