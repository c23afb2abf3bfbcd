# LaBRADOR and its CPU backend in Dafny

This project models the LaBRADOR prover and verifier of `src/` and the parts of the ICICLE CPU backend that
they stand on, and proves what the protocol and the algorithms promise.

**The protocol.** A round commits to a witness S, folds the constraints into one, and answers a challenge with
`(z, t, g, h)`. The verifier rebuilds the transcript and checks five algebraic identities. Between rounds the checks
themselves become the next round's constraint system, and the base proof becomes its witness.

* An honest round passes the algebraic checks exactly when S satisfies the aggregated constraint.
* The packed witness satisfies the next round's constraints exactly when the base proof it came from passes the
  checks, for every `base0` below 65536. For larger ones the 32-bit product `base0 * base0` (src/shared.cpp:432) wraps,
  and the constraint on z is off by the lost part times `<z1, z1>`; the exact condition for acceptance is proved.
* By induction over the rounds, whatever the hash and sampling functions are, `verify()` accepts what `prove()` returns.
  The bound on `base0` that this needs is sharp.
* What a verdict means: a round made from any input of the right size, witness or not, is accepted exactly when the norms
  pass and two random combinations of what the constraints leave at that input vanish. Message polynomials can be
  replaced after the fact only by others of the same constant coefficients.
* The transcript binds: runs that end in the same oracle state have sent the same encodings, or two named inputs of the
  hash collide; every challenge depends on exactly the messages sent before it.

The specification of all this is functional (modules `Protocol` and `Runs`). The classes `LabradorInstance`, `Oracle`,
`LabradorBaseProver`, `LabradorBaseVerifier`, `LabradorProver` and `LabradorVerifier` follow the source loop by loop and
buffer by buffer, and each method is proved equal to its part of the specification.

**The transform.** The in-place radix-2 path and the three-layer parallel path (skipped layers, corrected addresses,
twiddle refactoring, any order of the tasks within a layer) are proved equal to the plain DFT sum; the coset wrapper, in
place or not, gives the negacyclic transform that the protocol uses, which is invertible and turns products modulo
X^64 + 1 into pointwise ones.

**Sumcheck, FRI, the worker pool.** Every sumcheck entry is what the output object held plus the true round function, for
every order in which the workers take their elements, and a run into an empty object telescopes. FRI folding commutes with
evaluation and keeps low degree. When prover and verifier use the same root and the proof object is fresh, an honest proof
is accepted for all inputs exactly when `stopping_degree + 1` is a power of two; the exact condition for other roots is
proved as well. Of any proof whose leaves are entries of codewords, acceptance says exactly that the right pairs are opened
and all their folds found; queries that cover half the domain make the codewords one folding chain. The slots of the worker pool and the merge of the norm check are state machines over atomic steps.

Arithmetic is in Z_q for the concrete composite q of babykoala, using only ring laws and the inverse of two. Polynomials
have 64 coefficients. Hashing, sampling, encodings, norms over the reals and parameter choice are the fields of the record
`Protocol.Backend`, about which nothing is assumed.

## Findings

* `base0 * base0` is taken in 32 bits (src/shared.cpp:432). `RecursionWrap.TwoRoundsAcceptedIff` gives the exact condition
  under which an honest run is still accepted; for every `base0` from 65536 on `WrapRuns.WrapRejected` is one that is not.
* The verifier holds h against the bound of base2 and g against that of base3 (src/verifier.cpp:97-102), while the prover
  decomposes g with base2 and h with base3. `NormBounds.SwappedBounds` gives the exact condition on the two bases under
  which all digits still pass; it holds when they are equal, as every caller sets them.
* The workers of the infinity-norm check merge their maxima with one exchange and no retry
  (icicle/backend/cpu/src/ring/cpu_norm.cpp:138-144). With the maxima 5 and 3 there is a schedule on which bound 4 accepts
  (`NormMerge.LostUpdate`). `NormMerge.AlwaysRightIff` says exactly when no schedule errs. Small inputs always pass, so
  honest runs do, and one worker is exact.
* The FRI verifier clears the caller's flag only when the final polynomial has the wrong size: when the nonce or a query
  fails it returns with the flag as it was (icicle/src/fri/fri.cpp:86 and 95). The flag is the verdict on all proofs if and
  only if the caller cleared it (`FriVerifier.FlagIsVerdict`).
* A stopping degree for which `stopping_degree + 1` is not a power of two is accepted by the code and makes the verifier
  reject honest proofs, because it looks the final polynomial up modulo its size (icicle/src/fri/fri.cpp:217) while the
  fold fills only the largest power of two below: see `FriVerifier.SameRootAccepted` and `FriVerifier.OtherSizesRejected`.
* The FRI verifier takes its twiddles from `omega_inv`, the prover from the domain, which may have been initialised with
  another primitive root. `FriVerifier.PowerOfTwoAccepted` gives the exact condition, `FriVerifier.OtherRootRejected` honest
  proofs that are rejected.
* A FRI proof object that is used again keeps its rows at their old length (icicle/include/icicle/fri/fri_proof.h:43-52):
  too short ones throw, too long ones give no honest proof (`FriProver.GetProof`).
* A sumcheck proof object that is used again keeps its round polynomials, and the prover adds onto them
  (icicle/include/icicle/sumcheck/sumcheck_proof.h:41-47, icicle/backend/cpu/include/cpu_sumcheck.h:109-115). The proof is the
  true one if and only if what was there is zero and of the right length (`SumcheckRun.TrueExactly`); a second run claims
  twice the sum (`SumcheckRun.SecondRun`).
* The order loop of the domain's initialisation adds to the stored log size, also when it fails
  (icicle/backend/cpu/include/cpu_ntt_domain.h:78-94). After a failed call a proper root gets a table that is not its own,
  in which transforms up to 2^24 read nothing but ones (`NttDomains.CpuNttDomain.FailedThenInit`).

## Model

| member | source | states |
|---|---|---|
| RunLoops.ProveAndVerify | src/verifier.cpp:478-511 | prover object and verifier object run from one seed: the prover returns exactly when the specified run does not fail, and what it returns is accepted, whatever the norm check's workers do |
| Runs.Completeness | src/prover.cpp:583-629 | for every witness, number of rounds and backend, the verifier accepts the prover's transcripts and last proof |
| ZeroRuns.SomeRun | src/prover.cpp:583-629 | for every number of rounds there is a run that meets all the conditions of completeness |
| ZeroRuns.ZeroRunFits | src/prover.cpp:594-611 | with any lenient backend the zero witness runs through every number of rounds without failing |
| Runs.SameTranscript | src/verifier.cpp:4-70 | both sides derive the same seeds, psi, omega, alpha, challenges and final constraint, although one counts the alphas after aggregation and the other ahead of it |
| Runs.RoundAccepted | src/verifier.cpp:406-467 | a witness's round passes the tests on its messages and satisfies the final constraint |
| MessageTests.RoundVerdict | src/verifier.cpp:406-467 | for any input s of the right size, a run of one round is accepted if and only if the norms pass, psi of every round cancels the const-zero residuals at s and alpha cancels the evaluations of the instance's own equalities at s |
| MessageTests.HonestPassIff | src/verifier.cpp:421-459 | messages made from any s pass if and only if the projection is short and in every aggregation round k the sum over l of psi[k L + l] times the residual of constraint l is zero |
| MessageTests.PassesInPlace | src/verifier.cpp:448-459 | once messages pass, other message polynomials (and another u2) pass in their place if and only if the constant coefficients of all rounds stay the same |
| MessageTests.ReplacedRejected | src/verifier.cpp:455-458 | replacing any one message polynomial by one with another constant coefficient gets accepted messages rejected |
| MessageTests.ExpectedMeaning | src/verifier.cpp:434-458 | the test of polynomial k asks for the sum of psi[k L + l] b_l less the sum of omega[k J + j] p_j, indices written out |
| MessageTests.AddedMeaning | src/prover.cpp:75-209 | for every s the k-th added constraint evaluates to psi[k L + l] times the const-zero constraints plus omega[k J + j] times the projection rows plus its b; the instance's equalities stay in front |
| MessageTests.FinalEvaluates | src/types.cpp:4-58 | for every s the final constraint of an honestly made round evaluates to the alphas times the instance's own equalities alone |
| Acceptance.AcceptedIff | src/verifier.cpp:478-511 | a run of any number of rounds is accepted if and only if there are instances, each the recursion's successor of the one before, whose messages pass under the state left by all earlier messages, and the last proof is short, opens its commitments and satisfies the five equations |
| HashChain.SeedBinds | src/verifier.cpp:4-70 | messages that lead to the same j-th seed agree in their first j encodings, or two different byte strings hashed in the same step have one digest |
| HashChain.RunBinds | src/prover.cpp:583-629 | the same over all rounds of a run |
| HashChain.SamplesAre | src/verifier.cpp:25-69 | psi, omega, alpha and the challenges entry by entry: the chained state, mark, count and index each is drawn with |
| ChallengeFlow.PsiDependsOn | src/prover.cpp:365-390 | two message tuples give the same psi under every backend if and only if they agree in u1, nonce and projection |
| ChallengeFlow.OmegaDependsOn | src/prover.cpp:390-394 | the same for omega |
| ChallengeFlow.AlphaDependsOn | src/prover.cpp:411-424 | the same alpha under every backend if and only if they also agree in the message polynomials |
| ChallengeFlow.ChallengesDependOn | src/prover.cpp:494-503 | the same challenges under every backend if and only if they agree in all messages |
| ChallengeFlow.ProjectionDependsOn | src/prover.cpp:15-37 | the same projection matrix under every sampler if and only if the seeds agree and the nonces agree in their last byte |
| ChallengeFlow.StartDependsOn | src/shared.cpp:34-75 | the same initial state under every encoding if and only if seed, parameters and both numbers of constraints agree; the contents of the constraints do not enter |
| Runs.AdvanceWitnessed | src/prover.cpp:594-611 | the witness handed to the next round is a witness of the next round's instance |
| Runs.PartsStandForZ | src/prover.cpp:542-562 | when the two digits recompose, z0 + base0 z1 has exactly the values of z |
| RunLoops.LabradorProver.Prove | src/prover.cpp:583-629 | the round loop computes the specified run, including where it throws |
| RunLoops.LabradorProver.FoldRound | src/prover.cpp:594-611 | one folded round: transcript, next instance, next witness and oracle state, or failure, as specified |
| RunLoops.LabradorVerifier.Verify | src/verifier.cpp:478-511 | for messages and a proof of the right sizes: all that the specification accepts is accepted, nothing that fails any check but the digit norms is, and with one norm worker the two agree exactly |
| RunLoops.HonestWellFormed | src/verifier.h:89-103 | an honest run's messages and proof have the sizes the verifier relies on, in every round |
| RecursionTheorem.RecursionPreservesMeaning | src/shared.cpp:145-468 | for base0 below 65536, the packed witness satisfies all constraints of steps 8 to 13 if and only if the base proof with z = z0 + base0 z1 passes checks 3 to 7 |
| RecursionTheorem.ConstraintsMeaning | src/shared.cpp:200-467 | for every base0, the constraints hold exactly when the checks' residues vanish, the last one up to the wrapped square |
| RecursionTheorem.ChecksMeaning | src/verifier.cpp:130-264 | the algebraic checks hold exactly when their coordinate residues vanish |
| RecursionWrap.AdvanceWitnessedIff | src/shared.cpp:428-466 | for every base0 the next witness satisfies the next instance if and only if the lost part of base0^2 times <z1,z1> vanishes |
| RecursionWrap.TwoRoundsAcceptedIff | src/verifier.cpp:478-511 | for every base0 an honest two-round run is accepted if and only if the second round's challenge times that excess vanishes |
| WrapRuns.BaseBoundIsSharp | src/shared.cpp:432-432 | honest two-round runs that meet all other conditions are accepted for every backend and witness if and only if base0 is below 65536 |
| WrapRuns.WrapRejected | src/shared.cpp:432-432 | for every base0 from 65536 on, a run that the prover completes, with witness and digits of its own making, and the verifier rejects |
| WrapRuns.NextUnwitnessed | src/shared.cpp:428-466 | in that run the recursion step succeeds and its witness violates the next instance |
| RecursionWrap.WrapLoses | src/shared.cpp:432-432 | what the 32-bit product loses is never zero modulo q |
| LinearMeaning.SplitZ | src/shared.cpp:263-271 | coefficients at z0 and base0 times them at z1 read z0 + base0 z1 |
| LinearMeaning.NegChallengesDot | src/shared.cpp:273-296 | the negated challenges in column i against t give minus the i-th entry of c t |
| LinearMeaning.AMeaning | src/shared.cpp:252-300 | the i-th constraint of step 10 evaluates to (zA - c t)_i |
| QuadraticMeaning.PhiMeaning | src/shared.cpp:303-346 | the constraint of step 11 evaluates to c Phi z - c H c |
| QuadraticMeaning.TraceMeaning | src/shared.cpp:360-425 | the constraint of step 12 evaluates to <a,G> + tr H + b |
| SquareMeaning.ZMeaning | src/shared.cpp:428-466 | the constraint of step 13 evaluates to <z,z> - c G c plus the wrap error times <z1,z1> |
| SquareMeaning.BlockRows | src/shared.cpp:433-442 | a sum against the block matrix is the sum over the four groups of rows with their coefficients |
| SquareMeaning.SquareOfSum | src/shared.cpp:428-442 | <z0 + b z1, z0 + b z1> expanded over the two digits |
| Recursion.OuterSymmSlot | src/shared.cpp:318-332 | packed c c^t with the diagonal once and the other entries twice |
| RecursionPreparation.PrepareRecursionInstance | src/shared.cpp:145-468 | the loops of steps 8 to 13 build exactly the specified constraints, in order, with the least sizes that hold the parts and the derived parameters |
| RecursionPreparation.NextInstanceIs | src/shared.cpp:180-197 | the next instance has the least n' with n <= nu n' and t, g, h together <= mu n', the least rows of it for each part, one base chosen for r' and the norm 64 r n beta, and matrices from four seeds; it fails exactly when that base is below two |
| RecursionPreparation.PrepareRecursionWitness | src/prover.cpp:535-581 | decompose, recompose check and five copies give exactly the specified witness or failure |
| Runs.NextWitnessIff | src/prover.cpp:541-556 | the witness can be made if and only if base0 is at least two and two digits lose nothing of any coefficient of z modulo q |
| RecursionSteps.AddU1 | src/shared.cpp:200-222 | one constraint -u1 + tB + gC for every entry of u1, after those already there |
| RecursionSteps.AddU2 | src/shared.cpp:229-247 | one constraint -u2 + hD for every entry of u2 |
| RecursionSteps.AddA | src/shared.cpp:252-300 | one constraint zA - sum c_j t_j for every column of A |
| RecursionSteps.AddPhi | src/shared.cpp:303-346 | the constraint c Phi z - c H c |
| RecursionSteps.AddTrace | src/shared.cpp:360-425 | the constraint on a, G, the trace of H and b |
| RecursionSteps.AddZ | src/shared.cpp:428-466 | the constraint <z,z> - c G c |
| RecursionBuffers.BuildDigitWeights | src/shared.cpp:282-294 | the running power in one buffer and copies into another give [w, base w, base^2 w, ...] |
| RecursionBuffers.PartWritten | src/shared.cpp:115-143 | writing a part at its begin index replaces that part of the packed vector and no other |
| RecursionBuffers.CopyLikeG | src/shared.cpp:133-137 | the buffer holds the packed parts with g replaced |
| CoefficientLoops.BuildSymmIdentity | src/shared.cpp:383-393 | the walk with a shrinking skip sets exactly the packed diagonal to one |
| CoefficientLoops.FillSquareBlocks | src/shared.cpp:431-442 | four entries at a time fill the block matrix of the recomposed square |
| Layout.PrepareFits | src/shared.h:57-71 | every part fits the rows that the constructor gives it |
| Layout.PrepareLeast | src/shared.h:57-71 | w is wide enough for z in nu rows and t, g and h in mu rows exactly from n' on, and k rows of it hold a part exactly from that part's row count on |
| Layout.Regions | src/shared.cpp:105-113 | the five regions follow one another inside r' x n' without overlap |
| Layout.PackedDot | src/shared.cpp:115-143 | the inner product of packed vectors is the sum of the five regional ones |
| Layout.DotConcat | src/shared.cpp:115-143 | inner products add over concatenation |
| Packing.SymmRoundTrip | src/utils.h:22-83 | unpacking after packing gives back every symmetric matrix |
| Packing.UnpackPack | src/utils.h:43-83 | every packed entry is read back on both sides of the diagonal |
| Packing.SymmetricDot | src/shared.cpp:371-392 | <M,G> for symmetric G is the packed product with the mirrored entries of M added |
| Packing.Triangle | src/shared.cpp:371-382 | a sum over a square is a sum over its triangle with mirrored entries added |
| SymmetricLoops.ExtractSymmPart | src/utils.h:22-42 | row copies with a moving offset give the packed upper triangle |
| SymmetricLoops.ReconstructSymmMatrix | src/utils.h:48-83 | row copies and mirroring give the symmetric matrix of the packed triangle |
| SymmetricLoops.ComputeMatrixTrace | src/utils.h:107-137 | strided slices of the flat matrix sum to the trace of polynomials |
| BaseCompleteness.BaseProofChecks | src/prover.cpp:276-529 | the honest base proof passes the algebraic checks if and only if S satisfies the constraint |
| BaseCompleteness.RecoversG | src/verifier.cpp:189-196 | recomposing and unpacking g gives the values of S S^t |
| BaseCompleteness.RecoversH | src/prover.cpp:452-478 | recomposing and unpacking h gives the symmetrised values of Phi S^t |
| BaseCompleteness.SymmetricHalf | src/prover.cpp:462-472 | half of m plus its transpose has the quadratic form of m |
| BaseCompleteness.CrossSlot | src/prover.cpp:446-451 | entries of Phi S^t as inner products of rows |
| BaseCompleteness.TraceMeasures | src/verifier.cpp:251-264 | the trace check's residue is exactly the evaluation of the constraint at S |
| BaseProver.RecoversT | src/verifier.cpp:172-178 | recomposing t gives the values of S A |
| BaseProver.NttInttVec | src/prover.cpp:288-293 | going to coefficients and back changes no value |
| BaseProverLoops.LabradorBaseProver.BaseCaseProver | src/prover.cpp:253-533 | proof, transcript, final instance and oracle state of one round, as specified by ProverRound; what its transcript draws from what is fixed by SamplesAre and SameTranscript |
| BaseProverLoops.LabradorBaseProver.AggConstZeroConstraints | src/prover.cpp:46-250 | the const-zero constraints are replaced by the specified equalities, which AddedMeaning fixes index by index, and their b returned |
| BaseProverLoops.BalancingComputed | src/prover.cpp:197-209 | two inner products and a multiplication by minus one give the balancing b |
| BaseVerifierLoops.LabradorBaseVerifier.CreateTranscript | src/verifier.cpp:4-70 | the transcript and the oracle state follow from the messages, each seed after its own message (SamplesAre, SeedBinds) |
| BaseVerifierLoops.LabradorBaseVerifier.AggConstZeroConstraints | src/verifier.cpp:270-402 | the same equalities as the prover's, with the message polynomials as constants, fixed index by index by AddedMeaning |
| BaseVerifierLoops.LabradorBaseVerifier.CheckMessages | src/verifier.cpp:421-458 | for messages of the right sizes, the loop accepts exactly when the norm is small and every constant coefficient, the first included, is the expected one; PassesInPlace and HonestPassIff say what that rejects |
| BaseVerifierLoops.LabradorBaseVerifier.PartVerify | src/verifier.cpp:406-467 | for messages of the right sizes, the verdict on the messages, and the final constraint when it is positive |
| BaseVerifierLoops.LabradorBaseVerifier.VerifyBaseProof | src/verifier.cpp:74-265 | for a proof of the right sizes: all that the specification accepts is accepted, all but the digit norms is checked exactly, and with one norm worker these too |
| BaseCheckLoops.CheckDigits | src/verifier.cpp:87-108 | the three infinity norms against the bounds of base1, base2 and base3 as the code pairs them: small digits always pass, and with one worker only they do |
| BaseCheckLoops.CheckProducts | src/verifier.cpp:186-264 | the three equations about z, G and H, with G and H rebuilt from digits |
| ConstZeroAggregation.AggregationFaithful | src/prover.cpp:112-243 | when all const-zero constraints hold, the constant coefficient of the prover's b is what the verifier recomputes |
| ConstZeroAggregation.ConstantMeasures | src/verifier.cpp:434-458 | without that assumption the two differ by exactly the weighted residuals |
| ConstZeroAggregation.AggregatedHolds | src/prover.cpp:197-209 | the added constraint holds of the witness, whatever the weights |
| ConstZeroAggregation.CombinedRowsNtt | src/prover.cpp:169-194 | combining the projection rows and then transforming is combining the transformed rows |
| ConstZeroAggregation.ScalarLinear | src/prover.cpp:130-148 | inner products are linear in the scalar combination |
| Projection.ConjugateProduct | icicle/include/icicle/jl_projection.h:80-91 | the constant coefficient of conj(a) s in Z_q[X]/(X^64+1) is the inner product of the coefficients |
| AggregationLoops.AggregateParts | src/prover.cpp:112-194 | scaling in place, summing and the weighted projection rows give the specified a and phi |
| AggregationLoops.SumExpected | src/verifier.cpp:447-453 | the loop computes the expected constant coefficient |
| Constraints.AggregateEval | src/types.cpp:4-58 | the aggregate evaluates to the alpha-combination of the evaluations, for every S |
| Constraints.AggregateSatisfied | src/types.cpp:4-58 | a witness of every constraint is one of the aggregate |
| Constraints.DotLinear | src/types.cpp:16-46 | inner products are linear in the combined vector |
| Constraints.CombinationSlot | src/types.cpp:23-31 | coordinates of a combination are combinations of coordinates |
| LabradorInstances.LabradorInstance.AggEqualityConstraints | src/types.cpp:4-58 | scaling in place and adding up leaves exactly the aggregate |
| LabradorInstances.LabradorInstance.AddEqualityConstraints | src/types.h:213-220 | all are added or, when one has another shape, none |
| LabradorInstances.LabradorInstance.AddConstZeroConstraint | src/types.h:222-227 | added exactly when it has the instance's shape |
| LabradorInstances.LabradorInstance.AddConstZeroConstraints | src/types.h:229-237 | all are added or, when one has another shape, none |
| Oracles.Oracle.Generate | src/oracle.cpp:3-15 | the digest of state and message is the answer and the next state |
| BaseChecks.GapIff | src/shared.cpp:3-9 | vectors are equal exactly when their residues vanish |
| BaseChecks.SelfProduct | src/verifier.cpp:206-207 | the product of z with itself, coordinate by coordinate |
| BalancedDigits.DigitsSuffice | scripts/python/balanced_decomposition.py:47-84 | the carry is zero after the computed number of digits, for every modulus and base |
| BalancedDigits.NofDigitsLeast | icicle/include/icicle/balanced_decomposition.h:34-47 | the number of digits, less the spare one of bases above two, is at most s if and only if b^s reaches q |
| BalancedDigits.RoundTrip | scripts/python/balanced_decomposition.py:47-84 | digits with their weights give the centered value, and the residue modulo q |
| BalancedDigits.DigitCarry | icicle/backend/cpu/src/ring/cpu_balanced_decomposition.cpp:17-36 | one step: the value is base times carry plus digit, and digits lie in (-b/2, b/2], 0 or 1 for base two |
| DecompositionLoops.Decompose | icicle/backend/cpu/src/ring/cpu_balanced_decomposition.cpp:76-150 | the loop stores digit j of every element in the j-th block, as residues |
| DecompositionLoops.RecomposeElement | icicle/backend/cpu/src/ring/cpu_balanced_decomposition.cpp:155-205 | Horner's scheme gives the weighted sum of the digits |
| DigitVectors.VectorRoundTrip | src/prover.cpp:545-550 | recompose after decompose is the identity on every vector of polynomials |
| DigitVectors.StoredDigits | icicle/backend/cpu/src/ring/cpu_balanced_decomposition.cpp:76-150 | the digit-major layout holds what the loop over residues stores |
| DigitVectors.WeightsSeeThrough | src/shared.cpp:282-296 | digit weights against digits are the plain weights against the recomposed values |
| NormBounds.SwappedBounds | src/verifier.cpp:92-108 | all digits pass the swapped bounds if and only if each base's half is below the other's bound |
| NormBounds.DigitsAlwaysBelow | src/verifier.cpp:92-108 | digits of a base pass a bound for every input if and only if half the base is below it |
| NormBounds.BelowLimit | src/verifier.cpp:92-102 | a vector passes a base's bound if and only if every coefficient is the residue of an integer of at most half the base, rounded up, in magnitude |
| NormBounds.CheckInfinity | icicle/backend/cpu/src/ring/cpu_norm.cpp:113-157 | entries below the bound are always accepted, one worker accepts nothing else, and the verdict is that of some schedule of the workers' loads and exchanges |
| NormMerge.MergeMaxima | icicle/backend/cpu/src/ring/cpu_norm.cpp:138-144 | whatever the interleaving, the merged maximum is that of a complete schedule of single loads and single exchanges |
| NormMerge.AlwaysRightIff | icicle/backend/cpu/src/ring/cpu_norm.cpp:138-144 | no schedule errs if and only if all maxima are below the bound or every non-zero one reaches it |
| NormMerge.RightDespiteFailuresIff | icicle/backend/cpu/src/ring/cpu_norm.cpp:138-144 | where the weak exchange may fail without cause: if and only if all maxima are below the bound or the bound is zero |
| NormMerge.LostUpdate | icicle/backend/cpu/src/ring/cpu_norm.cpp:138-144 | maxima 5 and 3 with bound 4: a schedule that accepts |
| NormBounds.LocalsBelow | icicle/backend/cpu/src/ring/cpu_norm.cpp:121-137 | the ceiling split loses no entry: all are below a bound exactly when all workers' maxima are |
| Polynomials.InttNtt | icicle/src/ntt.cpp:187-210 | inverse after forward negacyclic transform is the identity |
| Polynomials.Convolution | icicle/src/ntt.cpp:187-210 | transform, multiply pointwise, transform back: the product modulo X^64 + 1 |
| PolynomialNtt.NegacyclicNtt | icicle/src/ntt.cpp:187-210 | domain initialisation, lookup of psi and the batched coset transform, in place or not, give the negacyclic transform or its inverse |
| NegacyclicRun.Run | icicle/backend/cpu/include/ntt_cpu.h:70-231 | copy, coset twiddles, transform, reorder and scaling give every row's negacyclic transform, on both paths, also when input and output are one buffer |
| NegacyclicRun.StrideFound | icicle/backend/cpu/include/ntt_data.h:79-84 | the coset generator is in the domain's map, with the step through the table that the transform needs |
| NegacyclicRun.CopyAndReorderIfNeeded | icicle/backend/cpu/include/ntt_cpu.h:247-302 | straight or bit-reversed copy of every row, through a temporary buffer when it happens in place |
| Transforms.InvFwd | icicle/backend/cpu/include/ntt_cpu.h:317-364 | inverse after forward is the identity for every power of two |
| Transforms.FwdInv | icicle/backend/cpu/include/ntt_cpu.h:317-364 | forward after inverse is the identity for every power of two |
| Transforms.FwdTwisted | icicle/backend/cpu/include/ntt_cpu.h:317-364 | the negacyclic transform is the cyclic one of the input times powers of psi |
| NegacyclicProducts.EvalProduct | icicle/src/ntt.cpp:187-210 | at odd powers of psi the value of the negacyclic product is the product of the values |
| NegacyclicProducts.FwdProduct | icicle/src/ntt.cpp:187-210 | the transform of the negacyclic product is the pointwise product, for every power of two |
| Roots.PeriodSum | icicle/backend/cpu/include/ntt_cpu.h:226-230 | the powers of a root over a period cancel, by pairing, without primality |
| RingRoots.OmegaIsRoot | icicle/include/icicle/math/modular_arithmetic.h:61-73 | repeated squaring of the ring's root gives a root of every listed order |
| DitInPlace.TransformInPlace | icicle/backend/cpu/include/ntt_task.h:1162-1238 | bit reversal and the butterfly passes leave the DFT of the viewed entries, in both directions |
| DitInPlace.StagePass | icicle/backend/cpu/include/ntt_task.h:1204-1237 | one pass takes blocks holding DFTs of decimated parts to blocks of twice the length |
| Dit.Butterfly | icicle/backend/cpu/include/ntt_task.h:1212-1230 | one butterfly joins two block values into two of the joined block |
| BitReverseInPlace.ReorderByBitReverse | icicle/backend/cpu/include/ntt_task.h:1250-1308 | the swaps put every entry at its reversed place |
| BitReverseInPlace.BitReverse | icicle/backend/cpu/include/ntt_utils.h:55-62 | the loop over bits computes the reversal |
| BitReversal.RevInvolution | icicle/backend/cpu/include/ntt_utils.h:55-62 | reversing twice gives the index back |
| BitReversal.RevTop | icicle/backend/cpu/include/ntt_utils.h:55-62 | the top bit becomes the bottom bit |
| EightInPlace.Ntt8InPlace | icicle/backend/cpu/include/ntt_task.h:207-293 | the Winograd kernel leaves the 8-point DFT |
| Winograd8.KernelIsDft | icicle/backend/cpu/include/ntt_task.h:207-293 | the straight-line kernel equals the DFT for every output |
| LayeredTransform.ThreeLayers | icicle/backend/cpu/include/ntt_task.h:1318-1367 | sub-transform, twiddle, sub-transform, twiddle, sub-transform is the whole DFT at the digit-reversed frequency |
| LayerLayout.IdxIsMem | icicle/backend/cpu/include/ntt_task.h:1385-1408 | the three address formulas name the same place for the same coordinates |
| LayerPass.RunLayer | icicle/backend/cpu/include/ntt_task.h:53-149 | in any order the tasks of a layer transform and refactor every line once and touch nothing else |
| ParallelRun.RunLayers | icicle/backend/cpu/include/ntt_cpu.h:78-128 | the layers one after the other, skipped ones included, leave the three-layer value |
| DigitReorder.Reorder | icicle/backend/cpu/include/ntt_task.h:119-128 | the final permutation sends every row's entry to its new index |
| DigitReorder.NewIdxIsFrequency | icicle/backend/cpu/include/ntt_task.h:119-128 | the new index of a memory place is the frequency held there |
| ParallelNtt.Transform | icicle/backend/cpu/include/ntt_data.h:22-26 | for every log size to 26, batch, direction and task order, the parallel path leaves the DFT sum |
| NttDomains.CpuNttDomain.Init | icicle/backend/cpu/include/cpu_ntt_domain.h:64-130 | succeeds exactly when some squaring within the count gives one; a failed call advances the log size by the count and changes no table; the table is the root's if and only if the log size was zero and the root is a proper one; later calls change nothing |
| NttDomains.CpuNttDomain.FailedThenInit | icicle/backend/cpu/include/cpu_ntt_domain.h:78-111 | a failed call and then a proper root: the table is not the root's and smaller transforms read only ones; releasing in between repairs it |
| NttDomains.RootOrder | icicle/backend/cpu/include/cpu_ntt_domain.h:78-95 | a root of order 2^k reaches one after k squarings and not before |
| NttDomains.LargerOrder | icicle/backend/cpu/include/cpu_ntt_domain.h:78-95 | an element that reaches one after k squarings is no root of a larger order |
| MultilinearTables.Telescopes | icicle/backend/cpu/include/cpu_sumcheck.h:67-116 | each round function at zero and one adds up to the previous one at the challenge, the first to the hypercube sum |
| MultilinearTables.LastRound | icicle/backend/cpu/include/cpu_sumcheck.h:232-288 | the last round is the combination of the multilinear extensions at the challenges |
| MultilinearTables.FoldedIsExtension | icicle/backend/cpu/include/cpu_sumcheck.h:177-250 | folding by all challenges gives the multilinear extension at that point |
| WorkerSums.WorkersTotal | icicle/backend/cpu/include/cpu_sumcheck.h:71-82 | the ceiling split partitions the elements: the workers' sums add up to the whole |
| SumcheckProver.FoldWindow | icicle/backend/cpu/include/cpu_sumcheck.h:253-268 | the fold reads the window and writes behind it, changing nothing else |
| SumcheckProver.Accumulate | icicle/backend/cpu/include/cpu_sumcheck.h:270-287 | stepping from point to point evaluates the line at 0, 1, ..., degree and adds to the worker's own polynomial |
| SumcheckRounds.RoundLater | icicle/backend/cpu/include/cpu_sumcheck.h:232-288 | whatever order the elements are taken in, the workers' tallies and the folded window are the sequential ones |
| SumcheckRounds.Collect | icicle/backend/cpu/include/cpu_sumcheck.h:109-115 | the workers' polynomials are added onto the stored one and cleared, as far as it reaches |
| SumcheckRun.GetProof | icicle/backend/cpu/include/cpu_sumcheck.h:20-118 | every entry k of every round is the stored one plus the true round function at k, with the challenges drawn from these sums; errors exactly for an extension field or a negative degree |
| SumcheckRun.TrueExactly | icicle/include/icicle/sumcheck/sumcheck_proof.h:41-47 | the proof is the true one if and only if the rounds already stored are zero and of length degree + 1 |
| SumcheckRun.SecondRun | icicle/include/icicle/sumcheck/sumcheck_proof.h:41-47 | two runs into one object: the second doubles the first round and claims twice the sum |
| SumcheckRun.RunTelescopes | icicle/backend/cpu/include/cpu_sumcheck.h:67-116 | the stored proof telescopes from the claimed sum to the multilinear extensions |
| SumcheckRun.ChallengeDependsOn | icicle/backend/cpu/include/cpu_sumcheck.h:72-76 | the same challenge of round j under every transcript if and only if all round polynomials before j agree |
| FriFolding.FoldCommutes | icicle/backend/cpu/include/cpu_fri_backend.h:113-132 | folding the values of p gives the values of p_even + alpha p_odd on the squared domain |
| FriRuns.FinalLowDegree | icicle/backend/cpu/include/cpu_fri_backend.h:93-136 | from len coefficients the final values come from at most len / 2^rounds, rounded up |
| FriRuns.LengthBound | icicle/backend/cpu/include/cpu_fri_backend.h:93-136 | halving and rounding up in every round is one division rounded up |
| FriProver.FoldRound | icicle/backend/cpu/include/cpu_fri_backend.h:113-132 | the two loops write the fold of every pair and leave the rest of the target |
| FriProver.CommitFold | icicle/backend/cpu/include/cpu_fri_backend.h:76-140 | every codeword is the fold of the one before with the challenge drawn after its root; an error exactly when the domain is too small |
| FriProver.GetProof | icicle/backend/cpu/include/cpu_fri_backend.h:34-61 | codewords, nonce and the answers to the drawn queries, written into the given object: an honest proof exactly when the rows that it keeps have this run's length, an exception only when one is shorter |
| FriProver.QueryPhase | icicle/backend/cpu/include/cpu_fri_backend.h:168-193 | every query is answered in the first entries of its two rows and nothing else changes; throws exactly when a row is too short |
| FriVerifier.Verify | icicle/src/fri/fri.cpp:49-110 | the flag afterwards: set when size, nonce and every query check out, cleared when the size is wrong, otherwise as the caller left it; it throws exactly when the first check not passed misses a slot |
| FriVerifier.FlagIsVerdict | icicle/src/fri/fri.cpp:82-98 | the flag is the verdict on all proofs if and only if the caller cleared it before |
| FriVerifier.WrongLeafRejected | icicle/src/fri/fri.cpp:156-178 | a complete proof with a wrong leaf index passes no query, for any transcript |
| FriSoundness.AcceptsExactly | icicle/src/fri/fri.cpp:283-319 | any proof whose leaves are entries of codewords is accepted if and only if size and nonce are right, every query opens its entry and the one half a domain away in every round, and every fold of the opened entries is found |
| FriSoundness.WrongPairRejected | icicle/src/fri/fri.cpp:156-178 | any proof in which a slot is missing, does not check, or opens another index than its query's or the one half a domain away is rejected |
| FriSoundness.CoveredIsFolded | icicle/src/fri/fri.cpp:192-234 | when the accepted queries cover the upper half of the first domain, the codewords are the folds of one another with the challenges drawn after their roots, down to the final polynomial |
| FriSoundness.ChallengeDependsOn | icicle/src/fri/fri.cpp:112-133 | the same challenge of round r under every transcript if and only if the roots up to and including round r agree |
| FriSoundness.QueriesDependOn | icicle/src/fri/fri.cpp:82-94 | the same queries under every transcript if and only if roots, range and, with proof of work, nonces agree |
| FriVerifier.RectangularNotThrown | icicle/include/icicle/fri/fri_proof.h:88-93 | on a proof with two full rows for every query the verifier does not throw |
| FriVerifier.FoldChecked | icicle/src/fri/fri.cpp:192-234 | the verifier's arithmetic gives the folded entry, also for queries in the upper half |
| FriVerifier.SymIndex | icicle/src/fri/fri.cpp:156-178 | index and symmetric index are half a domain apart, on either side |
| FriVerifier.HonestAccepted | icicle/src/fri/fri.cpp:283-319 | whatever roots the two sides use, an honest proof is accepted exactly when every fold that the verifier computes is found |
| FriVerifier.SameRootAccepted | icicle/src/fri/fri.cpp:283-319 | with one root on both sides: exactly when the last lookups agree |
| FriVerifier.FoldCheckedIff | icicle/src/fri/fri.cpp:192-212 | with another root the verifier computes the folded entry if and only if challenge, difference of the entries and difference of the twiddles multiply to zero |
| FriVerifier.PowerOfTwoAccepted | icicle/src/fri/fri.cpp:283-319 | with a power-of-two final size an honest proof is accepted exactly when the verifier's twiddles fit, and always when the roots agree |
| FriVerifier.OtherRootRejected | icicle/src/fri/fri.cpp:290-293 | with another root the honest proof of X is rejected on a query whose power tells the roots apart under the first challenge |
| FriVerifier.OtherSizesRejected | icicle/src/fri/fri.cpp:214-221 | with any other final size the honest proof of X^(2^rounds) is rejected on the query equal to the size |
| TaskProtocol.RunsOnce | icicle/backend/cpu/include/tasks_manager.h:216-246 | over every interleaving a slot has run as often as it was dispatched, less one while the last is pending |
| TaskProtocol.StepKeepsInv | icicle/backend/cpu/include/tasks_manager.h:37-48 | every step of the user or a worker keeps the invariant |
| TaskProtocol.FinishesReady | icicle/backend/cpu/include/tasks_manager.h:44-48 | the assertion in set_completed holds |
| TaskProtocol.CompletedInTime | icicle/backend/cpu/include/tasks_manager.h:216-246 | within three steps per slot of its own worker a dispatched task is completed, whatever the others do |
| TaskScans.TasksManager.GetIdleOrCompletedTask | icicle/backend/cpu/include/tasks_manager.h:321-333 | a slot handed out is never ready; none only if all were ready when the call began |
| TaskScans.TasksManager.GetIdleTask | icicle/backend/cpu/include/tasks_manager.h:336-347 | an idle slot is found if and only if there is one |
| TaskScans.TasksManager.GetCompletedTask | icicle/backend/cpu/include/tasks_manager.h:350-367 | null without waiting further exactly when every slot is idle |
| TaskScans.TasksManager.FreeOf | icicle/backend/cpu/include/tasks_manager.h:251-262 | the cyclic scan visits every slot of a worker |

## Left out

- Norm checks over the reals (the l2 norms of z and of the projection), beta, the choice of base0, mu, nu and the commitment rank: floating point, so they are fields of `Backend`.
- The loop that looks for a short projection (src/prover.cpp:15-37) has no termination measure: the nonce is any function of the seed, the parameters and the witness.
- SHA3-256 (section 6.1 of FIPS 202), random and challenge sampling, byte encodings: arbitrary functions. Knowledge soundness (extracting a witness from a prover that convinces often) and zero knowledge are not stated; what acceptance and the hash chain imply without probabilities is.
- RunLoops.LabradorVerifier.Verify: messages and proofs of the wrong sizes, on which the source reads out of bounds or throws in library calls, are excluded by `RunLoops.WellFormed`; so they are for `CheckMessages`, `PartVerify` and `VerifyBaseProof` by `MessageSizes` and `ProofShape`.
- An exception in the source (a base below two, a z that does not recompose) is the outcome `Failed`; in the verifier it counts as not accepted.
- `matmul`, `vector_*`, `scalar_*`, `matrix_transpose`, `slice` and `icicle_copy` are taken by their mathematical definition; devices, streams and asynchrony are not part of this model.
- `ntt16win`, `ntt32win`, the path with two hierarchies for log sizes above 26, `columns_batch`, and cosets other than powers of the domain's root.
- `std::log2` of a size is exact for powers of two and rounds down otherwise; element counts and indices are unbounded integers, only `base0 * base0` wraps (the domain's `(int)pow(2, ...)` overflows from 2^31 on).
- Sumcheck and FRI are stated over babykoala's q, for which the source compiles only the transforms (icicle/cmake/features.cmake:25): the proofs use ring laws and the inverse of two only, no property of that q; extension fields are left out.
- `Program` compilation in sumcheck: the combine function is any function of the polynomials' values. Tables have 2^l entries with l >= 1.
- Merkle trees, the proof-of-work search and the transcript's hash in FRI: opened leaves are assumed to check and to be those of the committed codeword, and nonces that are found to pass; challenges and queries are arbitrary functions of the roots and the nonce. At least one folding round. The argument checks of `fri.cpp:405-432` before either side starts.
- SumcheckRun.GetProof: stored rounds that grow in length are excluded, because the source then reads past the workers' polynomials or adds what earlier rounds left in them.
- `TaskScans.TasksManager.GetIdleOrCompletedTask` and `GetCompletedTask` wait for a given number of passes, because fairness of the scheduler is not modelled; destruction of the pool and `wait_done` are left out.
- Windowed scalar multiplication and the curve formulas, serialization, C interfaces, benchmarks and examples: they would only add easy members.
