# Scalar protocol: verified core

A Dafny model of the parts of the Scalar protocol stack whose correctness rests on an argument
rather than on reading one function, and proofs of what those parts promise:

- the FRI commit and query phases of the Python verifier, over the cubic extension of the Goldilocks field;
- the Incremental Merkle Tree with its two independent membership verifiers;
- the Goldilocks word arithmetic and the Poseidon2 t=4 permutation;
- coin selection of the wallet;
- the emission curve, the deferred emission pool, the Deterministic Minimal Manifest and the canonical transaction order;
- the two Gini computations.

Code that loops or updates state is modelled by methods and classes, each proved equal to a
function of its inputs or old state; the results about those functions are lemmas. Hash functions
and the Fiat-Shamir challenger are parameters, so every statement holds for all of them. Nothing is
assumed about the field: that P = 2^64 - 2^32 + 1 is prime, that the two-adic generators have the
orders the code relies on, and that X^3 - X - 1 has no root modulo P are proved.

| files | content |
|---|---|
| `Results.dfy`, `Sorting.dfy` | optional values and errors; sorted permutations and when they are unique |
| `ModArith.dfy`, `NumberTheory.dfy`, `Goldilocks.dfy` | congruences, Euclid, Fermat, Proth's criterion, primality of P |
| `Gfp3.dfy`, `Gfp3Field.dfy`, `Frobenius.dfy` | the cubic extension, that it is a field, its inversion, and its Frobenius map as the P-th power |
| `FriDomain.dfy`, `FriPoly.dfy`, `FriFold.dfy`, `Fri.dfy`, `FriShape.dfy`, `FriTheorems.dfy`, `Interpolation.dfy`, `FriSoundness.dfy` | bit-reversed cosets, folds of polynomials and of columns, commit and query, what they do with every shape of input, end-to-end results, interpolation over the extension and the converse |
| `Words.dfy`, `Poseidon2.dfy`, `PoseidonVectors.dfy` | machine words, Goldilocks arithmetic on them, the permutation, sponge padding, the permutation's test vector |
| `Imt.dfy` | the Merkle tree class, both verifiers, completeness and binding |
| `CoinSelection.dfy` | the greedy loop and its optimality |
| `Accumulator.dfy`, `DeferredPool.dfy`, `DeferredOrder.dfy`, `Dmm.dfy`, `Gini.dfy` | emission |

## What the proofs found

Where the code and its documentation disagree, the model follows the code.

- `fri_fold_arity2` multiplies an already halved difference by 1/(2X), and every round reuses the
  same coset shift. The result equals the documented (v+ + v-)/2 + beta * (v+ - v-)/(2X) if and only
  if v+ = v-, beta = 0 or 1/(2X) = 0 in the field (`FriPoly.FoldAsDocumented`,
  `FriPoly.FoldNotAsDocumented`). What is computed instead is Even + (beta/2) * Odd, stretched by a
  power of the shift. The degree still drops by the arity in every round, so honest openings are
  accepted (`FriFold.FoldColumnDegree2`, `FriFold.FoldColumnDegree4`), and the test is still exact:
  a layer accepted under every challenger is of low degree (`FriSoundness.AcceptedIffLowDegree`), and
  of all challenges of a round at most three can lower the degree of a layer that is not
  (`FriSoundness.FewGoodChallenges`).
- INV-4.1 (an opening is accepted if and only if its commitment is at that index) is false on byte strings: words are
  reduced into the field before hashing, so two byte strings can be the same commitment
  (`Imt.ByteLevelBindingFails`). On bytes it holds, short of a collision, exactly at the indices whose
  commitment has all four words in [0xFFFF_FFFF, P) (`Imt.ByteBindingExact`). It holds up to field reduction and a two-word collision of the
  permutation, because a node hash absorbs only two words of its right child (`Imt.MembershipExact`).
- `field_add` is not addition modulo P on all of u64; it is exactly when the integer sum is below
  2^64 + P, which all canonical operands satisfy (`Poseidon2.FieldAddExact`,
  `Poseidon2.FieldAddCanFail`), so the partial matrix is only right on canonical words
  (`Poseidon2.PartialNeedsCanonical`).
- A comment in coin selection says that the smallest coin is taken when no single coin closes the
  gap; the code takes the largest. That is optimal (`CoinSelection.FeeAdequacyCheck`), and the comment's
  rule is not (`CoinSelection.SmallestFirstNeedsMore`).
- The limit of 10 inputs is not enforced on the coins passed in (`CoinSelection.InputLimit`,
  `CoinSelection.TooManyInputs`).
- "Sum release = Sum residual" fails for the deferred pool. Over every run, what has been released or
  is still held equals the residuals passed to deposit if and only if no deposit was cut by the cap
  S_E and no release met an entry older than 12 epochs; releases alone equal residuals if and only if
  the pool is empty as well (`DeferredPool.ReleasedAndHeld`, `DeferredPool.ReleasesEqualResiduals`,
  `DeferredPool.ResidualCanBeLost`, `DeferredPool.ResidualCanBeCut`).
- Releasing first-in-first-out takes the oldest entries, and is optimal, only by the order of deposits,
  which the code does not enforce. For a list of deposit epochs, no other policy pays out more on any
  run with these deposits if and only if no deposit that can still expire comes after one of a later
  epoch (`DeferredOrder.UnbeatenIffOrderly`); for one list of entries, the loop takes the oldest first
  if and only if the list is in epoch order (`DeferredOrder.TakesOldestIffSorted`).
- The reward budget needs weights whose sum fits a u64 (`Dmm.BudgetNeedsUnsaturatedWeights`,
  `Dmm.SaturatedWeightsOverspend`), and
  determinism needs anchors of one node to agree on its weight (`Dmm.InconsistentAnchorsDiverge`).
- The two Gini computations differ by one unit on some inputs; the exact condition is a remainder
  test (`Gini.GiniFormsAgree`, `Gini.GiniFormsCanDiffer`).

## Model

| member | source | states |
|---|---|---|
| `FriTheorems.HonestQuery` | verifier-py/scalar_verifier/fri.py:162-1281 | The whole honest pipeline, low-degree extension, embedding, commit phase, query rounds and `verify_query`, accepts for every polynomial with a power of two n >= 2 of coefficients (8n <= 2^32), every challenger, every non-zero shift and every start index |
| `FriTheorems.LowDegreeAccepted` | verifier-py/scalar_verifier/fri.py:791-1234 | A layer that evaluates any extension-field polynomial with at most 1/8 as many coefficients as points ends in a constant 8-entry layer, and every opening is accepted |
| `FriTheorems.QueryVerdictOnCommit` | verifier-py/scalar_verifier/fri.py:1143-1234 | For every initial layer, low-degree or not: the opening at `start` is accepted if and only if final-layer entry `start >> (log_n - 3)` equals `final_poly[0]` |
| `FriTheorems.AllAcceptedIffConstant` | verifier-py/scalar_verifier/fri.py:791-1234 | Every opening of a commit is accepted if and only if the commit phase ended in a constant layer |
| `FriSoundness.AcceptedIffLowDegree` | verifier-py/scalar_verifier/fri.py:791-1234 | Every opening is accepted under every challenger if and only if the layer evaluates a polynomial with an eighth as many coefficients as points |
| `FriSoundness.AlwaysConstantLowDegree` | verifier-py/scalar_verifier/fri.py:835-887 | If the commit phase ends in a constant layer whatever the challenges, the initial layer evaluates a polynomial with 2^(log_n - 3) coefficients |
| `FriSoundness.Unfold4` | verifier-py/scalar_verifier/fri.py:464-551 | A layer whose arity-4 folds with any four distinct challenges of the extension evaluate polynomials with n coefficients evaluates one with 4n |
| `FriSoundness.Unfold2` | verifier-py/scalar_verifier/fri.py:909-936 | A layer whose arity-2 folds with any two distinct challenges of the extension evaluate polynomials with n coefficients evaluates one with 2n |
| `FriSoundness.FewGoodChallenges` | verifier-py/scalar_verifier/fri.py:835-887 | If a layer is not of low degree, every set of challenges that make its fold of low degree has fewer elements than the arity: at most three, or one |
| `FriSoundness.SomeRoundIsLucky` | verifier-py/scalar_verifier/fri.py:835-887 | A layer that is not of low degree ends in a constant layer only if some round takes a layer that is not of low degree to one that is |
| `FriSoundness.FoldIsHorner` | verifier-py/scalar_verifier/fri.py:464-551 | Every entry of a column fold is a polynomial in the challenge, of degree below the arity, with coefficients that depend on the row alone |
| `Interpolation.InterpolateValues` | verifier-py/scalar_verifier/fri.py:464-551 | The coefficients of such a polynomial are recovered, pointwise, from its values at as many distinct challenges |
| `FriTheorems.CommitReducesDegree` | verifier-py/scalar_verifier/fri.py:835-887 | Through all rounds of varying arity, 2^(log_n - 3) coefficients collapse to one, for every challenger |
| `FriTheorems.RoundReducesDegree` | verifier-py/scalar_verifier/fri.py:860-872 | One round of either arity turns evaluations of a polynomial with arity * n coefficients into evaluations of one with n |
| `FriTheorems.Lde` | verifier-py/scalar_verifier/fri.py:162-209 | `goldilocks_lde` gives the values of the polynomial at the bit-reversed coset points, in order, and rejects exactly the lengths that are no power of two or too long |
| `FriTheorems.HornerBase` | verifier-py/scalar_verifier/fri.py:200-205 | The Horner loop computes the value of the polynomial modulo P |
| `FriTheorems.EmbeddedLdeEvaluates` | verifier-py/scalar_verifier/fri.py:941-966 | The embedded extension holds the values of the embedded polynomial at every coset point |
| `Fri.CommitPhase` | verifier-py/scalar_verifier/fri.py:791-906 | The commit loop produces the recursive sequence of folds and the truncated last layer; which lengths raise AssertionError and when the fold divides by zero |
| `Fri.CommitStepsFold` | verifier-py/scalar_verifier/fri.py:835-887 | The steps are successive folds of the initial layer and always stop at exactly 8 entries |
| `Fri.CommitIndex` | verifier-py/scalar_verifier/fri.py:1198-1212 | The shifts by 1 or 2 bits per round add up to `start >> (log_n - 3)` |
| `Fri.VerifyQuery` | verifier-py/scalar_verifier/fri.py:1143-1234 | `verify_query` computes the verdict of the recursive chain for all inputs; the three rows below say what that verdict is |
| `FriShape.AcceptedShape` | verifier-py/scalar_verifier/fri.py:1186-1227 | An accepted opening has one sibling per round of log arity 1 and three per round of log arity 2, and the log arities lead exactly from the initial to the final height, both in range |
| `FriShape.BadRoundVerdict` | verifier-py/scalar_verifier/fri.py:1186-1222 | What the first round that cannot be followed does, whatever comes after it: ValueError, Unverifiable, False, AssertionError or ZeroDivisionError, in this order |
| `FriShape.GoodRoundsVerdict` | verifier-py/scalar_verifier/fri.py:1224-1234 | With good rounds the index is shifted by all their bits; False if the heights do not meet, and otherwise the final polynomial at that point decides |
| `FriShape.FinalPolyValue` | verifier-py/scalar_verifier/fri.py:1229-1232 | The Horner loop is the value of the final polynomial, for every length |
| `FriShape.CommitRounds` | verifier-py/scalar_verifier/fri.py:835-846 | There are ceil((log_n - 3) / 2) rounds, all of log arity 2 except the last when log_n - 3 is odd |
| `FriShape.CommitChallenges` | verifier-py/scalar_verifier/fri.py:848-857 | Every challenge is drawn after exactly the layers up to and including the one it folds |
| `FriShape.CommitLengths` | verifier-py/scalar_verifier/fri.py:816-826 | The commit phase takes exactly the lengths 2^4 to 2^32 |
| `FriShape.QuadLengths` | verifier-py/scalar_verifier/fri.py:481-489 | The arity-4 column fold takes exactly the lengths 2^2 to 2^32 |
| `FriShape.PairLengths` | verifier-py/scalar_verifier/fri.py:920-925 | The arity-2 column fold takes exactly the even lengths below 2^33 |
| `FriShape.OpensExact` | verifier-py/scalar_verifier/fri.py:1262-1281 | No IndexError exactly for indices inside the list, counted from either end, that are not carried to row -1 |
| `Fri.PlaceSiblings` | verifier-py/scalar_verifier/fri.py:1200-1208 | The group is the siblings in order with the carried value at its own slot |
| `Fri.EvaluateFinal` | verifier-py/scalar_verifier/fri.py:1229-1232 | The loop over reversed coefficients is Horner's rule for the final polynomial |
| `Fri.BuildQueryRounds` | verifier-py/scalar_verifier/fri.py:1237-1281 | For every start index, negative ones included: IndexError exactly outside the list or in a row counted as -1, and otherwise each round holds the row of its layer around the carried index, without the carried entry |
| `Fri.ChainRetracesCommit` | verifier-py/scalar_verifier/fri.py:1095-1281 | After every number j of rounds the query chain holds exactly the entry that the commit phase stored in layer j at the shifted index, for any initial layer |
| `FriFold.FoldArity2Column` | verifier-py/scalar_verifier/fri.py:909-936 | For every column, length and shift: which lengths raise AssertionError, that a shift divisible by P divides by zero, and otherwise that the running-product points give at every pair the fold at its bit-reversed point, hence the local fold the query phase does |
| `FriFold.FoldArity4Column` | verifier-py/scalar_verifier/fri.py:464-551 | The same for the two-stage arity-4 column fold, with the negative shift of an empty column |
| `FriFold.CosetDomainPoints` | verifier-py/scalar_verifier/fri.py:446-461 | Running products of the generator are the powers that the bit-reversed index formula names |
| `FriFold.FoldColumnDegree2` | verifier-py/scalar_verifier/fri.py:909-936 | An arity-2 column fold of a polynomial with 2n coefficients evaluates a polynomial with n over the next coset |
| `FriFold.FoldColumnDegree4` | verifier-py/scalar_verifier/fri.py:464-551 | An arity-4 column fold of a polynomial with 4n coefficients evaluates a polynomial with n, two domains down |
| `FriPoly.FoldEvaluates` | verifier-py/scalar_verifier/fri.py:425-443 | Folding the values at x and -x gives the value at x^2 of Even + (beta/2) * Odd |
| `FriPoly.FoldAsDocumented` | verifier-py/scalar_verifier/fri.py:425-443 | The fold equals the documented formula if and only if the two values agree, or the challenge or 1/(2X) is zero in the field |
| `FriPoly.FoldNotAsDocumented` | verifier-py/scalar_verifier/fri.py:425-443 | Values 1 and 0, challenge 1 and 1/(2X) = 1 on which they differ |
| `FriPoly.EvalSplit` | verifier-py/scalar_verifier/fri.py:425-443 | Every polynomial with an even number of coefficients is Even(x^2) + x * Odd(x^2) |
| `FriDomain.BitReverse` | verifier-py/scalar_verifier/fri.py:145-151 | The shifting loop computes the reversal of the lowest bits |
| `FriDomain.BitRevInvolution` | verifier-py/scalar_verifier/fri.py:145-159 | Bit reversal is an involution on [0, 2^bits), hence a permutation |
| `FriDomain.GeneratorHalf` | verifier-py/scalar_verifier/fri.py:122-142 | The 2^(log_n - 1)-th power of each two-adic generator is -1 modulo P |
| `FriDomain.GeneratorSquare` | verifier-py/scalar_verifier/fri.py:122-142 | The generator of a domain is the square of the next larger one's |
| `FriDomain.PointPair` | verifier-py/scalar_verifier/fri.py:1095-1107 | Points 2g and 2g+1 in bit-reversed order are negatives of each other |
| `FriDomain.PointSquare` | verifier-py/scalar_verifier/fri.py:1095-1107 | The square of point 2g is the shift times point g of the next domain |
| `Gfp3.FInvCorrect` | verifier-py/scalar_verifier/gfp3.py:23-27 | `finv` is a multiplicative inverse of everything P does not divide |
| `Gfp3.RedMul` | verifier-py/scalar_verifier/gfp3.py:44-69 | `ef_mul` is schoolbook polynomial multiplication followed by X^3 = X + 1 and reduction modulo P |
| `Gfp3.ReduceCubicIsRemainder` | verifier-py/scalar_verifier/gfp3.py:44-69 | That substitution is the remainder of division by X^3 - X - 1 |
| `Gfp3.EfMulComm` | verifier-py/scalar_verifier/gfp3.py:44-69 | `ef_mul` is commutative |
| `Gfp3.EfMulAssoc` | verifier-py/scalar_verifier/gfp3.py:44-69 | `ef_mul` is associative, on reduced and unreduced operands |
| `Gfp3.EfMulDistributes` | verifier-py/scalar_verifier/gfp3.py:32-69 | `ef_mul` distributes over `ef_add` |
| `Gfp3.EfPow` | verifier-py/scalar_verifier/gfp3.py:107-118 | Repeated squaring equals the n-fold product for every n, and 1 for a non-positive exponent |
| `Gfp3Field.NoRoot` | verifier-py/scalar_verifier/gfp3.py:1-12 | X^3 - X - 1 has no root modulo P, by a chain of 64 squarings of X and Fermat |
| `Gfp3Field.InverseExists` | verifier-py/scalar_verifier/gfp3.py:1-12 | GF(p^3) is a field: every element that is not zero has an inverse under `ef_mul` |
| `Gfp3Field.NoZeroDivisors` | verifier-py/scalar_verifier/gfp3.py:44-69 | A product is zero if and only if a factor is zero |
| `Gfp3Field.FrobeniusProduct` | verifier-py/scalar_verifier/gfp3.py:89-105 | The matrix of `ef_frobenius` is multiplicative |
| `Gfp3Field.FrobeniusCubed` | verifier-py/scalar_verifier/gfp3.py:89-105 | Applied three times it is the identity, so it is an automorphism |
| `Frobenius.FrobeniusIsPower` | verifier-py/scalar_verifier/gfp3.py:89-105 | `ef_frobenius(a)` is a^p for every element |
| `Frobenius.PowerOfSum` | verifier-py/scalar_verifier/gfp3.py:89-105 | The p-th power is additive: (a + b)^p = a^p + b^p |
| `Gfp3Field.NormInBase` | verifier-py/scalar_verifier/gfp3.py:71-87 | The norm that `ef_inv` computes has components 1 and 2 equal to zero, and component 0 zero only for zero |
| `Gfp3Field.EfInvCorrect` | verifier-py/scalar_verifier/gfp3.py:71-87 | `ef_inv` inverts every element but zero and raises exactly on the representations of zero |
| `Goldilocks.PyFieldReduceExact` | verifier-py/scalar_verifier/poseidon2.py:131-135 | The Python `field_reduce` is the residue of any 64-bit value and depends on the low 64 bits only |
| `Goldilocks.GoldilocksPrime` | core/scalar-crypto/src/poseidon2.rs:16-20 | The modulus is prime, by Proth's criterion with base 7 |
| `Imt.IncrementalMerkleTree.constructor` | core/scalar-crypto/src/imt.rs:181-189 | A fresh tree has no commitments |
| `Imt.IncrementalMerkleTree.Append` | core/scalar-crypto/src/imt.rs:191-208 | The commitment is appended under the next index, its leaf hash to the leaves and to the frontier's first place, or the tree is full and unchanged |
| `Imt.IncrementalMerkleTree.Reset` | core/scalar-crypto/src/imt.rs:211-227 | The state is that of a fresh tree and its root the empty root, as the closing assertions demand |
| `Imt.LeafLayout` | core/scalar-crypto/src/imt.rs:82-110 | The eight words of a leaf input, modulo P: the domain, the commitment's four words, the index, zero |
| `Imt.NodeLayout` | core/scalar-crypto/src/imt.rs:114-149 | The eight words of a node input, modulo P: the domain, four words of the left child, two of the right |
| `Imt.SqueezeLayout` | core/scalar-crypto/src/imt.rs:109-110 | A digest is the first four words of the permuted state |
| `Imt.DomainWords` | core/scalar-crypto/src/imt.rs:87-92 | The domain words are "scalar_imt_leaf" and "scalar_imt_node" as little-endian bytes |
| `Imt.LeafBlockBinds` | core/scalar-crypto/src/imt.rs:82-110 | Two leaf inputs are equal if and only if commitments and indices are equal modulo P |
| `Imt.NodeBlockBinds` | core/scalar-crypto/src/imt.rs:114-149 | Two node inputs are equal if and only if the left children and two words of the right ones are equal modulo P |
| `Imt.DomainsSeparate` | core/scalar-crypto/src/imt.rs:81-149 | No leaf input is a node input |
| `Imt.IndicesSeparate` | core/scalar-crypto/src/imt.rs:308-331 | Openings at different indices below P start from different leaf inputs, whatever the commitments |
| `Imt.TraceDomains` | core/scalar-crypto/src/imt.rs:308-331 | No run of the verifier feeds the permutation a leaf input above the leaf |
| `Imt.LevelOne` | core/scalar-crypto/src/imt.rs:231-253 | Neighbouring leaves are hashed in insertion order |
| `Imt.Capacity` | core/scalar-crypto/src/imt.rs:191-196 | The tree refuses exactly beyond 2^32 leaves |
| `Imt.AcceptedInRange` | core/scalar-crypto/src/imt.rs:314-319 | An accepted opening has an index below the count and 32 siblings |
| `Imt.ReplayAfterReset` | core/scalar-crypto/src/imt.rs:191-227 | Reset and any appends, past the capacity too, give the answers and the state of a fresh tree given the same appends |
| `Imt.IncrementalMerkleTree.Root` | core/scalar-crypto/src/imt.rs:231-253 | Level-by-level folding equals the recursive depth-32 tree with empty markers, for every count from 0 to 2^32 |
| `Imt.IncrementalMerkleTree.ProveMembership` | core/scalar-crypto/src/imt.rs:255-264 | Out of bounds exactly for an index not below the count; otherwise the path that the verifier accepts for that commitment at the current root |
| `Imt.IncrementalMerkleTree.ComputeSiblings` | core/scalar-crypto/src/imt.rs:267-297 | The siblings are the subtree roots next to the ancestors of the leaf |
| `Imt.SiblingAt` | core/scalar-crypto/src/imt.rs:267-297 | Sibling d is the subtree root at position (i >> d) xor 1 |
| `Imt.EmptySubtreeRoots` | core/scalar-crypto/src/imt.rs:154-164 | Entry 0 is the zero digest, each next entry the hash of two copies of the one before, and entry d the root of a subtree of height d without leaves |
| `Imt.NodeBeyond` | core/scalar-crypto/src/imt.rs:154-164 | Every subtree beyond the occupied ones has the root of an empty subtree |
| `Imt.MembershipVerify` | core/scalar-crypto/src/imt.rs:308-331 | The bit-testing verifier accepts exactly the openings that climb to the root |
| `Imt.PyVerifyMembership` | verifier-py/scalar_verifier/merkle.py:95-114 | The index-halving verifier accepts exactly what the bit-testing one accepts, for every count above the index, and raises on any other path length |
| `Imt.HashesAgree` | verifier-py/scalar_verifier/merkle.py:51-76 | Both implementations feed the permutation the same eight words for leaves and nodes |
| `Imt.ClimbReachesRoot` | core/scalar-crypto/src/imt.rs:267-331 | From every level, climbing the sibling path of leaf i ends at the root |
| `Imt.MembershipComplete` | core/scalar-crypto/src/imt.rs:255-331 | After any appends, every commitment is accepted with its own path at the current root |
| `Imt.MembershipBinding` | core/scalar-crypto/src/imt.rs:82-331 | Two accepted openings at one index and root with commitments that differ in the field contain, at some level, two different permutation inputs whose outputs agree on their first two words |
| `Imt.MembershipExact` | core/scalar-crypto/src/imt.rs:308-331 | An opening accepted against a tree is for the commitment at that index up to field reduction, or collides with the tree's own run; and every field-equal commitment has an accepted opening |
| `Imt.ByteBindingExact` | core/scalar-crypto/src/imt.rs:308-331 | At an index of a tree only the stored byte string is accepted, short of a collision with the tree, if and only if each of its four words lies in [0xFFFF_FFFF, P) |
| `Imt.UniqueEncoding` | core/scalar-crypto/src/imt.rs:82-110 | No other byte string equals a commitment in the field if and only if each of its words lies in [0xFFFF_FFFF, P) |
| `Imt.ByteLevelBindingFails` | core/scalar-crypto/src/imt.rs:82-110 | A tree of one commitment that accepts, at its index, a different byte string that was never appended |
| `Poseidon2.FieldAddExact` | core/scalar-crypto/src/poseidon2.rs:24-32 | `field_add` is congruent to the sum if and only if the integer sum is below 2^64 + P; its value on all operands |
| `Poseidon2.FieldSubExact` | core/scalar-crypto/src/poseidon2.rs:35-43 | `field_sub` is congruent to the difference if and only if that is at least -P; its value on all operands |
| `Poseidon2.FieldAddCanFail` | core/scalar-crypto/src/poseidon2.rs:24-32 | The sum of two words of all ones is not congruent to the integer sum |
| `Poseidon2.FieldAddCanonical` | core/scalar-crypto/src/poseidon2.rs:24-43 | On canonical operands `field_add` and `field_sub` are exact and canonical |
| `Poseidon2.FieldReduceExact` | core/scalar-crypto/src/poseidon2.rs:87-93 | One conditional subtraction reduces every u64 |
| `Poseidon2.ReduceU128Exact` | core/scalar-crypto/src/poseidon2.rs:54-69 | `reduce_u128` equals reduction modulo P for every 128-bit value; one final subtraction is always enough |
| `Poseidon2.FieldMul` | core/scalar-crypto/src/poseidon2.rs:46-50 | The product modulo P for all u64 operands |
| `Poseidon2.FieldPow` | core/scalar-crypto/src/poseidon2.rs:72-83 | Square-and-multiply is the mathematical power modulo P for every base and exponent |
| `Poseidon2.SboxBijective` | core/scalar-crypto/src/poseidon2.rs:367-371 | x^7 is a bijection of the field, with its inverse exponent |
| `Poseidon2.SboxIsSeventh` | core/scalar-crypto/src/poseidon2.rs:367-371 | The S-box is x^7 modulo P |
| `PoseidonVectors.ZeroVector` | core/scalar-crypto/src/poseidon2.rs:347-353 | The permutation of four zeros is TV_ZERO_OUT, through all thirty intermediate states |
| `Poseidon2.FullLayerBijective` | core/scalar-crypto/src/poseidon2.rs:305-342 | circ(5, 7, 1, 3) is invertible modulo P, both ways |
| `Poseidon2.PartialLayerBijective` | core/scalar-crypto/src/poseidon2.rs:397-409 | The partial matrix is invertible modulo P, both ways |
| `Poseidon2.MdsMultiplyFull` | core/scalar-crypto/src/poseidon2.rs:375-395 | The nested loops multiply by the circulant matrix, on any four words |
| `Poseidon2.MdsMultiplyPartial` | core/scalar-crypto/src/poseidon2.rs:401-409 | On any four words the loop computes the running sum plus the diagonal product, and on canonical ones that is multiplication by the partial matrix |
| `Poseidon2.PartialNeedsCanonical` | core/scalar-crypto/src/poseidon2.rs:401-409 | Words that are not canonical for which the running sum is wrong |
| `Poseidon2.RoundsBijective` | core/scalar-crypto/src/poseidon2.rs:419-459 | Any number of rounds composes to an invertible map with canonical results |
| `Poseidon2.PermutationBijective` | core/scalar-crypto/src/poseidon2.rs:419-459 | The permutation is a bijection of [0, P)^4: a two-sided inverse, canonical both ways |
| `Poseidon2.Permute` | core/scalar-crypto/src/poseidon2.rs:419-459 | The in-place code computes that permutation on any four machine words, with canonical output |
| `Poseidon2.Pad` | core/scalar-crypto/src/poseidon2.rs:480-493 | The padding loop produces the padded words of the specification function |
| `Poseidon2.Padded` | core/scalar-crypto/src/poseidon2.rs:480-493 | The length is a positive multiple of 3, exceeds the input by 1 to 3 words, and begins with the input's words modulo P |
| `Poseidon2.PaddingWords` | core/scalar-crypto/src/poseidon2.rs:486-493 | What follows the message: 1, 0, 1 or 1, 1 or 2, by its length modulo 3 |
| `Poseidon2.PaddedInjective` | core/scalar-crypto/src/poseidon2.rs:476-493 | Two padded sequences are equal if and only if the inputs have equal lengths and agree word for word modulo P |
| `CoinSelection.FeeAdequacyCheck` | client/scalar-wallet-core/src/coin_selection.rs:110-185 | Ok adds the fewest wallet coins that cover target plus fee, the last as small as possible, within 10 inputs, with exact total (saturating as u64) and change; consolidation means no choice within 10 inputs covers it; insufficient balance means the whole wallet does not |
| `CoinSelection.Exchange` | client/scalar-wallet-core/src/coin_selection.rs:160-170 | Any choice of coins can give up one so that the rest avoids the pool's largest coin and loses at most its value |
| `CoinSelection.LargestIsEnough` | client/scalar-wallet-core/src/coin_selection.rs:160-170 | Taking the largest coin never costs a coin: if m - 1 of the rest cannot close the gap, no m could |
| `CoinSelection.AnswersExact` | client/scalar-wallet-core/src/coin_selection.rs:110-185 | Whenever some choice of coins within the limit covers the amount, the answer is Ok and uses no more inputs |
| `CoinSelection.InputLimit` | client/scalar-wallet-core/src/coin_selection.rs:118-132 | Ok has at most 10 inputs if and only if the caller started with at most 10 |
| `CoinSelection.TooManyInputs` | client/scalar-wallet-core/src/coin_selection.rs:118-132 | Eleven coins of value 1 and a target of 1 give an Ok with eleven inputs |
| `CoinSelection.SmallestFirstNeedsMore` | client/scalar-wallet-core/src/coin_selection.rs:143-145 | The rule of the comment takes three coins where two suffice |
| `CoinSelection.SortedPool` | client/scalar-wallet-core/src/coin_selection.rs:137-143 | The pool is sorted, holds each value as often as the wallet's counts for it add up to, and is worth the wallet's balance |
| `CoinSelection.CoinsCounted` | client/scalar-wallet-core/src/coin_selection.rs:137-141 | The coins that selection is about: each value as often as the wallet lists it |
| `CoinSelection.ShortBalance` | client/scalar-wallet-core/src/coin_selection.rs:155-160 | Insufficient balance means that value times count over the whole wallet, with what is selected, falls short |
| `CoinSelection.PartitionPoint` | client/scalar-wallet-core/src/coin_selection.rs:163-163 | The index separates the coins below the shortfall from those that close it |
| `DeferredPool.DeferredEmissionPool.constructor` | core/scalar-emission/src/accounting.rs:54-63 | The empty pool satisfies the invariant |
| `DeferredPool.DeferredEmissionPool.Deposit` | core/scalar-emission/src/accounting.rs:69-86 | Keeps the invariant (held = sum of entries <= S_E; deposited = released + expired + held; the state is that of the run of all operations so far); the pool then holds min(held + amount, S_E) |
| `DeferredPool.DeferredEmissionPool.Release` | core/scalar-emission/src/accounting.rs:94-127 | Keeps the invariant; pays min(what has not expired, 1,260,000,000,000), oldest first; no surviving entry is older than 12 epochs; accounts for what expired |
| `DeferredPool.DeferredEmissionPool.TakeFromFront` | core/scalar-emission/src/accounting.rs:107-121 | The in-place FIFO loop and the final retain drain exactly the amount from the front |
| `DeferredPool.DeferredEmissionPool.VerifyInvariant` | core/scalar-emission/src/accounting.rs:135-137 | On a reachable pool the runtime check depends on the release alone |
| `DeferredPool.FreshHeldFrom` | core/scalar-emission/src/accounting.rs:95-97 | Expiry is a cut by age: what is held from epoch e on becomes what was held from max(e, now - 12) on |
| `DeferredPool.DrainHeldFrom` | core/scalar-emission/src/accounting.rs:107-119 | On entries in epoch order a release leaves, from every epoch on, the most that any removal could leave |
| `DeferredPool.DrainHeldUpTo` | core/scalar-emission/src/accounting.rs:107-119 | Draining entries in epoch order leaves max(0, before - release) up to epoch e, for every e |
| `DeferredPool.ReleaseTakesOldest` | core/scalar-emission/src/accounting.rs:94-127 | Over every run with deposits in epoch order, cut by the cap or not: after a release the amount held up to epoch e is max(0, what had not expired - release) |
| `DeferredPool.FifoStaysAhead` | core/scalar-emission/src/accounting.rs:69-127 | Over every run with deposits in epoch order, released plus held from every epoch on is at least that of any other policy given the same accepted deposits |
| `DeferredPool.FifoReleasesMost` | core/scalar-emission/src/accounting.rs:69-127 | At every point of every such run, no release policy has paid out more than oldest-first |
| `DeferredOrder.UnbeatenIffOrderly` | core/scalar-emission/src/accounting.rs:69-127 | For every list of deposit epochs: no policy beats this pool on any run with these deposits if and only if no deposit that can expire comes after one of a later epoch |
| `DeferredOrder.InversionLoses` | core/scalar-emission/src/accounting.rs:94-127 | For every such inversion a run with these deposit epochs on which another policy pays out twice as much |
| `DeferredOrder.TakesOldestIffSorted` | core/scalar-emission/src/accounting.rs:107-121 | The FIFO loop leaves max(0, before - release) up to every epoch, for every release, if and only if the entries are in epoch order |
| `DeferredPool.ReleasedAndHeld` | core/scalar-emission/src/accounting.rs:69-127 | Over every run, released plus held is at most the residuals deposited, and equal to them if and only if no deposit was cut by the cap and no release met an entry older than 12 epochs |
| `DeferredPool.ReleasesEqualResiduals` | core/scalar-emission/src/accounting.rs:69-127 | Sum release = Sum residual if and only if, besides, the pool is empty |
| `DeferredPool.NothingExpires` | core/scalar-emission/src/accounting.rs:95-97 | The expiry step of one release forfeits nothing if and only if no entry is older than 12 epochs |
| `DeferredPool.ResidualCanBeLost` | core/scalar-emission/src/accounting.rs:94-127 | A run in which a deposit expires unreleased |
| `DeferredPool.ResidualCanBeCut` | core/scalar-emission/src/accounting.rs:69-86 | A run in which a deposit into a full pool is lost at once |
| `Accumulator.EmissionMonotone` | core/scalar-emission/src/accumulator.rs:33-53 | Emission never increases in total_minted, over all u64 values |
| `Accumulator.EmissionAccuracy` | core/scalar-emission/src/accumulator.rs:33-53 | The integer emission lies less than 12,600 below and less than 25,200 above the exact E0 * (1 - M/S_E)^2 |
| `Accumulator.EmissionZero` | core/scalar-emission/src/accumulator.rs:42-53 | Emission is zero if and only if at most 31,622 fixed-point units of supply remain |
| `Accumulator.EmissionBelowRemaining` | core/scalar-emission/src/accumulator.rs:42-53 | One emission is smaller than the remaining supply |
| `Accumulator.MintedBelowCap` | core/scalar-emission/src/accumulator.rs:33-80 | In every run from genesis total_minted stays strictly below S_E and no epoch is refused |
| `Accumulator.EmissionStops` | core/scalar-emission/src/accumulator.rs:33-80 | Emission stops after at most S_E / 12,600 epochs, for good, leaving a positive remainder of at most 59,765,580,000 |
| `Accumulator.EmissionAccumulator.CheckSupplyCap` | core/scalar-emission/src/accumulator.rs:56-69 | Ok exactly within the cap, Overflow exactly beyond u64, the cap error in between |
| `Accumulator.EmissionAccumulator.CommitEpoch` | core/scalar-emission/src/accumulator.rs:73-80 | The amount is added in full within the cap, or refused without effect |
| `Accumulator.EmissionAccumulator.MintEpoch` | core/scalar-emission/src/accumulator.rs:42-80 | An epoch of the schedule always succeeds |
| `Dmm.BuildDmm` | core/scalar-emission/src/dmm.rs:301-364 | Bootstrap and zero-hash errors, otherwise the specified manifest |
| `Dmm.CollectNodes` | core/scalar-emission/src/dmm.rs:314-326 | The first loop lists the eligible nodes and their saturated total weight |
| `Dmm.FillRewards` | core/scalar-emission/src/dmm.rs:330-337 | The second loop writes every node's share in place and sums them with saturation |
| `Dmm.RewardBudget` | core/scalar-emission/src/dmm.rs:283-337 | If the weights do not saturate, rewards sum to at most e_active, and with a positive total weight less than one unit per sharing node is left undistributed |
| `Dmm.BudgetNeedsUnsaturatedWeights` | core/scalar-emission/src/dmm.rs:283-337 | The budget holds for every e_active if and only if the weights do not saturate |
| `Dmm.SaturatedWeightsOverspend` | core/scalar-emission/src/dmm.rs:283-337 | Two nodes with weights U64_MAX and 1 are paid more than e_active |
| `Dmm.ManifestBudget` | core/scalar-emission/src/dmm.rs:301-364 | The manifest's total_emission is the sum of its rewards, within e_active, with the same bound on the dust |
| `Dmm.FairShares` | core/scalar-emission/src/dmm.rs:283-337 | Each node's reward is its own share of e_active by weight, rounded down |
| `Dmm.ManifestHashes` | core/scalar-emission/src/dmm.rs:338-361 | Every hash of a manifest is the one a verifier recomputes from its own fields: the reward root of the list with rewards, the health figures, the hash of all other fields; and the seed is that of the manifest before |
| `Dmm.ManifestBinding` | core/scalar-emission/src/dmm.rs:208-361 | Manifests with equal hashes are equal in every field, with equal reward roots in every reward, with equal transaction roots in their transactions, with equal seeds in the manifest before, or exhibit a collision of that hash |
| `Dmm.EligibleSubsequence` | core/scalar-emission/src/dmm.rs:314-326 | The node list is the subsequence of the previous nodes that have an anchor, none other and none missing, with the anchor's weight |
| `Dmm.NodeOrderInherited` | core/scalar-emission/src/dmm.rs:301-364 | A strictly sorted previous node list gives a strictly sorted one |
| `Dmm.ManifestOrderIndependent` | core/scalar-emission/src/dmm.rs:163-364 | The whole manifest, hashes included, is the same for any order of anchors and txids, if anchors of one node agree on its weight |
| `Dmm.InconsistentAnchorsDiverge` | core/scalar-emission/src/dmm.rs:163-167 | Without that agreement, two orders of the same anchors lead to different manifests |
| `Dmm.SortTransactions` | core/scalar-emission/src/ordering.rs:103-117 | The result is ordered by the key of txid and epoch, and a permutation of the input |
| `Dmm.TransactionOrderCanonical` | core/scalar-emission/src/ordering.rs:103-117 | For every arrival order and every sorting algorithm the result is the same, if transactions with equal keys are equal |
| `Dmm.TransactionOrderAmbiguous` | core/scalar-emission/src/ordering.rs:103-117 | And only then: otherwise two different results are correctly sorted |
| `Gini.PairwiseGini` | core/scalar-emission/src/equity.rs:5-30 | The nested loops give the sum over all ordered pairs, in any order of the input, over 2 * n * total; Overflow exactly when a sum or product exceeds a u64 |
| `Gini.LinearGini` | core/scalar-emission/src/equity_boost.rs:6-36 | The sorted weighted form equals the pairwise Gini, or one more by the remainder test; Overflow exactly when a sum or product exceeds a u64 |
| `Gini.SmallListsFit` | core/scalar-emission/src/equity_boost.rs:6-36 | Neither computation overflows when 2 * n * total * 10^6 is below 2^64 |
| `Gini.GiniInUnitInterval` | core/scalar-emission/src/equity.rs:5-30 | The coefficient lies between 0 and 10^6 |
| `Gini.PairSumPermutation` | core/scalar-emission/src/equity.rs:5-30 | The pair sum does not depend on the order of the list |
| `Gini.PairSumSorted` | core/scalar-emission/src/equity_boost.rs:20-28 | On a sorted list the sum over all pairs is 4 * sum(i * x_i) - 2 * (n + 1) * total |
| `Gini.GiniFormsAgree` | core/scalar-emission/src/equity_boost.rs:6-36 | The sorted form is the pairwise form, or exactly one more, according to a remainder test on the inputs |
| `Gini.GiniFormsCanDiffer` | core/scalar-emission/src/equity_boost.rs:6-36 | On rewards (0, 0, 1) they give 666666 and 666667 |

## Left out

- FRI Merkle commitments, `P2Challenger` and proof-of-work checks: the challenge of a round is an arbitrary function of the layers committed so far.
- FRI parameters other than the defaults (blowup 8, arity at most 4, constant final polynomial), hence `idft_goldilocks`.
- `fri_fold_arity4_simple`, `verify_fold_step`, `verify_commitment`: not used by the query path.
- FriTheorems.HonestQuery: takes a shift not divisible by P; the code raises ZeroDivisionError for any other.
- The t=8 permutation and BLAKE3 are parameters; 32-byte strings are four little-endian words in the tree and big-endian integers in the manifest, so byte packing is not modelled.
- Absorbing and squeezing in `Poseidon2Hasher::hash`, `hash_bytes_to_field`, `hash_2_to_1`: straight-line use of the permutation.
- FRI soundness counts challenges round by round; probabilities over whole transcripts and distances from the code are not modelled.
- Binding of the tree ends at a two-word collision of the permutation; nothing is said about how hard such a collision is to find.
- DeferredPool.FifoReleasesMost: is about deposits in epoch order, and `DeferredOrder.UnbeatenIffOrderly` states the exact condition; policies are offered what this pool accepts of each deposit.
- DeferredPool.FifoStaysAhead: the same restriction.
- DeferredPool.ReleaseTakesOldest: is about deposits in epoch order, since the loop takes the oldest entries only on lists in that order (`DeferredOrder.TakesOldestIffSorted`).
- Fri.BuildQueryRounds: takes layers of the sizes that the rounds of a commit demand.
- Dmm.InconsistentAnchorsDiverge: the previous manifest is chosen by the lemma; a manifest that lists none of the inconsistent nodes is not affected.
- Arithmetic overflow in coin selection and the Gini computations is a single `Overflow` outcome, the panic of a checked build; wrap-around of an unchecked build is not modelled.
- Library sorts are modelled by an ordered permutation, not by their algorithm.
- The `status` field of a manifest, and the anchor's heartbeat fields beyond being carried along.
- `add_fee`, `reward_for_node` and `distribution` of the accumulator; privacy modes, `CoinSelector` and the fee reserve of the wallet: short formulas and adapters.
- Consensus, slashing, governance, epochs, key management, networking, SDK and tooling: step functions, wrappers and plumbing that would add only easy members.
