# Wave-field node: verified model

This project models the deterministic heart of a wave-field node and proves properties of it in Dafny 4.11. The node keeps account and pool balances (the wave field), orders transfers in a vector-clock DAG, aggregates commutative deltas through a number theoretic transform, decays idle balances, rewards operators and liquidity providers, and counts stake-weighted certificates.

The files follow the program's components.

| files | component |
|---|---|
| `Arithmetic`, `Polynomial`, `BitReversal`, `Ntt` | the transform: congruences and the order of 3, the recursive transform and its inverse, bit reversal and loop stages, the in-place engine |
| `Metabolic`, `Streams` | saturating powers, decay arithmetic, metabolic streams and their engine |
| `VectorClocks`, `Picking`, `DagModel`, `Ordering`, `DoubleSpends`, `Dag` | vector clocks, the ready-node scan, the DAG as a value, Kahn's algorithm, double-spend detection, the DAG object |
| `Stake`, `Certificates`, `Agreement`, `Tightness`, `LightClient` | the stake table, the certificate tracker, agreement between nodes, deployments that meet the bounds exactly, the light client |
| `Rewards` | the reward pool |
| `Merkle`, `Roots` | the accumulator and the roots built with it |
| `Batches`, `Balances`, `WaveFields` | commutative batches, decay and pool moves as values, the wave field object |
| `Domains`, `Settlement`, `Ticks`, `Oscillator` | fee policies and supply, settling ordered transfers, one synthesis tick as values, the node object |
| `Basics`, `Machine`, `Sums` | identifiers, 128-bit saturating arithmetic, sums over maps |

Objects whose methods update their fields are classes; every such method is tied to functions of the old state, and the properties are lemmas about those functions or invariants the methods keep. 32-byte identifiers and hashes are numbers read big-endian, so equality and lexicographic order are those of numbers. Iteration over hash maps takes the keys in any order. Hashing of transfers and signature checks are function parameters about which nothing is assumed; Merkle hashing is an injective constructor. Each public method is one atomic step.

## Where the code differs from its documentation

- `pick_minimal_ready` is documented to return a causally minimal ready node. It does so, and is independent of the scan order, exactly when concurrency is transitive among the clocks (`Picking.PickPromises`); `Picking.MinimalMissedExample` is a failing scan of three entries, and `Ordering.MinimalMissedInDag` a legal DAG that offers it. What holds always: a ready node that happened before all others is chosen.
- The quorum threshold is commented as strictly more than two thirds of the stake. That is so exactly when the total is not 2 modulo 3 (`Stake.ThresholdIsTwoThirds`).
- Decay is documented as a closed-form curve. `Metabolic.DecayedIsClosedForm` gives the exact condition on the inputs; at the default rate any positive balance untouched for seven ticks or more drops to a single sub-unit (`Metabolic.DefaultRateCollapses`).
- A batch that fails at one pool is queued again in full, as if it had had no effect. It can leave pools moved exactly when it also holds a covered move that has an effect (`Balances.FailureLeavesTrace`), so that the deposit of `Ticks.HalfAppliedAgain` is made once more at every tick. The ledger law accounts for what really took effect.
- All minting is documented to flow through the supply cap. A registration mints outside it exactly when a registered wallet holds nothing (`Oscillators.MintedOutsideCap`); `Oscillators.Oscillator.LiveWithinCap` bounds by how much the cap can be passed.
- The two copies of the balances are meant to agree. Between ticks a domain registration parts them whenever it succeeds (`Oscillators.Oscillator.RegisterDomain`), and a wallet registration unless both wallets are different and empty and the registered account is known or one of them (`Oscillators.RegistrationAgrees`). Both copies agree again after the next tick.
- A finalized shift is documented as having survived without conflict. It stays finalized, and a settled one unrejected, exactly as long as double-spend detection does not flag it against the present balance (`Ticks.FinalityKept`). `Ticks.FinalityLost` shows two transfers that settle and are finalized, one of which is rejected once the sender has spent the rest.
- Percentage fees have no documented limit. No transfer is charged more than its amount exactly when the policy asks for at most 10000 basis points, and policies are accepted whatever they ask for (`Domains.PercentageBoundIsExact`).

## Model

| member | source | states |
|---|---|---|
| Arithmetic.ThreeHalfOrder | src/consensus/ntt.rs:1-5 | 3 raised to half the group order is -1 modulo P, the fact that makes 3 usable as the generator; primality of P is not needed |
| Arithmetic.TwoHalfOrder | src/consensus/ntt.rs:37-42 | 2 raised to half the group order is 1, so that every power-of-two size has an inverse by the Fermat exponent |
| Polynomial.FftIsEval | src/consensus/ntt.rs:46-66 | each output of the decimation-in-time recursion is the input polynomial evaluated at a power of any principal root |
| Polynomial.FftIsDft | src/consensus/ntt.rs:46-66 | the recursion computes the naive sum of a[j] times root to the jk, as a canonical residue |
| Polynomial.FftInverse | src/consensus/ntt.rs:69-92 | evaluating a transform at the powers of the inverse root returns n times the coefficients |
| Polynomial.PrincipalInverse | src/consensus/ntt.rs:27-28 | the inverse of a principal root is principal |
| BitReversal.ReverseInvolution | src/consensus/ntt.rs:95-104 | reversing the low bits twice is the identity, so the permutation is made of swaps |
| BitReversal.ReverseWide | src/consensus/ntt.rs:97-99 | reversing a whole machine word leaves the reversed low bits at its top |
| BitReversal.StageZero | src/consensus/ntt.rs:48-49 | the bit-reversed input is the state of the recursion before the first stage |
| BitReversal.StageButterfly | src/consensus/ntt.rs:50-65 | going from stage l to stage l+1 of the recursion is a butterfly with the right twiddle on every pair the loops visit |
| Ntt.AddMod | src/consensus/ntt.rs:106-109 | the conditional subtraction is addition modulo P |
| Ntt.SubMod | src/consensus/ntt.rs:111-113 | the conditional addition is subtraction modulo P |
| Ntt.ModPow | src/consensus/ntt.rs:120-131 | square-and-multiply gives the power modulo P for every base and exponent |
| Ntt.ModInv | src/consensus/ntt.rs:133-136 | the Fermat exponent inverts whatever has order dividing P-1 |
| Ntt.BitReversePermute | src/consensus/ntt.rs:95-104 | in place, position k ends with what was at the reversal of k |
| Ntt.RunBlock | src/consensus/ntt.rs:53-63 | the innermost loop performs one block of a stage and touches nothing else |
| Ntt.RunStage | src/consensus/ntt.rs:50-65 | the middle loop performs one whole stage |
| Ntt.Butterflies | src/consensus/ntt.rs:49-65 | the three nested loops compute the recursion's result |
| Ntt.PowerTable | src/consensus/ntt.rs:30-35 | entry i of a table is the root to the i |
| Ntt.Precompute | src/consensus/ntt.rs:16-43 | the tables hold the powers of a principal root and of its inverse, and the inverse of the size |
| Ntt.RootFacts | src/consensus/ntt.rs:26-28 | the constructed root is principal, and it and the size have order dividing P-1 |
| Ntt.NttEngine.constructor | src/consensus/ntt.rs:16-43 | an engine for any power of two from 2 up that divides P-1 satisfies the engine invariant |
| Ntt.NttEngine.Ntt | src/consensus/ntt.rs:46-66 | in place, index k ends with exactly the naive sum over the old contents |
| Ntt.NttEngine.Intt | src/consensus/ntt.rs:69-92 | in place, the array ends as the inverse transform of its old contents |
| Ntt.NttEngine.InverseOfForward | src/consensus/ntt.rs:46-92 | the inverse undoes the transform on every canonical array of every legal size |
| Ntt.NttEngine.ForwardOfInverse | src/consensus/ntt.rs:46-92 | the transform undoes the inverse on every canonical array of every legal size |
| Metabolic.Pow | src/value/metabolic.rs:38-50 | saturating square-and-multiply is the exact power cut off at the 128-bit maximum |
| Metabolic.DecayedBalance | src/value/metabolic.rs:61-72 | the decay computation, with all its saturations |
| Metabolic.DecayedNeverGrows | src/value/metabolic.rs:61-72 | decay never exceeds its input, whatever saturates |
| Metabolic.RetainMeans | src/value/metabolic.rs:67-68 | what a tick retains of a million, for rates below and from a million up |
| Metabolic.DecayedIsClosedForm | src/value/metabolic.rs:52-72 | the exact condition under which the result is the documented curve rounded down |
| Metabolic.DefaultRateCollapses | src/value/metabolic.rs:15-19 | at the default rate every positive balance is 1 after seven or more ticks at once |
| Metabolic.PerTickBrackets | src/field/wave_field.rs:285-296 | after n single ticks a balance lies below the exact curve by less than n sub-units |
| Metabolic.PerTickRounding | src/field/wave_field.rs:285-296 | decaying tick by tick never exceeds one closed-form decay and falls short by at most n-1 |
| Streams.RunConserves | src/value/metabolic.rs:131-137 | on every schedule of ticks a stream's burns sum to what it lost |
| Streams.RemainingMeans | src/value/metabolic.rs:121-126 | up to its creation a stream holds its initial balance, afterwards what the curve leaves of it |
| Streams.ProcessMeans | src/value/metabolic.rs:131-137 | processing leaves the smaller of the curve's value and the rest, and burns the difference |
| Streams.RunIsLeast | src/value/metabolic.rs:123-137 | what is left is the least curve value among the visited ticks |
| Streams.RunOrderIrrelevant | src/value/metabolic.rs:123-137 | order and repetition of ticks do not matter |
| Streams.MetabolicDecayEngine.AddStream | src/value/metabolic.rs:156-158 | adding keeps live, burned and lost value equal to value added, a reused id replacing its stream |
| Streams.MetabolicDecayEngine.ProcessMetabolicDegradation | src/value/metabolic.rs:162-171 | one pass burns what the live streams lose, cut off at the 128-bit maximum, drops exhausted ones and keeps the conservation law |
| Streams.MetabolicDecayEngine.RecordBurn | src/value/metabolic.rs:183-185 | an external burn is added to the total |
| VectorClocks.MergeLoop | src/crypto/phase_shift.rs:44-49 | the in-place merge is the pointwise maximum |
| VectorClocks.HappenedBeforeIsStrict | src/crypto/phase_shift.rs:56-66 | the entry-by-entry comparison is the strict part of the pointwise order |
| VectorClocks.Transitive | src/crypto/phase_shift.rs:56-66 | happened-before is transitive |
| VectorClocks.Asymmetric | src/crypto/phase_shift.rs:56-66 | happened-before is asymmetric |
| VectorClocks.MergeIsJoin | src/crypto/phase_shift.rs:44-49 | merge is the least upper bound |
| VectorClocks.TickAdvances | src/crypto/phase_shift.rs:38-42 | ticking moves a clock strictly forward in one entry |
| VectorClocks.ConcurrentMeans | src/crypto/phase_shift.rs:68-71 | two clocks are concurrent when each is ahead of the other somewhere, or neither anywhere |
| Picking.DominatingIsPicked | src/consensus/dag.rs:265-269 | a ready node that happened before all others is always picked |
| Picking.PickIsLeast | src/consensus/dag.rs:320-344 | when concurrency is transitive the scan returns the least entry in the causal-then-hash comparison |
| Picking.PickIgnoresOrder | src/consensus/dag.rs:287-295 | when concurrency is transitive the scan order is irrelevant |
| Picking.SmallestHashPicked | src/consensus/dag.rs:333-340 | among concurrent ready nodes the one with the smallest hash is picked |
| Picking.PickPromises | src/consensus/dag.rs:316-344 | minimality of the pick, and independently its order-freedom, hold exactly when concurrency is transitive |
| Picking.MinimalMissedExample | src/consensus/dag.rs:316-344 | three given clocks and hashes for which the scan returns a node that another ready one happened before |
| Ordering.MinimalMissedInDag | src/consensus/dag.rs:279-295 | a legal DAG of three roots, all ready at once, on which the scan makes that choice |
| DagModel.InsertMirrored | src/consensus/dag.rs:128-140 | insertion keeps children mirroring predecessor lists |
| DagModel.InsertTopological | src/consensus/dag.rs:99-140 | appending the new node to the insertion log keeps the log topological |
| DagModel.SomethingReady | src/consensus/dag.rs:287-311 | if nothing is ready, everything is ordered: insertion rules cycles out |
| DagModel.PrefixComplete | src/consensus/dag.rs:309-313 | when the ready list runs empty every node has been ordered, once, after its predecessors |
| Dag.InsertClocks | src/consensus/dag.rs:121-126 | every inserted clock stays below its sender's tip clock and every tip below the maximum clock |
| Dag.InsertTips | src/consensus/dag.rs:142-154 | no inserted shift of a sender happened after the sender's recorded tip |
| Dag.InsertWellFormed | src/consensus/dag.rs:80-157 | insertion keeps the whole structural and causal invariant |
| Dag.DerivedIsAcceptable | src/consensus/dag.rs:249-263 | a derived clock always passes validation |
| Dag.VectorClockDag.Insert | src/consensus/dag.rs:80-157 | the exact result and new state in each of the four cases: bad signature, known hash, missing predecessor, inserted |
| Dag.VectorClockDag.ValidateOrDerive | src/consensus/dag.rs:219-254 | a submitted clock is accepted exactly when it obeys the two documented rules and has an own entry, and is otherwise refused for its first faulty entry |
| Dag.VectorClockDag.CheckEntries | src/consensus/dag.rs:228-247 | the loop over the entries finds the first fault in ascending order, or none exactly when the clock is acceptable |
| Dag.VectorClockDag.TopologicalOrder | src/consensus/dag.rs:270-314 | on every reachable DAG: no cycle report, every node once after its predecessors, and a function of the nodes alone when concurrency is transitive |
| Dag.VectorClockDag.DetectDoubleSpends | src/consensus/dag.rs:375-410 | reports exactly the shifts the rule flags |
| Dag.VectorClockDag.MarkDoubleSpends | src/consensus/oscillator.rs:553-560 | exactly the reported nodes become rejected |
| Dag.VectorClockDag.PromoteToFinalized | src/consensus/dag.rs:164-185 | exactly the accepted nodes that are old enough become finalized, and they are counted |
| Dag.PromotedMeans | src/consensus/dag.rs:171-176 | a node becomes finalized exactly if it is accepted and was inserted at least its depth of ticks ago |
| Dag.VectorClockDag.Commit | src/consensus/oscillator.rs:763-771 | exactly the listed nodes become applied and the balances are replaced |
| Dag.VectorClockDag.SeedBalance | src/consensus/dag.rs:72-74 | adds to one balance |
| Ordering.InDegrees | src/consensus/dag.rs:271-277 | counting children over all nodes yields each node's number of distinct predecessors |
| Ordering.PickMinimalReady | src/consensus/dag.rs:320-344 | the loop computes the scan |
| Ordering.PickedNode | src/consensus/dag.rs:287-295 | among ready nodes the pick is the causally first when there is one, and the least when concurrency is transitive |
| Ordering.SwapRemoveSet | src/consensus/dag.rs:295-295 | the swap-removal loses exactly the picked node |
| Ordering.Release | src/consensus/dag.rs:298-306 | decrementing the children keeps the counters exact and makes ready exactly what has become ready |
| Ordering.Step | src/consensus/dag.rs:287-307 | one round keeps the loop invariant and orders one more node |
| Ordering.TopologicalOrder | src/consensus/dag.rs:270-314 | termination with every node ordered, causal precedence at every position, canonical under transitivity |
| DoubleSpends.DetectDoubleSpends | src/consensus/dag.rs:375-410 | the nested loops over each sender's sorted shifts report exactly the flagged ones |
| DoubleSpends.UnflaggedFit | src/consensus/dag.rs:372-410 | two or more pairwise concurrent unflagged shifts of one sender total at most its balance |
| DoubleSpends.EarliestNotFlagged | src/consensus/dag.rs:383-387 | a sender's shift with the smallest insertion tick, and among those of that tick the smallest hash, is never flagged |
| DoubleSpends.FlaggedMeans | src/consensus/dag.rs:383-407 | exactly which shifts are flagged, in insertion ticks, hashes, clocks, amounts and the balance |
| DoubleSpends.LaterTickFlagged | src/consensus/dag.rs:383-403 | of a sender's only two shifts, concurrent and of different ticks, the earlier is never flagged and the later exactly when both together exceed the balance |
| DoubleSpends.FittingNotFlagged | src/consensus/dag.rs:389-407 | nothing is flagged when all of a sender's shifts fit its balance |
| Stake.ThresholdIsTwoThirds | src/operator/stake.rs:105-113 | the exact threshold; it exceeds two thirds exactly when the total is not 2 modulo 3, and never exceeds the total |
| Stake.TotalStakeCounts | src/operator/stake.rs:95-103 | an operator adds its stake to the total exactly when it was never slashed |
| Stake.StakeLocks | src/operator/stake.rs:63-74 | setting a stake changes the locked total by the difference |
| Stake.SlashUnlocks | src/operator/stake.rs:126-139 | slashing removes the operator's whole stake from the locked total |
| Stake.StakeTable.Stake | src/operator/stake.rs:65-74 | replaces one stake, keeps its slash mark, returns the old stake |
| Stake.StakeTable.Slash | src/operator/stake.rs:128-139 | zeroes and marks one operator, returns the nonce and the burned stake |
| Stake.StakeTable.QuorumThreshold | src/operator/stake.rs:95-113 | the loop computes the threshold of the total of unslashed stakes |
| Certificates.DeliverKeepsTallies | src/consensus/certificate.rs:232-273 | any delivery keeps every tally equal to the recorded stakes of the operators whose stored certificate has that view |
| Certificates.RunKeepsTallies | src/consensus/certificate.rs:232-273 | over any deliveries tallies stay explained, and the certificate and stake counted for a slot never change |
| Certificates.OneViewPerSlot | src/consensus/certificate.rs:208-216 | an operator supports at most one view per tick |
| Certificates.SecondCertificateCountsNothing | src/consensus/certificate.rs:250-263 | redelivery or a conflict changes no tally, and only a conflict slashes |
| Certificates.DeliverMeans | src/consensus/certificate.rs:232-273 | outcome and new state for every combination of signature, stake against the minimum, slash mark and stored certificate |
| Certificates.TallyNeedsStake | src/consensus/certificate.rs:246-248 | a tally changes only for an operator at the minimum stake that was never slashed |
| Certificates.CertificateTracker.Apply | src/consensus/certificate.rs:232-273 | tracker, stake table and outcome are what delivery defines, and a conflict reports the stake burned |
| Certificates.CertificateTracker.CheckQuorum | src/consensus/certificate.rs:277-287 | finds a view at the threshold exactly when one exists |
| Agreement.NodeSound | src/consensus/certificate.rs:232-273 | at every node, stored certificates are genuine and weigh the original stake, and no honest operator is ever slashed |
| Agreement.HonestBackOnce | src/consensus/certificate.rs:250-263 | honest support for two views of a tick is disjoint across any two nodes |
| Agreement.TwoViewsBound | src/consensus/certificate.rs:232-273 | tallies of two views of one tick at any two nodes total at most honest stake plus twice the faulty stake |
| Agreement.TotalBetween | src/operator/stake.rs:95-139 | slashing keeps a node's total between the honest stake and the original total |
| Agreement.AgreementFixedStake | src/consensus/certificate.rs:275-287 | with the common total in force, no two nodes reach quorum on different views of a tick, for every delivery order, when faulty stake is below T/3 + 2 - T%3 |
| Agreement.AgreementUnderSlashing | src/consensus/certificate.rs:250-287 | the same while slashing lowers thresholds and leaves tallies, when H/3 + 2 > H%3 + 2B |
| Tightness.FixedBoundIsExact | src/operator/stake.rs:104-113 | the fixed-stake bound holds exactly when no deployment with these stakes can disagree |
| Tightness.SlashingBoundIsExact | src/operator/stake.rs:104-139 | the slashing bound holds exactly when no deployment with these stakes can disagree |
| LightClients.LightClient.IngestCertificate | src/light_client/mod.rs:55-80 | delivers as a full node does, reports a quorum of that tick if there is one, and records the highest such tick |
| LightClients.LightClient.RegisterKey | src/light_client/mod.rs:45-50 | adds one key |
| Rewards.NeverOverAllocates | src/operator/rewards.rs:35-69 | a distribution never allocates more than it was given, even when products saturate |
| Rewards.RoundingAtMostOnePerOperator | src/operator/rewards.rs:35-69 | without saturation at most one sub-unit per staked operator stays unallocated |
| Rewards.SharesUpper | src/operator/rewards.rs:56-68 | all shares together stay within the reward |
| Rewards.SharesLower | src/operator/rewards.rs:56-68 | all shares together fall short by less than one sub-unit each |
| Rewards.BelowMinimumUnpaid | src/operator/stake.rs:85-93 | an operator below the minimum stake, or slashed, is paid nothing |
| Rewards.StakedPaid | src/operator/rewards.rs:56-68 | every other operator is paid its share |
| Rewards.DefaultPoolPaid | src/operator/rewards.rs:43-48 | half of what is shared out, rounded down, goes to the default pool, nothing to others |
| Rewards.RewardPool.Distribute | src/operator/rewards.rs:38-69 | the pool grows by exactly what is allocated, each staked operator by its share and the default pool by the other half |
| Rewards.RewardPool.PayShares | src/operator/rewards.rs:63-68 | the loop pays every operator its share once |
| Rewards.RewardPool.Claim | src/operator/rewards.rs:75-80 | what leaves the pool is what is returned |
| Rewards.RewardPool.ClaimLpReward | src/operator/rewards.rs:88-93 | the same for a liquidity pool |
| Merkle.SortAscending | src/state/merkle.rs:13-54 | the items are put in ascending key order |
| Merkle.LessMeans | src/state/merkle.rs:14-15 | keys compare by their first different byte, a proper prefix coming first |
| Merkle.SortIsByteOrder | src/state/merkle.rs:14-15 | sorted keys stand in that byte order |
| Merkle.PaddedInjective | src/state/merkle.rs:13-54 | padding by the last leaf to a power of two loses nothing when leaves differ |
| Merkle.TreeOfPairs | src/state/merkle.rs:13-54 | one round of combining adjacent digests keeps the tree's digest |
| Merkle.TreeInjective | src/state/merkle.rs:13-54 | equal digests of full trees over leaves mean equal leaves, also across sizes |
| Merkle.Root | src/state/merkle.rs:13-54 | the loops compute the digest of the padded tree over the sorted leaves |
| Merkle.RootOfTwo | src/state/merkle.rs:13-54 | the root of two items is the node over the leaf of the smaller key and the leaf of the larger, whichever is listed first |
| Merkle.RootOfFew | src/state/merkle.rs:28-60 | no items have the empty root, one item is its own leaf |
| Merkle.RootBinds | src/state/merkle.rs:13-54 | equal roots mean the same items |
| Merkle.RootIgnoresOrder | src/state/merkle.rs:13-54 | the root does not depend on the order of the items |
| Roots.StakeRootBinds | src/operator/stake.rs:150-164 | equal stake roots exactly for equal stakes and slash marks of all operators, for every iteration order |
| Roots.RewardRootBinds | src/operator/rewards.rs:101-118 | equal reward roots exactly for equal operator and liquidity-provider balances, for every iteration order |
| Roots.BigEndianBytes | src/operator/stake.rs:157-159 | byte i from the left is the digit of its weight |
| Roots.StakeItemLayout | src/operator/stake.rs:153-161 | the bytes of an operator's entry |
| Roots.RewardItemLayout | src/operator/rewards.rs:104-115 | the bytes of both kinds of reward entries |
| Batches.BinsAreSums | src/field/wave_field.rs:169-177 | a bin whose running sums fit 128 bits holds the sum of the deltas at its index |
| Batches.PoolSumsAreSums | src/field/wave_field.rs:169-177 | a pool's aggregate is the sum of its deltas |
| Batches.PoolSumsFit | src/field/wave_field.rs:176-176 | an aggregate whose positive and negative parts fit 128 bits never overflows, at any point of any order |
| Batches.PoolSumsTotal | src/field/wave_field.rs:169-177 | the aggregates together are the sum of all deltas |
| Batches.BatchIgnoresOrder | src/field/wave_field.rs:169-177 | bins and aggregates are the same for every permutation of a batch whose bins fit |
| Batches.TruncatedIsEuclidean | src/field/wave_field.rs:298-306 | the truncating remainder, corrected, is the canonical residue |
| Batches.ClampMeans | src/field/wave_field.rs:175-175 | a saturating sum is the nearest 128-bit signed value |
| Batches.NttIndexMeans | src/field/coordinates.rs:41-48 | the wrapping steps amount to one weighted sum of the components, reduced once |
| Batches.FieldRoundTrip | src/field/wave_field.rs:298-314 | encoding and decoding returns a value exactly when it lies within (P-1)/2 of zero |
| Balances.DecayBalanceInPlace | src/field/wave_field.rs:270-296 | decay of one balance with its three exemptions, and the amount burned |
| Balances.DecayPass | src/field/wave_field.rs:248-264 | a pass decays every balance and adds up what they lose, saturating |
| Balances.DecayOneShrinks | src/field/wave_field.rs:270-296 | decay never adds units, changes nothing for exempt balances, and only advances the clock otherwise |
| Balances.DecayOneMeans | src/field/wave_field.rs:270-296 | when a balance is spared, with the grace window in ticks, and for how many ticks it decays otherwise |
| Balances.MovedTotal | src/field/wave_field.rs:201-212 | the pools together move by the sum of the aggregates, and each by its own |
| Balances.AppliedAll | src/field/wave_field.rs:201-212 | when every pool is covered, every move takes effect, whatever the order |
| Balances.AppliedStops | src/field/wave_field.rs:207-209 | nothing after the first uncovered pool takes effect |
| Balances.FailureLeavesTrace | src/field/wave_field.rs:201-212 | a failing batch can leave some pool changed exactly when it holds a covered move that has an effect |
| WaveFields.WaveField.SynthesizeCommutativeBatch | src/field/wave_field.rs:162-215 | the round-trip check fails exactly when a bin is out of range and then changes nothing; otherwise the pools are moved in some order up to the first uncovered one, all of them exactly when none is |
| WaveFields.WaveField.RoundTrip | src/field/wave_field.rs:181-186 | transform and inverse return the encoded bins |
| WaveFields.WaveField.FirstMismatch | src/field/wave_field.rs:188-197 | reports the first bin out of range, or none exactly when all are in range |
| WaveFields.WaveField.Aggregate | src/field/wave_field.rs:169-177 | one pass computes bins and aggregates |
| WaveFields.WaveField.MovePools | src/field/wave_field.rs:199-214 | pools move one by one in some order, up to the first that would go negative, which is reported |
| WaveFields.WaveField.ApplyMetabolicDecay | src/field/wave_field.rs:242-265 | every account and pool decays, and the burn reported is what they lost, saturating |
| WaveFields.WaveField.CreditAccount | src/field/wave_field.rs:125-130 | adds to one account, saturating |
| WaveFields.WaveField.DebitAccount | src/field/wave_field.rs:132-143 | takes from one account exactly when it is covered |
| WaveFields.WaveField.EnsureAccount | src/field/wave_field.rs:103-105 | creates an absent account at zero |
| WaveFields.WaveField.SetNonDecaying | src/field/wave_field.rs:109-114 | exempts one account from decay |
| Domains.SignalFee | src/consensus/oscillator.rs:336-361 | fee and net always sum to the amount, and there is an error exactly for an unknown domain or an uncovered flat fee |
| Domains.FeeMeaning | src/consensus/oscillator.rs:347-360 | a flat policy charges its fee, a percentage policy its share of the amount rounded down, the metabolic policy nothing |
| Domains.PercentageBoundIsExact | src/consensus/domain.rs:76-106 | no transfer is charged more than its amount exactly for at most 10000 basis points, which acceptance does not check |
| Domains.SupplyTracker.Mint | src/value/supply.rs:26-36 | mints exactly when the cap allows |
| Domains.SupplyTracker.Burn | src/value/supply.rs:40-48 | moves value from circulating to burned |
| Settlement.ApplyMeaning | src/consensus/oscillator.rs:699-708 | what one settled transfer does to each account, sender and receiver possibly the same |
| Settlement.ReplayConserves | src/consensus/oscillator.rs:636-720 | what the accounts lose over a settlement is exactly the fees |
| Ticks.QueueNext | src/consensus/oscillator.rs:132-150 | recording a fresh nonce keeps queued nonces strictly increasing per sender and domain |
| Ticks.SettledFacts | src/consensus/oscillator.rs:645-720 | what settles is eligible, without repetition, and payable when its turn comes |
| Ticks.SettledAt | src/consensus/oscillator.rs:645-720 | what settles before a shift is a prefix of all that settles, and alone decides whether it can pay |
| Ticks.SettledNotOverdrawn | src/consensus/oscillator.rs:551-560 | nothing settles that was rejected, settled before, or overdrawn against the decayed balances |
| Ticks.ConcurrentSettledFit | src/consensus/oscillator.rs:551-560 | concurrent transfers of one sender that settle in one tick total at most its decayed balance |
| Ticks.BurnShare | src/consensus/oscillator.rs:491-497 | a quarter of what decays, rounded down, is burned, and never more than decayed |
| Ticks.FilingMeans | src/consensus/oscillator.rs:524-549 | filing adds pending shifts with known key and valid signature, each accepted and unapplied under its own hash, and loses none whose predecessors were filed |
| Ticks.GroupedInflow | src/consensus/oscillator.rs:579-600 | grouping by domain creates no inflow and leaves no empty group |
| Ticks.GroupedMeans | src/consensus/oscillator.rs:579-600 | grouping keeps, for every domain registered as commutative, exactly its pending deltas in order, and nothing else |
| Ticks.NetsOfGrouped | src/consensus/oscillator.rs:579-600 | the batch sums to the pending deltas whose domain is registered as commutative |
| Ticks.BatchMoves | src/field/wave_field.rs:199-214 | a batch that took effect, in whole or in part, moves the pool total by what was applied |
| Ticks.HalfAppliedAgain | src/consensus/oscillator.rs:610-617 | a deposit and an uncovered withdrawal: the deposit is made and both wait again, so that every further tick makes it once more |
| Ticks.DebtorsKnown | src/consensus/oscillator.rs:738-748 | every account that owes a fee has a settled balance |
| Ticks.FeeDebtsMean | src/consensus/oscillator.rs:738-748 | the debts add up to the fees, and the debtors are the senders |
| Ticks.SyncedIgnoresUnits | src/consensus/oscillator.rs:749-787 | the fee debits before the write-back leave no trace: nobody is charged twice |
| Ticks.SyncedTotal | src/consensus/oscillator.rs:773-787 | after the write-back the accounts hold exactly the settled balances |
| Ticks.ActiveMeans | src/consensus/oscillator.rs:712-719 | active are the two sides of a settled transfer, unless they are the same |
| Ticks.WrittenBackMeans | src/consensus/oscillator.rs:773-787 | settled balances are taken over, and exactly the accounts that traded start their grace window |
| Ticks.SettledGrows | src/consensus/oscillator.rs:763-771 | shifts settled now extend those settled before without repetition |
| Ticks.CheckedMarks | src/consensus/oscillator.rs:551-566 | exactly the overdrawn nodes become rejected, whatever they were, exactly the other old enough accepted ones finalized, and applied marks stay |
| Ticks.FinalityKept | src/consensus/oscillator.rs:551-566 | a finalized shift stays finalized, and a settled one unrejected, exactly when it is not flagged |
| Ticks.SpentPairFlags | src/consensus/dag.rs:389-407 | of two concurrent transfers of 50 the second is flagged exactly when the sender holds less than 100 |
| Ticks.SpentPairSettles | src/consensus/oscillator.rs:645-720 | both of them settle in one tick from any sender holding at least 100 |
| Ticks.FinalityLost | src/consensus/dag.rs:9-13 | settled and finalized, the second is rejected as soon as the sender holds less than 100 |
| Oscillators.Oscillator.constructor | src/consensus/oscillator.rs:92-114 | a new node satisfies every invariant with an empty ledger |
| Oscillators.Oscillator.CreditBoth | src/consensus/oscillator.rs:187-193 | adds to one account in both copies, and keeps them equal if they were |
| Oscillators.Oscillator.DebitBoth | src/consensus/oscillator.rs:300-318 | takes from one account in both copies exactly when covered, and keeps them equal if they were |
| Oscillators.Oscillator.Reward | src/operator/rewards.rs:35-69 | what is handed over is shared exactly as the pool defines, and what that leaves unallocated is recorded as dust |
| Oscillators.Oscillator.SeedAccount | src/consensus/oscillator.rs:177-194 | mints within the cap to one account in both copies, or changes nothing |
| Oscillators.Oscillator.RegisterDomain | src/consensus/oscillator.rs:208-260 | succeeds exactly for an acceptable new policy whose fee is covered; the fee leaves one account and is shared out by the pool, and parts copies that agreed exactly then |
| Oscillators.Oscillator.CheckAndRecordNonce | src/consensus/oscillator.rs:133-150 | accepts and records exactly nonces above the highest seen; no nonce is ever accepted twice for an account and domain |
| Oscillators.Oscillator.ApplyStake | src/consensus/oscillator.rs:281-331 | moves value between account and stake in both copies, exactly when signature, nonce and balance allow; a fresh nonce under a valid signature is spent in any case, and once |
| Oscillators.Oscillator.Relock | src/consensus/oscillator.rs:291-330 | the difference moves between account and stake in both copies, exactly when the account covers it |
| Oscillators.Oscillator.GrantBothCopies | src/consensus/oscillator.rs:371-387 | what is granted to each copy, and that copies which agreed agree afterwards exactly when both are granted the same |
| Oscillators.MintedOutsideCap | src/value/supply.rs:7-11 | a registration mints outside the cap exactly when a registered wallet holds nothing |
| Oscillators.RegistrationAgrees | src/consensus/oscillator.rs:371-387 | the copies still agree exactly for two different empty wallets and an account that is known or one of them |
| Oscillators.Oscillator.LiveWithinCap | src/value/supply.rs:1-36 | over any run, value not burned passes the cap by at most grants and net deltas |
| Oscillators.Oscillator.ApplyRegistration | src/consensus/oscillator.rs:365-388 | with a fresh nonce, which is then spent, grants to empty accounts only, to the DAG's copy always, and mints exactly the former |
| Oscillators.Oscillator.GrantIfEmpty | src/consensus/oscillator.rs:382-387 | grants once, and only to an account holding nothing |
| Oscillators.Oscillator.EnsureAccounts | src/consensus/oscillator.rs:377-381 | makes three accounts known and exempts the second token's, changing no units |
| Oscillators.Oscillator.MarkNonDecaying | src/consensus/oscillator.rs:199-202 | exempts one account without changing units |
| Oscillators.Oscillator.IngestCertificate | src/consensus/oscillator.rs:154-169 | delivers as the tracker defines, and moves exactly the slashed stake from circulating to burned |
| Oscillators.Oscillator.IngestCommutative | src/consensus/oscillator.rs:390-419 | queues once per signature for domains that allow it |
| Oscillators.Oscillator.IngestStateful | src/consensus/oscillator.rs:421-452 | queues exactly the admissible transfers with a fresh nonce, a new signature and a positive amount |
| Oscillators.Oscillator.NonceSpentOnce | src/consensus/oscillator.rs:132-150 | over any run, no two different settled shifts share sender, domain and nonce |
| Oscillators.Oscillator.DecayPhase | src/consensus/oscillator.rs:464-509 | balances decay, a quarter of the loss is burned and the rest shared out; the ledger law is kept to the last sub-unit |
| Oscillators.Oscillator.DecayedMeans | src/consensus/oscillator.rs:464-484 | which accounts are spared, by stake, slash mark, foreign value or recent activity, and at which rate the others decay |
| Oscillators.Oscillator.DecayedPoolsMean | src/field/wave_field.rs:259-262 | pools decay likewise, nobody's stake sparing them |
| Oscillators.Oscillator.SyncToDag | src/consensus/oscillator.rs:511-522 | afterwards both copies agree |
| Oscillators.Oscillator.DecayAndSync | src/consensus/oscillator.rs:464-522 | the DAG decides on the decayed balances |
| Oscillators.Oscillator.FilePending | src/consensus/oscillator.rs:524-549 | the pending shifts are filed one after the other, exactly as insertion defines, and none stays pending |
| Oscillators.Oscillator.CheckSpends | src/consensus/oscillator.rs:551-566 | exactly the overdrawn shifts become rejected, then the old enough accepted ones finalized |
| Oscillators.Oscillator.FileAndCheck | src/consensus/oscillator.rs:524-567 | filing and checking keep settled marks and the origin of every shift |
| Oscillators.Oscillator.Group | src/consensus/oscillator.rs:574-600 | the batch holds exactly the pending deltas of each commutative domain in order, those of unknown or other domains being dropped |
| Oscillators.Oscillator.ApplyBatch | src/consensus/oscillator.rs:605-620 | pools and waiting deltas end as one turn defines: refused, applied in full, or applied up to the first uncovered pool and queued again in full |
| Oscillators.Oscillator.CommutativePhase | src/consensus/oscillator.rs:569-624 | pools and waiting deltas are those of one turn per domain in some order; if nothing has to wait, the ledger moves by the sum of the pending deltas of commutative domains, and only faulty or withdrawing domains wait |
| Oscillators.Oscillator.CheckEligible | src/consensus/oscillator.rs:648-689 | decides exactly by rejection, application, key, signature, domain and, in strict domains, a quorum for the insertion tick |
| Oscillators.Oscillator.EligibleMeans | src/consensus/oscillator.rs:648-689 | in a strict domain some view must hold a quorum for the shift's insertion tick, besides status, key, signature and domain |
| Oscillators.Oscillator.SettledByMeans | src/consensus/oscillator.rs:641-720 | a shift settles exactly if its status, key, signature, domain, quorum and flat fee allow it and its sender holds the amount after what settled before |
| Oscillators.Oscillator.SettleOrdered | src/consensus/oscillator.rs:641-720 | settles in order exactly what is eligible and covered at its turn, and balances plus fees equal the balances before |
| Oscillators.Oscillator.DebitFees | src/consensus/oscillator.rs:734-753 | each debtor loses its fees as far as its account covers them, and nothing else about any account changes |
| Oscillators.Oscillator.CollectDebts | src/consensus/oscillator.rs:739-748 | the loop adds up what each sender owes |
| Oscillators.Oscillator.SyncBack | src/consensus/oscillator.rs:773-787 | every settled balance is written back and traders start their grace window |
| Oscillators.Oscillator.Finish | src/consensus/oscillator.rs:734-787 | fees reach the pool, settled shifts are marked, both copies become the settled balances, the ledger balances |
| Oscillators.Oscillator.SettlePhase | src/consensus/oscillator.rs:626-787 | the early return is unreachable; what settles, the new balances, accounts and reward shares are functions of the DAG, the balances and the order |
| Oscillators.Oscillator.Prepare | src/consensus/oscillator.rs:461-567 | after decay and filing, balances and DAG are functions of the old state, and both copies agree |
| Oscillators.Oscillator.Synthesize | src/consensus/oscillator.rs:456-837 | a whole tick keeps the ledger law and every other invariant, leaves both copies equal, settles each shift at most once; settled shifts, balances, accounts, DAG, pools, waiting deltas, burn and reward shares are functions of the old state and the orders gone through |

The ledger law of `Oscillators.Oscillator`, part of the `Valid` that its constructor establishes and its public operations keep, is `Ledgered`: account units, pool units, locked stake, reward balances, unallocated dust and burned value together equal everything minted plus the net commutative deltas that took effect. Dust is what a distribution leaves unallocated: its rounding, and the operators' half when nobody is staked. Steps inside an operation, such as crediting one account, state their effect on the totals instead.

## Left out

- Network, API, websocket, gossip, EVM execution, persistence, bridge, simulation and spectrum-band modules: input and output, stubs, or code outside the components listed above; a tick has an empty EVM pool.
- Ed25519, blake3, bincode: signature checks and transfer hashing are parameters; leaf and node hashing of the accumulator are injective constructors, and the domain tags that separate them are part of those constructors.
- Lock order and thread interleaving inside a tick: every public method is one step.
- Wall-clock time, latency, throughput and all floating-point values.
- The error strings and the list of rejected shifts in a tick's result: only what settles, what decays and the final balances are kept.
- Signing the node's own certificate at the end of a tick, and the roots it carries apart from the stake and reward roots: a certificate reaches the tracker through certificate ingestion.
- The dispatch of signals to the ingestion methods, and their decoding.
- `apply_ordered` and `apply_commutative_delta`: the settlement loop without fees and marks, and a single pool move.
- The snapshot functions of the stake table and its genesis parsing.
- Frequency vectors of accounts, and the stored per-balance decay rate, which no modelled computation reads.
- Streams, DAG nodes and balances are values held in maps rather than objects of their own: updates through references to them are modelled as map updates.
- Plain 64-bit and 128-bit additions that would panic or wrap on overflow (nonces, ticks, vector-clock entries, reward balances, the sums inside double-spend detection): numbers are unbounded there.
- Oscillators.Oscillator.Synthesize: requires minted value, net deltas and positive pending deltas together to stay within 128 bits; it does not repeat the spectrum, which the batch method of the wave field states, and says nothing about interleavings with other calls.
- Oscillators.Oscillator.RegisterDomain: requires percentage fees of at most 10000 basis points, which the code does not check; above that some transfer's net amount underflows (`Domains.PercentageBoundIsExact`).
- Domains.SignalFee: same requirement, over all registered policies.
- Oscillators.Oscillator.SeedAccount: requires the ledger to stay within 128 bits after the mint.
- Oscillators.Oscillator.ApplyRegistration: requires room for two grants within 128 bits.
- Batches.BinsAreSums: requires the positive and the negative deltas of that one bin each to fit 128 bits; beyond it the running sum can saturate.
- Batches.BatchIgnoresOrder: requires the same of every bin.
- Metabolic.PerTickRounding: stated where nothing saturates, which for the denominator means at most six ticks.
- Agreement.AgreementFixedStake: operators do not change their stake during the run other than by slashing; both nodes are measured while the common total is in force.
- Agreement.AgreementUnderSlashing: operators do not change their stake during the run other than by slashing.
