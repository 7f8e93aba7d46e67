# Exact kernels of the EDI package

EDI designs and analyses experiments; its kernels are C++ files under `R/EDI/src`. This project models
those of them that are discrete algorithms or exact identities, over integers, bit-vectors and real
numbers, and proves what they promise.

- **Random numbers** (`sequences`, `words`, `word_matrices`, `scrambler_runs`, `first_words`,
  `mersenne_twister`, `bounded_rand`, `shuffle`): the Mersenne Twister of section 26.5.3.2 of ISO/IEC
  14882:2011 with R's seeding, Lemire's rejection sampling, and the shuffle. A generator carries as ghost
  state the stream of words it stands for; everything downstream is a function of that stream and a
  position in it.
- **Design searches** (`vectors`, `treatment_arms`, `criteria`, `allocation_uniformity`, `greedy_*`,
  `annealing*`, `parallel_for`, `binary_match`): the searches with their caches, updated in place, against
  cache-free references, what these references decide at every iteration, and the parallel loops under
  every interleaving.
- **Resampling** (`stable_sort`, `apportionment`, `resampling`, `resample_*`, `sample_uniformity`,
  `subsample_uniformity`): quotas, selection, draws and match ids.
- **Adjacent-category likelihood** (`log_sum_exp`, `adjacent_*`): `exp` and `log` enter as two functions
  of which only their laws are used. The gradient is proved to be the slope of the coded objective, the
  Hessian the sum of expected outer products of the scores.
- **Optimiser and index machinery** (`fixed_params`, `reduced_functor`, `newton`, `newton_fixed`,
  `discordant_pairs`, `pair_likelihood`, `group_layout`, `glmm_grouping`).

Methods that change state are stated against functions of the old state; the properties are lemmas
about those functions. Hypotheses that name what probability theory gives only with probability one:
`Lively` (from every position the stream holds an accepted word for every bound) and `Varied` (from every
position it shows enough different positions).

## Where the code and its comments differ

- `RNG.h:112-117`: the comment says that an imported `mti` is clamped into [0, 624]; the code only lifts
  nonpositive values. A larger `mti` acts like 624 (`OutsideIndexActsAs624`), because the next word
  regenerates the block.
- `python/cpp/bindings_ordinal.cpp:230-234`: the documentation gives log(p[k+1]/p[k]) = alpha[k] + eta; the
  recurrence in `fast_adjacent_category_logit.cpp:61-63` gives eta - alpha[k], as `NeighbourLogOdds` states.
- `_helper_functions_core.h:1495-1511`: the comment says that `converged` is classified by the gradient
  at the returned point. When the gradient there is not finite, the norm of the point before is used
  (`StaleNormConverges`); `ConvergedNormIsCurrent` gives the exact condition.
- `_helper_functions_core.h:1187`: the gradient norm of a fit is documented as the one at the returned
  point. `NormIsCurrent` says exit by exit when it is; when the iterations run out, it is that of the point
  before, and such a fit is never flagged as converged (`LastPointNotAssessed`, `OptimumNotAssessed`).
- `design_optimal_annealing_search.cpp:205-207`: infeasible moves are rejected, but the start is not
  checked. A chain answers feasibly, however long it runs, exactly when its start is feasible
  (`AnswerFeasible`). For a positive semidefinite H, and a positive number over zero not taken as negative,
  the answer of the search has a negative denominator exactly when some chain starts with one
  (`SearchAnswerSide`); seed 0 is an input (`SeedZeroWinsSearch`).
- `_glmm_engine.h:90`: the sentinel -1 makes the constructor undefined exactly when it is the smallest id
  (`DefinedIffSentinelFree`).
- `build_kk_combined_clogit_design.cpp:24-42`: a third member of a stratum is skipped, so its first two
  members still count as a pair; `PairsAre` covers that case too.

## Model

| member | source | states |
|---|---|---|
| Words.SplitMixInjective | R/EDI/src/RNG.h:302-308 | the 64-bit mixing of master seed and index loses nothing: equal mixed words come from equal sums |
| Words.IndicesStayDistinct | R/EDI/src/RNG.h:302-308 | under one master seed, distinct draw indices reach the final truncation with distinct 64-bit words |
| WordMatrices.SeedIsLowHalf | R/EDI/src/RNG.h:302-308 | the seed, widened again, is the mixed sum without its high half |
| WordMatrices.NextDrawNextMaster | R/EDI/src/RNG.h:302-308 | seed j + 1 of a master seed is seed j of the next master seed, so index and master seed enter by their sum only |
| WordMatrices.FirstDraw | R/EDI/src/RNG.h:302-308 | seed 0 is the low half of the mixed master seed; with the row before this determines all seeds |
| WordMatrices.SplitMixVectors | R/EDI/src/RNG.h:302-308 | the mixed words of the numbers 0 and 1, bit for bit |
| WordMatrices.UntwistUndoes | R/EDI/src/RNG.h:180-183 | the top bit of the oldest word and the low 31 bits of the next one are recovered from their twist |
| WordMatrices.LowBitsOfOldestDropOut | R/EDI/src/RNG.h:180-183 | nothing else of the oldest word enters |
| WordMatrices.TwistLinear | R/EDI/src/RNG.h:180-183 | the twist is linear over xor in both words together |
| WordMatrices.TwistImages | R/EDI/src/RNG.h:174-183 | its images of the single bits that enter it: the matrix row for the lowest bit, a shift for the others |
| WordMatrices.UntemperUndoes | R/EDI/src/RNG.h:197-201 | tempering is undone: a word shows the whole term it was made of |
| WordMatrices.TemperLinear | R/EDI/src/RNG.h:197-201 | tempering is linear over xor |
| WordMatrices.TemperImages | R/EDI/src/RNG.h:197-201 | its images of the 32 single bits |
| MersenneTwister.SeedStates | R/EDI/src/RNG.h:93-106 | different 32-bit seeds give different 624-word states, and no seed gives a state that is stuck at zero |
| MersenneTwister.SeedStateNonZero | R/EDI/src/RNG.h:93-106 | one of the state words 1 and 2 of every seed is nonzero |
| MersenneTwister.StuckStateStaysZero | R/EDI/src/RNG.h:173-195 | a state whose word 0 lacks its top bit and whose other words are zero, which seeding never produces, yields zero terms for ever |
| MersenneTwister.NewRRng | R/EDI/src/RNG.h:93-106 | the scrambling loops fill exactly the seed state, and the first word is the one after a full regeneration |
| ScramblerRuns.SeedZeroWords | R/EDI/src/RNG.h:93-104 | rounds 52, 53 and 449 of the scrambler from seed 0, by composing its steps |
| ScramblerRuns.SeedOneWords | R/EDI/src/RNG.h:93-104 | and from seed 1, which is seed 0 one round later: state words 0, 1 and 397 |
| FirstWords.SeedZeroFirstWord | R/EDI/src/RNG.h:173-204 | from seeding to tempering: the first word of seed 0 is 0xe58df29d |
| FirstWords.FirstWord | R/EDI/src/RNG.h:173-204 | the first word of every seed is made of state words 397, 0 and 1 |
| FirstWords.SeedOneFirstWord | R/EDI/src/RNG.h:173-204 | the first word of seed 1, whose oldest state word has its top bit set, is 0x43f86031 |
| BlockRecurrence.Regenerate | R/EDI/src/RNG.h:177-195 | the three in-place segments, which read words already overwritten, advance the window of the unbounded recurrence by 624 |
| BlockRecurrence.RestartFromBlock | R/EDI/src/RNG.h:173-204 | the recurrence restarted from any regenerated block continues the original sequence |
| BlockRecurrence.Generator.NextWord | R/EDI/src/RNG.h:173-204 | the i-th word is the tempered i-th term of the unbounded recurrence, the state stays the block of that term, and `mti` stays in 1..624 |
| BlockRecurrence.Generator.Export | R/EDI/src/RNG.h:155-156 | the exported index and state determine every word still to come |
| BlockRecurrence.Generator.constructor | R/EDI/src/RNG.h:115-117 | a generator rebuilt from any index and state yields exactly the words that index and state determine |
| BlockRecurrence.UpcomingFromBlock | R/EDI/src/RNG.h:115-117 | continuing from (`mti`, block) yields the same stream at the same place, for every `mti` >= 1 |
| BlockRecurrence.OutsideIndexActsAs624 | R/EDI/src/RNG.h:115-117 | an imported index outside 1..624 yields exactly the words that 624 yields |
| BoundedRand.ThresholdIsRemainder | R/EDI/src/RNG.h:329 | the unsigned `(-s) % s` is 2^32 mod s |
| BoundedRand.AcceptedStretch | R/EDI/src/RNG.h:326-336 | a word is accepted for v exactly when its product with s lies in a stretch that starts at the threshold of v 2^32 |
| BoundedRand.Unbiased | R/EDI/src/RNG.h:324-337 | every v below s is produced by exactly floor(2^32 / s) accepted words, for every s in 1..2^32 - 1 |
| BoundedRand.Bounded | R/EDI/src/RNG.h:324-337 | with its early test, the loop returns the value of the first accepted word of the stream and leaves the stream right behind it |
| BoundedRand.DrawBelow | R/EDI/src/RNG.h:324-337 | the value lies below s (and is 0 for s = 0) |
| BoundedRand.SeedStreamLively | R/EDI/src/RNG.h:93-106 | of a seeded stream only the acceptances are assumed: its words are 32-bit words |
| Shuffle.ShuffledPermutes | R/EDI/src/RNG.h:342-349 | any sequence of valid choices permutes the input and leaves the positions not yet reached alone |
| Shuffle.ShuffleDrawsFromUrn | R/EDI/src/RNG.h:342-349 | the result is that of drawing from an urn: places are filled from the last to the first, and each hole by the last ball left |
| Shuffle.Unshuffle | R/EDI/src/RNG.h:342-349 | for every reachable arrangement, choices that produce it |
| Shuffle.ShuffleIsInjective | R/EDI/src/RNG.h:342-349 | on distinct elements the choices are recovered from the result: choices and permutations correspond one to one |
| Shuffle.ChoiceCount | R/EDI/src/RNG.h:342-349 | there are n! choice sequences |
| Shuffle.ShuffleIsUniform | R/EDI/src/RNG.h:324-349 | every permutation of distinct elements is produced by the same number of tuples of accepted words, the product of floor(2^32 / k) |
| Shuffle.DrawnChoicesDecode | R/EDI/src/RNG.h:342-349 | the choices of a shuffle are decoded from the accepted words of the stream, so the uniformity statement is about the actual loop |
| Shuffle.FisherYates | R/EDI/src/RNG.h:342-349 | the in-place loop computes the functional shuffle of its input with the choices drawn from the stream |
| TreatmentArms.ExchangedOk | R/EDI/src/design_fixed_greedy.cpp:279-284 | a swap keeps the arms consistent: `w` has n_T ones, `treated` and `control` list exactly its ones and zeros without repetition |
| TreatmentArms.SplitArmsOk | R/EDI/src/design_optimal_annealing_search.cpp:107-110 | splitting a permutation after n_T entries gives consistent arms |
| TreatmentArms.SplitArmsAt | R/EDI/src/design_optimal_annealing_search.cpp:107-110 | the first n_T entries of the order are treated, and the lists keep its order |
| TreatmentArms.StartPermutation | R/EDI/src/design_optimal_annealing_search.cpp:102-106 | the start order is a permutation of 0..n-1 |
| GreedyObjective.CriterionExchange | R/EDI/src/design_fixed_greedy.cpp:171-173 | swapping i and j moves d = M(2w - 1) by delta |
| GreedyObjective.CandidateIsExact | R/EDI/src/design_fixed_greedy.cpp:189-192 | the incremental candidate value, in both objective modes, is the objective of the swapped allocation from scratch |
| Criteria.DotUnit | R/EDI/src/design_fixed_greedy.cpp:171-173 | the inner product with a unit vector is an entry |
| Criteria.CriterionIsDifference | R/EDI/src/design_fixed_greedy.cpp:171-172 | each row of d is the sum of M over the treated less the sum over the control units |
| Criteria.NormByMode | R/EDI/src/design_fixed_greedy.cpp:173 | in absolute mode f is the largest signed sum of d, attained; otherwise its squared length |
| Criteria.ObjectiveVanishes | R/EDI/src/design_fixed_greedy.cpp:171-173 | f is never negative, and zero exactly when every row of M has equal sums over the arms |
| GreedyObjective.CentredRowsSumToZero | R/EDI/src/design_fixed_greedy.cpp:111-135 | M built from the centred covariates, with any scaling matrix, has rows that sum to zero |
| GreedyObjective.MeanDifferenceIsScaledCriterion | R/EDI/src/design_fixed_greedy.cpp:54-60 | for centred covariates the half mean difference of the arms is a positive multiple of d, at any n_T |
| GreedyObjective.SameDecisions | R/EDI/src/design_fixed_greedy.cpp:54-60 | for centred covariates every strict comparison agrees with the one under the n_T-weighted mean difference |
| GreedyReference.FlipIsExchange | R/EDI/src/design_fixed_greedy.cpp:197-203 | flipping a pair is a swap of its members and leaves all other units alone |
| GreedyReference.PairFillCounts | R/EDI/src/design_fixed_greedy.cpp:150-156 | the oriented allocation has one treated unit per pair |
| GreedyReference.PairFillTreats | R/EDI/src/design_fixed_greedy.cpp:150-156 | side 0 treats the first member of its pair, side 1 the second |
| GreedyReference.BestFlipIsBest | R/EDI/src/design_fixed_greedy.cpp:183-195 | the scan finds the first of the largest strictly positive gains, or reports that there is none |
| GreedyReference.ScanDecides | R/EDI/src/design_fixed_greedy.cpp:180-208 | a round either certifies that no single pair flip lowers the objective, or moves to an orientation with strictly fewer better ones |
| GreedyReference.Descent | R/EDI/src/design_fixed_greedy.cpp:180-208 | the exhaustive search terminates (measure: number of strictly better orientations), never worsens, and ends at a local optimum |
| GreedyWalks.DescentSteps | R/EDI/src/design_fixed_greedy.cpp:180-208 | every round flips the first of the pairs whose flip lowers the objective most, until no flip lowers it |
| GreedyWalks.DesignIsLocalOptimum | R/EDI/src/design_fixed_greedy.cpp:180-208 | no exchange within a pair lowers the objective of the allocation that an exhaustive draw returns |
| GreedyReference.PairWalk | R/EDI/src/design_fixed_greedy.cpp:247-266 | random pair steps keep a valid orientation and never raise the objective; the steps themselves follow |
| GreedyReference.TryFlip | R/EDI/src/design_fixed_greedy.cpp:249-265 | the better of an orientation and the one with the drawn pair flipped, the current one when they tie |
| GreedyWalks.PairWalkSteps | R/EDI/src/design_fixed_greedy.cpp:247-266 | the walk takes exactly one such step per iteration, with the pair drawn at that place of the stream |
| GreedyWalks.FlipTraceEndsWalk | R/EDI/src/design_fixed_greedy.cpp:247-266 | conversely any run of such steps ends where the walk ends |
| GreedyReference.TryExchange | R/EDI/src/design_fixed_greedy.cpp:269-286 | the better of the arms and those after the drawn swap, the current ones when they tie; both keep `w` and the lists consistent |
| GreedyReference.SwapWalk | R/EDI/src/design_fixed_greedy.cpp:268-287 | the whole random walk keeps n_T treated units and never raises the objective; the steps themselves follow |
| GreedyWalks.SwapWalkSteps | R/EDI/src/design_fixed_greedy.cpp:268-287 | the walk takes exactly one step per iteration, to the better of the current arms and the swap drawn at that place of the stream |
| GreedyWalks.SwapTraceEndsWalk | R/EDI/src/design_fixed_greedy.cpp:268-287 | conversely any run of such steps ends where the walk ends |
| GreedyWalks.NoDrawnExchangeBeats | R/EDI/src/design_fixed_greedy.cpp:268-287 | no swap drawn at any iteration is better than the allocation the walk ends with |
| GreedyWalks.DesignSteps | R/EDI/src/design_fixed_greedy.cpp:159-287 | a draw without pairs is n_iter such steps from the random start |
| GreedyWalks.StartListsAscend | R/EDI/src/design_fixed_greedy.cpp:164-168 | the lists of the random start ascend |
| GreedyWalks.CoinsAre | R/EDI/src/design_fixed_greedy.cpp:150-156 | the coin of pair k is the top bit of word k; no word is rejected |
| GreedyReference.DesignIsBalanced | R/EDI/src/design_fixed_greedy.cpp:99-105 | every column has n_T treated units, in pair mode one per pair |
| AllocationUniformity.AllocationIsUniform | R/EDI/src/design_fixed_greedy.cpp:97-105 | every allocation with n_T ones is reached by exactly n_T! (n - n_T)! times the weight of n tuples of accepted words |
| AllocationUniformity.OrderMarks | R/EDI/src/design_fixed_greedy.cpp:99-105 | an order of all units marks an allocation exactly when it lists its treated units first |
| AllocationUniformity.OrderCount | R/EDI/src/design_fixed_greedy.cpp:99-105 | n_T! (n - n_T)! orders mark the same allocation |
| AllocationUniformity.DesignIsMarked | R/EDI/src/design_fixed_greedy.cpp:97-105 | the design without covariates is the allocation that the deciding words of its stream lead to |
| AllocationUniformity.StartIsMarked | R/EDI/src/design_fixed_greedy.cpp:159-162 | and so is the random start of the search without pairs |
| GreedyReference.DesignSplitsPairs | R/EDI/src/design_fixed_greedy.cpp:148-208 | in pair mode with covariates every column treats exactly one member of each pair |
| GreedySearch.Worker.constructor | R/EDI/src/design_fixed_greedy.cpp:141-143 | the thread buffers are allocated, with arbitrary contents |
| GreedySearch.Worker.BeginPairs | R/EDI/src/design_fixed_greedy.cpp:147-156 | a draw in pair mode begins, on any buffers, as the functional restart does |
| GreedySearch.Worker.BeginBalanced | R/EDI/src/design_fixed_greedy.cpp:159-173 | and so does a draw without pairs |
| GreedySearch.Worker.Refresh | R/EDI/src/design_fixed_greedy.cpp:171-173 | d and f are recomputed from w |
| GreedySearch.Worker.Evaluate | R/EDI/src/design_fixed_greedy.cpp:189-192 | the candidate value is the objective of the swapped allocation |
| GreedySearch.Worker.Scan | R/EDI/src/design_fixed_greedy.cpp:183-195 | one scan over the pairs computes, from the caches, the functional scan and the reference choice |
| GreedySearch.Worker.FlipBest | R/EDI/src/design_fixed_greedy.cpp:196-207 | w, `pair_cur_t`, d and f move together, as in the functional step, and stay exact |
| GreedySearch.Worker.TryPair | R/EDI/src/design_fixed_greedy.cpp:249-265 | one random pair step is the functional step on the buffers and keeps them exact |
| GreedySearch.Worker.TrySwap | R/EDI/src/design_fixed_greedy.cpp:269-286 | one random swap is the functional step on the buffers, so an improving swap is taken, and keeps them exact |
| GreedySearch.Worker.FillLists | R/EDI/src/design_fixed_greedy.cpp:164-168 | `treated` and `control` list the ones and zeros of w |
| GreedySearch.Worker.SearchPairsExhaustively | R/EDI/src/design_fixed_greedy.cpp:179-208 | keeps w, `pair_cur_t`, d and f consistent and exact, and reaches the orientation of the cache-free descent |
| GreedySearch.Worker.SearchPairs | R/EDI/src/design_fixed_greedy.cpp:247-266 | the same for the random pair steps |
| GreedySearch.Worker.SearchSwaps | R/EDI/src/design_fixed_greedy.cpp:268-287 | the same for the random swaps, with `treated` and `control` |
| GreedySearch.Worker.Draw | R/EDI/src/design_fixed_greedy.cpp:146-291 | a whole draw on reused buffers yields the column that the seed alone determines |
| GreedySearch.RunSchedule | R/EDI/src/design_fixed_greedy.cpp:138-291 | any assignment of draws to threads, in any order, yields for each draw the column of its index |
| ParallelFor.AnySchedule | R/EDI/src/design_fixed_greedy.cpp:138-146 | for iterations that do not depend on what their buffer held, every interleaving of steps leaves the sequential column wherever an iteration finished |
| ParallelFor.SchedulesAgree | R/EDI/src/design_fixed_greedy.cpp:138-146 | any two complete schedules on any threads give the same result |
| GreedySchedule.GreedyAlone | R/EDI/src/design_fixed_greedy.cpp:146-291 | the step-wise iteration, begun on any stale buffer, can only finish with the column of its stream |
| GreedySchedule.GreedyFinishes | R/EDI/src/design_fixed_greedy.cpp:146-291 | begun on any stale buffer, the cache-free iteration comes to its end |
| GreedyBuffers.RestartRefines | R/EDI/src/design_fixed_greedy.cpp:147-173 | starting a draw on stale buffers makes allocation, orientation, lists, d and f agree, and refines the cache-free start |
| GreedyBuffers.StepRefines | R/EDI/src/design_fixed_greedy.cpp:176-289 | every step on the cached d and f, in each mode, keeps the buffers consistent and refines the cache-free step |
| GreedyBuffers.DrawFinishes | R/EDI/src/design_fixed_greedy.cpp:146-291 | begun on buffers with any contents, a draw comes to its end |
| GreedyBuffers.DesignsUnderAnySchedule | R/EDI/src/design_fixed_greedy.cpp:138-291 | under any interleaving of the cached steps of the draws, every finished column is the one that the master seed and its index determine |
| BinaryMatch.FillColumn | R/EDI/src/binary_match_search.cpp:43-55 | the loop over the pairs writes the column that the stream determines |
| BinaryMatch.ColumnIsOrientation | R/EDI/src/binary_match_search.cpp:43-55 | on disjoint pairs the column treats exactly the member of each pair that its word selects |
| BinaryMatch.TopBitTreatsFirst | R/EDI/src/binary_match_search.cpp:48-54 | a word with its top bit set treats the first member of its pair, any other word the second |
| BinaryMatch.DrawAssignments | R/EDI/src/binary_match_search.cpp:35-56 | column j depends on the pairs, the master seed and j only |
| BinaryMatch.AssignmentsUnderAnySchedule | R/EDI/src/binary_match_search.cpp:35-56 | every interleaving of the columns' pair steps leaves the sequential columns |
| BinaryMatch.OrientationsAreFair | R/EDI/src/binary_match_search.cpp:48-54 | every vector of orientations comes from the same number, 2^31 per pair, of word tuples |
| BinaryMatch.WordTuplesAre | R/EDI/src/binary_match_search.cpp:48-54 | the counted tuples are exactly those whose top bits spell the orientations |
| AnnealingObjective.QuadExchange | R/EDI/src/design_optimal_annealing_search.cpp:199-204 | for a symmetric matrix the O(1) change of the quadratic form under a swap is exact |
| Criteria.ExactMeans | R/EDI/src/design_optimal_annealing_search.cpp:84-97 | kind by kind, the objective in terms of the treated units: block sums, absolute row sums, and a quotient with its value over zero a parameter |
| Criteria.L1Vanishes | R/EDI/src/design_optimal_annealing_search.cpp:84-97 | the L1 objective is never negative, and zero exactly when every row sums to zero over the treated units |
| Criteria.FeasibleMeans | R/EDI/src/design_optimal_annealing_search.cpp:205-206 | a ratio allocation is feasible exactly when its denominator is above 1e-12 |
| Annealing.AnnealState.constructor | R/EDI/src/design_optimal_annealing_search.cpp:99-126 | the start state comes from the shuffled order and all its caches are exact |
| Annealing.AnnealState.Objective | R/EDI/src/design_optimal_annealing_search.cpp:72-81 | the value read off the caches is the objective from scratch |
| Annealing.AnnealState.Evaluate | R/EDI/src/design_optimal_annealing_search.cpp:188-209 | the candidate value is the objective of the swapped allocation; a move is infeasible exactly when the true denominator is at most 1e-12 |
| Annealing.AnnealState.Accept | R/EDI/src/design_optimal_annealing_search.cpp:212-228 | accepting keeps every cache equal to its definition and swaps exactly the two units |
| Annealing.AnnealState.Reject | R/EDI/src/design_optimal_annealing_search.cpp:234-237 | rejecting undoes the flip of the custom copy, so every cache is exact again |
| Annealing.AnnealState.Step | R/EDI/src/design_optimal_annealing_search.cpp:184-240 | one iteration equals the cache-free iteration, and f_cur stays the exact objective |
| Annealing.RefStep | R/EDI/src/design_optimal_annealing_search.cpp:184-240 | an iteration keeps n_T treated units; a move it makes leaves the denominator above 1e-12 |
| Annealing.ChainVisits | R/EDI/src/design_optimal_annealing_search.cpp:174-240 | a chain visits max_iter + 1 allocations with n_T ones, feasible from the first move on |
| AnnealingWalk.StepIterates | R/EDI/src/design_optimal_annealing_search.cpp:184-240 | an iteration refuses an infeasible swap, takes a better one, and takes any other exactly when the Metropolis test accepts the next word |
| AnnealingWalk.ChainIterates | R/EDI/src/design_optimal_annealing_search.cpp:184-240 | the allocations visited are those of a run of such iterations |
| AnnealingWalk.TemperatureFalls | R/EDI/src/design_optimal_annealing_search.cpp:239-256 | after k iterations the temperature is the initial one times the k-th power of the rate |
| Annealing.RunChain | R/EDI/src/design_optimal_annealing_search.cpp:172-244 | the tracked best is the first best of the states visited, and the exact recomputation returns its tracked value |
| Annealing.FirstBestIsFirst | R/EDI/src/design_optimal_annealing_search.cpp:229-233 | a start that no visited state beats is the answer of its chain |
| Annealing.FirstBestAt | R/EDI/src/design_optimal_annealing_search.cpp:229-233 | the tracked best was visited before anything as good |
| AnnealingAnswer.AnswerFeasible | R/EDI/src/design_optimal_annealing_search.cpp:174-243 | for every objective, stream, temperature and Metropolis test: a chain answers feasibly for every number of iterations exactly when its start is feasible |
| AnnealingAnswer.ChainAnswerSide | R/EDI/src/design_optimal_annealing_search.cpp:174-243 | with positive numerators, as for a positive semidefinite H, a chain answers with a negative denominator exactly when it starts with one, and then with that start |
| AnnealingAnswer.SearchAnswerSide | R/EDI/src/design_optimal_annealing_search.cpp:161-251 | with positive numerators and a positive number over zero not negative, the search answers with a negative denominator exactly when one of its chains starts with one |
| AnnealingAnswer.SemidefiniteIsPositive | R/EDI/src/design_optimal_annealing_search.cpp:23-24 | a positive semidefinite H has positive numerators |
| AnnealingAnswer.InfeasibleStartWins | R/EDI/src/design_optimal_annealing_search.cpp:205-207 | a concrete ratio problem on which every lively stream that starts at [1, 0] makes the chain answer this infeasible allocation, for every number of iterations |
| AnnealingAnswer.InfeasibleStartWinsSearch | R/EDI/src/design_optimal_annealing_search.cpp:246-251 | and the whole search as soon as one chain starts there |
| AnnealingAnswer.SeedZeroStartsInfeasible | R/EDI/src/design_optimal_annealing_search.cpp:99-110 | with seed 0 the chain of the example starts at [1, 0] |
| AnnealingAnswer.SeedZeroWinsSearch | R/EDI/src/design_optimal_annealing_search.cpp:246-251 | a search that includes seed 0 answers the infeasible allocation, although a feasible one exists, whatever the other seeds and the number of iterations |
| AnnealingAnswer.LargestStartsInfeasible | R/EDI/src/design_optimal_annealing_search.cpp:99-110 | what is assumed of streams can be met: a lively stream exists on which the chain starts at [1, 0] |
| Annealing.ArgMin | R/EDI/src/design_optimal_annealing_search.cpp:246-248 | the index of the first smallest value |
| Annealing.Search | R/EDI/src/design_optimal_annealing_search.cpp:161-251 | the answer has n_T ones, carries its exact objective, is the tracked best of the first chain that found anything as good, and no allocation visited by any chain is better |
| AnnealingWalk.NoProposalBeatsAnswer | R/EDI/src/design_optimal_annealing_search.cpp:161-251 | no feasible allocation that any chain proposed at any iteration, accepted or not, beats the answer |
| Annealing.AnswerUnique | R/EDI/src/design_optimal_annealing_search.cpp:161-251 | a search has one answer, in allocation and value |
| StableSort.StableOrderUnique | R/EDI/src/exchangeable_resampling_draws.cpp:48 | the contract of a stable sort determines its result |
| StableSort.OrderSorts | R/EDI/src/exchangeable_resampling_draws.cpp:48 | the order used here meets that contract |
| StableSort.DistinctSortedIs | R/EDI/src/exchangeable_resampling_draws.cpp:97-98 | sorting, `unique` and `erase` give the distinct values in increasing order |
| Apportionment.LeftoverInRange | R/EDI/src/exchangeable_resampling_draws.cpp:45-49 | the number of leftover units is in [0, G), and every group that gets one has a positive remainder |
| Apportionment.AllocationSpendsAll | R/EDI/src/exchangeable_resampling_draws.cpp:28-59 | the quotas add up to `total_size` |
| Apportionment.AllocationRounds | R/EDI/src/exchangeable_resampling_draws.cpp:38-49 | each quota is the floor of its exact share, or one more when the share is not whole |
| Apportionment.LargestRemaindersWin | R/EDI/src/exchangeable_resampling_draws.cpp:48-49 | a bumped group has a larger remainder than one that is not, or the same and comes first |
| Apportionment.AllocationFits | R/EDI/src/exchangeable_resampling_draws.cpp:51-57 | no quota exceeds its group when `total_size` is at most the number of units |
| Apportionment.TooSmallIffOversampled | R/EDI/src/exchangeable_resampling_draws.cpp:51-57 | the "stratum is too small" stop is reachable exactly when more units are asked for than exist |
| Apportionment.ProportionalAllocation | R/EDI/src/exchangeable_resampling_draws.cpp:28-59 | succeeds exactly then, with the largest-remainder quotas |
| Resampling.GroupStrata | R/EDI/src/exchangeable_resampling_draws.cpp:280-293 | one pass over the units, with the counts of all groups adding up to n |
| Resampling.MembersAre | R/EDI/src/exchangeable_resampling_draws.cpp:280-293 | a group holds exactly the units of its stratum, ascending |
| Resampling.KeysAre | R/EDI/src/exchangeable_resampling_draws.cpp:280-293 | there is one group per stratum that occurs |
| ResampleStrata.GroupIsStratum | R/EDI/src/exchangeable_resampling_draws.cpp:280-293 | a group holds exactly the units whose stratum name is that of its first unit, ascending |
| ResampleStrata.SameGroupIffSameName | R/EDI/src/exchangeable_resampling_draws.cpp:280-293 | two units are in one group exactly when their stratum names are equal |
| ResampleStrata.StrataInOrder | R/EDI/src/exchangeable_resampling_draws.cpp:285-292 | groups are numbered in the order in which their names first appear |
| ResampleStrata.NoStrata | R/EDI/src/exchangeable_resampling_draws.cpp:294-298 | without strata there is one group, of all units |
| Resampling.SampleGroup | R/EDI/src/exchangeable_resampling_draws.cpp:61-89 | the two stops exactly in their cases, else the units at the drawn positions; without replacement, the first k different ones |
| Resampling.SampleFacts | R/EDI/src/exchangeable_resampling_draws.cpp:61-89 | exactly k units of the group are selected, without repetition unless replacement is allowed |
| SampleUniformity.SampleIsSelected | R/EDI/src/exchangeable_resampling_draws.cpp:73-79 | with replacement the units of a group are those that the accepted words of its draws select |
| SampleUniformity.TuplesSelectingAre | R/EDI/src/exchangeable_resampling_draws.cpp:73-79 | the counted tuples are exactly those that select the given units |
| SampleUniformity.SampleIsUniform | R/EDI/src/exchangeable_resampling_draws.cpp:73-79 | every sequence of k units of a group comes from floor(2^32 / n)^k word tuples |
| SampleUniformity.FirstOccurrencesOrder | R/EDI/src/exchangeable_resampling_draws.cpp:81-88 | without replacement units appear in the order in which they were first drawn |
| SubsampleUniformity.SubsampleStops | R/EDI/src/exchangeable_resampling_draws.cpp:81-88 | without replacement the units are those at the positions that the rejection loop on the deciding words stops with |
| SubsampleUniformity.SubsampleIsUniform | R/EDI/src/exchangeable_resampling_draws.cpp:81-88 | for every m, any two sequences of k different positions are completed by equally many tuples of m accepted words |
| Resampling.RenumberKeepsLinks | R/EDI/src/exchangeable_resampling_draws.cpp:91-113 | renumbering keeps which ids are positive, equal and smaller |
| Resampling.RenumberIsDense | R/EDI/src/exchangeable_resampling_draws.cpp:91-113 | the positive ids in the result are exactly 1..D |
| Resampling.Renumber | R/EDI/src/exchangeable_resampling_draws.cpp:91-113 | the loops compute that renumbering |
| ResampleDraw.PairIdentity | R/EDI/src/exchangeable_resampling_draws.cpp:161-213 | after sorting and renumbering, two rows share a positive id exactly when they come from the same selected occurrence of a unit of kind "pair" |
| ResampleRows.IdRowsLinked | R/EDI/src/exchangeable_resampling_draws.cpp:172-181 | with ids of the original rows, two rows share a positive id exactly when their original rows carry the same positive id |
| ResampleRows.RowsOfUnit | R/EDI/src/exchangeable_resampling_draws.cpp:163-185 | row j of the o-th selected unit stands j places after all rows of the units before it |
| ResampleRows.DrawRows | R/EDI/src/exchangeable_resampling_draws.cpp:187-223 | the rows of a draw are those rows, in order or sorted; its unit ids count from 1 |
| ResampleDraw.SortingKeepsLinks | R/EDI/src/exchangeable_resampling_draws.cpp:187-200 | sorting keeps the multiset of (row, id) links, ascends in the row, and keeps ties in their original order |
| ResampleDraw.SingletonDraw | R/EDI/src/exchangeable_resampling_draws.cpp:129-150 | the fast path returns the general draw for every selection, sorted or not |
| ResampleDraw.BuildDraw | R/EDI/src/exchangeable_resampling_draws.cpp:115-224 | both paths return the general draw: rows, match ids, unit ids and count |
| ResampleDriver.GroupsSamplable | R/EDI/src/exchangeable_resampling_draws.cpp:61-70 | every group of a call is non-empty and fits 32 bits, so the empty-group stop is not reached from there |
| ResampleDriver.SelectUnits | R/EDI/src/exchangeable_resampling_draws.cpp:304-308 | the units of a draw and the end of its stretch of the stream are determined by groups, quotas and stream |
| ResampleDriver.SelectionIsStratified | R/EDI/src/exchangeable_resampling_draws.cpp:304-308 | each group supplies exactly its quota, at its own place, from its own units; nothing is selected twice without replacement |
| ResampleDriver.Resample | R/EDI/src/exchangeable_resampling_draws.cpp:246-324 | succeeds exactly on sound arguments; draw b is the general draw of the selection that the quotas and the b-th stretch of the stream determine |
| ResampleStrata.DrawServesStrata | R/EDI/src/exchangeable_resampling_draws.cpp:280-322 | in every draw of a stratified call the number of units with a stratum name is the quota apportioned to it |
| ResampleStrata.DrawIsProportional | R/EDI/src/exchangeable_resampling_draws.cpp:28-59 | and that number differs from its proportional share of the sample size by less than one |
| LogSumExp.ExponentsNotPositive | R/EDI/src/fast_adjacent_category_logit.cpp:42-53 | every exponential is taken of a number that is not positive, and their sum is at least 1 |
| LogSumExp.SoftmaxIsDistribution | R/EDI/src/fast_adjacent_category_logit.cpp:65-70 | the stabilised soft-max is a probability vector, from the laws of the exponential alone |
| LogSumExp.LogTotalAboveTangent | R/EDI/src/fast_adjacent_category_logit.cpp:65-70 | the log-total is convex and the soft-max is its slope |
| LogSumExp.Normalise | R/EDI/src/fast_adjacent_category_logit.cpp:65-70 | the passes over the buffers compute log-total and soft-max |
| AdjacentObjective.NeighbourLogOdds | R/EDI/src/fast_adjacent_category_logit.cpp:61-64 | neighbouring categories differ in log-probability by eta minus the threshold between them |
| AdjacentProbability.ProbabilitiesHaveOdds | R/EDI/src/fast_adjacent_category_logit.cpp:61-70 | neighbouring probabilities have the odds exp(eta - threshold) |
| AdjacentProbability.ProbabilitiesUnique | R/EDI/src/fast_adjacent_category_logit.cpp:61-70 | and they are the only probability vector that has them |
| AdjacentProbability.LossIsLogProbability | R/EDI/src/fast_adjacent_category_logit.cpp:72-73 | exp(-loss) is the probability of the observed category |
| AdjacentProbability.ObjectiveIsLogLikelihood | R/EDI/src/fast_adjacent_category_logit.cpp:58-91 | exp(-objective) is the product of the probabilities of all observed categories |
| AdjacentObjective.SummationByParts | R/EDI/src/fast_adjacent_category_logit.cpp:82-85 | the slope along the thresholds against the cumulative probabilities |
| AdjacentObjective.GradientIsSlope | R/EDI/src/fast_adjacent_category_logit.cpp:82-88 | the score against any step is the mean change of the log-weights less the observed change |
| AdjacentObjective.LossAboveTangent | R/EDI/src/fast_adjacent_category_logit.cpp:58-88 | one observation's loss lies above its tangent, whose slope is the coded gradient contribution |
| AdjacentObjective.ObjectiveAboveTangent | R/EDI/src/fast_adjacent_category_logit.cpp:35-92 | the objective lies above every tangent with the coded gradient as slope: it is convex and the gradient belongs to it |
| AdjacentObjective.StationaryIsOptimal | R/EDI/src/fast_adjacent_category_logit.cpp:35-92 | parameters with zero gradient minimise the objective |
| AdjacentCategory.FillLogWeights | R/EDI/src/fast_adjacent_category_logit.cpp:61-64 | the backward recurrence fills the log-weights |
| AdjacentCategory.CumulatePass | R/EDI/src/fast_adjacent_category_logit.cpp:75-80 | one pass gives the cumulative probabilities and the mean category |
| AdjacentCategory.AddScores | R/EDI/src/fast_adjacent_category_logit.cpp:82-88 | the split loops add exactly the score vector |
| AdjacentCategory.ValueAndGradient | R/EDI/src/fast_adjacent_category_logit.cpp:35-92 | `operator()` returns the objective and leaves its gradient in the buffer |
| AdjacentScores.ScoreMeanIsZero | R/EDI/src/fast_adjacent_category_logit.cpp:75-88 | the score of every parameter averages to zero over the categories |
| AdjacentScores.InformationIdentity | R/EDI/src/fast_adjacent_category_logit.cpp:124-163 | each coded Hessian entry is the expected product of two scores, for any probability vector |
| AdjacentInformation.VarianceNeverClamped | R/EDI/src/fast_adjacent_category_logit.cpp:137 | the variance of the category is never negative, so `max(0, .)` never acts |
| AdjacentInformation.TotalSymmetric | R/EDI/src/fast_adjacent_category_logit.cpp:94-173 | the accumulated Hessian is symmetric |
| AdjacentInformation.HessianNonnegative | R/EDI/src/fast_adjacent_category_logit.cpp:94-173 | v'Hv >= 0 for every v |
| AdjacentHessian.MomentPass | R/EDI/src/fast_adjacent_category_logit.cpp:124-136 | one pass gives both prefix sums and both moments |
| AdjacentHessian.AddThresholdBlock | R/EDI/src/fast_adjacent_category_logit.cpp:139-146 | the threshold block, both triangles |
| AdjacentHessian.AddMixedBlock | R/EDI/src/fast_adjacent_category_logit.cpp:150-157 | the mixed block, both triangles |
| AdjacentHessian.AddCovariateBlock | R/EDI/src/fast_adjacent_category_logit.cpp:158-162 | the upper triangle of the coefficients |
| AdjacentHessian.Mirror | R/EDI/src/fast_adjacent_category_logit.cpp:166-170 | the lower triangle of the coefficients copied from the upper one |
| AdjacentHessian.Hessian | R/EDI/src/fast_adjacent_category_logit.cpp:94-173 | `hessian` returns the sum of the expected outer products of the scores, entry by entry |
| AdjacentHessian.ObjectiveCurvesUp | R/EDI/src/fast_adjacent_category_logit.cpp:94-173 | at every parameter vector that matrix is positive semidefinite |
| AdjacentLevels.GetLevels | R/EDI/src/fast_adjacent_category_logit.cpp:181-186 | the distinct outcomes, increasing |
| AdjacentLevels.MapToCategories | R/EDI/src/fast_adjacent_category_logit.cpp:188-197 | each outcome is mapped to one plus the number of levels below it |
| AdjacentLevels.CategoriesAreRanks | R/EDI/src/fast_adjacent_category_logit.cpp:188-197 | categories lie in 1..K, name their outcome, respect its order both ways, and none is empty |
| FixedParams.MakeFixedParamSpec | R/EDI/src/_helper_functions_core.h:517-581 | accepted exactly when acceptable; the first fault is the one reported; the result is a partition with the requested values |
| FixedParams.RoomForFree | R/EDI/src/_helper_functions_core.h:570-578 | while an index is free there is room for it: the preallocated list is filled exactly |
| FixedParams.CollectFree | R/EDI/src/_helper_functions_core.h:570-578 | the free indices are the unmarked ones, ascending, and fill a buffer of n minus the number fixed |
| FixedParams.ApplyFixedValues | R/EDI/src/_helper_functions_core.h:651-662 | overwrites exactly the fixed entries, or reports which check fails |
| FixedParams.ExpandFreeParams | R/EDI/src/_helper_functions_core.h:695-704 | fixed entries hold the fixed values and free entries the free ones, so that taking the free part gives the free vector back |
| FixedParams.ExpansionUnique | R/EDI/src/_helper_functions_core.h:695-704 | the expansion does not depend on the template |
| FixedParams.ExpandAfterSubset | R/EDI/src/_helper_functions_core.h:695-704 | expanding the free part of a vector gives that vector with the fixed values applied |
| FixedParams.SubsetMatrix | R/EDI/src/_helper_functions_core.h:631-649 | the selected entries, or an error exactly when an index is out of bounds |
| FixedParams.ExpandFreeCovariance | R/EDI/src/_helper_functions_core.h:705-721 | the free block is the input; every entry in a fixed row or column is missing, or zero |
| ReducedFunctor.FixedParameterFunctor.Evaluate | R/EDI/src/_helper_functions_core.h:1292-1299 | the reduced functor returns the full value and the free entries of the full gradient |
| ReducedFunctor.FixedParameterFunctor.Hessian | R/EDI/src/_helper_functions_core.h:1301-1305 | the reduced Hessian is the free block; the index checks never fire |
| ReducedFunctor.SubsetAfterExpand | R/EDI/src/_helper_functions_core.h:583-587 | taking the free part of an expansion gives the free vector back |
| ReducedFunctor.ReducedSlope | R/EDI/src/_helper_functions_core.h:1292-1299 | the reduced gradient has the slope of the full one along every free step |
| ReducedFunctor.ReducedAboveTangent | R/EDI/src/_helper_functions_core.h:1280-1318 | an objective above its tangents stays so when parameters are fixed |
| ReducedFunctor.ReducedCurvature | R/EDI/src/_helper_functions_core.h:1301-1305 | the reduced Hessian has the curvature of the full one along every free direction |
| NewtonOptimizer.HalvingsAllowed | R/EDI/src/_helper_functions_core.h:1476-1490 | the threshold 1e-4 admits exactly the 14 scales 1, 1/2, ..., 2^-13 |
| NewtonOptimizer.HalveStep | R/EDI/src/_helper_functions_core.h:1476-1491 | the largest of these scales that strictly lowers the objective, or none of them does |
| NewtonOptimizer.HalfIsPower | R/EDI/src/_helper_functions_core.h:1476-1490 | the h-th scale is 2^-h |
| NewtonOptimizer.CandidateMoves | R/EDI/src/_helper_functions_core.h:1480 | and the candidate moves against the solved step by that part of it |
| NewtonOptimizer.OptimizeNewton | R/EDI/src/_helper_functions_core.h:1435-1531 | the loop returns the fit of a run: a trace of Newton moves, each the largest admissible step, up to the exit that applies |
| NewtonOptimizer.RunUnique | R/EDI/src/_helper_functions_core.h:1435-1531 | the description leaves no choice: trace, exit and fit are determined by the inputs |
| NewtonOptimizer.FitUnique | R/EDI/src/_helper_functions_core.h:1435-1531 | so two fits of the same call are equal |
| NewtonOptimizer.NewtonContract | R/EDI/src/_helper_functions_core.h:1435-1531 | accepted values strictly decrease, at most maxit iterations, the value is the objective at the returned point and not above the start, the cap flag is set exactly without convergence at maxit iterations |
| NewtonOptimizer.ConvergedExactly | R/EDI/src/_helper_functions_core.h:1459-1530 | exit by exit: a small gradient is converged; a short step or a failed line search exactly when the norm meets `tol` or the scaled rule; no other exit is |
| NewtonOptimizer.SmallGradientStops | R/EDI/src/_helper_functions_core.h:1459-1467 | a start whose gradient norm is below `tol`, and no other, is returned as converged without a step |
| NewtonOptimizer.ExitsExactly | R/EDI/src/_helper_functions_core.h:1449-1530 | which points a run passes and which exit it takes: gradients and steps of at least `tol` before the last point, and the first shorter step ends it |
| NewtonOptimizer.DirectionSolves | R/EDI/src/_helper_functions_core.h:1469-1474 | with a sound solver the step solves H step = gradient at the current point |
| NewtonOptimizer.WithinScaledExactly | R/EDI/src/_helper_functions_core.h:1419-1433 | the scaled rule holds exactly for a norm below 1e-4 and below ten tolerances, or ten tolerances times the largest curvature |
| NewtonOptimizer.NormIsCurrent | R/EDI/src/_helper_functions_core.h:1187-1192 | exit by exit, when the reported norm is that of the returned point |
| NewtonOptimizer.LastPointNotAssessed | R/EDI/src/_helper_functions_core.h:1515-1530 | when the iterations run out or the next evaluation is not finite, the fit is not converged and reports the norm of the point before |
| NewtonOptimizer.OptimumNotAssessed | R/EDI/src/_helper_functions_core.h:1515-1530 | an input on which the last iteration lands on the optimum, norm 1 is reported and the fit is not converged |
| NewtonOptimizer.ConvergedNormIsCurrent | R/EDI/src/_helper_functions_core.h:1493-1530 | a converged fit reports the norm of the returned point exactly when the gradient is finite there |
| NewtonOptimizer.ConvergedIsStationary | R/EDI/src/_helper_functions_core.h:1419-1433 | with gradients finite wherever values are, convergence certifies the returned point |
| NewtonOptimizer.StaleNormConverges | R/EDI/src/_helper_functions_core.h:1494-1511 | an input on which a fit is reported as converged on the strength of the previous point's norm |
| NewtonFixed.OptimizeFixedNewton | R/EDI/src/_helper_functions_core.h:1580-1603 | Newton on the reduced functor, its answer expanded |
| NewtonFixed.ReducedAt | R/EDI/src/_helper_functions_core.h:1292-1305 | value, gradient norm and Hessian entries of the reduced functor are those of the full one at the expanded point |
| NewtonFixed.FixedNewtonContract | R/EDI/src/_helper_functions_core.h:1580-1603 | the answer keeps the fixed values, and its objective is the reported one and not above the start's |
| NewtonFixed.FixedConverged | R/EDI/src/_helper_functions_core.h:1580-1603 | a converged fit has a small free part of the full gradient at the returned point |
| NewtonFixed.FixedSmallStart | R/EDI/src/_helper_functions_core.h:1580-1603 | a start where that part is already small is returned as converged |
| DiscordantPairs.PairsAre | R/EDI/src/build_kk_combined_clogit_design.cpp:24-42 | exactly the discordant pairs of first and second members, each once, in order of the second member |
| DiscordantPairs.SmallStrataArePairs | R/EDI/src/build_kk_combined_clogit_design.cpp:24-42 | when no stratum has a third member, every two members of a stratum with different outcomes form a row |
| DiscordantPairs.PairsFit | R/EDI/src/build_kk_combined_clogit_design.cpp:6-8 | rows written and strata still open never use more subjects than were seen, so floor(n/2) rows suffice |
| DiscordantPairs.ReversedRow | R/EDI/src/build_kk_combined_clogit_design.cpp:35-38 | reversing a pair turns (y, t, x) into (1 - y, -t, -x) |
| DiscordantPairs.ReversalKeepsMargin | R/EDI/src/build_kk_combined_clogit_design.cpp:46-47 | the signed linear predictor of a row does not depend on which member comes first |
| DiscordantPairs.FindDiscordantPairs | R/EDI/src/build_kk_combined_clogit_design.cpp:9-43 | buffers of floor(n/2) rows are never overrun and hold the rows of those pairs; what the rows say follows |
| PairLikelihood.OutcomeNamesLarger | R/EDI/src/build_kk_combined_clogit_design.cpp:35-36 | the outcome of a row is 1 exactly when the first member has the larger outcome, and for 0/1 outcomes it is the first outcome |
| PairLikelihood.FilledOutcomes | R/EDI/src/build_kk_combined_clogit_design.cpp:31-40 | so it is in every row written, with the differences of treatment and covariates, first less second |
| DiscordantPairs.BuildDesign | R/EDI/src/build_kk_combined_clogit_design.cpp:109-134 | pair rows without intercept, then the reservoir rows with it, and the outcomes of both |
| PairLikelihood.DesignOutcomes | R/EDI/src/build_kk_combined_clogit_design.cpp:119-131 | the outcome column names the member with the larger outcome of each pair and then repeats the reservoir |
| DiscordantPairs.StackedPair | R/EDI/src/build_kk_combined_clogit_design.cpp:77-85 | a pair row yields the difference of its members' linear predictors, whatever the intercept |
| DiscordantPairs.StackedReservoir | R/EDI/src/build_kk_combined_clogit_design.cpp:77-85 | under the same coefficients a reservoir row yields its subject's own predictor |
| PairLikelihood.DifferenceIsConditional | R/EDI/src/build_kk_combined_clogit_design.cpp:83-85 | a logistic row on the difference of two predictors has the conditional probability that the member with the larger outcome is the one observed |
| PairLikelihood.StackedLikelihood | R/EDI/src/build_kk_combined_clogit_design.cpp:77-86 | the logistic likelihood of the stacked data is the conditional likelihood of the discordant pairs times the likelihood of the reservoir |
| GroupLayout.LayoutUnique | R/EDI/src/_helper_functions_core.h:248-267 | tiling, constancy inside and change between segments determine the layout |
| GroupLayout.BuildContiguousGroupLayout | R/EDI/src/_helper_functions_core.h:248-267 | the nested loops find that layout, its number of groups and the largest size |
| GlmmGrouping.DefinedIffSentinelFree | R/EDI/src/_glmm_engine.h:90-99 | the constructor is defined exactly when the smallest group id differs from -1 |
| GlmmGrouping.SegmentedIs | R/EDI/src/_glmm_engine.h:90-99 | the loop fails exactly on a first id of -1 and otherwise finds the layout |
| GlmmGrouping.GLMMData.constructor | R/EDI/src/_glmm_engine.h:73-101 | rows and outcomes are permuted together by the stable order, and the segments are the layout of the sorted ids |
| GlmmGrouping.SameLayout | R/EDI/src/_glmm_engine.h:90-100 | the constructor and `build_contiguous_group_layout` agree on the sorted ids |
| GlmmGrouping.SegmentsAreGroups | R/EDI/src/_glmm_engine.h:79-99 | a segment holds all rows of its id and no others, in their original order |
| GlmmGrouping.IdsRise | R/EDI/src/_glmm_engine.h:79-99 | ids rise strictly from segment to segment |

## Left out

- Rounding: `double` arithmetic is exact real arithmetic, so the drift handling of the searches becomes an
  equality. Special functions and quantile tables are not modelled.
- Scaling of words to doubles: `unif_rand`, `norm_rand`, `qnorm_std` and `seed_from_unif01`; master seeds
  and chain seeds are parameters, and the Metropolis test is an arbitrary predicate of the word drawn, the
  increase and the temperature.
- Termination with probability one of the rejection loops: assumed of the stream as `Lively` and `Varied`.
- The exhaustive greedy search without pairs, whose engine `greedy_pairwise_swap_engine.h` is not part of
  this model, and the argument checks that stop a call before the search.
- The Cholesky factor and the standard deviations that build M: an arbitrary scaling matrix stands for them.
- Linear algebra of the optimiser: solving, eigenvalues and norms are parameters; the L-BFGS fallback and
  the warm start are not modelled.
- Likelihood functors as mutable objects: value, gradient and Hessian are functions of the parameters.
- Missing values: `None` for R's missing integers and for non-finite numbers; the parameters of Newton's
  points are real numbers.
- Machine integers: sizes are below 2^32 where the code narrows them to `uint32_t`, and unbounded elsewhere.
- `std::vector` members that are reassigned as a whole or grown are sequences in fields or locals, so
  aliasing between them is not captured; in-place state of generator, shuffle, columns, likelihood and
  pair buffers is an array.
- Outcomes of the adjacent-category model are compared as integers; only their order is used.
- GHRule, `max_abs_log_sigma` and the penalty functions of the mixed-model engine.
- Interrupt checks, bindings, wrappers, distance kernels and the other source files.
- Annealing.AnnealState.constructor: 1 <= n_T < n and symmetric matrices are demanded, as the callers supply them; a division by zero in the value of a ratio start is a parameter, because IEEE infinities are not modelled.
