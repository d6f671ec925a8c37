# Weighted PageRank scoring engine, modelled in Dafny

This project models the weighted-scoring engine of the `PageRank` class in
`weighted_pagerank.cpp`. The engine ranks the papers of a citation graph. It
first builds one composite weight per paper, in a fixed order of stages:

- an initial weight from the paper's indegree and age;
- a conference pass and a journal pass;
- an author pass and an affiliation pass.

It then runs a weighted power iteration. The weights serve there both as edge
capacities and as the teleportation (regularisation) distribution. Dangling
mass is redistributed explicitly, and the loop stops once the L1 distance
between successive score vectors falls below a threshold.

The model is functional. `Paper` is an immutable datatype and the graph is a
`seq<Paper>`. Every C++ `double` is a Dafny `real`, so sums are exact and do
not depend on the order of addition. Every C++ `int` is an unbounded `int`.

Modules follow the structure of the source:

- `Vectors`: prefix sums, indexed sums, occurrence counts and the summation
  facts the conservation proofs rest on.
- `Papers`: the `Paper` record, the graph, its column projections, and what
  the engine silently relies on (`ValidGraph`).
- `CategoryCount`: the `get*Count` scans and `getCurrentYear`, written as one
  max-scan with an `isFirst` flag.
- `Aggregation`: `compute{Conference,Journal}Weights`, which aggregate a
  single-valued attribute, and `compute{Author,Affiliation}Weights`, which
  aggregate with split votes.
- `Synthesis`: `computeInitialPaperWeights` and `generatePaperWeightList`.
- `PowerIteration`: the precomputation in `runPaperPageRank`, one iteration
  step, and the iteration driver.

The conference and journal routines are the same code on different fields.
The model therefore has one `SingleValuedCount` and one `SingleValuedWeights`
for both. Likewise one `MultiValuedCount` and one `MultiValuedWeights` serve
authors and affiliations.

The stage order in the code is not the one a reader might expect, in which
each aggregate reads the weight accumulated so far (the journal aggregate
would then see the conference additions, and the affiliation aggregate the
author additions). The code does otherwise:

- Both venue aggregates are computed from the initial weights (lines 259 and
  263), before either venue addition (lines 265-283).
- Both member aggregates are computed from the post-venue weights (lines 287
  and 291), before either member addition (lines 293-319).

The model follows the code. `VenuePassesAreSymmetric` and
`MemberPassesAreSymmetric` prove a consequence of the code's order:
exchanging conferences with journals, or authors with affiliations, leaves
every composite weight unchanged. Under the accumulating order this would
generally fail, since the second aggregate of each pair would then depend on
which attribute went first.

## Model

| member | source | states |
|---|---|---|
| CategoryCount.Take | weighted_pagerank.cpp:40-43 | one comparison of the scan leaves it out of its first state with a best value that is at least the new value and at least the earlier best, and is one of the two; `ScanFrom` builds the whole scan from it |
| CategoryCount.ScanFrom | weighted_pagerank.cpp:30-46 | the `isFirst` max-scan ends on the largest value it did not skip, which is either one of those values or the earlier best, and it is still in its first state exactly when it started there and skipped every value |
| CategoryCount.ScanLists | weighted_pagerank.cpp:66-79 | the scan over every entry of every list bounds each entry and ends on one of them, or stays first when all lists are empty |
| CategoryCount.SingleValuedCount | weighted_pagerank.cpp:30-64 | the count is the largest non-negative id plus one, or 0 when no paper has an id; every id in use is below it, so the accumulator indexing is in bounds |
| CategoryCount.MultiValuedCount | weighted_pagerank.cpp:66-94 | the count exceeds every listed id, is 0 when every list is empty, is one more than some listed id otherwise, and is non-negative when no id is negative |
| CategoryCount.CurrentYear | weighted_pagerank.cpp:96-109 | the current year is one more than the latest publication year (1 for an empty graph), so every paper's age is at least 1 |
| Aggregation.SingleTally | weighted_pagerank.cpp:116-126 | after the accumulation pass each category's sum is the total weight of its members and its count the number of its members; papers with a negative id contribute nothing |
| Aggregation.SingleValuedWeights | weighted_pagerank.cpp:111-173 | each category's score is its average member weight, 0 for a category with no member, and the mean is the average of the scores of the non-empty categories only, or 0 when there are none |
| Aggregation.Finalize | weighted_pagerank.cpp:128-140 | the second pass: a category with members gets the score that times its member count gives back its sum, a category without members keeps its sum, and the mean is the mean over the non-empty categories (`IsNonEmptyMean`), bounded by `MeanWithinBounds`; lines 193-205 are the same pass for members |
| Aggregation.MeanWithinBounds | weighted_pagerank.cpp:128-140 | the fallback mean lies between the smallest and the largest average of a non-empty category |
| Aggregation.SingleValuedWeightsNonNegative | weighted_pagerank.cpp:111-173 | non-negative paper weights give non-negative category scores and a non-negative mean |
| Aggregation.CastVotes | weighted_pagerank.cpp:186-189 | one paper's inner loop keeps the accumulator sizes; what each member receives is pinned down by `CastVotesReceive` and the total by `CastVotesTotal` |
| Aggregation.CastVotesReceive | weighted_pagerank.cpp:185-189 | in one paper's inner loop each member gains the vote and one count per listing, and an unlisted member gains nothing |
| Aggregation.CastVotesTotal | weighted_pagerank.cpp:185-189 | the sums grow by one vote per listed member |
| Aggregation.MultiTally | weighted_pagerank.cpp:180-191 | the accumulation pass keeps one sum and one count per member; its contents are pinned down by `MultiTallyContents` and its total by `SplitVotesConserveWeight` |
| Aggregation.MultiTallyContents | weighted_pagerank.cpp:180-191 | after the accumulation pass each member's sum is the split votes cast for it and its count the number of times it was listed |
| Aggregation.SplitVotesConserveWeight | weighted_pagerank.cpp:182-191 | split votes conserve weight: the sums total exactly the weight of the papers that list at least one member, and a paper with no member hands out nothing |
| Aggregation.MultiValuedWeights | weighted_pagerank.cpp:175-239 | each member's score is its summed split votes divided by its number of listings, 0 for an id nobody lists, and the mean is over the listed members only |
| Aggregation.MultiValuedWeightsNonNegative | weighted_pagerank.cpp:175-239 | non-negative paper weights give non-negative member scores and a non-negative mean |
| Synthesis.AgeWeight | weighted_pagerank.cpp:248 | a cited paper's initial weight is strictly positive, at most its indegree, and times its age gives back its indegree |
| Synthesis.InitialPaperWeights | weighted_pagerank.cpp:241-250 | every initial weight is strictly positive |
| Synthesis.InitialWeightPerYear | weighted_pagerank.cpp:241-250 | a cited paper's age is at least 1 and its initial weight is its indegree per year of age; an uncited paper gets the small positive constant |
| Synthesis.VenueScore | weighted_pagerank.cpp:266-272 | a paper in a venue gains that venue's average, a paper without one gains the venue mean, and the gain is non-negative when the aggregate is; lines 276-280 are the same for journals |
| Synthesis.AddVenueScores | weighted_pagerank.cpp:265-283 | a venue pass adds to each paper its venue's score, or the venue mean when it has none, and lowers no weight when the scores are non-negative |
| Synthesis.MemberScore | weighted_pagerank.cpp:294-302 | a paper without members gets the category mean; a paper with members gets the score that times its number of listings gives back the total of its members' scores, a repeated member counted once per listing; non-negative category scores give a non-negative member score |
| Synthesis.MemberScoreWithinBounds | weighted_pagerank.cpp:296-302 | a paper's member score is a true average: it lies between any bounds on the scores of the members it lists |
| Synthesis.AddMemberScores | weighted_pagerank.cpp:293-319 | a member pass adds to each paper the average of its members' scores, or the mean when it lists none, and lowers no weight when the scores are non-negative |
| Synthesis.VenueStage | weighted_pagerank.cpp:257-283 | with both venue aggregates read from the initial weights, the venue stage lowers no weight |
| Synthesis.MemberStage | weighted_pagerank.cpp:285-319 | with both member aggregates read from the post-venue weights, the member stage lowers no weight |
| Synthesis.PaperWeights | weighted_pagerank.cpp:252-321 | the composite weight is never below the initial weight and so is strictly positive |
| Synthesis.VenuePassesCommute | weighted_pagerank.cpp:265-283 | the two venue additions can be made in either order |
| Synthesis.MemberPassesCommute | weighted_pagerank.cpp:293-319 | the two member additions can be made in either order |
| Synthesis.VenueStageIsSymmetric | weighted_pagerank.cpp:257-283 | exchanging the conference and journal columns leaves the venue stage's result unchanged |
| Synthesis.MemberStageIsSymmetric | weighted_pagerank.cpp:285-319 | exchanging the author and affiliation columns leaves the member stage's result unchanged |
| Synthesis.VenuePassesAreSymmetric | weighted_pagerank.cpp:252-321 | turning every conference into a journal and back leaves all composite weights unchanged |
| Synthesis.MemberPassesAreSymmetric | weighted_pagerank.cpp:252-321 | exchanging every paper's authors with its affiliations leaves all composite weights unchanged |
| Synthesis.SameAttributesSameWeight | weighted_pagerank.cpp:241-321 | two papers with the same year, indegree, venues, authors and affiliations get the same composite weight |
| PowerIteration.SuccessorWeightSums | weighted_pagerank.cpp:333-338 | each paper's successor-weight sum counts a repeated successor once per listing; with positive weights it is zero exactly when the paper has no successor |
| PowerIteration.Regularization | weighted_pagerank.cpp:340-349 | with a positive total weight the regularisation vector is each weight's share of the total and sums to 1; otherwise it is the weight vector unchanged |
| PowerIteration.Prepare | weighted_pagerank.cpp:330-349 | the precomputed weights are positive, a paper is dangling exactly when it has no successor, and on a non-empty graph the regularisation vector sums to 1 |
| PowerIteration.Scatter | weighted_pagerank.cpp:364-367 | one paper's vote loop keeps the score vector's size; what each paper receives is pinned down by `ScatterReceives` and the total by `ScatterTotal` |
| PowerIteration.ScatterReceives | weighted_pagerank.cpp:364-367 | scattering votes gives each paper its vote once per time it is listed |
| PowerIteration.ScatterTotal | weighted_pagerank.cpp:364-367 | a scatter hands out the votes of its targets, once per listing, and nothing else |
| PowerIteration.Votes | weighted_pagerank.cpp:357-369 | the vote pass yields one entry per paper; `VotesAreReceived` gives each entry from the receiving side and `VotesConserve` its total |
| PowerIteration.DanglingMass | weighted_pagerank.cpp:357-361 | the total last score of the dangling papers visited so far; bounded by `DanglingMassBounds`, and equal to the unvoted part of the total by `VotesConserve` |
| PowerIteration.DanglingMassBounds | weighted_pagerank.cpp:357-361 | with non-negative last scores the dangling mass is non-negative and at most the total of the scores visited so far; `VotesConserve` gives it exactly as the part of that total that is not voted |
| PowerIteration.VotesAreReceived | weighted_pagerank.cpp:357-369 | the votes a paper accumulates equal, from the receiving side, what each non-dangling citing paper owes it: that paper's share times the receiver's weight, once per citation |
| PowerIteration.OutgoingVotesAddUp | weighted_pagerank.cpp:358-368 | a non-dangling paper's outgoing votes add up to exactly its last score, repeated successors included |
| PowerIteration.VotesConserve | weighted_pagerank.cpp:357-369 | every last score ends up either in the votes or in the dangling mass, with nothing lost and nothing created |
| PowerIteration.Distance | weighted_pagerank.cpp:371-378 | the L1 difference is non-negative and zero exactly when the two score vectors are equal |
| PowerIteration.NewScore | weighted_pagerank.cpp:373-375 | a paper's new score from its regularisation entry, the dangling mass and its votes; non-negative by `NewScoreNonNegative`, linear in the regularisation entry and the votes by `ScoresAreLinear` |
| PowerIteration.NewScoreNonNegative | weighted_pagerank.cpp:373-375 | with a damping factor in [0, 1] and non-negative inputs the new score is non-negative |
| PowerIteration.ScoresAreLinear | weighted_pagerank.cpp:373-375 | each new score is the regularisation entry scaled by `(1 - d) + d` times the dangling mass, plus `d` times its votes |
| PowerIteration.NewScores | weighted_pagerank.cpp:371-376 | the score pass yields one score per paper; `NewScoresFromReceived` gives each from the receiving side and `StepConservesMass` their total |
| PowerIteration.NewScoresFromReceived | weighted_pagerank.cpp:371-376 | each new score combines the paper's regularisation entry, its part of the dangling mass, and what its citing papers owe it |
| PowerIteration.Step | weighted_pagerank.cpp:355-378 | one iteration returns the new scores and a difference that is zero exactly at a fixed point |
| PowerIteration.ScoresTotal | weighted_pagerank.cpp:371-376 | scores formed from a regularisation vector summing to 1, with a dangling mass and votes that together make up a total, sum to `1 - d` plus `d` times that total |
| PowerIteration.StepConservesMass | weighted_pagerank.cpp:357-378 | with a regularisation vector summing to 1, the new scores total `(1 - d) + d` times the previous total |
| PowerIteration.StepKeepsNonNegative | weighted_pagerank.cpp:357-378 | with a damping factor in [0, 1] and non-negative weights, regularisation vector and last scores, every new score is non-negative |
| PowerIteration.AllDanglingGivesRegularization | weighted_pagerank.cpp:357-378 | when every paper is dangling, a step from scores summing to 1 returns the regularisation vector |
| PowerIteration.NoCitationsStep | weighted_pagerank.cpp:357-378 | in a graph where no paper cites another, a step from unit mass returns the regularisation vector |
| PowerIteration.IsolatedPaperConvergesAtOnce | weighted_pagerank.cpp:323-386 | a lone paper citing nothing gets score 1 with difference 0 in the first iteration |
| PowerIteration.Uniform | weighted_pagerank.cpp:328 | the starting scores of a non-empty graph sum to 1 |
| PowerIteration.NotConvergedWithinEachStep | weighted_pagerank.cpp:352-386 | not having converged within `n` iterations means every one of the first `n` differences was at least the threshold |
| PowerIteration.RunSteps | weighted_pagerank.cpp:352-386 | the loop stops at the first iteration whose difference is below the threshold, or at the cap; its result is that iteration's step applied to the previous iterate, and no earlier iteration converged |
| PowerIteration.StepKeepsUnitMass | weighted_pagerank.cpp:371-378 | a step from scores summing to 1 gives scores summing to 1 |
| PowerIteration.IteratesSumToOne | weighted_pagerank.cpp:352-386 | every iterate from a start summing to 1 sums to 1 |
| PowerIteration.DriverStepsKeepUnitMass | weighted_pagerank.cpp:323-386 | on a non-empty graph every step the driver takes from the uniform start has scores summing to 1 and a non-negative difference |
| PowerIteration.RunPaperPageRank | weighted_pagerank.cpp:323-386 | the driver stops at the first converged iteration or at the cap, and on a non-empty graph its final scores sum to 1 |

## Left out

- File loading (`readGraphFile`, `readFeatureFile`, lines 430-555) is I/O. It includes hex parsing and name-to-index maps. The model takes the graph as a value.
- `printResults` (lines 404-427) is file output. Its min-max rescaling is not modelled.
- The `printf` progress logging and `main`'s argument handling are not modelled.
- IEEE-754 rounding is not modelled. Weights and scores are exact reals, so sums do not depend on the order of addition, and `fabs` is `Abs`.
- 32-bit `int` overflow is not modelled. This covers `latestYear + 1`, `currentYear - year` and the `max + 1` counts. Integers are unbounded.
- The small positive constant `1e-10` is `SmallPositiveValue`. Only its positivity is used.
- The `conferenceHindex` and `journalHindex` fields of `Paper` are never read by the engine and are left out. Of `predecessorList` only the length (the indegree) is read, so `predecessors` is a list whose contents play no part.
- `ValidGraph` states what the source relies on without checking it. Every successor id must be a valid paper index. No author or affiliation id may be negative; the multi-valued scans do not skip negative ids (lines 71-76) and the accumulators are indexed with them directly (lines 187-188, 220-221). The model requires this instead of modelling out-of-bounds access.
- The iteration loop (lines 352-386) has no cap in the source. It never ends when no difference falls below the threshold. `RunSteps` and `RunPaperPageRank` take a caller-supplied `maxIterations` and stop there as well. Their contracts say which of the two stopping reasons applied.
- RunPaperPageRank: damping factor and threshold are parameters. The source takes them in its constructor (lines 391-395). The engine's mutable `paperScoreList` member is the returned score vector. `run` (lines 397-402) resets that vector and then calls the iteration, so it adds nothing.
- StepWith: a score vector whose length differs from the graph's is returned unchanged with difference 0. The driver never produces such a vector. The function only needs this branch to be total.
- RunPaperPageRank: the unit-mass guarantee is stated for non-empty graphs. For an empty graph the source's `1.0 / paperCount` is a division by zero that only fills an empty vector. The model's `Uniform(0)` is empty too.
- IsolatedPaperConvergesAtOnce: the lemma is stated for any balanced setup (`Balanced`) rather than for `Prepare(g)` directly. `Prepare`'s own contract makes its result balanced on every non-empty valid graph.
