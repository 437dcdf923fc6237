# Adjacency-constrained multi-instance RANSAC, modelled in Dafny

This project models the pose-extraction core of the textured-object detector
(`tod::GuessGenerator` and `tod::AdjacencyRansac`). The detector holds 2D–3D
correspondences for each candidate object and builds two adjacency relations over them:

- a *physical* relation: the two points could lie on one rigid instance;
- a *sample* relation: a sub-relation, for pairs that are also well spread in the image.

RANSAC samples are cliques of the sample relation. Inliers must be physically adjacent
to the sample. After RANSAC, the inlier set is grown by refitting: pass after pass until
one admits nothing, then exactly one more pass at a looser threshold. Poses are then
extracted one instance at a time. Each accepted pose removes from play every
correspondence that shares a keypoint with its inliers.

The model has six modules, one file each:

| file | module | what it holds |
|---|---|---|
| `sorted_seq.dfy` | `SortedSeq` | strictly increasing index lists, and the standard algorithms the source applies to them (`std::sort`+`std::unique`, `std::set_difference`, `std::set_intersection`, `std::merge`, `std::remove`) as functions with lemmas |
| `adjacency.dfy` | `Adjacency` | `maximum_clique::AdjacencyMatrix` as a value: a symmetric, irreflexive set of pairs, with `test`, `set_sorted`, `neighbors` and `InvalidateCluster` |
| `geometry.dfy` | `Geometry` | points whose coordinates may be NaN; the 16-entry row-major coefficient layout of a rigid transform; the residual a growth pass tests |
| `registration_graph.dfy` | `RegistrationGraph` | the class `SampleConsensusModelRegistrationGraph`: sample pool, backtracking clique sampler, distance override, inlier filter with its best-so-far counter |
| `object_points.dfy` | `ObjectPoints` | the class `AdjacencyRansac` (parallel lists, positions in play, the two relations) with its operations and `Ransac`; `ClusterPerObject` |
| `guess_generator.dfy` | `GuessGenerator` | the class `GuessGenerator` with `pose_results`; the per-object extraction loop, the coefficient-to-pose conversion, and `process` |

### Foreign code as parameters

Foreign computations enter as parameters:

- `sqrt: real -> real` for `std::sqrt`.
- `RigidFit` for the closed-form SVD fit.
- `CliqueFinder` for `maximum_clique::Graph::FindClique`.
- The outcome of `pcl::RandomSampleConsensus`, as a `Consensus` value (`NoModel` or `Found(inliers)`).
  - It is constrained only by `SoundConsensus`: the reported inliers are positions in play, each once.
  - In `process` it is a function of the object key, the round and the positions in play.
- The random pick of `drawIndexSampleHelper`, as a nondeterministic choice (`:|`) from the pool.

Floats are reals, with NaN modelled explicitly where the source tests for it.

### Behaviour worth noting

- Inlier filter membership: an inlier is checked only against the sample members before
  its own occurrence in the sample, because the loop `break`s there
  (`src/common/sac_model_registration_graph.h:183-191`). The model follows this in
  `Admitted`. So "adjacent to every sample member" holds only for
  indices outside the sample (`AdmittedOutsideSample`).
- Sample-pool threshold: the pool admits indices with *at least* three sample
  neighbours (`size >= 3`, line 300), not more than three.
- Extraction loop guard: the loop is `while (true)` with no test for an empty valid set
  (`src/detection/GuessGenerator.cpp:182`). It stops only through the inlier-count guard.
- Empty correspondence set: it is not rejected up front. An object is only created for a
  non-empty list, and an empty valid set simply yields a rejected round.
- Returned coefficients: `Ransac` returns the coefficients of the last refit. That refit
  was made on the inliers *before* the last pass merged in its admissions.
- Stored pose: the pose stores only R, T and the object id, not the inlier list.
- Collection order: `ClusterPerObject` appends directly into the objects of a map keyed
  by image index. The model gathers each object's correspondences first, then builds
  each object from its list in the same order, which gives the same objects.

### How the loops are specified

The growth loop and the extraction loop are specified by ghost records of what they did:

- A `Pass` is one growth pass: its threshold, the inliers it refits to, the pool it tests, the coefficients of the refit, and the positions it admits. `PassRan` says that the coefficients are the fit of the inliers and that the admitted positions are exactly the pool positions the fit brings within the threshold. `After` says what a pass leaves: the inliers with the admitted positions merged in, and the pool without them. `Chain` links the passes; `Finished` fixes their thresholds and admissions.
- A `Run` is one call of `Ransac`. `RansacOutcome` ties it to the consensus outcome: no model gives empty coefficients and inliers; otherwise the passes form a finished chain from the sorted consensus inliers and the other positions in play, and the returned coefficients and inliers are those of the last pass.
- A `Round` is one accepted extraction round: a `Run` the acceptance test accepts, after which the positions carrying a keypoint of an inlier leave play. `Rounds` chains them, each on what the previous one left. `Extracts` adds the final, rejected run. `ExtractedFrom` starts it from every correspondence of an object's bucket.
- `Explained` states, for every visited object in turn, its extraction and its poses: the poses of the fits of its accepted rounds, in order, labelled with its id.

## Model

| member | source | states |
|---|---|---|
| `SortedSeq.SortUnique` | src/common/adjacency_ransac.cpp:81-82 | sort + unique + resize gives a strictly increasing list with exactly the argument's elements |
| `SortedSeq.Drop` | src/common/adjacency_ransac.cpp:84-87 | set_difference over a sorted list keeps exactly the elements not in the removed set, never lengthening the list |
| `SortedSeq.Keep` | src/common/sac_model_registration_graph.h:305-308 | set_intersection keeps exactly the elements that are in the other set, never lengthening the list |
| `SortedSeq.Merge` | src/common/adjacency_ransac.cpp:316-318 | std::merge's output is a permutation of the two inputs together (multiset union) |
| `SortedSeq.MergeIncreasing` | src/common/adjacency_ransac.cpp:316-318 | merging disjoint ascending lists gives an ascending list holding exactly both, of the summed length |
| `SortedSeq.KeepIncreasing` | src/common/sac_model_registration_graph.h:105-110 | intersecting keeps a pool strictly increasing |
| `SortedSeq.DropIncreasing` | src/common/adjacency_ransac.cpp:84-87 | set_difference keeps the valid indices strictly increasing |
| `SortedSeq.KeepIsSubsequence` | src/common/sac_model_registration_graph.h:180-195 | the filtered list is an order-preserving subsequence of its input |
| `SortedSeq.DropIsSubsequence` | src/common/adjacency_ransac.cpp:84-87 | the valid indices after invalidation keep their original order |
| `SortedSeq.DropIdempotent` | src/common/adjacency_ransac.cpp:84-87 | invalidating the same set again leaves the valid indices unchanged |
| `SortedSeq.DropShrinks` | src/common/sac_model_registration_graph.h:121-122 | removing a present candidate strictly shortens the pool |
| `SortedSeq.DropNothing` | src/common/adjacency_ransac.cpp:84-87 | removing no present element leaves the list as it was |
| `SortedSeq.IncreasingUnique` | src/common/adjacency_ransac.cpp:276-282 | an ascending duplicate-free list is determined by its elements |
| `SortedSeq.SortUniqueLength` | src/common/adjacency_ransac.cpp:276 | sorting a duplicate-free inlier list loses nothing |
| `Adjacency.AdjacencyMatrix.Neighbors` | src/common/sac_model_registration_graph.h:106-109 | neighbors(a) holds exactly the indices related to a |
| `Adjacency.AdjacencyMatrix.SetSorted` | src/common/adjacency_ransac.cpp:166 | set_sorted(a, b) adds exactly the edge in both directions and keeps the relation symmetric and irreflexive |
| `Adjacency.AdjacencyMatrix.InvalidateCluster` | src/common/adjacency_ransac.cpp:90-91 | exactly the edges touching an invalidated index disappear; the relation stays valid |
| `Adjacency.Unconnected` | src/common/adjacency_ransac.cpp:136-137 | AdjacencyMatrix(n) has n vertices and no edge |
| `Adjacency.Cleared` | src/common/adjacency_ransac.cpp:59-60 | clear() leaves no vertex and no edge |
| `Adjacency.InvalidateKeepsSubRelation` | src/common/adjacency_ransac.cpp:90-91 | invalidating both relations by the same indices keeps sample inside physical |
| `Adjacency.InvalidateIdempotent` | src/common/adjacency_ransac.cpp:90-91 | invalidating a cluster twice is the same as once |
| `Adjacency.InvalidateCompose` | src/detection/GuessGenerator.cpp:182-228 | invalidating one set of indices and then another, as successive rounds do, is invalidating their union |
| `Adjacency.InvalidatedIsolated` | src/common/adjacency_ransac.cpp:89-91 | an invalidated index has no neighbour left |
| `Adjacency.CliqueWithout` | src/common/sac_model_registration_graph.h:104-110 | the rest of a clique through a pick is a smaller clique among the pick's neighbours |
| `Geometry.ToPoint` | src/common/adjacency_ransac.cpp:196 | a point with no NaN coordinate has numeric coordinates |
| `Geometry.Sub` | src/common/adjacency_ransac.cpp:162 | a difference is NaN exactly when an operand is |
| `Geometry.Abs` | src/common/adjacency_ransac.cpp:162 | std::abs is NaN exactly when its argument is, otherwise non-negative and equal to it up to sign |
| `Geometry.Sqrt` | src/common/adjacency_ransac.cpp:157 | the square root is NaN exactly when its argument is |
| `Geometry.SquaredDistanceF` | src/common/adjacency_ransac.cpp:152 | the squared distance is NaN exactly when a point carries NaN; otherwise it is a non-negative number, the squared Euclidean distance of the points |
| `Geometry.Coefficients` | src/common/sac_model_registration_graph.h:278-289 | 16 entries: rotation row r at 4r..4r+2, translation at 4r+3, last row 0 0 0 1 |
| `Geometry.RotationOf` | src/detection/GuessGenerator.cpp:205-208 | the 3x3 block read from c[4j+i] |
| `Geometry.TranslationOf` | src/detection/GuessGenerator.cpp:209 | the translation read from c[4j+3] |
| `Geometry.LayoutIsCoefficients` | src/common/sac_model_registration_graph.h:278-289 | a 16-vector whose last row is 0 0 0 1 is exactly the layout of the transform it holds |
| `Geometry.Transpose` | src/detection/GuessGenerator.cpp:211 | entry (i, j) of the transpose is entry (j, i) |
| `Geometry.Col` | src/detection/GuessGenerator.cpp:212 | column j of a matrix |
| `Geometry.SquaredResidualF` | src/common/adjacency_ransac.cpp:306-310 | the growth residual is NaN exactly when a point carries NaN; otherwise it is the numeric residual of the NaN-free points |
| `Geometry.ResidualOfRigid` | src/common/adjacency_ransac.cpp:297-310 | for a rigid layout the residual is the squared distance from the moved source point to its target |
| `Geometry.ResidualOfRigidF` | src/common/adjacency_ransac.cpp:297-310 | for a rigid layout and points that may carry NaN, the residual is NaN exactly when a point does, and otherwise the squared distance from the moved source point to its target |
| `RegistrationGraph.InducedGraph` | src/common/sac_model_registration_graph.h:201-205 | the graph on list positions relates exactly the positions whose entries are sample-adjacent |
| `RegistrationGraph.CliqueThroughPick` | src/common/sac_model_registration_graph.h:104-125 | a clique through the pick lives in the narrowed pool, so a failed recursion rules out the pick |
| `RegistrationGraph.EmptyPoolNoClique` | src/common/sac_model_registration_graph.h:100-101 | an empty pool holds no clique of positive size |
| `RegistrationGraph.SampleConsensusModelRegistrationGraph.constructor` | src/common/sac_model_registration_graph.h:79-93 | stores the cloud, indices, threshold and both relations, zeroes the best count, and builds the pool |
| `RegistrationGraph.SampleConsensusModelRegistrationGraph.BuildNeighbors` | src/common/sac_model_registration_graph.h:292-310 | the pool is the ascending list of indices with at least three sample neighbours, intersected with the indices when given |
| `RegistrationGraph.SampleConsensusModelRegistrationGraph.DrawIndexSampleHelper` | src/common/sac_model_registration_graph.h:95-128 | succeeds exactly when a clique of the requested size exists in the pool; zero samples succeed unchanged; a success returns that many distinct pairwise-adjacent pool members, and a narrowed pool adjacent to all of them; a failure empties the pool |
| `RegistrationGraph.SampleConsensusModelRegistrationGraph.Picked` | src/common/sac_model_registration_graph.h:112-117 | the recursion's sample plus the pick is a clique of the full size drawn from the pool |
| `RegistrationGraph.SampleConsensusModelRegistrationGraph.IsSampleGood` | src/common/sac_model_registration_graph.h:130-142 | draws from a copy of the pool; succeeds exactly when a clique of the incoming size exists; on success samples_ is that clique and the caller's sample is overwritten with it (the const_cast write); on failure both are left as they were |
| `RegistrationGraph.SampleConsensusModelRegistrationGraph.GetDistancesToModel` | src/common/sac_model_registration_graph.h:144-163 | an index not physically adjacent to some other sample member gets the largest double; every other distance is the base one |
| `RegistrationGraph.SampleConsensusModelRegistrationGraph.AdmittedOf` | src/common/sac_model_registration_graph.h:180-195 | the admitted indices among the threshold inliers |
| `RegistrationGraph.SampleConsensusModelRegistrationGraph.Filtered` | src/common/sac_model_registration_graph.h:180-195 | the kept inliers are an order-preserving subsequence holding exactly the admitted ones |
| `RegistrationGraph.SampleConsensusModelRegistrationGraph.AdmittedOutsideSample` | src/common/sac_model_registration_graph.h:180-195 | a kept index outside the sample is physically adjacent to every sample member |
| `RegistrationGraph.SampleConsensusModelRegistrationGraph.AdjacentToSample` | src/common/sac_model_registration_graph.h:182-192 | the per-inlier walk accepts exactly the admitted indices |
| `RegistrationGraph.SampleConsensusModelRegistrationGraph.BuildInducedGraph` | src/common/sac_model_registration_graph.h:201-205 | the nested loops build exactly the induced graph |
| `RegistrationGraph.SampleConsensusModelRegistrationGraph.ContainsSample` | src/common/sac_model_registration_graph.h:175-177 | true exactly when every sample member is among the threshold inliers |
| `RegistrationGraph.SampleConsensusModelRegistrationGraph.FilterAdjacent` | src/common/sac_model_registration_graph.h:180-195 | the loop yields the filtered list |
| `RegistrationGraph.SampleConsensusModelRegistrationGraph.SelectWithinDistance` | src/common/sac_model_registration_graph.h:166-218 | empty when a sample member is missing; the filtered list when below the best count; cleared unless the clique finder returns at least 8; the best count rises to the kept size and never decreases |
| `RegistrationGraph.SampleConsensusModelRegistrationGraph.OptimizeModelCoefficients` | src/common/sac_model_registration_graph.h:220-225 | 16 coefficients holding the fitted rotation and translation, last row 0 0 0 1 |
| `ObjectPoints.NaNTrainingPointPasses` | src/common/adjacency_ransac.cpp:160-163 | a NaN training distance passes the physical test but never the sample test, whatever the two keypoints are |
| `ObjectPoints.Range` | src/common/adjacency_ransac.cpp:69 | the positions 0..n-1 in order |
| `ObjectPoints.PairEdges` | src/common/adjacency_ransac.cpp:152-176 | the pair tests give the physical edge exactly when PhysicalPair holds and the sample edge exactly when SamplePair holds |
| `ObjectPoints.SortedIdsAscend` | src/common/adjacency_ransac.cpp:109-117 | ascending positions into a sorted id list meet ascending ids |
| `ObjectPoints.NotAmongTargets` | src/common/adjacency_ransac.cpp:112-113 | an id below the current target and above the earlier ones is not a target |
| `ObjectPoints.MatchQueryIds` | src/common/adjacency_ransac.cpp:106-125 | every position returned carries a target id; with ascending ids every such position is returned |
| `ObjectPoints.Carrying` | src/common/adjacency_ransac.cpp:109-121 | exactly the positions in play whose keypoint is one of the given ones |
| `ObjectPoints.WithinOf` | src/common/adjacency_ransac.cpp:304-312 | exactly the pool positions whose residual under the coefficients is below the threshold |
| `ObjectPoints.WithinRigid` | src/common/adjacency_ransac.cpp:297-310 | for a rigid fit, a position passes the growth test exactly when neither point carries NaN and the moved query point lies within the threshold (squared) of the training point |
| `ObjectPoints.ChainExtend` | src/common/adjacency_ransac.cpp:288-332 | a pass run on what the last pass left (on the start, for the first) extends the chain of passes |
| `ObjectPoints.ChainRan` | src/common/adjacency_ransac.cpp:290-312 | every pass of a chain refit to its inliers and admitted exactly the pool positions within its threshold |
| `ObjectPoints.ChainLinked` | src/common/adjacency_ransac.cpp:314-322 | the first pass starts from the start inliers and pool, and each next pass from what the pass before it left |
| `ObjectPoints.GrowingAt` | src/common/adjacency_ransac.cpp:284-330 | part way through the loop, every pass is at e², each admitted something, except the last one when the final pass is due, which admitted nothing |
| `ObjectPoints.FinishedAt` | src/common/adjacency_ransac.cpp:284-332 | a finished loop has at least two passes, all at e² except the last at 4e²; the one before the last admitted nothing, every earlier one admitted something |
| `ObjectPoints.GrowingStep` | src/common/adjacency_ransac.cpp:324-330 | a pass at e² keeps the loop growing, and a pass that admits nothing makes the final pass due; the final pass at 4e² finishes the loop |
| `ObjectPoints.ProgressStep` | src/common/adjacency_ransac.cpp:288-332 | a pass run on the current inliers and pool keeps the loop's chain and thresholds in step; after the final pass the loop is finished |
| `ObjectPoints.PassLeaves` | src/common/adjacency_ransac.cpp:314-322 | whatever pool positions a pass admits, the merge holds the old inliers plus exactly those, ascending; the pool loses exactly those and shrinks exactly when any are admitted |
| `ObjectPoints.ChainSplits` | src/common/adjacency_ransac.cpp:276-322 | passes started from a split of the positions in play keep splitting them between inliers and pool; the start inliers are among those of the last refit, which are among the final inliers |
| `ObjectPoints.OutcomeSplits` | src/common/adjacency_ransac.cpp:241-337 | a model's outcome splits the positions in play between the inliers and the rest; the consensus inliers are refit on and kept; no position left out passes the last test at 4e² |
| `ObjectPoints.AdjacencyRansac.Entries` | src/common/adjacency_ransac.h:136-138 | the parallel lists read as correspondences, position by position |
| `ObjectPoints.AdjacencyRansac.constructor` | src/common/adjacency_ransac.h:52-56 | empty clouds, no ids, no valid positions, no edges |
| `ObjectPoints.AdjacencyRansac.ClearAdjacency` | src/common/adjacency_ransac.cpp:56-61 | both relations cleared, nothing else changed |
| `ObjectPoints.AdjacencyRansac.AddPoints` | src/common/adjacency_ransac.cpp:66-74 | one entry appended to each list, the old size appended to the valid positions, which stay strictly increasing |
| `ObjectPoints.AdjacencyRansac.NPoints` | src/common/adjacency_ransac.h:73-77 | n_points() is the length of each parallel list |
| `ObjectPoints.AdjacencyRansac.QueryIndex` | src/common/adjacency_ransac.h:85-89 | query_indices(i) is the id stored at position i |
| `ObjectPoints.AdjacencyRansac.CopyValidIndices` | src/common/adjacency_ransac.h:91-99 | the copy has the same elements in the same order |
| `ObjectPoints.AdjacencyRansac.FillAdjacency` | src/common/adjacency_ransac.cpp:132-179 | both relations rebuilt from scratch over the pairs i < j: physical exactly PhysicalPair, sample exactly SamplePair, sample inside physical |
| `ObjectPoints.AdjacencyRansac.InvalidateIndices` | src/common/adjacency_ransac.cpp:79-92 | the argument sorted and deduplicated; valid positions minus it in order; its edges cut from both relations |
| `ObjectPoints.AdjacencyRansac.InvalidateQueryIndices` | src/common/adjacency_ransac.cpp:97-127 | an empty list changes nothing; the positions removed are taken out of play and their edges cut from both relations; only positions in play carrying a listed id are removed, and with sorted ids all of them are |
| `ObjectPoints.AdjacencyRansac.CollectWithin` | src/common/adjacency_ransac.cpp:303-312 | the pool positions that pass the growth test, in pool order |
| `ObjectPoints.AdjacencyRansac.GrowthPass` | src/common/adjacency_ransac.cpp:290-322 | the coefficients are the fit of the inliers; the admitted positions are exactly the pool positions within the threshold; the grown inliers are the old plus those, ascending, and the pool loses them; the pool strictly shrinks exactly when something is admitted |
| `ObjectPoints.AdjacencyRansac.GrowthLoop` | src/common/adjacency_ransac.cpp:284-332 | the passes chain from the start inliers and pool, at e² until one admits nothing and then exactly one at 4e²; the coefficients are the last pass's refit, 16 of them, and the inliers, ascending, and the rest are what it left |
| `ObjectPoints.AdjacencyRansac.Ransac` | src/common/adjacency_ransac.cpp:241-337 | no model: empty coefficients and inliers; with a model: the growth passes chain from the sorted consensus inliers and the other positions in play, each admitting exactly the positions its refit brings within e² (4e² for the last), and the result is the last pass's refit (16 coefficients) and merge; the inliers and the rest split the positions in play, every consensus inlier is kept, and no left-out position passes the 4e² test |
| `ObjectPoints.MatchesOfExactly` | src/common/adjacency_ransac.cpp:203-210 | the correspondences one keypoint adds to an object are exactly its matches into that object |
| `ObjectPoints.AddMatchesAppends` | src/common/adjacency_ransac.cpp:199-210 | adding the matches of one keypoint gives a key to every object it matches into, appending to each exactly its share of the matches |
| `ObjectPoints.BucketExactly` | src/common/adjacency_ransac.cpp:188-210 | an object's correspondences are exactly the matches into it of keypoints without NaN, in ascending keypoint order |
| `ObjectPoints.CorrespondencesAt` | src/common/adjacency_ransac.h:136-138 | the parallel lists read position by position |
| `ObjectPoints.CollectedValid` | src/common/adjacency_ransac.cpp:66-74 | an object as collected is consistent and holds the collected entries |
| `ObjectPoints.Build` | src/common/adjacency_ransac.cpp:209 | a fresh object holding the list, added one AddPoints call at a time |
| `ObjectPoints.GatherMatches` | src/common/adjacency_ransac.cpp:199-210 | one keypoint's matches appended to the lists of the objects they point into |
| `ObjectPoints.GatheredBuckets` | src/common/adjacency_ransac.cpp:188-210 | the gathered map has a key exactly for each object with a non-empty bucket, holding that bucket |
| `ObjectPoints.GatherAll` | src/common/adjacency_ransac.cpp:188-211 | the keys are exactly the objects with a correspondence, each list its bucket |
| `ObjectPoints.BuildAll` | src/common/adjacency_ransac.cpp:209 | one distinct fresh object per key holding its list |
| `ObjectPoints.ClusterPerObject` | src/common/adjacency_ransac.cpp:184-212 | an object exactly for each key with a match from a keypoint without NaN; distinct fresh objects, each valid, holding its bucket, ids non-decreasing |
| `GuessGenerator.PoseOf` | src/detection/GuessGenerator.cpp:204-218 | R is the transposed rotation block, T = -R t, the id is the object's |
| `GuessGenerator.PoseUndoesFit` | src/detection/GuessGenerator.cpp:204-212 | for an orthonormal rotation the pose inverts the fit: a query point moved by the fit and then the pose returns |
| `GuessGenerator.AsWrittenAcceptsEmpty` | src/detection/GuessGenerator.cpp:193-197 | with min_inliers 0 the guard as written accepts an empty result and invalidating nothing changes nothing; the corrected guard agrees for every positive min_inliers |
| `GuessGenerator.TakenExtend` | src/detection/GuessGenerator.cpp:193-228 | an accepted round whose inliers were in play and then left it keeps the rounds accepted, drawn from the start, and disjoint |
| `GuessGenerator.KeypointsAt` | src/detection/GuessGenerator.cpp:224-226 | exactly the keypoints that the given positions came from |
| `GuessGenerator.GoneExtend` | src/detection/GuessGenerator.cpp:223-228 | taking positions in play out of play adds exactly them to the positions gone since the first round |
| `GuessGenerator.PoseFromCoefficients` | src/detection/GuessGenerator.cpp:204-212 | the nested loops give exactly the pose of the coefficients |
| `GuessGenerator.RoundsExtend` | src/detection/GuessGenerator.cpp:182-229 | one more accepted round on what the rounds so far left extends the rounds |
| `GuessGenerator.RoundsLast` | src/detection/GuessGenerator.cpp:182-229 | the rounds are the earlier rounds followed by the last accepted one |
| `GuessGenerator.RoundsAt` | src/detection/GuessGenerator.cpp:182-229 | round r ran RANSAC on the positions in play at round r, was accepted, and left the positions in play at round r+1 |
| `GuessGenerator.ReadyInputs` | src/detection/GuessGenerator.cpp:162-179 | an object as clustered has a key naming an object id, keypoints with image positions, and lists that are the columns of its bucket |
| `GuessGenerator.ExplainedExtend` | src/detection/GuessGenerator.cpp:158-233 | one more object, with its extraction from its bucket and the poses of its accepted fits, extends the per-object account |
| `GuessGenerator.ExplainedAt` | src/detection/GuessGenerator.cpp:158-233 | for the i-th visited object: its key names an id, its extraction started from its whole bucket, and its poses are those of its accepted fits, in order |
| `GuessGenerator.ResultsExtend` | src/detection/GuessGenerator.cpp:158-233 | appending one more object's poses keeps the results the concatenation of the per-object poses |
| `GuessGenerator.GuessGenerator.constructor` | src/detection/GuessGenerator.cpp:74-80 | the parameters stored, no pose yet |
| `GuessGenerator.GuessGenerator.Defaults` | src/detection/GuessGenerator.cpp:76-79 | the declared defaults: 15 inliers, 1000 iterations, a sensor error of 0.01; no pose yet |
| `GuessGenerator.GuessGenerator.QueryIdsOf` | src/detection/GuessGenerator.cpp:224-226 | query_indices(inlier) for each inlier, in order |
| `GuessGenerator.GuessGenerator.TakePose` | src/detection/GuessGenerator.cpp:203-228 | the pose of the fit appended; exactly the valid positions sharing a keypoint with an inlier removed, the inliers among them; their edges cut from both relations; the valid set strictly shrinks |
| `GuessGenerator.GuessGenerator.Attempt` | src/detection/GuessGenerator.cpp:185-188 | the result is the run Ransac makes on the positions in play for the consensus outcome; an accepted result has 16 coefficients and ascending valid inliers |
| `GuessGenerator.GuessGenerator.AcceptRound` | src/detection/GuessGenerator.cpp:193-228 | an accepted round extends the rounds by its run and the positions it leaves in play; its pose is appended; the relations are the initial ones cut at every position gone; play strictly shrinks |
| `GuessGenerator.GuessGenerator.ExtractPoses` | src/detection/GuessGenerator.cpp:182-229 | the loop terminates; its rounds are RANSAC runs, each accepted and on what the previous one left, followed by one rejected run; one pose per accepted fit appended in order; the relations are cut at exactly the positions gone |
| `GuessGenerator.GuessGenerator.ExtractObject` | src/detection/GuessGenerator.cpp:179-232 | fill once, extract, clear once: both relations cleared at the end, and the extraction's rounds and poses |
| `GuessGenerator.GuessGenerator.DetectObject` | src/detection/GuessGenerator.cpp:161-233 | the object key indexes the ids; the extraction started from every correspondence of the object's bucket; the poses appended are those of its accepted fits, each with its id |
| `GuessGenerator.GuessGenerator.Process` | src/detection/GuessGenerator.cpp:124-266 | results cleared; none for an empty cloud; otherwise exactly the objects with a correspondence are visited, in ascending key order, and the results are their poses in turn, each the pose of an accepted fit of that object's extraction from its bucket, with its id |
| `GuessGenerator.GuessGenerator.DetectAll` | src/detection/GuessGenerator.cpp:158-233 | every object visited once, in ascending key order; the results gain each object's poses in turn, each the pose of an accepted fit of its extraction from its bucket |
| `GuessGenerator.GuessGenerator.VisitNext` | src/detection/GuessGenerator.cpp:158-164 | the least pending key is visited next; its poses, those of its extraction's accepted fits, are appended and the account extended; the other objects stay ready |
| `GuessGenerator.VisitedExtend` | src/detection/GuessGenerator.cpp:158-160 | visiting the least pending key keeps the visit order ascending |
| `GuessGenerator.PosesOf` | src/detection/GuessGenerator.cpp:215-219 | one pose per fit, in order, the pose of that fit's coefficients |
| `GuessGenerator.PosedExtend` | src/detection/GuessGenerator.cpp:215-219 | pushing the pose of one more fit keeps the results those of the fits so far |

## Left out

- Visualisation is not modelled: `DrawClustersPerObject`, every `visualize_` branch, highgui calls and `matching_query_points`. They are display only.
- The console output (`std::cout`) is not modelled, including the sorted-unique keypoint count printed before filling. Callgrind instrumentation is left out as well.
- The numerics of `estimateRigidTransformationSVD` (centroids, SVD, determinant sign flip) are not modelled. The fit is the parameter `RigidFit`, and only the 16-entry layout it is written in is modelled.
- `pcl::RandomSampleConsensus::computeModel` and `getInliers` are not modelled; they are foreign code. Their outcome is a `Consensus` parameter. So `Ransac`'s `nIterations` is passed but influences nothing in the model.
- The base-class `getDistancesToModel` / `selectWithinDistance` of `pcl::SampleConsensusModelRegistration` are foreign. Their results are inputs (`base`, `possible`).
- `maximum_clique::Graph::FindClique` is treated as the oracle `CliqueFinder`; only the size of its result is used, as in the source. The adjacency header is not part of this model, so the relation is modelled by its meaning, a symmetric set of pairs.
- `rand()` in the sampler is a nondeterministic choice from the pool.
- Floating-point rounding is not modelled. Coordinates are reals, and NaN is modelled only where it changes a branch.
- The `max_neighbors_size` bookkeeping in `BuildNeighbors` is not modelled; its value is never used.
- The graph-based constructor of `SampleConsensusModelRegistrationGraph` (lines 63-73) is not modelled; nothing in the core calls it.
- The `threshold_` field is stored but, as in the source, not read.
- `InvalidateIndices` and `InvalidateQueryIndices` sort their argument in place. The model returns the sorted list instead.
- `AdjacencyRansac`'s point clouds are shared pointers. The model holds them as values, so aliasing between the model and RANSAC's copy is not modelled.
- The fields `object_id_`, `object_index_` and `graph_` of `AdjacencyRansac` are not modelled; the core never uses them.
- The empty-point-cloud branch of `process` (a TODO in the source) is modelled as producing nothing.
- The point cloud lookup `point_cloud.at(y, x)` is the function parameter `pointCloud` from a keypoint to its 3D point.
- In `InvalidateQueryIndices`, the walk reads `*iter` when `iter` has reached the end (lines 112 and 117). The model guards those reads, and stops the walk once every target is passed.
- ecto tendrils, `ObjectDb` and `set_object_id`'s database lookup are not modelled. A pose carries the object id string directly.
- GuessGenerator.GuessGenerator.Process: requires every object id to have a span, every match's image index to name an id, at least as many keypoints and 3D match lists as match lists, and for each keypoint at least as many 3D points as matches. The source dereferences `spans.find(...)` and indexes `object_ids_in` (GuessGenerator.cpp:164, 179), `keypoints`, `matches_3d` and its rows (adjacency_ransac.cpp:188-205) unchecked, so these are preconditions rather than modelled error paths.
- GuessGenerator.GuessGenerator.ExtractPoses: uses the corrected acceptance test `Accepts` (see Findings), not the guard as written.

## Findings

| source | as written | input that shows it | evidently intended | confidence | as-written member | corrected member |
|---|---|---|---|---|---|---|
| src/detection/GuessGenerator.cpp:193-197 | a round is rejected only when `inliers.size() < min_inliers` | `min_inliers = 0` and a failed consensus: `inliers` is empty and is accepted. The empty coefficient vector is then read at `4j+i`, and `InvalidateQueryIndices` of an empty list changes nothing. So the `while (true)` repeats the same round forever | also stop on an empty inlier list, so every accepted round removes at least one position and the loop ends | not executed | `GuessGenerator.AcceptsAsWritten`, `GuessGenerator.AsWrittenAcceptsEmpty` | `GuessGenerator.Accepts`, used by `GuessGenerator.GuessGenerator.ExtractPoses` |
