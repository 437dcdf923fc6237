/**
  The correspondences found for one object (tod::AdjacencyRansac): parallel lists of
  query points, training points and the keypoint each query point came from, the
  ascending list of positions still in play, and the two adjacency relations between
  positions.  Also the RANSAC run over the positions still in play, and the grouping of
  the matches of one frame per object (ClusterPerObject).
 */
module ObjectPoints {
  import opened SortedSeq
  import opened Adjacency
  import opened Geometry
  import opened RegistrationGraph

  /** What the consensus step (pcl::RandomSampleConsensus) reports: no model, or the
      inliers of the best model. */
  datatype Consensus = NoModel | Found(inliers: seq<nat>)

  /** The consensus step only reports positions it was given, each once. */
  predicate SoundConsensus(found: Consensus, valid: seq<nat>) {
    found.Found? ==> NoDuplicates(found.inliers) && forall x :: x in found.inliers ==> x in valid
  }

  /** One pass of the growth loop: its threshold, the inliers it refits to, the positions
      it tests, the coefficients of the refit, and the positions it admits. */
  datatype Pass = Pass(threshold: real, fittedOn: seq<nat>, pool: seq<nat>, coefficients: seq<real>,
                       admitted: set<nat>)

  /** One call of Ransac: the coefficients and inliers it returns, the positions in play
      it leaves out, the inliers of its last refit, and its growth passes. */
  datatype Run = Run(coefficients: seq<real>, inliers: seq<nat>, remaining: seq<nat>, fittedOn: seq<nat>,
                     passes: seq<Pass>)

  /** Position i passes the growth test: its query point, moved by the coefficients,
      lands closer than `thresh` (squared) to its training point. */
  predicate Within(q: seq<Point3F>, t: seq<Point3F>, c: seq<real>, i: nat, thresh: real)
    requires |c| == 16
  {
    i < |q| && i < |t| && Less(SquaredResidualF(c, q[i], t[i]), thresh)
  }

  /** The positions of `pool` that pass the growth test. */
  function WithinOf(q: seq<Point3F>, t: seq<Point3F>, c: seq<real>, pool: seq<nat>, thresh: real): (w: set<nat>)
    requires |c| == 16
    ensures forall x :: x in w <==> x in pool && Within(q, t, c, x, thresh)
  {
    set x | x in pool && Within(q, t, c, x, thresh)
  }

  /** For a rigid fit the growth test is the distance test of Ransac's growth loop: both
      points are free of NaN, and the moved query point lies closer than `thresh`
      (squared) to the training point. */
  lemma WithinRigid(q: seq<Point3F>, t: seq<Point3F>, r: RigidTransform, i: nat, thresh: real)
    requires i < |q| && i < |t|
    ensures Within(q, t, Coefficients(r), i, thresh) <==>
              !HasNaN(q[i]) && !HasNaN(t[i])
              && SquaredDistance(Apply(r, ToPoint(q[i])), ToPoint(t[i])) < thresh
  {
    ResidualOfRigidF(r, q[i], t[i]);
  }

  /** Pass `p` ran as the growth loop runs a pass: its coefficients are the fit of its
      inliers, and it admits exactly the positions of its pool that this fit brings within
      its threshold. */
  ghost predicate PassRan(q: seq<Point3F>, t: seq<Point3F>, fit: RigidFit, p: Pass) {
    p.coefficients == Coefficients(fit(q, t, p.fittedOn))
    && p.admitted == WithinOf(q, t, p.coefficients, p.pool, p.threshold)
  }

  /** `inliers` and `rest` are what pass `p` leaves: its inliers with the admitted positions
      merged in, ascending, and its pool without them. */
  ghost predicate After(p: Pass, inliers: seq<nat>, rest: seq<nat>) {
    StrictlyIncreasing(inliers) && Elems(inliers) == Elems(p.fittedOn) + p.admitted
    && rest == Drop(p.pool, p.admitted)
  }

  /** Passes run one after the other: the first on `inliers0` and `pool0`, each next one on
      what the one before left. */
  ghost predicate Chain(q: seq<Point3F>, t: seq<Point3F>, fit: RigidFit, inliers0: seq<nat>, pool0: seq<nat>,
                        passes: seq<Pass>)
    decreases |passes|
  {
    if passes == [] then true
    else
      var before, last := passes[..|passes| - 1], passes[|passes| - 1];
      Chain(q, t, fit, inliers0, pool0, before) && PassRan(q, t, fit, last)
      && if before == [] then last.fittedOn == inliers0 && last.pool == pool0
         else After(before[|before| - 1], last.fittedOn, last.pool)
  }

  /** A further pass on what the last one left extends the chain. */
  lemma ChainExtend(q: seq<Point3F>, t: seq<Point3F>, fit: RigidFit, inliers0: seq<nat>,
                    pool0: seq<nat>, passes: seq<Pass>, p: Pass)
    requires Chain(q, t, fit, inliers0, pool0, passes) && PassRan(q, t, fit, p)
    requires passes == [] ==> p.fittedOn == inliers0 && p.pool == pool0
    requires passes != [] ==> After(passes[|passes| - 1], p.fittedOn, p.pool)
    ensures Chain(q, t, fit, inliers0, pool0, passes + [p])
  {
    assert (passes + [p])[..|passes|] == passes;
  }

  /** Every pass of a chain ran as the growth loop runs one. */
  lemma {:induction false} ChainRan(q: seq<Point3F>, t: seq<Point3F>, fit: RigidFit, inliers0: seq<nat>,
                                    pool0: seq<nat>, passes: seq<Pass>)
    requires Chain(q, t, fit, inliers0, pool0, passes)
    ensures forall k :: 0 <= k < |passes| ==> PassRan(q, t, fit, passes[k])
    decreases |passes|
  {
    if passes != [] {
      var before := passes[..|passes| - 1];
      ChainRan(q, t, fit, inliers0, pool0, before);
      forall k | 0 <= k < |before| ensures PassRan(q, t, fit, passes[k]) {
        assert passes[k] == before[k];
      }
    }
  }

  /** A chain link by link: the first pass starts from `inliers0` and `pool0`, and each
      next pass starts from what the one before left. */
  lemma {:induction false} ChainLinked(q: seq<Point3F>, t: seq<Point3F>, fit: RigidFit, inliers0: seq<nat>,
                                       pool0: seq<nat>, passes: seq<Pass>)
    requires Chain(q, t, fit, inliers0, pool0, passes)
    ensures passes != [] ==> passes[0].fittedOn == inliers0 && passes[0].pool == pool0
    ensures forall k :: 0 <= k < |passes| - 1 ==> After(passes[k], passes[k + 1].fittedOn, passes[k + 1].pool)
    decreases |passes|
  {
    if passes != [] {
      var before := passes[..|passes| - 1];
      ChainLinked(q, t, fit, inliers0, pool0, before);
      forall k | 0 <= k < |passes| - 1 ensures After(passes[k], passes[k + 1].fittedOn, passes[k + 1].pool) {
        assert passes[k] == before[k];
        if k + 1 < |before| {
          assert passes[k + 1] == before[k + 1];
        }
      }
      if before != [] {
        assert passes[0] == before[0];
      }
    }
  }

  /** The thresholds and admissions part way through the growth loop: every pass at the
      threshold e^2, each admitting something -- except the last one when `doFinal` is set,
      which admitted nothing. */
  ghost predicate Growing(e: real, passes: seq<Pass>, doFinal: bool)
    decreases |passes|
  {
    if passes == [] then !doFinal
    else
      var before, last := passes[..|passes| - 1], passes[|passes| - 1];
      Growing(e, before, false) && last.threshold == e * e && (last.admitted == {} <==> doFinal)
  }

  /** The thresholds and admissions of a finished growth loop: passes at e^2 until one
      admits nothing, then exactly one more at 4 e^2. */
  ghost predicate Finished(e: real, passes: seq<Pass>) {
    passes != [] && Growing(e, passes[..|passes| - 1], true) && passes[|passes| - 1].threshold == 4.0 * (e * e)
  }

  /** A growing loop pass by pass: every pass at e^2, each admitting something but the
      last when `doFinal` is set, which admitted nothing. */
  lemma {:induction false} GrowingAt(e: real, passes: seq<Pass>, doFinal: bool)
    requires Growing(e, passes, doFinal)
    ensures doFinal ==> passes != [] && passes[|passes| - 1].admitted == {}
    ensures forall k :: 0 <= k < |passes| ==> passes[k].threshold == e * e
    ensures forall k :: 0 <= k < |passes| - (if doFinal then 1 else 0) ==> passes[k].admitted != {}
    decreases |passes|
  {
    if passes != [] {
      var before := passes[..|passes| - 1];
      GrowingAt(e, before, false);
      assert forall k :: 0 <= k < |before| ==> passes[k] == before[k];
    }
  }

  /** A finished loop pass by pass: at least two passes, all at e^2 but the last at 4 e^2;
      the one before the last admitted nothing and every earlier one admitted something. */
  lemma FinishedAt(e: real, passes: seq<Pass>)
    requires Finished(e, passes)
    ensures |passes| >= 2
    ensures forall k :: 0 <= k < |passes| - 1 ==> passes[k].threshold == e * e
    ensures passes[|passes| - 1].threshold == 4.0 * (e * e)
    ensures passes[|passes| - 2].admitted == {}
    ensures forall k :: 0 <= k < |passes| - 2 ==> passes[k].admitted != {}
  {
    var before := passes[..|passes| - 1];
    GrowingAt(e, before, true);
    assert forall k :: 0 <= k < |before| ==> passes[k] == before[k];
  }

  /** The growth loop over the positions in play `valid`, started from the consensus
      inliers `start`: its passes ran one after the other, with the thresholds and
      admissions of a finished loop. */
  ghost predicate Growth(q: seq<Point3F>, t: seq<Point3F>, valid: seq<nat>, e: real, fit: RigidFit,
                         start: seq<nat>, passes: seq<Pass>) {
    Chain(q, t, fit, SortUnique(start), Drop(valid, Elems(start)), passes) && Finished(e, passes)
  }

  /** One more pass of the growth loop: before the final pass the loop goes on growing,
      and the final pass, at 4 e^2, finishes it. */
  lemma GrowingStep(e: real, passes: seq<Pass>, doFinal: bool, p: Pass)
    requires Growing(e, passes, doFinal)
    requires p.threshold == if doFinal then 4.0 * (e * e) else e * e
    ensures !doFinal ==> Growing(e, passes + [p], p.admitted == {})
    ensures doFinal ==> Finished(e, passes + [p])
  {
    assert (passes + [p])[..|passes|] == passes;
  }

  /** The growth loop part way, from `start` and `pool0`: the current inliers and pool are
      ascending and disjoint, and are what the last pass left (the start before the first
      pass), whose fit inliers and coefficients are `fittedOn` and `coefficients`. */
  ghost predicate Progress(q: seq<Point3F>, t: seq<Point3F>, fit: RigidFit, e: real, start: seq<nat>,
                           pool0: seq<nat>, passes: seq<Pass>, doFinal: bool, inliers: seq<nat>,
                           pool: seq<nat>, fittedOn: seq<nat>, coefficients: seq<real>) {
    StrictlyIncreasing(inliers) && StrictlyIncreasing(pool)
    && (forall x :: x in inliers ==> x !in pool)
    && Chain(q, t, fit, start, pool0, passes) && Growing(e, passes, doFinal)
    && (passes == [] ==> inliers == start && pool == pool0)
    && (passes != [] ==> After(passes[|passes| - 1], inliers, pool)
                         && fittedOn == passes[|passes| - 1].fittedOn
                         && coefficients == passes[|passes| - 1].coefficients)
  }

  /** A pass run on the current inliers and pool keeps the loop in progress; after the
      final pass the loop is finished. */
  lemma ProgressStep(q: seq<Point3F>, t: seq<Point3F>, fit: RigidFit, e: real, start: seq<nat>,
                     pool0: seq<nat>, passes: seq<Pass>, doFinal: bool, inliers: seq<nat>,
                     pool: seq<nat>, fittedOn: seq<nat>, coefficients: seq<real>,
                     p: Pass, grown: seq<nat>, rest: seq<nat>)
    requires Progress(q, t, fit, e, start, pool0, passes, doFinal, inliers, pool, fittedOn, coefficients)
    requires PassRan(q, t, fit, p) && p.fittedOn == inliers && p.pool == pool
    requires p.threshold == if doFinal then 4.0 * (e * e) else e * e
    requires After(p, grown, rest) && StrictlyIncreasing(rest)
    ensures !doFinal ==> Progress(q, t, fit, e, start, pool0, passes + [p], p.admitted == {}, grown, rest,
                                  inliers, p.coefficients)
    ensures doFinal ==> Chain(q, t, fit, start, pool0, passes + [p]) && Finished(e, passes + [p])
  {
    ChainExtend(q, t, fit, start, pool0, passes, p);
    GrowingStep(e, passes, doFinal, p);
  }

  /** What Ransac returns over the positions in play `valid` when the consensus step
      reports `found`: nothing without a model; otherwise the growth loop ran from the
      consensus inliers, the coefficients are the fit of the inliers of the last pass, and
      the inliers and the positions left out are what that last pass left. */
  ghost predicate RansacOutcome(q: seq<Point3F>, t: seq<Point3F>, valid: seq<nat>, e: real, found: Consensus,
                                fit: RigidFit, run: Run) {
    if found.NoModel? then run.coefficients == [] && run.inliers == []
    else
      Growth(q, t, valid, e, fit, found.inliers, run.passes)
      && run.coefficients == Coefficients(fit(q, t, run.fittedOn))
      && run.coefficients == run.passes[|run.passes| - 1].coefficients
      && run.fittedOn == run.passes[|run.passes| - 1].fittedOn
      && After(run.passes[|run.passes| - 1], run.inliers, run.remaining)
  }

  /** What a pass leaves, whatever set `w` of positions of its pool it admits: the merge
      of its inliers with the admitted positions in pool order, and the pool without them. */
  lemma PassLeaves(thresh: real, inliers: seq<nat>, pool: seq<nat>, c: seq<real>, w: set<nat>)
    requires StrictlyIncreasing(inliers) && StrictlyIncreasing(pool)
    requires forall x :: x in inliers ==> x !in pool
    requires forall x :: x in w ==> x in pool
    ensures Elems(Keep(pool, w)) == w
    ensures After(Pass(thresh, inliers, pool, c, w), Merge(inliers, Keep(pool, w)), Drop(pool, w))
    ensures StrictlyIncreasing(Drop(pool, w))
    ensures Keep(pool, w) == [] <==> w == {}
    ensures w == {} ==> Drop(pool, w) == pool
    ensures w != {} ==> |Drop(pool, w)| < |pool|
  {
    var extra := Keep(pool, w);
    assert Elems(extra) == w;
    KeepIncreasing(pool, w);
    MergeIncreasing(inliers, extra);
    var grown := Merge(inliers, extra);
    assert Elems(grown) == Elems(inliers) + w;
    DropIncreasing(pool, w);
    if extra == [] {
      DropNothing(pool, w);
    } else {
      assert extra[0] in w;
      DropShrinks(pool, w, extra[0]);
    }
  }

  /** `inliers` and `rest` are ascending and split the positions of `valid` between them. */
  ghost predicate Splits(valid: seq<nat>, inliers: seq<nat>, rest: seq<nat>) {
    StrictlyIncreasing(inliers) && StrictlyIncreasing(rest)
    && (forall x :: x in inliers ==> x !in rest)
    && (forall x :: x in valid <==> x in inliers || x in rest)
  }

  /** Along a chain of passes started from a split of `valid`, every pass keeps the split
      and only adds inliers: what the last pass leaves still splits `valid`, and its
      inliers hold those of the start and those it refit to. */
  lemma {:induction false} ChainSplits(q: seq<Point3F>, t: seq<Point3F>, fit: RigidFit, valid: seq<nat>,
                                       inliers0: seq<nat>, pool0: seq<nat>, passes: seq<Pass>,
                                       inliers: seq<nat>, rest: seq<nat>)
    requires Splits(valid, inliers0, pool0)
    requires Chain(q, t, fit, inliers0, pool0, passes) && passes != []
    requires After(passes[|passes| - 1], inliers, rest)
    ensures Splits(valid, inliers, rest)
    ensures forall x :: x in inliers0 ==> x in passes[|passes| - 1].fittedOn
    ensures forall x :: x in passes[|passes| - 1].fittedOn ==> x in inliers
    decreases |passes|
  {
    var before, last := passes[..|passes| - 1], passes[|passes| - 1];
    if before != [] {
      ChainSplits(q, t, fit, valid, inliers0, pool0, before, last.fittedOn, last.pool);
    }
    assert Splits(valid, last.fittedOn, last.pool);
    DropIncreasing(last.pool, last.admitted);
  }

  /** A Ransac run with a model splits the positions in play between its inliers and the
      positions it leaves out; its inliers hold every consensus inlier and every inlier of
      its last fit; and no position left out passes the last, looser test. */
  lemma OutcomeSplits(q: seq<Point3F>, t: seq<Point3F>, valid: seq<nat>, e: real, found: Consensus,
                      fit: RigidFit, run: Run)
    requires StrictlyIncreasing(valid) && SoundConsensus(found, valid) && found.Found?
    requires RansacOutcome(q, t, valid, e, found, fit, run)
    ensures Splits(valid, run.inliers, run.remaining)
    ensures forall x :: x in found.inliers ==> x in run.fittedOn
    ensures forall x :: x in run.fittedOn ==> x in run.inliers
    ensures forall x :: x in run.remaining ==> !Within(q, t, run.coefficients, x, 4.0 * (e * e))
  {
    var start := SortUnique(found.inliers);
    DropIncreasing(valid, Elems(found.inliers));
    assert Splits(valid, start, Drop(valid, Elems(found.inliers)));
    ChainSplits(q, t, fit, valid, start, Drop(valid, Elems(found.inliers)), run.passes, run.inliers, run.remaining);
  }

  /** The positions of `valid` whose keypoint, looked up in `ids`, is one of `keys`. */
  function Carrying(valid: seq<nat>, ids: seq<nat>, keys: set<nat>): (r: set<nat>)
    ensures forall i :: i in r <==> i in valid && i < |ids| && ids[i] in keys
  {
    set i | i in valid && i < |ids| && ids[i] in keys
  }

  /** One stored correspondence. */
  datatype Correspondence = Correspondence(training: Point3F, query: Point3F, queryIndex: nat)

  /** The two points of a pair of correspondences may belong to the same object: the
      query points are within the object span (plus sensor error) of each other, and the
      distance between the training points matches the distance between the query points
      to within 4 sensor errors.  A NaN distance passes both tests, as a NaN comparison is
      false. */
  predicate PhysicallyClose(qi: Point3F, qj: Point3F, ti: Point3F, tj: Point3F,
                            span: real, e: real, sqrt: real -> real)
  {
    var dq2 := SquaredDistanceF(qi, qj);
    var dq := Sqrt(sqrt, dq2);
    var dt := Sqrt(sqrt, SquaredDistanceF(ti, tj));
    !Greater(dq2, (span + 2.0 * e) * (span + 2.0 * e)) && !Greater(Abs(Sub(dt, dq)), 4.0 * e)
  }

  /** The pair may be drawn together in a RANSAC sample: its keypoints are more than 20
      pixels apart and the distances match to within 2 sensor errors. */
  predicate SampleSpread(ki: KeyPoint, kj: KeyPoint, qi: Point3F, qj: Point3F, ti: Point3F, tj: Point3F,
                         e: real, sqrt: real -> real)
  {
    var dq := Sqrt(sqrt, SquaredDistanceF(qi, qj));
    var dt := Sqrt(sqrt, SquaredDistanceF(ti, tj));
    PixelSquaredDistance(ki.pt, kj.pt) > 20.0 * 20.0 && Less(Abs(Sub(dt, dq)), 2.0 * e)
  }

  /** A pair whose training distance is NaN is physically adjacent as soon as its query
      points are within the span, whatever its training points are; but it is never
      drawn together in a sample, wherever its keypoints lie. */
  lemma NaNTrainingPointPasses(ki: KeyPoint, kj: KeyPoint, qi: Point3F, qj: Point3F, ti: Point3F, tj: Point3F,
                               span: real, e: real, sqrt: real -> real)
    requires HasNaN(ti) && !HasNaN(qi) && !HasNaN(qj)
    requires SquaredDistance(ToPoint(qi), ToPoint(qj)) <= (span + 2.0 * e) * (span + 2.0 * e)
    ensures PhysicallyClose(qi, qj, ti, tj, span, e, sqrt)
    ensures !SampleSpread(ki, kj, qi, qj, ti, tj, e, sqrt)
  {
  }

  /** A bound on the elements of a list bounds its entries. */
  lemma BoundAt(s: seq<nat>, n: nat)
    requires forall i :: i in s ==> i < n
    ensures forall k :: 0 <= k < |s| ==> s[k] < n
  {
    forall k | 0 <= k < |s| ensures s[k] < n {
      assert s[k] in s;
    }
  }

  /** A value below the target at position `it` of an ascending list, and above every
      earlier target, is not a target. */
  lemma NotAmongTargets(targets: seq<nat>, it: nat, x: nat)
    requires StrictlyIncreasing(targets) && it < |targets| && x < targets[it]
    ensures (forall t :: 0 <= t < it ==> targets[t] < x) ==> x !in targets
  {
  }

  function Range(n: nat): (r: seq<nat>)
    ensures |r| == n && StrictlyIncreasing(r)
    ensures forall i :: 0 <= i < n ==> r[i] == i
  {
    if n == 0 then [] else Range(n - 1) + [n - 1]
  }

  /** The pair of positions i < j of the parallel lists is physically adjacent after
      FillAdjacency. */
  predicate PhysicalPair(q: seq<Point3F>, t: seq<Point3F>, i: nat, j: nat, span: real, e: real, sqrt: real -> real) {
    i < |q| && j < |q| && i < |t| && j < |t| && PhysicallyClose(q[i], q[j], t[i], t[j], span, e, sqrt)
  }

  /** The pair of positions i < j is sample-adjacent after FillAdjacency. */
  predicate SamplePair(keypoints: seq<KeyPoint>, q: seq<Point3F>, t: seq<Point3F>, ids: seq<nat>,
                       i: nat, j: nat, span: real, e: real, sqrt: real -> real)
  {
    PhysicalPair(q, t, i, j, span, e, sqrt) && i < |ids| && j < |ids|
    && ids[i] < |keypoints| && ids[j] < |keypoints|
    && SampleSpread(keypoints[ids[i]], keypoints[ids[j]], q[i], q[j], t[i], t[j], e, sqrt)
  }

  /** The tests FillAdjacency makes for the pair of positions i < j, in its order: query
      distance against the span, then training against query distance; only a physically
      adjacent pair goes on to the pixel-distance and tighter distance test. */
  method PairEdges(keypoints: seq<KeyPoint>, q: seq<Point3F>, t: seq<Point3F>, ids: seq<nat>,
                   i: nat, j: nat, span: real, e: real, sqrt: real -> real)
    returns (physicalEdge: bool, sampleEdge: bool)
    requires i < j < |q| && |t| == |q| && |ids| == |q|
    requires ids[i] < |keypoints| && ids[j] < |keypoints|
    ensures physicalEdge == PhysicalPair(q, t, i, j, span, e, sqrt)
    ensures sampleEdge == SamplePair(keypoints, q, t, ids, i, j, span, e, sqrt)
  {
    var distQuery := SquaredDistanceF(q[i], q[j]);
    if Greater(distQuery, (span + 2.0 * e) * (span + 2.0 * e)) {
      return false, false;
    }
    distQuery := Sqrt(sqrt, distQuery);
    var distTraining := Sqrt(sqrt, SquaredDistanceF(t[i], t[j]));
    if Greater(Abs(Sub(distTraining, distQuery)), 4.0 * e) {
      return false, false;
    }
    physicalEdge := true;
    var keypoint1, keypoint2 := keypoints[ids[i]], keypoints[ids[j]];
    sampleEdge := PixelSquaredDistance(keypoint1.pt, keypoint2.pt) > 20.0 * 20.0
                  && Less(Abs(Sub(distTraining, distQuery)), 2.0 * e);
  }

  /** Along the positions in `valid`, the keypoint ids `ids` never decrease. */
  predicate AscendingIds(valid: seq<nat>, ids: seq<nat>) {
    forall k1, k2 :: 0 <= k1 < k2 < |valid| && valid[k1] < |ids| && valid[k2] < |ids| ==>
      ids[valid[k1]] <= ids[valid[k2]]
  }

  /** Ascending positions into a sorted id list give ascending ids. */
  lemma SortedIdsAscend(valid: seq<nat>, ids: seq<nat>)
    requires StrictlyIncreasing(valid) && NonDecreasing(ids)
    ensures AscendingIds(valid, ids)
  {
  }

  /** The walk of InvalidateQueryIndices: the positions of `valid` whose id is one of the
      ascending `targets`, visiting the positions in order and advancing through the
      targets; it stops once every target is passed.  Every position it returns carries a
      target; when the ids ascend along `valid` it returns every such position. */
  method MatchQueryIds(valid: seq<nat>, ids: seq<nat>, targets: seq<nat>) returns (toRemove: seq<nat>)
    requires StrictlyIncreasing(targets) && targets != []
    requires forall k :: 0 <= k < |valid| ==> valid[k] < |ids|
    ensures forall x :: x in toRemove ==> x in valid && x < |ids| && ids[x] in targets
    ensures AscendingIds(valid, ids) ==>
              forall k :: 0 <= k < |valid| ==> (ids[valid[k]] in targets ==> valid[k] in toRemove)
  {
    toRemove := [];
    var it := 0;
    var n := 0;
    while n < |valid|
      invariant n <= |valid| && it < |targets|
      invariant forall x :: x in toRemove ==> x in valid && x < |ids| && ids[x] in targets
      invariant AscendingIds(valid, ids) ==>
                  forall k :: 0 <= k < n ==> (ids[valid[k]] in targets ==> valid[k] in toRemove)
      invariant AscendingIds(valid, ids) ==>
                  forall t, k :: 0 <= t < it && n <= k < |valid| ==> targets[t] < ids[valid[k]]
    {
      var index := valid[n];
      var queryIndex := ids[index];
      if queryIndex < targets[it] {
        NotAmongTargets(targets, it, queryIndex);
        n := n + 1;
        continue;
      }
      while it < |targets| && queryIndex > targets[it]
        invariant it <= |targets|
        invariant AscendingIds(valid, ids) ==>
                    forall t, k :: 0 <= t < it && n <= k < |valid| ==> targets[t] < ids[valid[k]]
        invariant forall t :: 0 <= t < it ==> targets[t] < queryIndex
      {
        it := it + 1;
      }
      if it < |targets| && queryIndex == targets[it] {
        toRemove := toRemove + [index];
        n := n + 1;
        continue;
      }
      if it == |targets| {
        forall k | n <= k < |valid| ensures AscendingIds(valid, ids) ==> ids[valid[k]] !in targets {
        }
        break;
      }
      NotAmongTargets(targets, it, queryIndex);
      n := n + 1;
    }
  }

  class AdjacencyRansac {
    var queryPoints: seq<Point3F>
    var trainingPoints: seq<Point3F>
    var queryIndices: seq<nat>
    /** The positions still in play, ascending. */
    var validIndices: seq<nat>
    /** Pairs close enough physically to belong to one object. */
    var physical: AdjacencyMatrix
    /** Pairs that may be drawn together in a sample: physically close and well spread. */
    var sample: AdjacencyMatrix

    /** The three lists run in parallel, the positions in play are ascending positions of
        them, and the sample relation lies inside the physical one. */
    ghost predicate Valid()
      reads this
    {
      |trainingPoints| == |queryPoints| == |queryIndices|
      && StrictlyIncreasing(validIndices) && (forall i :: i in validIndices ==> i < |queryIndices|)
      && physical.Valid() && sample.Valid() && SubRelation(sample, physical)
    }

    /** The stored correspondences in order. */
    ghost function Entries(): (r: seq<Correspondence>)
      reads this
      requires Valid()
      ensures |r| == |queryIndices|
      ensures forall i :: 0 <= i < |r| ==>
                r[i] == Correspondence(trainingPoints[i], queryPoints[i], queryIndices[i])
    {
      var t, q, ids := trainingPoints, queryPoints, queryIndices;
      seq(|ids|, i requires 0 <= i < |ids| && i < |t| && i < |q| => Correspondence(t[i], q[i], ids[i]))
    }

    constructor ()
      ensures Valid()
      ensures queryPoints == [] && trainingPoints == [] && queryIndices == [] && validIndices == []
      ensures physical == Cleared() && sample == Cleared()
    {
      queryPoints := [];
      trainingPoints := [];
      queryIndices := [];
      validIndices := [];
      physical := Cleared();
      sample := Cleared();
    }

    method ClearAdjacency()
      requires Valid()
      modifies this`physical, this`sample
      ensures Valid()
      ensures physical == Cleared() && sample == Cleared()
    {
      physical := Cleared();
      sample := Cleared();
    }

    /** Append one correspondence; its position (the old size) becomes valid. */
    method AddPoints(trainingPoint: Point3F, queryPoint: Point3F, queryIndex: nat)
      requires Valid()
      modifies this`validIndices, this`trainingPoints, this`queryPoints, this`queryIndices
      ensures Valid()
      ensures validIndices == old(validIndices) + [old(|queryIndices|)]
      ensures trainingPoints == old(trainingPoints) + [trainingPoint]
      ensures queryPoints == old(queryPoints) + [queryPoint]
      ensures queryIndices == old(queryIndices) + [queryIndex]
      ensures Entries() == old(Entries()) + [Correspondence(trainingPoint, queryPoint, queryIndex)]
    {
      AppendIncreasing(validIndices, |queryIndices|);
      validIndices := validIndices + [|queryIndices|];
      trainingPoints := trainingPoints + [trainingPoint];
      queryPoints := queryPoints + [queryPoint];
      queryIndices := queryIndices + [queryIndex];
    }

    /** n_points() */
    function NPoints(): (n: nat)
      reads this
      requires Valid()
      ensures n == |queryPoints| && n == |trainingPoints| && n == |queryIndices|
    {
      |queryIndices|
    }

    /** query_indices(index): the keypoint a stored correspondence came from. */
    function QueryIndex(index: nat): (q: nat)
      reads this
      requires Valid() && index < |queryIndices|
      ensures q in queryIndices && Entries()[index].queryIndex == q
    {
      queryIndices[index]
    }

    /** valid_indices(): a copy, element by element, of the positions in play. */
    method CopyValidIndices() returns (copy: seq<nat>)
      ensures copy == validIndices
    {
      var a := new nat[|validIndices|];
      var i := 0;
      while i < |validIndices|
        invariant i <= |validIndices|
        invariant forall k :: 0 <= k < i ==> a[k] == validIndices[k]
      {
        a[i] := validIndices[i];
        i := i + 1;
      }
      copy := a[..];
    }

    /** Rebuild both relations from scratch over every pair of positions i < j. */
    method FillAdjacency(keypoints: seq<KeyPoint>, span: real, e: real, sqrt: real -> real)
      requires Valid()
      requires forall i :: 0 <= i < |queryIndices| ==> queryIndices[i] < |keypoints|
      modifies this`physical, this`sample
      ensures Valid()
      ensures physical.size == |trainingPoints| && sample.size == |trainingPoints|
      ensures forall i: nat, j: nat :: i < j ==>
                (physical.Test(i, j) <==> PhysicalPair(queryPoints, trainingPoints, i, j, span, e, sqrt))
      ensures forall i: nat, j: nat :: i < j ==>
                (sample.Test(i, j) <==> SamplePair(keypoints, queryPoints, trainingPoints, queryIndices, i, j, span, e, sqrt))
    {
      var q, t, ids := queryPoints, trainingPoints, queryIndices;
      var n := |t|;
      var phys, samp := Unconnected(n), Unconnected(n);
      var i := 0;
      while i < n
        invariant i <= n && phys.size == n && samp.size == n
        invariant phys.Valid() && samp.Valid() && SubRelation(samp, phys)
        invariant forall a: nat, b: nat :: a < b ==>
                    (phys.Test(a, b) <==> a < i && PhysicalPair(q, t, a, b, span, e, sqrt))
        invariant forall a: nat, b: nat :: a < b ==>
                    (samp.Test(a, b) <==> a < i && SamplePair(keypoints, q, t, ids, a, b, span, e, sqrt))
      {
        var j := i + 1;
        while j < n
          invariant i < j <= n && phys.size == n && samp.size == n
          invariant phys.Valid() && samp.Valid() && SubRelation(samp, phys)
          invariant forall a: nat, b: nat :: a < b ==>
                      (phys.Test(a, b) <==> (a < i || (a == i && b < j)) && PhysicalPair(q, t, a, b, span, e, sqrt))
          invariant forall a: nat, b: nat :: a < b ==>
                      (samp.Test(a, b) <==> (a < i || (a == i && b < j)) && SamplePair(keypoints, q, t, ids, a, b, span, e, sqrt))
        {
          var physicalEdge, sampleEdge := PairEdges(keypoints, q, t, ids, i, j, span, e, sqrt);
          if physicalEdge {
            phys := phys.SetSorted(i, j);
          }
          if sampleEdge {
            samp := samp.SetSorted(i, j);
          }
          j := j + 1;
        }
        i := i + 1;
      }
      physical, sample := phys, samp;
    }

    /** Remove the given positions from play and cut every edge touching them.  Returns
        the argument as it is left in place: sorted, duplicates removed. */
    method InvalidateIndices(indices: seq<nat>) returns (sorted: seq<nat>)
      requires Valid()
      modifies this`validIndices, this`physical, this`sample
      ensures Valid()
      ensures StrictlyIncreasing(sorted) && Elems(sorted) == Elems(indices)
      ensures validIndices == Drop(old(validIndices), Elems(indices))
      ensures physical == old(physical).InvalidateCluster(Elems(indices))
      ensures sample == old(sample).InvalidateCluster(Elems(indices))
    {
      sorted := SortUnique(indices);
      DropIncreasing(validIndices, Elems(sorted));
      validIndices := Drop(validIndices, Elems(sorted));
      forall k | 0 <= k < |validIndices| ensures validIndices[k] < |queryIndices| {
        assert validIndices[k] in validIndices;
      }
      InvalidateKeepsSubRelation(sample, physical, Elems(sorted));
      physical := physical.InvalidateCluster(Elems(sorted));
      sample := sample.InvalidateCluster(Elems(sorted));
    }

    /** Remove from play every position whose keypoint is one of `queryIds`, found by
        walking the positions in play alongside the sorted ids; the walk stops once it is
        past the last id.  It never removes a position carrying another id, and when the
        keypoint list is sorted (as ClusterPerObject builds it) it removes all of them. */
    method InvalidateQueryIndices(queryIds: seq<nat>) returns (ghost removed: seq<nat>)
      requires Valid()
      modifies this`validIndices, this`physical, this`sample
      ensures Valid()
      ensures queryIds == [] ==> validIndices == old(validIndices) && physical == old(physical) && sample == old(sample)
      ensures validIndices == Drop(old(validIndices), Elems(removed))
      ensures physical == old(physical).InvalidateCluster(Elems(removed))
      ensures sample == old(sample).InvalidateCluster(Elems(removed))
      ensures Elems(removed) <= Carrying(old(validIndices), queryIndices, Elems(queryIds))
      ensures NonDecreasing(queryIndices) ==> Elems(removed) == Carrying(old(validIndices), queryIndices, Elems(queryIds))
    {
      removed := [];
      if queryIds == [] {
        assert Elems(removed) == {};
        DropNothing(validIndices, {});
        InvalidateNothing(physical);
        InvalidateNothing(sample);
        return;
      }
      var targets := SortUnique(queryIds);
      if NonDecreasing(queryIndices) {
        SortedIdsAscend(validIndices, queryIndices);
      }
      BoundAt(validIndices, |queryIndices|);
      var toRemove := MatchQueryIds(validIndices, queryIndices, targets);
      removed := toRemove;
      var _ := InvalidateIndices(toRemove);
    }

    /** One growth test over `pool`: the positions that pass it, in order. */
    method CollectWithin(c: seq<real>, pool: seq<nat>, thresh: real) returns (extra: seq<nat>)
      requires |c| == 16
      ensures extra == Keep(pool, WithinOf(queryPoints, trainingPoints, c, pool, thresh))
    {
      extra := [];
      var n := 0;
      while n < |pool|
        invariant n <= |pool|
        invariant extra == Keep(pool[..n], WithinOf(queryPoints, trainingPoints, c, pool, thresh))
      {
        var index := pool[n];
        assert pool[..n + 1][..n] == pool[..n];
        if index < |queryPoints| && index < |trainingPoints|
           && Less(SquaredResidualF(c, queryPoints[index], trainingPoints[index]), thresh)
        {
          extra := extra + [index];
        }
        n := n + 1;
      }
      assert pool[..|pool|] == pool;
    }

    /** One pass of the growth loop: refit to the inliers, collect the positions of `pool`
        that the fit brings within `thresh` (`extra`), merge them into the inliers
        (std::merge) and take them out of the pool (std::set_difference). */
    method GrowthPass(model: SampleConsensusModelRegistrationGraph, fit: RigidFit,
                      inliers: seq<nat>, pool: seq<nat>, thresh: real)
      returns (c: seq<real>, grown: seq<nat>, rest: seq<nat>, extra: seq<nat>)
      requires model.input == queryPoints
      requires StrictlyIncreasing(inliers) && StrictlyIncreasing(pool)
      requires forall x :: x in inliers ==> x !in pool
      ensures c == Coefficients(fit(queryPoints, trainingPoints, inliers))
      ensures extra == Keep(pool, WithinOf(queryPoints, trainingPoints, c, pool, thresh))
      ensures After(Pass(thresh, inliers, pool, c, WithinOf(queryPoints, trainingPoints, c, pool, thresh)), grown, rest)
      ensures StrictlyIncreasing(rest)
      ensures extra == [] <==> WithinOf(queryPoints, trainingPoints, c, pool, thresh) == {}
      ensures extra == [] ==> rest == pool
      ensures extra != [] ==> |rest| < |pool|
    {
      c := model.OptimizeModelCoefficients(fit, trainingPoints, inliers);
      LayoutIsCoefficients(c);
      ghost var w := WithinOf(queryPoints, trainingPoints, c, pool, thresh);
      extra := CollectWithin(c, pool, thresh);
      PassLeaves(thresh, inliers, pool, c, w);
      grown := Merge(inliers, extra);
      rest := Drop(pool, Elems(extra));
    }

    /** RANSAC over the positions in play, then growth: refit to the inliers, admit every
        remaining position within the sensor error, and repeat until a pass admits nothing;
        then one last pass at twice the sensor error (four times the squared threshold).
        Returns the coefficients of the last fit and the inliers, ascending; the positions in
        play are left as they were.  The ghost result records every pass of the growth loop,
        the positions left out, and the inliers the last fit used. */
    method Ransac(sensorError: real, nIterations: nat, found: Consensus, fit: RigidFit)
      returns (coefficients: seq<real>, inliers: seq<nat>, ghost run: Run)
      requires Valid() && SoundConsensus(found, validIndices)
      ensures run.coefficients == coefficients && run.inliers == inliers
      ensures RansacOutcome(queryPoints, trainingPoints, validIndices, sensorError, found, fit, run)
      ensures found.NoModel? ==> coefficients == [] && inliers == []
      ensures found.Found? ==>
                |coefficients| == 16 && StrictlyIncreasing(inliers)
                && (forall x :: x in found.inliers ==> x in inliers)
                && forall x :: x in inliers ==> x in validIndices
      ensures found.Found? ==>
                Splits(validIndices, inliers, run.remaining)
                && (forall x :: x in found.inliers ==> x in run.fittedOn)
                && (forall x :: x in run.fittedOn ==> x in inliers)
                && forall x :: x in run.remaining ==>
                     !Within(queryPoints, trainingPoints, coefficients, x, 4.0 * (sensorError * sensorError))
    {
      var model := new SampleConsensusModelRegistrationGraph(queryPoints, validIndices, sensorError, physical, sample);
      coefficients, inliers := [], [];
      run := Run([], [], [], [], []);
      if found.NoModel? {
        return;
      }
      inliers := SortUnique(found.inliers);
      var validVect := CopyValidIndices();
      DropIncreasing(validVect, Elems(found.inliers));
      assert Elems(inliers) == Elems(found.inliers);
      validVect := Drop(validVect, Elems(inliers));
      ghost var remaining, fittedOn, passes;
      coefficients, inliers, remaining, fittedOn, passes := GrowthLoop(model, fit, sensorError, inliers, validVect);
      run := Run(coefficients, inliers, remaining, fittedOn, passes);
      OutcomeSplits(queryPoints, trainingPoints, validIndices, sensorError, found, fit, run);
    }

    /** The growth loop of Ransac, from the consensus inliers `start` and the other
        positions in play `pool0`: passes at e^2 until one admits nothing, then one at
        4 e^2.  Returns the coefficients and inliers of the last pass; ghost results: what
        the last pass left in the pool, the inliers it refit to, and every pass. */
    method GrowthLoop(model: SampleConsensusModelRegistrationGraph, fit: RigidFit, sensorError: real,
                      start: seq<nat>, pool0: seq<nat>)
      returns (coefficients: seq<real>, inliers: seq<nat>,
               ghost remaining: seq<nat>, ghost fittedOn: seq<nat>, ghost passes: seq<Pass>)
      requires model.input == queryPoints
      requires StrictlyIncreasing(start) && StrictlyIncreasing(pool0)
      requires forall x :: x in start ==> x !in pool0
      ensures Chain(queryPoints, trainingPoints, fit, start, pool0, passes) && Finished(sensorError, passes)
      ensures coefficients == passes[|passes| - 1].coefficients && fittedOn == passes[|passes| - 1].fittedOn
      ensures After(passes[|passes| - 1], inliers, remaining)
      ensures |coefficients| == 16 && StrictlyIncreasing(inliers)
    {
      ghost var q, t := queryPoints, trainingPoints;
      inliers := start;
      var validVect := pool0;
      passes := [];
      coefficients, remaining, fittedOn := [], validVect, inliers;
      var doFinal := false;
      var thresh := sensorError * sensorError;
      while true
        invariant thresh == if doFinal then 4.0 * (sensorError * sensorError) else sensorError * sensorError
        invariant Progress(q, t, fit, sensorError, start, pool0, passes, doFinal, inliers, validVect, fittedOn, coefficients)
        decreases if doFinal then 0 else 1, |validVect|
      {
        var c, grown, rest, extra := GrowthPass(model, fit, inliers, validVect, thresh);
        ghost var p := Pass(thresh, inliers, validVect, c, WithinOf(q, t, c, validVect, thresh));
        ProgressStep(q, t, fit, sensorError, start, pool0, passes, doFinal, inliers, validVect, fittedOn, coefficients,
                     p, grown, rest);
        passes := passes + [p];
        coefficients, fittedOn := c, inliers;
        inliers, validVect := grown, rest;
        if doFinal {
          remaining := validVect;
          break;
        }
        if extra == [] {
          doFinal := true;
          thresh := thresh * 4.0;
        }
      }
    }
  }

  /** cv::DMatch: the training image (object) a match points into. */
  datatype DMatch = DMatch(imgIdx: nat)

  /** The inputs ClusterPerObject reads: per keypoint the 3D point of the cloud under it,
      its matches, and the 3D training points of those matches. */
  datatype Frame = Frame(cloudAt: seq<Point3F>, matches: seq<seq<DMatch>>, matches3d: seq<seq<Point3F>>)
  {
    predicate WellFormed() {
      |cloudAt| >= |matches| && |matches3d| >= |matches|
      && forall q :: 0 <= q < |matches| ==> |matches3d[q]| >= |matches[q]|
    }
  }

  /** The correspondences that the first `m` matches of keypoint `q` add to object `k`. */
  function MatchesOf(f: Frame, k: nat, q: nat, m: nat): seq<Correspondence>
    requires f.WellFormed() && q < |f.matches| && m <= |f.matches[q]|
  {
    if m == 0 then []
    else MatchesOf(f, k, q, m - 1)
         + (if f.matches[q][m - 1].imgIdx == k
            then [Correspondence(f.matches3d[q][m - 1], f.cloudAt[q], q)] else [])
  }

  /** The correspondences of object `k` from the keypoints before `q`: every match of a
      keypoint whose 3D point has no NaN coordinate, keypoint by keypoint, match by match. */
  function Bucket(f: Frame, k: nat, q: nat): seq<Correspondence>
    requires f.WellFormed() && q <= |f.matches|
  {
    if q == 0 then []
    else
      Bucket(f, k, q - 1)
      + (if HasNaN(f.cloudAt[q - 1]) then [] else MatchesOf(f, k, q - 1, |f.matches[q - 1]|))
  }

  /** A match of keypoint `q` and object `k` that is among the first `m`. */
  predicate MatchedIn(f: Frame, k: nat, q: nat, m: nat, c: Correspondence)
    requires f.WellFormed() && q < |f.matches|
  {
    exists n :: 0 <= n < m && n < |f.matches[q]| && f.matches[q][n].imgIdx == k
                && c == Correspondence(f.matches3d[q][n], f.cloudAt[q], q)
  }

  /** MatchesOf holds exactly the matches into object `k` among the first `m`. */
  lemma {:induction false} MatchesOfExactly(f: Frame, k: nat, q: nat, m: nat)
    requires f.WellFormed() && q < |f.matches| && m <= |f.matches[q]|
    ensures forall c :: c in MatchesOf(f, k, q, m) <==> MatchedIn(f, k, q, m, c)
  {
    if m > 0 {
      MatchesOfExactly(f, k, q, m - 1);
      forall c ensures c in MatchesOf(f, k, q, m) <==> MatchedIn(f, k, q, m, c) {
        if MatchedIn(f, k, q, m, c) {
          var n :| 0 <= n < m && n < |f.matches[q]| && f.matches[q][n].imgIdx == k
                   && c == Correspondence(f.matches3d[q][n], f.cloudAt[q], q);
          if n < m - 1 {
            assert MatchedIn(f, k, q, m - 1, c);
          }
        }
        if c in MatchesOf(f, k, q, m - 1) {
          var n :| 0 <= n < m - 1 && n < |f.matches[q]| && f.matches[q][n].imgIdx == k
                   && c == Correspondence(f.matches3d[q][n], f.cloudAt[q], q);
          assert MatchedIn(f, k, q, m, c);
        }
      }
    }
  }

  /** Bucket holds exactly the matches into object `k` of the keypoints before `q` whose 3D
      point has no NaN coordinate, in the order of the keypoints. */
  lemma {:induction false} BucketExactly(f: Frame, k: nat, q: nat)
    requires f.WellFormed() && q <= |f.matches|
    ensures forall c :: c in Bucket(f, k, q) <==>
              c.queryIndex < q && !HasNaN(f.cloudAt[c.queryIndex])
              && MatchedIn(f, k, c.queryIndex, |f.matches[c.queryIndex]|, c)
    ensures forall i, j :: 0 <= i < j < |Bucket(f, k, q)| ==> Bucket(f, k, q)[i].queryIndex <= Bucket(f, k, q)[j].queryIndex
  {
    if q > 0 {
      BucketExactly(f, k, q - 1);
      var before := Bucket(f, k, q - 1);
      var here := if HasNaN(f.cloudAt[q - 1]) then [] else MatchesOf(f, k, q - 1, |f.matches[q - 1]|);
      MatchesOfExactly(f, k, q - 1, |f.matches[q - 1]|);
      assert Bucket(f, k, q) == before + here;
      forall c | c in here ensures c.queryIndex == q - 1 {
        var n :| 0 <= n < |f.matches[q - 1]| && n < |f.matches[q - 1]| && f.matches[q - 1][n].imgIdx == k
                 && c == Correspondence(f.matches3d[q - 1][n], f.cloudAt[q - 1], q - 1);
      }
      forall c ensures c in before + here <==>
               c.queryIndex < q && !HasNaN(f.cloudAt[c.queryIndex])
               && MatchedIn(f, k, c.queryIndex, |f.matches[c.queryIndex]|, c)
      {
        if c.queryIndex == q - 1 && !HasNaN(f.cloudAt[q - 1]) && MatchedIn(f, k, c.queryIndex, |f.matches[c.queryIndex]|, c) {
          assert c in here;
        }
      }
      forall i, j | 0 <= i < j < |before + here|
        ensures (before + here)[i].queryIndex <= (before + here)[j].queryIndex
      {
        if j >= |before| {
          assert (before + here)[j] in here;
          if i < |before| {
            assert (before + here)[i] in before;
          } else {
            assert (before + here)[i] in here;
          }
        }
      }
    }
  }

  /** The three parallel lists of an AdjacencyRansac read as correspondences. */
  function Correspondences(t: seq<Point3F>, q: seq<Point3F>, ids: seq<nat>): seq<Correspondence>
    requires |t| == |q| == |ids|
  {
    if ids == [] then []
    else Correspondences(t[..|t| - 1], q[..|q| - 1], ids[..|ids| - 1])
         + [Correspondence(t[|t| - 1], q[|q| - 1], ids[|ids| - 1])]
  }

  lemma {:induction false} CorrespondencesAt(t: seq<Point3F>, q: seq<Point3F>, ids: seq<nat>)
    requires |t| == |q| == |ids|
    ensures |Correspondences(t, q, ids)| == |ids|
    ensures forall i :: 0 <= i < |ids| ==> Correspondences(t, q, ids)[i] == Correspondence(t[i], q[i], ids[i])
  {
    if ids != [] {
      CorrespondencesAt(t[..|t| - 1], q[..|q| - 1], ids[..|ids| - 1]);
    }
  }

  /** Appending one point pair and its keypoint appends their correspondence. */
  lemma CorrespondencesAppend(t: seq<Point3F>, q: seq<Point3F>, ids: seq<nat>, c: Correspondence)
    requires |t| == |q| == |ids|
    ensures Correspondences(t + [c.training], q + [c.query], ids + [c.queryIndex])
         == Correspondences(t, q, ids) + [c]
  {
    assert (t + [c.training])[..|t|] == t && (q + [c.query])[..|q|] == q && (ids + [c.queryIndex])[..|ids|] == ids;
  }

  /** The first n + 1 elements are the first n and then element n. */
  lemma PrefixExtend<T>(s: seq<T>, n: nat)
    requires n < |s|
    ensures s[..n + 1] == s[..n] + [s[n]]
  {
  }

  /** An object as ClusterPerObject leaves it: holding `expected`, every position in play,
      and no edge yet. */
  ghost predicate Collected(o: AdjacencyRansac, expected: seq<Correspondence>)
    reads o
  {
    |o.trainingPoints| == |o.queryPoints| == |o.queryIndices|
    && Correspondences(o.trainingPoints, o.queryPoints, o.queryIndices) == expected
    && o.validIndices == Range(|o.queryIndices|) && o.physical == Cleared() && o.sample == Cleared()
  }

  /** A collected object is valid and its entries are the ones collected. */
  lemma CollectedValid(o: AdjacencyRansac, expected: seq<Correspondence>)
    requires Collected(o, expected)
    ensures o.Valid() && o.Entries() == expected
  {
    CorrespondencesAt(o.trainingPoints, o.queryPoints, o.queryIndices);
  }

  /** No two objects of the map are the same instance. */
  ghost predicate Distinct(objects: map<nat, AdjacencyRansac>) {
    forall a, b :: a in objects && b in objects && a != b ==> objects[a] != objects[b]
  }

  /** A fresh object holding `entries`, added one AddPoints call at a time. */
  method Build(entries: seq<Correspondence>) returns (o: AdjacencyRansac)
    ensures fresh(o) && Collected(o, entries)
  {
    o := new AdjacencyRansac();
    var n := 0;
    while n < |entries|
      invariant n <= |entries|
      invariant fresh(o) && Collected(o, entries[..n])
    {
      CollectedValid(o, entries[..n]);
      ghost var t, q, ids := o.trainingPoints, o.queryPoints, o.queryIndices;
      var entry := entries[n];
      o.AddPoints(entry.training, entry.query, entry.queryIndex);
      CorrespondencesAppend(t, q, ids, entry);
      PrefixExtend(entries, n);
      n := n + 1;
    }
    assert entries[..|entries|] == entries;
  }

  /** Map `b` with correspondence `c` appended to the list of object `k`. */
  function Added(b: map<nat, seq<Correspondence>>, k: nat, c: Correspondence): map<nat, seq<Correspondence>> {
    b[k := (if k in b then b[k] else []) + [c]]
  }

  /** `b` after the first `m` matches of keypoint `q`, each appended to its object's list. */
  function AddMatches(b: map<nat, seq<Correspondence>>, f: Frame, q: nat, m: nat): map<nat, seq<Correspondence>>
    requires f.WellFormed() && q < |f.matches| && m <= |f.matches[q]|
  {
    if m == 0 then b
    else Added(AddMatches(b, f, q, m - 1), f.matches[q][m - 1].imgIdx,
               Correspondence(f.matches3d[q][m - 1], f.cloudAt[q], q))
  }

  /** The per-object lists after the keypoints before `q`. */
  function Gathered(f: Frame, q: nat): map<nat, seq<Correspondence>>
    requires f.WellFormed() && q <= |f.matches|
  {
    if q == 0 then map[]
    else if HasNaN(f.cloudAt[q - 1]) then Gathered(f, q - 1)
    else AddMatches(Gathered(f, q - 1), f, q - 1, |f.matches[q - 1]|)
  }

  /** Adding the matches of one keypoint appends, to every object, its share of them. */
  lemma {:induction false} AddMatchesAppends(b: map<nat, seq<Correspondence>>, f: Frame, q: nat, m: nat)
    requires f.WellFormed() && q < |f.matches| && m <= |f.matches[q]|
    ensures forall k :: k in AddMatches(b, f, q, m) <==> k in b || MatchesOf(f, k, q, m) != []
    ensures forall k :: k in AddMatches(b, f, q, m) ==>
              AddMatches(b, f, q, m)[k] == (if k in b then b[k] else []) + MatchesOf(f, k, q, m)
  {
    if m > 0 {
      AddMatchesAppends(b, f, q, m - 1);
      var prev := AddMatches(b, f, q, m - 1);
      var id := f.matches[q][m - 1].imgIdx;
      var c := Correspondence(f.matches3d[q][m - 1], f.cloudAt[q], q);
      assert AddMatches(b, f, q, m) == Added(prev, id, c);
      forall k ensures k in Added(prev, id, c) <==> k in b || MatchesOf(f, k, q, m) != [] {
        assert MatchesOf(f, k, q, m) == MatchesOf(f, k, q, m - 1) + (if id == k then [c] else []);
      }
      forall k | k in Added(prev, id, c)
        ensures Added(prev, id, c)[k] == (if k in b then b[k] else []) + MatchesOf(f, k, q, m)
      {
        assert MatchesOf(f, k, q, m) == MatchesOf(f, k, q, m - 1) + (if id == k then [c] else []);
      }
    }
  }

  /** The gathered lists are the buckets: one list per object that some match reaches. */
  lemma {:induction false} GatheredBuckets(f: Frame, q: nat)
    requires f.WellFormed() && q <= |f.matches|
    ensures forall k :: k in Gathered(f, q) <==> Bucket(f, k, q) != []
    ensures forall k :: k in Gathered(f, q) ==> Gathered(f, q)[k] == Bucket(f, k, q)
  {
    if q > 0 {
      GatheredBuckets(f, q - 1);
      if !HasNaN(f.cloudAt[q - 1]) {
        AddMatchesAppends(Gathered(f, q - 1), f, q - 1, |f.matches[q - 1]|);
      }
    }
  }

  /** The correspondences of keypoint `queryIndex` added to the lists of the objects its
      matches point into. */
  method GatherMatches(f: Frame, queryIndex: nat, buckets: map<nat, seq<Correspondence>>)
    returns (result: map<nat, seq<Correspondence>>)
    requires f.WellFormed() && queryIndex < |f.matches|
    ensures result == AddMatches(buckets, f, queryIndex, |f.matches[queryIndex]|)
  {
    var queryPoint := f.cloudAt[queryIndex];
    var localMatches := f.matches[queryIndex];
    var localMatches3d := f.matches3d[queryIndex];
    result := buckets;
    var matchIndex := 0;
    while matchIndex < |localMatches|
      invariant matchIndex <= |localMatches|
      invariant result == AddMatches(buckets, f, queryIndex, matchIndex)
    {
      var objectId := localMatches[matchIndex].imgIdx;
      var entry := Correspondence(localMatches3d[matchIndex], queryPoint, queryIndex);
      var held := if objectId in result then result[objectId] else [];
      result := result[objectId := held + [entry]];
      matchIndex := matchIndex + 1;
    }
  }

  /** The first pass: the correspondences of every keypoint without NaN, gathered per
      object in keypoint order. */
  method GatherAll(f: Frame) returns (buckets: map<nat, seq<Correspondence>>)
    requires f.WellFormed()
    ensures forall k :: k in buckets <==> Bucket(f, k, |f.matches|) != []
    ensures forall k :: k in buckets ==> buckets[k] == Bucket(f, k, |f.matches|)
  {
    buckets := map[];
    var queryIndex := 0;
    while queryIndex < |f.matches|
      invariant queryIndex <= |f.matches|
      invariant buckets == Gathered(f, queryIndex)
    {
      if !HasNaN(f.cloudAt[queryIndex]) {
        buckets := GatherMatches(f, queryIndex, buckets);
      }
      queryIndex := queryIndex + 1;
    }
    GatheredBuckets(f, |f.matches|);
  }

  /** The second pass: one fresh object per gathered list, built from it. */
  method BuildAll(buckets: map<nat, seq<Correspondence>>) returns (objects: map<nat, AdjacencyRansac>)
    ensures objects.Keys == buckets.Keys
    ensures Distinct(objects)
    ensures forall k :: k in objects ==> fresh(objects[k]) && Collected(objects[k], buckets[k])
  {
    objects := map[];
    var pending := buckets.Keys;
    while pending != {}
      invariant pending <= buckets.Keys
      invariant forall k :: k in objects <==> k in buckets && k !in pending
      invariant Distinct(objects)
      invariant forall k :: k in objects ==> fresh(objects[k]) && Collected(objects[k], buckets[k])
      decreases |pending|
    {
      var k :| k in pending;
      var o := Build(buckets[k]);
      objects := objects[k := o];
      pending := pending - {k};
    }
  }

  /** Group the matches of a frame per object: each match of a keypoint whose 3D point
      has no NaN coordinate becomes one correspondence of the object it points into.
      The correspondences are gathered per object first, then each object is built from
      its own list in order. */
  method ClusterPerObject(f: Frame) returns (objects: map<nat, AdjacencyRansac>)
    requires f.WellFormed()
    ensures forall k :: k in objects <==> Bucket(f, k, |f.matches|) != []
    ensures Distinct(objects)
    ensures forall k :: k in objects ==> fresh(objects[k]) && Collected(objects[k], Bucket(f, k, |f.matches|))
    ensures forall k :: k in objects ==> objects[k].Valid() && objects[k].Entries() == Bucket(f, k, |f.matches|)
    ensures forall k :: k in objects ==> NonDecreasing(objects[k].queryIndices)
  {
    var buckets := GatherAll(f);
    objects := BuildAll(buckets);
    forall k | k in objects
      ensures objects[k].Valid() && objects[k].Entries() == Bucket(f, k, |f.matches|)
      ensures NonDecreasing(objects[k].queryIndices)
    {
      var r := Bucket(f, k, |f.matches|);
      CollectedValid(objects[k], r);
      BucketExactly(f, k, |f.matches|);
      assert forall i :: 0 <= i < |r| ==> objects[k].queryIndices[i] == r[i].queryIndex;
    }
  }
}
