/**
  The detection step (tod::GuessGenerator::process): group the matches of a frame per
  object, and for each object, in ascending order of its key, fill the adjacency
  relations and repeatedly run RANSAC, turning every accepted fit into a pose and removing
  its keypoints from play, until a fit is rejected.
 */
module GuessGenerator {
  import opened SortedSeq
  import opened Adjacency
  import opened Geometry
  import opened RegistrationGraph
  import opened ObjectPoints

  /** The defaults of the parameters min_inliers, n_ransac_iterations and sensor_error. */
  const DefaultMinInliers: nat := 15
  const DefaultRansacIterations: nat := 1000
  const DefaultSensorError: real := 0.01

  /** One detected object: the pose of the object in the camera frame, and its id. */
  datatype PoseResult = PoseResult(R: Mat3, T: Vec3, objectId: string)

  /** The pose that the coefficients of a fit give: the transposed rotation, and the
      translation moved by it and negated. */
  function PoseOf(c: seq<real>, objectId: string): (p: PoseResult)
    requires |c| == 16
    ensures p.objectId == objectId
    ensures p.R == Transpose(RotationOf(c)) && p.T == Negate(MatVec(p.R, TranslationOf(c)))
  {
    var R := Transpose(RotationOf(c));
    PoseResult(R, Negate(MatVec(R, TranslationOf(c))), objectId)
  }

  /** The pose undoes the fit it comes from when the fitted rotation is orthonormal: a
      query point moved by the fit and then by the pose is where it started. */
  lemma {:induction false} PoseUndoesFit(c: seq<real>, p: Point3)
    requires |c| == 16 && Orthonormal(RotationOf(c))
    ensures Apply(RigidTransform(PoseOf(c, "").R, PoseOf(c, "").T),
                  Apply(RigidTransform(RotationOf(c), TranslationOf(c)), p)) == p
  {
    var rot, t := RotationOf(c), TranslationOf(c);
    var R := Transpose(rot);
    var v := Vec3(p.x, p.y, p.z);
    MatVecAdd(R, MatVec(rot, v), t);
    MatVecCompose(R, rot, v);
    assert MatVec(Identity(), v) == v;
  }

  /** The acceptance test as written: a fit is rejected when it has fewer inliers than
      min_inliers. */
  predicate AcceptsAsWritten(minInliers: nat, inliers: seq<nat>) {
    !(|inliers| < minInliers)
  }

  /** The acceptance test as intended: at least min_inliers inliers, and at least one. */
  predicate Accepts(minInliers: nat, inliers: seq<nat>) {
    |inliers| >= minInliers && inliers != []
  }

  /** With min_inliers 0 the test as written accepts the empty result of a failed
      consensus; the corrected test does not, and agrees with it for every positive
      min_inliers.  Removing the keypoints of an empty result changes nothing. */
  lemma {:induction false} AsWrittenAcceptsEmpty(valid: seq<nat>, m: AdjacencyMatrix)
    ensures AcceptsAsWritten(0, []) && !Accepts(0, [])
    ensures forall minInliers: nat, s :: minInliers > 0 ==> (Accepts(minInliers, s) <==> AcceptsAsWritten(minInliers, s))
    ensures Drop(valid, Elems([])) == valid && m.InvalidateCluster(Elems([])) == m
  {
    DropNothing(valid, Elems([]));
    InvalidateNothing(m);
  }

  /** `m` is the least element of `s`. */
  predicate IsLeast(s: set<nat>, m: nat) {
    m in s && forall j :: j in s ==> m <= j
  }

  /** A non-empty set of naturals has a least element. */
  lemma {:induction false} MinimumExists(s: set<nat>)
    requires s != {}
    ensures exists k :: IsLeast(s, k)
  {
    var x :| x in s;
    if s != {x} {
      MinimumExists(s - {x});
      var m :| IsLeast(s - {x}, m);
      var least := if x < m then x else m;
      forall j | j in s ensures least <= j {
        if j != x {
          assert j in s - {x};
        }
      }
      assert IsLeast(s, least);
    } else {
      assert IsLeast(s, x);
    }
  }

  /** The inliers of the accepted rounds, so far: each accepted, strictly increasing, taken
      from the positions `initial` that were in play at the start, no longer in play in
      `valid`, and no position in two rounds. */
  ghost predicate Taken(minInliers: nat, runs: seq<Run>, initial: seq<nat>, valid: seq<nat>) {
    (forall r :: 0 <= r < |runs| ==> Accepts(minInliers, runs[r].inliers) && StrictlyIncreasing(runs[r].inliers))
    && (forall r, x :: 0 <= r < |runs| && x in runs[r].inliers ==> x in initial && x !in valid)
    && (forall r, s, x :: 0 <= r < s < |runs| && x in runs[r].inliers ==> x !in runs[s].inliers)
  }

  /** A further accepted round whose inliers were in play and are then no longer keeps
      `Taken`, once play shrinks to a part of what it was. */
  lemma {:induction false} TakenExtend(minInliers: nat, runs: seq<Run>, initial: seq<nat>,
                                       before: seq<nat>, after: seq<nat>, run: Run)
    requires Taken(minInliers, runs, initial, before)
    requires Accepts(minInliers, run.inliers) && StrictlyIncreasing(run.inliers)
    requires forall x :: x in before ==> x in initial
    requires forall x :: x in after ==> x in before
    requires forall x :: x in run.inliers ==> x in before && x !in after
    ensures Taken(minInliers, runs + [run], initial, after)
  {
    var e := runs + [run];
    forall r, x | 0 <= r < |e| && x in e[r].inliers ensures x in initial && x !in after {
      if r < |runs| {
        assert e[r] == runs[r];
      }
    }
    forall r, s, x | 0 <= r < s < |e| && x in e[r].inliers ensures x !in e[s].inliers {
      assert e[r] == runs[r];
      if s == |runs| {
        assert x !in before;
      } else {
        assert e[s] == runs[s];
      }
    }
  }

  /** The keypoints that the given positions came from, looked up in `ids`. */
  function KeypointsAt(ids: seq<nat>, positions: seq<nat>): (r: set<nat>)
    ensures forall k :: k in r <==> exists n :: 0 <= n < |positions| && positions[n] < |ids| && ids[positions[n]] == k
  {
    set n | 0 <= n < |positions| && positions[n] < |ids| :: ids[positions[n]]
  }

  /** Taking positions in play out of play adds exactly them to the positions gone since
      the start. */
  lemma GoneExtend(initial: seq<nat>, valid: seq<nat>, removed: set<nat>)
    requires forall x :: x in valid ==> x in initial
    requires forall x :: x in removed ==> x in valid
    ensures Elems(initial) - Elems(Drop(valid, removed)) == (Elems(initial) - Elems(valid)) + removed
  {
  }

  /** R_mat(j, i) = c[4j + i], tvec(j) = c[4j + 3], then R = R_mat^T and T = -R tvec. */
  method PoseFromCoefficients(c: seq<real>) returns (R: Mat3, T: Vec3)
    requires |c| == 16
    ensures R == PoseOf(c, "").R && T == PoseOf(c, "").T
  {
    var rMat := new real[3, 3];
    var tVec := new real[3];
    var j := 0;
    while j < 3
      invariant 0 <= j <= 3
      invariant forall a, b :: 0 <= a < j && 0 <= b < 3 ==> rMat[a, b] == c[4 * a + b]
      invariant forall a :: 0 <= a < j ==> tVec[a] == c[4 * a + 3]
    {
      var i := 0;
      while i < 3
        invariant 0 <= i <= 3
        invariant forall a, b :: 0 <= a < j && 0 <= b < 3 ==> rMat[a, b] == c[4 * a + b]
        invariant forall b :: 0 <= b < i ==> rMat[j, b] == c[4 * j + b]
        invariant forall a :: 0 <= a < j ==> tVec[a] == c[4 * a + 3]
      {
        rMat[j, i] := c[4 * j + i];
        i := i + 1;
      }
      tVec[j] := c[4 * j + 3];
      j := j + 1;
    }
    var rot := Mat3(Vec3(rMat[0, 0], rMat[0, 1], rMat[0, 2]),
                    Vec3(rMat[1, 0], rMat[1, 1], rMat[1, 2]),
                    Vec3(rMat[2, 0], rMat[2, 1], rMat[2, 2]));
    assert rot == RotationOf(c);
    R := Transpose(rot);
    T := Negate(MatVec(R, Vec3(tVec[0], tVec[1], tVec[2])));
  }

  /** What the rounds on one object did: the positions in play at the start of each
      round, the RANSAC run of every accepted round, and the run of the round that was
      rejected. */
  datatype Extraction = Extraction(plays: seq<seq<nat>>, taken: seq<Run>, last: Run)

  /** One accepted round over the positions in play `before`: the RANSAC run is what Ransac
      returns for what the consensus step reported, its inliers pass the acceptance test,
      and `after` is `before` without every position carrying a keypoint of an inlier. */
  ghost predicate Round(minInliers: nat, e: real, q: seq<Point3F>, t: seq<Point3F>, ids: seq<nat>,
                        found: Consensus, fit: RigidFit, before: seq<nat>, run: Run, after: seq<nat>) {
    RansacOutcome(q, t, before, e, found, fit, run) && Accepts(minInliers, run.inliers)
    && after == Drop(before, Carrying(before, ids, KeypointsAt(ids, run.inliers)))
  }

  /** The accepted rounds on the object with key `key`, one after the other: round r works
      on `plays[r]`, where the consensus step reports `consensus(key, r, plays[r])`, and
      leaves `plays[r + 1]`. */
  ghost predicate Rounds(minInliers: nat, e: real, q: seq<Point3F>, t: seq<Point3F>, ids: seq<nat>,
                         consensus: (nat, nat, seq<nat>) -> Consensus, key: nat, fit: RigidFit,
                         plays: seq<seq<nat>>, taken: seq<Run>)
    decreases |taken|
  {
    |plays| == |taken| + 1
    && if taken == [] then true
       else
         var r := |taken| - 1;
         Rounds(minInliers, e, q, t, ids, consensus, key, fit, plays[..r + 1], taken[..r])
         && Round(minInliers, e, q, t, ids, consensus(key, r, plays[r]), fit, plays[r], taken[r], plays[r + 1])
  }

  /** One more accepted round, on what the rounds so far left, extends them. */
  lemma RoundsExtend(minInliers: nat, e: real, q: seq<Point3F>, t: seq<Point3F>, ids: seq<nat>,
                     consensus: (nat, nat, seq<nat>) -> Consensus, key: nat, fit: RigidFit,
                     plays: seq<seq<nat>>, taken: seq<Run>, run: Run, after: seq<nat>)
    requires Rounds(minInliers, e, q, t, ids, consensus, key, fit, plays, taken)
    requires Round(minInliers, e, q, t, ids, consensus(key, |taken|, plays[|taken|]), fit, plays[|taken|], run, after)
    ensures Rounds(minInliers, e, q, t, ids, consensus, key, fit, plays + [after], taken + [run])
  {
    assert (plays + [after])[..|taken| + 1] == plays;
    assert (taken + [run])[..|taken|] == taken;
  }

  /** The last accepted round, and the ones before it. */
  lemma RoundsLast(minInliers: nat, e: real, q: seq<Point3F>, t: seq<Point3F>, ids: seq<nat>,
                   consensus: (nat, nat, seq<nat>) -> Consensus, key: nat, fit: RigidFit,
                   plays: seq<seq<nat>>, taken: seq<Run>)
    requires Rounds(minInliers, e, q, t, ids, consensus, key, fit, plays, taken) && taken != []
    ensures Rounds(minInliers, e, q, t, ids, consensus, key, fit, plays[..|taken|], taken[..|taken| - 1])
    ensures Round(minInliers, e, q, t, ids, consensus(key, |taken| - 1, plays[|taken| - 1]), fit,
                  plays[|taken| - 1], taken[|taken| - 1], plays[|taken|])
  {
  }

  /** Each accepted round on its own: round r works on `plays[r]`, where the consensus
      step reports `consensus(key, r, plays[r])`, and leaves `plays[r + 1]`. */
  lemma {:induction false} RoundsAt(minInliers: nat, e: real, q: seq<Point3F>, t: seq<Point3F>, ids: seq<nat>,
                                    consensus: (nat, nat, seq<nat>) -> Consensus, key: nat, fit: RigidFit,
                                    plays: seq<seq<nat>>, taken: seq<Run>, r: nat)
    requires Rounds(minInliers, e, q, t, ids, consensus, key, fit, plays, taken)
    requires r < |taken|
    ensures |plays| == |taken| + 1
    ensures Round(minInliers, e, q, t, ids, consensus(key, r, plays[r]), fit, plays[r], taken[r], plays[r + 1])
    decreases |taken|
  {
    var n := |taken| - 1;
    RoundsLast(minInliers, e, q, t, ids, consensus, key, fit, plays, taken);
    if r != n {
      var before, earlier := plays[..n + 1], taken[..n];
      RoundsAt(minInliers, e, q, t, ids, consensus, key, fit, before, earlier, r);
      assert before[r] == plays[r] && before[r + 1] == plays[r + 1] && earlier[r] == taken[r];
    }
  }

  /** The whole work on one object: the accepted rounds, then one more round, on what they
      left, whose result the acceptance test rejects. */
  ghost predicate Extracts(minInliers: nat, e: real, q: seq<Point3F>, t: seq<Point3F>, ids: seq<nat>,
                           consensus: (nat, nat, seq<nat>) -> Consensus, key: nat, fit: RigidFit, x: Extraction) {
    Rounds(minInliers, e, q, t, ids, consensus, key, fit, x.plays, x.taken)
    && RansacOutcome(q, t, x.plays[|x.taken|], e, consensus(key, |x.taken|, x.plays[|x.taken|]), fit, x.last)
    && !Accepts(minInliers, x.last.inliers)
  }

  /** The query points, training points and keypoints of a list of correspondences. */
  function QueriesOf(c: seq<Correspondence>): (r: seq<Point3F>)
    ensures |r| == |c| && forall i :: 0 <= i < |c| ==> r[i] == c[i].query
  {
    seq(|c|, i requires 0 <= i < |c| => c[i].query)
  }

  function TrainingsOf(c: seq<Correspondence>): (r: seq<Point3F>)
    ensures |r| == |c| && forall i :: 0 <= i < |c| ==> r[i] == c[i].training
  {
    seq(|c|, i requires 0 <= i < |c| => c[i].training)
  }

  function IdsOf(c: seq<Correspondence>): (r: seq<nat>)
    ensures |r| == |c| && forall i :: 0 <= i < |c| ==> r[i] == c[i].queryIndex
  {
    seq(|c|, i requires 0 <= i < |c| => c[i].queryIndex)
  }

  /** The parallel lists of an object are the columns of its correspondences. */
  lemma EntriesColumns(o: AdjacencyRansac)
    requires o.Valid()
    ensures QueriesOf(o.Entries()) == o.queryPoints && TrainingsOf(o.Entries()) == o.trainingPoints
    ensures IdsOf(o.Entries()) == o.queryIndices
  {
  }

  /** A key whose bucket is not empty names an object id, since every match does. */
  lemma KeyNamed(frame: Frame, key: nat, objectIds: seq<string>)
    requires frame.WellFormed() && Bucket(frame, key, |frame.matches|) != []
    requires forall q, m :: 0 <= q < |frame.matches| && 0 <= m < |frame.matches[q]| ==>
               frame.matches[q][m].imgIdx < |objectIds|
    ensures key < |objectIds|
  {
    BucketExactly(frame, key, |frame.matches|);
    var entries := Bucket(frame, key, |frame.matches|);
    var c := entries[0];
    assert c in entries;
    var n :| 0 <= n < |frame.matches[c.queryIndex]| && frame.matches[c.queryIndex][n].imgIdx == key
             && c == Correspondence(frame.matches3d[c.queryIndex][n], frame.cloudAt[c.queryIndex], c.queryIndex);
  }

  /** The work on the object with key `key` of the frame, started with every one of its
      correspondences in play. */
  ghost predicate ExtractedFrom(minInliers: nat, e: real, frame: Frame, consensus: (nat, nat, seq<nat>) -> Consensus,
                                fit: RigidFit, key: nat, x: Extraction)
    requires frame.WellFormed()
  {
    var b := Bucket(frame, key, |frame.matches|);
    Extracts(minInliers, e, QueriesOf(b), TrainingsOf(b), IdsOf(b), consensus, key, fit, x)
    && x.plays[0] == Range(|b|)
  }

  /** Every keypoint of a bucket has a match list, so it lies below any bound on those. */
  lemma BucketKeyPoints(frame: Frame, key: nat, bound: nat)
    requires frame.WellFormed() && |frame.matches| <= bound
    ensures forall i :: 0 <= i < |IdsOf(Bucket(frame, key, |frame.matches|))| ==>
              IdsOf(Bucket(frame, key, |frame.matches|))[i] < bound
  {
    BucketExactly(frame, key, |frame.matches|);
    var b := Bucket(frame, key, |frame.matches|);
    forall i | 0 <= i < |b| ensures IdsOf(b)[i] < bound {
      assert b[i] in b;
    }
  }

  /** What DetectObject needs of a ready object: its key names an object id, its
      keypoints have image positions, and its lists are the columns of its bucket. */
  lemma ReadyInputs(frame: Frame, obj: AdjacencyRansac, key: nat, keypoints: seq<KeyPoint>, objectIds: seq<string>)
    requires frame.WellFormed() && |keypoints| >= |frame.matches|
    requires forall q, m :: 0 <= q < |frame.matches| && 0 <= m < |frame.matches[q]| ==>
               frame.matches[q][m].imgIdx < |objectIds|
    requires Ready(frame, obj, key)
    ensures key < |objectIds|
    ensures forall i :: 0 <= i < |obj.queryIndices| ==> obj.queryIndices[i] < |keypoints|
    ensures obj.queryPoints == QueriesOf(Bucket(frame, key, |frame.matches|))
    ensures obj.trainingPoints == TrainingsOf(Bucket(frame, key, |frame.matches|))
    ensures obj.queryIndices == IdsOf(Bucket(frame, key, |frame.matches|))
  {
    KeyNamed(frame, key, objectIds);
    EntriesColumns(obj);
    BucketKeyPoints(frame, key, |keypoints|);
  }

  /** The visited keys in turn: key `visited[i]` names an object id, the work on its object
      is `extractions[i]`, and its poses `posesPerKey[i]` are those of the fits of the
      accepted rounds, in order. */
  ghost predicate Explained(minInliers: nat, e: real, frame: Frame, consensus: (nat, nat, seq<nat>) -> Consensus,
                            fit: RigidFit, objectIds: seq<string>, visited: seq<nat>,
                            posesPerKey: seq<seq<PoseResult>>, extractions: seq<Extraction>)
    requires frame.WellFormed()
    decreases |visited|
  {
    |posesPerKey| == |visited| && |extractions| == |visited|
    && if visited == [] then true
       else
         var i := |visited| - 1;
         Explained(minInliers, e, frame, consensus, fit, objectIds, visited[..i], posesPerKey[..i], extractions[..i])
         && visited[i] < |objectIds|
         && ExtractedFrom(minInliers, e, frame, consensus, fit, visited[i], extractions[i])
         && Posed(posesPerKey[i], [], extractions[i].taken, objectIds[visited[i]])
  }

  /** One more visited key extends the explanation. */
  lemma ExplainedExtend(minInliers: nat, e: real, frame: Frame, consensus: (nat, nat, seq<nat>) -> Consensus,
                        fit: RigidFit, objectIds: seq<string>, visited: seq<nat>,
                        posesPerKey: seq<seq<PoseResult>>, extractions: seq<Extraction>,
                        key: nat, poses: seq<PoseResult>, x: Extraction)
    requires frame.WellFormed()
    requires Explained(minInliers, e, frame, consensus, fit, objectIds, visited, posesPerKey, extractions)
    requires key < |objectIds| && ExtractedFrom(minInliers, e, frame, consensus, fit, key, x)
    requires Posed(poses, [], x.taken, objectIds[key])
    ensures Explained(minInliers, e, frame, consensus, fit, objectIds, visited + [key], posesPerKey + [poses],
                      extractions + [x])
  {
    assert (visited + [key])[..|visited|] == visited;
    assert (posesPerKey + [poses])[..|visited|] == posesPerKey;
    assert (extractions + [x])[..|visited|] == extractions;
  }

  /** Each visited key on its own: the i-th visited key names an object id, the i-th
      work is that done on its object, and the i-th poses are those of its accepted
      rounds. */
  lemma {:induction false} ExplainedAt(minInliers: nat, e: real, frame: Frame,
                                       consensus: (nat, nat, seq<nat>) -> Consensus, fit: RigidFit,
                                       objectIds: seq<string>, visited: seq<nat>,
                                       posesPerKey: seq<seq<PoseResult>>, extractions: seq<Extraction>, i: nat)
    requires frame.WellFormed()
    requires Explained(minInliers, e, frame, consensus, fit, objectIds, visited, posesPerKey, extractions)
    requires i < |visited|
    ensures i < |posesPerKey| && i < |extractions| && visited[i] < |objectIds|
    ensures ExtractedFrom(minInliers, e, frame, consensus, fit, visited[i], extractions[i])
    ensures Posed(posesPerKey[i], [], extractions[i].taken, objectIds[visited[i]])
    decreases |visited|
  {
    var n := |visited| - 1;
    if i != n {
      ExplainedAt(minInliers, e, frame, consensus, fit, objectIds, visited[..n], posesPerKey[..n], extractions[..n], i);
      assert visited[..n][i] == visited[i] && posesPerKey[..n][i] == posesPerKey[i] && extractions[..n][i] == extractions[i];
    }
  }

  /** Appending the poses of one more object keeps the results the poses of the objects in
      turn. */
  lemma {:induction false} ResultsExtend(start: seq<PoseResult>, posesPerKey: seq<seq<PoseResult>>,
                                         before: seq<PoseResult>, poses: seq<PoseResult>, after: seq<PoseResult>)
    requires before == start + Flatten(posesPerKey) && after == before + poses
    ensures after == start + Flatten(posesPerKey + [poses])
  {
    FlattenAppend(posesPerKey, poses);
    assert start + Flatten(posesPerKey) + poses == start + (Flatten(posesPerKey) + poses);
  }

  class GuessGenerator {
    const minInliers: nat
    const nRansacIterations: nat
    const sensorError: real
    /** pose_results */
    var poseResults: seq<PoseResult>

    constructor (minInliers: nat, nRansacIterations: nat, sensorError: real)
      ensures this.minInliers == minInliers && this.nRansacIterations == nRansacIterations
      ensures this.sensorError == sensorError && poseResults == []
    {
      this.minInliers := minInliers;
      this.nRansacIterations := nRansacIterations;
      this.sensorError := sensorError;
      poseResults := [];
    }

    /** A generator with the declared defaults of its parameters. */
    constructor Defaults()
      ensures minInliers == DefaultMinInliers && nRansacIterations == DefaultRansacIterations
      ensures sensorError == DefaultSensorError && poseResults == []
    {
      minInliers := DefaultMinInliers;
      nRansacIterations := DefaultRansacIterations;
      sensorError := DefaultSensorError;
      poseResults := [];
    }

    /** The keypoints of the inliers: query_indices(inlier) for each inlier, in order. */
    method QueryIdsOf(obj: AdjacencyRansac, inliers: seq<nat>) returns (ids: seq<nat>)
      requires obj.Valid() && forall n :: 0 <= n < |inliers| ==> inliers[n] < |obj.queryIndices|
      ensures |ids| == |inliers|
      ensures forall n :: 0 <= n < |inliers| ==> ids[n] == obj.queryIndices[inliers[n]]
    {
      ids := [];
      var n := 0;
      while n < |inliers|
        invariant n <= |inliers| && |ids| == n
        invariant forall m :: 0 <= m < n ==> ids[m] == obj.queryIndices[inliers[m]]
      {
        ids := ids + [obj.QueryIndex(inliers[n])];
        n := n + 1;
      }
    }

    /** An accepted round: store the pose of the fit, then take every correspondence of the
        keypoints of the inliers out of play, cutting their edges.  Ghost result: the
        positions taken out. */
    method TakePose(obj: AdjacencyRansac, coefficients: seq<real>, inliers: seq<nat>, objectId: string)
      returns (ghost removed: seq<nat>)
      requires obj.Valid() && NonDecreasing(obj.queryIndices) && |coefficients| == 16
      requires inliers != [] && forall n :: 0 <= n < |inliers| ==> inliers[n] in obj.validIndices
      modifies obj`validIndices, obj`physical, obj`sample, this`poseResults
      ensures obj.Valid()
      ensures poseResults == old(poseResults) + [PoseOf(coefficients, objectId)]
      ensures Elems(removed) == Carrying(old(obj.validIndices), obj.queryIndices, KeypointsAt(obj.queryIndices, inliers))
      ensures obj.validIndices == Drop(old(obj.validIndices), Elems(removed))
      ensures obj.physical == old(obj.physical).InvalidateCluster(Elems(removed))
      ensures obj.sample == old(obj.sample).InvalidateCluster(Elems(removed))
      ensures forall x :: x in inliers ==> x in removed
      ensures |obj.validIndices| < |old(obj.validIndices)|
    {
      var R, T := PoseFromCoefficients(coefficients);
      poseResults := poseResults + [PoseResult(R, T, objectId)];
      var queryIds := QueryIdsOf(obj, inliers);
      assert Elems(queryIds) == KeypointsAt(obj.queryIndices, inliers) by {
        forall q ensures q in Elems(queryIds) <==> q in KeypointsAt(obj.queryIndices, inliers) {
          if q in KeypointsAt(obj.queryIndices, inliers) {
            var n :| 0 <= n < |inliers| && inliers[n] < |obj.queryIndices| && obj.queryIndices[inliers[n]] == q;
            assert queryIds[n] == q;
          }
        }
      }
      ghost var before := obj.validIndices;
      forall x | x in inliers ensures obj.queryIndices[x] in KeypointsAt(obj.queryIndices, inliers) {
        var n :| 0 <= n < |inliers| && inliers[n] == x;
      }
      removed := obj.InvalidateQueryIndices(queryIds);
      DropShrinks(before, Elems(removed), inliers[0]);
    }

    /** One RANSAC run on an object: the run Ransac makes, and, for an accepted result, a fit
        whose inliers are positions in play, in increasing order. */
    method Attempt(obj: AdjacencyRansac, found: Consensus, fit: RigidFit)
      returns (coefficients: seq<real>, inliers: seq<nat>, ghost run: Run)
      requires obj.Valid() && SoundConsensus(found, obj.validIndices)
      ensures run.coefficients == coefficients && run.inliers == inliers
      ensures RansacOutcome(obj.queryPoints, obj.trainingPoints, obj.validIndices, sensorError, found, fit, run)
      ensures Accepts(minInliers, inliers) ==>
                |coefficients| == 16 && StrictlyIncreasing(inliers)
                && forall n :: 0 <= n < |inliers| ==> inliers[n] in obj.validIndices
    {
      coefficients, inliers, run := obj.Ransac(sensorError, nRansacIterations, found, fit);
    }

    /** The rounds on one object whose relations are filled: take a pose from each RANSAC
        result until one is rejected.  `consensus(key, round, valid)` is what the consensus
        step reports in the given round over the given positions in play.  Ghost result: the
        positions in play at each round and the RANSAC run of each round. */
    method ExtractPoses(obj: AdjacencyRansac, objectId: string, key: nat,
                        consensus: (nat, nat, seq<nat>) -> Consensus, fit: RigidFit,
                        ghost q: seq<Point3F>, ghost t: seq<Point3F>, ghost ids: seq<nat>)
      returns (ghost x: Extraction)
      requires obj.Valid() && NonDecreasing(obj.queryIndices)
      requires obj.queryPoints == q && obj.trainingPoints == t && obj.queryIndices == ids
      requires forall k, r, v :: SoundConsensus(consensus(k, r, v), v)
      modifies obj`validIndices, obj`physical, obj`sample, this`poseResults
      ensures obj.Valid()
      ensures Extracts(minInliers, sensorError, q, t, ids, consensus, key, fit, x)
      ensures x.plays[0] == old(obj.validIndices) && x.plays[|x.taken|] == obj.validIndices
      ensures Posed(poseResults, old(poseResults), x.taken, objectId)
      ensures obj.physical == old(obj.physical).InvalidateCluster(Elems(old(obj.validIndices)) - Elems(obj.validIndices))
      ensures obj.sample == old(obj.sample).InvalidateCluster(Elems(old(obj.validIndices)) - Elems(obj.validIndices))
      ensures Taken(minInliers, x.taken, old(obj.validIndices), obj.validIndices)
    {
      ghost var initial, physical0, sample0 := obj.validIndices, obj.physical, obj.sample;
      ghost var plays: seq<seq<nat>> := [initial];
      ghost var taken: seq<Run> := [];
      ghost var last: Run;
      InvalidateNothing(physical0);
      InvalidateNothing(sample0);
      assert Elems(initial) - Elems(initial) == {};
      var round := 0;
      while true
        invariant obj.Valid() && obj.queryPoints == q && obj.trainingPoints == t && obj.queryIndices == ids
        invariant Rounds(minInliers, sensorError, q, t, ids, consensus, key, fit, plays, taken)
        invariant plays[0] == initial && plays[|taken|] == obj.validIndices && round == |taken|
        invariant forall v :: v in obj.validIndices ==> v in initial
        invariant Posed(poseResults, old(poseResults), taken, objectId)
        invariant Taken(minInliers, taken, initial, obj.validIndices)
        invariant obj.physical == physical0.InvalidateCluster(Elems(initial) - Elems(obj.validIndices))
        invariant obj.sample == sample0.InvalidateCluster(Elems(initial) - Elems(obj.validIndices))
        decreases |obj.validIndices|
      {
        var found := consensus(key, round, obj.validIndices);
        var coefficients, inliers, run := Attempt(obj, found, fit);
        if !Accepts(minInliers, inliers) {
          last := run;
          break;
        }
        plays, taken := AcceptRound(obj, objectId, key, consensus, fit, coefficients, inliers, run,
                                    initial, physical0, sample0, old(poseResults), plays, taken, q, t, ids);
        round := round + 1;
      }
      x := Extraction(plays, taken, last);
    }

    /** An accepted round of ExtractPoses: take its pose and its keypoints out of play, and
        record the round.  The ghost parameters are the rounds so far, and what was in play,
        related and stored before the first. */
    method AcceptRound(obj: AdjacencyRansac, objectId: string, key: nat,
                       consensus: (nat, nat, seq<nat>) -> Consensus, fit: RigidFit,
                       coefficients: seq<real>, inliers: seq<nat>, ghost run: Run,
                       ghost initial: seq<nat>, ghost physical0: AdjacencyMatrix, ghost sample0: AdjacencyMatrix,
                       ghost start: seq<PoseResult>, ghost plays: seq<seq<nat>>, ghost taken: seq<Run>,
                       ghost q: seq<Point3F>, ghost t: seq<Point3F>, ghost ids: seq<nat>)
      returns (ghost plays': seq<seq<nat>>, ghost taken': seq<Run>)
      requires obj.Valid() && NonDecreasing(obj.queryIndices)
      requires obj.queryPoints == q && obj.trainingPoints == t && obj.queryIndices == ids
      requires Rounds(minInliers, sensorError, q, t, ids, consensus, key, fit, plays, taken)
      requires plays[0] == initial && plays[|taken|] == obj.validIndices
      requires forall v :: v in obj.validIndices ==> v in initial
      requires Posed(poseResults, start, taken, objectId) && Taken(minInliers, taken, initial, obj.validIndices)
      requires obj.physical == physical0.InvalidateCluster(Elems(initial) - Elems(obj.validIndices))
      requires obj.sample == sample0.InvalidateCluster(Elems(initial) - Elems(obj.validIndices))
      requires run.coefficients == coefficients && run.inliers == inliers
      requires RansacOutcome(q, t, obj.validIndices, sensorError,
                             consensus(key, |taken|, obj.validIndices), fit, run)
      requires Accepts(minInliers, inliers) && |coefficients| == 16 && StrictlyIncreasing(inliers)
      requires forall n :: 0 <= n < |inliers| ==> inliers[n] in obj.validIndices
      modifies obj`validIndices, obj`physical, obj`sample, this`poseResults
      ensures obj.Valid() && |obj.validIndices| < |old(obj.validIndices)| && |taken'| == |taken| + 1
      ensures Rounds(minInliers, sensorError, q, t, ids, consensus, key, fit, plays', taken')
      ensures plays'[0] == initial && plays'[|taken'|] == obj.validIndices
      ensures forall v :: v in obj.validIndices ==> v in initial
      ensures Posed(poseResults, start, taken', objectId) && Taken(minInliers, taken', initial, obj.validIndices)
      ensures obj.physical == physical0.InvalidateCluster(Elems(initial) - Elems(obj.validIndices))
      ensures obj.sample == sample0.InvalidateCluster(Elems(initial) - Elems(obj.validIndices))
    {
      ghost var before, posed := obj.validIndices, poseResults;
      ghost var removed := TakePose(obj, coefficients, inliers, objectId);
      RoundsExtend(minInliers, sensorError, q, t, ids, consensus, key, fit, plays, taken, run, obj.validIndices);
      TakenExtend(minInliers, taken, initial, before, obj.validIndices, run);
      PosedExtend(start, posed, poseResults, taken, run, objectId);
      GoneExtend(initial, before, Elems(removed));
      InvalidateCompose(physical0, Elems(initial) - Elems(before), Elems(removed));
      InvalidateCompose(sample0, Elems(initial) - Elems(before), Elems(removed));
      plays', taken' := plays + [obj.validIndices], taken + [run];
    }

    /** The work on one object: fill its adjacency relations, take its poses, and clear the
        relations. */
    method ExtractObject(obj: AdjacencyRansac, keypoints: seq<KeyPoint>, span: real, objectId: string, key: nat,
                         consensus: (nat, nat, seq<nat>) -> Consensus, fit: RigidFit, sqrt: real -> real,
                         ghost q: seq<Point3F>, ghost t: seq<Point3F>, ghost ids: seq<nat>)
      returns (ghost x: Extraction)
      requires obj.Valid() && NonDecreasing(obj.queryIndices)
      requires obj.queryPoints == q && obj.trainingPoints == t && obj.queryIndices == ids
      requires forall i :: 0 <= i < |obj.queryIndices| ==> obj.queryIndices[i] < |keypoints|
      requires forall k, r, v :: SoundConsensus(consensus(k, r, v), v)
      modifies obj`validIndices, obj`physical, obj`sample, this`poseResults
      ensures obj.Valid() && obj.physical == Cleared() && obj.sample == Cleared()
      ensures Extracts(minInliers, sensorError, q, t, ids, consensus, key, fit, x)
      ensures x.plays[0] == old(obj.validIndices) && x.plays[|x.taken|] == obj.validIndices
      ensures Posed(poseResults, old(poseResults), x.taken, objectId)
      ensures Taken(minInliers, x.taken, old(obj.validIndices), obj.validIndices)
    {
      obj.FillAdjacency(keypoints, span, sensorError, sqrt);
      x := ExtractPoses(obj, objectId, key, consensus, fit, q, t, ids);
      obj.ClearAdjacency();
    }

    /** The body of the loop over the objects: look up the id and the span of the object
        with key `key`, and take its poses.  Ghost results: the poses it adds and the work
        it did.  The work is stated as `== true` to keep its proof one step. */
    method DetectObject(frame: Frame, obj: AdjacencyRansac, key: nat, keypoints: seq<KeyPoint>,
                        objectIds: seq<string>, spans: map<string, real>,
                        consensus: (nat, nat, seq<nat>) -> Consensus, fit: RigidFit, sqrt: real -> real)
      returns (ghost poses: seq<PoseResult>, ghost x: Extraction)
      requires frame.WellFormed() && |keypoints| >= |frame.matches|
      requires forall q, m :: 0 <= q < |frame.matches| && 0 <= m < |frame.matches[q]| ==> frame.matches[q][m].imgIdx < |objectIds|
      requires forall i :: 0 <= i < |objectIds| ==> objectIds[i] in spans
      requires forall k, r, v :: SoundConsensus(consensus(k, r, v), v)
      requires Ready(frame, obj, key)
      modifies obj`validIndices, obj`physical, obj`sample, this`poseResults
      ensures key < |objectIds|
      ensures poseResults == old(poseResults) + poses
      ensures ExtractedFrom(minInliers, sensorError, frame, consensus, fit, key, x) == true
      ensures Posed(poses, [], x.taken, objectIds[key])
    {
      ReadyInputs(frame, obj, key, keypoints, objectIds);
      ghost var initial := obj.validIndices;
      var objectId := objectIds[key];
      ghost var start := poseResults;
      ghost var b := Bucket(frame, key, |frame.matches|);
      x := ExtractObject(obj, keypoints, spans[objectId], objectId, key, consensus, fit, sqrt,
                         QueriesOf(b), TrainingsOf(b), IdsOf(b));
      poses := PosesOf(x.taken, objectId);
      assert [] + poses == poses;
      assert start + PosesOf(x.taken, objectId) == poseResults;
    }

    /** The poses of the frame: nothing when the point cloud is empty; otherwise the matches
        are grouped per object and every object, in ascending order of its key, adds the
        poses of its accepted rounds.  Ghost results: the keys in the order they were
        visited, the poses each added, and the work on each. */
    method Process(cloudEmpty: bool, keypoints: seq<KeyPoint>, pointCloud: KeyPoint -> Point3F,
                   matches: seq<seq<DMatch>>, matches3d: seq<seq<Point3F>>,
                   objectIds: seq<string>, spans: map<string, real>,
                   consensus: (nat, nat, seq<nat>) -> Consensus, fit: RigidFit, sqrt: real -> real)
      returns (ghost visited: seq<nat>, ghost posesPerKey: seq<seq<PoseResult>>, ghost extractions: seq<Extraction>)
      requires |keypoints| >= |matches| && |matches3d| >= |matches|
      requires forall q :: 0 <= q < |matches| ==> |matches3d[q]| >= |matches[q]|
      requires forall q, m :: 0 <= q < |matches| && 0 <= m < |matches[q]| ==> matches[q][m].imgIdx < |objectIds|
      requires forall i :: 0 <= i < |objectIds| ==> objectIds[i] in spans
      requires forall k, r, v :: SoundConsensus(consensus(k, r, v), v)
      modifies this`poseResults
      ensures cloudEmpty ==> poseResults == [] && visited == []
      ensures !cloudEmpty ==>
                forall k :: k in visited <==> Bucket(FrameOf(keypoints, pointCloud, matches, matches3d), k, |matches|) != []
      ensures StrictlyIncreasing(visited) && poseResults == Flatten(posesPerKey)
      ensures !cloudEmpty ==>
                Explained(minInliers, sensorError, FrameOf(keypoints, pointCloud, matches, matches3d), consensus, fit,
                          objectIds, visited, posesPerKey, extractions)
    {
      poseResults := [];
      visited, posesPerKey, extractions := [], [], [];
      if cloudEmpty {
        return;
      }
      var frame := FrameOf(keypoints, pointCloud, matches, matches3d);
      var objects := ClusterPerObject(frame);
      visited, posesPerKey, extractions := DetectAll(frame, objects, set k | k in objects :: objects[k], keypoints,
                                                     objectIds, spans, consensus, fit, sqrt);
      assert [] + Flatten(posesPerKey) == Flatten(posesPerKey);
    }

    /** The loop over the objects, in ascending order of their keys. */
    method DetectAll(frame: Frame, objects: map<nat, AdjacencyRansac>, ghost footprint: set<AdjacencyRansac>,
                     keypoints: seq<KeyPoint>, objectIds: seq<string>, spans: map<string, real>,
                     consensus: (nat, nat, seq<nat>) -> Consensus, fit: RigidFit, sqrt: real -> real)
      returns (ghost visited: seq<nat>, ghost posesPerKey: seq<seq<PoseResult>>, ghost extractions: seq<Extraction>)
      requires Scene(frame, objects, footprint, keypoints, objectIds, spans, consensus)
      requires AllReady(frame, objects, objects.Keys)
      modifies footprint, this`poseResults
      ensures Elems(visited) == objects.Keys && StrictlyIncreasing(visited)
      ensures poseResults == old(poseResults) + Flatten(posesPerKey)
      ensures Explained(minInliers, sensorError, frame, consensus, fit, objectIds, visited, posesPerKey, extractions)
    {
      visited, posesPerKey, extractions := [], [], [];
      ghost var start := poseResults;
      var pending := objects.Keys;
      while pending != {}
        invariant Before(objects.Keys, visited, pending)
        invariant AllReady(frame, objects, pending)
        invariant poseResults == start + Flatten(posesPerKey)
        invariant Explained(minInliers, sensorError, frame, consensus, fit, objectIds, visited, posesPerKey, extractions)
        decreases |pending|
      {
        pending, visited, posesPerKey, extractions :=
          VisitNext(frame, objects, footprint, keypoints, objectIds, spans, consensus, fit, sqrt,
                    pending, visited, posesPerKey, extractions, start);
      }
    }

    /** One turn of the loop over the objects: the object with the least pending key gives
        its poses. */
    method VisitNext(frame: Frame, objects: map<nat, AdjacencyRansac>, ghost footprint: set<AdjacencyRansac>,
                     keypoints: seq<KeyPoint>, objectIds: seq<string>, spans: map<string, real>,
                     consensus: (nat, nat, seq<nat>) -> Consensus, fit: RigidFit, sqrt: real -> real,
                     pending: set<nat>, ghost visited: seq<nat>, ghost posesPerKey: seq<seq<PoseResult>>,
                     ghost extractions: seq<Extraction>, ghost start: seq<PoseResult>)
      returns (pending': set<nat>, ghost visited': seq<nat>, ghost posesPerKey': seq<seq<PoseResult>>,
               ghost extractions': seq<Extraction>)
      requires Scene(frame, objects, footprint, keypoints, objectIds, spans, consensus)
      requires pending != {} && Before(objects.Keys, visited, pending)
      requires AllReady(frame, objects, pending)
      requires poseResults == start + Flatten(posesPerKey)
      requires Explained(minInliers, sensorError, frame, consensus, fit, objectIds, visited, posesPerKey, extractions)
      modifies footprint, this`poseResults
      ensures Before(objects.Keys, visited', pending') && |pending'| < |pending|
      ensures AllReady(frame, objects, pending')
      ensures poseResults == start + Flatten(posesPerKey')
      ensures Explained(minInliers, sensorError, frame, consensus, fit, objectIds, visited', posesPerKey', extractions')
    {
      MinimumExists(pending);
      var key :| IsLeast(pending, key);
      ghost var before := poseResults;
      ghost var poses, x := DetectObject(frame, objects[key], key, keypoints, objectIds, spans, consensus, fit, sqrt);
      forall k | k in pending - {key} ensures Ready(frame, objects[k], k) {
        assert objects[k] != objects[key];
        assert unchanged(objects[k]);
      }
      VisitedExtend(objects.Keys, visited, pending, key);
      ResultsExtend(start, posesPerKey, before, poses, poseResults);
      ExplainedExtend(minInliers, sensorError, frame, consensus, fit, objectIds, visited, posesPerKey, extractions,
                      key, poses, x);
      pending', visited', posesPerKey', extractions' := pending - {key}, visited + [key], posesPerKey + [poses], extractions + [x];
    }
  }

  /** The loop over the objects: its inputs, and one distinct object per key, each inside
      the footprint the loop may change. */
  ghost predicate Scene(frame: Frame, objects: map<nat, AdjacencyRansac>, footprint: set<AdjacencyRansac>,
                        keypoints: seq<KeyPoint>, objectIds: seq<string>, spans: map<string, real>,
                        consensus: (nat, nat, seq<nat>) -> Consensus) {
    Inputs(frame, keypoints, objectIds, spans, consensus) && Distinct(objects)
    && forall k :: k in objects ==> objects[k] in footprint
  }

  /** What the loop over the objects demands of its inputs: the frame is well formed, every
      keypoint has its image position, every match names an object id, every id has a
      span, and the consensus step only reports positions in play. */
  ghost predicate Inputs(frame: Frame, keypoints: seq<KeyPoint>, objectIds: seq<string>, spans: map<string, real>,
                         consensus: (nat, nat, seq<nat>) -> Consensus) {
    frame.WellFormed() && |keypoints| >= |frame.matches|
    && (forall q, m :: 0 <= q < |frame.matches| && 0 <= m < |frame.matches[q]| ==>
          frame.matches[q][m].imgIdx < |objectIds|)
    && (forall i :: 0 <= i < |objectIds| ==> objectIds[i] in spans)
    && (forall k, r, v :: SoundConsensus(consensus(k, r, v), v))
  }

  /** An object as ClusterPerObject leaves it for key `k`: consistent, its keypoints in
      ascending order, holding exactly the non-empty bucket of `k`, every position in play. */
  ghost predicate Ready(frame: Frame, obj: AdjacencyRansac, k: nat)
    reads obj
    requires frame.WellFormed()
  {
    obj.Valid() && NonDecreasing(obj.queryIndices)
    && obj.Entries() == Bucket(frame, k, |frame.matches|) && obj.Entries() != []
    && obj.validIndices == Range(|obj.queryIndices|)
  }

  /** The objects of the pending keys are ready. */
  ghost predicate AllReady(frame: Frame, objects: map<nat, AdjacencyRansac>, pending: set<nat>)
    reads objects.Values
    requires frame.WellFormed()
  {
    forall k {:trigger Ready(frame, objects[k], k)} :: k in pending && k in objects ==> Ready(frame, objects[k], k)
  }

  /** `keys` are the pending keys and the visited ones, the visited ones in increasing
      order and below every pending one. */
  ghost predicate Before(keys: set<nat>, visited: seq<nat>, pending: set<nat>) {
    keys == pending + Elems(visited) && StrictlyIncreasing(visited)
    && (visited != [] ==> forall k :: k in pending ==> visited[|visited| - 1] < k)
  }

  /** Visiting the least pending key next keeps the order. */
  lemma {:induction false} VisitedExtend(keys: set<nat>, visited: seq<nat>, pending: set<nat>, key: nat)
    requires Before(keys, visited, pending) && IsLeast(pending, key)
    ensures Before(keys, visited + [key], pending - {key})
  {
    assert Elems(visited + [key]) == Elems(visited) + {key};
    forall y | y in visited ensures y < key {
      var i :| 0 <= i < |visited| && visited[i] == y;
      if i < |visited| - 1 {
        assert visited[i] < visited[|visited| - 1];
      }
    }
    AppendIncreasing(visited, key);
  }

  /** The poses of the objects, one object after the other. */
  function Flatten(s: seq<seq<PoseResult>>): seq<PoseResult> {
    if s == [] then [] else Flatten(s[..|s| - 1]) + s[|s| - 1]
  }

  /** One more list goes at the end. */
  lemma {:induction false} FlattenAppend(s: seq<seq<PoseResult>>, x: seq<PoseResult>)
    ensures Flatten(s + [x]) == Flatten(s) + x
  {
    assert (s + [x])[..|s|] == s;
  }

  /** The poses of the fits of a list of RANSAC runs, all for the same object. */
  function PosesOf(runs: seq<Run>, objectId: string): (r: seq<PoseResult>)
    requires forall i :: 0 <= i < |runs| ==> |runs[i].coefficients| == 16
    ensures |r| == |runs|
    ensures forall i :: 0 <= i < |runs| ==> r[i] == PoseOf(runs[i].coefficients, objectId)
  {
    if runs == [] then []
    else PosesOf(runs[..|runs| - 1], objectId) + [PoseOf(runs[|runs| - 1].coefficients, objectId)]
  }

  /** One more run adds the pose of its fit at the end. */
  lemma {:induction false} PosesOfAppend(runs: seq<Run>, run: Run, objectId: string)
    requires (forall i :: 0 <= i < |runs| ==> |runs[i].coefficients| == 16) && |run.coefficients| == 16
    ensures PosesOf(runs + [run], objectId) == PosesOf(runs, objectId) + [PoseOf(run.coefficients, objectId)]
  {
    assert (runs + [run])[..|runs|] == runs;
  }

  /** `results` is `start` followed by the poses of the fits of `runs`, each fit a 4x4
      matrix. */
  ghost predicate Posed(results: seq<PoseResult>, start: seq<PoseResult>, runs: seq<Run>, objectId: string) {
    (forall i :: 0 <= i < |runs| ==> |runs[i].coefficients| == 16)
    && results == start + PosesOf(runs, objectId)
  }

  /** Pushing the pose of one more fit keeps the results those of the runs. */
  lemma {:induction false} PosedExtend(start: seq<PoseResult>, before: seq<PoseResult>, after: seq<PoseResult>,
                                       runs: seq<Run>, run: Run, objectId: string)
    requires Posed(before, start, runs, objectId) && |run.coefficients| == 16
    requires after == before + [PoseOf(run.coefficients, objectId)]
    ensures Posed(after, start, runs + [run], objectId)
  {
    PosesOfAppend(runs, run, objectId);
    assert start + PosesOf(runs, objectId) + [PoseOf(run.coefficients, objectId)]
        == start + (PosesOf(runs, objectId) + [PoseOf(run.coefficients, objectId)]);
  }

  /** The points of the cloud under each keypoint, with the matches: what ClusterPerObject
      reads. */
  function FrameOf(keypoints: seq<KeyPoint>, pointCloud: KeyPoint -> Point3F,
                   matches: seq<seq<DMatch>>, matches3d: seq<seq<Point3F>>): (f: Frame)
    ensures |f.cloudAt| == |keypoints| && f.matches == matches && f.matches3d == matches3d
    ensures forall i :: 0 <= i < |keypoints| ==> f.cloudAt[i] == pointCloud(keypoints[i])
  {
    Frame(seq(|keypoints|, i requires 0 <= i < |keypoints| => pointCloud(keypoints[i])), matches, matches3d)
  }
}
