/**
  The sample-consensus model that the detector hands to RANSAC
  (tod::SampleConsensusModelRegistrationGraph).  It draws samples that are cliques of the
  sample adjacency, pushes points that cannot share a cluster with the sample out of
  reach, and keeps an inlier set only when it is large enough and well spread.
 */
module RegistrationGraph {
  import opened SortedSeq
  import opened Adjacency
  import opened Geometry

  /** std::numeric_limits<double>::max(), (2^53 - 1) * 2^971. */
  const DoubleMax: real := 179769313486231570814527423731704356798070567525844996598917476803157260780028538760589558632766878171540458953514382464234321326889464182768467546703537516986049910576551282076245490090389328944075868508455133942304583236903222948165808559332123348274797826204144723168738177180919299881250404026184124858368.0

  /** Fewest well-spread points an inlier set must contain. */
  const MinimalSize: nat := 8

  /** maximum_clique::Graph::FindClique(vertices, minimal_size): some set of vertices;
      the model only looks at how many it returns. */
  type CliqueFinder = (AdjacencyMatrix, nat) -> seq<nat>

  /** The rigid transform fitted to the source and target points at the given indices
      (the closed-form SVD solution). */
  type RigidFit = (seq<Point3F>, seq<Point3F>, seq<nat>) -> RigidTransform

  /** Both members are positions of a list `f` and their entries are sample-adjacent. */
  predicate InducedEdge(sample: AdjacencyMatrix, f: seq<nat>, a: nat, b: nat) {
    a < |f| && b < |f| && a != b && sample.Test(f[a], f[b])
  }

  /** The graph on the positions of `f` that relates positions whose entries are
      sample-adjacent. */
  function InducedGraph(sample: AdjacencyMatrix, f: seq<nat>): (g: AdjacencyMatrix)
    ensures g.size == |f|
    ensures forall a: nat, b: nat :: g.Test(a, b) <==> InducedEdge(sample, f, a, b)
  {
    AdjacencyMatrix(|f|, set a: nat, b: nat | a < |f| && b < |f| && InducedEdge(sample, f, a, b) :: (a, b))
  }

  /** If `s` belongs to a clique `c` drawn from `pool`, the rest of `c` is a clique, one
      smaller, drawn from the members of `pool` adjacent to `s`. */
  lemma CliqueThroughPick(m: AdjacencyMatrix, pool: seq<nat>, s: nat, c: set<nat>)
    requires m.Valid() && IsClique(m, c) && c <= Elems(pool)
    ensures s in c ==>
              c - {s} <= Elems(Keep(pool, m.Neighbors(s))) && |c - {s}| == |c| - 1 && IsClique(m, c - {s})
  {
    if s in c {
      CliqueWithout(m, c, s);
    }
  }

  /** Nothing of positive size fits in an empty pool. */
  lemma EmptyPoolNoClique(m: AdjacencyMatrix, pool: set<nat>, k: nat)
    requires pool == {} && k > 0
    ensures NoCliqueOfSize(m, pool, k)
  {
    forall c: set<nat> | c <= pool ensures |c| != k {
      assert c == {};
    }
  }

  class SampleConsensusModelRegistrationGraph {
    /** The source cloud (query points). */
    const input: seq<Point3F>
    const physical: AdjacencyMatrix
    const sample: AdjacencyMatrix
    /** The indices RANSAC works on (ascending). */
    const indices: seq<nat>
    const threshold: real
    /** The indices a sample may be drawn from. */
    var samplePool: seq<nat>
    /** The last sample drawn (samples_). */
    var samples: seq<nat>
    var bestInlierNumber: nat

    /** The indices BuildNeighbors admits: at least three sample neighbours and, when an
        index list was given, listed in it. */
    predicate InPool(j: nat) {
      j < sample.size && |sample.Neighbors(j)| >= 3 && (indices == [] || j in indices)
    }

    ghost predicate Valid()
      reads this
    {
      physical.Valid() && sample.Valid() && StrictlyIncreasing(indices)
      && StrictlyIncreasing(samplePool) && (forall j :: j in samplePool <==> InPool(j))
    }

    /** SampleConsensusModelRegistrationGraph(cloud, indices, threshold, physical_adjacency,
        sample_adjacency). */
    constructor (input: seq<Point3F>, indices: seq<nat>, threshold: real,
                 physical: AdjacencyMatrix, sample: AdjacencyMatrix)
      requires physical.Valid() && sample.Valid() && StrictlyIncreasing(indices)
      ensures this.input == input && this.indices == indices && this.threshold == threshold
      ensures this.physical == physical && this.sample == sample
      ensures samples == [] && bestInlierNumber == 0
      ensures Valid()
    {
      this.input := input;
      this.indices := indices;
      this.threshold := threshold;
      this.physical := physical;
      this.sample := sample;
      samplePool := [];
      samples := [];
      bestInlierNumber := 0;
      new;
      BuildNeighbors();
    }

    /** Collect, in ascending order, the indices with at least three sample neighbours,
        then keep only those in `indices` when that list is not empty. */
    method BuildNeighbors()
      requires samplePool == [] && StrictlyIncreasing(indices)
      modifies this`samplePool
      ensures StrictlyIncreasing(samplePool)
      ensures forall j :: j in samplePool <==> InPool(j)
    {
      var j := 0;
      while j < sample.size
        invariant j <= sample.size
        invariant StrictlyIncreasing(samplePool)
        invariant forall x: nat :: x in samplePool <==> x < j && |sample.Neighbors(x)| >= 3
      {
        var size := |sample.Neighbors(j)|;
        if size >= 3 {
          AppendIncreasing(samplePool, j);
          samplePool := samplePool + [j];
        }
        j := j + 1;
      }
      if indices != [] {
        KeepIncreasing(samplePool, Elems(indices));
        samplePool := Keep(samplePool, Elems(indices));
      }
    }

    /** Draw `nSamples` pairwise sample-adjacent indices from `validSamples`, picking one
        member at random, recursing on its neighbours in the pool, and dropping it from the
        pool when that fails.  Returns the success flag, the pool as left behind, and the
        sample (the picks in reverse order). */
    method DrawIndexSampleHelper(validSamples: seq<nat>, nSamples: nat, samples: seq<nat>)
      returns (ok: bool, validOut: seq<nat>, samplesOut: seq<nat>)
      requires sample.Valid() && StrictlyIncreasing(validSamples)
      decreases nSamples
      ensures ok <==> !NoCliqueOfSize(sample, Elems(validSamples), nSamples)
      ensures nSamples == 0 ==> validOut == validSamples && samplesOut == samples
      ensures ok && nSamples > 0 ==>
                |samplesOut| == nSamples && NoDuplicates(samplesOut)
                && Elems(samplesOut) <= Elems(validSamples) && IsClique(sample, Elems(samplesOut))
      ensures ok && nSamples > 0 ==>
                StrictlyIncreasing(validOut) && Elems(validOut) <= Elems(validSamples)
                && forall v, x :: v in validOut && x in samplesOut ==> sample.Test(v, x)
      ensures !ok ==> validOut == [] && samplesOut == samples
    {
      if nSamples == 0 {
        var none: set<nat> := {};
        assert IsClique(sample, none) && none <= Elems(validSamples) && |none| == nSamples;
        return true, validSamples, samples;
      }
      if validSamples == [] {
        EmptyPoolNoClique(sample, Elems(validSamples), nSamples);
        return false, validSamples, samples;
      }
      var pool := validSamples;
      while pool != []
        invariant StrictlyIncreasing(pool) && Elems(pool) <= Elems(validSamples)
        invariant forall c :: c <= Elems(validSamples) && |c| == nSamples && IsClique(sample, c) ==> c <= Elems(pool)
        decreases |pool|
      {
        var k :| 0 <= k < |pool|;
        var s := pool[k];
        var newValid := Keep(pool, sample.Neighbors(s));
        KeepIncreasing(pool, sample.Neighbors(s));
        var subOk, subValid, newSamples := DrawIndexSampleHelper(newValid, nSamples - 1, []);
        if subOk {
          Picked(validSamples, pool, s, newValid, subValid, newSamples, nSamples);
          return true, subValid, newSamples + [s];
        }
        forall c | c <= Elems(validSamples) && |c| == nSamples && IsClique(sample, c)
          ensures c <= Elems(Drop(pool, {s}))
        {
          CliqueThroughPick(sample, pool, s, c);
        }
        DropShrinks(pool, {s}, s);
        DropIncreasing(pool, {s});
        pool := Drop(pool, {s});
      }
      EmptyPoolNoClique(sample, Elems(pool), nSamples);
      return false, pool, samples;
    }

    /** What a successful recursion on the neighbours of `s` gives at this level. */
    lemma Picked(validSamples: seq<nat>, pool: seq<nat>, s: nat, newValid: seq<nat>,
                 subValid: seq<nat>, newSamples: seq<nat>, n: nat)
      requires sample.Valid() && n > 0 && s in pool && Elems(pool) <= Elems(validSamples)
      requires newValid == Keep(pool, sample.Neighbors(s)) && StrictlyIncreasing(newValid)
      requires n - 1 == 0 ==> subValid == newValid && newSamples == []
      requires n - 1 > 0 ==>
                 |newSamples| == n - 1 && NoDuplicates(newSamples)
                 && Elems(newSamples) <= Elems(newValid) && IsClique(sample, Elems(newSamples))
      requires n - 1 > 0 ==>
                 StrictlyIncreasing(subValid) && Elems(subValid) <= Elems(newValid)
                 && forall v, x :: v in subValid && x in newSamples ==> sample.Test(v, x)
      ensures |newSamples + [s]| == n && NoDuplicates(newSamples + [s])
      ensures Elems(newSamples + [s]) <= Elems(validSamples) && IsClique(sample, Elems(newSamples + [s]))
      ensures StrictlyIncreasing(subValid) && Elems(subValid) <= Elems(validSamples)
      ensures forall v, x :: v in subValid && x in newSamples + [s] ==> sample.Test(v, x)
      ensures !NoCliqueOfSize(sample, Elems(validSamples), n)
    {
      var out := newSamples + [s];
      assert forall x :: x in newSamples ==> x in sample.Neighbors(s);
      assert forall x :: x in out <==> x in newSamples || x == s;
      forall i, j | 0 <= i < j < |out| ensures out[i] != out[j] {
        if j == |out| - 1 {
          assert out[i] in newSamples;
        }
      }
      forall x, y | x in Elems(out) && y in Elems(out) && x != y ensures sample.Test(x, y) {
        if x == s {
          assert y in sample.Neighbors(s);
        } else if y == s {
          assert x in sample.Neighbors(s);
        }
      }
      forall v, x | v in subValid && x in out ensures sample.Test(v, x) {
        if x == s {
          assert v in sample.Neighbors(s);
        }
      }
      DistinctSetSize(out);
    }

    /** Draw a sample of the incoming sample's size from a copy of the pool; on success it
        becomes the current sample.  The draw writes through to the caller's vector, which
        `written` returns: the drawn sample on success, the incoming one unchanged
        otherwise. */
    method IsSampleGood(incoming: seq<nat>) returns (good: bool, written: seq<nat>)
      requires Valid()
      modifies this`samples
      ensures good <==> !NoCliqueOfSize(sample, Elems(samplePool), |incoming|)
      ensures good ==> |samples| == |incoming| && NoDuplicates(samples)
                       && Elems(samples) <= Elems(samplePool) && IsClique(sample, Elems(samples))
      ensures good ==> written == samples
      ensures !good ==> samples == old(samples) && written == incoming
    {
      var validSamples := samplePool;
      var sampleSize := |incoming|;
      var newValid;
      good, newValid, written := DrawIndexSampleHelper(validSamples, sampleSize, incoming);
      if good {
        samples := written;
      }
    }

    /** Some member of the current sample, other than `index` itself, is not physically
        adjacent to `index`. */
    predicate SeparatedFromSample(index: nat)
      reads this`samples
    {
      exists s :: s in samples && s != index && !physical.Test(index, s)
    }

    /** The base distances, except that an index which cannot share a cluster with the
        current sample is pushed to the largest double. */
    method GetDistancesToModel(base: seq<real>) returns (distances: seq<real>)
      requires |base| == |indices|
      ensures |distances| == |indices|
      ensures forall i :: 0 <= i < |indices| && SeparatedFromSample(indices[i]) ==> distances[i] == DoubleMax
      ensures forall i :: 0 <= i < |indices| && !SeparatedFromSample(indices[i]) ==> distances[i] == base[i]
    {
      distances := base;
      var i := 0;
      while i < |indices|
        invariant i <= |indices| && |distances| == |indices|
        invariant forall k :: 0 <= k < i && SeparatedFromSample(indices[k]) ==> distances[k] == DoubleMax
        invariant forall k :: 0 <= k < i && !SeparatedFromSample(indices[k]) ==> distances[k] == base[k]
        invariant forall k :: i <= k < |indices| ==> distances[k] == base[k]
      {
        ghost var before := distances;
        var p := 0;
        while p < |samples|
          invariant p <= |samples| && |distances| == |indices|
          invariant forall q :: 0 <= q < p ==> samples[q] == indices[i] || physical.Test(indices[i], samples[q])
          invariant distances == before
        {
          var s := samples[p];
          if s == indices[i] {
            p := p + 1;
            continue;
          }
          if !physical.Test(indices[i], s) {
            distances := distances[i := DoubleMax];
            break;
          }
          p := p + 1;
        }
        i := i + 1;
      }
    }

    /** `x` is physically adjacent to every member of the current sample that comes before
        the first occurrence of `x` in it: what the inlier filter lets through. */
    predicate Admitted(x: nat)
      reads this`samples
    {
      forall p :: 0 <= p < |samples| && (forall q :: 0 <= q <= p ==> samples[q] != x) ==> physical.Test(x, samples[p])
    }

    function AdmittedOf(possible: seq<nat>): (a: set<nat>)
      reads this`samples
      ensures forall x :: x in a <==> x in possible && Admitted(x)
    {
      set x | x in possible && Admitted(x)
    }

    /** The threshold inliers that the adjacency filter keeps, in their order. */
    function Filtered(possible: seq<nat>): (f: seq<nat>)
      reads this`samples
      ensures IsSubsequence(f, possible)
      ensures forall x :: x in f <==> x in possible && Admitted(x)
    {
      KeepIsSubsequence(possible, AdmittedOf(possible));
      Keep(possible, AdmittedOf(possible))
    }

    /** Some member of the current sample is missing from the threshold inliers. */
    predicate MissingSample(possible: seq<nat>)
      reads this`samples
    {
      exists s :: s in samples && s !in possible
    }

    /** An admitted index that is not itself in the sample is physically adjacent to every
        sample member. */
    lemma AdmittedOutsideSample(x: nat)
      requires Admitted(x) && x !in samples
      ensures forall s :: s in samples ==> physical.Test(x, s)
    {
      forall p | 0 <= p < |samples| ensures physical.Test(x, samples[p]) {
        assert forall q :: 0 <= q <= p ==> samples[q] != x;
      }
    }

    /** The adjacency test for one candidate inlier: walk the sample, stop at the candidate
        itself, reject at the first member it is not physically adjacent to. */
    method AdjacentToSample(inlier: nat) returns (isGood: bool)
      ensures isGood <==> Admitted(inlier)
    {
      isGood := true;
      var p := 0;
      while p < |samples|
        invariant p <= |samples| && isGood
        invariant forall q :: 0 <= q < p ==> samples[q] != inlier && physical.Test(inlier, samples[q])
      {
        var s := samples[p];
        if s == inlier {
          return;
        }
        if !physical.Test(inlier, s) {
          isGood := false;
          return;
        }
        p := p + 1;
      }
    }

    /** graph(n) with AddEdgeSorted(j, i) for every pair j < i of list positions whose
        entries are sample-adjacent. */
    method BuildInducedGraph(f: seq<nat>) returns (g: AdjacencyMatrix)
      requires sample.Valid()
      ensures g == InducedGraph(sample, f) && g.Valid()
    {
      g := Unconnected(|f|);
      var j := 0;
      while j < |f|
        invariant j <= |f| && g.size == |f| && g.Valid()
        invariant forall a: nat, b: nat :: g.Test(a, b) <==> InducedEdge(sample, f, a, b) && (a < j || b < j)
      {
        var i := j + 1;
        while i < |f|
          invariant j + 1 <= i <= |f| && g.size == |f| && g.Valid()
          invariant forall a: nat, b: nat :: g.Test(a, b) <==>
                      InducedEdge(sample, f, a, b) && (a < j || b < j || (a == j && b < i) || (b == j && a < i))
        {
          if sample.Test(f[j], f[i]) {
            g := g.SetSorted(j, i);
          }
          i := i + 1;
        }
        j := j + 1;
      }
      var h := InducedGraph(sample, f);
      forall e | e in g.edges ensures e in h.edges {
        assert g.Test(e.0, e.1);
      }
      forall e | e in h.edges ensures e in g.edges {
        assert h.Test(e.0, e.1);
      }
    }

    /** The check that every member of the current sample is among the threshold inliers
        (std::find for each). */
    method ContainsSample(possible: seq<nat>) returns (all: bool)
      ensures all <==> !MissingSample(possible)
    {
      var p := 0;
      while p < |samples|
        invariant p <= |samples|
        invariant forall q :: 0 <= q < p ==> samples[q] in possible
      {
        if samples[p] !in possible {
          return false;
        }
        p := p + 1;
      }
      return true;
    }

    /** The loop that keeps, in order, the threshold inliers passing the adjacency test. */
    method FilterAdjacent(possible: seq<nat>) returns (kept: seq<nat>)
      ensures kept == Filtered(possible)
    {
      kept := [];
      var n := 0;
      while n < |possible|
        invariant n <= |possible|
        invariant kept == Keep(possible[..n], AdmittedOf(possible))
      {
        var inlier := possible[n];
        var isGood := AdjacentToSample(inlier);
        assert possible[..n + 1][..n] == possible[..n];
        if isGood {
          kept := kept + [inlier];
        }
        n := n + 1;
      }
      assert possible[..|possible|] == possible;
    }

    /** Keep the threshold inliers only if the whole sample is among them; drop those that
        cannot share a cluster with the sample; and, if the rest is at least as large as the
        best so far, keep it only when the clique finder returns at least eight well-spread
        points, recording its size as the new best. */
    method SelectWithinDistance(possible: seq<nat>, findClique: CliqueFinder) returns (inliers: seq<nat>)
      requires sample.Valid()
      modifies this`bestInlierNumber
      ensures MissingSample(possible) ==> inliers == [] && bestInlierNumber == old(bestInlierNumber)
      ensures !MissingSample(possible) && |Filtered(possible)| < old(bestInlierNumber) ==>
                inliers == Filtered(possible) && bestInlierNumber == old(bestInlierNumber)
      ensures !MissingSample(possible) && |Filtered(possible)| >= old(bestInlierNumber)
              && |findClique(InducedGraph(sample, Filtered(possible)), MinimalSize)| < MinimalSize ==>
                inliers == [] && bestInlierNumber == old(bestInlierNumber)
      ensures !MissingSample(possible) && |Filtered(possible)| >= old(bestInlierNumber)
              && |findClique(InducedGraph(sample, Filtered(possible)), MinimalSize)| >= MinimalSize ==>
                inliers == Filtered(possible) && bestInlierNumber == |inliers|
      ensures bestInlierNumber >= old(bestInlierNumber)
      ensures IsSubsequence(inliers, possible)
      ensures forall x :: x in inliers && x !in samples ==> forall s :: s in samples ==> physical.Test(x, s)
    {
      inliers := [];
      var all := ContainsSample(possible);
      if !all {
        return;
      }
      inliers := FilterAdjacent(possible);
      forall x | x in inliers && x !in samples ensures forall s :: s in samples ==> physical.Test(x, s) {
        AdmittedOutsideSample(x);
      }
      if |inliers| < bestInlierNumber {
        return;
      }
      var graph := BuildInducedGraph(inliers);
      var vertices := findClique(graph, MinimalSize);
      if |vertices| < MinimalSize {
        inliers := [];
        return;
      }
      bestInlierNumber := if |inliers| > bestInlierNumber then |inliers| else bestInlierNumber;
    }

    /** estimateRigidTransformationSVD over the inliers of the source cloud and the target
        cloud: the 16 coefficients of the fitted transform. */
    function OptimizeModelCoefficients(fit: RigidFit, target: seq<Point3F>, inliers: seq<nat>): (c: seq<real>)
      ensures |c| == 16
      ensures RotationOf(c) == fit(input, target, inliers).rot
      ensures TranslationOf(c) == fit(input, target, inliers).trans
      ensures c[12] == 0.0 && c[13] == 0.0 && c[14] == 0.0 && c[15] == 1.0
    {
      CoefficientsRoundTrip(fit(input, target, inliers));
      Coefficients(fit(input, target, inliers))
    }
  }
}
