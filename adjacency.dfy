/**
  The symmetric adjacency relation between correspondence indices (the detector's
  maximum_clique::AdjacencyMatrix and maximum_clique::Graph).  The relation is kept as the
  set of ordered pairs it relates, closed under swapping; `Neighbors(j)` is the set that
  the matrix stores sorted for index j.
 */
module Adjacency {

  datatype AdjacencyMatrix = AdjacencyMatrix(size: nat, edges: set<(nat, nat)>) {

    /** Symmetric, irreflexive, and only over the indices 0..size-1. */
    ghost predicate Valid() {
      forall a: nat, b: nat :: (a, b) in edges ==> a < size && b < size && a != b && (b, a) in edges
    }

    /** test(a, b) */
    predicate Test(a: nat, b: nat) {
      (a, b) in edges
    }

    /** neighbors(a), as the set of its elements. */
    function Neighbors(a: nat): (r: set<nat>)
      ensures forall b: nat :: b in r <==> b < size && Test(a, b)
    {
      set b: nat | b < size && (a, b) in edges
    }

    /** set_sorted(a, b) / AddEdgeSorted(a, b): relate a and b, in both directions. */
    function SetSorted(a: nat, b: nat): (m: AdjacencyMatrix)
      requires a < b < size
      ensures m.size == size
      ensures Valid() ==> m.Valid()
      ensures forall x: nat, y: nat :: m.Test(x, y) <==> Test(x, y) || (x == a && y == b) || (x == b && y == a)
    {
      AdjacencyMatrix(size, edges + {(a, b), (b, a)})
    }

    /** InvalidateCluster(ids): forget every edge that touches one of `ids`. */
    function InvalidateCluster(ids: set<nat>): (m: AdjacencyMatrix)
      ensures m.size == size
      ensures Valid() ==> m.Valid()
      ensures forall x: nat, y: nat :: m.Test(x, y) <==> Test(x, y) && x !in ids && y !in ids
    {
      AdjacencyMatrix(size, set e | e in edges && e.0 !in ids && e.1 !in ids)
    }
  }

  /** AdjacencyMatrix(n) / Graph(n): n vertices and no edge. */
  function Unconnected(n: nat): (m: AdjacencyMatrix)
    ensures m.Valid() && m.size == n
    ensures forall x: nat, y: nat :: !m.Test(x, y)
  {
    AdjacencyMatrix(n, {})
  }

  /** The state after clear(). */
  function Cleared(): (m: AdjacencyMatrix)
    ensures m.Valid() && m.size == 0
    ensures forall x: nat, y: nat :: !m.Test(x, y)
  {
    Unconnected(0)
  }

  /** Every edge of `m1` is an edge of `m2`. */
  ghost predicate SubRelation(m1: AdjacencyMatrix, m2: AdjacencyMatrix) {
    forall x: nat, y: nat :: m1.Test(x, y) ==> m2.Test(x, y)
  }

  /** The members of `c` are pairwise related. */
  ghost predicate IsClique(m: AdjacencyMatrix, c: set<nat>) {
    forall x, y :: x in c && y in c && x != y ==> m.Test(x, y)
  }

  /** No `k` members of `pool` are pairwise related. */
  ghost predicate NoCliqueOfSize(m: AdjacencyMatrix, pool: set<nat>, k: nat) {
    forall c: set<nat> :: c <= pool && |c| == k ==> !IsClique(m, c)
  }

  /** Invalidating the same indices in both relations keeps one inside the other. */
  lemma InvalidateKeepsSubRelation(m1: AdjacencyMatrix, m2: AdjacencyMatrix, ids: set<nat>)
    requires SubRelation(m1, m2)
    ensures SubRelation(m1.InvalidateCluster(ids), m2.InvalidateCluster(ids))
  {
  }

  /** Invalidating indices twice is the same as once. */
  lemma InvalidateIdempotent(m: AdjacencyMatrix, ids: set<nat>)
    ensures m.InvalidateCluster(ids).InvalidateCluster(ids) == m.InvalidateCluster(ids)
  {
  }

  /** Invalidating no index changes nothing. */
  lemma InvalidateNothing(m: AdjacencyMatrix)
    ensures m.InvalidateCluster({}) == m
  {
  }

  /** Invalidating two sets of indices in turn is invalidating both at once. */
  lemma InvalidateCompose(m: AdjacencyMatrix, a: set<nat>, b: set<nat>)
    ensures m.InvalidateCluster(a).InvalidateCluster(b) == m.InvalidateCluster(a + b)
  {
  }

  /** After InvalidateCluster(ids) no invalidated index has a neighbour left. */
  lemma {:induction false} InvalidatedIsolated(m: AdjacencyMatrix, ids: set<nat>, x: nat)
    requires x in ids
    ensures m.InvalidateCluster(ids).Neighbors(x) == {}
  {
    var r := m.InvalidateCluster(ids);
    forall b: nat ensures b !in r.Neighbors(x) {
      assert !r.Test(x, b);
    }
  }

  /** Removing one member from a clique of a symmetric relation that contains it leaves a
      clique, one smaller, of neighbours of that member. */
  lemma CliqueWithout(m: AdjacencyMatrix, c: set<nat>, s: nat)
    requires m.Valid() && IsClique(m, c) && s in c
    ensures IsClique(m, c - {s}) && |c - {s}| == |c| - 1
    ensures c - {s} <= m.Neighbors(s)
  {
    forall y | y in c - {s} ensures y in m.Neighbors(s) {
      assert m.Test(s, y);
    }
  }
}
