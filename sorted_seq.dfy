/**
  Sorted index lists and the standard-library algorithms the detector applies to them
  (std::sort followed by std::unique, std::set_difference, std::set_intersection,
  std::merge, std::remove).  Every list of correspondence indices in the detector is
  kept strictly increasing, and on such lists each algorithm is a filter or a merge.
 */
module SortedSeq {

  /** Strictly increasing: sorted and free of duplicates. */
  predicate StrictlyIncreasing(s: seq<nat>) {
    forall i, j :: 0 <= i < j < |s| ==> s[i] < s[j]
  }

  /** Sorted, duplicates allowed. */
  predicate NonDecreasing(s: seq<nat>) {
    forall i, j :: 0 <= i < j < |s| ==> s[i] <= s[j]
  }

  /** No element occurs twice. */
  predicate NoDuplicates(s: seq<nat>) {
    forall i, j :: 0 <= i < j < |s| ==> s[i] != s[j]
  }

  /** The elements of a list, as a set. */
  function Elems(s: seq<nat>): (r: set<nat>)
    ensures forall x :: x in r <==> x in s
  {
    set x | x in s
  }

  /** `a` can be obtained from `b` by deleting elements (order preserved). */
  predicate IsSubsequence(a: seq<nat>, b: seq<nat>)
    decreases |b|
  {
    if a == [] then true
    else if b == [] then false
    else if a[|a| - 1] == b[|b| - 1] then IsSubsequence(a[..|a| - 1], b[..|b| - 1])
    else IsSubsequence(a, b[..|b| - 1])
  }

  /** The elements of `s` that belong to `keep`, in their order in `s`
      (std::set_intersection of a strictly increasing list with a sorted list
      whose elements are `keep`). */
  function Keep(s: seq<nat>, keep: set<nat>): (r: seq<nat>)
    ensures forall x :: x in r <==> x in s && x in keep
    ensures |r| <= |s|
  {
    if s == [] then []
    else Keep(s[..|s| - 1], keep) + (if s[|s| - 1] in keep then [s[|s| - 1]] else [])
  }

  /** The elements of `s` that do not belong to `drop`, in their order in `s`
      (std::set_difference of a strictly increasing list and a sorted list of the
      elements of `drop`; also std::remove of a single value). */
  function Drop(s: seq<nat>, drop: set<nat>): (r: seq<nat>)
    ensures forall x :: x in r <==> x in s && x !in drop
    ensures |r| <= |s|
  {
    if s == [] then []
    else Drop(s[..|s| - 1], drop) + (if s[|s| - 1] !in drop then [s[|s| - 1]] else [])
  }

  /** Insert `x` into a strictly increasing list, unless it is already there. */
  function InsertSorted(x: nat, s: seq<nat>): (r: seq<nat>)
    requires StrictlyIncreasing(s)
    ensures StrictlyIncreasing(r)
    ensures forall y :: y in r <==> y == x || y in s
  {
    if s == [] then [x]
    else if x < s[0] then [x] + s
    else if x == s[0] then s
    else
      var r := InsertSorted(x, s[1..]);
      StrictlyIncreasingTail(s);
      PrependIncreasing(s[0], r);
      [s[0]] + r
  }

  /** std::sort followed by std::unique and a resize: the distinct elements of `s`
      in ascending order. */
  function SortUnique(s: seq<nat>): (r: seq<nat>)
    ensures StrictlyIncreasing(r)
    ensures forall x :: x in r <==> x in s
  {
    if s == [] then [] else InsertSorted(s[|s| - 1], SortUnique(s[..|s| - 1]))
  }

  /** std::merge: on equal heads the element of the first list comes first. */
  function Merge(a: seq<nat>, b: seq<nat>): (r: seq<nat>)
    ensures multiset(r) == multiset(a) + multiset(b)
    decreases |a| + |b|
  {
    if a == [] then b
    else if b == [] then a
    else if b[0] < a[0] then
      assert b == [b[0]] + b[1..];
      [b[0]] + Merge(a, b[1..])
    else
      assert a == [a[0]] + a[1..];
      [a[0]] + Merge(a[1..], b)
  }

  lemma StrictlyIncreasingTail(s: seq<nat>)
    requires StrictlyIncreasing(s) && s != []
    ensures StrictlyIncreasing(s[1..]) && forall x :: x in s[1..] ==> s[0] < x
  {
  }

  /** Prepending a value below every element keeps a list strictly increasing. */
  lemma PrependIncreasing(x: nat, s: seq<nat>)
    requires StrictlyIncreasing(s)
    requires forall y :: y in s ==> x < y
    ensures StrictlyIncreasing([x] + s)
  {
    forall i, j | 0 <= i < j < |[x] + s|
      ensures ([x] + s)[i] < ([x] + s)[j]
    {
      if i > 0 {
        assert ([x] + s)[i] == s[i - 1] && ([x] + s)[j] == s[j - 1];
      } else {
        assert ([x] + s)[j] == s[j - 1];
        assert s[j - 1] in s;
      }
    }
  }

  /** Merging two disjoint strictly increasing lists gives a strictly increasing list
      holding exactly the elements of both. */
  lemma {:induction false} MergeIncreasing(a: seq<nat>, b: seq<nat>)
    requires StrictlyIncreasing(a) && StrictlyIncreasing(b)
    requires forall x :: x in a ==> x !in b
    ensures StrictlyIncreasing(Merge(a, b))
    ensures forall x :: x in Merge(a, b) <==> x in a || x in b
    ensures |Merge(a, b)| == |a| + |b|
    decreases |a| + |b|
  {
    var r := Merge(a, b);
    assert |multiset(r)| == |multiset(a)| + |multiset(b)|;
    forall x ensures x in r <==> x in a || x in b {
      assert x in r <==> x in multiset(r);
      assert x in a <==> x in multiset(a);
      assert x in b <==> x in multiset(b);
    }
    if a == [] || b == [] {
    } else if b[0] < a[0] {
      StrictlyIncreasingTail(b);
      MergeIncreasing(a, b[1..]);
      var m := Merge(a, b[1..]);
      forall y | y in m ensures b[0] < y {
        if y in a {
          var k :| 0 <= k < |a| && a[k] == y;
          assert k == 0 || a[0] < a[k];
        }
      }
      PrependIncreasing(b[0], m);
    } else {
      assert a[0] in a;
      assert a[0] != b[0];
      StrictlyIncreasingTail(a);
      MergeIncreasing(a[1..], b);
      var m := Merge(a[1..], b);
      forall y | y in m ensures a[0] < y {
        if y in b {
          var k :| 0 <= k < |b| && b[k] == y;
          assert k == 0 || b[0] < b[k];
        }
      }
      PrependIncreasing(a[0], m);
    }
  }

  /** Appending a value above every element keeps a list strictly increasing. */
  lemma AppendIncreasing(s: seq<nat>, x: nat)
    requires StrictlyIncreasing(s)
    requires forall y :: y in s ==> y < x
    ensures StrictlyIncreasing(s + [x])
  {
    forall i, j | 0 <= i < j < |s + [x]|
      ensures (s + [x])[i] < (s + [x])[j]
    {
      assert (s + [x])[i] == s[i] && s[i] in s;
    }
  }

  /** Keep and Drop preserve strict increase. */
  lemma {:induction false} KeepIncreasing(s: seq<nat>, keep: set<nat>)
    requires StrictlyIncreasing(s)
    ensures StrictlyIncreasing(Keep(s, keep))
  {
    if s != [] {
      var init := s[..|s| - 1];
      assert StrictlyIncreasing(init);
      KeepIncreasing(init, keep);
      var r := Keep(init, keep);
      forall y | y in r ensures y < s[|s| - 1] {
        var k :| 0 <= k < |init| && init[k] == y;
        assert init[k] == s[k];
      }
      if s[|s| - 1] in keep {
        AppendIncreasing(r, s[|s| - 1]);
      }
    }
  }

  lemma {:induction false} DropIncreasing(s: seq<nat>, drop: set<nat>)
    requires StrictlyIncreasing(s)
    ensures StrictlyIncreasing(Drop(s, drop))
  {
    if s != [] {
      var init := s[..|s| - 1];
      assert StrictlyIncreasing(init);
      DropIncreasing(init, drop);
      var r := Drop(init, drop);
      forall y | y in r ensures y < s[|s| - 1] {
        var k :| 0 <= k < |init| && init[k] == y;
        assert init[k] == s[k];
      }
      if s[|s| - 1] !in drop {
        AppendIncreasing(r, s[|s| - 1]);
      }
    }
  }

  /** Keep and Drop are order-preserving: their result is a subsequence of the input. */
  lemma {:induction false} KeepIsSubsequence(s: seq<nat>, keep: set<nat>)
    ensures IsSubsequence(Keep(s, keep), s)
  {
    if s != [] {
      var init, last := s[..|s| - 1], s[|s| - 1];
      KeepIsSubsequence(init, keep);
      var r := Keep(s, keep);
      if last in keep {
        assert r == Keep(init, keep) + [last];
        assert r[..|r| - 1] == Keep(init, keep);
      } else {
        assert r == Keep(init, keep);
        if r != [] {
          assert r[|r| - 1] in r;
        }
      }
    }
  }

  lemma {:induction false} DropIsSubsequence(s: seq<nat>, drop: set<nat>)
    ensures IsSubsequence(Drop(s, drop), s)
  {
    if s != [] {
      var init, last := s[..|s| - 1], s[|s| - 1];
      DropIsSubsequence(init, drop);
      var r := Drop(s, drop);
      if last !in drop {
        assert r == Drop(init, drop) + [last];
        assert r[..|r| - 1] == Drop(init, drop);
      } else {
        assert r == Drop(init, drop);
        if r != [] {
          assert r[|r| - 1] in r;
        }
      }
    }
  }

  /** Invalidating the same set twice changes nothing the second time. */
  lemma {:induction false} DropIdempotent(s: seq<nat>, drop: set<nat>)
    ensures Drop(Drop(s, drop), drop) == Drop(s, drop)
  {
    if s != [] {
      var init, last := s[..|s| - 1], s[|s| - 1];
      DropIdempotent(init, drop);
      var d := Drop(init, drop);
      if last !in drop {
        assert Drop(s, drop) == d + [last];
        var e := d + [last];
        assert e[..|e| - 1] == d;
        assert Drop(e, drop) == Drop(d, drop) + [last];
      } else {
        assert Drop(s, drop) == d;
      }
    }
  }

  /** Dropping an element that is present makes the list strictly shorter. */
  lemma {:induction false} DropShrinks(s: seq<nat>, drop: set<nat>, x: nat)
    requires x in s && x in drop
    ensures |Drop(s, drop)| < |s|
  {
    var init := s[..|s| - 1];
    if s[|s| - 1] != x {
      assert x in init;
      DropShrinks(init, drop, x);
    }
  }

  /** Dropping nothing that is present leaves the list as it is. */
  lemma {:induction false} DropNothing(s: seq<nat>, drop: set<nat>)
    requires forall x :: x in s ==> x !in drop
    ensures Drop(s, drop) == s
  {
    if s != [] {
      var init := s[..|s| - 1];
      assert forall x :: x in init ==> x in s;
      DropNothing(init, drop);
      assert init + [s[|s| - 1]] == s;
    }
  }

  /** A strictly increasing list is determined by its elements: so Keep, Drop, Merge
      and SortUnique each give THE sorted list of their element set. */
  lemma {:induction false} IncreasingUnique(a: seq<nat>, b: seq<nat>)
    requires StrictlyIncreasing(a) && StrictlyIncreasing(b)
    requires forall x :: x in a <==> x in b
    ensures a == b
  {
    DistinctSetSize(a);
    DistinctSetSize(b);
    assert Elems(a) == Elems(b);
    if a != [] {
      assert forall k :: 0 <= k < |b| ==> b[0] <= b[k];
      assert forall k :: 0 <= k < |a| ==> a[0] <= a[k];
      assert a[0] in b && b[0] in a;
      assert a[0] == b[0];
      StrictlyIncreasingTail(a);
      StrictlyIncreasingTail(b);
      forall x ensures x in a[1..] <==> x in b[1..] {
        assert x in a <==> x in a[1..] || x == a[0];
        assert x in b <==> x in b[1..] || x == b[0];
      }
      IncreasingUnique(a[1..], b[1..]);
      assert a == [a[0]] + a[1..] && b == [b[0]] + b[1..];
    }
  }

  /** std::sort of a duplicate-free list gives the same list as std::sort + std::unique. */
  lemma SortUniqueLength(s: seq<nat>)
    requires NoDuplicates(s)
    ensures |SortUnique(s)| == |s|
  {
    var r := SortUnique(s);
    assert Elems(r) == Elems(s);
    DistinctSetSize(r);
    DistinctSetSize(s);
  }

  lemma {:induction false} DistinctSetSize(s: seq<nat>)
    requires NoDuplicates(s) || StrictlyIncreasing(s)
    ensures |Elems(s)| == |s|
  {
    if s != [] {
      var init, last := s[..|s| - 1], s[|s| - 1];
      assert NoDuplicates(init) || StrictlyIncreasing(init);
      DistinctSetSize(init);
      assert Elems(s) == Elems(init) + {last};
      forall k | 0 <= k < |init| ensures init[k] != last {
        assert init[k] == s[k];
      }
      assert last !in Elems(init);
    }
  }
}
