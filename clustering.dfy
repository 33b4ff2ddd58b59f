/**
  One-dimensional threshold clustering of one site property
  (`StructureDataCore._to_kinds`).

  With threshold 0 every site is its own cluster. With any other threshold
  each value falls into the bucket `int((v - min) / thr)` (truncated toward
  zero); the buckets are relabelled densely from 0, and every site's
  representative value is the smallest value of its bucket. The source relabels the buckets in the
  iteration order of a Python `set`; this model fixes that order to ascending
  bucket number.
*/
module Clustering {
  import opened Common

  /** The cast of a float to numpy's `int` (int64), within its range: truncation toward zero. */
  function Trunc(x: real): (r: int)
    ensures x >= 0.0 ==> 0 <= r && r as real <= x < r as real + 1.0
    ensures x < 0.0 ==> r <= 0 && r as real - 1.0 < x <= r as real
  {
    if x >= 0.0 then x.Floor else -((-x).Floor)
  }

  /** `np.min` of a non-empty sequence. */
  function Min(s: seq<real>): (m: real)
    requires |s| > 0
    ensures m in s
    ensures forall k :: 0 <= k < |s| ==> m <= s[k]
  {
    if |s| == 1 then s[0]
    else
      var rest := Min(s[1..]);
      if s[0] <= rest then s[0] else rest
  }

  /** The bucket index of every site: `int((v - min) / thr)`. */
  function Buckets(values: seq<real>, thr: real): (b: seq<int>)
    requires thr != 0.0 && |values| > 0
    ensures |b| == |values|
    ensures forall k :: 0 <= k < |b| && values[k] == Min(values) ==> b[k] == 0
    ensures thr > 0.0 ==> forall k :: 0 <= k < |b| ==> b[k] >= 0
  {
    var lo := Min(values);
    var b := seq(|values|, k requires 0 <= k < |values| => Trunc((values[k] - lo) / thr));
    assert thr > 0.0 ==> forall k :: 0 <= k < |b| ==> b[k] >= 0 by {
      if thr > 0.0 {
        forall k | 0 <= k < |b| ensures b[k] >= 0 {
          DivNonNegative(values[k] - lo, thr);
        }
      }
    }
    b
  }

  /** The distinct keys of a sequence (`set(indexes)`). */
  function KeySet(keys: seq<int>): set<int> {
    set c | c in keys
  }

  /**
    `np.min(prop_array[indexes == b])`: the smallest value among the sites whose
    key is `b`.
  */
  function MinWhere(values: seq<real>, keys: seq<int>, b: int): (m: real)
    requires |values| == |keys| && b in keys
    ensures exists j :: 0 <= j < |keys| && keys[j] == b && values[j] == m
    ensures forall j :: 0 <= j < |keys| && keys[j] == b ==> m <= values[j]
    decreases |keys|
  {
    var last := |keys| - 1;
    if keys[last] != b then
      MinWhere(values[..last], keys[..last], b)
    else if b !in keys[..last] then
      values[last]
    else
      var m := MinWhere(values[..last], keys[..last], b);
      if m <= values[last] then m else values[last]
  }

  /** The labels `_to_kinds` returns: each bucket's place among the buckets in ascending order. */
  ghost function ClusterLabels(values: seq<real>, thr: real): (labels: seq<int>)
    requires thr != 0.0 ==> |values| > 0
    ensures |labels| == |values|
  {
    if thr == 0.0 then seq(|values|, k => k)
    else
      Relabelled(Buckets(values, thr))
  }

  /** The representative values `_to_kinds` returns. */
  function ClusterValues(values: seq<real>, thr: real): (reps: seq<real>)
    requires thr != 0.0 ==> |values| > 0
    ensures |reps| == |values|
  {
    if thr == 0.0 then values
    else
      var b := Buckets(values, thr);
      seq(|values|, k requires 0 <= k < |values| => MinWhere(values, b, b[k]))
  }

  /** The number of clusters a positive threshold produces. */
  function ClusterCount(values: seq<real>, thr: real): nat
    requires thr != 0.0 && |values| > 0
  {
    |KeySet(Buckets(values, thr))|
  }

  /** A non-empty set has an element. */
  lemma ElementOf<T>(s: set<T>) returns (x: T)
    requires s != {}
    ensures x in s
  {
    assert (forall y :: y !in s) ==> s == {};
    x :| x in s;
  }

  /** A finite non-empty set of integers has a least element. */
  lemma {:induction false} LeastExists(s: set<int>) returns (b: int)
    requires s != {}
    ensures b in s && forall c :: c in s ==> b <= c
    decreases |s|
  {
    var x := ElementOf(s);
    if s == {x} {
      b := x;
    } else {
      var y := LeastExists(s - {x});
      b := if x < y then x else y;
      forall c | c in s
        ensures b <= c
      {
        if c != x {
          assert c in s - {x};
        }
      }
    }
  }

  lemma HasLeast(s: set<int>)
    requires s != {}
    ensures exists b :: b in s && forall c :: c in s ==> b <= c
  {
    var b := LeastExists(s);
  }

  /** The least element of a non-empty finite set of integers. */
  ghost function Least(s: set<int>): (m: int)
    requires s != {}
    ensures m in s && forall c :: c in s ==> m <= c
  {
    HasLeast(s);
    var m :| m in s && forall c :: c in s ==> m <= c;
    m
  }

  /** The elements of a finite set of integers in strictly ascending order. */
  ghost function Ascending(s: set<int>): (r: seq<int>)
    ensures |r| == |s|
    decreases |s|
  {
    if s == {} then [] else [Least(s)] + Ascending(s - {Least(s)})
  }

  /** The ascending enumeration lists exactly the set's elements. */
  lemma {:induction false} AscendingMembers(s: set<int>)
    ensures forall x :: x in Ascending(s) <==> x in s
    decreases |s|
  {
    if s != {} {
      var m := Least(s);
      var rest := Ascending(s - {m});
      AscendingMembers(s - {m});
      assert Ascending(s) == [m] + rest;
      forall x
        ensures x in Ascending(s) <==> x in s
      {
        assert x in [m] + rest <==> x == m || x in rest;
      }
    }
  }

  /** The ascending enumeration is strictly increasing, so it lists each element once. */
  lemma {:induction false} AscendingIncreasing(s: set<int>)
    ensures forall a, b :: 0 <= a < b < |Ascending(s)| ==> Ascending(s)[a] < Ascending(s)[b]
    decreases |s|
  {
    if s != {} {
      var m := Least(s);
      var rest := Ascending(s - {m});
      AscendingIncreasing(s - {m});
      AscendingMembers(s - {m});
      assert Ascending(s) == [m] + rest;
      forall a, b | 0 <= a < b < |Ascending(s)|
        ensures Ascending(s)[a] < Ascending(s)[b]
      {
        assert rest[b - 1] in s - {m};
      }
    }
  }

  /** Both facts about the ascending enumeration. */
  lemma AscendingEnumerates(s: set<int>)
    ensures forall x :: x in Ascending(s) <==> x in s
    ensures forall a, b :: 0 <= a < b < |Ascending(s)| ==> Ascending(s)[a] < Ascending(s)[b]
  {
    AscendingMembers(s);
    AscendingIncreasing(s);
  }

  /** Taking the least element off the front of the ascending enumeration. */
  lemma AscendingUnfold(s: set<int>, m: int)
    requires m in s && forall c :: c in s ==> m <= c
    ensures Ascending(s) == [m] + Ascending(s - {m})
  {
    assert Least(s) <= m && m <= Least(s);
  }

  /** Every key replaced by its place among the distinct keys in ascending order. */
  ghost function Relabelled(keys: seq<int>): (labels: seq<int>)
    ensures |labels| == |keys|
  {
    var order := Ascending(KeySet(keys));
    AscendingEnumerates(KeySet(keys));
    seq(|keys|, k requires 0 <= k < |keys| => IndexOf(order, keys[k]))
  }

  /** In a strictly increasing sequence the only place holding a value is its first place. */
  lemma PositionsOfIncreasing(order: seq<int>, keys: seq<int>, labels: seq<int>)
    requires forall a, b :: 0 <= a < b < |order| ==> order[a] < order[b]
    requires |labels| == |keys|
    requires forall j :: 0 <= j < |keys| ==> 0 <= labels[j] < |order| && order[labels[j]] == keys[j]
    ensures forall j :: 0 <= j < |keys| ==> keys[j] in order && labels[j] == IndexOf(order, keys[j])
  {
    forall j | 0 <= j < |keys|
      ensures keys[j] in order && labels[j] == IndexOf(order, keys[j])
    {
      assert order[labels[j]] == keys[j];
      var p := IndexOf(order, keys[j]);
      assert order[p] == order[labels[j]];
    }
  }

  /** Labels that point each key at its place in the ascending enumeration are the relabelling. */
  lemma RelabelledByPlace(keys: seq<int>, labels: seq<int>)
    requires |labels| == |keys|
    requires forall j :: 0 <= j < |keys| ==>
               0 <= labels[j] < |Ascending(KeySet(keys))| && Ascending(KeySet(keys))[labels[j]] == keys[j]
    ensures labels == Relabelled(keys)
  {
    AscendingEnumerates(KeySet(keys));
    PositionsOfIncreasing(Ascending(KeySet(keys)), keys, labels);
  }

  /** One step of the relabelling loop: the least pending key moves to the handled prefix. */
  lemma AscendingStep(order: seq<int>, remaining: set<int>, all: seq<int>, m: int)
    requires order + Ascending(remaining) == all
    requires m in remaining && forall c :: c in remaining ==> m <= c
    ensures (order + [m]) + Ascending(remaining - {m}) == all
    ensures all[|order|] == m
  {
    AscendingUnfold(remaining, m);
    assert order + Ascending(remaining) == (order + [m]) + Ascending(remaining - {m});
  }


  /**
    First loop of `_to_kinds`: for every bucket, in whatever order the set
    yields them, write the bucket's minimum value at the bucket's sites.
  */
  method FillRepresentatives(values: seq<real>, indexes: seq<int>) returns (reps: seq<real>)
    requires |values| == |indexes|
    ensures |reps| == |values|
    ensures forall j :: 0 <= j < |reps| ==> reps[j] == MinWhere(values, indexes, indexes[j])
  {
    var n := |values|;
    var kindsValues := new real[n](_ => 0.0);
    var todo := set c | c in indexes;
    while todo != {}
      invariant forall c :: c in todo ==> c in indexes
      invariant forall j :: 0 <= j < n && indexes[j] !in todo ==>
                  kindsValues[j] == MinWhere(values, indexes, indexes[j])
      decreases |todo|
    {
      ghost var some := ElementOf(todo);
      var index :| index in todo;
      var m := MinWhere(values, indexes, index);
      forall j | 0 <= j < n && indexes[j] == index {
        kindsValues[j] := m;
      }
      todo := todo - {index};
    }
    reps := kindsValues[..];
  }

  /**
    Every site whose key has been handled carries a label below `count` that
    points at its key in the ascending enumeration `all`.
  */
  ghost predicate Labelled(labels: seq<int>, keys: seq<int>, remaining: set<int>, all: seq<int>, count: int) {
    |labels| == |keys| &&
    forall j :: 0 <= j < |keys| && keys[j] !in remaining ==>
      0 <= labels[j] < count && labels[j] < |all| && all[labels[j]] == keys[j]
  }

  /**
    One pass of the second loop of `_to_kinds`: the least pending bucket
    `index` gets the next label at all its sites (`kinds_labels[indexes == index] = i`).
  */
  method LabelLeast(kindsLabels: array<int>, indexes: seq<int>, remaining: set<int>, i: int,
                    ghost order: seq<int>, ghost all: seq<int>) returns (index: int)
    requires remaining != {} && i == |order|
    requires order + Ascending(remaining) == all
    requires Labelled(kindsLabels[..], indexes, remaining, all, |order|)
    modifies kindsLabels
    ensures index in remaining
    ensures (order + [index]) + Ascending(remaining - {index}) == all
    ensures Labelled(kindsLabels[..], indexes, remaining - {index}, all, |order| + 1)
  {
    ghost var least := LeastExists(remaining);
    index :| index in remaining && forall c :: c in remaining ==> index <= c;
    AscendingStep(order, remaining, all, index);
    forall j | 0 <= j < kindsLabels.Length && indexes[j] == index {
      kindsLabels[j] := i;
    }
  }

  /**
    Second loop of `_to_kinds`: the buckets are taken in ascending order and
    the k-th one gets label k.
  */
  method Relabel(indexes: seq<int>) returns (labels: seq<int>)
    ensures |labels| == |indexes|
    ensures labels == Relabelled(indexes)
  {
    var n := |indexes|;
    var kindsLabels := new int[n](_ => 0);
    var remaining := set c | c in indexes;
    ghost var all := Ascending(KeySet(indexes));
    ghost var order: seq<int> := [];
    var i := 0;
    while remaining != {}
      invariant i == |order|
      invariant order + Ascending(remaining) == all
      invariant Labelled(kindsLabels[..], indexes, remaining, all, i)
      decreases |remaining|
    {
      var index := LabelLeast(kindsLabels, indexes, remaining, i, order, all);
      remaining := remaining - {index};
      order := order + [index];
      i := i + 1;
    }
    labels := kindsLabels[..];
    RelabelledByPlace(indexes, labels);
  }

  /**
    `_to_kinds`: the per-site labels and representative values of one
    property. Every label below the number of buckets is used.
  */
  method ToKinds(values: seq<real>, thr: real) returns (labels: seq<int>, reps: seq<real>)
    requires thr != 0.0 ==> |values| > 0
    ensures labels == ClusterLabels(values, thr)
    ensures reps == ClusterValues(values, thr)
  {
    if thr == 0.0 {
      return seq(|values|, k => k), values;
    }
    var n := |values|;
    var lo := Min(values);
    var indexes := seq(n, k requires 0 <= k < n => Trunc((values[k] - lo) / thr));
    assert indexes == Buckets(values, thr);
    reps := FillRepresentatives(values, indexes);
    labels := Relabel(indexes);
  }

  /** Two sites get the same label exactly when their keys are equal. */
  lemma RelabelledSameIffSameKey(keys: seq<int>, a: int, b: int)
    requires 0 <= a < |keys| && 0 <= b < |keys|
    ensures Relabelled(keys)[a] == Relabelled(keys)[b] <==> keys[a] == keys[b]
  {
    var order := Ascending(KeySet(keys));
    AscendingEnumerates(KeySet(keys));
    assert Relabelled(keys)[a] == IndexOf(order, keys[a]);
    assert Relabelled(keys)[b] == IndexOf(order, keys[b]);
  }

  /** Labels follow the order of the keys. */
  lemma RelabelledKeepsOrder(keys: seq<int>, a: int, b: int)
    requires 0 <= a < |keys| && 0 <= b < |keys|
    ensures keys[a] < keys[b] <==> Relabelled(keys)[a] < Relabelled(keys)[b]
  {
    var order := Ascending(KeySet(keys));
    AscendingIncreasing(KeySet(keys));
    var pa, pb := Relabelled(keys)[a], Relabelled(keys)[b];
    assert order[pa] == keys[a] && order[pb] == keys[b];
    if pa < pb {
      assert order[pa] < order[pb];
    } else if pb < pa {
      assert order[pb] < order[pa];
    }
  }

  /** The labels are exactly 0, 1, ..., (number of distinct keys) - 1. */
  lemma RelabelledDense(keys: seq<int>)
    ensures forall k :: 0 <= k < |keys| ==> 0 <= Relabelled(keys)[k] < |KeySet(keys)|
    ensures forall r :: 0 <= r < |KeySet(keys)| ==> r in Relabelled(keys)
  {
    var order := Ascending(KeySet(keys));
    AscendingEnumerates(KeySet(keys));
    forall r | 0 <= r < |KeySet(keys)|
      ensures r in Relabelled(keys)
    {
      assert order[r] in KeySet(keys);
      var k :| 0 <= k < |keys| && keys[k] == order[r];
      assert Relabelled(keys)[k] == IndexOf(order, keys[k]) == r;
    }
  }

  /** A positive threshold puts every site in a non-negative bucket, `floor((v - min) / thr)`. */
  lemma BucketIsFloor(values: seq<real>, thr: real, k: nat)
    requires thr > 0.0 && k < |values|
    ensures Buckets(values, thr)[k] == ((values[k] - Min(values)) / thr).Floor >= 0
  {
    var d := values[k] - Min(values);
    assert Buckets(values, thr)[k] == Trunc(d / thr);
    TruncOfNonNegative(d, thr);
  }

  lemma DivNonNegative(x: real, y: real)
    requires x >= 0.0 && y > 0.0
    ensures x / y >= 0.0
  {
  }

  /** `int()` of a non-negative quotient is its floor. */
  lemma TruncOfNonNegative(d: real, thr: real)
    requires d >= 0.0 && thr > 0.0
    ensures Trunc(d / thr) == (d / thr).Floor >= 0
  {
    DivNonNegative(d, thr);
  }

  /** Two values in the same bucket are less than one threshold apart. */
  lemma SameBucketWithinThreshold(values: seq<real>, thr: real, a: int, b: int)
    requires thr > 0.0 && |values| > 0
    requires 0 <= a < |values| && 0 <= b < |values|
    requires Buckets(values, thr)[a] == Buckets(values, thr)[b]
    ensures values[a] - values[b] < thr && values[b] - values[a] < thr
  {
    BucketIsFloor(values, thr, a);
    BucketIsFloor(values, thr, b);
    var lo := Min(values);
    var q := Buckets(values, thr)[a];
    FloorBounds(values[a] - lo, thr, q);
    FloorBounds(values[b] - lo, thr, q);
  }

  /** `floor(x / y) == q` places `x` in `[q * y, (q + 1) * y)`. */
  lemma FloorBounds(x: real, y: real, q: int)
    requires y > 0.0 && (x / y).Floor == q
    ensures q as real * y <= x < (q as real + 1.0) * y
  {
    var t := x / y;
    assert q as real <= t < q as real + 1.0;
    DivMul(x, y);
    MulMonotone(q as real, t, y);
    var next := q as real + 1.0;
    MulStrict(t, next, y);
    assert t * y < next * y;
    assert x < next * y;
  }

  lemma DivMul(x: real, y: real)
    requires y > 0.0
    ensures (x / y) * y == x
  {
  }

  lemma MulMonotone(a: real, b: real, y: real)
    requires a <= b && y > 0.0
    ensures a * y <= b * y
  {
  }

  lemma MulStrict(a: real, b: real, y: real)
    requires a < b && y > 0.0
    ensures a * y < b * y
  {
  }

  /**
    With a positive threshold, two sites share a label exactly when they
    share a bucket, labels run densely from 0, and they follow the bucket order.
  */
  lemma ClustersAreBuckets(values: seq<real>, thr: real, a: int, b: int)
    requires thr > 0.0 && |values| > 0
    requires 0 <= a < |values| && 0 <= b < |values|
    ensures ClusterLabels(values, thr)[a] == ClusterLabels(values, thr)[b] <==>
              Buckets(values, thr)[a] == Buckets(values, thr)[b]
    ensures Buckets(values, thr)[a] < Buckets(values, thr)[b] <==>
              ClusterLabels(values, thr)[a] < ClusterLabels(values, thr)[b]
    ensures 0 <= ClusterLabels(values, thr)[a] < ClusterCount(values, thr)
  {
    var keys := Buckets(values, thr);
    RelabelledSameIffSameKey(keys, a, b);
    RelabelledKeepsOrder(keys, a, b);
    RelabelledDense(keys);
  }

  /** Every label below the number of clusters is used by some site. */
  lemma EveryClusterUsed(values: seq<real>, thr: real)
    requires thr > 0.0 && |values| > 0
    ensures forall r :: 0 <= r < ClusterCount(values, thr) ==> r in ClusterLabels(values, thr)
  {
    RelabelledDense(Buckets(values, thr));
  }

  /**
    Each site's representative is the smallest value of its cluster: a value
    of the cluster, no larger than any of them, between the overall minimum
    and the site's own value, and less than one threshold below it.
  */
  lemma RepresentativeIsClusterMinimum(values: seq<real>, thr: real, k: int)
    requires thr > 0.0 && |values| > 0 && 0 <= k < |values|
    ensures var reps, labels := ClusterValues(values, thr), ClusterLabels(values, thr);
      && (exists q :: 0 <= q < |values| && labels[q] == labels[k] && values[q] == reps[k])
      && (forall q :: 0 <= q < |values| && labels[q] == labels[k] ==> reps[k] <= values[q])
      && Min(values) <= reps[k] <= values[k]
      && values[k] - reps[k] < thr
  {
    var reps, labels := ClusterValues(values, thr), ClusterLabels(values, thr);
    var keys := Buckets(values, thr);
    assert reps[k] == MinWhere(values, keys, keys[k]);
    var q :| 0 <= q < |keys| && keys[q] == keys[k] && values[q] == reps[k];
    RelabelledSameIffSameKey(keys, q, k);
    SameBucketWithinThreshold(values, thr, k, q);
    forall p | 0 <= p < |values| && labels[p] == labels[k]
      ensures reps[k] <= values[p]
    {
      RelabelledSameIffSameKey(keys, p, k);
    }
  }

  /** With threshold 0 every site is its own cluster and keeps its value. */
  lemma ExactThresholdSeparatesSites(values: seq<real>, a: int, b: int)
    requires 0 <= a < |values| && 0 <= b < |values|
    ensures ClusterLabels(values, 0.0)[a] == ClusterLabels(values, 0.0)[b] <==> a == b
    ensures ClusterValues(values, 0.0) == values
  {
  }

  /** Equal values all land in cluster 0 and keep their value. */
  lemma UniformValuesOneBucket(values: seq<real>, thr: real)
    requires thr > 0.0 && |values| > 0
    requires forall k :: 0 <= k < |values| ==> values[k] == values[0]
    ensures forall k :: 0 <= k < |values| ==> Buckets(values, thr)[k] == 0
    ensures KeySet(Buckets(values, thr)) == {0}
  {
    var keys := Buckets(values, thr);
    var lo := Min(values);
    assert lo == values[0];
    forall k | 0 <= k < |values|
      ensures keys[k] == 0
    {
      assert keys[k] == Trunc((values[k] - lo) / thr);
    }
    assert keys[0] in KeySet(keys);
  }

  lemma UniformValuesFormOneCluster(values: seq<real>, thr: real)
    requires thr > 0.0 && |values| > 0
    requires forall k :: 0 <= k < |values| ==> values[k] == values[0]
    ensures ClusterCount(values, thr) == 1
    ensures forall k :: 0 <= k < |values| ==> ClusterLabels(values, thr)[k] == 0
    ensures ClusterValues(values, thr) == values
  {
    var keys := Buckets(values, thr);
    UniformValuesOneBucket(values, thr);
    RelabelledDense(keys);
    var reps := ClusterValues(values, thr);
    forall k | 0 <= k < |values|
      ensures reps[k] == values[k]
    {
      assert reps[k] == MinWhere(values, keys, keys[k]);
    }
  }

  /**
    A larger threshold can give more clusters: the buckets are anchored at the
    minimum, so 0, 4, 5 form two clusters with threshold 2 and three with 2.5.
  */
  lemma ClusterCountNotMonotoneInThreshold()
    ensures ClusterCount([0.0, 4.0, 5.0], 2.0) == 2
    ensures ClusterCount([0.0, 4.0, 5.0], 2.5) == 3
  {
    var values := [0.0, 4.0, 5.0];
    assert Min(values) == 0.0;
    assert Buckets(values, 2.0) == [0, 2, 2];
    assert KeySet([0, 2, 2]) == {0, 2};
    assert Buckets(values, 2.5) == [0, 1, 2];
    assert KeySet([0, 1, 2]) == {0, 1, 2};
  }
}
