/**
 * The cluster-count resolver `get_fclusters` (get_clusters.py): a bisection
 * over the distance threshold at which the merge tree is cut, looking for a
 * cut that yields a given number of flat clusters.
 *
 * The tree-cutting primitive (scipy's `fcluster` with the 'distance'
 * criterion) is not modelled; it is the parameter `cut`, a function from a
 * threshold to one cluster label per sample. Thresholds are exact reals.
 */
module Bisection {
  import opened Wrappers

  /** One row of a linkage matrix: the two clusters merged, their distance, the size of the new cluster. */
  datatype MergeStep = MergeStep(first: int, second: int, distance: real, size: int)

  /** A linkage matrix for N samples has N - 1 rows. */
  type Linkage = seq<MergeStep>

  /** A tree-cutting primitive: threshold to cluster labels, one per sample. */
  type Cut = real -> seq<int>

  /** `Z[:,2].max()`: the largest merge distance of a non-empty linkage. */
  function MaxDistance(z: Linkage): real
    requires |z| > 0
  {
    if |z| == 1 then z[0].distance
    else
      var d := MaxDistance(z[..|z| - 1]);
      if z[|z| - 1].distance > d then z[|z| - 1].distance else d
  }

  /** `labels.max()`: the largest label of a non-empty label vector. */
  function MaxLabel(labels: seq<int>): int
    requires |labels| > 0
  {
    if |labels| == 1 then labels[0]
    else
      var m := MaxLabel(labels[..|labels| - 1]);
      if labels[|labels| - 1] > m then labels[|labels| - 1] else m
  }

  /** `MaxDistance` is a merge distance of the linkage and no row has a larger one. */
  lemma {:induction false} MaxDistanceIsMaximum(z: Linkage)
    requires |z| > 0
    ensures forall i :: 0 <= i < |z| ==> z[i].distance <= MaxDistance(z)
    ensures exists i :: 0 <= i < |z| && z[i].distance == MaxDistance(z)
  {
    if |z| > 1 {
      var init := z[..|z| - 1];
      MaxDistanceIsMaximum(init);
      var i :| 0 <= i < |init| && init[i].distance == MaxDistance(init);
      assert forall j :: 0 <= j < |init| ==> init[j] == z[j];
      if z[|z| - 1].distance <= MaxDistance(init) {
        assert z[i].distance == MaxDistance(z);
      } else {
        assert z[|z| - 1].distance == MaxDistance(z);
      }
    } else {
      assert z[0].distance == MaxDistance(z);
    }
  }

  /** `MaxLabel` is a label of the vector and no sample has a larger one. */
  lemma {:induction false} MaxLabelIsMaximum(labels: seq<int>)
    requires |labels| > 0
    ensures forall i :: 0 <= i < |labels| ==> labels[i] <= MaxLabel(labels)
    ensures exists i :: 0 <= i < |labels| && labels[i] == MaxLabel(labels)
  {
    if |labels| > 1 {
      var init := labels[..|labels| - 1];
      MaxLabelIsMaximum(init);
      var i :| 0 <= i < |init| && init[i] == MaxLabel(init);
      assert forall j :: 0 <= j < |init| ==> init[j] == labels[j];
      if labels[|labels| - 1] <= MaxLabel(init) {
        assert labels[i] == MaxLabel(labels);
      } else {
        assert labels[|labels| - 1] == MaxLabel(labels);
      }
    } else {
      assert labels[0] == MaxLabel(labels);
    }
  }

  /** Every cut labels at least one sample, so it has a cluster count. */
  ghost predicate Labelled(cut: Cut) {
    forall t :: |cut(t)| > 0
  }

  /** The number of clusters a cut at `t` yields: its largest label. */
  function Clusters(cut: Cut, t: real): int
    requires Labelled(cut)
  {
    MaxLabel(cut(t))
  }

  /**
   * What the resolver relies on but never checks: cutting higher merges more,
   * so the cluster count does not increase as the threshold grows.
   */
  ghost predicate Monotone(cut: Cut)
    requires Labelled(cut)
  {
    forall s, t :: s <= t ==> Clusters(cut, t) <= Clusters(cut, s)
  }

  /** The search state: the interval `[left, right]` and the next threshold `mid`. */
  datatype Bracket = Bracket(left: real, right: real, mid: real)

  /** `left = 0; right = max distance; mid = (right - left) / 2`. */
  function Start(maxDist: real): Bracket {
    Bracket(0.0, maxDist, (maxDist - 0.0) / 2.0)
  }

  /** One probe that did not match: `n` clusters at `b.mid`, compared with `target`. */
  function Narrow(b: Bracket, n: int, target: int): Bracket {
    if n > target then Bracket(b.mid, b.right, (b.right + b.mid) / 2.0)
    else if n < target then Bracket(b.left, b.mid, (b.mid + b.left) / 2.0)
    else b
  }

  /** The state after `k` probes, none of which returned. */
  function After(cut: Cut, target: int, maxDist: real, k: nat): Bracket
    requires Labelled(cut)
  {
    if k == 0 then Start(maxDist)
    else
      var b := After(cut, target, maxDist, k - 1);
      Narrow(b, Clusters(cut, b.mid), target)
  }

  /** None of the first `k` probes hit the target. */
  ghost predicate Unmatched(cut: Cut, target: int, maxDist: real, k: nat)
    requires Labelled(cut)
  {
    forall j :: 0 <= j < k ==> Clusters(cut, After(cut, target, maxDist, j).mid) != target
  }

  function Pow2(k: nat): (p: nat)
    ensures p >= 1
  {
    if k == 0 then 1 else 2 * Pow2(k - 1)
  }

  /** The bounds stay ordered, inside `[0, maxDist]`, with `mid` their average. */
  lemma {:induction false} AfterOrdered(cut: Cut, target: int, maxDist: real, k: nat)
    requires Labelled(cut) && maxDist >= 0.0
    ensures var b := After(cut, target, maxDist, k);
      0.0 <= b.left <= b.mid <= b.right <= maxDist && b.mid == (b.left + b.right) / 2.0
  {
    if k > 0 {
      AfterOrdered(cut, target, maxDist, k - 1);
    }
  }

  /** A probe that does not match replaces exactly one bound by `mid` and re-averages. */
  lemma StepReplacesOneBound(cut: Cut, target: int, maxDist: real, k: nat)
    requires Labelled(cut)
    requires Clusters(cut, After(cut, target, maxDist, k).mid) != target
    ensures var b, b' := After(cut, target, maxDist, k), After(cut, target, maxDist, k + 1);
      var n := Clusters(cut, b.mid);
      && (n > target ==> b'.left == b.mid && b'.right == b.right)
      && (n < target ==> b'.left == b.left && b'.right == b.mid)
      && b'.mid == (b'.left + b'.right) / 2.0
  {
  }

  /** The interval never widens: later bounds lie within earlier ones. */
  lemma {:induction false} AfterNeverWidens(cut: Cut, target: int, maxDist: real, j: nat, k: nat)
    requires Labelled(cut) && maxDist >= 0.0 && j <= k
    ensures After(cut, target, maxDist, j).left <= After(cut, target, maxDist, k).left
    ensures After(cut, target, maxDist, k).right <= After(cut, target, maxDist, j).right
    decreases k
  {
    if j < k {
      AfterNeverWidens(cut, target, maxDist, j, k - 1);
      AfterOrdered(cut, target, maxDist, k - 1);
    }
  }

  /** `x / 2^k`, computed as `k` successive halvings. */
  function Halved(x: real, k: nat): real {
    if k == 0 then x else Halved(x, k - 1) / 2.0
  }

  lemma {:induction false} HalvedIsDivision(x: real, k: nat)
    ensures Halved(x, k) == x / (Pow2(k) as real)
  {
    if k > 0 {
      HalvedIsDivision(x, k - 1);
      var p := Pow2(k - 1) as real;
      assert Pow2(k) as real == 2.0 * p;
      assert (x / p) / 2.0 == x / (2.0 * p);
    }
  }

  /** After `k` probes that all missed, the interval is `maxDist / 2^k` wide. */
  lemma {:induction false} AfterWidth(cut: Cut, target: int, maxDist: real, k: nat)
    requires Labelled(cut) && Unmatched(cut, target, maxDist, k)
    ensures var b := After(cut, target, maxDist, k);
      b.right - b.left == maxDist / (Pow2(k) as real)
  {
    AfterWidthHalved(cut, target, maxDist, k);
    HalvedIsDivision(maxDist, k);
  }

  lemma {:induction false} AfterWidthHalved(cut: Cut, target: int, maxDist: real, k: nat)
    requires Labelled(cut) && Unmatched(cut, target, maxDist, k)
    ensures var b := After(cut, target, maxDist, k);
      b.right - b.left == Halved(maxDist, k) && b.mid == (b.left + b.right) / 2.0
  {
    if k > 0 {
      AfterWidthHalved(cut, target, maxDist, k - 1);
      assert Clusters(cut, After(cut, target, maxDist, k - 1).mid) != target;
    }
  }

  /**
   * A moved bound is a threshold that was probed and missed on its side:
   * cutting at a raised `left` gives more clusters than the target, cutting
   * at a lowered `right` gives fewer.
   */
  lemma {:induction false} AfterBrackets(cut: Cut, target: int, maxDist: real, k: nat)
    requires Labelled(cut)
    ensures var b := After(cut, target, maxDist, k);
      && (b.left == 0.0 || Clusters(cut, b.left) > target)
      && (b.right == maxDist || Clusters(cut, b.right) < target)
  {
    if k > 0 {
      AfterBrackets(cut, target, maxDist, k - 1);
    }
  }

  /**
   * With a monotone count, a moved `left` has only too many clusters at or
   * below it and a moved `right` only too few at or above it, so every
   * threshold that hits the target lies strictly inside a moved bound.
   */
  lemma AfterKeepsTargetInside(cut: Cut, target: int, maxDist: real, k: nat, t: real)
    requires Labelled(cut) && Monotone(cut)
    ensures var b := After(cut, target, maxDist, k);
      && (b.left != 0.0 && t <= b.left ==> Clusters(cut, t) > target)
      && (b.right != maxDist && b.right <= t ==> Clusters(cut, t) < target)
      && (Clusters(cut, t) == target ==> (b.left == 0.0 || b.left < t) && (b.right == maxDist || t < b.right))
  {
    AfterBrackets(cut, target, maxDist, k);
  }

  /**
   * On exhaustion the returned vector comes from the last probed `mid`; the
   * `mid` recomputed after it is a different threshold whenever the tree has
   * a positive merge distance.
   */
  lemma UpdatedMidDiffers(cut: Cut, target: int, maxDist: real, k: nat)
    requires Labelled(cut) && maxDist > 0.0 && Unmatched(cut, target, maxDist, k + 1)
    ensures After(cut, target, maxDist, k + 1).mid != After(cut, target, maxDist, k).mid
  {
    AfterWidth(cut, target, maxDist, k);
    var p := Pow2(k) as real;
    assert maxDist / p > 0.0;
  }

  /**
   * With a positive largest merge distance every probe lies strictly below
   * it: the right bound only ever comes down to a probed threshold, so the
   * top of the interval is never cut at.
   */
  lemma {:induction false} ProbesBelowMax(cut: Cut, target: int, maxDist: real, k: nat)
    requires Labelled(cut) && maxDist > 0.0
    ensures var b := After(cut, target, maxDist, k);
      b.left < maxDist && b.right <= maxDist && b.mid < maxDist
  {
    if k > 0 {
      ProbesBelowMax(cut, target, maxDist, k - 1);
    }
  }

  /**
   * A target only the top of the interval reaches is never hit: when every
   * cut below the largest merge distance leaves two clusters or more, no
   * probe finds a single cluster, and a resolution for one cluster is inexact
   * and has used every allowed probe.
   */
  lemma SingleClusterNeverHit(cut: Cut, maxDist: real, maxIterations: int, k: nat, res: Resolution)
    requires Labelled(cut) && maxDist > 0.0
    requires forall t :: t < maxDist ==> Clusters(cut, t) >= 2
    ensures Unmatched(cut, 1, maxDist, k)
    ensures Resolved(cut, 1, maxDist, maxIterations, res) ==> !res.exact && res.cuts == maxIterations
  {
    forall j | 0 <= j < k
      ensures Clusters(cut, After(cut, 1, maxDist, j).mid) != 1
    {
      ProbesBelowMax(cut, 1, maxDist, j);
    }
    if Resolved(cut, 1, maxDist, maxIterations, res) {
      ProbesBelowMax(cut, 1, maxDist, res.cuts - 1);
    }
  }

  datatype ClusterError =
    | TooManyClusters  // target above the number of linkage rows (ValueError)
    | EmptyLinkage     // maximum of an empty distance column (ValueError)
    | NoIterations     // no probe made, so there is nothing to return (UnboundLocalError)

  /**
   * What the resolver returns: the label vector of a probe, its cluster
   * count, the threshold it was cut at, the number of cuts made, and whether
   * the count is the target (the exact match) or an approximation.
   */
  datatype Resolution = Resolution(labels: seq<int>, clusters: int, threshold: real, cuts: nat, exact: bool)

  /**
   * What a returned resolution promises: between one and `maxIterations`
   * cuts were made, every probe before the last missed the target, the vector
   * is the cut at the last probed threshold (not at the `mid` recomputed after
   * it), and it is flagged exact exactly when its count is the target, which
   * short of the last allowed probe it always is.
   */
  ghost predicate Resolved(cut: Cut, target: int, maxDist: real, maxIterations: int, res: Resolution)
    requires Labelled(cut)
  {
    && 1 <= res.cuts <= maxIterations
    && res.threshold == After(cut, target, maxDist, res.cuts - 1).mid
    && Unmatched(cut, target, maxDist, res.cuts - 1)
    && res.labels == cut(res.threshold)
    && res.clusters == MaxLabel(res.labels)
    && (res.exact <==> res.clusters == target)
    && (!res.exact ==> res.cuts == maxIterations)
  }

  /** The probe after `k` misses, as a resolution: an exact match, or the last allowed probe. */
  function ProbeAt(cut: Cut, target: int, maxDist: real, k: nat): (res: Resolution)
    requires Labelled(cut)
  {
    var t := After(cut, target, maxDist, k).mid;
    Resolution(cut(t), Clusters(cut, t), t, k + 1, Clusters(cut, t) == target)
  }

  lemma ProbeAtResolves(cut: Cut, target: int, maxDist: real, maxIterations: int, k: nat)
    requires Labelled(cut) && Unmatched(cut, target, maxDist, k) && k < maxIterations
    requires Clusters(cut, After(cut, target, maxDist, k).mid) == target || k + 1 == maxIterations
    ensures Resolved(cut, target, maxDist, maxIterations, ProbeAt(cut, target, maxDist, k))
    ensures maxDist >= 0.0 ==> 0.0 <= ProbeAt(cut, target, maxDist, k).threshold <= maxDist
  {
    if maxDist >= 0.0 {
      AfterOrdered(cut, target, maxDist, k);
    }
  }

  /** `get_fclusters(Z, target_num_clusters, max_iterations)`. */
  method GetFClusters(z: Linkage, target: int, maxIterations: int, cut: Cut)
    returns (r: Result<Resolution, ClusterError>)
    requires forall t :: |cut(t)| == |z| + 1
    ensures target > |z| ==> r == Failure(TooManyClusters)
    ensures target <= |z| && |z| == 0 ==> r == Failure(EmptyLinkage)
    ensures target <= |z| && |z| > 0 && maxIterations <= 0 ==> r == Failure(NoIterations)
    ensures r.Success? <==> target <= |z| && |z| > 0 && maxIterations > 0
    ensures r.Success? ==> Labelled(cut) && |z| > 0 && Resolved(cut, target, MaxDistance(z), maxIterations, r.value)
    ensures r.Success? && MaxDistance(z) >= 0.0 ==> 0.0 <= r.value.threshold <= MaxDistance(z)
  {
    if target > |z| {
      return Failure(TooManyClusters);
    }
    if |z| == 0 {
      return Failure(EmptyLinkage);
    }
    assert Labelled(cut) by {
      forall t ensures |cut(t)| > 0 {
        assert |cut(t)| == |z| + 1;
      }
    }
    var maxDist := MaxDistance(z);
    var left := 0.0;
    var right := maxDist;
    var mid := (right - left) / 2.0;
    var iteration := 0;
    var probe := 0.0;
    var fMid: seq<int> := [];
    var nClusters := 0;
    while iteration < maxIterations
      invariant 0 <= iteration && (iteration == 0 || iteration <= maxIterations)
      invariant Bracket(left, right, mid) == After(cut, target, maxDist, iteration)
      invariant Unmatched(cut, target, maxDist, iteration)
      invariant iteration > 0 ==> probe == After(cut, target, maxDist, iteration - 1).mid
      invariant iteration > 0 ==> fMid == cut(probe) && nClusters == MaxLabel(fMid) && nClusters != target
    {
      ghost var b := After(cut, target, maxDist, iteration);
      probe := mid;
      fMid := cut(probe);
      nClusters := MaxLabel(fMid);
      assert nClusters == Clusters(cut, b.mid);
      assert After(cut, target, maxDist, iteration + 1) == Narrow(b, nClusters, target);
      if nClusters > target {
        left := mid;
        mid := (right + left) / 2.0;
      } else if nClusters < target {
        right := mid;
        mid := (right + left) / 2.0;
      } else {
        ProbeAtResolves(cut, target, maxDist, maxIterations, iteration);
        return Success(Resolution(fMid, nClusters, probe, iteration + 1, true));
      }
      assert Bracket(left, right, mid) == Narrow(b, nClusters, target);
      iteration := iteration + 1;
    }
    if iteration == 0 {
      return Failure(NoIterations);
    }
    ProbeAtResolves(cut, target, maxDist, maxIterations, iteration - 1);
    return Success(Resolution(fMid, nClusters, probe, iteration, false));
  }
}
