/** What the centres are worth: brute-force distortion, the cost of a partition, and the centroid
    move (the formulas behind DisCrawler/KMean/KMfilterCenters.cpp). */
module Clusters {
  import opened Vectors
  import opened KcTree
  import opened Filtering
  import opened Neighbors

  /** All centre indices, the candidates with which every search of the tree starts. */
  ghost function Everyone(k: nat): seq<int> { seq(k, j => j) }

  ghost function MinTo(ctrs: seq<Point>, p: Point, k: nat): (d: real)
    requires 1 <= k <= |ctrs| && AllDim(ctrs, |p|)
    ensures forall j | 0 <= j < k :: d <= Dist(ctrs[j], p)
    ensures exists j | 0 <= j < k :: d == Dist(ctrs[j], p)
  {
    if k == 1 then Dist(ctrs[0], p)
    else
      var m := MinTo(ctrs, p, k - 1);
      if Dist(ctrs[k - 1], p) < m then Dist(ctrs[k - 1], p) else m
  }

  /** The squared distance to the nearest of all centres, by brute force. */
  ghost function MinDist(ctrs: seq<Point>, p: Point): real
    requires |ctrs| >= 1 && AllDim(ctrs, |p|)
  {
    MinTo(ctrs, p, |ctrs|)
  }

  /** Data and centres of one dimension. */
  ghost predicate Sized(pts: seq<Point>, ctrs: seq<Point>, dim: nat) {
    |ctrs| >= 1 && AllDim(pts, dim) && AllDim(ctrs, dim)
  }

  ghost function DistortionTo(pts: seq<Point>, ctrs: seq<Point>, dim: nat, n: nat): real
    requires Sized(pts, ctrs, dim) && n <= |pts|
  {
    if n == 0 then 0.0 else DistortionTo(pts, ctrs, dim, n - 1) + MinDist(ctrs, pts[n - 1])
  }

  /** The distortion by brute force: every point's squared distance to its nearest centre, summed. */
  ghost function Distortion(pts: seq<Point>, ctrs: seq<Point>, dim: nat): real
    requires Sized(pts, ctrs, dim)
  {
    DistortionTo(pts, ctrs, dim, |pts|)
  }

  /** `a` assigns one of `k` centres to each of `n` points. */
  ghost predicate IsAssignment(a: seq<int>, n: nat, k: nat) {
    |a| == n && forall i | 0 <= i < n :: 0 <= a[i] < k
  }

  ghost function CostTo(pts: seq<Point>, a: seq<int>, ctrs: seq<Point>, dim: nat, n: nat): real
    requires Sized(pts, ctrs, dim) && IsAssignment(a, |pts|, |ctrs|) && n <= |pts|
  {
    if n == 0 then 0.0 else CostTo(pts, a, ctrs, dim, n - 1) + Dist(ctrs[a[n - 1]], pts[n - 1])
  }

  /** What a given assignment costs. */
  ghost function AssignedCost(pts: seq<Point>, a: seq<int>, ctrs: seq<Point>, dim: nat): real
    requires Sized(pts, ctrs, dim) && IsAssignment(a, |pts|, |ctrs|)
  {
    CostTo(pts, a, ctrs, dim, |pts|)
  }

  /** No assignment costs less than the distortion ... */
  lemma {:induction false} DistortionIsLeast(pts: seq<Point>, a: seq<int>, ctrs: seq<Point>, dim: nat, n: nat)
    requires Sized(pts, ctrs, dim) && IsAssignment(a, |pts|, |ctrs|) && n <= |pts|
    ensures DistortionTo(pts, ctrs, dim, n) <= CostTo(pts, a, ctrs, dim, n)
  {
    if n > 0 { DistortionIsLeast(pts, a, ctrs, dim, n - 1); }
  }

  /** ... and one that sends every point to a nearest centre attains it. */
  lemma {:induction false} NearestAttains(pts: seq<Point>, a: seq<int>, ctrs: seq<Point>, dim: nat, n: nat)
    requires Sized(pts, ctrs, dim) && IsAssignment(a, |pts|, |ctrs|) && n <= |pts|
    requires forall i, j | 0 <= i < |pts| && 0 <= j < |ctrs| :: Dist(ctrs[a[i]], pts[i]) <= Dist(ctrs[j], pts[i])
    ensures CostTo(pts, a, ctrs, dim, n) == DistortionTo(pts, ctrs, dim, n)
  {
    if n > 0 { NearestAttains(pts, a, ctrs, dim, n - 1); }
  }

  /** The tree holds all points. */
  ghost predicate Whole(t: Tree, pts: seq<Point>, dim: nat) {
    && AllDim(pts, dim) && Fits(t, pts, dim)
    && forall i :: i in Points(t) <==> 0 <= i < |pts|
  }

  /** The assignment that the tree search makes. */
  ghost function Assignment(t: Tree, pts: seq<Point>, ctrs: seq<Point>, dim: nat): (a: seq<int>)
    requires Whole(t, pts, dim) && Sized(pts, ctrs, dim)
    ensures IsAssignment(a, |pts|, |ctrs|)
  {
    seq(|pts|, i requires 0 <= i < |pts| => Owner(t, Everyone(|ctrs|), ctrs, pts, dim, i))
  }

  /** Pruned search refines brute force, for the whole data set: no centre at all is nearer to a
      point than the one the tree assigns, so the assignment costs exactly the distortion. */
  lemma SearchIsExact(t: Tree, pts: seq<Point>, ctrs: seq<Point>, dim: nat)
    requires Whole(t, pts, dim) && Sized(pts, ctrs, dim)
    ensures var a := Assignment(t, pts, ctrs, dim);
      && (forall i | 0 <= i < |pts| :: Dist(ctrs[a[i]], pts[i]) == MinDist(ctrs, pts[i]))
      && AssignedCost(pts, a, ctrs, dim) == Distortion(pts, ctrs, dim)
  {
    var a := Assignment(t, pts, ctrs, dim);
    var all := Everyone(|ctrs|);
    forall i, j | 0 <= i < |pts| && 0 <= j < |ctrs| ensures Dist(ctrs[a[i]], pts[i]) <= Dist(ctrs[j], pts[i]) {
      assert all[j] == j;
      OwnerIsNearest(t, all, ctrs, pts, dim, i, j);
    }
    NearestAttains(pts, a, ctrs, dim, |pts|);
  }

  // ---------------------------------------------------------------- clusters

  ghost function Cluster(a: seq<int>, j: int): set<int> { set i | 0 <= i < |a| && a[i] == j }

  ghost function ClusterAgg(pts: seq<Point>, dim: nat, a: seq<int>, j: int): (g: Agg)
    requires AllDim(pts, dim)
    ensures |g.sum| == dim
  {
    AggOf(pts, dim, Cluster(a, j))
  }

  /** The aggregates of all clusters of an assignment. */
  ghost function ClusterAggs(pts: seq<Point>, dim: nat, a: seq<int>, k: nat): (gs: seq<Agg>)
    requires AllDim(pts, dim)
    ensures TallyDims(gs, dim, k)
  {
    seq(k, j requires 0 <= j < k => ClusterAgg(pts, dim, a, j))
  }

  /** The tallies before a search. */
  ghost function Zeros(dim: nat, k: nat): (z: seq<Agg>)
    ensures TallyDims(z, dim, k)
  {
    seq(k, j => Nothing(dim))
  }

  /** Starting from zeros, the neighbour search leaves exactly the clusters of its assignment. */
  lemma PostedClusters(t: Tree, pts: seq<Point>, ctrs: seq<Point>, dim: nat)
    requires Whole(t, pts, dim) && Sized(pts, ctrs, dim)
    ensures Posted(Zeros(dim, |ctrs|), t, Everyone(|ctrs|), ctrs, pts, dim)
      == ClusterAggs(pts, dim, Assignment(t, pts, ctrs, dim), |ctrs|)
  {
    var zeros := Zeros(dim, |ctrs|);
    var a := Assignment(t, pts, ctrs, dim);
    forall j | 0 <= j < |ctrs|
      ensures Posted(zeros, t, Everyone(|ctrs|), ctrs, pts, dim)[j] == ClusterAgg(pts, dim, a, j)
    {
      assert Owned(t, Everyone(|ctrs|), ctrs, pts, dim, j) == Cluster(a, j);
      JoinNothing(ClusterAgg(pts, dim, a, j));
    }
  }

  /** The cost formula summed over the first k clusters, for the first n points. */
  ghost function ClusterCostsTo(pts: seq<Point>, dim: nat, a: seq<int>, ctrs: seq<Point>, n: nat, k: nat): real
    requires Sized(pts, ctrs, dim) && n <= |pts| && k <= |ctrs|
  {
    if k == 0 then 0.0
    else ClusterCostsTo(pts, dim, a, ctrs, n, k - 1) + Cost(AggTo(pts, dim, Cluster(a, k - 1), n), ctrs[k - 1])
  }

  lemma {:induction false} ClusterCostsEmpty(pts: seq<Point>, dim: nat, a: seq<int>, ctrs: seq<Point>, k: nat)
    requires Sized(pts, ctrs, dim) && k <= |ctrs|
    ensures ClusterCostsTo(pts, dim, a, ctrs, 0, k) == 0.0
  {
    if k > 0 {
      ClusterCostsEmpty(pts, dim, a, ctrs, k - 1);
      CostNothing(ctrs[k - 1]);
    }
  }

  /** One more point adds its distance to the one cluster that it is in. */
  lemma {:induction false} ClusterCostsStep(pts: seq<Point>, dim: nat, a: seq<int>, ctrs: seq<Point>, n: nat, k: nat)
    requires Sized(pts, ctrs, dim) && IsAssignment(a, |pts|, |ctrs|) && 1 <= n <= |pts| && k <= |ctrs|
    ensures ClusterCostsTo(pts, dim, a, ctrs, n, k)
      == ClusterCostsTo(pts, dim, a, ctrs, n - 1, k) + (if a[n - 1] < k then Dist(ctrs[a[n - 1]], pts[n - 1]) else 0.0)
  {
    if k > 0 {
      ClusterCostsStep(pts, dim, a, ctrs, n, k - 1);
      var c, p := ctrs[k - 1], pts[n - 1];
      var before := AggTo(pts, dim, Cluster(a, k - 1), n - 1);
      var more := if n - 1 in Cluster(a, k - 1) then Single(p) else Nothing(dim);
      CostJoin(before, more, c);
      CostSingle(p, c);
      CostNothing(c);
    }
  }

  /** Conservation: the cost formula over the clusters is the sum of the points' distances. */
  lemma {:induction false} ClusterCostsTotal(pts: seq<Point>, dim: nat, a: seq<int>, ctrs: seq<Point>, n: nat)
    requires Sized(pts, ctrs, dim) && IsAssignment(a, |pts|, |ctrs|) && n <= |pts|
    ensures ClusterCostsTo(pts, dim, a, ctrs, n, |ctrs|) == CostTo(pts, a, ctrs, dim, n)
  {
    if n == 0 {
      ClusterCostsEmpty(pts, dim, a, ctrs, |ctrs|);
    } else {
      ClusterCostsTotal(pts, dim, a, ctrs, n - 1);
      ClusterCostsStep(pts, dim, a, ctrs, n, |ctrs|);
    }
  }

  /** Conservation: the clusters of an assignment, joined, are the aggregate of all points; so the
      weights total n and the sums total the root's sum. */
  lemma {:induction false} ClustersConserve(pts: seq<Point>, dim: nat, s: set<int>, a: seq<int>, n: nat, k: nat)
    requires AllDim(pts, dim) && IsAssignment(a, |pts|, k) && n <= |pts|
    requires forall i | 0 <= i < |pts| :: i in s
    ensures AggTo(pts, dim, s, n) == TotalTo(pts, dim, a, n, k)
  {
    if n == 0 {
      TotalNothing(pts, dim, a, k);
    } else {
      ClustersConserve(pts, dim, s, a, n - 1, k);
      TotalStep(pts, dim, a, n, k);
    }
  }

  /** The clusters' aggregates, over the first `n` points, joined. */
  ghost function TotalTo(pts: seq<Point>, dim: nat, a: seq<int>, n: nat, k: nat): (g: Agg)
    requires AllDim(pts, dim) && n <= |pts|
    ensures |g.sum| == dim
  {
    if k == 0 then Nothing(dim)
    else Join(TotalTo(pts, dim, a, n, k - 1), AggTo(pts, dim, Cluster(a, k - 1), n))
  }

  lemma {:induction false} TotalNothing(pts: seq<Point>, dim: nat, a: seq<int>, k: nat)
    requires AllDim(pts, dim)
    ensures TotalTo(pts, dim, a, 0, k) == Nothing(dim)
  {
    if k > 0 {
      TotalNothing(pts, dim, a, k - 1);
      JoinNothing(Nothing(dim));
    }
  }

  lemma {:induction false} TotalStep(pts: seq<Point>, dim: nat, a: seq<int>, n: nat, k: nat)
    requires AllDim(pts, dim) && 1 <= n <= |pts| && |a| == |pts| && a[n - 1] >= 0
    ensures TotalTo(pts, dim, a, n, k)
      == Join(TotalTo(pts, dim, a, n - 1, k), if a[n - 1] < k then Single(pts[n - 1]) else Nothing(dim))
  {
    if k == 0 {
      JoinNothing(Nothing(dim));
    } else {
      TotalStep(pts, dim, a, n, k - 1);
      var e := Single(pts[n - 1]);
      var t, g := TotalTo(pts, dim, a, n - 1, k - 1), AggTo(pts, dim, Cluster(a, k - 1), n - 1);
      JoinNothing(t);
      JoinNothing(g);
      JoinNothing(Join(t, g));
      JoinAssoc(t, g, e);
      JoinSwap(g, e);
      JoinAssoc(t, e, g);
    }
  }
}
