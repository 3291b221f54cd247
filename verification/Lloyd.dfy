/** Lloyd's stage on values: moving centres towards centroids never raises the distortion, and an
    undampened sequence of strictly improving stages is finite. */
module Lloyd {
  import opened Vectors
  import opened KcTree
  import opened Clusters

  /** The centroid of a non-empty group. */
  ghost function Mean(g: Agg): (m: Point)
    requires g.n > 0
    ensures |m| == |g.sum|
  {
    seq(|g.sum|, d requires 0 <= d < |g.sum| => Quotient(g.sum[d], g.n as real))
  }

  function Quotient(s: real, w: real): real
    requires w != 0.0
  {
    s / w
  }

  /** One coordinate of a dampened move. */
  function Step(c: real, s: real, w: real, df: real): real
    requires w != 0.0
  {
    (1.0 - df) * c + df * s / w
  }

  /** A centre moved towards the centroid of its group; it stays if the group is empty. */
  ghost function MoveTo(c: Point, g: Agg, df: real): (m: Point)
    requires |g.sum| == |c|
    ensures |m| == |c|
  {
    if g.n > 0 then seq(|c|, d requires 0 <= d < |c| => Step(c[d], g.sum[d], g.n as real, df)) else c
  }

  /** All centres moved, for the assignment `a`. */
  ghost function Moved(pts: seq<Point>, dim: nat, a: seq<int>, ctrs: seq<Point>, df: real): (m: seq<Point>)
    requires AllDim(pts, dim) && AllDim(ctrs, dim)
    ensures |m| == |ctrs| && AllDim(m, dim)
  {
    seq(|ctrs|, j requires 0 <= j < |ctrs| => MoveTo(ctrs[j], ClusterAgg(pts, dim, a, j), df))
  }

  /** A move leaves the factor 1 - df of the way to the centroid, which is the sum divided by the count; without
      points there is no move. */
  lemma WayLeft(c: Point, g: Agg, df: real, d: nat)
    requires |g.sum| == |c| && d < |c|
    ensures g.n <= 0 ==> MoveTo(c, g, df) == c
    ensures g.n > 0 ==>
      Mean(g)[d] * g.n as real == g.sum[d] && MoveTo(c, g, df)[d] - Mean(g)[d] == (1.0 - df) * (c[d] - Mean(g)[d])
  {
    if g.n > 0 {
      WayLeftStep(c[d], g.sum[d], g.n as real, df);
    }
  }

  lemma WayLeftStep(c: real, s: real, w: real, df: real)
    requires w > 0.0
    ensures Quotient(s, w) * w == s && Step(c, s, w, df) - Quotient(s, w) == (1.0 - df) * (c - Quotient(s, w))
  {
    var m := s / w;
    assert s == w * m;
    assert df * s / w == df * m;
  }

  // ------------------------------------------------ the exact gain of a move

  /** With e = c - s/w the old cost minus the new is w df (2 - df) e^2, coordinate by coordinate. */
  function CostStep(c: real, s: real, w: real): real { w * (c * c) - 2.0 * (c * s) }

  function GainFactor(w: real, df: real): real { w * (df * (2.0 - df)) }

  function Times(x: real, y: real): real { x * y }

  lemma GainStep(c: real, s: real, w: real, df: real)
    requires w > 0.0
    ensures CostStep(c, s, w) - CostStep(Step(c, s, w, df), s, w) == Times(GainFactor(w, df), Sq(c - Quotient(s, w)))
  {
    var m := s / w;
    var e := c - m;
    var c' := Step(c, s, w, df);
    assert s == w * m;
    assert df * s / w == df * m;
    assert c' == c - df * e;
    GainPolynomial(m, e, w, df);
  }

  lemma GainPolynomial(m: real, e: real, w: real, df: real)
    ensures CostStep(m + e, w * m, w) - CostStep(m + e - df * e, w * m, w) == GainFactor(w, df) * Sq(e)
  {
    Complete(m, e, w);
    Complete(m, e - df * e, w);
    assert Sq(e - df * e) == Sq(1.0 - df) * Sq(e);
    assert w * Sq(e) - w * (Sq(1.0 - df) * Sq(e)) == w * (df * (2.0 - df)) * Sq(e);
  }

  /** Completing the square. */
  lemma Complete(m: real, e: real, w: real)
    ensures CostStep(m + e, w * m, w) == w * Sq(e) - w * Sq(m)
  {
  }

  ghost function CostDims(c: Point, s: Point, w: real, d: nat): real
    requires |c| == |s| && d <= |c|
  {
    if d == 0 then 0.0 else CostDims(c, s, w, d - 1) + CostStep(c[d - 1], s[d - 1], w)
  }

  lemma {:induction false} CostDimsAreCost(c: Point, s: Point, w: real, d: nat)
    requires |c| == |s| && d <= |c|
    ensures CostDims(c, s, w, d) == w * DotTo(c, c, d) - 2.0 * DotTo(c, s, d)
  {
    if d > 0 {
      CostDimsAreCost(c, s, w, d - 1);
      Distribute(w, DotTo(c, c, d - 1), c[d - 1] * c[d - 1]);
    }
  }

  lemma Distribute(w: real, x: real, y: real)
    ensures w * (x + y) == w * x + w * y
  {
  }

  /** Gains that are `f` times a squared difference in every coordinate add up to `f` times a distance. */
  lemma {:induction false} GainDims(c: Point, m: Point, mean: Point, s: Point, w: real, f: real, d: nat)
    requires |c| == |m| == |mean| == |s| && d <= |c|
    requires forall e | 0 <= e < d :: CostStep(c[e], s[e], w) - CostStep(m[e], s[e], w) == Times(f, Sq(c[e] - mean[e]))
    ensures CostDims(c, s, w, d) - CostDims(m, s, w, d) == Times(f, DistTo(c, mean, d))
  {
    hide CostStep, Sq;
    if d > 0 {
      GainDims(c, m, mean, s, w, f, d - 1);
      Distribute(f, DistTo(c, mean, d - 1), Sq(c[d - 1] - mean[d - 1]));
    }
  }

  lemma MoveGainAt(c: Point, g: Agg, df: real, e: nat)
    requires |c| == |g.sum| && g.n > 0 && e < |c|
    ensures var w := g.n as real;
      CostStep(c[e], g.sum[e], w) - CostStep(MoveTo(c, g, df)[e], g.sum[e], w)
      == Times(GainFactor(w, df), Sq(c[e] - Mean(g)[e]))
  {
    hide Sq, Step, CostStep, GainFactor, Times, Quotient;
    GainStep(c[e], g.sum[e], g.n as real, df);
  }

  lemma MoveGainDims(c: Point, g: Agg, df: real)
    requires |c| == |g.sum| && g.n > 0
    ensures CostDims(c, g.sum, g.n as real, |c|) - CostDims(MoveTo(c, g, df), g.sum, g.n as real, |c|)
      == Times(GainFactor(g.n as real, df), Dist(c, Mean(g)))
  {
    hide Sq, CostStep, GainFactor, Times, MoveTo, Mean, CostDims, DistTo;
    var w, m, mean := g.n as real, MoveTo(c, g, df), Mean(g);
    forall e | 0 <= e < |c|
      ensures CostStep(c[e], g.sum[e], w) - CostStep(m[e], g.sum[e], w) == Times(GainFactor(w, df), Sq(c[e] - mean[e]))
    {
      MoveGainAt(c, g, df, e);
    }
    GainDims(c, m, mean, g.sum, w, GainFactor(w, df), |c|);
  }

  lemma CostIsDims(g: Agg, c: Point)
    requires |c| == |g.sum|
    ensures Cost(g, c) == g.sq + CostDims(c, g.sum, g.n as real, |c|)
  {
    hide DotTo, CostDims;
    CostDimsAreCost(c, g.sum, g.n as real, |c|);
  }

  /** The exact gain of moving one centre: n df (2 - df) times its squared distance to the centroid. */
  lemma MoveGain(c: Point, g: Agg, df: real)
    requires |c| == |g.sum| && g.n > 0
    ensures Cost(g, c) - Cost(g, MoveTo(c, g, df)) == Times(GainFactor(g.n as real, df), Dist(c, Mean(g)))
  {
    hide Cost, GainFactor, CostDims, MoveTo, Times;
    MoveGainDims(c, g, df);
    CostIsDims(g, c);
    CostIsDims(g, MoveTo(c, g, df));
  }

  lemma GainFactorSign(w: real, df: real)
    requires w > 0.0 && 0.0 <= df <= 1.0
    ensures GainFactor(w, df) >= 0.0
    ensures GainFactor(w, 1.0) == w
  {
    ProductSign(df, 2.0 - df);
    ProductSign(w, df * (2.0 - df));
  }

  lemma ProductSign(x: real, y: real)
    requires x >= 0.0 && y >= 0.0
    ensures x * y >= 0.0
  {
  }

  /** Moving one centre never raises the cost of its group. */
  lemma MoveNeverRaises(c: Point, g: Agg, df: real)
    requires |c| == |g.sum| && 0.0 <= df <= 1.0
    ensures Cost(g, MoveTo(c, g, df)) <= Cost(g, c)
  {
    if g.n > 0 {
      MoveGain(c, g, df);
      GainFactorSign(g.n as real, df);
      DistNonNegative(c, Mean(g));
      ProductSign(GainFactor(g.n as real, df), Dist(c, Mean(g)));
    }
  }

  lemma {:induction false} MovedCosts(pts: seq<Point>, dim: nat, a: seq<int>, ctrs: seq<Point>, df: real, k: nat)
    requires Sized(pts, ctrs, dim) && k <= |ctrs| && 0.0 <= df <= 1.0
    ensures ClusterCostsTo(pts, dim, a, Moved(pts, dim, a, ctrs, df), |pts|, k)
      <= ClusterCostsTo(pts, dim, a, ctrs, |pts|, k)
  {
    hide MoveTo, Cost, AggTo;
    if k > 0 {
      MovedCosts(pts, dim, a, ctrs, df, k - 1);
      MoveNeverRaises(ctrs[k - 1], ClusterAgg(pts, dim, a, k - 1), df);
    }
  }

  /** One stage of Lloyd's algorithm as the program performs it: assign by tree search, then move. */
  ghost function Stage(t: Tree, pts: seq<Point>, dim: nat, ctrs: seq<Point>, df: real): (m: seq<Point>)
    requires Whole(t, pts, dim) && Sized(pts, ctrs, dim)
    ensures |m| == |ctrs| && Sized(pts, m, dim)
  {
    Moved(pts, dim, Assignment(t, pts, ctrs, dim), ctrs, df)
  }

  /** One Lloyd stage never raises the distortion, whatever the dampening factor in [0, 1] and
      however many clusters are empty. */
  lemma StageNeverRaises(t: Tree, pts: seq<Point>, dim: nat, ctrs: seq<Point>, df: real)
    requires Whole(t, pts, dim) && Sized(pts, ctrs, dim) && 0.0 <= df <= 1.0
    ensures Distortion(pts, Stage(t, pts, dim, ctrs, df), dim) <= Distortion(pts, ctrs, dim)
  {
    var a := Assignment(t, pts, ctrs, dim);
    var m := Moved(pts, dim, a, ctrs, df);
    SearchIsExact(t, pts, ctrs, dim);
    ClusterCostsTotal(pts, dim, a, ctrs, |pts|);
    ClusterCostsTotal(pts, dim, a, m, |pts|);
    MovedCosts(pts, dim, a, ctrs, df, |ctrs|);
    DistortionIsLeast(pts, a, m, dim, |pts|);
  }

  // ------------------------------------------------- undampened stages end

  /** The least cost of a group over all centres. */
  ghost function FloorOf(g: Agg): real {
    if g.n > 0 then Cost(g, Mean(g)) else 0.0
  }

  ghost function FloorTo(pts: seq<Point>, dim: nat, a: seq<int>, k: nat): real
    requires AllDim(pts, dim)
  {
    if k == 0 then 0.0 else FloorTo(pts, dim, a, k - 1) + FloorOf(ClusterAgg(pts, dim, a, k - 1))
  }

  lemma UndampedIsMean(c: Point, g: Agg)
    requires |c| == |g.sum| && g.n > 0
    ensures MoveTo(c, g, 1.0) == Mean(g)
  {
  }

  /** An empty cluster costs nothing, wherever its centre is. */
  lemma EmptyCluster(pts: seq<Point>, dim: nat, a: seq<int>, j: int, c: Point)
    requires AllDim(pts, dim) && |c| == dim && |a| == |pts|
    ensures var g := ClusterAgg(pts, dim, a, j); g.n >= 0 && (g.n == 0 ==> Cost(g, c) == 0.0)
  {
    AggCount(pts, dim, Cluster(a, j), |pts|);
    if ClusterAgg(pts, dim, a, j).n == 0 {
      var members := set i | 0 <= i < |pts| && i in Cluster(a, j);
      assert forall i | 0 <= i < |pts| && i in Cluster(a, j) :: i in members;
      AggToEmpty(pts, dim, Cluster(a, j), |pts|);
      CostNothing(c);
    }
  }

  /** A group costs at least its floor, and exactly its floor only with the centre at the centroid. */
  lemma FloorIsLeast(pts: seq<Point>, dim: nat, a: seq<int>, j: int, c: Point)
    requires AllDim(pts, dim) && |c| == dim && |a| == |pts|
    ensures var g := ClusterAgg(pts, dim, a, j);
      && Cost(g, c) >= FloorOf(g)
      && Cost(g, MoveTo(c, g, 1.0)) == FloorOf(g)
      && (Cost(g, c) == FloorOf(g) ==> MoveTo(c, g, 1.0) == c)
  {
    var g := ClusterAgg(pts, dim, a, j);
    EmptyCluster(pts, dim, a, j, c);
    if g.n > 0 {
      var w, d := g.n as real, Dist(c, Mean(g));
      UndampedIsMean(c, g);
      MoveGain(c, g, 1.0);
      GainFactorSign(w, 1.0);
      DistNonNegative(c, Mean(g));
      ProductSign(w, d);
      assert w * d == 0.0 ==> w * d / w == d == 0.0;
    }
  }

  lemma {:induction false} FloorsAreLeast(pts: seq<Point>, dim: nat, a: seq<int>, ctrs: seq<Point>, k: nat)
    requires Sized(pts, ctrs, dim) && k <= |ctrs| && |a| == |pts|
    ensures var m := Moved(pts, dim, a, ctrs, 1.0);
      && FloorTo(pts, dim, a, k) <= ClusterCostsTo(pts, dim, a, ctrs, |pts|, k)
      && FloorTo(pts, dim, a, k) == ClusterCostsTo(pts, dim, a, m, |pts|, k)
      && (FloorTo(pts, dim, a, k) == ClusterCostsTo(pts, dim, a, ctrs, |pts|, k)
          ==> forall j | 0 <= j < k :: m[j] == ctrs[j])
  {
    hide MoveTo, Cost, AggTo, FloorOf;
    if k > 0 {
      FloorsAreLeast(pts, dim, a, ctrs, k - 1);
      FloorIsLeast(pts, dim, a, k - 1, ctrs[k - 1]);
    }
  }

  /** The floor of a partition: its cost with every centre at the centroid. */
  ghost function Floor(pts: seq<Point>, dim: nat, a: seq<int>, k: nat): real
    requires AllDim(pts, dim)
  {
    FloorTo(pts, dim, a, k)
  }

  /** If an undampened stage lowers the distortion, the floor of the partition it started from lies
      below the old distortion and not below the new one. */
  lemma ImprovementPassesFloor(t: Tree, pts: seq<Point>, dim: nat, ctrs: seq<Point>)
    requires Whole(t, pts, dim) && Sized(pts, ctrs, dim)
    ensures var m := Stage(t, pts, dim, ctrs, 1.0);
      var floor := Floor(pts, dim, Assignment(t, pts, ctrs, dim), |ctrs|);
      && Distortion(pts, m, dim) <= floor <= Distortion(pts, ctrs, dim)
      && (floor == Distortion(pts, ctrs, dim) ==> m == ctrs)
  {
    var a := Assignment(t, pts, ctrs, dim);
    var m := Moved(pts, dim, a, ctrs, 1.0);
    FloorsAreLeast(pts, dim, a, ctrs, |ctrs|);
    ClusterCostsTotal(pts, dim, a, ctrs, |pts|);
    ClusterCostsTotal(pts, dim, a, m, |pts|);
    SearchIsExact(t, pts, ctrs, dim);
    DistortionIsLeast(pts, a, m, dim, |pts|);
  }
}
