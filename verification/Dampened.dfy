/** When a Lloyd phase with dampening ends (DisCrawler/KMean/KMlocal.h): for every dampening factor in
    [0, 1], the exact condition. */
module Dampened {
  import opened Vectors
  import opened KcTree
  import opened Clusters
  import opened Lloyd
  import opened Convergence

  // ------------------------------------------------ a floor under all distortions

  /** Any centres: a place to start from. */
  ghost function Somewhere(dim: nat, k: nat): (ctrs: seq<Point>)
    ensures |ctrs| == k && AllDim(ctrs, dim)
  {
    seq(k, j => Zero(dim))
  }

  /** With more places than centres no partition can be served for free. */
  lemma FloorIsPositive(pts: seq<Point>, dim: nat, a: seq<int>, k: nat)
    requires AllDim(pts, dim) && IsAssignment(a, |pts|, k) && |Places(pts)| > k >= 1
    ensures Floor(pts, dim, a, k) > 0.0
  {
    var ctrs := Somewhere(dim, k);
    var m := Moved(pts, dim, a, ctrs, 1.0);
    FloorsAreLeast(pts, dim, a, ctrs, k);
    ClusterCostsTotal(pts, dim, a, m, |pts|);
    DistortionIsLeast(pts, a, m, dim, |pts|);
    ManyPlaces(pts, m, dim);
  }

  /** A positive number that no floor of a set of partitions falls below. */
  lemma {:induction false} LeastOf(s: set<seq<int>>, pts: seq<Point>, dim: nat, k: nat) returns (least: real)
    requires AllDim(pts, dim) && forall a | a in s :: Floor(pts, dim, a, k) > 0.0
    ensures least > 0.0 && forall a | a in s :: least <= Floor(pts, dim, a, k)
    decreases |s|
  {
    hide Floor;
    if s == {} {
      least := 1.0;
    } else {
      assert (forall a :: a !in s) ==> s == {};
      var a :| a in s;
      least := LeastOf(s - {a}, pts, dim, k);
      assert forall b | b in s :: b == a || b in s - {a};
      if Floor(pts, dim, a, k) < least {
        least := Floor(pts, dim, a, k);
      }
    }
  }

  ghost predicate IsBound(pts: seq<Point>, dim: nat, k: nat, bound: real)
    requires k >= 1 && AllDim(pts, dim)
  {
    bound > 0.0 && forall ctrs: seq<Point> | |ctrs| == k && AllDim(ctrs, dim) :: Distortion(pts, ctrs, dim) >= bound
  }

  lemma {:induction false} OnlyAssignments(n: nat, k: nat)
    ensures forall a | a in Assignments(n, k) :: IsAssignment(a, n, k)
  {
    if n > 0 {
      OnlyAssignments(n - 1, k);
    }
  }

  /** The distortions of all sets of k centres stay above a positive bound. */
  lemma BoundExists(t: Tree, pts: seq<Point>, dim: nat, k: nat) returns (bound: real)
    requires Whole(t, pts, dim) && |Places(pts)| > k >= 1
    ensures IsBound(pts, dim, k, bound)
  {
    var all := Assignments(|pts|, k);
    OnlyAssignments(|pts|, k);
    forall a | a in all ensures Floor(pts, dim, a, k) > 0.0 {
      FloorIsPositive(pts, dim, a, k);
    }
    bound := LeastOf(all, pts, dim, k);
    forall ctrs: seq<Point> | |ctrs| == k && AllDim(ctrs, dim) ensures Distortion(pts, ctrs, dim) >= bound {
      ImprovementPassesFloor(t, pts, dim, ctrs);
      EveryAssignment(Assignment(t, pts, ctrs, dim), |pts|, k);
    }
  }

  ghost function Bound(t: Tree, pts: seq<Point>, dim: nat, k: nat): (bound: real)
    requires Whole(t, pts, dim) && |Places(pts)| > k >= 1
    ensures IsBound(pts, dim, k, bound)
  {
    assert exists b :: IsBound(pts, dim, k, b) by {
      var b := BoundExists(t, pts, dim, k);
    }
    var b :| IsBound(pts, dim, k, b);
    b
  }

  // ------------------------------------------------ a positive threshold

  /** How often `drop` can be taken from `d`. */
  function Drops(d: real, drop: real): (n: int)
    requires drop > 0.0
    ensures d >= 0.0 ==> n >= 0
  {
    QuotientSign(d, drop);
    Quotient(d, drop).Floor
  }

  lemma QuotientSign(d: real, drop: real)
    requires drop > 0.0
    ensures d >= 0.0 ==> Quotient(d, drop) >= 0.0
  {
    assert Quotient(d, drop) * drop == d;
    if Quotient(d, drop) < 0.0 {
      ProductNegative(Quotient(d, drop), drop);
    }
  }

  lemma ProductNegative(x: real, y: real)
    requires x < 0.0 && y > 0.0
    ensures x * y < 0.0
  {
  }

  lemma OneDropLess(d: real, e: real, drop: real)
    requires drop > 0.0 && e < d - drop
    ensures Drops(e, drop) < Drops(d, drop)
  {
    assert Quotient(d, drop) * drop == d && Quotient(e, drop) * drop == e;
    var gap := Quotient(d, drop) - Quotient(e, drop) - 1.0;
    assert gap * drop == d - e - drop;
    if gap < 0.0 {
      ProductNegative(gap, drop);
    }
  }

  /** A stage that a positive threshold lets continue has taken at least threshold times bound. */
  lemma ContinuingDrops(prev: real, cur: real, minConsecRDL: real, bound: real)
    requires prev >= bound > 0.0 && cur >= 0.0 && minConsecRDL > 0.0
    requires !AtMost(Rdl(prev, cur), minConsecRDL)
    ensures Times(minConsecRDL, bound) > 0.0 && cur < prev - Times(minConsecRDL, bound)
  {
    var r := (prev - cur) / prev;
    assert r * prev == prev - cur;
    Product(r - minConsecRDL, prev);
    Product(minConsecRDL, bound);
    ProductSign(minConsecRDL, prev - bound);
    assert (r - minConsecRDL) * prev == r * prev - minConsecRDL * prev;
    assert minConsecRDL * (prev - bound) == minConsecRDL * prev - minConsecRDL * bound;
  }

  lemma Product(x: real, y: real)
    requires x > 0.0 && y > 0.0
    ensures x * y > 0.0
  {
    assert x * y / y == x;
  }

  /** What a stage takes at least. */
  ghost function Drop(t: Tree, pts: seq<Point>, dim: nat, k: nat, minConsecRDL: real): (drop: real)
    requires Whole(t, pts, dim) && |Places(pts)| > k >= 1 && minConsecRDL > 0.0
    ensures drop > 0.0
  {
    Product(minConsecRDL, Bound(t, pts, dim, k));
    Times(minConsecRDL, Bound(t, pts, dim, k))
  }

  /** Between two sets of centres: if the test lets the phase continue, fewer drops are left. */
  lemma ContinuingHasFewerDrops(t: Tree, pts: seq<Point>, dim: nat,
                                before: seq<Point>, after: seq<Point>, minConsecRDL: real)
    requires Whole(t, pts, dim) && Sized(pts, before, dim) && Sized(pts, after, dim) && |after| == |before|
    requires minConsecRDL > 0.0 && |Places(pts)| > |before|
    requires Distortion(pts, before, dim) >= 0.0 && Distortion(pts, after, dim) >= 0.0
    requires !AtMost(Rdl(Distortion(pts, before, dim), Distortion(pts, after, dim)), minConsecRDL)
    ensures var drop := Drop(t, pts, dim, |before|, minConsecRDL);
      Drops(Distortion(pts, after, dim), drop) < Drops(Distortion(pts, before, dim), drop)
  {
    hide Drops, Times, Bound, AtMost, Rdl, Distortion, Places, Whole;
    var bound := Bound(t, pts, dim, |before|);
    var prev, cur := Distortion(pts, before, dim), Distortion(pts, after, dim);
    assert prev >= bound;
    ContinuingDrops(prev, cur, minConsecRDL, bound);
    OneDropLess(prev, cur, Times(minConsecRDL, bound));
  }

  lemma UnstoppedDrops(t: Tree, pts: seq<Point>, dim: nat, ctrs: seq<Point>, df: real, minConsecRDL: real, n: nat)
    requires Whole(t, pts, dim) && Sized(pts, ctrs, dim) && minConsecRDL > 0.0 && |Places(pts)| > |ctrs|
    requires !Stops(t, pts, dim, ctrs, df, minConsecRDL, n)
    ensures var drop := Drop(t, pts, dim, |ctrs|, minConsecRDL);
      Drops(OrbitDist(t, pts, dim, ctrs, df, n + 1), drop) < Drops(OrbitDist(t, pts, dim, ctrs, df, n), drop)
  {
    hide Drops, Drop, AtMost, Rdl, Places, Orbit, Whole;
    var before, after := Orbit(t, pts, dim, ctrs, df, n), Orbit(t, pts, dim, ctrs, df, n + 1);
    ContinuingHasFewerDrops(t, pts, dim, before, after, minConsecRDL);
  }

  /** With a positive threshold and more places than centres the phase ends, whatever the dampening. */
  lemma StopsAtThreshold(t: Tree, pts: seq<Point>, dim: nat, ctrs: seq<Point>, df: real, minConsecRDL: real)
    returns (n: nat)
    requires Whole(t, pts, dim) && Sized(pts, ctrs, dim) && minConsecRDL > 0.0 && |Places(pts)| > |ctrs|
    ensures Stops(t, pts, dim, ctrs, df, minConsecRDL, n)
  {
    hide Drops, Drop, Stops, Places, OrbitDist, Whole;
    n := 0;
    while !Stops(t, pts, dim, ctrs, df, minConsecRDL, n)
      decreases Drops(OrbitDist(t, pts, dim, ctrs, df, n), Drop(t, pts, dim, |ctrs|, minConsecRDL))
    {
      UnstoppedDrops(t, pts, dim, ctrs, df, minConsecRDL, n);
      n := n + 1;
    }
  }

  // ------------------------------------------------ threshold zero

  /** Fully dampened, nothing moves. */
  lemma FrozenStage(t: Tree, pts: seq<Point>, dim: nat, ctrs: seq<Point>)
    requires Whole(t, pts, dim) && Sized(pts, ctrs, dim)
    ensures Stage(t, pts, dim, ctrs, 0.0) == ctrs
  {
    var a := Assignment(t, pts, ctrs, dim);
    forall j | 0 <= j < |ctrs| ensures MoveTo(ctrs[j], ClusterAgg(pts, dim, a, j), 0.0) == ctrs[j] {
      FrozenMove(ctrs[j], ClusterAgg(pts, dim, a, j));
    }
  }

  lemma FrozenMove(c: Point, g: Agg)
    requires |g.sum| == |c|
    ensures MoveTo(c, g, 0.0) == c
  {
  }

  /** Every coordinate lies in [-b, b]. */
  ghost predicate InCube(p: Point, b: real) {
    forall d | 0 <= d < |p| :: -b <= p[d] <= b
  }

  lemma {:induction false} SomeCube(pts: seq<Point>) returns (b: real)
    ensures b >= 0.0 && forall i | 0 <= i < |pts| :: InCube(pts[i], b)
    decreases |pts|
  {
    if pts == [] {
      b := 0.0;
    } else {
      var n := |pts| - 1;
      var rest := SomeCube(pts[..n]);
      var last := PointCube(pts[n]);
      b := if rest < last then last else rest;
      forall i | 0 <= i < |pts| ensures InCube(pts[i], b) {
        assert i < n ==> pts[i] == pts[..n][i];
      }
    }
  }

  lemma {:induction false} PointCube(p: Point) returns (b: real)
    ensures b >= 0.0 && InCube(p, b)
    decreases |p|
  {
    if p == [] {
      b := 0.0;
    } else {
      var n := |p| - 1;
      b := PointCube(p[..n]);
      assert forall d | 0 <= d < n :: p[d] == p[..n][d];
      if p[n] > b {
        b := p[n];
      } else if -p[n] > b {
        b := -p[n];
      }
    }
  }

  /** No two points of the cube are farther apart than this. */
  function Diagonal(b: real, d: nat): (m: real)
    requires b >= 0.0
    ensures m >= 0.0
  {
    SquareSign(2.0 * b);
    if d == 0 then 0.0 else Diagonal(b, d - 1) + Sq(2.0 * b)
  }

  lemma SquareBound(x: real, y: real)
    requires -y <= x <= y
    ensures Sq(x) <= Sq(y)
  {
    ProductSign(y - x, y + x);
    assert Sq(y) - Sq(x) == (y - x) * (y + x);
  }

  lemma {:induction false} CubeDist(p: Point, q: Point, b: real, d: nat)
    requires b >= 0.0 && InCube(p, b) && InCube(q, b) && d <= |p| && d <= |q|
    ensures DistTo(p, q, d) <= Diagonal(b, d)
  {
    hide Sq;
    if d > 0 {
      CubeDist(p, q, b, d - 1);
      SquareBound(p[d - 1] - q[d - 1], 2.0 * b);
    }
  }

  /** A point farther from the cube than the cube is wide. */
  ghost function Outside(dim: nat, b: real): (far: Point)
    requires dim >= 1 && b >= 0.0
    ensures |far| == dim
  {
    [b + Diagonal(b, dim) + 1.0] + Zero(dim - 1)
  }

  lemma OutsideIsFar(p: Point, q: Point, b: real)
    requires |p| == |q| >= 1 && b >= 0.0 && InCube(p, b) && InCube(q, b)
    ensures Dist(p, q) < Dist(Outside(|p|, b), q)
  {
    hide Sq, Diagonal;
    CubeDist(p, q, b, |p|);
    var far, m := Outside(|p|, b), Diagonal(b, |p|);
    LongSquare(far[0] - q[0], m);
    FirstCoordinate(far, q, |p|);
  }

  lemma LongSquare(x: real, m: real)
    requires m >= 0.0 && x >= m + 1.0
    ensures Sq(x) > m
  {
    ProductSign(x - 1.0, x);
    assert Sq(x) == (x - 1.0) * x + x;
  }

  lemma {:induction false} FirstCoordinate(p: Point, q: Point, d: nat)
    requires 1 <= d <= |p| && d <= |q|
    ensures DistTo(p, q, d) >= Sq(p[0] - q[0])
  {
    if d > 1 {
      FirstCoordinate(p, q, d - 1);
      SquareSign(p[d - 1] - q[d - 1]);
    } else {
      assert DistTo(p, q, 0) == 0.0;
    }
  }

  /** One centre in the cube of the data, and all others outside. */
  ghost predicate Lonely(ctrs: seq<Point>, dim: nat, b: real)
    requires dim >= 1 && b >= 0.0
  {
    && |ctrs| >= 1 && AllDim(ctrs, dim) && InCube(ctrs[0], b)
    && forall j | 1 <= j < |ctrs| :: ctrs[j] == Outside(dim, b)
  }

  /** Then all points belong to that centre. */
  lemma LonelyOwnsAll(t: Tree, pts: seq<Point>, dim: nat, ctrs: seq<Point>, b: real)
    requires Whole(t, pts, dim) && dim >= 1 && b >= 0.0 && Lonely(ctrs, dim, b)
    requires forall i | 0 <= i < |pts| :: InCube(pts[i], b)
    ensures var a := Assignment(t, pts, ctrs, dim);
      Cluster(a, 0) == Points(t) && forall j | 1 <= j < |ctrs| :: Cluster(a, j) == {}
  {
    hide Dist, Outside, InCube;
    var a := Assignment(t, pts, ctrs, dim);
    SearchIsExact(t, pts, ctrs, dim);
    forall i | 0 <= i < |pts| ensures a[i] == 0 {
      OutsideIsFar(ctrs[0], pts[i], b);
    }
  }

  function Bulk(n: int, b: real): real { n as real * b }

  lemma BulkStep(n: int, b: real)
    ensures Bulk(n + 1, b) == Bulk(n, b) + b && Bulk(0, b) == 0.0
  {
    assert (n + 1) as real == n as real + 1.0;
  }

  lemma {:induction false} SumInCube(pts: seq<Point>, dim: nat, s: set<int>, n: nat, b: real, e: nat)
    requires AllDim(pts, dim) && n <= |pts| && e < dim && b >= 0.0 && forall i | 0 <= i < |pts| :: InCube(pts[i], b)
    ensures var g := AggTo(pts, dim, s, n); -Bulk(g.n, b) <= g.sum[e] <= Bulk(g.n, b)
  {
    hide Bulk, Dot;
    BulkStep(0, b);
    if n > 0 {
      SumInCube(pts, dim, s, n - 1, b, e);
      BulkStep(AggTo(pts, dim, s, n - 1).n, b);
      assert InCube(pts[n - 1], b);
    }
  }

  lemma QuotientInCube(x: real, w: real, b: real)
    requires w > 0.0 && -(w * b) <= x <= w * b
    ensures -b <= Quotient(x, w) <= b
  {
    var q := Quotient(x, w);
    assert q * w == x;
    assert (b - q) * w == w * b - x && (b + q) * w == w * b + x;
    if b - q < 0.0 {
      ProductNegative(b - q, w);
    }
    if b + q < 0.0 {
      ProductNegative(b + q, w);
    }
  }

  /** One coordinate of a partly dampened move stays in the cube and does not reach the mean. */
  lemma StepInCube(c: real, s: real, w: real, df: real, b: real)
    requires w > 0.0 && 0.0 < df < 1.0 && -b <= c <= b && -b <= Quotient(s, w) <= b
    ensures -b <= Step(c, s, w, df) <= b
    ensures c != Quotient(s, w) ==> Step(c, s, w, df) != Quotient(s, w)
  {
    var m := Quotient(s, w);
    assert df * s / w == df * m;
    StepBetween(c, m, df, b);
  }

  lemma StepBetween(c: real, m: real, df: real, b: real)
    requires 0.0 < df < 1.0 && -b <= c <= b && -b <= m <= b
    ensures -b <= (1.0 - df) * c + df * m <= b
    ensures c != m ==> (1.0 - df) * c + df * m != m
  {
    var x := (1.0 - df) * c + df * m;
    ProductSign(1.0 - df, b - c);
    ProductSign(df, b - m);
    ProductSign(1.0 - df, b + c);
    ProductSign(df, b + m);
    assert b - x == (1.0 - df) * (b - c) + df * (b - m);
    assert b + x == (1.0 - df) * (b + c) + df * (b + m);
    assert x - m == (1.0 - df) * (c - m);
    assert c != m ==> (1.0 - df) * (c - m) / (1.0 - df) == c - m;
  }

  lemma MoveInCube(c: Point, g: Agg, df: real, b: real)
    requires |g.sum| == |c| && g.n > 0 && 0.0 < df < 1.0 && InCube(c, b) && InCube(Mean(g), b)
    ensures InCube(MoveTo(c, g, df), b)
    ensures c != Mean(g) ==> MoveTo(c, g, df) != Mean(g)
  {
    hide Step, Quotient;
    forall d | 0 <= d < |c|
      ensures -b <= MoveTo(c, g, df)[d] <= b
      ensures c[d] != Mean(g)[d] ==> MoveTo(c, g, df)[d] != Mean(g)[d]
    {
      assert -b <= c[d] <= b && -b <= Mean(g)[d] <= b;
      StepInCube(c[d], g.sum[d], g.n as real, df, b);
    }
    if c != Mean(g) {
      var d :| 0 <= d < |c| && c[d] != Mean(g)[d];
    }
  }

  lemma {:induction false} StrictCosts(pts: seq<Point>, dim: nat, a: seq<int>, ctrs: seq<Point>, df: real, k: nat)
    requires Sized(pts, ctrs, dim) && 1 <= k <= |ctrs| && 0.0 <= df <= 1.0
    requires var g := ClusterAgg(pts, dim, a, 0); Cost(g, MoveTo(ctrs[0], g, df)) < Cost(g, ctrs[0])
    ensures ClusterCostsTo(pts, dim, a, Moved(pts, dim, a, ctrs, df), |pts|, k)
      < ClusterCostsTo(pts, dim, a, ctrs, |pts|, k)
  {
    hide MoveTo, Cost, AggTo;
    if k == 1 {
      assert ClusterCostsTo(pts, dim, a, ctrs, |pts|, 0) == 0.0;
      assert ClusterCostsTo(pts, dim, a, Moved(pts, dim, a, ctrs, df), |pts|, 0) == 0.0;
    } else {
      StrictCosts(pts, dim, a, ctrs, df, k - 1);
      MoveNeverRaises(ctrs[k - 1], ClusterAgg(pts, dim, a, k - 1), df);
    }
  }

  lemma StrictMove(c: Point, g: Agg, df: real)
    requires |g.sum| == |c| && g.n > 0 && 0.0 < df < 1.0 && c != Mean(g)
    ensures Cost(g, MoveTo(c, g, df)) < Cost(g, c)
  {
    hide Cost, MoveTo;
    MoveGain(c, g, df);
    DistNonNegative(c, Mean(g));
    Product(df, 2.0 - df);
    Product(g.n as real, df * (2.0 - df));
    Product(GainFactor(g.n as real, df), Dist(c, Mean(g)));
  }

  /** The aggregate of all points. */
  ghost function All(t: Tree, pts: seq<Point>, dim: nat): (g: Agg)
    requires Whole(t, pts, dim)
    ensures |g.sum| == dim
  {
    AggOf(pts, dim, Points(t))
  }

  lemma MeanInCube(t: Tree, pts: seq<Point>, dim: nat, b: real)
    requires Whole(t, pts, dim) && |pts| >= 1 && b >= 0.0 && forall i | 0 <= i < |pts| :: InCube(pts[i], b)
    ensures All(t, pts, dim).n == |pts| && InCube(Mean(All(t, pts, dim)), b)
  {
    hide AggTo, Points, Quotient;
    var g := All(t, pts, dim);
    AllCounted(pts, dim, Points(t), |pts|);
    forall d | 0 <= d < dim ensures -b <= Mean(g)[d] <= b {
      SumInCube(pts, dim, Points(t), |pts|, b, d);
      QuotientInCube(g.sum[d], g.n as real, b);
    }
  }

  /** The state of a phase that never ends: the lonely centre is on its way to the mean of all points, and
      not there. */
  ghost predicate OnItsWay(t: Tree, pts: seq<Point>, dim: nat, ctrs: seq<Point>, b: real) {
    && Whole(t, pts, dim) && |pts| >= 1 && dim >= 1 && b >= 0.0 && (forall i | 0 <= i < |pts| :: InCube(pts[i], b))
    && Lonely(ctrs, dim, b) && All(t, pts, dim).n == |pts| && ctrs[0] != Mean(All(t, pts, dim))
  }

  /** A partly dampened stage keeps it so, and strictly lowers the distortion. */
  lemma StillOnItsWay(t: Tree, pts: seq<Point>, dim: nat, ctrs: seq<Point>, df: real, b: real)
    requires OnItsWay(t, pts, dim, ctrs, b) && 0.0 < df < 1.0
    ensures var m := Stage(t, pts, dim, ctrs, df);
      OnItsWay(t, pts, dim, m, b) && Distortion(pts, m, dim) < Distortion(pts, ctrs, dim)
  {
    hide InCube, MoveTo, Cost, Outside, Mean;
    var a, m, g := Assignment(t, pts, ctrs, dim), Stage(t, pts, dim, ctrs, df), All(t, pts, dim);
    LonelyOwnsAll(t, pts, dim, ctrs, b);
    MeanInCube(t, pts, dim, b);
    assert ClusterAgg(pts, dim, a, 0) == g;
    MoveInCube(ctrs[0], g, df, b);
    StrictMove(ctrs[0], g, df);
    assert m[0] == MoveTo(ctrs[0], g, df);
    forall j | 1 <= j < |ctrs| ensures m[j] == ctrs[j] {
      AggEmpty(pts, dim);
      EmptyStays(ctrs[j]);
    }
    StrictCosts(pts, dim, a, ctrs, df, |ctrs|);
    SearchIsExact(t, pts, ctrs, dim);
    ClusterCostsTotal(pts, dim, a, ctrs, |pts|);
    ClusterCostsTotal(pts, dim, a, m, |pts|);
    DistortionIsLeast(pts, a, m, dim, |pts|);
  }

  lemma EmptyStays(c: Point)
    ensures forall df: real :: MoveTo(c, Nothing(|c|), df) == c
  {
  }

  lemma {:induction false} AlwaysOnItsWay(t: Tree, pts: seq<Point>, dim: nat, ctrs: seq<Point>, df: real, b: real, n: nat)
    requires OnItsWay(t, pts, dim, ctrs, b) && 0.0 < df < 1.0
    ensures OnItsWay(t, pts, dim, Orbit(t, pts, dim, ctrs, df, n), b)
    ensures !Stops(t, pts, dim, ctrs, df, 0.0, n)
  {
    hide OnItsWay, Stage;
    StartIsSized(t, pts, dim, ctrs, b);
    if n > 0 {
      AlwaysOnItsWay(t, pts, dim, ctrs, df, b, n - 1);
      StillOnItsWay(t, pts, dim, Orbit(t, pts, dim, ctrs, df, n - 1), df, b);
    }
    StillOnItsWay(t, pts, dim, Orbit(t, pts, dim, ctrs, df, n), df, b);
    FallsAreNotStops(OrbitDist(t, pts, dim, ctrs, df, n), OrbitDist(t, pts, dim, ctrs, df, n + 1));
  }

  lemma StartIsSized(t: Tree, pts: seq<Point>, dim: nat, ctrs: seq<Point>, b: real)
    requires OnItsWay(t, pts, dim, ctrs, b)
    ensures Whole(t, pts, dim) && Sized(pts, ctrs, dim)
  {
  }

  lemma FallsAreNotStops(prev: real, cur: real)
    requires 0.0 <= cur < prev
    ensures !AtMost(Rdl(prev, cur), 0.0)
  {
    RatioSign(prev, cur);
  }

  /** Points on several places: one of them is not their mean. */
  lemma SomePointIsNot(pts: seq<Point>, m: Point) returns (i: nat)
    requires |Places(pts)| > 1
    ensures i < |pts| && pts[i] != m
  {
    if forall p | p in Places(pts) :: p == m {
      assert Places(pts) <= {m};
      SubsetSize(Places(pts), {m});
    }
    var p :| p in Places(pts) && p != m;
    i :| 0 <= i < |pts| && pts[i] == p;
  }

  /** A start from which the partly dampened phase never meets the threshold zero. */
  lemma EndlessStart(t: Tree, pts: seq<Point>, dim: nat, k: nat, df: real) returns (ctrs: seq<Point>)
    requires Whole(t, pts, dim) && |Places(pts)| > k >= 1 && 0.0 < df < 1.0
    ensures |ctrs| == k && AllDim(ctrs, dim) && RunsForEver(t, pts, dim, ctrs, df, 0.0)
  {
    PlacesSize(pts);
    var b := SomeCube(pts);
    var i := SomePointIsNot(pts, []);
    assert |pts[i]| == dim && dim >= 1;
    MeanInCube(t, pts, dim, b);
    i := SomePointIsNot(pts, Mean(All(t, pts, dim)));
    ctrs := [pts[i]] + seq(k - 1, j => Outside(dim, b));
    assert OnItsWay(t, pts, dim, ctrs, b);
    forall n: nat ensures !Stops(t, pts, dim, ctrs, df, 0.0, n) {
      AlwaysOnItsWay(t, pts, dim, ctrs, df, b, n);
    }
  }

  // ------------------------------------------------ the exact condition

  /** The threshold, and what it means together with the dampening. */
  predicate MeetsThreshold(df: real, minConsecRDL: real) {
    minConsecRDL > 0.0 || (minConsecRDL == 0.0 && (df == 0.0 || df == 1.0))
  }

  ghost predicate AlwaysEnds(t: Tree, pts: seq<Point>, dim: nat, k: nat, df: real, minConsecRDL: real)
    requires Whole(t, pts, dim) && k >= 1
  {
    forall ctrs: seq<Point> | |ctrs| == k && AllDim(ctrs, dim) ::
      exists n: nat :: Stops(t, pts, dim, ctrs, df, minConsecRDL, n)
  }

  lemma EndsFrom(t: Tree, pts: seq<Point>, dim: nat, ctrs: seq<Point>, df: real, minConsecRDL: real) returns (n: nat)
    requires Whole(t, pts, dim) && Sized(pts, ctrs, dim)
    requires |Places(pts)| > |ctrs| && MeetsThreshold(df, minConsecRDL)
    ensures Stops(t, pts, dim, ctrs, df, minConsecRDL, n)
  {
    hide Stops, Places;
    if minConsecRDL > 0.0 {
      n := StopsAtThreshold(t, pts, dim, ctrs, df, minConsecRDL);
    } else if df == 1.0 {
      n := StopsInTime(t, pts, dim, ctrs, minConsecRDL);
    } else {
      n := 0;
      FrozenStops(t, pts, dim, ctrs);
    }
  }

  lemma FrozenStops(t: Tree, pts: seq<Point>, dim: nat, ctrs: seq<Point>)
    requires Whole(t, pts, dim) && Sized(pts, ctrs, dim) && |Places(pts)| > |ctrs|
    ensures Stops(t, pts, dim, ctrs, 0.0, 0.0, 0)
  {
    hide Stage, Places, Distortion;
    FrozenStage(t, pts, dim, ctrs);
    ManyPlaces(pts, ctrs, dim);
    assert Orbit(t, pts, dim, ctrs, 0.0, 0) == ctrs;
    assert Orbit(t, pts, dim, ctrs, 0.0, 1) == Stage(t, pts, dim, Orbit(t, pts, dim, ctrs, 0.0, 0), 0.0);
  }

  /** For every dampening factor in [0, 1]: the Lloyd phase ends from every start if and only if the points
      are on more places than there are centres, and the threshold is positive, or it is zero and the factor
      is 0 or 1.  Otherwise there is a start from which it runs for ever. */
  lemma EndsExactlyWhen(t: Tree, pts: seq<Point>, dim: nat, k: nat, df: real, minConsecRDL: real)
    requires Whole(t, pts, dim) && k >= 1 && 0.0 <= df <= 1.0
    ensures AlwaysEnds(t, pts, dim, k, df, minConsecRDL) <==> |Places(pts)| > k && MeetsThreshold(df, minConsecRDL)
    ensures !AlwaysEnds(t, pts, dim, k, df, minConsecRDL) <==>
      exists ctrs: seq<Point> :: |ctrs| == k && AllDim(ctrs, dim) && RunsForEver(t, pts, dim, ctrs, df, minConsecRDL)
  {
    hide Stops;
    if |Places(pts)| > k && MeetsThreshold(df, minConsecRDL) {
      forall ctrs: seq<Point> | |ctrs| == k && AllDim(ctrs, dim)
        ensures exists n: nat :: Stops(t, pts, dim, ctrs, df, minConsecRDL, n)
      {
        var n := EndsFrom(t, pts, dim, ctrs, df, minConsecRDL);
      }
    } else if minConsecRDL < 0.0 || |Places(pts)| <= k {
      var ctrs := BadStart(t, pts, dim, k, df, minConsecRDL);
    } else {
      var ctrs := EndlessStart(t, pts, dim, k, df);
    }
  }
}
