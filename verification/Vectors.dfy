/** Points, dot products and squared distances (DisCrawler/KMean/KM_ANN.cpp), and the
    aggregate (count, vector sum, sum of squares) that stands for a group of points. */
module Vectors {

  type Point = seq<real>

  /** Every point of `ps` has `dim` coordinates. */
  ghost predicate AllDim(ps: seq<Point>, dim: nat) {
    forall i | 0 <= i < |ps| :: |ps[i]| == dim
  }

  function Sq(x: real): real { x * x }

  /** The dot product over the first `d` coordinates. */
  function DotTo(a: Point, b: Point, d: nat): real
    requires d <= |a| && d <= |b|
  {
    if d == 0 then 0.0 else DotTo(a, b, d - 1) + a[d - 1] * b[d - 1]
  }

  function Dot(a: Point, b: Point): real
    requires |a| == |b|
  {
    DotTo(a, b, |a|)
  }

  /** The squared Euclidean distance over the first `d` coordinates. */
  function DistTo(a: Point, b: Point, d: nat): real
    requires d <= |a| && d <= |b|
  {
    if d == 0 then 0.0 else DistTo(a, b, d - 1) + Sq(a[d - 1] - b[d - 1])
  }

  function Dist(a: Point, b: Point): real
    requires |a| == |b|
  {
    DistTo(a, b, |a|)
  }

  /** The loop of kmDist. */
  method KmDist(p: Point, q: Point) returns (dist: real)
    requires |p| == |q|
    ensures dist == Dist(p, q)
  {
    dist := 0.0;
    for d := 0 to |p|
      invariant dist == DistTo(p, q, d)
    {
      var diff := p[d] - q[d];
      dist := dist + diff * diff;
    }
  }

  /** The loop of kmEqualPts. */
  method KmEqualPts(p1: Point, p2: Point) returns (same: bool)
    requires |p1| == |p2|
    ensures same <==> p1 == p2
  {
    for d := 0 to |p1|
      invariant forall e | 0 <= e < d :: p1[e] == p2[e]
    {
      if p1[d] != p2[d] {
        return false;
      }
    }
    return true;
  }

  lemma PositiveSquare(x: real)
    requires x > 0.0
    ensures Sq(x) > 0.0
  {
    assert Sq(x) / x == x;
  }

  lemma SquareSign(x: real)
    ensures Sq(x) >= 0.0 && (Sq(x) == 0.0 <==> x == 0.0)
  {
    if x > 0.0 {
      PositiveSquare(x);
    } else if x < 0.0 {
      PositiveSquare(-x);
      assert Sq(x) == Sq(-x);
    }
  }

  /** A squared distance is never negative, and it is zero exactly between equal points. */
  lemma {:induction false} DistZeroIffEqual(a: Point, b: Point, d: nat)
    requires d <= |a| && d <= |b|
    ensures DistTo(a, b, d) >= 0.0
    ensures DistTo(a, b, d) == 0.0 <==> forall e | 0 <= e < d :: a[e] == b[e]
  {
    if d > 0 {
      DistZeroIffEqual(a, b, d - 1);
      SquareSign(a[d - 1] - b[d - 1]);
    }
  }

  lemma DistNonNegative(a: Point, b: Point)
    requires |a| == |b|
    ensures Dist(a, b) >= 0.0
    ensures Dist(a, b) == 0.0 <==> a == b
  {
    DistZeroIffEqual(a, b, |a|);
  }

  // ---------------------------------------------------------------- aggregates

  function Zero(dim: nat): (z: Point)
    ensures |z| == dim
  {
    seq(dim, d => 0.0)
  }

  function Plus(a: Point, b: Point): (r: Point)
    requires |a| == |b|
    ensures |r| == |a|
  {
    seq(|a|, d requires 0 <= d < |a| => a[d] + b[d])
  }

  /** What a tree node, or a centre, knows about a group of points. */
  datatype Agg = Agg(n: int, sum: Point, sq: real)

  function Nothing(dim: nat): Agg { Agg(0, Zero(dim), 0.0) }

  function Single(p: Point): Agg { Agg(1, p, Dot(p, p)) }

  function Join(a: Agg, b: Agg): (r: Agg)
    requires |a.sum| == |b.sum|
  {
    Agg(a.n + b.n, Plus(a.sum, b.sum), a.sq + b.sq)
  }

  /** The sum of squared distances from a group to `c`, read off its aggregate:
      SUM (p - c)^2 = SUM p^2 - 2 c.SUM p + n c^2. */
  function Cost(a: Agg, c: Point): real
    requires |a.sum| == |c|
  {
    a.sq - 2.0 * Dot(c, a.sum) + a.n as real * Dot(c, c)
  }

  lemma JoinNothing(a: Agg)
    ensures Join(a, Nothing(|a.sum|)) == a && Join(Nothing(|a.sum|), a) == a
  {
    assert Plus(a.sum, Zero(|a.sum|)) == a.sum;
    assert Plus(Zero(|a.sum|), a.sum) == a.sum;
  }

  lemma JoinAssoc(a: Agg, b: Agg, c: Agg)
    requires |a.sum| == |b.sum| == |c.sum|
    ensures Join(Join(a, b), c) == Join(a, Join(b, c))
  {
    assert Plus(Plus(a.sum, b.sum), c.sum) == Plus(a.sum, Plus(b.sum, c.sum));
  }

  lemma JoinSwap(a: Agg, b: Agg)
    requires |a.sum| == |b.sum|
    ensures Join(a, b) == Join(b, a)
  {
    assert Plus(a.sum, b.sum) == Plus(b.sum, a.sum);
  }

  lemma {:induction false} DotPlus(c: Point, a: Point, b: Point, d: nat)
    requires |a| == |b| == |c| && d <= |c|
    ensures DotTo(c, Plus(a, b), d) == DotTo(c, a, d) + DotTo(c, b, d)
  {
    if d > 0 {
      DotPlus(c, a, b, d - 1);
      assert c[d - 1] * (a[d - 1] + b[d - 1]) == c[d - 1] * a[d - 1] + c[d - 1] * b[d - 1];
    }
  }

  lemma {:induction false} DotZero(c: Point, d: nat)
    requires d <= |c|
    ensures DotTo(c, Zero(|c|), d) == 0.0
  {
    if d > 0 { DotZero(c, d - 1); }
  }

  /** Expanding (c - p).(c - p). */
  lemma {:induction false} DistExpand(c: Point, p: Point, d: nat)
    requires |c| == |p| && d <= |c|
    ensures DistTo(c, p, d) == DotTo(p, p, d) - 2.0 * DotTo(c, p, d) + DotTo(c, c, d)
  {
    if d > 0 {
      DistExpand(c, p, d - 1);
      SquareOfDifference(c[d - 1], p[d - 1]);
    }
  }

  lemma SquareOfDifference(x: real, y: real)
    ensures Sq(x - y) == y * y - 2.0 * (x * y) + x * x
  {
  }

  /** The cost formula is exact on one point ... */
  lemma CostSingle(p: Point, c: Point)
    requires |p| == |c|
    ensures Cost(Single(p), c) == Dist(c, p)
  {
    DistExpand(c, p, |c|);
  }

  /** ... and additive, hence exact on every group. */
  lemma CostJoin(a: Agg, b: Agg, c: Point)
    requires |a.sum| == |b.sum| == |c|
    ensures Cost(Join(a, b), c) == Cost(a, c) + Cost(b, c)
  {
    DotPlus(c, a.sum, b.sum, |c|);
    var x, y, z := a.n as real, b.n as real, Dot(c, c);
    assert (a.n + b.n) as real == x + y;
    assert (x + y) * z == x * z + y * z;
  }

  lemma CostNothing(c: Point)
    ensures Cost(Nothing(|c|), c) == 0.0
  {
    DotZero(c, |c|);
  }

  /** The aggregate of the points of `ps` whose index is in `s` and below `n`. */
  function AggTo(ps: seq<Point>, dim: nat, s: set<int>, n: nat): (a: Agg)
    requires AllDim(ps, dim) && n <= |ps|
    ensures |a.sum| == dim
  {
    if n == 0 then Nothing(dim)
    else Join(AggTo(ps, dim, s, n - 1), if n - 1 in s then Single(ps[n - 1]) else Nothing(dim))
  }

  /** The aggregate of the points of `ps` whose index is in `s`. */
  function AggOf(ps: seq<Point>, dim: nat, s: set<int>): (a: Agg)
    requires AllDim(ps, dim)
    ensures |a.sum| == dim
  {
    AggTo(ps, dim, s, |ps|)
  }

  lemma {:induction false} AggToEmpty(ps: seq<Point>, dim: nat, s: set<int>, n: nat)
    requires AllDim(ps, dim) && n <= |ps|
    requires forall i | 0 <= i < n :: i !in s
    ensures AggTo(ps, dim, s, n) == Nothing(dim)
  {
    if n > 0 {
      AggToEmpty(ps, dim, s, n - 1);
      JoinNothing(Nothing(dim));
    }
  }

  lemma {:induction false} AggToSingleton(ps: seq<Point>, dim: nat, i: nat, n: nat)
    requires AllDim(ps, dim) && i < n <= |ps|
    ensures AggTo(ps, dim, {i}, n) == Single(ps[i])
  {
    if i == n - 1 {
      AggToEmpty(ps, dim, {i}, n - 1);
      JoinNothing(Single(ps[i]));
    } else {
      AggToSingleton(ps, dim, i, n - 1);
      JoinNothing(Single(ps[i]));
    }
  }

  lemma {:induction false} AggToUnion(ps: seq<Point>, dim: nat, s: set<int>, t: set<int>, n: nat)
    requires AllDim(ps, dim) && n <= |ps| && s !! t
    ensures AggTo(ps, dim, s + t, n) == Join(AggTo(ps, dim, s, n), AggTo(ps, dim, t, n))
  {
    if n == 0 {
      JoinNothing(Nothing(dim));
    } else {
      AggToUnion(ps, dim, s, t, n - 1);
      var a, b := AggTo(ps, dim, s, n - 1), AggTo(ps, dim, t, n - 1);
      var e := Single(ps[n - 1]);
      JoinNothing(a);
      JoinNothing(b);
      JoinNothing(Join(a, b));
      JoinAssoc(a, b, e);
      if n - 1 in s {
        JoinSwap(b, e);
        JoinAssoc(a, e, b);
      }
    }
  }

  lemma AggUnion(ps: seq<Point>, dim: nat, s: set<int>, t: set<int>)
    requires AllDim(ps, dim) && s !! t
    ensures AggOf(ps, dim, s + t) == Join(AggOf(ps, dim, s), AggOf(ps, dim, t))
  {
    AggToUnion(ps, dim, s, t, |ps|);
  }

  lemma AggSingleton(ps: seq<Point>, dim: nat, i: int)
    requires AllDim(ps, dim) && 0 <= i < |ps|
    ensures AggOf(ps, dim, {i}) == Single(ps[i])
  {
    AggToSingleton(ps, dim, i, |ps|);
  }

  lemma AggEmpty(ps: seq<Point>, dim: nat)
    requires AllDim(ps, dim)
    ensures AggOf(ps, dim, {}) == Nothing(dim)
  {
    AggToEmpty(ps, dim, {}, |ps|);
  }

  /** The count of an aggregate is a number of indices: zero exactly when none is in the set. */
  lemma {:induction false} AggCount(ps: seq<Point>, dim: nat, s: set<int>, n: nat)
    requires AllDim(ps, dim) && n <= |ps|
    ensures AggTo(ps, dim, s, n).n == |set i | 0 <= i < n && i in s|
  {
    var below := set i | 0 <= i < n && i in s;
    if n == 0 {
      assert below == {};
    } else {
      AggCount(ps, dim, s, n - 1);
      var before := set i | 0 <= i < n - 1 && i in s;
      if n - 1 in s {
        assert below == before + {n - 1};
      } else {
        assert below == before;
      }
    }
  }

  /** All of the first n points counted. */
  lemma {:induction false} AllCounted(pts: seq<Point>, dim: nat, s: set<int>, n: nat)
    requires AllDim(pts, dim) && n <= |pts| && forall i | 0 <= i < n :: i in s
    ensures AggTo(pts, dim, s, n).n == n
  {
    if n > 0 {
      AllCounted(pts, dim, s, n - 1);
    }
  }
}
