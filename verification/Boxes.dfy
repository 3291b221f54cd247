/** Axis-parallel boxes and the half-space test that prunes a candidate centre
    (DisCrawler/KMean/KM_ANN.h, DisCrawler/KMean/KCtree.cpp). */
module Boxes {
  import opened Vectors

  /** The value of a rectangle. */
  datatype Box = Box(lo: Point, hi: Point)

  predicate Proper(b: Box, dim: nat) { |b.lo| == dim && |b.hi| == dim }

  /** `p` lies in the closed box. */
  ghost predicate Inside(b: Box, p: Point)
    requires Proper(b, |p|)
  {
    forall d | 0 <= d < |p| :: b.lo[d] <= p[d] <= b.hi[d]
  }

  ghost predicate NonEmpty(b: Box) {
    |b.lo| == |b.hi| && forall d | 0 <= d < |b.lo| :: b.lo[d] <= b.hi[d]
  }

  /** KMorthRect: the rectangle that tree construction and sampling narrow and restore. */
  class OrthRect {
    var lo: Point
    var hi: Point

    constructor (lo: Point, hi: Point)
      ensures Value() == Box(lo, hi)
    {
      this.lo, this.hi := lo, hi;
    }

    function Value(): Box
      reads this
    {
      Box(lo, hi)
    }
  }

  /** No point of the box is strictly closer to `cand` than to `close`. */
  ghost predicate Dominates(close: Point, cand: Point, b: Box)
    requires |close| == |cand| && Proper(b, |cand|)
  {
    forall p: Point | |p| == |cand| && Inside(b, p) :: Dist(close, p) <= Dist(cand, p)
  }

  /** The dot product (p - close).(cand - close) over the first `d` coordinates. */
  ghost function Lean(p: Point, cand: Point, close: Point, d: nat): real
    requires |p| == |cand| == |close| && d <= |p|
  {
    if d == 0 then 0.0
    else Lean(p, cand, close, d - 1) + LeanStep(p[d - 1], cand[d - 1], close[d - 1])
  }

  ghost function LeanStep(p: real, c: real, q: real): real { (p - q) * (c - q) }

  /** The vertex of the box that leans furthest towards `cand`. */
  ghost function Vertex(cand: Point, close: Point, b: Box): (v: Point)
    requires |close| == |cand| && Proper(b, |cand|)
    ensures |v| == |cand|
    ensures NonEmpty(b) ==> Inside(b, v)
  {
    seq(|cand|, d requires 0 <= d < |cand| => if cand[d] - close[d] > 0.0 then b.hi[d] else b.lo[d])
  }

  lemma GapStep(p: real, c: real, q: real)
    ensures Sq(c - p) - Sq(q - p) == Sq(c - q) - 2.0 * LeanStep(p, c, q)
  {
  }

  /** How much further `p` is from `cand` than from `close`. */
  lemma {:induction false} Gap(p: Point, cand: Point, close: Point, d: nat)
    requires |p| == |cand| == |close| && d <= |p|
    ensures DistTo(cand, p, d) - DistTo(close, p, d) == DistTo(cand, close, d) - 2.0 * Lean(p, cand, close, d)
  {
    if d > 0 {
      Gap(p, cand, close, d - 1);
      GapStep(p[d - 1], cand[d - 1], close[d - 1]);
    }
  }

  lemma LeanStepMonotone(p: real, v: real, c: real, q: real)
    requires c - q > 0.0 ==> p <= v
    requires c - q <= 0.0 ==> v <= p
    ensures LeanStep(p, c, q) <= LeanStep(v, c, q)
  {
    assert LeanStep(v, c, q) - LeanStep(p, c, q) == (v - p) * (c - q);
  }

  /** Among the points of a box the vertex maximises the lean. */
  lemma {:induction false} VertexLeansMost(p: Point, cand: Point, close: Point, b: Box, d: nat)
    requires |p| == |cand| == |close| && d <= |p| && Proper(b, |p|) && Inside(b, p)
    ensures Lean(p, cand, close, d) <= Lean(Vertex(cand, close, b), cand, close, d)
  {
    if d > 0 {
      VertexLeansMost(p, cand, close, b, d - 1);
      var e := d - 1;
      LeanStepMonotone(p[e], Vertex(cand, close, b)[e], cand[e], close[e]);
    }
  }

  /** The half-space inequality at the vertex decides the whole box. */
  lemma VertexDecides(cand: Point, close: Point, b: Box)
    requires |close| == |cand| && Proper(b, |cand|) && NonEmpty(b)
    ensures var n := |cand|;
      Dominates(close, cand, b)
      <==> DistTo(cand, close, n) >= 2.0 * Lean(Vertex(cand, close, b), cand, close, n)
  {
    var n, v := |cand|, Vertex(cand, close, b);
    Gap(v, cand, close, n);
    if DistTo(cand, close, n) >= 2.0 * Lean(v, cand, close, n) {
      forall p: Point | |p| == n && Inside(b, p) ensures Dist(close, p) <= Dist(cand, p) {
        Gap(p, cand, close, n);
        VertexLeansMost(p, cand, close, b, n);
      }
    } else {
      assert Dist(close, v) > Dist(cand, v);
    }
  }

  /** pruneTest is exact: it says "prune" if and only if the closest candidate is at least as
      near as `cand` at every point of the cell. */
  method PruneTest(cand: Point, closeCand: Point, b: Box) returns (prune: bool)
    requires |closeCand| == |cand| && Proper(b, |cand|) && NonEmpty(b)
    ensures prune <==> Dominates(closeCand, cand, b)
  {
    var boxDot, ccDot := 0.0, 0.0;
    for d := 0 to |cand|
      invariant ccDot == DistTo(cand, closeCand, d)
      invariant boxDot == Lean(Vertex(cand, closeCand, b), cand, closeCand, d)
    {
      var ccComp := cand[d] - closeCand[d];
      ccDot := ccDot + ccComp * ccComp;
      if ccComp > 0.0 {
        boxDot := boxDot + (b.hi[d] - closeCand[d]) * ccComp;
      } else {
        boxDot := boxDot + (b.lo[d] - closeCand[d]) * ccComp;
      }
    }
    VertexDecides(cand, closeCand, b);
    return ccDot >= 2.0 * boxDot;
  }

  /** The loop of cellMidpt, also run inside closestToBox. */
  method Midpoint(b: Box) returns (m: Point)
    requires |b.lo| == |b.hi|
    ensures |m| == |b.lo|
    ensures forall d | 0 <= d < |m| :: m[d] == (b.lo[d] + b.hi[d]) / 2.0
  {
    m := [];
    for d := 0 to |b.lo|
      invariant |m| == d
      invariant forall e | 0 <= e < d :: m[e] == (b.lo[e] + b.hi[e]) / 2.0
    {
      m := m + [(b.lo[d] + b.hi[d]) / 2.0];
    }
  }
}
