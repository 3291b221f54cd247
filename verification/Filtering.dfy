/** The filtering search (DisCrawler/KMean/KCtree.cpp): which centre each point belongs to, found
    by pruning candidate centres against the boxes of the tree. */
module Filtering {
  import opened Vectors
  import opened Boxes
  import opened KcTree

  /** A non-empty list of indices of centres. */
  ghost predicate Candidates(cands: seq<int>, ctrs: seq<Point>, dim: nat) {
    && |cands| >= 1 && AllDim(ctrs, dim)
    && forall j | 0 <= j < |cands| :: 0 <= cands[j] < |ctrs|
  }

  /** The position of the nearest of the first `n` candidates, the earliest one on a tie. */
  ghost function FirstNearest(cands: seq<int>, ctrs: seq<Point>, q: Point, n: nat): (r: nat)
    requires Candidates(cands, ctrs, |q|) && 1 <= n <= |cands|
    ensures r < n
    ensures forall j | 0 <= j < n :: Dist(ctrs[cands[r]], q) <= Dist(ctrs[cands[j]], q)
    ensures forall j | 0 <= j < r :: Dist(ctrs[cands[r]], q) < Dist(ctrs[cands[j]], q)
  {
    if n == 1 then 0
    else
      var m := FirstNearest(cands, ctrs, q, n - 1);
      if Dist(ctrs[cands[n - 1]], q) < Dist(ctrs[cands[m]], q) then n - 1 else m
  }

  ghost function Nearest(cands: seq<int>, ctrs: seq<Point>, q: Point): (c: int)
    requires Candidates(cands, ctrs, |q|)
    ensures c in cands
    ensures forall j | 0 <= j < |cands| :: Dist(ctrs[c], q) <= Dist(ctrs[cands[j]], q)
  {
    cands[FirstNearest(cands, ctrs, q, |cands|)]
  }

  /** A distance that starts out as KM_DIST_INF. */
  datatype Bound = Infinity | Finite(v: real)

  predicate Below(d: real, m: Bound) { m.Infinity? || d < m.v }

  /** The scan for the nearest candidate, as it stands in closestToBox and in both leaf searches. */
  method ScanCandidates(cands: seq<int>, ctrs: seq<Point>, q: Point) returns (minK: nat, minDist: real)
    requires Candidates(cands, ctrs, |q|)
    ensures minK == FirstNearest(cands, ctrs, q, |cands|)
    ensures minDist == Dist(ctrs[cands[minK]], q)
  {
    var best := Infinity;
    minK := 0;
    for j := 0 to |cands|
      invariant best.Infinity? <==> j == 0
      invariant j > 0 ==> minK == FirstNearest(cands, ctrs, q, j) && best == Finite(Dist(ctrs[cands[minK]], q))
    {
      var dist := KmDist(ctrs[cands[j]], q);
      if Below(dist, best) {
        best := Finite(dist);
        minK := j;
      }
    }
    minDist := best.v;
  }

  ghost function Middle(b: Box): (m: Point)
    requires |b.lo| == |b.hi|
    ensures |m| == |b.lo|
  {
    seq(|b.lo|, d requires 0 <= d < |b.lo| => (b.lo[d] + b.hi[d]) / 2.0)
  }

  /** closestToBox. */
  method ClosestToBox(cands: seq<int>, ctrs: seq<Point>, b: Box) returns (minK: nat)
    requires |b.lo| == |b.hi| && Candidates(cands, ctrs, |b.lo|)
    ensures minK == FirstNearest(cands, ctrs, Middle(b), |cands|)
  {
    var boxMidpt := Midpoint(b);
    assert boxMidpt == Middle(b);
    var minDist;
    minK, minDist := ScanCandidates(cands, ctrs, boxMidpt);
  }

  /** Of the first `n` candidates, those that the one at position `cc` does not dominate on the box. */
  ghost function Keep(cands: seq<int>, ctrs: seq<Point>, b: Box, cc: nat, n: nat): (kept: seq<int>)
    requires |b.lo| == |b.hi| && Candidates(cands, ctrs, |b.lo|) && cc < |cands| && n <= |cands|
    ensures forall c | c in kept :: c in cands
    ensures n > cc ==> cands[cc] in kept
    ensures forall j | 0 <= j < n && cands[j] !in kept :: Dominates(ctrs[cands[cc]], ctrs[cands[j]], b)
  {
    if n == 0 then []
    else
      var kept := Keep(cands, ctrs, b, cc, n - 1);
      if n - 1 == cc || !Dominates(ctrs[cands[cc]], ctrs[cands[n - 1]], b) then kept + [cands[n - 1]] else kept
  }

  /** The candidates that a splitting node passes to its children. */
  ghost function Survivors(cands: seq<int>, ctrs: seq<Point>, b: Box): (kept: seq<int>)
    requires |b.lo| == |b.hi| && Candidates(cands, ctrs, |b.lo|)
    ensures Candidates(kept, ctrs, |b.lo|)
    ensures forall j | 0 <= j < |kept| :: kept[j] in cands
  {
    if |cands| == 1 then cands
    else
      var kept := Keep(cands, ctrs, b, FirstNearest(cands, ctrs, Middle(b), |cands|), |cands|);
      assert forall j | 0 <= j < |kept| :: kept[j] in cands;
      kept
  }

  /** No point of the box loses its nearest candidate to the filter. */
  lemma SurvivorsSuffice(cands: seq<int>, ctrs: seq<Point>, b: Box, p: Point, c: int)
    requires |b.lo| == |b.hi| && Candidates(cands, ctrs, |b.lo|) && c in cands
    requires |p| == |b.lo| && Inside(b, p)
    ensures exists s :: s in Survivors(cands, ctrs, b) && Dist(ctrs[s], p) <= Dist(ctrs[c], p)
  {
    if c !in Survivors(cands, ctrs, b) {
      var close := cands[FirstNearest(cands, ctrs, Middle(b), |cands|)];
      assert Dominates(ctrs[close], ctrs[c], b);
      assert close in Survivors(cands, ctrs, b);
    }
  }

  /** The filter in KCsplit::getNeighbors and KCsplit::getAssignments. */
  method FilterCandidates(cands: seq<int>, ctrs: seq<Point>, b: Box) returns (newCands: seq<int>)
    requires Candidates(cands, ctrs, |b.lo|) && NonEmpty(b) && |cands| != 1
    ensures newCands == Survivors(cands, ctrs, b)
  {
    hide Dominates, Middle, FirstNearest;
    var cc := ClosestToBox(cands, ctrs, b);
    var closeCand := cands[cc];
    newCands := [];
    for j := 0 to |cands|
      invariant newCands == Keep(cands, ctrs, b, cc, j)
    {
      var prune := PruneTest(ctrs[cands[j]], ctrs[closeCand], b);
      if j == cc || !prune {
        newCands := newCands + [cands[j]];
      }
    }
  }

  /** What a splitting node of getAssignments passes on: a single candidate needs no more pruning. */
  method PassDown(cands: seq<int>, ctrs: seq<Point>, b: Box) returns (newCands: seq<int>)
    requires Candidates(cands, ctrs, |b.lo|) && NonEmpty(b)
    ensures newCands == Survivors(cands, ctrs, b)
  {
    if |cands| == 1 {
      newCands := cands;
    } else {
      newCands := FilterCandidates(cands, ctrs, b);
    }
  }

  /** The centre that the search, started at `t` with these candidates, gives to point `i`. */
  ghost function Owner(t: Tree, cands: seq<int>, ctrs: seq<Point>, pts: seq<Point>, dim: nat, i: int): (c: int)
    requires AllDim(pts, dim) && Fits(t, pts, dim) && Candidates(cands, ctrs, dim) && i in Points(t)
    ensures c in cands
    decreases t
  {
    match t
    case Leaf(_, _) => Nearest(cands, ctrs, pts[i])
    case Split(b, _, _, lo, hi) =>
      var kept := Survivors(cands, ctrs, b);
      if i in Points(lo) then Owner(lo, kept, ctrs, pts, dim, i) else Owner(hi, kept, ctrs, pts, dim, i)
  }

  /** Pruned search refines brute force: the owner is at least as near as every candidate. */
  lemma {:induction false} OwnerIsNearest(t: Tree, cands: seq<int>, ctrs: seq<Point>, pts: seq<Point>, dim: nat,
                                          i: int, c: int)
    requires AllDim(pts, dim) && Fits(t, pts, dim) && Candidates(cands, ctrs, dim)
    requires i in Points(t) && c in cands
    ensures Dist(ctrs[Owner(t, cands, ctrs, pts, dim, i)], pts[i]) <= Dist(ctrs[c], pts[i])
    decreases t
  {
    if t.Split? {
      var kept := Survivors(cands, ctrs, t.box);
      SurvivorsSuffice(cands, ctrs, t.box, pts[i], c);
      var s :| s in kept && Dist(ctrs[s], pts[i]) <= Dist(ctrs[c], pts[i]);
      OwnerIsNearest(if i in Points(t.lo) then t.lo else t.hi, kept, ctrs, pts, dim, i, s);
    }
  }

  /** Once one candidate is left it owns every point below. */
  lemma {:induction false} OnlyCandidateOwns(t: Tree, cands: seq<int>, ctrs: seq<Point>, pts: seq<Point>,
                                             dim: nat, i: int)
    requires AllDim(pts, dim) && Fits(t, pts, dim) && Candidates(cands, ctrs, dim) && |cands| == 1
    requires i in Points(t)
    ensures Owner(t, cands, ctrs, pts, dim, i) == cands[0]
  {
    assert Owner(t, cands, ctrs, pts, dim, i) in cands;
  }

  /** A box that holds a point is not empty. */
  lemma InhabitedBox(t: Tree, pts: seq<Point>, dim: nat)
    requires AllDim(pts, dim) && Fits(t, pts, dim) && t.Split?
    ensures NonEmpty(t.box)
  {
    PointsAreOrdered(t);
    var i := Order(t)[0];
    assert i in Points(t) && Inside(t.box, pts[i]);
  }

  // ------------------------------------------------------------ assignments

  /** The result arrays of getAssignments, either of which may be absent, agree with the owners on
      the points of `t`. */
  ghost predicate Assigned(t: Tree, cands: seq<int>, ctrs: seq<Point>, pts: seq<Point>, dim: nat,
                           closeCtr: array?<int>, sqDist: array?<real>)
    requires AllDim(pts, dim) && Fits(t, pts, dim) && Candidates(cands, ctrs, dim)
    requires Roomy(pts, closeCtr, sqDist)
    reads closeCtr, sqDist
  {
    forall i | i in Points(t) ::
      var c := Owner(t, cands, ctrs, pts, dim, i);
      && (closeCtr != null ==> closeCtr[i] == c)
      && (sqDist != null ==> sqDist[i] == Dist(ctrs[c], pts[i]))
  }

  ghost predicate Roomy(pts: seq<Point>, closeCtr: array?<int>, sqDist: array?<real>) {
    && (closeCtr != null ==> |pts| <= closeCtr.Length)
    && (sqDist != null ==> |pts| <= sqDist.Length)
  }

  /** Only the entries of the points of `s` may have changed. */
  twostate predicate OnlyFor(s: set<int>, closeCtr: array?<int>, sqDist: array?<real>)
    reads closeCtr, sqDist
  {
    && (closeCtr != null ==> forall i | 0 <= i < closeCtr.Length && i !in s :: closeCtr[i] == old(closeCtr[i]))
    && (sqDist != null ==> forall i | 0 <= i < sqDist.Length && i !in s :: sqDist[i] == old(sqDist[i]))
  }

  /** What the searches read: a linked subtree that fits, its buckets and its exact aggregates. */
  ghost predicate Searchable(node: KCnode, pts: seq<Point>, dim: nat)
    reads node.bkt, node.nodes
  {
    && AllDim(pts, dim) && node.Linked() && Fits(node.shape, pts, dim)
    && node.Bucket(node.bkt[..]) && node.Summed(pts, dim)
  }

  lemma SearchableChildren(node: KCnode, pts: seq<Point>, dim: nat)
    requires Searchable(node, pts, dim) && node.lo != null
    ensures node.hi != null && Searchable(node.lo, pts, dim) && Searchable(node.hi, pts, dim)
    ensures node.shape.Split? && node.lo.shape == node.shape.lo && node.hi.shape == node.shape.hi
    ensures node.box == node.shape.box && Proper(node.box, dim)
    ensures node.lo.bkt == node.bkt == node.hi.bkt
    ensures Points(node.shape) == Points(node.shape.lo) + Points(node.shape.hi)
    ensures Points(node.shape.lo) !! Points(node.shape.hi)
    ensures forall i | i in Points(node.shape) :: 0 <= i < |pts|
  {
    node.BucketSplits(node.bkt[..]);
    assert node in node.nodes;
  }

  /** getAssignments: gives each point below the node its owner, and the squared distance to it. */
  method GetAssignments(node: KCnode, cands: seq<int>, ctrs: seq<Point>, pts: seq<Point>, dim: nat,
                        closeCtr: array?<int>, sqDist: array?<real>)
    requires Searchable(node, pts, dim) && Candidates(cands, ctrs, dim)
    requires Roomy(pts, closeCtr, sqDist) && closeCtr != node.bkt
    modifies closeCtr, sqDist
    ensures Assigned(node.shape, cands, ctrs, pts, dim, closeCtr, sqDist)
    ensures OnlyFor(Points(node.shape), closeCtr, sqDist)
    decreases node.shape
  {
    hide Fits, KCnode.Linked, KCnode.Bucket, KCnode.Summed, Survivors;
    if node.lo == null {
      LeafAssignments(node, cands, ctrs, pts, dim, closeCtr, sqDist);
    } else {
      SearchableChildren(node, pts, dim);
      InhabitedBox(node.shape, pts, dim);
      var newCands := PassDown(cands, ctrs, node.box);
      GetAssignments(node.lo, newCands, ctrs, pts, dim, closeCtr, sqDist);
      GetAssignments(node.hi, newCands, ctrs, pts, dim, closeCtr, sqDist);
      AssignedSplit(node.shape, cands, ctrs, pts, dim, closeCtr, sqDist);
    }
  }

  /** Both sides assigned from the surviving candidates: the node is assigned. */
  lemma AssignedSplit(t: Tree, cands: seq<int>, ctrs: seq<Point>, pts: seq<Point>, dim: nat,
                      closeCtr: array?<int>, sqDist: array?<real>)
    requires AllDim(pts, dim) && Fits(t, pts, dim) && Candidates(cands, ctrs, dim) && t.Split?
    requires Roomy(pts, closeCtr, sqDist)
    requires Assigned(t.lo, Survivors(cands, ctrs, t.box), ctrs, pts, dim, closeCtr, sqDist)
    requires Assigned(t.hi, Survivors(cands, ctrs, t.box), ctrs, pts, dim, closeCtr, sqDist)
    ensures Assigned(t, cands, ctrs, pts, dim, closeCtr, sqDist)
  {
  }

  /** KCleaf::getAssignments. */
  method LeafAssignments(node: KCnode, cands: seq<int>, ctrs: seq<Point>, pts: seq<Point>, dim: nat,
                         closeCtr: array?<int>, sqDist: array?<real>)
    requires Searchable(node, pts, dim) && Candidates(cands, ctrs, dim) && node.lo == null
    requires Roomy(pts, closeCtr, sqDist) && closeCtr != node.bkt
    modifies closeCtr, sqDist
    ensures Assigned(node.shape, cands, ctrs, pts, dim, closeCtr, sqDist)
    ensures OnlyFor(Points(node.shape), closeCtr, sqDist)
  {
    hide Fits, KCnode.Linked, KCnode.Bucket, KCnode.Summed;
    LeafBucket(node, pts, dim);
    for i := 0 to node.nData
      invariant node.bkt[..] == old(node.bkt[..])
      invariant i > 0 ==> Assigned(node.shape, cands, ctrs, pts, dim, closeCtr, sqDist)
      invariant OnlyFor(Points(node.shape), closeCtr, sqDist)
    {
      var p := node.bkt[node.off + i];
      var minK, minDist := ScanCandidates(cands, ctrs, pts[p]);
      if closeCtr != null { closeCtr[p] := cands[minK]; }
      if sqDist != null { sqDist[p] := minDist; }
    }
  }

  /** A leaf's bucket holds its points, at most one. */
  lemma LeafBucket(node: KCnode, pts: seq<Point>, dim: nat)
    requires Searchable(node, pts, dim) && node.lo == null
    ensures node.shape.Leaf? && node.nData == |node.shape.idx| <= 1
    ensures node.nData == 1 ==>
      && node.off < node.bkt.Length
      && Points(node.shape) == {node.bkt[node.off]} && 0 <= node.bkt[node.off] < |pts|
    ensures node.nData == 0 ==> Points(node.shape) == {}
  {
    assert node in node.nodes;
    if node.nData == 1 {
      assert node.bkt[..][node.off..node.off + 1][0] == node.bkt[node.off] == node.shape.idx[0];
      assert node.bkt[node.off] in Points(node.shape);
    }
  }
}
