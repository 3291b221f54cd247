/** getNeighbors (DisCrawler/KMean/KCtree.cpp): posting whole subtrees to the centres that own them. */
module Neighbors {
  import opened Vectors
  import opened KcTree
  import opened Filtering

  /** The points below `t` that the search gives to centre `j`. */
  ghost function Owned(t: Tree, cands: seq<int>, ctrs: seq<Point>, pts: seq<Point>, dim: nat, j: int): set<int>
    requires AllDim(pts, dim) && Fits(t, pts, dim) && Candidates(cands, ctrs, dim)
  {
    set i | i in Points(t) && Owner(t, cands, ctrs, pts, dim, i) == j
  }

  /** Tallies of dimension `dim`, one for each of `k` centres. */
  ghost predicate TallyDims(tallies: seq<Agg>, dim: nat, k: nat) {
    |tallies| == k && forall j | 0 <= j < k :: |tallies[j].sum| == dim
  }

  /** What the tallies must become: each centre gains the exact aggregate of the points it owns. */
  ghost function Posted(tallies: seq<Agg>, t: Tree, cands: seq<int>, ctrs: seq<Point>, pts: seq<Point>, dim: nat)
    : (r: seq<Agg>)
    requires AllDim(pts, dim) && Fits(t, pts, dim) && Candidates(cands, ctrs, dim)
    requires TallyDims(tallies, dim, |ctrs|)
    ensures TallyDims(r, dim, |ctrs|)
  {
    seq(|ctrs|, j requires 0 <= j < |ctrs| => Join(tallies[j], AggOf(pts, dim, Owned(t, cands, ctrs, pts, dim, j))))
  }

  /** Posting the children one after the other posts the parent. */
  lemma PostedSplit(tallies: seq<Agg>, t: Tree, cands: seq<int>, ctrs: seq<Point>, pts: seq<Point>, dim: nat)
    requires AllDim(pts, dim) && Fits(t, pts, dim) && Candidates(cands, ctrs, dim) && t.Split?
    requires TallyDims(tallies, dim, |ctrs|)
    ensures var kept := Survivors(cands, ctrs, t.box);
      Posted(Posted(tallies, t.lo, kept, ctrs, pts, dim), t.hi, kept, ctrs, pts, dim)
      == Posted(tallies, t, cands, ctrs, pts, dim)
  {
    var kept := Survivors(cands, ctrs, t.box);
    forall j | 0 <= j < |ctrs|
      ensures Posted(Posted(tallies, t.lo, kept, ctrs, pts, dim), t.hi, kept, ctrs, pts, dim)[j]
        == Posted(tallies, t, cands, ctrs, pts, dim)[j]
    {
      var lo, hi := Owned(t.lo, kept, ctrs, pts, dim, j), Owned(t.hi, kept, ctrs, pts, dim, j);
      assert Owned(t, cands, ctrs, pts, dim, j) == lo + hi;
      AggUnion(pts, dim, lo, hi);
      JoinAssoc(tallies[j], AggOf(pts, dim, lo), AggOf(pts, dim, hi));
    }
  }

  /** When one centre owns everything below, only its tally changes. */
  lemma PostedToOne(tallies: seq<Agg>, t: Tree, cands: seq<int>, ctrs: seq<Point>, pts: seq<Point>, dim: nat, c: int)
    requires AllDim(pts, dim) && Fits(t, pts, dim) && Candidates(cands, ctrs, dim)
    requires TallyDims(tallies, dim, |ctrs|) && 0 <= c < |ctrs|
    requires forall i | i in Points(t) :: Owner(t, cands, ctrs, pts, dim, i) == c
    ensures Posted(tallies, t, cands, ctrs, pts, dim)
      == tallies[c := Join(tallies[c], AggOf(pts, dim, Points(t)))]
  {
    AggEmpty(pts, dim);
    forall j | 0 <= j < |ctrs|
      ensures Posted(tallies, t, cands, ctrs, pts, dim)[j]
        == tallies[c := Join(tallies[c], AggOf(pts, dim, Points(t)))][j]
    {
      JoinNothing(tallies[j]);
      assert Owned(t, cands, ctrs, pts, dim, j) == if j == c then Points(t) else {};
    }
  }

  /** The tallies that the three result arrays hold. */
  ghost function Tallies(weights: array<int>, sums: array<Point>, sumSqs: array<real>): (r: seq<Agg>)
    requires weights.Length == sums.Length == sumSqs.Length
    reads weights, sums, sumSqs
    ensures |r| == weights.Length
    ensures forall j | 0 <= j < |r| :: r[j] == Agg(weights[j], sums[j], sumSqs[j])
  {
    seq(weights.Length, j requires 0 <= j < weights.Length reads weights, sums, sumSqs
                          requires weights.Length == sums.Length == sumSqs.Length =>
      Agg(weights[j], sums[j], sumSqs[j]))
  }

  ghost predicate TallyArrays(weights: array<int>, sums: array<Point>, sumSqs: array<real>, dim: nat, k: nat)
    reads sums
  {
    && weights.Length == sums.Length == sumSqs.Length == k
    && forall j | 0 <= j < k :: |sums[j]| == dim
  }

  /** postNeigh. */
  method PostNeigh(sum: Point, sumSq: real, nData: int, ctrIdx: int,
                   weights: array<int>, sums: array<Point>, sumSqs: array<real>, dim: nat, k: nat)
    requires TallyArrays(weights, sums, sumSqs, dim, k) && 0 <= ctrIdx < k && |sum| == dim
    modifies weights, sums, sumSqs
    ensures TallyArrays(weights, sums, sumSqs, dim, k)
    ensures var was := old(Tallies(weights, sums, sumSqs));
      Tallies(weights, sums, sumSqs) == was[ctrIdx := Join(was[ctrIdx], Agg(nData, sum, sumSq))]
  {
    ghost var was := Tallies(weights, sums, sumSqs);
    assert |was[ctrIdx].sum| == dim;
    sums[ctrIdx] := Plus(sums[ctrIdx], sum);
    weights[ctrIdx] := weights[ctrIdx] + nData;
    sumSqs[ctrIdx] := sumSqs[ctrIdx] + sumSq;
    assert Tallies(weights, sums, sumSqs) == was[ctrIdx := Join(was[ctrIdx], Agg(nData, sum, sumSq))];
  }

  /** getNeighbors: each centre's tally gains exactly the points that the search gives it, although
      a subtree with one remaining candidate is posted whole, from its cached aggregate. */
  method GetNeighbors(node: KCnode, cands: seq<int>, ctrs: seq<Point>, pts: seq<Point>, dim: nat,
                      weights: array<int>, sums: array<Point>, sumSqs: array<real>)
    requires Searchable(node, pts, dim) && Candidates(cands, ctrs, dim)
    requires TallyArrays(weights, sums, sumSqs, dim, |ctrs|) && weights != node.bkt
    modifies weights, sums, sumSqs
    ensures TallyArrays(weights, sums, sumSqs, dim, |ctrs|)
    ensures Tallies(weights, sums, sumSqs)
      == Posted(old(Tallies(weights, sums, sumSqs)), node.shape, cands, ctrs, pts, dim)
    decreases node.shape
  {
    hide Fits, KCnode.Linked, KCnode.Bucket, KCnode.Summed, Survivors, Posted, Tallies;
    ghost var was := Tallies(weights, sums, sumSqs);
    if |cands| == 1 {
      PostWhole(node, cands, ctrs, pts, dim, weights, sums, sumSqs);
    } else if node.lo == null {
      LeafNeighbors(node, cands, ctrs, pts, dim, weights, sums, sumSqs);
    } else {
      SearchableChildren(node, pts, dim);
      InhabitedBox(node.shape, pts, dim);
      var newCands := FilterCandidates(cands, ctrs, node.box);
      GetNeighbors(node.lo, newCands, ctrs, pts, dim, weights, sums, sumSqs);
      GetNeighbors(node.hi, newCands, ctrs, pts, dim, weights, sums, sumSqs);
      PostedSplit(was, node.shape, cands, ctrs, pts, dim);
    }
  }

  /** The first branch of both getNeighbors: one candidate takes the node's cached aggregate. */
  method PostWhole(node: KCnode, cands: seq<int>, ctrs: seq<Point>, pts: seq<Point>, dim: nat,
                   weights: array<int>, sums: array<Point>, sumSqs: array<real>)
    requires Searchable(node, pts, dim) && Candidates(cands, ctrs, dim) && |cands| == 1
    requires TallyArrays(weights, sums, sumSqs, dim, |ctrs|) && weights != node.bkt
    modifies weights, sums, sumSqs
    ensures TallyArrays(weights, sums, sumSqs, dim, |ctrs|)
    ensures Tallies(weights, sums, sumSqs)
      == Posted(old(Tallies(weights, sums, sumSqs)), node.shape, cands, ctrs, pts, dim)
  {
    ghost var was := Tallies(weights, sums, sumSqs);
    forall i | i in Points(node.shape) ensures Owner(node.shape, cands, ctrs, pts, dim, i) == cands[0] {
      OnlyCandidateOwns(node.shape, cands, ctrs, pts, dim, i);
    }
    PostedToOne(was, node.shape, cands, ctrs, pts, dim, cands[0]);
    assert node in node.nodes && node.Exact(pts, dim);
    PostNeigh(node.sum, node.sumSq, node.nData, cands[0], weights, sums, sumSqs, dim, |ctrs|);
  }

  /** KCleaf::getNeighbors with several candidates: every point goes to its nearest one, together
      with the sum of squares of the whole leaf, which is right because the leaf has one point. */
  method LeafNeighbors(node: KCnode, cands: seq<int>, ctrs: seq<Point>, pts: seq<Point>, dim: nat,
                       weights: array<int>, sums: array<Point>, sumSqs: array<real>)
    requires Searchable(node, pts, dim) && Candidates(cands, ctrs, dim) && node.lo == null
    requires TallyArrays(weights, sums, sumSqs, dim, |ctrs|) && weights != node.bkt
    modifies weights, sums, sumSqs
    ensures TallyArrays(weights, sums, sumSqs, dim, |ctrs|)
    ensures Tallies(weights, sums, sumSqs)
      == Posted(old(Tallies(weights, sums, sumSqs)), node.shape, cands, ctrs, pts, dim)
  {
    ghost var was := Tallies(weights, sums, sumSqs);
    ghost var now := Posted(was, node.shape, cands, ctrs, pts, dim);
    LeafPosted(node, cands, ctrs, pts, dim, was);
    for i := 0 to node.nData
      invariant node.bkt[..] == old(node.bkt[..])
      invariant TallyArrays(weights, sums, sumSqs, dim, |ctrs|)
      invariant Tallies(weights, sums, sumSqs) == if i == 0 then was else now
    {
      var p := node.bkt[node.off + i];
      var minK, minDist := ScanCandidates(cands, ctrs, pts[p]);
      PostNeigh(pts[p], node.sumSq, 1, cands[minK], weights, sums, sumSqs, dim, |ctrs|);
    }
  }

  lemma LeafPosted(node: KCnode, cands: seq<int>, ctrs: seq<Point>, pts: seq<Point>, dim: nat, was: seq<Agg>)
    requires Searchable(node, pts, dim) && Candidates(cands, ctrs, dim) && node.lo == null
    requires TallyDims(was, dim, |ctrs|)
    ensures 0 <= node.nData <= 1
    ensures node.nData == 0 ==> Posted(was, node.shape, cands, ctrs, pts, dim) == was
    ensures node.nData == 1 ==>
      && node.off < node.bkt.Length && 0 <= node.bkt[node.off] < |pts|
      && var c := Nearest(cands, ctrs, pts[node.bkt[node.off]]);
         Posted(was, node.shape, cands, ctrs, pts, dim)
         == was[c := Join(was[c], Agg(1, pts[node.bkt[node.off]], node.sumSq))]
  {
    LeafBucket(node, pts, dim);
    assert node in node.nodes && node.Exact(pts, dim);
    if node.nData == 0 {
      JoinNothing(was[cands[0]]);
      AggEmpty(pts, dim);
      PostedToOne(was, node.shape, cands, ctrs, pts, dim, cands[0]);
    } else {
      var p := node.bkt[node.off];
      AggSingleton(pts, dim, p);
      PostedToOne(was, node.shape, cands, ctrs, pts, dim, Nearest(cands, ctrs, pts[p]));
    }
  }
}
