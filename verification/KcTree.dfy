/** Building the kc-tree and its aggregates (DisCrawler/KMean/KCtree.h, DisCrawler/KMean/KCtree.cpp). */
module KcTree {
  import opened Vectors
  import opened Boxes
  import opened Splitting

  /** The value of a subtree.  A leaf lists the point indices of its bucket. */
  datatype Tree =
    | Leaf(box: Box, idx: seq<int>)
    | Split(box: Box, cutDim: nat, cutVal: real, lo: Tree, hi: Tree)

  /** The point indices below a node, from the low side to the high side. */
  function Order(t: Tree): seq<int> {
    match t
    case Leaf(_, idx) => idx
    case Split(_, _, _, lo, hi) => Order(lo) + Order(hi)
  }

  function Points(t: Tree): set<int> {
    match t
    case Leaf(_, idx) => set i | i in idx
    case Split(_, _, _, lo, hi) => Points(lo) + Points(hi)
  }

  lemma {:induction false} PointsAreOrdered(t: Tree)
    ensures forall i :: i in Points(t) <==> i in Order(t)
  {
    if t.Split? {
      PointsAreOrdered(t.lo);
      PointsAreOrdered(t.hi);
    }
  }

  /** The pieces of a box below and above a cut. */
  function LowBox(b: Box, cd: nat, cv: real): Box
    requires cd < |b.hi|
  {
    Box(b.lo, b.hi[cd := cv])
  }

  function HighBox(b: Box, cd: nat, cv: real): Box
    requires cd < |b.lo|
  {
    Box(b.lo[cd := cv], b.hi)
  }

  /** Every point of a node lies inside the node's box, leaves hold at most one point, the two
      sides of a split share no point and are never empty, and the children's boxes are the two
      pieces of the parent's. */
  ghost predicate Fits(t: Tree, pts: seq<Point>, dim: nat)
    requires AllDim(pts, dim)
  {
    && Proper(t.box, dim)
    && (forall i | i in Points(t) :: 0 <= i < |pts| && Inside(t.box, pts[i]))
    && match t
       case Leaf(_, idx) => |idx| <= 1
       case Split(b, cd, cv, lo, hi) =>
         && cd < dim
         && lo.box == LowBox(b, cd, cv)
         && hi.box == HighBox(b, cd, cv)
         && Order(lo) != [] && Order(hi) != []
         && Points(lo) !! Points(hi)
         && Fits(lo, pts, dim) && Fits(hi, pts, dim)
  }

  /** The number of nodes of a subtree. */
  function NodeCount(t: Tree): nat {
    match t
    case Leaf(_, _) => 1
    case Split(_, _, _, lo, hi) => 1 + NodeCount(lo) + NodeCount(hi)
  }

  /** n_nodes(): a subtree that holds m >= 1 points has 2m - 1 nodes, so every leaf holds
      exactly one. */
  lemma {:induction false} OnePointPerLeaf(t: Tree, pts: seq<Point>, dim: nat)
    requires AllDim(pts, dim) && Fits(t, pts, dim) && Order(t) != []
    ensures NodeCount(t) == 2 * |Order(t)| - 1
    ensures t.Leaf? ==> |t.idx| == 1
  {
    if t.Split? {
      OnePointPerLeaf(t.lo, pts, dim);
      OnePointPerLeaf(t.hi, pts, dim);
    }
  }

  /** No element occurs twice. */
  ghost predicate NoRepeats(s: seq<int>) {
    forall x | x in multiset(s) :: multiset(s)[x] == 1
  }

  lemma NoRepeatsParts(u: seq<int>, v: seq<int>)
    requires NoRepeats(u + v)
    ensures NoRepeats(u) && NoRepeats(v)
    ensures forall x | x in u :: x !in v
  {
    var lo, hi := multiset(u), multiset(v);
    assert multiset(u + v) == lo + hi;
    forall x | x in lo ensures lo[x] == 1 && x !in hi {
      assert (lo + hi)[x] == lo[x] + hi[x] == 1;
    }
    forall x | x in hi ensures hi[x] == 1 {
      assert (lo + hi)[x] == lo[x] + hi[x] == 1;
    }
    forall x | x in u ensures x !in v {
      assert x in lo;
    }
  }

  /** No entry of `s` occurs twice in [a, b). */
  ghost predicate Distinct(s: seq<int>, a: nat, b: nat)
    requires a <= b <= |s|
  {
    NoRepeats(s[a..b])
  }

  lemma DistinctParts(s: seq<int>, a: nat, m: nat, b: nat)
    requires a <= m <= b <= |s| && Distinct(s, a, b)
    ensures Distinct(s, a, m) && Distinct(s, m, b)
  {
    assert s[a..b] == s[a..m] + s[m..b];
    NoRepeatsParts(s[a..m], s[m..b]);
  }

  /** The inner loop of KCleaf::makeSums: one point into the sums. */
  method AddPoint(p: Point, sum0: Point, sumSq0: real) returns (sum: Point, sumSq: real)
    requires |sum0| == |p|
    ensures sum == Plus(sum0, p) && sumSq == sumSq0 + Dot(p, p)
  {
    sum, sumSq := sum0, sumSq0;
    for d := 0 to |p|
      invariant |sum| == |p|
      invariant forall e | 0 <= e < d :: sum[e] == sum0[e] + p[e]
      invariant forall e | d <= e < |p| :: sum[e] == sum0[e]
      invariant sumSq == sumSq0 + DotTo(p, p, d)
    {
      var theCoord := p[d];
      sum := sum[d := sum[d] + theCoord];
      sumSq := sumSq + theCoord * theCoord;
    }
  }

  /** Adding the aggregates of the children onto zeros gives the aggregate of the parent. */
  lemma ChildrenSum(t: Tree, pts: seq<Point>, dim: nat)
    requires AllDim(pts, dim) && Fits(t, pts, dim) && t.Split?
    ensures Join(Join(Nothing(dim), AggOf(pts, dim, Points(t.lo))), AggOf(pts, dim, Points(t.hi)))
      == AggOf(pts, dim, Points(t))
    ensures |Order(t)| == |Order(t.lo)| + |Order(t.hi)|
  {
    JoinNothing(AggOf(pts, dim, Points(t.lo)));
    AggUnion(pts, dim, Points(t.lo), Points(t.hi));
  }

  /** Adding to a vector leaves it as it is only if what was added to is zero. */
  lemma OnlyZeroVanishes(s: Point, a: Point)
    requires |s| == |a|
    ensures Plus(s, a) == a <==> s == Zero(|a|)
  {
    if Plus(s, a) == a {
      forall d | 0 <= d < |a| ensures s[d] == 0.0 {
        assert Plus(s, a)[d] == a[d];
      }
      assert s == Zero(|a|);
    } else {
      assert Plus(Zero(|a|), a) == a;
    }
  }

  /** A splitting node that starts from (s, q) and adds its exact children. */
  lemma SplitExact(t: Tree, pts: seq<Point>, dim: nat, s: Point, q: real, ls: Point, lq: real, hs: Point, hq: real)
    requires AllDim(pts, dim) && Fits(t, pts, dim) && t.Split? && |s| == |ls| == |hs| == dim
    requires AggOf(pts, dim, Points(t.lo)) == Agg(|Order(t.lo)|, ls, lq)
    requires AggOf(pts, dim, Points(t.hi)) == Agg(|Order(t.hi)|, hs, hq)
    ensures AggOf(pts, dim, Points(t)) == Agg(|Order(t)|, Plus(Plus(s, ls), hs), q + lq + hq)
      <==> s == Zero(dim) && q == 0.0
  {
    hide AggOf, Fits;
    ChildrenSum(t, pts, dim);
    JoinNothing(AggOf(pts, dim, Points(t.lo)));
    JoinAssoc(Agg(0, s, q), Agg(|Order(t.lo)|, ls, lq), Agg(|Order(t.hi)|, hs, hq));
    OnlyZeroVanishes(s, Plus(ls, hs));
  }

  /** Points at the origin have no sum and no squares. */
  lemma OriginSum(pts: seq<Point>, dim: nat, s: set<int>)
    requires AllDim(pts, dim) && forall i | i in s :: 0 <= i < |pts| && pts[i] == Zero(dim)
    ensures AggOf(pts, dim, s).sum == Zero(dim) && AggOf(pts, dim, s).sq == 0.0
  {
    OriginSumTo(pts, dim, s, |pts|);
  }

  lemma {:induction false} OriginSumTo(pts: seq<Point>, dim: nat, s: set<int>, n: nat)
    requires AllDim(pts, dim) && n <= |pts| && forall i | i in s :: 0 <= i < |pts| && pts[i] == Zero(dim)
    ensures AggTo(pts, dim, s, n).sum == Zero(dim) && AggTo(pts, dim, s, n).sq == 0.0
  {
    if n > 0 {
      OriginSumTo(pts, dim, s, n - 1);
      DotZero(Zero(dim), dim);
      assert Plus(Zero(dim), Zero(dim)) == Zero(dim);
    }
  }

  /** KCnode with its two kinds: a leaf has no children, a splitting node has both.  `bkt` and
      `off` are the bucket pointer into the shared index array. */
  class KCnode {
    const box: Box
    const bkt: array<int>
    const off: nat
    const cutDim: nat
    const cutVal: real
    const lo: KCnode?
    const hi: KCnode?
    var nData: int
    var sum: Point
    var sumSq: real
    ghost const shape: Tree
    ghost const nodes: set<KCnode>

    /** KCleaf. */
    constructor Leaf(dim: nat, bb: Box, n: nat, bkt: array<int>, off: nat)
      requires n <= 1 && off + n <= bkt.Length
      ensures shape == Tree.Leaf(bb, bkt[off..off + n])
      ensures this.bkt == bkt && this.off == off
      ensures Linked() && nodes == {this} && Zeroed(dim)
    {
      box, this.bkt, this.off := bb, bkt, off;
      cutDim, cutVal := 0, 0.0;
      lo, hi := null, null;
      nData, sum, sumSq := n, Zero(dim), 0.0;
      shape := Tree.Leaf(bb, bkt[off..off + n]);
      nodes := {this};
    }

    /** KCsplit. */
    constructor Split(dim: nat, bb: Box, cd: nat, cv: real, lc: KCnode, hc: KCnode)
      requires lc.Linked() && hc.Linked() && lc.nodes !! hc.nodes
      requires lc.bkt == hc.bkt && hc.off == lc.off + |Order(lc.shape)|
      requires lc.Zeroed(dim) && hc.Zeroed(dim)
      ensures shape == Tree.Split(bb, cd, cv, lc.shape, hc.shape)
      ensures bkt == lc.bkt && off == lc.off
      ensures Linked() && nodes == {this} + lc.nodes + hc.nodes && Zeroed(dim)
    {
      box, bkt, off := bb, lc.bkt, lc.off;
      cutDim, cutVal := cd, cv;
      lo, hi := lc, hc;
      nData, sum, sumSq := 0, Zero(dim), 0.0;
      shape := Tree.Split(bb, cd, cv, lc.shape, hc.shape);
      nodes := {this} + lc.nodes + hc.nodes;
    }

    /** The objects form the tree that `shape` describes. */
    ghost predicate Linked()
      decreases shape
    {
      && box == shape.box
      && match shape
         case Leaf(_, _) => lo == null && hi == null && nodes == {this}
         case Split(_, cd, cv, l, h) =>
           && lo != null && hi != null && lo.shape == l && hi.shape == h
           && cutDim == cd && cutVal == cv
           && lo.bkt == bkt == hi.bkt
           && lo.off == off && hi.off == off + |Order(l)|
           && lo.Linked() && hi.Linked()
           && nodes == {this} + lo.nodes + hi.nodes
           && lo.nodes !! hi.nodes && this !in lo.nodes + hi.nodes
    }

    /** The subtree's stretch of the index array, with contents `a`, lists its points. */
    ghost predicate Bucket(a: seq<int>) {
      && off + |Order(shape)| <= |a|
      && a[off..off + |Order(shape)|] == Order(shape)
    }

    /** Fresh from the constructors: nothing summed yet, and only leaves know their count. */
    ghost predicate Zeroed(dim: nat)
      reads nodes
    {
      forall m | m in nodes ::
        && m.sum == Zero(dim) && m.sumSq == 0.0
        && (m.shape.Leaf? ==> m.nData == |m.shape.idx|)
    }

    /** Ready for makeSums: the sums have room, and the leaves know their count. */
    ghost predicate Counted(dim: nat)
      reads nodes
    {
      forall m | m in nodes :: |m.sum| == dim && (m.shape.Leaf? ==> m.nData == |m.shape.idx|)
    }

    /** What makeSums adds to is zero: all vector sums, and the sums of squares of splitting nodes. */
    ghost predicate Clean(dim: nat)
      reads nodes
    {
      forall m | m in nodes :: m.sum == Zero(dim) && (m.shape.Split? ==> m.sumSq == 0.0)
    }

    lemma NewIsReady(dim: nat)
      requires Zeroed(dim)
      ensures Counted(dim) && Clean(dim)
    {
    }

    /** This node's fields are the exact aggregate of its points. */
    ghost predicate Exact(pts: seq<Point>, dim: nat)
      requires AllDim(pts, dim)
      reads this
    {
      && nData == |Order(shape)|
      && Agg(nData, sum, sumSq) == AggOf(pts, dim, Points(shape))
    }

    ghost predicate Summed(pts: seq<Point>, dim: nat)
      requires AllDim(pts, dim)
      reads nodes
    {
      forall m | m in nodes :: m.Exact(pts, dim)
    }

    /** KCleaf::makeSums: the sum of squares starts afresh, the vector sum does not. */
    method LeafSums(pts: seq<Point>, dim: nat)
      requires AllDim(pts, dim) && Linked() && Fits(shape, pts, dim) && shape.Leaf?
      requires Bucket(bkt[..]) && Counted(dim)
      modifies this
      ensures Counted(dim) && nData == |Order(shape)|
      ensures Exact(pts, dim) <==> old(sum) == Zero(dim)
    {
      ghost var before := sum;
      sumSq := 0.0;
      AggEmpty(pts, dim);
      JoinNothing(Agg(0, sum, sumSq));
      for i := 0 to nData
        invariant nData == |shape.idx| && |sum| == dim
        invariant Agg(i, sum, sumSq) == Join(Agg(0, before, 0.0), AggOf(pts, dim, if i == 0 then {} else {shape.idx[0]}))
      {
        assert bkt[off..off + 1][0] == bkt[off] == shape.idx[0];
        assert shape.idx[0] in Points(shape);
        sum, sumSq := AddPoint(pts[bkt[off + i]], sum, sumSq);
        AggSingleton(pts, dim, shape.idx[0]);
      }
      assert Points(shape) == if |shape.idx| == 0 then {} else {shape.idx[0]};
      OnlyZeroVanishes(before, AggOf(pts, dim, Points(shape)).sum);
    }

    /** The loop body of KCsplit::makeSums: visit one child and add what it returns. */
    method AddChild(child: KCnode, pts: seq<Point>, dim: nat)
      requires AllDim(pts, dim) && child.Linked() && Fits(child.shape, pts, dim)
      requires child.Bucket(child.bkt[..]) && child.Counted(dim)
      requires this !in child.nodes && child in child.nodes && |sum| == dim
      modifies this, child.nodes
      ensures child.Counted(dim) && child.nData == |Order(child.shape)|
      ensures child.Summed(pts, dim) <==> old(child.Clean(dim))
      ensures nData == old(nData) + child.nData && sum == Plus(old(sum), child.sum) && sumSq == old(sumSq) + child.sumSq
      decreases child.shape, 2
    {
      hide AggOf, Fits, Order;
      var nChild, sChild, ssqChild := child.MakeSums(pts, dim);
      nData, sum, sumSq := nData + nChild, Plus(sum, sChild), sumSq + ssqChild;
    }

    /** KCsplit::makeSums: only the count starts afresh. */
    method SplitSums(pts: seq<Point>, dim: nat)
      requires AllDim(pts, dim) && Linked() && Fits(shape, pts, dim) && shape.Split?
      requires Bucket(bkt[..]) && Counted(dim)
      modifies nodes
      ensures Counted(dim) && nData == |Order(shape)|
      ensures Summed(pts, dim) <==> old(Clean(dim))
      decreases shape, 0
    {
      hide AggOf, Plus, Order, Linked, Fits, Bucket, Summed, Clean, Counted;
      BucketSplits(bkt[..]);
      OpenShape(pts, dim);
      PartsAreReady(dim);
      ghost var s, q := sum, sumSq;
      nData := 0;
      AddChild(lo, pts, dim);
      AddChild(hi, pts, dim);
      if lo.Summed(pts, dim) && hi.Summed(pts, dim) {
        lo.SelfIsExact(pts, dim);
        hi.SelfIsExact(pts, dim);
        SplitExact(shape, pts, dim, s, q, lo.sum, lo.sumSq, hi.sum, hi.sumSq);
      }
      ChildrenSum(shape, pts, dim);
      PartsAreSummed(pts, dim);
    }

    lemma SelfIsExact(pts: seq<Point>, dim: nat)
      requires AllDim(pts, dim) && Summed(pts, dim) && this in nodes
      ensures Exact(pts, dim)
    {
    }

    lemma PartsAreReady(dim: nat)
      requires lo != null && hi != null && shape.Split? && nodes == {this} + lo.nodes + hi.nodes
      ensures Counted(dim) <==> |sum| == dim && lo.Counted(dim) && hi.Counted(dim)
      ensures Clean(dim) <==> sum == Zero(dim) && sumSq == 0.0 && lo.Clean(dim) && hi.Clean(dim)
    {
      assert this in nodes;
    }

    lemma PartsAreSummed(pts: seq<Point>, dim: nat)
      requires AllDim(pts, dim)
      requires lo != null && hi != null && shape.Split? && nodes == {this} + lo.nodes + hi.nodes
      requires lo in lo.nodes && hi in hi.nodes
      ensures Summed(pts, dim) <==> Exact(pts, dim) && lo.Summed(pts, dim) && hi.Summed(pts, dim)
      ensures Counted(dim) <==> |sum| == dim && lo.Counted(dim) && hi.Counted(dim)
    {
      assert this in nodes;
    }

    /** The parts of a splitting node. */
    lemma OpenShape(pts: seq<Point>, dim: nat)
      requires AllDim(pts, dim) && Linked() && Fits(shape, pts, dim) && shape.Split?
      ensures lo != null && hi != null && lo.Linked() && hi.Linked()
      ensures lo.shape == shape.lo && hi.shape == shape.hi && lo.bkt == bkt == hi.bkt
      ensures Fits(lo.shape, pts, dim) && Fits(hi.shape, pts, dim)
      ensures lo in lo.nodes && hi in hi.nodes && nodes == {this} + lo.nodes + hi.nodes
      ensures lo.nodes !! hi.nodes && this !in lo.nodes + hi.nodes
    {
    }

    lemma ThisIsANode()
      requires Linked()
      ensures this in nodes
    {
    }

    /** makeSums makes the aggregate of every node exact if and only if what it adds to was zero, as it is
        in a new tree. */
    method MakeSums(pts: seq<Point>, dim: nat) returns (n: int, theSum: Point, theSumSq: real)
      requires AllDim(pts, dim) && Linked() && Fits(shape, pts, dim)
      requires Bucket(bkt[..]) && Counted(dim)
      modifies nodes
      ensures Counted(dim) && n == nData == |Order(shape)| && theSum == sum && theSumSq == sumSq
      ensures Summed(pts, dim) <==> old(Clean(dim))
      decreases shape, 1
    {
      if lo == null {
        LeafSums(pts, dim);
      } else {
        SplitSums(pts, dim);
      }
      n, theSum, theSumSq := nData, sum, sumSq;
    }

    /** So a second call on an exact tree keeps it exact if and only if all its points are at the origin. */
    lemma {:induction false} SecondCallIsExactIff(pts: seq<Point>, dim: nat)
      requires AllDim(pts, dim) && Linked() && Fits(shape, pts, dim) && Summed(pts, dim)
      ensures Clean(dim) <==> forall i | i in Points(shape) :: pts[i] == Zero(dim)
      decreases shape
    {
      ThisIsANode();
      assert Exact(pts, dim);
      if shape.Leaf? {
        if |shape.idx| == 1 {
          assert shape.idx[0] in Points(shape) && Points(shape) == {shape.idx[0]};
          AggSingleton(pts, dim, shape.idx[0]);
        } else {
          assert Points(shape) == {};
          AggEmpty(pts, dim);
        }
      } else {
        hide AggOf, Fits;
        OpenSplit(pts, dim);
        lo.SecondCallIsExactIff(pts, dim);
        hi.SecondCallIsExactIff(pts, dim);
        if forall i | i in Points(shape) :: pts[i] == Zero(dim) {
          OriginSum(pts, dim, Points(shape));
        }
      }
    }

    lemma OpenSplit(pts: seq<Point>, dim: nat)
      requires AllDim(pts, dim) && Linked() && Fits(shape, pts, dim) && shape.Split? && Summed(pts, dim)
      ensures Fits(lo.shape, pts, dim) && Fits(hi.shape, pts, dim) && lo.Summed(pts, dim) && hi.Summed(pts, dim)
      ensures Points(shape) == Points(lo.shape) + Points(hi.shape)
      ensures forall i | i in Points(shape) :: 0 <= i < |pts|
    {
    }

    lemma BucketSplits(a: seq<int>)
      requires Linked() && shape.Split? && Bucket(a)
      ensures lo.Bucket(a) && hi.Bucket(a)
    {
      var x, y := Order(shape.lo), Order(shape.hi);
      assert a[off..off + |x + y|] == x + y;
      assert a[off..off + |x|] == (x + y)[..|x|] == x;
      assert a[off + |x|..off + |x + y|] == (x + y)[|x|..] == y;
    }
  }

  /** The points of the range are inside the box, and no index occurs twice. */
  ghost predicate Cell(pts: seq<Point>, dim: nat, idx: seq<int>, off: nat, n: nat, b: Box) {
    && Indices(pts, dim, idx, off, n)
    && Proper(b, dim)
    && (forall i | off <= i < off + n :: Inside(b, pts[idx[i]]))
    && Distinct(idx, off, off + n)
  }

  /** A good split turns the cell of a node into the cells of its children. */
  lemma ChildCells(pts: seq<Point>, dim: nat, idx: seq<int>, off: nat, n: nat, b: Box,
                   cd: nat, cv: real, nLo: nat)
    requires Cell(pts, dim, idx, off, n, b) && GoodSplit(pts, dim, idx, off, n, b, cd, cv, nLo)
    ensures Cell(pts, dim, idx, off, nLo, LowBox(b, cd, cv))
    ensures Cell(pts, dim, idx, off + nLo, n - nLo, HighBox(b, cd, cv))
  {
    DistinctParts(idx, off, off + nLo, off + n);
    forall i | off <= i < off + nLo ensures Inside(LowBox(b, cd, cv), pts[idx[i]]) {
      assert Inside(b, pts[idx[i]]);
    }
    forall i | off + nLo <= i < off + n ensures Inside(HighBox(b, cd, cv), pts[idx[i]]) {
      assert Inside(b, pts[idx[i]]);
    }
  }

  /** Rearranging keeps a cell. */
  lemma RearrangedCell(pts: seq<Point>, dim: nat, before: seq<int>, after: seq<int>, off: nat, n: nat, b: Box)
    requires Cell(pts, dim, before, off, n, b) && Rearranged(before, after, off, off + n)
    ensures Cell(pts, dim, after, off, n, b)
  {
    RearrangedSlice(before, after, off, off + n);
    forall i | off <= i < off + n ensures 0 <= after[i] < |pts| && Inside(b, pts[after[i]]) {
      RearrangedFrom(before, after, off, off + n, i);
    }
  }

  /** The stretch [off, off + n) of the index array lists the points of `t`. */
  ghost predicate Lists(idx: seq<int>, off: nat, n: nat, t: Tree) {
    off + n <= |idx| && idx[off..off + n] == Order(t)
  }

  /** The subtree over [off, off + n) fits its cell. */
  ghost predicate Built(t: Tree, pts: seq<Point>, dim: nat, idx: seq<int>, off: nat, n: nat, b: Box)
    requires AllDim(pts, dim)
  {
    && t.box == b && Fits(t, pts, dim)
    && Lists(idx, off, n, t)
  }

  lemma BuiltLeaf(pts: seq<Point>, dim: nat, idx: seq<int>, off: nat, n: nat, b: Box)
    requires n <= 1 && Cell(pts, dim, idx, off, n, b)
    ensures Built(Leaf(b, idx[off..off + n]), pts, dim, idx, off, n, b)
  {
  }

  /** The two listed halves of a cell share no point. */
  lemma HalvesDisjoint(lo: Tree, hi: Tree)
    requires NoRepeats(Order(lo) + Order(hi))
    ensures Points(lo) !! Points(hi)
  {
    hide Order, Points;
    NoRepeatsParts(Order(lo), Order(hi));
    PointsAreOrdered(lo);
    PointsAreOrdered(hi);
    forall x | x in Points(lo) ensures x !in Points(hi) {
      assert x in Order(lo);
    }
  }

  lemma SplitPoints(pts: seq<Point>, dim: nat, idx: seq<int>, off: nat, n: nat, b: Box, t: Tree)
    requires Cell(pts, dim, idx, off, n, b) && Lists(idx, off, n, t)
    ensures forall x | x in Points(t) :: 0 <= x < |pts| && Inside(b, pts[x])
  {
    hide Order, Points, Inside, Distinct;
    PointsAreOrdered(t);
    forall x | x in Points(t) ensures 0 <= x < |pts| && Inside(b, pts[x]) {
      var i :| 0 <= i < n && idx[off..off + n][i] == x;
      assert idx[off + i] == x;
    }
  }

  lemma BuiltSplit(pts: seq<Point>, dim: nat, idx: seq<int>, off: nat, n: nat, b: Box,
                   cd: nat, cv: real, nLo: nat, lo: Tree, hi: Tree)
    requires Cell(pts, dim, idx, off, n, b) && cd < dim && 1 <= nLo < n
    requires Built(lo, pts, dim, idx, off, nLo, LowBox(b, cd, cv))
    requires Built(hi, pts, dim, idx, off + nLo, n - nLo, HighBox(b, cd, cv))
    ensures Built(Split(b, cd, cv, lo, hi), pts, dim, idx, off, n, b)
  {
    hide Inside, NoRepeats;
    assert idx[off..off + n] == idx[off..off + nLo] + idx[off + nLo..off + n];
    HalvesDisjoint(lo, hi);
    SplitPoints(pts, dim, idx, off, n, b, Split(b, cd, cv, lo, hi));
  }

  /** Work elsewhere in the shared array disturbs neither a cell that is still to be built ... */
  lemma CellElsewhere(pts: seq<Point>, dim: nat, before: seq<int>, after: seq<int>, a: nat, e: nat,
                      off: nat, n: nat, b: Box)
    requires Cell(pts, dim, before, off, n, b)
    requires Rearranged(before, after, a, e) && (off + n <= a || e <= off)
    ensures Cell(pts, dim, after, off, n, b)
  {
    assert after[off..off + n] == before[off..off + n];
  }

  /** ... nor the buckets of a subtree that is already built. */
  lemma BuiltElsewhere(t: Tree, pts: seq<Point>, dim: nat, before: seq<int>, after: seq<int>, a: nat, e: nat,
                       off: nat, n: nat, b: Box)
    requires AllDim(pts, dim) && Built(t, pts, dim, before, off, n, b)
    requires Rearranged(before, after, a, e) && (off + n <= a || e <= off)
    ensures Built(t, pts, dim, after, off, n, b)
  {
    assert after[off..off + n] == before[off..off + n];
  }

  /** The low half of buildKcTree: narrow the caller's box, recurse, restore the box. */
  method BuildLow(pts: seq<Point>, pidx: array<int>, off: nat, n: nat, dim: nat, bnd: OrthRect, cd: nat, cv: real)
    returns (node: KCnode)
    requires dim >= 1 && cd < dim && Proper(bnd.Value(), dim)
    requires Cell(pts, dim, pidx[..], off, n, LowBox(bnd.Value(), cd, cv))
    modifies pidx, bnd
    ensures Rearranged(old(pidx[..]), pidx[..], off, off + n)
    ensures bnd.Value() == old(bnd.Value())
    ensures node.Linked() && fresh(node.nodes) && node.Zeroed(dim)
    ensures node.bkt == pidx && node.off == off
    ensures Built(node.shape, pts, dim, pidx[..], off, n, LowBox(old(bnd.Value()), cd, cv))
    decreases n, 1
  {
    hide Fits, Lists, NoRepeats, KCnode.Linked, Order;
    var hv := bnd.hi[cd];
    bnd.hi := bnd.hi[cd := cv];
    node := BuildKcTree(pts, pidx, off, n, dim, bnd);
    bnd.hi := bnd.hi[cd := hv];
  }

  /** The high half of buildKcTree.  It works on the same array as the low half, whose subtree
      `lo` it leaves alone: neither its nodes nor its buckets change. */
  method BuildHigh(pts: seq<Point>, pidx: array<int>, off: nat, n: nat, dim: nat, bnd: OrthRect, cd: nat, cv: real,
                   nLo: nat, ghost lo: KCnode, ghost bLo: Box)
    returns (node: KCnode)
    requires dim >= 1 && cd < dim && Proper(bnd.Value(), dim) && nLo < n
    requires Cell(pts, dim, pidx[..], off + nLo, n - nLo, HighBox(bnd.Value(), cd, cv))
    requires lo.Zeroed(dim) && Built(lo.shape, pts, dim, pidx[..], off, nLo, bLo)
    modifies pidx, bnd
    ensures Rearranged(old(pidx[..]), pidx[..], off + nLo, off + n)
    ensures bnd.Value() == old(bnd.Value())
    ensures node.Linked() && fresh(node.nodes) && node.Zeroed(dim)
    ensures node.bkt == pidx && node.off == off + nLo
    ensures Built(node.shape, pts, dim, pidx[..], off + nLo, n - nLo, HighBox(old(bnd.Value()), cd, cv))
    ensures lo.Zeroed(dim) && Built(lo.shape, pts, dim, pidx[..], off, nLo, bLo)
    ensures lo.nodes !! node.nodes
    decreases n - nLo, 1
  {
    hide Fits, Lists, NoRepeats, KCnode.Linked, Order;
    var lv := bnd.lo[cd];
    bnd.lo := bnd.lo[cd := cv];
    ghost var s := pidx[..];
    node := BuildKcTree(pts, pidx, off + nLo, n - nLo, dim, bnd);
    bnd.lo := bnd.lo[cd := lv];
    BuiltElsewhere(lo.shape, pts, dim, s, pidx[..], off + nLo, off + n, off, nLo, bLo);
  }

  /** buildKcTree: splits the range in place and recurses on both sides, narrowing the caller's
      box on the way down and restoring it on the way up. */
  method BuildKcTree(pts: seq<Point>, pidx: array<int>, off: nat, n: nat, dim: nat, bnd: OrthRect)
    returns (node: KCnode)
    requires dim >= 1 && Cell(pts, dim, pidx[..], off, n, bnd.Value())
    modifies pidx, bnd
    ensures Rearranged(old(pidx[..]), pidx[..], off, off + n)
    ensures bnd.Value() == old(bnd.Value())
    ensures node.Linked() && fresh(node.nodes) && node.Zeroed(dim)
    ensures node.bkt == pidx && node.off == off
    ensures Built(node.shape, pts, dim, pidx[..], off, n, bnd.Value())
    decreases n, 0
  {
    if n <= 1 {
      node := new KCnode.Leaf(dim, bnd.Value(), n, pidx, off);
      assert pidx[off..off + n] == pidx[..][off..off + n];
      BuiltLeaf(pts, dim, pidx[..], off, n, bnd.Value());
    } else {
      node := BuildSplit(pts, pidx, off, n, dim, bnd);
    }
  }

  /** The two recursive calls of buildKcTree. */
  method BuildSides(pts: seq<Point>, pidx: array<int>, off: nat, n: nat, dim: nat, bnd: OrthRect,
                    cd: nat, cv: real, nLo: nat)
    returns (lo: KCnode, hi: KCnode)
    requires dim >= 1 && cd < dim && Proper(bnd.Value(), dim) && 1 <= nLo < n
    requires Cell(pts, dim, pidx[..], off, nLo, LowBox(bnd.Value(), cd, cv))
    requires Cell(pts, dim, pidx[..], off + nLo, n - nLo, HighBox(bnd.Value(), cd, cv))
    modifies pidx, bnd
    ensures Rearranged(old(pidx[..]), pidx[..], off, off + n)
    ensures bnd.Value() == old(bnd.Value())
    ensures lo.Linked() && fresh(lo.nodes) && lo.Zeroed(dim) && lo.bkt == pidx && lo.off == off
    ensures hi.Linked() && fresh(hi.nodes) && hi.Zeroed(dim) && hi.bkt == pidx && hi.off == off + nLo
    ensures lo.nodes !! hi.nodes
    ensures Built(lo.shape, pts, dim, pidx[..], off, nLo, LowBox(old(bnd.Value()), cd, cv))
    ensures Built(hi.shape, pts, dim, pidx[..], off + nLo, n - nLo, HighBox(old(bnd.Value()), cd, cv))
    decreases n - 1, 2
  {
    hide Fits, Lists, NoRepeats, Indices, KCnode.Linked, Order;
    ghost var s1, bLo, bHi := pidx[..], LowBox(bnd.Value(), cd, cv), HighBox(bnd.Value(), cd, cv);
    lo := BuildLow(pts, pidx, off, nLo, dim, bnd, cd, cv);
    CellElsewhere(pts, dim, s1, pidx[..], off, off + nLo, off + nLo, n - nLo, bHi);
    hi := BuildHigh(pts, pidx, off, n, dim, bnd, cd, cv, nLo, lo, bLo);
  }

  /** The split, seen as what it does to the cell. */
  method CutCell(pts: seq<Point>, pidx: array<int>, off: nat, n: nat, dim: nat, b: Box)
    returns (cd: nat, cv: real, nLo: nat)
    requires dim >= 1 && n >= 2 && Cell(pts, dim, pidx[..], off, n, b)
    modifies pidx
    ensures Rearranged(old(pidx[..]), pidx[..], off, off + n)
    ensures cd < dim && 1 <= nLo < n
    ensures Cell(pts, dim, pidx[..], off, nLo, LowBox(b, cd, cv))
    ensures Cell(pts, dim, pidx[..], off + nLo, n - nLo, HighBox(b, cd, cv))
  {
    cd, cv, nLo := SlMidptSplit(pts, dim, pidx, off, b, n);
    RearrangedCell(pts, dim, old(pidx[..]), pidx[..], off, n, b);
    ChildCells(pts, dim, pidx[..], off, n, b, cd, cv, nLo);
  }

  /** The recursive case of buildKcTree. */
  method BuildSplit(pts: seq<Point>, pidx: array<int>, off: nat, n: nat, dim: nat, bnd: OrthRect)
    returns (node: KCnode)
    requires dim >= 1 && n >= 2 && Cell(pts, dim, pidx[..], off, n, bnd.Value())
    modifies pidx, bnd
    ensures Rearranged(old(pidx[..]), pidx[..], off, off + n)
    ensures bnd.Value() == old(bnd.Value())
    ensures node.Linked() && fresh(node.nodes) && node.Zeroed(dim)
    ensures node.bkt == pidx && node.off == off
    ensures Built(node.shape, pts, dim, pidx[..], off, n, bnd.Value())
    decreases n - 1, 3
  {
    ghost var b, s0 := bnd.Value(), pidx[..];
    var cd, cv, nLo := CutCell(pts, pidx, off, n, dim, bnd.Value());
    var lo, hi := BuildSides(pts, pidx, off, n, dim, bnd, cd, cv, nLo);
    RearrangedCell(pts, dim, s0, pidx[..], off, n, b);
    BuiltSplit(pts, dim, pidx[..], off, n, b, cd, cv, nLo, lo.shape, hi.shape);
    node := new KCnode.Split(dim, bnd.Value(), cd, cv, lo, hi);
    forall m | m in node.nodes ensures fresh(m) {
      if m !in lo.nodes && m !in hi.nodes {
        assert m == node;
      }
    }
  }

  /** The identity, with which the constructor starts, has no repetitions. */
  lemma {:induction false} IdentityDistinct(s: seq<int>, n: nat)
    requires n <= |s| && forall i | 0 <= i < n :: s[i] == i
    ensures Distinct(s, 0, n)
    ensures forall x :: x in multiset(s[0..n]) <==> 0 <= x < n
  {
    if n > 0 {
      IdentityDistinct(s, n - 1);
      assert s[0..n] == s[0..n - 1] + [s[n - 1]];
      assert multiset(s[0..n]) == multiset(s[0..n - 1]) + multiset{n - 1};
    }
  }

  /** skeletonTree: the identity permutation and the enclosing box. */
  method SkeletonTree(pa: seq<Point>, n: nat, dd: nat) returns (idx: array<int>, bnd: OrthRect)
    requires |pa| == n >= 1 && AllDim(pa, dd)
    ensures fresh(idx) && fresh(bnd) && idx.Length == n
    ensures forall i | 0 <= i < n :: idx[i] == i
    ensures Cell(pa, dd, idx[..], 0, n, bnd.Value())
  {
    idx := new int[n];
    for i := 0 to n
      invariant forall j | 0 <= j < i :: idx[j] == j
    {
      idx[i] := i;
    }
    IdentityDistinct(idx[..], n);
    bnd := new OrthRect(Zero(dd), Zero(dd));
    KmEnclRect(pa, dd, idx, n, bnd);
  }

  /** The whole tree over a point set. */
  class KCtree {
    const dim: nat
    const pts: seq<Point>
    const pidx: array<int>
    const root: KCnode
    const bndBox: OrthRect
    ghost const repr: set<object>

    /** The tree holds every point index once, inside its boxes, with exact aggregates. */
    ghost predicate Valid()
      reads repr
    {
      && pidx in repr && bndBox in repr && root.nodes <= repr
      && dim >= 1 && |pts| >= 1 && AllDim(pts, dim)
      && root.Linked() && root.bkt == pidx && root.off == 0 && pidx.Length == |pts|
      && Fits(root.shape, pts, dim)
      && root.Bucket(pidx[..]) && |Order(root.shape)| == |pts|
      && (forall i :: i in Points(root.shape) <==> 0 <= i < |pts|)
      && root.Summed(pts, dim)
      && bndBox.Value() == root.box
    }

    /** The identity permutation, the enclosing box, the recursive construction, the sums. */
    constructor (pa: seq<Point>, dd: nat)
      requires |pa| >= 1 && dd >= 1 && AllDim(pa, dd)
      ensures Valid() && pts == pa && dim == dd
      ensures fresh(repr)
    {
      hide Fits, KCnode.Linked, Order, AggOf, Cell, Rearranged, KCnode.Summed, KCnode.Counted, KCnode.Clean,
        KCnode.Zeroed;
      var n := |pa|;
      var idx, bnd := SkeletonTree(pa, n, dd);
      ghost var s0 := idx[..];
      var node := BuildKcTree(pa, idx, 0, n, dd, bnd);
      RootPoints(s0, idx[..], n, node.shape, pa, dd, bnd.Value());
      ghost var s1, box := idx[..], bnd.Value();
      assert node.Bucket(s1);
      node.NewIsReady(dd);
      var count, ignoreSum, ignoreSumSq := node.MakeSums(pa, dd);
      assert count == n;
      assert idx[..] == s1 && bnd.Value() == box;
      dim, pts, pidx, root, bndBox := dd, pa, idx, node, bnd;
      repr := {idx, bnd} + node.nodes;
    }
  }

  /** The points of the whole tree are all indices. */
  lemma RootPoints(before: seq<int>, after: seq<int>, n: nat, t: Tree, pts: seq<Point>, dim: nat, b: Box)
    requires |before| == n && forall i | 0 <= i < n :: before[i] == i
    requires Rearranged(before, after, 0, n)
    requires AllDim(pts, dim) && Built(t, pts, dim, after, 0, n, b)
    ensures forall i :: i in Points(t) <==> 0 <= i < n
  {
    IdentityDistinct(before, n);
    PointsAreOrdered(t);
    assert after[0..n] == after && before[0..n] == before;
    forall i ensures i in Points(t) <==> 0 <= i < n {
      assert i in Points(t) <==> i in multiset(after);
    }
  }
}
