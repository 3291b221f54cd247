/** Sampling a node of the tree (KCtree::sampleCtr in DisCrawler/KMean/KCtree.cpp). */
module Sampling {
  import opened Vectors
  import opened Boxes
  import opened KcTree

  /** kmRanInt: an integer in [0, n) from a number in [0, 1], or -1 if n is 0.  Draws below 1 are divided evenly
      (see EqualShares), and 1 gives n - 1. */
  function RanInt(u: real, n: nat): (r: int)
    requires 0.0 <= u <= 1.0
    ensures n >= 1 ==> 0 <= r < n
    ensures n == 0 || u == 1.0 ==> r == n - 1
  {
    ScaledDraw(u, n);
    var r := (u * n as real).Floor;
    if r == n then r - 1 else r
  }

  /** Each of the n integers comes out for an equal share of the draws: k from k / n up to (k + 1) / n. */
  lemma EqualShares(u: real, n: nat, k: nat)
    requires 0.0 <= u < 1.0 && k < n
    ensures RanInt(u, n) == k <==> k as real / n as real <= u < (k + 1) as real / n as real
  {
    var lo, hi := k as real / n as real, (k + 1) as real / n as real;
    var x := u * n as real;
    RatioTest(u, k, n);
    RatioTest(u, k + 1, n);
    RatioTest(u, n, n);
    assert u < lo <==> x < k as real;
    assert u < hi <==> x < k as real + 1.0;
    assert x < n as real;
    assert RanInt(u, n) == x.Floor;
    assert x.Floor == k <==> k as real <= x < k as real + 1.0;
  }

  lemma RatioTest(u: real, k: nat, n: nat)
    requires n >= 1
    ensures u < k as real / n as real <==> u * n as real < k as real
    ensures n as real / n as real == 1.0
  {
    var v, w := k as real / n as real, n as real;
    assert v * w == k as real;
    assert (v - u) * w == v * w - u * w;
  }

  lemma ScaledDraw(u: real, n: nat)
    requires 0.0 <= u <= 1.0
    ensures 0.0 <= u * n as real <= n as real
  {
    assert (1.0 - u) * n as real == n as real - u * n as real;
  }

  datatype Branch = Here | Low | High

  /** n_nodes(). */
  function NNodes(t: Tree): int { 2 * |Order(t)| - 1 }

  /** Where a draw in [0, n_nodes) sends the walk. */
  function Choose(t: Tree, r: int): Branch
    requires t.Split?
  {
    if r == 0 then Here else if r <= NNodes(t.lo) then Low else High
  }

  /** The subtree at a path; `true` goes to the high side. */
  ghost predicate IsPath(t: Tree, path: seq<bool>)
    decreases path
  {
    path == [] || (t.Split? && IsPath(if path[0] then t.hi else t.lo, path[1..]))
  }

  ghost function At(t: Tree, path: seq<bool>): Tree
    requires IsPath(t, path)
    decreases path
  {
    if path == [] then t else At(if path[0] then t.hi else t.lo, path[1..])
  }

  /** The draws, out of all equally likely ones, that take branch `b`. */
  ghost function Draws(t: Tree, b: Branch): set<int>
    requires t.Split?
  {
    set r | 0 <= r < NNodes(t) && Choose(t, r) == b
  }

  /** The share of the draws that take branch `b`. */
  ghost function Share(t: Tree, b: Branch): real
    requires t.Split? && NNodes(t) >= 1
  {
    |Draws(t, b)| as real / NNodes(t) as real
  }

  /** Every node of `t` has a point below it. */
  ghost predicate Inhabited(t: Tree) {
    match t
    case Leaf(_, idx) => |idx| == 1
    case Split(_, _, _, lo, hi) => Inhabited(lo) && Inhabited(hi)
  }

  /** The probability that the walk from `t` ends at `path`, if every draw is uniform. */
  ghost function Chance(t: Tree, path: seq<bool>): real
    requires IsPath(t, path) && Inhabited(t)
    decreases path
  {
    SomeNodes(t);
    if t.Leaf? then 1.0
    else if path == [] then Share(t, Here)
    else if path[0] then Share(t, High) * Chance(t.hi, path[1..])
    else Share(t, Low) * Chance(t.lo, path[1..])
  }

  lemma {:induction false} SomeNodes(t: Tree)
    requires Inhabited(t)
    ensures NNodes(t) == NodeCount(t) >= 1 && (t.Leaf? ==> NNodes(t) == 1)
  {
    if t.Split? {
      SomeNodes(t.lo);
      SomeNodes(t.hi);
    }
  }

  lemma {:induction false} IntervalSize(a: int, b: int) returns (s: set<int>)
    requires a <= b
    ensures forall x :: x in s <==> a <= x < b
    ensures |s| == b - a
    decreases b - a
  {
    if a == b {
      s := {};
    } else {
      s := IntervalSize(a, b - 1);
      s := s + {b - 1};
    }
  }

  /** One draw stays, and each side gets as many draws as it has nodes. */
  lemma DrawCounts(t: Tree)
    requires t.Split? && Inhabited(t)
    ensures |Draws(t, Here)| == 1
    ensures |Draws(t, Low)| == NNodes(t.lo)
    ensures |Draws(t, High)| == NNodes(t.hi)
  {
    SomeNodes(t.lo);
    SomeNodes(t.hi);
    var low := IntervalSize(1, NNodes(t.lo) + 1);
    var high := IntervalSize(NNodes(t.lo) + 1, NNodes(t));
    assert Draws(t, Here) == {0};
    assert Draws(t, Low) == low;
    assert Draws(t, High) == high;
  }

  lemma ShareTimesChance(m: int, n: int)
    requires m >= 1 && n >= 1
    ensures (m as real / n as real) * (1.0 / m as real) == 1.0 / n as real
  {
  }

  /** Sampling is uniform: every node of a subtree with m points is selected with probability
      1 / (2m - 1). */
  lemma {:induction false} SamplingIsUniform(t: Tree, path: seq<bool>)
    requires IsPath(t, path) && Inhabited(t)
    ensures NNodes(t) >= 1 && Chance(t, path) == 1.0 / NNodes(t) as real
    decreases path
  {
    hide Draws, Order, NodeCount, NNodes;
    SomeNodes(t);
    if t.Split? {
      DrawCounts(t);
      SomeNodes(t.lo);
      SomeNodes(t.hi);
      if path != [] {
        var child := if path[0] then t.hi else t.lo;
        SamplingIsUniform(child, path[1..]);
        ShareTimesChance(NNodes(child), NNodes(t));
      }
    }
  }

  /** The path that the draws from number `i` on take. */
  ghost function Walk(t: Tree, draws: nat -> real, i: nat): (path: seq<bool>)
    requires Inhabited(t) && forall j: nat :: 0.0 <= draws(j) <= 1.0
    ensures IsPath(t, path)
    decreases t
  {
    SomeNodes(t);
    if t.Leaf? then []
    else
      match Choose(t, RanInt(draws(i), NNodes(t)))
      case Here => []
      case Low => var rest := Walk(t.lo, draws, i + 1); assert ([false] + rest)[1..] == rest; [false] + rest
      case High => var rest := Walk(t.hi, draws, i + 1); assert ([true] + rest)[1..] == rest; [true] + rest
  }

  lemma {:induction false} FittingIsInhabited(t: Tree, pts: seq<Point>, dim: nat)
    requires AllDim(pts, dim) && Fits(t, pts, dim) && Order(t) != []
    ensures Inhabited(t)
  {
    if t.Split? {
      FittingIsInhabited(t.lo, pts, dim);
      FittingIsInhabited(t.hi, pts, dim);
    }
  }

  /** Where a walk ends, from its first draw. */
  lemma WalkStep(t: Tree, draws: nat -> real, i: nat)
    requires Inhabited(t) && forall j: nat :: 0.0 <= draws(j) <= 1.0
    ensures NNodes(t) >= 1
    ensures At(t, Walk(t, draws, i)) ==
      if t.Leaf? then t
      else match Choose(t, RanInt(draws(i), NNodes(t)))
        case Here => t
        case Low => At(t.lo, Walk(t.lo, draws, i + 1))
        case High => At(t.hi, Walk(t.hi, draws, i + 1))
  {
    hide NNodes, NodeCount, Order;
    SomeNodes(t);
    if t.Split? {
      var low, high := Walk(t.lo, draws, i + 1), Walk(t.hi, draws, i + 1);
      assert ([false] + low)[1..] == low && ([true] + high)[1..] == high;
    }
  }

  lemma Opened(node: KCnode, pts: seq<Point>, dim: nat)
    requires AllDim(pts, dim) && node.Linked() && Fits(node.shape, pts, dim) && node.Summed(pts, dim)
    ensures node in node.nodes && node.box == node.shape.box && node.nData == |Order(node.shape)|
    ensures node.lo == null <==> node.shape.Leaf?
    ensures node.shape.Split? ==>
      && node.cutDim == node.shape.cutDim && node.cutVal == node.shape.cutVal
      && node.cutDim < |node.box.lo| == |node.box.hi|
      && node.shape.lo.box == LowBox(node.box, node.cutDim, node.cutVal)
      && node.shape.hi.box == HighBox(node.box, node.cutDim, node.cutVal)
      && node.lo.box == node.shape.lo.box && node.hi.box == node.shape.hi.box
  {
    assert node in node.nodes && node.Exact(pts, dim);
  }

  /** KCleaf::sampleCtr. */
  method LeafPoint(node: KCnode, draws: nat -> real, i: nat, pts: seq<Point>, ghost dim: nat) returns (c: Point)
    requires AllDim(pts, dim) && node.Linked() && Fits(node.shape, pts, dim) && node.Summed(pts, dim)
    requires node.Bucket(node.bkt[..]) && node.shape.Leaf?
    requires Inhabited(node.shape) && 0.0 <= draws(i) <= 1.0
    ensures |node.shape.idx| == 1 && 0 <= node.shape.idx[0] < |pts| && c == pts[node.shape.idx[0]]
  {
    Opened(node, pts, dim);
    var ri := RanInt(draws(i), node.nData);
    assert node.bkt[..][node.off..node.off + 1][0] == node.bkt[node.off] == node.shape.idx[0];
    assert node.shape.idx[0] in Points(node.shape);
    c := pts[node.bkt[node.off + ri]];
  }

  /** sampleCtr: the sampled point is that of the leaf at which the walk ends, or comes from the box of the
      splitting node (`fromBox` stands for expanding the box and sampling from it).  At every node the walk
      visits, the caller's box has been narrowed to exactly the box stored in the node, and on return it is
      what it was. */
  method SampleCtr(node: KCnode, bnd: OrthRect, draws: nat -> real, i: nat, fromBox: Box -> Point,
                   pts: seq<Point>, ghost dim: nat)
    returns (c: Point, ghost chosen: KCnode)
    requires AllDim(pts, dim) && node.Linked() && Fits(node.shape, pts, dim) && node.Summed(pts, dim)
    requires node.Bucket(node.bkt[..])
    requires Inhabited(node.shape) && forall j: nat :: 0.0 <= draws(j) <= 1.0
    requires bnd.Value() == node.box
    modifies bnd
    ensures bnd.Value() == old(bnd.Value())
    ensures chosen in node.nodes && chosen.shape == At(node.shape, Walk(node.shape, draws, i))
    ensures match chosen.shape
      case Leaf(_, idx) => |idx| == 1 && 0 <= idx[0] < |pts| && c == pts[idx[0]]
      case Split(box, _, _, _, _) => c == fromBox(box)
    decreases node.shape
  {
    hide AggOf, NodeCount, Order, Points, Fits, KCnode.Linked, KCnode.Bucket, Walk, At, IsPath;
    SomeNodes(node.shape);
    Opened(node, pts, dim);
    WalkStep(node.shape, draws, i);
    chosen := node;
    if node.lo == null {
      c := LeafPoint(node, draws, i, pts, dim);
      return;
    }
    node.OpenShape(pts, dim);
    node.BucketSplits(node.bkt[..]);
    var r := RanInt(draws(i), 2 * node.nData - 1);
    Opened(node.lo, pts, dim);
    if r == 0 {
      c := fromBox(bnd.Value());
    } else if r <= 2 * node.lo.nData - 1 {
      var save := bnd.hi[node.cutDim];
      bnd.hi := bnd.hi[node.cutDim := node.cutVal];
      c, chosen := SampleCtr(node.lo, bnd, draws, i + 1, fromBox, pts, dim);
      bnd.hi := bnd.hi[node.cutDim := save];
    } else {
      var save := bnd.lo[node.cutDim];
      bnd.lo := bnd.lo[node.cutDim := node.cutVal];
      c, chosen := SampleCtr(node.hi, bnd, draws, i + 1, fromBox, pts, dim);
      bnd.lo := bnd.lo[node.cutDim := save];
    }
  }
}
