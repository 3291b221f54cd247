/** A set of centres with lazily computed distortion (DisCrawler/KMean/KMfilterCenters.h,
    DisCrawler/KMean/KMfilterCenters.cpp, DisCrawler/KMean/KMcenters.cpp). */
module FilterCenters {
  import opened Vectors
  import opened KcTree
  import opened Filtering
  import opened Neighbors
  import opened Clusters
  import opened Lloyd

  /** The allocations of both constructors: points of the right size, otherwise arbitrary. */
  method AllocAll(k: nat, dim: nat)
    returns (ctrs: array<Point>, sums: array<Point>, sumSqs: array<real>, weights: array<int>, dists: array<real>)
    ensures fresh(ctrs) && fresh(sums) && fresh(sumSqs) && fresh(weights) && fresh(dists)
    ensures ctrs != sums && sumSqs != dists && ctrs.Length == dists.Length == k
    ensures AllDim(ctrs[..], dim) && TallyArrays(weights, sums, sumSqs, dim, k)
  {
    ctrs := new Point[k](_ => Zero(dim));
    sums := new Point[k](_ => Zero(dim));
    sumSqs, weights, dists := new real[k], new int[k], new real[k];
  }

  /** kmCopy and kmCopyPts. */
  method CopyInto<T>(source: array<T>, dest: array<T>)
    requires source.Length == dest.Length
    modifies dest
    ensures dest[..] == old(source[..])
  {
    for i := 0 to source.Length
      invariant forall j | 0 <= j < i :: dest[j] == old(source[j])
      invariant source != dest ==> source[..] == old(source[..])
      invariant source == dest ==> dest[..] == old(source[..])
    {
      dest[i] := source[i];
    }
  }

  /** The loops of computeDistortion over the coordinates of one centre. */
  method CenterDist(c: Point, s: Point, w: int, sumSq: real) returns (dist: real)
    requires |c| == |s|
    ensures dist == Cost(Agg(w, s, sumSq), c)
  {
    var cDotC, cDotS := 0.0, 0.0;
    for d := 0 to |c|
      invariant cDotC == DotTo(c, c, d) && cDotS == DotTo(c, s, d)
    {
      cDotC := cDotC + c[d] * c[d];
      cDotS := cDotS + c[d] * s[d];
    }
    dist := sumSq - 2.0 * cDotS + w as real * cDotC;
  }

  /** The loop of moveToCentroid over the coordinates of one centre. */
  method MovePoint(c: Point, s: Point, w: int, df: real) returns (m: Point)
    requires |c| == |s| && w > 0
    ensures forall sq: real :: m == MoveTo(c, Agg(w, s, sq), df)
  {
    m := c;
    for d := 0 to |c|
      invariant |m| == |c|
      invariant forall e | 0 <= e < d :: m[e] == Step(c[e], s[e], w as real, df)
      invariant forall e | d <= e < |c| :: m[e] == c[e]
    {
      m := m[d := (1.0 - df) * m[d] + df * s[d] / w as real];
    }
  }

  /** Tallies that belong to the centres `c`: the clusters of the assignment that the search makes. */
  ghost predicate TalliesOf(t: Tree, pts: seq<Point>, dim: nat, c: seq<Point>, tallies: seq<Agg>)
    requires Whole(t, pts, dim) && Sized(pts, c, dim)
  {
    tallies == ClusterAggs(pts, dim, Assignment(t, pts, c, dim), |c|)
  }

  /** Distortions that belong to them: each cluster's, and the brute-force distortion in total. */
  ghost predicate DistsOf(t: Tree, pts: seq<Point>, dim: nat, c: seq<Point>, dists: seq<real>, total: real)
    requires Whole(t, pts, dim) && Sized(pts, c, dim)
  {
    var a := Assignment(t, pts, c, dim);
    && |dists| == |c| && (forall j | 0 <= j < |c| :: dists[j] == Cost(ClusterAgg(pts, dim, a, j), c[j]))
    && total == Distortion(pts, c, dim)
  }

  /** Together the clusters of an assignment have all points. */
  lemma SomeoneIsPosted(t: Tree, pts: seq<Point>, dim: nat, a: seq<int>, k: nat)
    requires Whole(t, pts, dim) && |pts| >= 1 && IsAssignment(a, |pts|, k)
    ensures TotalTo(pts, dim, a, |pts|, k).n > 0
  {
    hide AggTo, TotalTo, Points;
    ClustersConserve(pts, dim, Points(t), a, |pts|, k);
    AllCounted(pts, dim, Points(t), |pts|);
  }

  lemma {:induction false} EmptyTotal(pts: seq<Point>, dim: nat, a: seq<int>, k: nat)
    requires AllDim(pts, dim) && forall j | 0 <= j < k :: ClusterAgg(pts, dim, a, j).n == 0
    ensures TotalTo(pts, dim, a, |pts|, k).n == 0
  {
    if k > 0 {
      EmptyTotal(pts, dim, a, k - 1);
      assert ClusterAgg(pts, dim, a, k - 1).n == 0;
    }
  }

  /** What initDistGlobals leaves is never the tallies of any centres, because there is a point. */
  lemma ZerosAreNotTallies(t: Tree, pts: seq<Point>, dim: nat, c: seq<Point>)
    requires Whole(t, pts, dim) && Sized(pts, c, dim) && |pts| >= 1
    ensures !TalliesOf(t, pts, dim, c, Zeros(dim, |c|))
  {
    hide ClusterAgg, TotalTo, Assignment;
    var a := Assignment(t, pts, c, dim);
    SomeoneIsPosted(t, pts, dim, a, |c|);
    if forall j | 0 <= j < |c| :: ClusterAgg(pts, dim, a, j).n == 0 {
      EmptyTotal(pts, dim, a, |c|);
    } else {
      var j :| 0 <= j < |c| && ClusterAgg(pts, dim, a, j).n != 0;
      assert ClusterAggs(pts, dim, a, |c|)[j] != Zeros(dim, |c|)[j];
    }
  }

  /** Over cleared tallies moveToCentroid moves nothing, where a Lloyd stage may move far: one point at 1
      and its centre at 0. */
  lemma ClearedMoveIsNoStage(t: Tree)
    requires Whole(t, [[1.0]], 1)
    ensures MoveTo([0.0], Zeros(1, 1)[0], 1.0) == [0.0]
    ensures Stage(t, [[1.0]], 1, [[0.0]], 1.0) == [[1.0]]
  {
    var pts: seq<Point>, c: seq<Point> := [[1.0]], [[0.0]];
    var a := Assignment(t, pts, c, 1);
    assert Cluster(a, 0) == {0};
    AggSingleton(pts, 1, 0);
    assert ClusterAgg(pts, 1, a, 0) == Single([1.0]);
    assert MoveTo([0.0], Single([1.0]), 1.0) == [1.0];
    assert Stage(t, pts, 1, c, 1.0) == [[1.0]];
  }

  /** What a `valid` flag vouches for: the distortions always; the tallies until they are cleared. */
  ghost predicate Vouched(valid: bool, t: Tree, pts: seq<Point>, dim: nat, c: seq<Point>,
                          tallies: seq<Agg>, dists: seq<real>, total: real)
    requires Whole(t, pts, dim) && Sized(pts, c, dim)
  {
    valid ==>
      && DistsOf(t, pts, dim, c, dists, total)
      && (TalliesOf(t, pts, dim, c, tallies) || tallies == Zeros(dim, |c|))
  }

  class KMfilterCenters {
    var kCtrs: nat
    var data: KCtree
    var ctrs: array<Point>
    var sums: array<Point>
    var sumSqs: array<real>
    var weights: array<int>
    var dists: array<real>
    var currDist: real
    var valid: bool
    var dampFactor: real

    ghost function Repr(): set<object>
      reads this
    {
      {this, ctrs, sums, sumSqs, weights, dists}
    }

    /** The storage is in order: sizes match and nothing is shared. */
    ghost predicate Storage()
      reads this, Repr(), data.repr
    {
      && data.Valid() && data.repr !! Repr()
      && kCtrs >= 1 && ctrs.Length == dists.Length == kCtrs
      && ctrs != sums && sumSqs != dists
      && AllDim(ctrs[..], data.dim)
      && TallyArrays(weights, sums, sumSqs, data.dim, kCtrs)
    }

    /** The centres as a value. */
    ghost function C(): seq<Point>
      reads this, ctrs
    {
      ctrs[..]
    }

    /** The assignment of points to the current centres. */
    ghost function A(): seq<int>
      requires Storage()
      reads this, Repr(), data.repr
    {
      Assignment(data.root.shape, data.pts, C(), data.dim)
    }

    /** The cached sums and weights are those of the current centres. */
    ghost predicate Tallied()
      requires Storage()
      reads this, Repr(), data.repr
    {
      TalliesOf(data.root.shape, data.pts, data.dim, C(), Tallies(weights, sums, sumSqs))
    }

    /** They are as initDistGlobals leaves them. */
    ghost predicate Cleared()
      requires Storage()
      reads this, Repr(), data.repr
    {
      Tallies(weights, sums, sumSqs) == Zeros(data.dim, kCtrs)
    }

    /** Every reachable state: a set `valid` flag vouches for the distortions, but for the sums and weights
        only until getAssignments clears them. */
    ghost predicate Valid()
      reads this, Repr(), data.repr
    {
      && Storage()
      && Vouched(valid, data.root.shape, data.pts, data.dim, C(), Tallies(weights, sums, sumSqs), dists[..], currDist)
    }

    /** The flag vouches for everything. */
    ghost predicate Settled()
      requires Storage()
      reads this, Repr(), data.repr
    {
      valid ==> Tallied()
    }

    /** What getDist() promises: the brute-force distortion of the current centres. */
    ghost function Dist(): real
      requires Storage()
      reads this, Repr(), data.repr
    {
      Distortion(data.pts, C(), data.dim)
    }

    /** The standard constructor: nothing is computed yet. */
    constructor (k: nat, p: KCtree, df: real)
      requires k >= 1 && p.Valid()
      ensures Valid() && !valid && kCtrs == k && data == p && dampFactor == df
      ensures fresh(Repr())
    {
      var c, s, q, w, d := AllocAll(k, p.dim);
      kCtrs, data, dampFactor, valid := k, p, df, false;
      ctrs, sums, sumSqs, weights, dists := c, s, q, w, d;
    }

    /** The copy constructor: new storage, same contents, same flag. */
    constructor Copy(s: KMfilterCenters)
      requires s.Valid()
      ensures Valid() && fresh(Repr())
      ensures kCtrs == s.kCtrs && data == s.data && C() == s.C()
      ensures valid == s.valid && currDist == s.currDist && dampFactor == s.dampFactor
      ensures Settled() == s.Settled()
    {
      hide KCtree.Valid, TalliesOf, Vouched, Tallies, AllDim;
      var c, m, q, w, d := AllocAll(s.kCtrs, s.data.dim);
      CopyAll(s, c, m, q, w, d);
      kCtrs, data, valid, currDist, dampFactor := s.kCtrs, s.data, s.valid, s.currDist, s.dampFactor;
      ctrs, sums, sumSqs, weights, dists := c, m, q, w, d;
    }

    /** The part of operator= that makes room for `s`. */
    method MakeRoom(s: KMfilterCenters)
      requires Storage() && s.Valid() && Repr() !! s.Repr() + s.data.repr
      modifies this`ctrs, this`sums, this`sumSqs, this`weights, this`dists
      ensures s.Valid() && fresh(Repr() - old(Repr())) && Repr() !! s.Repr() + s.data.repr
      ensures kCtrs == s.kCtrs && data.dim == s.data.dim ==> Repr() == old(Repr())
      ensures ctrs != sums && sumSqs != dists
      ensures ctrs.Length == sums.Length == sumSqs.Length == weights.Length == dists.Length == s.kCtrs
    {
      hide KCtree.Valid, AllDim, Vouched;
      if kCtrs != s.kCtrs || data.dim != s.data.dim {
        ctrs, sums, sumSqs, weights, dists := AllocAll(s.kCtrs, s.data.dim);
      }
    }

    /** The part of operator= that copies into storage of the right size. */
    method CopyFrom(s: KMfilterCenters)
      requires s.Valid() && Repr() !! s.Repr() + s.data.repr
      requires ctrs != sums && sumSqs != dists
      requires ctrs.Length == sums.Length == sumSqs.Length == weights.Length == dists.Length == s.kCtrs
      modifies this`kCtrs, this`data, this`valid, this`currDist, this`dampFactor, ctrs, sums, sumSqs, weights, dists
      ensures s.Valid() && Valid() && Repr() == old(Repr())
      ensures kCtrs == s.kCtrs && data == s.data && C() == s.C()
      ensures valid == s.valid && currDist == s.currDist && dampFactor == s.dampFactor
      ensures Settled() == s.Settled()
    {
      hide KCtree.Valid, TalliesOf, Vouched, Tallies, TallyArrays, AllDim;
      ghost var mine, theirs := Repr(), s.Repr() + s.data.repr;
      assert mine !! theirs;
      kCtrs, data, valid, currDist, dampFactor := s.kCtrs, s.data, s.valid, s.currDist, s.dampFactor;
      assert s.Valid();
      assert ctrs !in theirs && sums !in theirs && sumSqs !in theirs && weights !in theirs && dists !in theirs;
      CopyAll(s, ctrs, sums, sumSqs, weights, dists);
    }

    /** operator=: everything is copied into this object's own storage, the flag included, so the
        caches of the copy are as good as those of the original. */
    method Assign(s: KMfilterCenters)
      requires Valid() && s.Valid()
      requires s == this || (Repr() !! s.Repr() + s.data.repr)
      modifies this, Repr()
      ensures Valid() && fresh(Repr() - old(Repr()))
      ensures old(kCtrs == s.kCtrs && data.dim == s.data.dim) ==> Repr() == old(Repr())
      ensures kCtrs == s.kCtrs && data == s.data && C() == s.C()
      ensures valid == s.valid && currDist == s.currDist && dampFactor == s.dampFactor
      ensures Settled() == s.Settled()
    {
      hide KCtree.Valid, TallyArrays, AllDim, KMfilterCenters.Storage,
        Vouched;
      if this != s {
        ghost var fits := kCtrs == s.kCtrs && data.dim == s.data.dim;
        MakeRoom(s);
        ghost var room := Repr();
        assert fits ==> room == old(Repr());
        CopyFrom(s);
        assert Repr() == room;
      }
    }

    /** computeDistortion: search the tree, then read all distortions off the tallies. */
    method ComputeDistortion()
      requires Storage()
      modifies sums, sumSqs, weights, dists, this`currDist, this`valid
      ensures Valid() && valid && Tallied()
    {
      hide Fits, KCnode.Linked, KCnode.Bucket, KCnode.Summed, TalliesOf, DistsOf, Tallies;
      var totDist := Recompute(data, ctrs, weights, sums, sumSqs, dists);
      assert this !in data.repr;
      currDist, valid := totDist, true;
    }

    /** getDist: computes the distortion if the caches are not valid, unless told not to. */
    method GetDist(autoUpdate: bool) returns (d: real)
      requires Valid()
      modifies sums, sumSqs, weights, dists, this`currDist, this`valid
      ensures Valid() && C() == old(C())
      ensures Settled() == old(Settled()) && (autoUpdate ==> valid && d == Dist())
      ensures !autoUpdate || old(valid) ==> d == currDist == old(currDist) && valid == old(valid)
    {
      if autoUpdate {
        Refresh();
      }
      d := currDist;
    }

    /** getAssignments: asks the tree, which clears the sums and weights on the way.  The distortions stay;
        the flag stays too, and from then on it vouches for the sums and weights only if it is clear. */
    method GetAssignments(closeCtr: array?<int>, sqDist: array?<real>)
      requires Valid() && Roomy(data.pts, closeCtr, sqDist)
      requires closeCtr != null ==> closeCtr !in data.repr + Repr()
      requires sqDist != null ==> sqDist !in data.repr + Repr()
      modifies weights, sums, sumSqs, closeCtr, sqDist
      ensures Valid() && C() == old(C()) && Cleared() && !Tallied()
      ensures Settled() <==> !valid
      ensures closeCtr != null ==> closeCtr[..|data.pts|] == A()
      ensures sqDist != null ==> forall i | 0 <= i < |data.pts| :: sqDist[i] == MinDist(C(), data.pts[i])
    {
      hide Fits, KCnode.Linked, KCnode.Bucket, KCnode.Summed, TalliesOf, DistsOf, Tallies, TallyArrays;
      ghost var d := dists[..];
      TreeAssignments(data, ctrs[..], weights, sums, sumSqs, closeCtr, sqDist);
      assert dists[..] == d;
      ZerosAreNotTallies(data.root.shape, data.pts, data.dim, C());
    }

    /** `if (!valid) computeDistortion()`, with which every use of the caches begins. */
    method Refresh()
      requires Valid()
      modifies sums, sumSqs, weights, dists, this`currDist, this`valid
      ensures Valid() && valid && C() == old(C()) && Settled() == old(Settled())
    {
      if !valid {
        ComputeDistortion();
      }
    }

    /** The moves of moveToCentroid: a Lloyd stage over the tallies of the current centres, nothing over
        cleared ones. */
    method MoveCenters()
      requires Valid() && valid
      modifies ctrs, this`valid
      ensures Valid() && !valid
      ensures C() == if old(Tallied()) then Stage(data.root.shape, data.pts, data.dim, old(C()), dampFactor) else old(C())
    {
      hide KCnode.Linked, KCnode.Bucket, KCnode.Summed, Fits, TalliesOf, DistsOf, Tallies, Stage;
      assert ctrs !in data.repr && this !in data.repr;
      MoveStage(ctrs, weights, sums, sumSqs, dampFactor, data.dim, data.root.shape, data.pts);
      valid := false;
    }

    /** moveToCentroid, which is also lloyd1Stage: exactly a Lloyd stage if the flag is clear or the tallies
        are current, and otherwise, after getAssignments, no move at all. */
    method MoveToCentroid()
      requires Valid()
      modifies ctrs, sums, sumSqs, weights, dists, this`currDist, this`valid
      ensures Valid() && !valid
      ensures C() == if old(Settled()) then Stage(data.root.shape, data.pts, data.dim, old(C()), dampFactor) else old(C())
    {
      Refresh();
      MoveCenters();
    }

    /** swapOneCenter, with the drawn centre `rj` and the drawn data points as parameters.  If duplicates
        are not allowed it draws until the point is no centre: the first such draw is taken.  `bound` is the
        number of some draw at which it must end; swap1Stage allows duplicates. */
    method SwapOneCenter(allowDuplicate: bool, rj: nat, draws: nat -> nat, ghost bound: nat) returns (used: nat)
      requires Valid() && rj < kCtrs && forall i: nat :: draws(i) < |data.pts|
      requires !allowDuplicate ==> data.pts[draws(bound)] !in C()
      modifies ctrs, this`valid
      ensures Valid() && !valid
      ensures C() == old(C())[rj := data.pts[draws(used)]]
      ensures allowDuplicate ==> used == 0
      ensures !allowDuplicate ==> data.pts[draws(used)] !in old(C())
      ensures forall i | 0 <= i < used :: data.pts[draws(i)] in old(C())
    {
      hide Fits, KCnode.Linked, KCnode.Bucket, KCnode.Summed, TalliesOf, DistsOf, Tallies;
      assert ctrs !in data.repr && this !in data.repr;
      used := 0;
      if !allowDuplicate {
        used := FirstNew(ctrs, data.pts, draws, bound);
      }
      ctrs[rj] := data.pts[draws(used)];
      valid := false;
    }

    /** genRandom and setCenters, with the chosen data points as a parameter. */
    method TakeCenters(choice: seq<nat>)
      requires Valid() && |choice| == kCtrs && forall j | 0 <= j < kCtrs :: choice[j] < |data.pts|
      modifies ctrs, this`valid
      ensures Valid() && !valid
      ensures forall j | 0 <= j < kCtrs :: C()[j] == data.pts[choice[j]]
    {
      hide Fits, KCnode.Linked, KCnode.Bucket, KCnode.Summed, TalliesOf, DistsOf, Tallies;
      assert ctrs !in data.repr && this !in data.repr;
      for j := 0 to kCtrs
        invariant Storage() && valid == old(valid)
        invariant forall i | 0 <= i < j :: ctrs[i] == data.pts[choice[i]]
      {
        ctrs[j] := data.pts[choice[j]];
      }
      valid := false;
    }
  }

  /** The calls that show it: getDist(), getAssignments() and lloyd1Stage() leave the centre at 0, where a Lloyd
      stage takes it to the point at 1. */
  method StaleMove(f: KMfilterCenters, closeCtr: array<int>)
    requires f.Valid() && f.data.pts == [[1.0]] && f.data.dim == 1 && f.C() == [[0.0]] && f.dampFactor == 1.0
    requires closeCtr.Length == 1 && closeCtr !in f.data.repr + f.Repr()
    modifies f, f.Repr(), closeCtr
    ensures f.Valid() && f.C() == [[0.0]]
    ensures var t := old(f.data).root.shape; Whole(t, [[1.0]], 1) && Stage(t, [[1.0]], 1, [[0.0]], 1.0) == [[1.0]]
  {
    hide Fits, KCnode.Linked, KCnode.Bucket, KCnode.Summed, TalliesOf, DistsOf, Tallies, TallyArrays, Stage;
    ClearedMoveIsNoStage(f.data.root.shape);
    var d := f.GetDist(true);
    f.GetAssignments(closeCtr, null);
    f.MoveToCentroid();
  }

  /** All copying of the copy constructor and of operator=. */
  method CopyAll(s: KMfilterCenters, ctrs: array<Point>, sums: array<Point>, sumSqs: array<real>,
                 weights: array<int>, dists: array<real>)
    requires s.Valid() && {ctrs as object, sums, sumSqs, weights, dists} !! s.Repr() + s.data.repr
    requires ctrs != sums && sumSqs != dists
    requires ctrs.Length == sums.Length == sumSqs.Length == weights.Length == dists.Length == s.kCtrs
    modifies ctrs, sums, sumSqs, weights, dists
    ensures s.Valid() && ctrs[..] == s.C() && dists[..] == s.dists[..]
    ensures TallyArrays(weights, sums, sumSqs, s.data.dim, s.kCtrs)
    ensures Tallies(weights, sums, sumSqs) == Tallies(s.weights, s.sums, s.sumSqs)
  {
    CopyArrays(s.ctrs, ctrs, s.sums, sums, s.sumSqs, sumSqs, s.weights, weights, s.dists, dists);
    SameTallies(s.weights, s.sums, s.sumSqs, weights, sums, sumSqs, s.data.dim);
  }

  method CopyArrays(c0: array<Point>, c: array<Point>, s0: array<Point>, s: array<Point>,
                    q0: array<real>, q: array<real>, w0: array<int>, w: array<int>, d0: array<real>, d: array<real>)
    requires c0.Length == c.Length && s0.Length == s.Length && q0.Length == q.Length
    requires w0.Length == w.Length && d0.Length == d.Length
    requires c != s && q != d
    requires c != c0 && c != s0 && s != c0 && s != s0 && q != q0 && q != d0 && d != q0 && d != d0 && w != w0
    modifies c, s, q, w, d
    ensures c[..] == c0[..] && s[..] == s0[..] && q[..] == q0[..] && w[..] == w0[..] && d[..] == d0[..]
  {
    CopyInto(c0, c);
    CopyInto(s0, s);
    CopyInto(q0, q);
    CopyInto(w0, w);
    CopyInto(d0, d);
  }

  lemma SameTallies(w0: array<int>, s0: array<Point>, q0: array<real>,
                    w: array<int>, s: array<Point>, q: array<real>, dim: nat)
    requires TallyArrays(w0, s0, q0, dim, w0.Length)
    requires w[..] == w0[..] && s[..] == s0[..] && q[..] == q0[..]
    ensures TallyArrays(w, s, q, dim, w0.Length) && Tallies(w, s, q) == Tallies(w0, s0, q0)
  {
    assert w.Length == |w[..]| && s.Length == |s[..]| && q.Length == |q[..]|;
    forall j | 0 <= j < w0.Length ensures |s[j]| == dim && Tallies(w, s, q)[j] == Tallies(w0, s0, q0)[j] {
      assert w[..][j] == w0[..][j] && s[..][j] == s0[..][j] && q[..][j] == q0[..][j];
    }
  }

  /** The loop of moveToCentroid over the centres. */
  method MoveAll(ctrs: array<Point>, weights: array<int>, sums: array<Point>, sumSqs: array<real>, df: real, dim: nat)
    requires TallyArrays(weights, sums, sumSqs, dim, ctrs.Length) && AllDim(ctrs[..], dim) && ctrs != sums
    modifies ctrs
    ensures AllDim(ctrs[..], dim)
    ensures forall j | 0 <= j < ctrs.Length ::
      ctrs[j] == MoveTo(old(ctrs[j]), Tallies(weights, sums, sumSqs)[j], df)
  {
    for j := 0 to ctrs.Length
      invariant forall i | 0 <= i < j :: ctrs[i] == MoveTo(old(ctrs[i]), Agg(weights[i], sums[i], sumSqs[i]), df)
      invariant forall i | j <= i < ctrs.Length :: ctrs[i] == old(ctrs[i])
    {
      var wgt := weights[j];
      if wgt > 0 {
        ctrs[j] := MovePoint(ctrs[j], sums[j], wgt, df);
      }
    }
  }

  /** The do-loop of swapOneCenter: the number of the first draw that is no centre. */
  method FirstNew(ctrs: array<Point>, pts: seq<Point>, draws: nat -> nat, ghost bound: nat) returns (used: nat)
    requires forall i: nat :: draws(i) < |pts|
    requires forall i, j | 0 <= i < |pts| && 0 <= j < ctrs.Length :: |pts[i]| == |ctrs[j]|
    requires pts[draws(bound)] !in ctrs[..]
    ensures pts[draws(used)] !in ctrs[..]
    ensures forall i | 0 <= i < used :: pts[draws(i)] in ctrs[..]
  {
    used := 0;
    var dupFound := true;
    while dupFound
      invariant used <= bound && (!dupFound ==> pts[draws(used)] !in ctrs[..])
      invariant forall i | 0 <= i < used :: pts[draws(i)] in ctrs[..]
      decreases bound - used, dupFound
    {
      dupFound := false;
      var p := pts[draws(used)];
      for j := 0 to ctrs.Length
        invariant p !in ctrs[..j]
      {
        dupFound := KmEqualPts(p, ctrs[j]);
        if dupFound {
          assert p in ctrs[..];
          used := used + 1;
          break;
        }
      }
    }
  }

  /** The same loop, when the tallies are those of the current assignment, or cleared. */
  method MoveStage(ctrs: array<Point>, weights: array<int>, sums: array<Point>, sumSqs: array<real>, df: real, dim: nat,
                   ghost t: Tree, ghost pts: seq<Point>)
    requires TallyArrays(weights, sums, sumSqs, dim, ctrs.Length) && ctrs != sums
    requires Whole(t, pts, dim) && Sized(pts, ctrs[..], dim)
    requires TalliesOf(t, pts, dim, ctrs[..], Tallies(weights, sums, sumSqs))
      || Tallies(weights, sums, sumSqs) == Zeros(dim, ctrs.Length)
    modifies ctrs
    ensures AllDim(ctrs[..], dim)
    ensures ctrs[..] == if old(TalliesOf(t, pts, dim, ctrs[..], Tallies(weights, sums, sumSqs)))
                        then Stage(t, pts, dim, old(ctrs[..]), df) else old(ctrs[..])
  {
    hide Fits, Stage, TalliesOf;
    ghost var c, tallies := ctrs[..], Tallies(weights, sums, sumSqs);
    MoveAll(ctrs, weights, sums, sumSqs, df, dim);
    if TalliesOf(t, pts, dim, c, tallies) {
      MoveIsStage(t, pts, dim, c, tallies, ctrs[..], df);
    }
  }

  /** Moving towards the centroids that the valid caches describe is Lloyd's stage. */
  lemma MoveIsStage(t: Tree, pts: seq<Point>, dim: nat, c: seq<Point>, tallies: seq<Agg>, m: seq<Point>, df: real)
    requires Whole(t, pts, dim) && Sized(pts, c, dim)
    requires TalliesOf(t, pts, dim, c, tallies)
    requires |m| == |c| && forall j | 0 <= j < |c| :: m[j] == MoveTo(c[j], tallies[j], df)
    ensures m == Stage(t, pts, dim, c, df)
  {
  }

  /** KCtree::getAssignments, which begins with initDistGlobals: the tallies end up cleared. */
  method TreeAssignments(data: KCtree, ctrs: seq<Point>, weights: array<int>, sums: array<Point>, sumSqs: array<real>,
                         closeCtr: array?<int>, sqDist: array?<real>)
    requires data.Valid() && Sized(data.pts, ctrs, data.dim) && Roomy(data.pts, closeCtr, sqDist)
    requires weights !in data.repr && sums !in data.repr && sumSqs !in data.repr
    requires TallyArrays(weights, sums, sumSqs, data.dim, |ctrs|)
    requires closeCtr != null ==> closeCtr !in data.repr && closeCtr != weights
    requires sqDist != null ==> sqDist !in data.repr && sqDist != sumSqs
    modifies weights, sums, sumSqs, closeCtr, sqDist
    ensures data.Valid() && TallyArrays(weights, sums, sumSqs, data.dim, |ctrs|)
    ensures Tallies(weights, sums, sumSqs) == Zeros(data.dim, |ctrs|)
    ensures var a := Assignment(data.root.shape, data.pts, ctrs, data.dim);
      closeCtr != null ==> closeCtr[..|data.pts|] == a
    ensures sqDist != null ==> forall i | 0 <= i < |data.pts| :: sqDist[i] == MinDist(ctrs, data.pts[i])
  {
    hide Fits, KCnode.Linked, KCnode.Bucket, KCnode.Summed, Assigned, Zeros;
    ZeroTallies(weights, sums, sumSqs, data.dim, |ctrs|);
    var cands := CandidateIndices(|ctrs|);
    GetAssignments(data.root, cands, ctrs, data.pts, data.dim, closeCtr, sqDist);
    AssignedToNearest(data.root.shape, data.pts, ctrs, data.dim, closeCtr, sqDist);
  }

  /** What getAssignments leaves in its arrays, for the whole data set. */
  lemma AssignedToNearest(t: Tree, pts: seq<Point>, ctrs: seq<Point>, dim: nat,
                          closeCtr: array?<int>, sqDist: array?<real>)
    requires Whole(t, pts, dim) && Sized(pts, ctrs, dim) && Roomy(pts, closeCtr, sqDist)
    requires Assigned(t, Everyone(|ctrs|), ctrs, pts, dim, closeCtr, sqDist)
    ensures closeCtr != null ==> closeCtr[..|pts|] == Assignment(t, pts, ctrs, dim)
    ensures sqDist != null ==> forall i | 0 <= i < |pts| :: sqDist[i] == MinDist(ctrs, pts[i])
  {
    SearchIsExact(t, pts, ctrs, dim);
    assert forall i | 0 <= i < |pts| :: i in Points(t);
  }

  /** The body of computeDistortion on the arrays themselves. */
  method Recompute(data: KCtree, ctrs: array<Point>, weights: array<int>, sums: array<Point>, sumSqs: array<real>,
                   dists: array<real>) returns (totDist: real)
    requires data.Valid() && Sized(data.pts, ctrs[..], data.dim)
    requires weights !in data.repr && sums !in data.repr
    requires sumSqs !in data.repr && dists !in data.repr
    requires ctrs != sums && sumSqs != dists && dists.Length == ctrs.Length
    requires TallyArrays(weights, sums, sumSqs, data.dim, ctrs.Length)
    modifies weights, sums, sumSqs, dists
    ensures data.Valid() && TallyArrays(weights, sums, sumSqs, data.dim, ctrs.Length)
    ensures TalliesOf(data.root.shape, data.pts, data.dim, ctrs[..], Tallies(weights, sums, sumSqs))
    ensures DistsOf(data.root.shape, data.pts, data.dim, ctrs[..], dists[..], totDist)
  {
    hide Fits, KCnode.Linked, KCnode.Bucket, KCnode.Summed, DistsOf, ClusterAggs;
    TreeNeighbors(data, ctrs[..], weights, sums, sumSqs);
    ghost var c, tallies := ctrs[..], Tallies(weights, sums, sumSqs);
    totDist := DistsFromTallies(ctrs, weights, sums, sumSqs, dists, data.dim);
    assert dists !in data.repr && data.Valid();
    assert ctrs[..] == c && Tallies(weights, sums, sumSqs) == tallies;
    CachesAgree(data.root.shape, data.pts, data.dim, c, tallies, dists[..], totDist);
  }

  /** Distortions computed from the tallies of the search are those that the caches should hold. */
  lemma CachesAgree(t: Tree, pts: seq<Point>, dim: nat, c: seq<Point>, tallies: seq<Agg>, dists: seq<real>, total: real)
    requires Whole(t, pts, dim) && Sized(pts, c, dim)
    requires TalliesOf(t, pts, dim, c, tallies)
    requires |dists| == |c| && forall j | 0 <= j < |c| :: dists[j] == Cost(tallies[j], c[j])
    requires total == CostsTo(tallies, c, dim, |c|)
    ensures DistsOf(t, pts, dim, c, dists, total)
  {
    CostsAreExact(t, pts, c, dim);
  }

  /** KCtree::getNeighbors: after the search the arrays hold exactly the clusters of the assignment
      that KCtree::getAssignments makes for the same centres. */
  method TreeNeighbors(data: KCtree, ctrs: seq<Point>, weights: array<int>, sums: array<Point>, sumSqs: array<real>)
    requires data.Valid() && Sized(data.pts, ctrs, data.dim)
    requires weights !in data.repr && sums !in data.repr && sumSqs !in data.repr
    requires TallyArrays(weights, sums, sumSqs, data.dim, |ctrs|)
    modifies weights, sums, sumSqs
    ensures data.Valid() && TallyArrays(weights, sums, sumSqs, data.dim, |ctrs|)
    ensures Tallies(weights, sums, sumSqs)
      == ClusterAggs(data.pts, data.dim, Assignment(data.root.shape, data.pts, ctrs, data.dim), |ctrs|)
  {
    hide Fits, KCnode.Linked, KCnode.Bucket, KCnode.Summed, Posted;
    ZeroTallies(weights, sums, sumSqs, data.dim, |ctrs|);
    var cands := CandidateIndices(|ctrs|);
    GetNeighbors(data.root, cands, ctrs, data.pts, data.dim, weights, sums, sumSqs);
    PostedClusters(data.root.shape, data.pts, ctrs, data.dim);
  }

  /** initDistGlobals: the tallies start from zero. */
  method ZeroTallies(weights: array<int>, sums: array<Point>, sumSqs: array<real>, dim: nat, k: nat)
    requires TallyArrays(weights, sums, sumSqs, dim, k)
    modifies sums, sumSqs, weights
    ensures TallyArrays(weights, sums, sumSqs, dim, k)
    ensures Tallies(weights, sums, sumSqs) == Zeros(dim, k)
  {
    for j := 0 to k
      invariant TallyArrays(weights, sums, sumSqs, dim, k)
      invariant forall i | 0 <= i < j :: weights[i] == 0 && sumSqs[i] == 0.0 && sums[i] == Zero(dim)
    {
      weights[j], sumSqs[j], sums[j] := 0, 0.0, Zero(dim);
    }
  }

  /** The loop that fills candIdx. */
  method CandidateIndices(k: nat) returns (cands: seq<int>)
    ensures cands == Everyone(k)
  {
    cands := [];
    for j := 0 to k
      invariant cands == Everyone(j)
    {
      cands := cands + [j];
    }
  }

  ghost function CostsTo(tallies: seq<Agg>, ctrs: seq<Point>, dim: nat, k: nat): real
    requires TallyDims(tallies, dim, |ctrs|) && AllDim(ctrs, dim) && k <= |ctrs|
  {
    if k == 0 then 0.0 else CostsTo(tallies, ctrs, dim, k - 1) + Cost(tallies[k - 1], ctrs[k - 1])
  }

  /** The second half of computeDistortion. */
  method DistsFromTallies(ctrs: array<Point>, weights: array<int>, sums: array<Point>, sumSqs: array<real>,
                          dists: array<real>, dim: nat) returns (totDist: real)
    requires TallyArrays(weights, sums, sumSqs, dim, ctrs.Length) && AllDim(ctrs[..], dim)
    requires dists.Length == ctrs.Length && dists != sumSqs
    modifies dists
    ensures forall j | 0 <= j < dists.Length :: dists[j] == Cost(Tallies(weights, sums, sumSqs)[j], ctrs[j])
    ensures totDist == CostsTo(Tallies(weights, sums, sumSqs), ctrs[..], dim, ctrs.Length)
  {
    totDist := 0.0;
    for j := 0 to ctrs.Length
      invariant Tallies(weights, sums, sumSqs) == old(Tallies(weights, sums, sumSqs))
      invariant forall i | 0 <= i < j :: dists[i] == Cost(Tallies(weights, sums, sumSqs)[i], ctrs[i])
      invariant totDist == CostsTo(Tallies(weights, sums, sumSqs), ctrs[..], dim, j)
    {
      dists[j] := CenterDist(ctrs[j], sums[j], weights[j], sumSqs[j]);
      totDist := totDist + dists[j];
    }
  }

  lemma {:induction false} CostsAreClusterCosts(pts: seq<Point>, dim: nat, a: seq<int>, ctrs: seq<Point>, k: nat)
    requires Sized(pts, ctrs, dim) && k <= |ctrs|
    ensures CostsTo(ClusterAggs(pts, dim, a, |ctrs|), ctrs, dim, k) == ClusterCostsTo(pts, dim, a, ctrs, |pts|, k)
  {
    if k > 0 { CostsAreClusterCosts(pts, dim, a, ctrs, k - 1); }
  }

  /** The costs of the clusters total the distortion. */
  lemma CostsAreExact(t: Tree, pts: seq<Point>, ctrs: seq<Point>, dim: nat)
    requires Whole(t, pts, dim) && Sized(pts, ctrs, dim)
    ensures CostsTo(ClusterAggs(pts, dim, Assignment(t, pts, ctrs, dim), |ctrs|), ctrs, dim, |ctrs|)
      == Distortion(pts, ctrs, dim)
  {
    var a := Assignment(t, pts, ctrs, dim);
    CostsAreClusterCosts(pts, dim, a, ctrs, |ctrs|);
    ClusterCostsTotal(pts, dim, a, ctrs, |pts|);
    SearchIsExact(t, pts, ctrs, dim);
  }
}
