/** When the Lloyd phase of the EZ-hybrid search ends (DisCrawler/KMean/KMlocal.h). */
module Convergence {
  import opened Vectors
  import opened KcTree
  import opened Clusters
  import opened Lloyd

  // ------------------------------------------------ counting partitions

  function Pow(k: nat, n: nat): nat { if n == 0 then 1 else Pow(k, n - 1) * k }

  ghost function Extend(s: set<seq<int>>, k: nat): set<seq<int>> {
    set a, j | a in s && 0 <= j < k :: a + [j]
  }

  /** All assignments of `k` centres to `n` points. */
  ghost function Assignments(n: nat, k: nat): set<seq<int>> {
    if n == 0 then {[]} else Extend(Assignments(n - 1, k), k)
  }

  lemma {:induction false} EveryAssignment(a: seq<int>, n: nat, k: nat)
    requires IsAssignment(a, n, k)
    ensures a in Assignments(n, k)
  {
    if n > 0 {
      EveryAssignment(a[..n - 1], n - 1, k);
      assert a == a[..n - 1] + [a[n - 1]];
    }
  }

  lemma AppendInjective(a: seq<int>, b: seq<int>, x: int)
    ensures a + [x] == b + [x] ==> a == b
  {
    assert (a + [x])[..|a|] == a && (b + [x])[..|b|] == b;
  }

  ghost function Appended(s: set<seq<int>>, x: int): set<seq<int>> { set a | a in s :: a + [x] }

  lemma {:induction false} AppendedSize(s: set<seq<int>>, x: int)
    ensures |Appended(s, x)| == |s|
  {
    if s == {} {
      assert Appended(s, x) == {};
    } else {
      var b :| b in s;
      AppendedSize(s - {b}, x);
      forall a | a in s - {b} ensures a + [x] != b + [x] {
        AppendInjective(a, b, x);
      }
      assert Appended(s, x) == Appended(s - {b}, x) + {b + [x]};
    }
  }

  lemma ExtendStep(s: set<seq<int>>, k: nat)
    requires k >= 1
    ensures Extend(s, k) == Extend(s, k - 1) + Appended(s, k - 1)
    ensures Extend(s, k - 1) !! Appended(s, k - 1)
  {
    forall x | x in Extend(s, k) ensures x in Extend(s, k - 1) + Appended(s, k - 1) {
      var a, j :| a in s && 0 <= j < k && x == a + [j];
      assert j == k - 1 ==> x in Appended(s, k - 1);
    }
    forall x | x in Appended(s, k - 1) ensures x in Extend(s, k) && x[|x| - 1] == k - 1 {
      var a :| a in s && x == a + [k - 1];
    }
  }

  lemma {:induction false} ExtendSize(s: set<seq<int>>, k: nat)
    ensures |Extend(s, k)| == |s| * k
  {
    if k == 0 {
      assert Extend(s, k) == {};
    } else {
      ExtendSize(s, k - 1);
      ExtendStep(s, k);
      AppendedSize(s, k - 1);
      assert |s| * k == |s| * (k - 1) + |s|;
    }
  }

  lemma {:induction false} AssignmentCount(n: nat, k: nat)
    ensures |Assignments(n, k)| == Pow(k, n)
  {
    if n > 0 {
      AssignmentCount(n - 1, k);
      ExtendSize(Assignments(n - 1, k), k);
    }
  }

  /** How many partitions have their floor below `d`. */
  ghost function FloorsBelow(pts: seq<Point>, dim: nat, k: nat, d: real): set<seq<int>>
    requires AllDim(pts, dim)
  {
    set a | a in Assignments(|pts|, k) && Floor(pts, dim, a, k) < d
  }

  ghost function Rank(pts: seq<Point>, dim: nat, k: nat, d: real): nat
    requires AllDim(pts, dim)
  {
    |FloorsBelow(pts, dim, k, d)|
  }

  lemma SubsetSize<T>(s: set<T>, t: set<T>)
    requires s <= t
    ensures |s| <= |t| && (s != t ==> |s| < |t|)
  {
    assert t == s + (t - s);
  }

  lemma RankBound(pts: seq<Point>, dim: nat, k: nat, d: real)
    requires AllDim(pts, dim)
    ensures Rank(pts, dim, k, d) <= Pow(k, |pts|)
  {
    AssignmentCount(|pts|, k);
    SubsetSize(FloorsBelow(pts, dim, k, d), Assignments(|pts|, k));
  }

  /** No partition recurs: an undampened stage that lowers the distortion uses up a partition, even
      when empty clusters keep their centre. */
  lemma RankDrops(t: Tree, pts: seq<Point>, dim: nat, ctrs: seq<Point>)
    requires Whole(t, pts, dim) && Sized(pts, ctrs, dim)
    requires Distortion(pts, Stage(t, pts, dim, ctrs, 1.0), dim) < Distortion(pts, ctrs, dim)
    ensures Rank(pts, dim, |ctrs|, Distortion(pts, Stage(t, pts, dim, ctrs, 1.0), dim))
      < Rank(pts, dim, |ctrs|, Distortion(pts, ctrs, dim))
  {
    var k, a := |ctrs|, Assignment(t, pts, ctrs, dim);
    var d, d' := Distortion(pts, ctrs, dim), Distortion(pts, Stage(t, pts, dim, ctrs, 1.0), dim);
    ImprovementPassesFloor(t, pts, dim, ctrs);
    EveryAssignment(a, |pts|, k);
    assert a in FloorsBelow(pts, dim, k, d) && a !in FloorsBelow(pts, dim, k, d');
    SubsetSize(FloorsBelow(pts, dim, k, d'), FloorsBelow(pts, dim, k, d));
  }

  // ------------------------------------------------ zero distortion

  ghost function Places(ps: seq<Point>): set<Point> { set p | p in ps }

  lemma {:induction false} DistortionSign(pts: seq<Point>, ctrs: seq<Point>, dim: nat, n: nat)
    requires Sized(pts, ctrs, dim) && n <= |pts|
    ensures DistortionTo(pts, ctrs, dim, n) >= 0.0
    ensures DistortionTo(pts, ctrs, dim, n) == 0.0 <==> forall i | 0 <= i < n :: pts[i] in ctrs
  {
    hide Dist;
    if n > 0 {
      DistortionSign(pts, ctrs, dim, n - 1);
      var p := pts[n - 1];
      forall j | 0 <= j < |ctrs| ensures Dist(ctrs[j], p) >= 0.0 && (Dist(ctrs[j], p) == 0.0 <==> ctrs[j] == p) {
        DistNonNegative(ctrs[j], p);
      }
      assert MinDist(ctrs, p) >= 0.0;
      assert MinDist(ctrs, p) == 0.0 <==> p in ctrs;
    }
  }

  lemma {:induction false} PlacesSize(ps: seq<Point>)
    ensures |Places(ps)| <= |ps|
  {
    if ps != [] {
      var n := |ps| - 1;
      PlacesSize(ps[..n]);
      assert Places(ps) == Places(ps[..n]) + {ps[n]} by {
        assert ps == ps[..n] + [ps[n]];
      }
    }
  }

  /** Data on more places than there are centres always has a positive distortion. */
  lemma ManyPlaces(pts: seq<Point>, ctrs: seq<Point>, dim: nat)
    requires Sized(pts, ctrs, dim) && |Places(pts)| > |ctrs|
    ensures Distortion(pts, ctrs, dim) > 0.0
  {
    DistortionSign(pts, ctrs, dim, |pts|);
    if Distortion(pts, ctrs, dim) == 0.0 {
      assert Places(pts) <= Places(ctrs);
      SubsetSize(Places(pts), Places(ctrs));
      PlacesSize(ctrs);
      assert false;
    }
  }

  /** The places of a set, listed and padded to `k` centres. */
  lemma {:induction false} Cover(s: set<Point>, dim: nat, k: nat) returns (ctrs: seq<Point>)
    requires |s| <= k && forall p | p in s :: |p| == dim
    ensures |ctrs| == k && AllDim(ctrs, dim) && forall p | p in s :: p in ctrs
    decreases k
  {
    if k == 0 {
      ctrs := [];
    } else if s == {} {
      ctrs := Cover(s, dim, k - 1);
      ctrs := ctrs + [Zero(dim)];
    } else {
      var p :| p in s;
      ctrs := Cover(s - {p}, dim, k - 1);
      ctrs := ctrs + [p];
      assert forall q | q in s :: q == p || q in s - {p};
    }
  }

  // ------------------------------------------------ the stopping test

  /** A quotient of doubles, as far as the comparison with a bound can tell. */
  datatype Ratio = NaN | MinusInfinity | Num(v: real)

  /** consecRDL and accumRDL: (prev - cur) / prev for non-negative distortions. */
  function Rdl(prev: real, cur: real): Ratio
    requires prev >= 0.0 && cur >= 0.0
  {
    if prev != 0.0 then Num((prev - cur) / prev) else if cur == 0.0 then NaN else MinusInfinity
  }

  /** `r <= bound`, which is false of a NaN. */
  predicate AtMost(r: Ratio, bound: real) {
    match r
    case NaN => false
    case MinusInfinity => true
    case Num(v) => v <= bound
  }

  lemma RatioSign(prev: real, cur: real)
    requires prev > 0.0
    ensures (prev - cur) / prev > 0.0 <==> cur < prev
    ensures (prev - cur) / prev >= 0.0 <==> cur <= prev
  {
    var r := (prev - cur) / prev;
    assert r * prev == prev - cur;
  }

  /** A Lloyd stage that the test lets continue has lowered the distortion, if it was positive. */
  lemma ContinuingImproves(prev: real, cur: real, minConsecRDL: real)
    requires prev > 0.0 && cur >= 0.0 && minConsecRDL >= 0.0
    requires !AtMost(Rdl(prev, cur), minConsecRDL)
    ensures cur < prev
  {
    RatioSign(prev, cur);
  }

  /** The centres after `n` Lloyd stages. */
  ghost function Orbit(t: Tree, pts: seq<Point>, dim: nat, ctrs: seq<Point>, df: real, n: nat): (m: seq<Point>)
    requires Whole(t, pts, dim) && Sized(pts, ctrs, dim)
    ensures |m| == |ctrs| && Sized(pts, m, dim)
  {
    if n == 0 then ctrs else Stage(t, pts, dim, Orbit(t, pts, dim, ctrs, df, n - 1), df)
  }

  ghost function OrbitDist(t: Tree, pts: seq<Point>, dim: nat, ctrs: seq<Point>, df: real, n: nat): (d: real)
    requires Whole(t, pts, dim) && Sized(pts, ctrs, dim)
    ensures d >= 0.0
  {
    DistortionSign(pts, Orbit(t, pts, dim, ctrs, df, n), dim, |pts|);
    Distortion(pts, Orbit(t, pts, dim, ctrs, df, n), dim)
  }

  /** The Lloyd phase that starts from `ctrs` is found done after `n` more stages and the next one. */
  ghost predicate Stops(t: Tree, pts: seq<Point>, dim: nat, ctrs: seq<Point>, df: real, minConsecRDL: real, n: nat)
    requires Whole(t, pts, dim) && Sized(pts, ctrs, dim)
  {
    AtMost(Rdl(OrbitDist(t, pts, dim, ctrs, df, n), OrbitDist(t, pts, dim, ctrs, df, n + 1)), minConsecRDL)
  }

  /** An undampened stage that is not found done has used up a partition. */
  lemma UnstoppedStage(t: Tree, pts: seq<Point>, dim: nat, ctrs: seq<Point>, minConsecRDL: real, n: nat)
    requires Whole(t, pts, dim) && Sized(pts, ctrs, dim)
    requires minConsecRDL >= 0.0 && |Places(pts)| > |ctrs|
    requires !Stops(t, pts, dim, ctrs, 1.0, minConsecRDL, n)
    ensures Rank(pts, dim, |ctrs|, OrbitDist(t, pts, dim, ctrs, 1.0, n + 1))
      < Rank(pts, dim, |ctrs|, OrbitDist(t, pts, dim, ctrs, 1.0, n))
  {
    var before := Orbit(t, pts, dim, ctrs, 1.0, n);
    ManyPlaces(pts, before, dim);
    ContinuingImproves(OrbitDist(t, pts, dim, ctrs, 1.0, n), OrbitDist(t, pts, dim, ctrs, 1.0, n + 1), minConsecRDL);
    RankDrops(t, pts, dim, before);
  }

  /** With more places than centres and a non-negative threshold, the undampened phase ends within one
      stage more than the number of partitions whose floor is below the first distortion. */
  lemma StopsInTime(t: Tree, pts: seq<Point>, dim: nat, ctrs: seq<Point>, minConsecRDL: real)
    returns (n: nat)
    requires Whole(t, pts, dim) && Sized(pts, ctrs, dim)
    requires minConsecRDL >= 0.0 && |Places(pts)| > |ctrs|
    ensures n <= Rank(pts, dim, |ctrs|, Distortion(pts, ctrs, dim))
    ensures Stops(t, pts, dim, ctrs, 1.0, minConsecRDL, n)
  {
    n := 0;
    while !Stops(t, pts, dim, ctrs, 1.0, minConsecRDL, n)
      invariant Rank(pts, dim, |ctrs|, OrbitDist(t, pts, dim, ctrs, 1.0, n)) + n
        <= Rank(pts, dim, |ctrs|, Distortion(pts, ctrs, dim))
      decreases Rank(pts, dim, |ctrs|, OrbitDist(t, pts, dim, ctrs, 1.0, n))
    {
      UnstoppedStage(t, pts, dim, ctrs, minConsecRDL, n);
      n := n + 1;
    }
  }

  /** A Lloyd phase never raises the distortion. */
  lemma {:induction false} OrbitFalls(t: Tree, pts: seq<Point>, dim: nat, ctrs: seq<Point>, df: real, n: nat)
    requires Whole(t, pts, dim) && Sized(pts, ctrs, dim) && 0.0 <= df <= 1.0
    ensures OrbitDist(t, pts, dim, ctrs, df, n + 1) <= OrbitDist(t, pts, dim, ctrs, df, n) <= Distortion(pts, ctrs, dim)
  {
    StageNeverRaises(t, pts, dim, Orbit(t, pts, dim, ctrs, df, n), df);
    if n > 0 {
      OrbitFalls(t, pts, dim, ctrs, df, n - 1);
    }
  }

  lemma TestFails(prev: real, cur: real, minConsecRDL: real)
    requires 0.0 <= cur <= prev && (prev == 0.0 || minConsecRDL < 0.0)
    ensures !AtMost(Rdl(prev, cur), minConsecRDL)
  {
    if prev > 0.0 { RatioSign(prev, cur); }
  }

  /** A negative threshold is never met; and from a solution with distortion zero the quotient is a
      NaN for ever.  Either way the phase never ends. */
  lemma NeverStops(t: Tree, pts: seq<Point>, dim: nat, ctrs: seq<Point>, df: real, minConsecRDL: real, n: nat)
    requires Whole(t, pts, dim) && Sized(pts, ctrs, dim) && 0.0 <= df <= 1.0
    requires minConsecRDL < 0.0 || Distortion(pts, ctrs, dim) == 0.0
    ensures !Stops(t, pts, dim, ctrs, df, minConsecRDL, n)
  {
    OrbitFalls(t, pts, dim, ctrs, df, n);
    TestFails(OrbitDist(t, pts, dim, ctrs, df, n), OrbitDist(t, pts, dim, ctrs, df, n + 1), minConsecRDL);
  }

  /** The Lloyd phase that starts from `ctrs` runs for ever. */
  ghost predicate RunsForEver(t: Tree, pts: seq<Point>, dim: nat, ctrs: seq<Point>, df: real, minConsecRDL: real)
    requires Whole(t, pts, dim) && |ctrs| >= 1 && AllDim(ctrs, dim)
  {
    forall n: nat :: !Stops(t, pts, dim, ctrs, df, minConsecRDL, n)
  }

  lemma BadStart(t: Tree, pts: seq<Point>, dim: nat, k: nat, df: real, minConsecRDL: real) returns (ctrs: seq<Point>)
    requires Whole(t, pts, dim) && k >= 1 && 0.0 <= df <= 1.0
    requires minConsecRDL < 0.0 || |Places(pts)| <= k
    ensures |ctrs| == k && AllDim(ctrs, dim) && RunsForEver(t, pts, dim, ctrs, df, minConsecRDL)
  {
    if minConsecRDL < 0.0 {
      ctrs := Cover({}, dim, k);
    } else {
      ctrs := Cover(Places(pts), dim, k);
      assert forall i | 0 <= i < |pts| :: pts[i] in Places(pts);
      DistortionSign(pts, ctrs, dim, |pts|);
    }
    forall n: nat ensures !Stops(t, pts, dim, ctrs, df, minConsecRDL, n) {
      NeverStops(t, pts, dim, ctrs, df, minConsecRDL, n);
    }
  }

  /** The undampened Lloyd phase ends from every set of `k` centres, within k^n + 1 stages. */
  ghost predicate AlwaysStops(t: Tree, pts: seq<Point>, dim: nat, k: nat, minConsecRDL: real)
    requires Whole(t, pts, dim) && k >= 1
  {
    forall ctrs: seq<Point> | |ctrs| == k && AllDim(ctrs, dim) ::
      exists n: nat :: n + 1 <= Pow(k, |pts|) + 1 && Stops(t, pts, dim, ctrs, 1.0, minConsecRDL, n)
  }

  /** Exactly when the undampened Lloyd phase of the EZ-hybrid search ends from every start: the threshold
      is not negative and the data occupy more places than there are centres.  It then ends within k^n + 1
      stages; otherwise there is a start from which it runs for ever. */
  lemma StopsExactlyWhen(t: Tree, pts: seq<Point>, dim: nat, k: nat, minConsecRDL: real)
    requires Whole(t, pts, dim) && k >= 1
    ensures AlwaysStops(t, pts, dim, k, minConsecRDL) <==> minConsecRDL >= 0.0 && |Places(pts)| > k
    ensures !AlwaysStops(t, pts, dim, k, minConsecRDL) <==>
      exists ctrs: seq<Point> :: |ctrs| == k && AllDim(ctrs, dim) && RunsForEver(t, pts, dim, ctrs, 1.0, minConsecRDL)
  {
    if minConsecRDL >= 0.0 && |Places(pts)| > k {
      forall ctrs: seq<Point> | |ctrs| == k && AllDim(ctrs, dim)
        ensures exists n: nat :: n + 1 <= Pow(k, |pts|) + 1 && Stops(t, pts, dim, ctrs, 1.0, minConsecRDL, n)
      {
        var n := StopsInTime(t, pts, dim, ctrs, minConsecRDL);
        RankBound(pts, dim, k, Distortion(pts, ctrs, dim));
      }
    } else {
      var ctrs := BadStart(t, pts, dim, k, 1.0, minConsecRDL);
    }
  }
}
