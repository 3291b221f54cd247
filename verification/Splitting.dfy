/** The splitting rule of the tree (DisCrawler/KMean/KCutil.cpp).  Points are read through the
    index array `pidx`, of which a call owns the `n` entries that start at `off`. */
module Splitting {
  import opened Vectors
  import opened Boxes

  /** The entries that a call with base `off` and size `n` works on. */
  ghost predicate Range(pts: seq<Point>, dim: nat, pidx: array<int>, off: nat, n: nat)
    reads pidx
  {
    && AllDim(pts, dim)
    && off + n <= pidx.Length
    && forall i | off <= i < off + n :: 0 <= pidx[i] < |pts|
  }

  /** The entries [off, off + n) of `idx` are indices of points. */
  ghost predicate Indices(pts: seq<Point>, dim: nat, idx: seq<int>, off: nat, n: nat) {
    && AllDim(pts, dim)
    && off + n <= |idx|
    && forall i | off <= i < off + n :: 0 <= idx[i] < |pts|
  }

  /** What a permuting call leaves behind: the same entries, all those outside [a, b) in place. */
  ghost predicate Rearranged(before: seq<int>, after: seq<int>, a: nat, b: nat) {
    && a <= b <= |before| == |after|
    && multiset(after) == multiset(before)
    && forall i | 0 <= i < |after| && !(a <= i < b) :: after[i] == before[i]
  }

  /** So the range itself holds the same entries as before. */
  lemma RearrangedSlice(before: seq<int>, after: seq<int>, a: nat, b: nat)
    requires Rearranged(before, after, a, b)
    ensures multiset(after[a..b]) == multiset(before[a..b])
  {
    MultisetOfThree(before, a, b);
    MultisetOfThree(after, a, b);
    assert after[..a] == before[..a] && after[b..] == before[b..];
    var outside := multiset(before[..a]) + multiset(before[b..]);
    assert multiset(after[a..b]) == multiset(after) - outside;
    assert multiset(before[a..b]) == multiset(before) - outside;
  }

  lemma MultisetOfThree(s: seq<int>, a: nat, b: nat)
    requires a <= b <= |s|
    ensures multiset(s) == multiset(s[..a]) + multiset(s[b..]) + multiset(s[a..b])
  {
    assert s == s[..a] + s[a..b] + s[b..];
  }

  /** Every entry of a rearranged range was already in it. */
  lemma RearrangedFrom(before: seq<int>, after: seq<int>, a: nat, b: nat, i: nat)
    requires Rearranged(before, after, a, b) && a <= i < b
    ensures exists j | a <= j < b :: after[i] == before[j]
  {
    RearrangedSlice(before, after, a, b);
    assert after[a..b][i - a] == after[i];
    assert after[i] in multiset(after[a..b]);
    assert after[i] in before[a..b];
    var j :| 0 <= j < b - a && before[a..b][j] == after[i];
    assert before[a + j] == after[i];
  }

  /** kmEnclRect: the smallest rectangle around the points. */
  method KmEnclRect(pts: seq<Point>, dim: nat, pidx: array<int>, n: nat, bnds: OrthRect)
    requires Range(pts, dim, pidx, 0, n) && n >= 1
    requires |bnds.lo| == |bnds.hi| == dim
    modifies bnds
    ensures Proper(bnds.Value(), dim) && NonEmpty(bnds.Value())
    ensures forall i | 0 <= i < n :: Inside(bnds.Value(), pts[pidx[i]])
    ensures forall d | 0 <= d < dim ::
      && (exists i | 0 <= i < n :: pts[pidx[i]][d] == bnds.lo[d])
      && (exists i | 0 <= i < n :: pts[pidx[i]][d] == bnds.hi[d])
  {
    for d := 0 to dim
      invariant |bnds.lo| == |bnds.hi| == dim
      invariant forall e, i | 0 <= e < d && 0 <= i < n :: bnds.lo[e] <= pts[pidx[i]][e] <= bnds.hi[e]
      invariant forall e | 0 <= e < d ::
        && (exists i | 0 <= i < n :: pts[pidx[i]][e] == bnds.lo[e])
        && (exists i | 0 <= i < n :: pts[pidx[i]][e] == bnds.hi[e])
    {
      var loBnd, hiBnd := pts[pidx[0]][d], pts[pidx[0]][d];
      for i := 0 to n
        invariant forall j | 0 <= j < i :: loBnd <= pts[pidx[j]][d] <= hiBnd
        invariant loBnd <= hiBnd
        invariant exists j | 0 <= j < n :: pts[pidx[j]][d] == loBnd
        invariant exists j | 0 <= j < n :: pts[pidx[j]][d] == hiBnd
      {
        if pts[pidx[i]][d] < loBnd {
          loBnd := pts[pidx[i]][d];
        } else if pts[pidx[i]][d] > hiBnd {
          hiBnd := pts[pidx[i]][d];
        }
      }
      bnds.lo := bnds.lo[d := loBnd];
      bnds.hi := bnds.hi[d := hiBnd];
    }
    assert forall d | 0 <= d < dim :: bnds.lo[d] <= pts[pidx[0]][d] <= bnds.hi[d];
  }

  /** `min` and `max` are the least and the largest coordinate of the range along `d`. */
  ghost predicate Extremes(pts: seq<Point>, dim: nat, idx: seq<int>, off: nat, n: nat, d: nat, min: real, max: real)
    requires Indices(pts, dim, idx, off, n) && d < dim
  {
    && (forall i | off <= i < off + n :: min <= pts[idx[i]][d] <= max)
    && (exists i | off <= i < off + n :: pts[idx[i]][d] == min)
    && (exists i | off <= i < off + n :: pts[idx[i]][d] == max)
  }

  /** kmMinMax: the extreme coordinates along one dimension. */
  method KmMinMax(pts: seq<Point>, dim: nat, pidx: array<int>, off: nat, n: nat, d: nat)
    returns (min: real, max: real)
    requires Range(pts, dim, pidx, off, n) && n >= 1 && d < dim
    ensures Extremes(pts, dim, pidx[..], off, n, d, min, max)
  {
    min, max := pts[pidx[off]][d], pts[pidx[off]][d];
    for i := 1 to n
      invariant forall j | off <= j < off + i :: min <= pts[pidx[j]][d] <= max
      invariant exists j | off <= j < off + n :: pts[pidx[j]][d] == min
      invariant exists j | off <= j < off + n :: pts[pidx[j]][d] == max
    {
      var c := pts[pidx[off + i]][d];
      if c < min {
        min := c;
      } else if c > max {
        max := c;
      }
    }
    ghost var i :| off <= i < off + n && pts[pidx[i]][d] == min;
    ghost var j :| off <= j < off + n && pts[pidx[j]][d] == max;
    assert pts[pidx[..][i]][d] == min && pts[pidx[..][j]][d] == max;
  }

  /** No two coordinates of the range differ by more than `spread` along `d`. */
  ghost predicate SpreadAtMost(pts: seq<Point>, dim: nat, idx: seq<int>, off: nat, n: nat, d: nat, spread: real)
    requires Indices(pts, dim, idx, off, n) && d < dim
  {
    forall i, j | off <= i < off + n && off <= j < off + n :: pts[idx[i]][d] - pts[idx[j]][d] <= spread
  }

  /** Two of them do. */
  ghost predicate SpreadAttained(pts: seq<Point>, dim: nat, idx: seq<int>, off: nat, n: nat, d: nat, spread: real)
    requires Indices(pts, dim, idx, off, n) && d < dim
  {
    exists i, j :: off <= i < off + n && off <= j < off + n && pts[idx[i]][d] - pts[idx[j]][d] == spread
  }

  /** kmSpread: the largest difference between two coordinates along one dimension. */
  method KmSpread(pts: seq<Point>, dim: nat, pidx: array<int>, off: nat, n: nat, d: nat)
    returns (spread: real)
    requires Range(pts, dim, pidx, off, n) && n >= 1 && d < dim
    ensures spread >= 0.0
    ensures SpreadAtMost(pts, dim, pidx[..], off, n, d, spread)
    ensures SpreadAttained(pts, dim, pidx[..], off, n, d, spread)
  {
    var min, max := KmMinMax(pts, dim, pidx, off, n, d);
    spread := max - min;
    ghost var i :| off <= i < off + n && pts[pidx[..][i]][d] == max;
    ghost var j :| off <= j < off + n && pts[pidx[..][j]][d] == min;
    assert pts[pidx[..][i]][d] - pts[pidx[..][j]][d] == spread;
  }

  /** PASWAP. */
  method Swap(pidx: array<int>, a: nat, b: nat, l: nat, r: nat)
    requires a <= l < b <= pidx.Length && a <= r < b
    modifies pidx
    ensures Rearranged(old(pidx[..]), pidx[..], a, b)
    ensures pidx[l] == old(pidx[r]) && pidx[r] == old(pidx[l])
    ensures forall i | 0 <= i < pidx.Length && i != l && i != r :: pidx[i] == old(pidx[i])
  {
    var tmp := pidx[l];
    pidx[l] := pidx[r];
    pidx[r] := tmp;
    assert pidx[..] == old(pidx[..])[l := old(pidx[r])][r := old(pidx[l])];
  }

  /** The side of the cutting value that a sweep gathers at the low end. */
  predicate Low(x: real, cv: real, closed: bool) {
    if closed then x <= cv else x < cv
  }

  /** One `for(;;)` loop of kmPlaneSplit over the entries in [a, b): two fingers close in on
      each other, exchanging the entries that are on the wrong side. */
  method Sweep(pts: seq<Point>, dim: nat, pidx: array<int>, a: nat, b: nat, d: nat, cv: real, closed: bool)
    returns (br: nat)
    requires a <= b && Range(pts, dim, pidx, a, b - a) && d < dim
    modifies pidx
    ensures Range(pts, dim, pidx, a, b - a) && Rearranged(old(pidx[..]), pidx[..], a, b)
    ensures a <= br <= b
    ensures forall i | a <= i < br :: Low(pts[pidx[i]][d], cv, closed)
    ensures forall i | br <= i < b :: !Low(pts[pidx[i]][d], cv, closed)
  {
    var l, r := a, b - 1;
    while true
      invariant a <= l <= b && a - 1 <= r < b
      invariant Range(pts, dim, pidx, a, b - a) && Rearranged(old(pidx[..]), pidx[..], a, b)
      invariant forall i | a <= i < l :: Low(pts[pidx[i]][d], cv, closed)
      invariant forall i | r < i < b :: !Low(pts[pidx[i]][d], cv, closed)
      decreases b + r - l
    {
      while l < b && Low(pts[pidx[l]][d], cv, closed)
        invariant a <= l <= b
        invariant forall i | a <= i < l :: Low(pts[pidx[i]][d], cv, closed)
      {
        l := l + 1;
      }
      while r >= a && !Low(pts[pidx[r]][d], cv, closed)
        invariant a - 1 <= r < b
        invariant forall i | r < i < b :: !Low(pts[pidx[i]][d], cv, closed)
      {
        r := r - 1;
      }
      if l > r { break; }
      Swap(pidx, a, b, l, r);
      l, r := l + 1, r - 1;
    }
    br := l;
  }

  /** The partition that kmPlaneSplit returns. */
  ghost predicate ThreeWay(pts: seq<Point>, dim: nat, idx: seq<int>, off: nat, n: nat,
                           d: nat, cv: real, br1: nat, br2: nat)
    requires Indices(pts, dim, idx, off, n) && d < dim
  {
    && br1 <= br2 <= n
    && (forall i | off <= i < off + br1 :: pts[idx[i]][d] < cv)
    && (forall i | off + br1 <= i < off + br2 :: pts[idx[i]][d] == cv)
    && (forall i | off + br2 <= i < off + n :: pts[idx[i]][d] > cv)
  }

  /** kmPlaneSplit: a three-way partition, in place, about the cutting value. */
  method KmPlaneSplit(pts: seq<Point>, dim: nat, pidx: array<int>, off: nat, n: nat, d: nat, cv: real)
    returns (br1: nat, br2: nat)
    requires Range(pts, dim, pidx, off, n) && d < dim
    modifies pidx
    ensures Range(pts, dim, pidx, off, n) && Rearranged(old(pidx[..]), pidx[..], off, off + n)
    ensures ThreeWay(pts, dim, pidx[..], off, n, d, cv, br1, br2)
  {
    var m1 := Sweep(pts, dim, pidx, off, off + n, d, cv, false);
    ghost var halfway := pidx[..];
    var m2 := Sweep(pts, dim, pidx, m1, off + n, d, cv, true);
    forall i | m1 <= i < off + n ensures pts[pidx[i]][d] >= cv {
      RearrangedFrom(halfway, pidx[..], m1, off + n, i);
    }
    br1, br2 := m1 - off, m2 - off;
  }

  /** ERR. */
  const ERR: real := 0.001

  /** The split that the tree is built on: both sides inhabited, and separated by the cut. */
  ghost predicate GoodSplit(pts: seq<Point>, dim: nat, idx: seq<int>, off: nat, n: nat,
                            b: Box, cd: nat, cv: real, nLo: nat)
    requires Indices(pts, dim, idx, off, n) && Proper(b, dim)
  {
    && cd < dim
    && b.lo[cd] <= cv <= b.hi[cd]
    && 1 <= nLo <= n - 1
    && (forall i | off <= i < off + nLo :: pts[idx[i]][cd] <= cv)
    && (forall i | off + nLo <= i < off + n :: cv <= pts[idx[i]][cd])
  }

  /** A side that is among the longest, up to the tolerance. */
  ghost predicate IsLong(b: Box, dim: nat, d: nat)
    requires Proper(b, dim) && d < dim
  {
    forall e | 0 <= e < dim :: b.hi[d] - b.lo[d] >= 0.999 * (b.hi[e] - b.lo[e])
  }

  /** The first half of sl_midpt_split: among the longest sides, the one with most spread. */
  method CutDimension(pts: seq<Point>, dim: nat, pidx: array<int>, off: nat, bnds: Box, n: nat)
    returns (cutDim: nat, maxSpread: real)
    requires Range(pts, dim, pidx, off, n) && n >= 1 && dim >= 1
    requires Proper(bnds, dim) && forall i | off <= i < off + n :: Inside(bnds, pts[pidx[i]])
    ensures cutDim < dim && IsLong(bnds, dim, cutDim)
    ensures SpreadAttained(pts, dim, pidx[..], off, n, cutDim, maxSpread)
    ensures forall d | 0 <= d < dim && IsLong(bnds, dim, d) :: SpreadAtMost(pts, dim, pidx[..], off, n, d, maxSpread)
  {
    assert Inside(bnds, pts[pidx[off]]);
    var maxLength := bnds.hi[0] - bnds.lo[0];
    for d := 1 to dim
      invariant forall e | 0 <= e < d :: bnds.hi[e] - bnds.lo[e] <= maxLength
      invariant exists e | 0 <= e < dim :: bnds.hi[e] - bnds.lo[e] == maxLength
    {
      var length := bnds.hi[d] - bnds.lo[d];
      if length > maxLength {
        maxLength := length;
      }
    }
    ghost var longest :| 0 <= longest < dim && bnds.hi[longest] - bnds.lo[longest] == maxLength;
    maxSpread := -1.0;
    cutDim := 0;
    for d := 0 to dim
      invariant maxSpread >= 0.0 || maxSpread == -1.0
      invariant maxSpread == -1.0 ==> d <= longest
      invariant maxSpread >= 0.0 ==>
        && cutDim < d && bnds.hi[cutDim] - bnds.lo[cutDim] >= (1.0 - ERR) * maxLength
        && SpreadAttained(pts, dim, pidx[..], off, n, cutDim, maxSpread)
      invariant forall e | 0 <= e < d && bnds.hi[e] - bnds.lo[e] >= (1.0 - ERR) * maxLength ::
        SpreadAtMost(pts, dim, pidx[..], off, n, e, maxSpread)
    {
      if bnds.hi[d] - bnds.lo[d] >= (1.0 - ERR) * maxLength {
        var spr := KmSpread(pts, dim, pidx, off, n, d);
        if spr > maxSpread {
          maxSpread := spr;
          cutDim := d;
        }
      }
    }
  }

  /** Where sl_midpt_split puts the cutting value ... */
  function Slide(ideal: real, min: real, max: real): real {
    if ideal < min then min else if ideal > max then max else ideal
  }

  /** ... and how many points it leaves below, from the two breaks of the partition. */
  function CountBelow(ideal: real, min: real, max: real, br1: nat, br2: nat, n: nat): nat
    requires n >= 2
  {
    if ideal < min then 1
    else if ideal > max then n - 1
    else if br1 > n / 2 then br1
    else if br2 < n / 2 then br2
    else n / 2
  }

  /** Whatever the ideal cut, the count is between the breaks and leaves no side empty. */
  lemma CountIsProper(xs: seq<real>, ideal: real, min: real, max: real, br1: nat, br2: nat)
    requires |xs| >= 2 && min in xs && max in xs
    requires forall i | 0 <= i < |xs| :: min <= xs[i] <= max
    requires br1 <= br2 <= |xs|
    requires var cv := Slide(ideal, min, max);
      && (forall i | 0 <= i < br1 :: xs[i] < cv)
      && (forall i | br1 <= i < br2 :: xs[i] == cv)
      && (forall i | br2 <= i < |xs| :: xs[i] > cv)
    ensures br1 <= CountBelow(ideal, min, max, br1, br2, |xs|) <= br2
    ensures 1 <= CountBelow(ideal, min, max, br1, br2, |xs|) <= |xs| - 1
  {
    var i :| 0 <= i < |xs| && xs[i] == min;
    var j :| 0 <= j < |xs| && xs[j] == max;
    assert xs[i] <= Slide(ideal, min, max) <= xs[j];
    assert i < br2 && br1 <= j;
    assert ideal < min ==> br1 == 0;
    assert ideal > max ==> br2 == |xs|;
  }

  lemma SplitIsGood(pts: seq<Point>, dim: nat, idx: seq<int>, off: nat, n: nat, b: Box, cd: nat,
                    min: real, max: real, br1: nat, br2: nat)
    requires Indices(pts, dim, idx, off, n) && n >= 2 && Proper(b, dim) && cd < dim
    requires b.lo[cd] <= min <= max <= b.hi[cd]
    requires Extremes(pts, dim, idx, off, n, cd, min, max)
    requires var ideal := (b.lo[cd] + b.hi[cd]) / 2.0;
      ThreeWay(pts, dim, idx, off, n, cd, Slide(ideal, min, max), br1, br2)
    ensures var ideal := (b.lo[cd] + b.hi[cd]) / 2.0;
      GoodSplit(pts, dim, idx, off, n, b, cd, Slide(ideal, min, max), CountBelow(ideal, min, max, br1, br2, n))
  {
    var ideal := (b.lo[cd] + b.hi[cd]) / 2.0;
    var xs := seq(n, i requires 0 <= i < n => pts[idx[off + i]][cd]);
    var i :| off <= i < off + n && pts[idx[i]][cd] == min;
    var j :| off <= j < off + n && pts[idx[j]][cd] == max;
    assert xs[i - off] == min && xs[j - off] == max;
    CountIsProper(xs, ideal, min, max, br1, br2);
  }

  /** The first m entries could be the low side. */
  ghost predicate Separates(pts: seq<Point>, dim: nat, idx: seq<int>, off: nat, n: nat, cd: nat, cv: real, m: nat)
    requires Indices(pts, dim, idx, off, n) && cd < dim && m <= n
  {
    && (forall i | off <= i < off + m :: pts[idx[i]][cd] <= cv)
    && (forall i | off + m <= i < off + n :: cv <= pts[idx[i]][cd])
  }

  function Off(x: int, y: int): nat { if x < y then y - x else x - y }

  /** The cut is at the ideal place, with a count as close to half of the points as any that separates
      the sides; or, if all points are on one side of that place, at the nearest of them, which is alone. */
  ghost predicate Balanced(pts: seq<Point>, dim: nat, idx: seq<int>, off: nat, n: nat,
                           cd: nat, ideal: real, cv: real, nLo: nat)
    requires Indices(pts, dim, idx, off, n) && cd < dim
  {
    && (cv == ideal ==>
          forall m | 0 <= m <= n && Separates(pts, dim, idx, off, n, cd, cv, m) :: Off(nLo, n / 2) <= Off(m, n / 2))
    && (cv > ideal ==> nLo == 1 && forall i | off <= i < off + n :: cv <= pts[idx[i]][cd])
    && (cv < ideal ==> nLo == n - 1 && forall i | off <= i < off + n :: pts[idx[i]][cd] <= cv)
  }

  lemma SplitIsBalanced(pts: seq<Point>, dim: nat, idx: seq<int>, off: nat, n: nat, cd: nat,
                        ideal: real, min: real, max: real, br1: nat, br2: nat)
    requires Indices(pts, dim, idx, off, n) && n >= 2 && cd < dim && min <= max
    requires Extremes(pts, dim, idx, off, n, cd, min, max)
    requires ThreeWay(pts, dim, idx, off, n, cd, Slide(ideal, min, max), br1, br2)
    ensures Balanced(pts, dim, idx, off, n, cd, ideal, Slide(ideal, min, max),
                     CountBelow(ideal, min, max, br1, br2, n))
  {
    var cv := Slide(ideal, min, max);
    forall m | 0 <= m <= n && !(br1 <= m <= br2) ensures !Separates(pts, dim, idx, off, n, cd, cv, m) {
      OnlyBetweenBreaks(pts, dim, idx, off, n, cd, cv, br1, br2, m);
    }
  }

  lemma OnlyBetweenBreaks(pts: seq<Point>, dim: nat, idx: seq<int>, off: nat, n: nat, cd: nat, cv: real,
                          br1: nat, br2: nat, m: nat)
    requires Indices(pts, dim, idx, off, n) && cd < dim && m <= n
    requires ThreeWay(pts, dim, idx, off, n, cd, cv, br1, br2) && !(br1 <= m <= br2)
    ensures !Separates(pts, dim, idx, off, n, cd, cv, m)
  {
    var k := if m < br1 then off + m else off + br2;
    assert pts[idx[k]][cd] != cv;
  }

  /** The extremes of a range survive its rearrangement. */
  lemma ExtremesSurvive(pts: seq<Point>, dim: nat, before: seq<int>, after: seq<int>, off: nat, n: nat,
                        d: nat, min: real, max: real)
    requires Indices(pts, dim, before, off, n) && Indices(pts, dim, after, off, n) && d < dim
    requires Rearranged(before, after, off, off + n)
    requires Extremes(pts, dim, before, off, n, d, min, max)
    ensures Extremes(pts, dim, after, off, n, d, min, max)
  {
    forall i | off <= i < off + n ensures min <= pts[after[i]][d] <= max {
      RearrangedFrom(before, after, off, off + n, i);
    }
    var i :| off <= i < off + n && pts[before[i]][d] == min;
    var j :| off <= j < off + n && pts[before[j]][d] == max;
    RearrangedFrom(after, before, off, off + n, i);
    RearrangedFrom(after, before, off, off + n, j);
  }

  lemma ExtremesInside(pts: seq<Point>, dim: nat, idx: seq<int>, off: nat, n: nat, b: Box,
                       d: nat, min: real, max: real)
    requires Indices(pts, dim, idx, off, n) && d < dim && Proper(b, dim)
    requires forall i | off <= i < off + n :: Inside(b, pts[idx[i]])
    requires Extremes(pts, dim, idx, off, n, d, min, max)
    ensures b.lo[d] <= min <= max <= b.hi[d]
  {
  }

  /** sl_midpt_split: bisect a longest side, sliding the cut when all points are on one side. */
  method SlMidptSplit(pts: seq<Point>, dim: nat, pidx: array<int>, off: nat, bnds: Box, n: nat)
    returns (cutDim: nat, cutVal: real, nLo: nat)
    requires Range(pts, dim, pidx, off, n) && n >= 2 && dim >= 1
    requires Proper(bnds, dim) && forall i | off <= i < off + n :: Inside(bnds, pts[pidx[i]])
    modifies pidx
    ensures Range(pts, dim, pidx, off, n) && Rearranged(old(pidx[..]), pidx[..], off, off + n)
    ensures GoodSplit(pts, dim, pidx[..], off, n, bnds, cutDim, cutVal, nLo)
    ensures IsLong(bnds, dim, cutDim)
    ensures Balanced(pts, dim, pidx[..], off, n, cutDim, (bnds.lo[cutDim] + bnds.hi[cutDim]) / 2.0, cutVal, nLo)
  {
    hide Balanced, GoodSplit, ThreeWay, IsLong, CountBelow, Rearranged, Inside, Extremes, SpreadAtMost, SpreadAttained;
    var ignoreSpread;
    cutDim, ignoreSpread := CutDimension(pts, dim, pidx, off, bnds, n);
    var ideal := (bnds.lo[cutDim] + bnds.hi[cutDim]) / 2.0;
    var min, max := KmMinMax(pts, dim, pidx, off, n, cutDim);
    cutVal := Slide(ideal, min, max);
    ghost var before := pidx[..];
    ExtremesInside(pts, dim, before, off, n, bnds, cutDim, min, max);
    var br1, br2 := KmPlaneSplit(pts, dim, pidx, off, n, cutDim, cutVal);
    nLo := CountBelow(ideal, min, max, br1, br2, n);
    ExtremesSurvive(pts, dim, before, pidx[..], off, n, cutDim, min, max);
    SplitIsGood(pts, dim, pidx[..], off, n, bnds, cutDim, min, max, br1, br2);
    SplitIsBalanced(pts, dim, pidx[..], off, n, cutDim, ideal, min, max, br1, br2);
  }
}
