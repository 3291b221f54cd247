/** How the generators of clustered points divide n points among n_col clusters, and which dimensions
    they put on a flat (DisCrawler/KMean/KMrand.cpp). */
module GroupSizes {

  /** Cluster c is given floor((n + c) / n_col) points. */
  function Pick(n: nat, nCol: nat, c: nat): nat
    requires nCol > 0
  {
    (n + c) / nCol
  }

  /** The slots filled by the clusters before c. */
  function Start(n: nat, nCol: nat, c: nat): nat
    requires nCol > 0
  {
    if c == 0 then 0 else Start(n, nCol, c - 1) + Pick(n, nCol, c - 1)
  }

  lemma QuotientIs(a: nat, b: nat, q: nat)
    requires b > 0 && q * b <= a < q * b + b
    ensures a / b == q
  {
    assert a / b * b + a % b == a;
    if a / b + 1 <= q {
      TimesMonotone(a / b + 1, q, b);
    }
    if q + 1 <= a / b {
      TimesMonotone(q + 1, a / b, b);
    }
  }

  lemma TimesMonotone(x: nat, y: nat, b: nat)
    requires x <= y
    ensures x * b <= y * b
  {
  }

  /** The last n % n_col clusters get one point more than the others. */
  lemma PickIs(n: nat, nCol: nat, c: nat)
    requires c < nCol
    ensures Pick(n, nCol, c) == n / nCol + if c + n % nCol >= nCol then 1 else 0
  {
    var q, r := n / nCol, n % nCol;
    assert n == q * nCol + r;
    if c + r >= nCol {
      assert (q + 1) * nCol == q * nCol + nCol;
      QuotientIs(n + c, nCol, q + 1);
    } else {
      QuotientIs(n + c, nCol, q);
    }
  }

  lemma {:induction false} StartIs(n: nat, nCol: nat, c: nat)
    requires 0 < nCol && c <= nCol
    ensures Start(n, nCol, c) == c * (n / nCol) + if c + n % nCol > nCol then c + n % nCol - nCol else 0
    decreases c
  {
    if c > 0 {
      StartIs(n, nCol, c - 1);
      PickIs(n, nCol, c - 1);
      assert c * (n / nCol) == (c - 1) * (n / nCol) + n / nCol;
    }
  }

  /** Together the clusters consume exactly all points. */
  lemma AllPointsConsumed(n: nat, nCol: nat)
    requires nCol > 0
    ensures Start(n, nCol, nCol) == n
  {
    StartIs(n, nCol, nCol);
    assert n == nCol * (n / nCol) + n % nCol;
  }

  /** No two clusters differ by more than one point. */
  lemma EvenlyDivided(n: nat, nCol: nat, c: nat, d: nat)
    requires c < nCol && d < nCol
    ensures Pick(n, nCol, c) <= Pick(n, nCol, d) + 1
  {
    PickIs(n, nCol, c);
    PickIs(n, nCol, d);
  }

  lemma {:induction false} StartMonotone(n: nat, nCol: nat, c: nat, d: nat)
    requires nCol > 0 && c <= d
    ensures Start(n, nCol, c) <= Start(n, nCol, d)
    decreases d
  {
    if c < d {
      StartMonotone(n, nCol, c, d - 1);
    }
  }

  /** The slots filled by the clusters before c, one after the other, each with its cluster. */
  function Slots(n: nat, nCol: nat, c: nat): (r: seq<nat>)
    requires nCol > 0
    ensures |r| == Start(n, nCol, c)
  {
    if c == 0 then [] else Slots(n, nCol, c - 1) + Copies(c - 1, Pick(n, nCol, c - 1))
  }

  function Copies(c: nat, k: nat): (r: seq<nat>)
    ensures |r| == k && forall i | 0 <= i < k :: r[i] == c
  {
    if k == 0 then [] else Copies(c, k - 1) + [c]
  }

  /** Slot s belongs to the cluster whose range it lies in. */
  lemma {:induction false} SlotOwner(n: nat, nCol: nat, c: nat, b: nat, s: nat)
    requires nCol > 0 && b < c && Start(n, nCol, b) <= s < Start(n, nCol, b + 1)
    ensures s < Start(n, nCol, c) && Slots(n, nCol, c)[s] == b
    decreases c
  {
    if b < c - 1 {
      StartMonotone(n, nCol, b + 1, c - 1);
      SlotOwner(n, nCol, c - 1, b, s);
    }
  }

  /** The filling loops.  pa[s] records the cluster that the point in slot s is drawn from. */
  method Fill(pa: array<nat>, n: nat, nCol: nat) returns (next: nat)
    requires pa.Length == n && nCol > 0
    modifies pa
    ensures next == n && pa[..] == Slots(n, nCol, nCol)
  {
    hide Start, Pick, Copies;
    next := 0;
    AllPointsConsumed(n, nCol);
    SlotsStep(n, nCol, 0);
    for c := 0 to nCol
      invariant next == Start(n, nCol, c) <= n && pa[..next] == Slots(n, nCol, c)
    {
      StartMonotone(n, nCol, c + 1, nCol);
      SlotsStep(n, nCol, c);
      var pick := (n + c) / nCol;
      next := FillCluster(pa, c, next, pick, Slots(n, nCol, c));
    }
    assert pa[..n] == pa[..];
  }

  /** The loop over the points of cluster c. */
  method FillCluster(pa: array<nat>, c: nat, start: nat, pick: nat, ghost filled: seq<nat>) returns (next: nat)
    requires start + pick <= pa.Length && pa[..start] == filled
    modifies pa
    ensures next == start + pick && pa[..next] == filled + Copies(c, pick)
  {
    next := start;
    for i := 0 to pick
      invariant next == start + i && pa[..next] == filled + Copies(c, i)
    {
      pa[next] := c;
      assert pa[..next + 1] == pa[..next] + [c];
      next := next + 1;
    }
  }

  lemma SlotsStep(n: nat, nCol: nat, c: nat)
    requires nCol > 0
    ensures Start(n, nCol, 0) == 0 && Start(n, nCol, c + 1) == Start(n, nCol, c) + (n + c) / nCol
    ensures Slots(n, nCol, c + 1) == Slots(n, nCol, c) + Copies(c, (n + c) / nCol)
  {
  }

  // ------------------------------------------------ the dimensions of a flat

  function Flagged(flags: seq<bool>): nat {
    if flags == [] then 0 else Flagged(flags[..|flags| - 1]) + if flags[|flags| - 1] then 1 else 0
  }

  /** A dimension is picked exactly if its draw is below the number still to be picked over the number left. */
  predicate PickedByOdds(dims: nat, dim: nat, draws: seq<real>, flags: seq<bool>, d: nat)
    requires d < |flags| <= dim == |draws|
  {
    flags[d] <==> draws[d] < Odds(dims - Flagged(flags[..d]), dim - d)
  }

  predicate ByOdds(dims: nat, dim: nat, draws: seq<real>, flags: seq<bool>)
    requires |flags| <= dim == |draws|
  {
    forall d | 0 <= d < |flags| :: PickedByOdds(dims, dim, draws, flags, d)
  }

  lemma ByOddsAppend(dims: nat, dim: nat, draws: seq<real>, flags: seq<bool>, on: bool)
    requires |flags| < dim == |draws| && ByOdds(dims, dim, draws, flags)
    requires on <==> draws[|flags|] < Odds(dims - Flagged(flags), dim - |flags|)
    ensures ByOdds(dims, dim, draws, flags + [on])
    ensures Flagged(flags + [on]) == Flagged(flags) + if on then 1 else 0
  {
    hide PickedByOdds, Flagged;
    var next := flags + [on];
    FlaggedAppend(flags, on);
    forall d | 0 <= d < |next| ensures PickedByOdds(dims, dim, draws, next, d) {
      PickedStays(dims, dim, draws, flags, on, d);
    }
  }

  lemma PickedStays(dims: nat, dim: nat, draws: seq<real>, flags: seq<bool>, on: bool, d: nat)
    requires d <= |flags| < dim == |draws| && (d < |flags| ==> PickedByOdds(dims, dim, draws, flags, d))
    requires on <==> draws[|flags|] < Odds(dims - Flagged(flags), dim - |flags|)
    ensures PickedByOdds(dims, dim, draws, flags + [on], d)
  {
    hide Odds, Flagged;
    assert (flags + [on])[..d] == flags[..d];
    assert d == |flags| ==> flags[..d] == flags;
  }

  lemma FlaggedAppend(flags: seq<bool>, on: bool)
    ensures Flagged(flags + [on]) == Flagged(flags) + if on then 1 else 0
  {
    assert (flags + [on])[..|flags|] == flags;
  }

  /** One draw for every dimension of the flat.  However the draws fall, exactly `dims` dimensions are picked, or
      all if there are not so many. */
  method SelectFlat(dims: nat, dim: nat, draws: seq<real>) returns (flags: seq<bool>)
    requires |draws| == dim && forall d | 0 <= d < dim :: 0.0 <= draws[d] < 1.0
    ensures |flags| == dim && Flagged(flags) == if dims <= dim then dims else dim
    ensures ByOdds(dims, dim, draws, flags)
  {
    hide Odds, ByOdds, Flagged;
    flags := [];
    NoFlags(dims, dim, draws);
    var nDim: int := dims;
    for d := 0 to dim
      invariant |flags| == d && nDim >= 0 && Flagged(flags) + nDim == dims
      invariant dims <= dim ==> nDim <= dim - d
      invariant dims > dim ==> Flagged(flags) == d
      invariant ByOdds(dims, dim, draws, flags)
    {
      var left := (dim - d) as real;
      var prob := nDim as real / left;
      Extremes(nDim, dim - d, prob);
      assert 0.0 <= draws[d] < 1.0;
      var on := draws[d] < prob;
      ByOddsAppend(dims, dim, draws, flags, on);
      flags := flags + [on];
      if on {
        nDim := nDim - 1;
      }
    }
  }

  lemma NoFlags(dims: nat, dim: nat, draws: seq<real>)
    requires dim == |draws|
    ensures Flagged([]) == 0 && ByOdds(dims, dim, draws, [])
  {
  }

  /** The probability with which one of `left` dimensions is picked if n of them are to be. */
  function Odds(n: int, left: int): real
    requires left > 0
  {
    n as real / left as real
  }

  lemma Extremes(nDim: nat, left: nat, prob: real)
    requires left > 0 && prob == nDim as real / left as real
    ensures prob == Odds(nDim, left)
    ensures nDim == 0 ==> prob == 0.0
    ensures nDim >= left ==> prob >= 1.0
  {
  }
}
