/** The local-search state machine (DisCrawler/KMean/KMlocal.h, DisCrawler/KMean/KMlocal.cpp): the
    generic run/stage loop with Lloyd's algorithm, the p-swap heuristic and the EZ-hybrid. */
module LocalSearch {
  import opened Vectors
  import opened KcTree
  import opened Neighbors
  import opened Clusters
  import opened Lloyd
  import opened Convergence
  import opened Dampened
  import opened FilterCenters
  import opened Runs

  /** The concrete subclass whose overriding methods apply. */
  datatype Algorithm = Lloyds | PSwap(maxSwaps: int) | EzHybrid

  /** The random choices of one stage: a centre and a data point to swap, and a sample of the data. */
  datatype Draw = Draw(rj: nat, ri: nat, sample: seq<nat>)

  function Min(x: real, y: real): real { if x < y then x else y }

  /** Averages over the same number of points compare like totals. */
  lemma AverageOrder(x: real, y: real, n: int)
    requires n >= 1
    ensures x / n as real < y / n as real <==> x < y
  {
    var a, b, w := x / n as real, y / n as real, n as real;
    assert a * w == x && b * w == y;
    assert (b - a) * w == y - x;
  }

  /** `r >= bound` and `r < bound`, both false of a NaN. */
  predicate AtLeast(r: Ratio, bound: real) { r.Num? && r.v >= bound }

  predicate Less(r: Ratio, bound: real) { r.MinusInfinity? || (r.Num? && r.v < bound) }

  /** The tests of the code are those of the laws of runs. */
  lemma SameLoss(first: real, last: real, bound: real)
    requires first >= 0.0 && last >= 0.0
    ensures Less(Rdl(first, last), bound) == LossBelow(first, last, bound)
    ensures AtMost(Rdl(first, last), bound) == LossAtMost(first, last, bound)
    ensures AtLeast(Rdl(first, last), bound) == LossAtLeast(first, last, bound)
  {
  }

  /** The facts about one undampened Lloyd stage that the search relies on. */
  lemma UndampedStage(t: Tree, pts: seq<Point>, dim: nat, c: seq<Point>, minConsecRDL: real)
    requires Whole(t, pts, dim) && Sized(pts, c, dim)
    requires minConsecRDL >= 0.0 && |Places(pts)| > |c|
    ensures var m := Stage(t, pts, dim, c, 1.0);
      var before, after := Distortion(pts, c, dim), Distortion(pts, m, dim);
      && 0.0 <= after <= before && 0.0 < before
      && (!AtMost(Rdl(before, after), minConsecRDL)
          ==> Rank(pts, dim, |c|, after) < Rank(pts, dim, |c|, before))
  {
    var m := Stage(t, pts, dim, c, 1.0);
    StageNeverRaises(t, pts, dim, c, 1.0);
    ManyPlaces(pts, c, dim);
    DistortionSign(pts, m, dim, |pts|);
    var before, after := Distortion(pts, c, dim), Distortion(pts, m, dim);
    if !AtMost(Rdl(before, after), minConsecRDL) {
      ContinuingImproves(before, after, minConsecRDL);
      RankDrops(t, pts, dim, c);
    }
  }

  /** The least entry of a non-empty history. */
  ghost function Least(trace: seq<real>): (m: real)
    requires trace != []
    ensures m in trace && forall d | d in trace :: m <= d
  {
    var n := |trace| - 1;
    assert trace == trace[..n] + [trace[n]];
    if n == 0 then trace[0] else Min(Least(trace[..n]), trace[n])
  }

  lemma LeastSnoc(trace: seq<real>, d: real)
    requires trace != []
    ensures Least(trace + [d]) == Min(Least(trace), d)
  {
    assert (trace + [d])[..|trace|] == trace;
  }

  /** The initialisers `curr(sol), best(sol)`. */
  method TwoCopies(sol: KMfilterCenters) returns (c: KMfilterCenters, b: KMfilterCenters)
    requires sol.Valid()
    ensures sol.Valid() && c.Valid() && b.Valid()
    ensures fresh(c.Repr() + b.Repr()) && c.Repr() !! b.Repr()
    ensures c.data == b.data == sol.data && c.kCtrs == b.kCtrs == sol.kCtrs
    ensures c.dampFactor == b.dampFactor == sol.dampFactor
  {
    hide KCtree.Valid, TalliesOf, DistsOf, Fits, TallyArrays, AllDim, Tallies;
    c := new KMfilterCenters.Copy(sol);
    assert sol.Valid();
    b := new KMfilterCenters.Copy(sol);
    assert c.Valid();
  }

  /** The centres at reset and after every stage, the methods of the stages, the finished runs (only those of
      Lloyd's algorithm are noted), and the number of the first draw. */
  datatype Record = Record(visited: seq<seq<Point>>, methods: seq<Method>, runs: seq<RunNote>, first: nat)
  {
    ghost function Then(m: Method, c: seq<Point>): Record {
      Record(visited + [c], methods + [m], runs, first)
    }
  }

  /** The variables by which the algorithms control their runs. */
  datatype Controls = Controls(runInitStage: int, isNewPhase: bool, initRunDist: real, areSwapping: bool)

  /** Whether everything is in order (`ok`), and the two sets of centres.  Before the first reset the caches
      of the solutions may have been cleared: then they are only `usable`, and `half` is true once those of
      the current solution are in order. */
  datatype Solutions = Solutions(usable: bool, half: bool, ok: bool, curr: seq<Point>, best: seq<Point>)

  class KMlocal {
    const alg: Algorithm
    const term: Term
    const data: KCtree
    const k: nat
    const df: real
    const curr: KMfilterCenters
    const best: KMfilterCenters
    /** The data points that SetCtrs chooses, always the same. */
    const layered: seq<nat>
    const draws: nat -> Draw
    var drawNo: nat
    var stageNo: int
    var runInitStage: int
    var initRunDist: real
    var isNewPhase: bool
    var swapNo: int
    var areSwapping: bool
    var prevDist: real
    ghost var record: Record

    ghost function Control(): Controls
      reads this`runInitStage, this`isNewPhase, this`initRunDist, this`areSwapping
    {
      Controls(runInitStage, isNewPhase, initRunDist, areSwapping)
    }

    ghost function Objects(): (objects: set<object>)
      reads curr, best
      ensures curr in objects && best in objects
      ensures curr.Repr() <= objects && best.Repr() <= objects
    {
      curr.Repr() + best.Repr()
    }

    /** Both solutions are valid, over the same data and of the same size, and share no storage. */
    ghost predicate Valid()
      reads curr, best, Objects(), data.repr
    {
      && curr.data == best.data == data && curr.kCtrs == best.kCtrs == k
      && curr.dampFactor == best.dampFactor == df
      && curr.Valid() && best.Valid() && curr.Repr() !! best.Repr()
      && this !in Objects() + data.repr
      && |layered| == k && (forall j | 0 <= j < k :: layered[j] < |data.pts|)
      && forall i: nat :: Drawable(draws(i))
    }

    /** The draws are in range, as kmRanInt and the sampling of the data guarantee. */
    ghost predicate Drawable(d: Draw) {
      && d.rj < k && d.ri < |data.pts|
      && |d.sample| == k && forall j | 0 <= j < k :: d.sample[j] < |data.pts|
    }

    /** The two solutions as a value; all that the control methods need to know of the heap. */
    ghost function View(): Solutions
      reads curr, best, Objects(), data.repr
    {
      var half := Valid() && curr.Settled();
      Solutions(Valid(), half, half && best.Settled(), curr.C(), best.C())
    }

    /** The brute-force distortion of `k` centres. */
    ghost function D(c: seq<Point>): (d: real)
      ensures d >= 0.0
    {
      if Sized(data.pts, c, data.dim) then
        DistortionSign(data.pts, c, data.dim, |data.pts|);
        Distortion(data.pts, c, data.dim)
      else 0.0
    }

    /** `k` centres of the dimension of the data. */
    ghost predicate Fitting(c: seq<Point>) {
      Whole(data.root.shape, data.pts, data.dim) && Sized(data.pts, c, data.dim) && |c| == k
    }

    /** KMlocal(sol, term): both solutions start as copies of `sol`. */
    constructor (alg: Algorithm, term: Term, sol: KMfilterCenters, layered: seq<nat>, draws: nat -> Draw)
      requires sol.Valid()
      requires |layered| == sol.kCtrs && forall j | 0 <= j < sol.kCtrs :: layered[j] < |sol.data.pts|
      requires forall i: nat :: var d := draws(i);
        && d.rj < sol.kCtrs && d.ri < |sol.data.pts|
        && |d.sample| == sol.kCtrs && forall j | 0 <= j < sol.kCtrs :: d.sample[j] < |sol.data.pts|
      ensures View().usable && fresh(Objects())
      ensures this.alg == alg && this.term == term && data == sol.data && k == sol.kCtrs && this.layered == layered
      ensures df == sol.dampFactor
    {
      hide KMfilterCenters.Valid, KMfilterCenters.Settled, KCtree.Valid;
      var c, b := TwoCopies(sol);
      this.alg, this.term, this.layered, this.draws, drawNo := alg, term, layered, draws, 0;
      data, k, df, curr, best := sol.data, sol.kCtrs, sol.dampFactor, c, b;
      stageNo := 0;
    }

    // ------------------------------------------------ what the stages do to the two solutions

    /** curr.getDist(). */
    method GetCurrDist() returns (d: real)
      requires View().usable
      modifies curr.Repr()
      ensures View() == old(View()) && Objects() == old(Objects()) && d == D(View().curr)
    {
      hide Fits, KCnode.Linked, KCnode.Bucket, KCnode.Summed, TalliesOf, DistsOf, TallyArrays, Tallies, Distortion;
      d := curr.GetDist(true);
    }

    /** best.getDist(). */
    method GetBestDist() returns (d: real)
      requires View().usable
      modifies best.Repr()
      ensures View() == old(View()) && Objects() == old(Objects()) && d == D(View().best)
    {
      hide Fits, KCnode.Linked, KCnode.Bucket, KCnode.Summed, TalliesOf, DistsOf, TallyArrays, Tallies, Distortion;
      d := best.GetDist(true);
    }

    /** best = curr. */
    method SaveCurr()
      requires View().half
      modifies best.Repr()
      ensures View() == old(View()).(ok := true, best := old(View()).curr) && Objects() == old(Objects())
    {
      hide KCtree.Valid, TalliesOf, DistsOf, TallyArrays, Tallies, Distortion;
      best.Assign(curr);
    }

    /** curr = best. */
    method RestoreBest()
      requires View().ok
      modifies curr.Repr()
      ensures View() == old(View()).(curr := old(View()).best) && Objects() == old(Objects())
    {
      hide KCtree.Valid, TalliesOf, DistsOf, TallyArrays, Tallies, Distortion;
      curr.Assign(best);
    }

    /** curr.SetCenters(), in any state of the caches. */
    method TakeLayered()
      requires View().usable
      modifies curr.Repr()
      ensures View() == old(View()).(half := true, ok := View().ok, curr := View().curr) && Objects() == old(Objects())
      ensures AtData(layered, View().curr)
    {
      hide TalliesOf, DistsOf, TallyArrays, Tallies, Distortion, Fits, KCnode.Linked, KCnode.Bucket, KCnode.Summed;
      curr.TakeCenters(layered);
    }

    /** The switch in execute(): one stage of the selected method on the current solution. */
    method Apply(m: Method, d: Draw)
      requires View().ok && Drawable(d)
      modifies curr.Repr()
      ensures View() == old(View()).(curr := View().curr) && Objects() == old(Objects())
      ensures IsStage(m, old(View()).curr, View().curr, d)
    {
      hide KMlocal.Valid, KMlocal.View, KMlocal.Objects, KMlocal.Fitting, KMlocal.IsSwap, KMlocal.AtData,
        KMlocal.Drawable, Stage;
      match m
      case LLOYD => ApplyLloyd();
      case SWAP => ApplySwap(d);
      case RANDOM => ApplyRandom(d);
    }

    /** curr.lloyd1Stage(). */
    method ApplyLloyd()
      requires View().ok
      modifies curr.Repr()
      ensures View() == old(View()).(curr := View().curr) && Objects() == old(Objects())
      ensures Fitting(old(View()).curr)
      ensures View().curr == Stage(data.root.shape, data.pts, data.dim, old(View()).curr, df)
    {
      hide TalliesOf, DistsOf, TallyArrays, Tallies, Distortion, Fits, KCnode.Linked, KCnode.Bucket, KCnode.Summed, Stage;
      curr.MoveToCentroid();
    }

    /** curr.swap1Stage(). */
    method ApplySwap(d: Draw)
      requires View().ok && Drawable(d)
      modifies curr.Repr()
      ensures View() == old(View()).(curr := View().curr) && Objects() == old(Objects())
      ensures Fitting(old(View()).curr) && IsSwap(old(View()).curr, View().curr, d.rj, d.ri)
    {
      hide TalliesOf, DistsOf, TallyArrays, Tallies, Distortion, Fits, KCnode.Linked, KCnode.Bucket, KCnode.Summed;
      var _ := curr.SwapOneCenter(true, d.rj, _ => d.ri, 0);
    }

    /** curr.genRandom(). */
    method ApplyRandom(d: Draw)
      requires View().ok && Drawable(d)
      modifies curr.Repr()
      ensures View() == old(View()).(curr := View().curr) && Objects() == old(Objects())
      ensures Fitting(old(View()).curr) && AtData(d.sample, View().curr)
    {
      hide TalliesOf, DistsOf, TallyArrays, Tallies, Distortion, Fits, KCnode.Linked, KCnode.Bucket, KCnode.Summed;
      curr.TakeCenters(d.sample);
    }

    /** The centres `c` are the chosen data points. */
    ghost predicate AtData(choice: seq<nat>, c: seq<Point>) {
      |c| == |choice| == k && forall j | 0 <= j < k :: choice[j] < |data.pts| && c[j] == data.pts[choice[j]]
    }

    /** One centre of `a` is replaced by a data point. */
    ghost predicate IsSwap(a: seq<Point>, b: seq<Point>, rj: nat, ri: nat) {
      rj < |a| && ri < |data.pts| && b == a[rj := data.pts[ri]]
    }

    /** What one stage of a method does with the centres, given its draw. */
    ghost predicate IsStage(m: Method, a: seq<Point>, b: seq<Point>, d: Draw) {
      match m
      case LLOYD => IsLloyd(a, b)
      case SWAP => IsSwap(a, b, d.rj, d.ri)
      case RANDOM => AtData(d.sample, b)
    }

    ghost predicate IsLloyd(a: seq<Point>, b: seq<Point>) {
      Fitting(a) && b == Stage(data.root.shape, data.pts, data.dim, a, df)
    }

    lemma SomePoints()
      requires View().ok
      ensures |data.pts| >= 1
    {
    }

    /** The control fields are not part of the solutions, and the draws are in range. */
    lemma InOrder()
      requires View().usable || View().ok
      ensures View().usable && (View().ok ==> View().half)
      ensures this !in Objects() + data.repr && forall i: nat :: Drawable(draws(i))
    {
    }

    // ------------------------------------------------ the overridden methods

    /** isDone(). */
    predicate IsDone()
      reads this`stageNo
    {
      stageNo >= term.maxTotStage
    }

    /** reset(): whatever the state of the caches was, everything is in order afterwards. */
    method Reset()
      requires View().usable
      modifies this, Objects()
      ensures View().ok && View().best == View().curr && Objects() == old(Objects())
      ensures AtData(layered, View().curr) && record == Record([View().curr], [], [], drawNo)
      ensures stageNo == runInitStage == 0 && (alg.Lloyds? ==> !isNewPhase && initRunDist == D(View().curr))
      ensures alg.EzHybrid? ==> areSwapping
    {
      hide *;
      var d := ResetSolutions();
      InOrder();
      ResetControl(d, View().curr);
    }

    /** The part of reset() that concerns the solutions: the chosen data points become the centres. */
    method ResetSolutions() returns (d: real)
      requires View().usable
      modifies Objects()
      ensures View().ok && View().best == View().curr && Objects() == old(Objects())
      ensures AtData(layered, View().curr) && d == D(View().curr)
    {
      hide *;
      TakeLayered();
      d := GetCurrDist();
      SaveCurr();
    }

    /** One draw has been used up. */
    method Drawn()
      requires this !in Objects() + data.repr
      modifies this`drawNo
      ensures View() == old(View()) && Objects() == old(Objects()) && drawNo == old(drawNo) + 1
    {
      hide *;
      drawNo := drawNo + 1;
    }

    method ResetControl(d: real, ghost c: seq<Point>)
      requires this !in Objects() + data.repr
      modifies this`stageNo, this`runInitStage, this`isNewPhase, this`initRunDist, this`areSwapping, this`record
      ensures View() == old(View()) && Objects() == old(Objects())
      ensures stageNo == runInitStage == 0 && record == Record([c], [], [], drawNo)
      ensures alg.Lloyds? ==> !isNewPhase && initRunDist == d
      ensures alg.EzHybrid? ==> areSwapping
    {
      hide *;
      stageNo, runInitStage := 0, 0;
      record := Record([c], [], [], drawNo);
      match alg
      case Lloyds => isNewPhase, initRunDist := false, d;
      case PSwap(_) =>
      case EzHybrid => areSwapping := true;
    }

    /** beginRun(). */
    method BeginRun()
      requires this !in Objects() + data.repr
      modifies this`runInitStage, this`swapNo
      ensures View() == old(View()) && Objects() == old(Objects())
      ensures Control() == old(Control()).(runInitStage := stageNo) && (alg.PSwap? ==> swapNo == 0)
    {
      hide KMlocal.Valid, KMlocal.View, KMlocal.Objects;
      runInitStage := stageNo;
      if alg.PSwap? {
        swapNo := 0;
      }
    }

    /** selectMethod(). */
    function SelectMethod(): Method
      reads this`isNewPhase, this`areSwapping
    {
      match alg
      case Lloyds => if isNewPhase then RANDOM else LLOYD
      case PSwap(_) => SWAP
      case EzHybrid => if areSwapping then SWAP else LLOYD
    }

    lemma Selection()
      ensures SelectMethod() == Chosen(Control())
      ensures Control() == Controls(runInitStage, isNewPhase, initRunDist, areSwapping)
    {
    }

    /** beginStage(): the EZ-hybrid remembers the distortion before the stage. */
    method BeginStage()
      requires View().ok
      modifies this`prevDist, curr.Repr()
      ensures View() == old(View()) && Objects() == old(Objects())
      ensures alg.EzHybrid? ==> prevDist == D(View().curr)
    {
      hide *;
      InOrder();
      if alg.EzHybrid? {
        var d := GetCurrDist();
        InOrder();
        SetPrevDist(d);
      }
    }

    method SetPrevDist(d: real)
      requires this !in Objects() + data.repr
      modifies this`prevDist
      ensures View() == old(View()) && Objects() == old(Objects()) && prevDist == d
    {
      hide *;
      prevDist := d;
    }

    /** selectMethod() and the switch. */
    method PerformStage() returns (m: Method)
      requires View().ok
      modifies this`drawNo, curr.Repr()
      ensures View() == old(View()).(curr := View().curr) && Objects() == old(Objects())
      ensures m == SelectMethod() && IsStage(m, old(View()).curr, View().curr, draws(old(drawNo)))
      ensures drawNo == old(drawNo) + 1
    {
      hide KMlocal.Valid, KMlocal.View, KMlocal.Objects, KMlocal.Fitting, KMlocal.IsSwap, KMlocal.AtData;
      InOrder();
      m := SelectMethod();
      Apply(m, draws(drawNo));
      InOrder();
      Drawn();
    }

    /** endStage(). */
    method EndStage(ghost m: Method)
      requires View().ok
      modifies this`stageNo, this`record, Objects()
      ensures View().ok && View().curr == old(View()).curr && Objects() == old(Objects())
      ensures View().best ==
        if alg.Lloyds? && D(View().curr) < D(old(View()).best) then View().curr else old(View()).best
      ensures stageNo == if alg.PSwap? then old(stageNo) else old(stageNo) + 1
      ensures record == if alg.PSwap? then old(record) else old(record).Then(m, View().curr)
    {
      hide *;
      if !alg.PSwap? {
        InOrder();
        CountStage(m, View().curr);
        if alg.Lloyds? {
          SaveIfBetterOnAverage();
        } else {
          var d := GetCurrDist();
        }
      }
    }

    /** stageNo++, with the method of the stage and the centres after it added to the record. */
    method CountStage(ghost m: Method, ghost c: seq<Point>)
      requires this !in Objects() + data.repr
      modifies this`stageNo, this`record
      ensures View() == old(View()) && Objects() == old(Objects())
      ensures stageNo == old(stageNo) + 1 && record == old(record).Then(m, c)
    {
      hide *;
      stageNo := stageNo + 1;
      record := record.Then(m, c);
    }

    /** `if (curr.getAvgDist() < best.getAvgDist()) best = curr`. */
    method SaveIfBetterOnAverage()
      requires View().ok
      modifies Objects()
      ensures var was := old(View());
        View() == was.(best := if D(was.curr) < D(was.best) then was.curr else was.best)
      ensures Objects() == old(Objects())
    {
      hide *;
      SomePoints();
      InOrder();
      var c := GetCurrDist();
      var b := GetBestDist();
      AverageOrder(c, b, |data.pts|);
      if c / |data.pts| as real < b / |data.pts| as real {
        SaveCurr();
      }
    }

    /** Lloyd's algorithm: a run is done after too many stages, or with enough accumulated loss; the first
        stage of a phase only sets what the loss is measured from. */
    ghost predicate LloydsDone(stage: int, b: Controls, c: Controls, d: real, done: bool)
      requires b.initRunDist >= 0.0 && d >= 0.0
    {
      var tooMany := stage >= term.maxTotStage || stage - b.runInitStage >= term.maxRunStage;
      && done == (tooMany || (!b.isNewPhase && AtLeast(Rdl(b.initRunDist, d), term.minAccumRDL)))
      && c == b.(isNewPhase := tooMany && b.isNewPhase,
                 initRunDist := if !tooMany && b.isNewPhase then d else b.initRunDist)
    }

    /** The swap heuristic: the total limit is tested first, and then the swap is not counted. */
    ghost predicate SwapDone(stage: int, before: int, swaps: int, done: bool)
      requires alg.PSwap?
    {
      && swaps == (if stage >= term.maxTotStage then before else before + 1)
      && done == (stage >= term.maxTotStage || swaps >= alg.maxSwaps)
    }

    /** The EZ-hybrid: after the swap a run is never done, later exactly when the loss since the last stage is
        at most the threshold. */
    ghost predicate EzDone(prev: real, b: Controls, c: Controls, d: real, done: bool)
      requires prev >= 0.0 && d >= 0.0
    {
      && done == (!b.areSwapping && AtMost(Rdl(prev, d), term.minConsecRDL))
      && c == b.(areSwapping := false)
    }

    /** isRunDone(). */
    method IsRunDone() returns (done: bool)
      requires View().ok
      requires (alg.Lloyds? ==> Control().initRunDist >= 0.0) && (alg.EzHybrid? ==> prevDist >= 0.0)
      modifies this`isNewPhase, this`initRunDist, this`swapNo, this`areSwapping, curr.Repr()
      ensures View() == old(View()) && Objects() == old(Objects())
      ensures match alg
        case Lloyds => LloydsDone(stageNo, old(Control()), Control(), D(View().curr), done)
        case PSwap(_) => SwapDone(stageNo, old(swapNo), swapNo, done)
        case EzHybrid => EzDone(prevDist, old(Control()), Control(), D(View().curr), done)
    {
      hide *;
      match alg
      case Lloyds => done := LloydsRunDone();
      case PSwap(_) => done := SwapRunDone();
      case EzHybrid => done := EzRunDone();
    }

    /** KMlocalLloyds::isRunDone. */
    method LloydsRunDone() returns (done: bool)
      requires View().ok && alg.Lloyds? && Control().initRunDist >= 0.0
      modifies this`isNewPhase, this`initRunDist, curr.Repr()
      ensures View() == old(View()) && Objects() == old(Objects())
      ensures LloydsDone(stageNo, old(Control()), Control(), D(View().curr), done)
    {
      hide KMlocal.Valid, KMlocal.View, KMlocal.Objects, KMlocal.D, Rdl;
      InOrder();
      if IsDone() || stageNo - runInitStage >= term.maxRunStage {
        return true;
      }
      var d := GetCurrDist();
      if isNewPhase {
        SetPhase(false, d);
        return false;
      }
      done := AtLeast(Rdl(initRunDist, d), term.minAccumRDL);
    }

    method SetPhase(newPhase: bool, d: real)
      requires this !in Objects() + data.repr
      modifies this`isNewPhase, this`initRunDist
      ensures View() == old(View()) && Objects() == old(Objects())
      ensures isNewPhase == newPhase && initRunDist == d
    {
      hide *;
      isNewPhase := newPhase;
      initRunDist := d;
    }

    /** KMlocalSwap::isRunDone. */
    method SwapRunDone() returns (done: bool)
      requires View().ok && alg.PSwap?
      modifies this`swapNo
      ensures View() == old(View()) && Objects() == old(Objects())
      ensures SwapDone(stageNo, old(swapNo), swapNo, done)
    {
      hide KMlocal.Valid, KMlocal.View, KMlocal.Objects;
      InOrder();
      if IsDone() {
        return true;
      }
      SetSwapNo(swapNo + 1);
      done := swapNo >= alg.maxSwaps;
    }

    method SetSwapNo(n: int)
      requires this !in Objects() + data.repr
      modifies this`swapNo
      ensures View() == old(View()) && Objects() == old(Objects()) && swapNo == n
    {
      hide *;
      swapNo := n;
    }

    /** KMlocalEZ_Hybrid::isRunDone. */
    method EzRunDone() returns (done: bool)
      requires View().ok && alg.EzHybrid? && prevDist >= 0.0
      modifies this`areSwapping, curr.Repr()
      ensures View() == old(View()) && Objects() == old(Objects())
      ensures EzDone(prevDist, old(Control()), Control(), D(View().curr), done)
    {
      hide KMlocal.Valid, KMlocal.View, KMlocal.Objects, KMlocal.D, Rdl, AtMost;
      InOrder();
      if areSwapping {
        SetSwapping(false);
        return false;
      }
      var d := GetCurrDist();
      done := AtMost(Rdl(prevDist, d), term.minConsecRDL);
    }

    method SetSwapping(b: bool)
      requires this !in Objects() + data.repr
      modifies this`areSwapping
      ensures View() == old(View()) && Objects() == old(Objects()) && areSwapping == b
    {
      hide *;
      areSwapping := b;
    }

    /** The end of a run of Lloyd's algorithm: after too little loss a new phase begins, after enough the next run
        measures its loss from here. */
    ghost predicate LloydsEnded(b: Controls, c: Controls, d: real)
      requires b.initRunDist >= 0.0 && d >= 0.0
    {
      var failed := Less(Rdl(b.initRunDist, d), term.minAccumRDL);
      c == b.(isNewPhase := failed || b.isNewPhase, initRunDist := if failed then b.initRunDist else d)
    }

    /** endRun(). */
    method EndRun()
      requires View().ok && (alg.Lloyds? ==> Control().initRunDist >= 0.0)
      modifies this`isNewPhase, this`initRunDist, this`stageNo, this`record, this`areSwapping, curr.Repr()
      ensures View() == old(View()) && Objects() == old(Objects())
      ensures stageNo == if alg.PSwap? then old(stageNo) + 1 else old(stageNo)
      ensures record == match alg
        case Lloyds => old(record).(runs := old(record).runs + [Note(old(record), old(Control()).initRunDist)])
        case PSwap(_) => old(record).Then(SWAP, View().curr)
        case EzHybrid => old(record)
      ensures alg.Lloyds? ==> LloydsEnded(old(Control()), Control(), D(View().curr))
      ensures alg.EzHybrid? ==> Control() == old(Control()).(areSwapping := true)
    {
      hide KMlocal.Valid, KMlocal.View, KMlocal.Objects, KMlocal.D, KMlocal.Note, Rdl, Less;
      InOrder();
      match alg
      case Lloyds =>
        var d := GetCurrDist();
        InOrder();
        NoteRun(Note(record, initRunDist));
        if Less(Rdl(initRunDist, d), term.minAccumRDL) {
          SetPhase(true, initRunDist);
        } else {
          SetPhase(isNewPhase, d);
        }
      case PSwap(_) =>
        var d := GetCurrDist();
        InOrder();
        CountStage(SWAP, View().curr);
      case EzHybrid =>
        SetSwapping(true);
    }

    /** The finished run is added to the record. */
    ghost method NoteRun(run: RunNote)
      requires this !in Objects() + data.repr
      modifies this`record
      ensures View() == old(View()) && Objects() == old(Objects())
      ensures record == old(record).(runs := old(record).runs + [run])
    {
      hide *;
      record := record.(runs := record.runs + [run]);
    }

    /** tryAcceptance(): the better solution is saved; the swap heuristic returns to it otherwise. */
    method TryAcceptance()
      requires View().ok
      modifies Objects()
      ensures Objects() == old(Objects())
      ensures var c, b := old(View()).curr, old(View()).best;
        View() == old(View()).(best := if D(c) < D(b) then c else b,
                               curr := if alg.PSwap? && !(D(c) < D(b)) then b else c)
    {
      hide *;
      InOrder();
      var c := GetCurrDist();
      var b := GetBestDist();
      if c < b {
        SaveCurr();
      } else if alg.PSwap? {
        RestoreBest();
      }
    }

    // ------------------------------------------------ the record of a search

    /** The distortions of the record. */
    ghost function Trace(visited: seq<seq<Point>>): (trace: seq<real>)
      ensures |trace| == |visited| && forall i | 0 <= i < |trace| :: trace[i] == D(visited[i])
    {
      seq(|visited|, i requires 0 <= i < |visited| => D(visited[i]))
    }

    /** The solution that is kept: a later one only if it is strictly better. */
    ghost function Kept(visited: seq<seq<Point>>): (kept: seq<Point>)
      requires visited != []
      ensures kept in visited
      decreases |visited|
    {
      var n := |visited| - 1;
      if n == 0 then visited[0]
      else
        var kept := Kept(visited[..n]);
        if D(visited[n]) < D(kept) then visited[n] else kept
    }

    /** `b` comes from `a` by n replacements of a centre by a data point, with the draws from `from` on. */
    ghost predicate SwapsFrom(a: seq<Point>, b: seq<Point>, from: nat, n: nat)
      decreases n
    {
      if n == 0 then a == b
      else
        var d := draws(from + n - 1);
        exists m :: SwapsFrom(a, m, from, n - 1) && IsSwap(m, b, d.rj, d.ri)
    }

    /** The number of swaps in a stage of the swap heuristic. */
    ghost function Swaps(): nat
      requires alg.PSwap?
    {
      if alg.maxSwaps <= 1 then 1 else alg.maxSwaps
    }

    /** How many draws `n` stages take. */
    ghost function Taken(n: nat): nat { if alg.PSwap? then n * Swaps() else n }

    /** What the next stage may do, after those that led to `visited`, with the draws from `from` on: Lloyd's
        algorithm and the EZ-hybrid go on from the last centres, the swap heuristic from the ones it has kept. */
    ghost predicate MayFollow(visited: seq<seq<Point>>, m: Method, c: seq<Point>, from: nat)
      requires visited != []
    {
      match alg
      case Lloyds => m != SWAP && IsStage(m, visited[|visited| - 1], c, draws(from))
      case PSwap(_) => m == SWAP && SwapsFrom(Kept(visited), c, from, Swaps())
      case EzHybrid => m != RANDOM && IsStage(m, visited[|visited| - 1], c, draws(from))
    }

    /** The search started at the centres chosen by SetCtrs and has gone on by such stages. */
    ghost predicate Lawful(r: Record) {
      && |r.visited| == |r.methods| + 1 && AtData(layered, r.visited[0])
      && forall i | 0 <= i < |r.methods| ::
        MayFollow(r.visited[..i + 1], r.methods[i], r.visited[i + 1], r.first + Taken(i))
    }

    lemma LawfulThen(r: Record, m: Method, c: seq<Point>)
      requires Lawful(r) && MayFollow(r.visited, m, c, r.first + Taken(|r.methods|))
      ensures Lawful(r.Then(m, c))
    {
      hide KMlocal.MayFollow, KMlocal.AtData, KMlocal.Taken;
      var next := r.Then(m, c);
      forall i | 0 <= i < |next.methods|
        ensures MayFollow(next.visited[..i + 1], next.methods[i], next.visited[i + 1], next.first + Taken(i))
      {
        assert i < |r.methods| ==> next.visited[..i + 1] == r.visited[..i + 1];
        assert i == |r.methods| ==> next.visited[..i + 1] == r.visited;
      }
    }

    /** The record so far is lawful, and its least distortion is that of the saved solution, or, if `either`,
        of the better one of the two; the saved one is in the record, and for all but the EZ-hybrid it is the kept
        one.  The current solution is the last of the record, or, for the swap heuristic, has been reached from the
        saved one by `swaps` swaps.  `draw` comes next. */
    ghost predicate Sound(r: Record, stages: int, v: Solutions, either: bool, swaps: int, draw: nat) {
      && Lawful(r) && stages == |r.methods| && |r.visited| == stages + 1
      && draw == r.first + Taken(stages) + swaps
      && Least(Trace(r.visited)) == (if either then Min(D(v.best), D(v.curr)) else D(v.best))
      && (if alg.EzHybrid? then v.best in r.visited else v.best == Kept(r.visited))
      && if alg.PSwap? then swaps >= 0 && SwapsFrom(v.best, v.curr, draw - swaps, swaps)
         else swaps == 0 && v.curr == r.visited[|r.methods|]
    }

    lemma TraceThen(visited: seq<seq<Point>>, c: seq<Point>)
      requires visited != []
      ensures Least(Trace(visited + [c])) == Min(Least(Trace(visited)), D(c))
      ensures Kept(visited + [c]) == if D(c) < D(Kept(visited)) then c else Kept(visited)
    {
      hide KMlocal.D;
      assert Trace(visited + [c]) == Trace(visited) + [D(c)];
      LeastSnoc(Trace(visited), D(c));
      assert (visited + [c])[..|visited|] == visited;
    }

    lemma SoundAtReset(v: Solutions, draw: nat)
      requires AtData(layered, v.curr) && v.best == v.curr
      ensures Sound(Record([v.curr], [], [], draw), 0, v, false, 0, draw)
    {
      hide KMlocal.AtData, KMlocal.D;
      assert Trace([v.curr])[0] == D(v.curr);
    }

    /** A Lloyd stage never raises the distortion. */
    lemma LloydFalls(c: seq<Point>, m: seq<Point>)
      requires IsLloyd(c, m) && 0.0 <= df <= 1.0
      ensures D(m) <= D(c)
    {
      StageNeverRaises(data.root.shape, data.pts, data.dim, c, df);
    }

    /** A stage of Lloyd's algorithm or of the EZ-hybrid, with the saved solution kept up to date by the
        former. */
    lemma StageRecorded(r: Record, stages: int, v: Solutions, w: Solutions, m: Method, either: bool, draw: nat)
      requires !alg.PSwap? && Sound(r, stages, v, either, 0, draw) && IsStage(m, v.curr, w.curr, draws(draw))
      requires if alg.Lloyds? then m != SWAP && !either else m == if either then LLOYD else SWAP
      requires either ==> 0.0 <= df <= 1.0
      requires w.best == if alg.Lloyds? && D(w.curr) < D(v.best) then w.curr else v.best
      ensures Sound(r.Then(m, w.curr), stages + 1, w, alg.EzHybrid?, 0, draw + 1)
    {
      hide KMlocal.D, KMlocal.IsLloyd, KMlocal.Kept, KMlocal.Lawful, Least;
      LawfulThen(r, m, w.curr);
      TraceThen(r.visited, w.curr);
      if either {
        LloydFalls(v.curr, w.curr);
      }
    }

    /** One more swap within a stage of the swap heuristic. */
    lemma SwapRecorded(r: Record, stages: int, v: Solutions, w: Solutions, swaps: int, draw: nat)
      requires alg.PSwap? && Sound(r, stages, v, false, swaps, draw)
      requires IsStage(SWAP, v.curr, w.curr, draws(draw)) && w.best == v.best
      ensures Sound(r, stages, w, false, swaps + 1, draw + 1)
    {
      hide KMlocal.D, KMlocal.Lawful, Least, KMlocal.IsSwap, KMlocal.Taken;
    }

    /** The end of a run of the swap heuristic, which is its stage: the search goes on from the better solution,
        which is saved. */
    lemma SwapRunRecorded(r: Record, stages: int, v: Solutions, w: Solutions, draw: nat)
      requires alg.PSwap? && Sound(r, stages, v, false, Swaps(), draw)
      requires w.best == w.curr == if D(v.curr) < D(v.best) then v.curr else v.best
      ensures Sound(r.Then(SWAP, v.curr), stages + 1, w, false, 0, draw)
    {
      hide KMlocal.D, KMlocal.Lawful, KMlocal.SwapsFrom, KMlocal.Kept, Least;
      LawfulThen(r, SWAP, v.curr);
      TraceThen(r.visited, v.curr);
      NoSwapYet(w.curr, draw);
    }

    lemma NoSwapYet(c: seq<Point>, from: nat)
      ensures SwapsFrom(c, c, from, 0)
    {
    }

    /** The end of a run of the others: the better solution is saved. */
    lemma RunRecorded(r: Record, stages: int, v: Solutions, w: Solutions, swaps: int, draw: nat)
      requires !alg.PSwap? && Sound(r, stages, v, alg.EzHybrid?, swaps, draw)
      requires w == v.(best := if D(v.curr) < D(v.best) then v.curr else v.best)
      ensures Sound(r, stages, w, false, 0, draw)
    {
      hide KMlocal.D, KMlocal.Lawful, Least;
      if alg.Lloyds? {
        LastIsListed(r, v.curr);
      }
    }

    lemma SoundAfterNote(r: Record, runs: seq<RunNote>, stages: int, v: Solutions, draw: nat)
      requires Sound(r, stages, v, false, 0, draw)
      ensures Sound(r.(runs := runs), stages, v, false, 0, draw)
    {
      hide KMlocal.MayFollow, KMlocal.D, KMlocal.AtData, Least;
    }

    /** The last solution of the record is not better than the least. */
    lemma LastIsListed(r: Record, c: seq<Point>)
      requires Lawful(r) && r.visited[|r.methods|] == c
      ensures Least(Trace(r.visited)) <= D(c)
    {
      assert Trace(r.visited)[|r.methods|] == D(c);
      assert D(c) in Trace(r.visited);
    }

    /** So a lawful record rises only at swaps and restarts. */
    lemma LawfulFalls(r: Record, i: nat)
      requires Lawful(r) && i < |r.methods| && r.methods[i] == LLOYD && 0.0 <= df <= 1.0
      ensures D(r.visited[i + 1]) <= D(r.visited[i])
    {
      hide KMlocal.D, KMlocal.IsLloyd;
      assert MayFollow(r.visited[..i + 1], LLOYD, r.visited[i + 1], r.first + Taken(i));
      LloydFalls(r.visited[i], r.visited[i + 1]);
    }

    // ------------------------------------------------ the control of the runs

    /** The method that the control variables select. */
    ghost function Chosen(c: Controls): Method {
      match alg
      case Lloyds => if c.isNewPhase then RANDOM else LLOYD
      case PSwap(_) => SWAP
      case EzHybrid => if c.areSwapping then SWAP else LLOYD
    }

    /** The record obeys the law of runs as far as it goes, within a run that is `open` or has been found done,
        and the control variables agree with it. */
    ghost predicate Ruled(r: Record, open: bool, c: Controls) {
      var trace := Trace(r.visited);
      match alg
      case Lloyds =>
        && c.runInitStage == NextStart(r.runs) && c.initRunDist >= 0.0
        && if open then LloydOpen(term, trace, r.methods, r.runs, c.isNewPhase, c.initRunDist)
           else LloydDone(term, trace, r.methods, r.runs, c.isNewPhase, c.initRunDist)
      case PSwap(_) => true
      case EzHybrid =>
        && EzRuns(term, trace, r.methods)
        && NextEz(term, trace, r.methods) == if open && !c.areSwapping then LLOYD else SWAP
    }

    /** The law of the whole record. */
    ghost predicate RunLaw(r: Record) {
      match alg
      case Lloyds => LloydLaw(term, Trace(r.visited), r.methods, r.runs)
      case PSwap(_) => true
      case EzHybrid => EzLaw(term, Trace(r.visited), r.methods)
    }

    /** Between runs. */
    ghost predicate Ready()
      reads this
    {
      && Ruled(record, true, Control().(runInitStage := stageNo)) && RunLaw(record)
      && (alg.EzHybrid? ==> areSwapping)
    }

    lemma RuledAtReset(r: Record, c: Controls)
      requires |r.visited| == 1 && r.methods == [] && r.runs == []
      requires alg.Lloyds? ==> c.runInitStage == 0 && !c.isNewPhase && c.initRunDist == D(r.visited[0])
      requires alg.EzHybrid? ==> c.areSwapping
      ensures Ruled(r, true, c) && RunLaw(r)
    {
      hide KMlocal.D;
    }

    /** A stage of Lloyd's algorithm keeps the law, if the run is tested as isRunDone() does. */
    lemma LloydRuled(r: Record, m: seq<Point>, b: Controls, c: Controls, done: bool)
      requires alg.Lloyds? && Ruled(r, true, b) && |r.methods| < term.maxTotStage
      requires LloydsDone(|r.methods| + 1, b, c, D(m), done)
      ensures Ruled(r.Then(Chosen(b), m), !done, c)
    {
      hide KMlocal.D, Rdl, AtLeast, LossAtLeast, LloydOpen, LloydDone;
      var n := |r.methods| + 1;
      SameLoss(b.initRunDist, D(m), term.minAccumRDL);
      assert Trace(r.visited + [m]) == Trace(r.visited) + [D(m)];
      LloydStage(term, Trace(r.visited), r.methods, r.runs, b.isNewPhase, b.initRunDist, Chosen(b), D(m),
        n >= term.maxTotStage || n - b.runInitStage >= term.maxRunStage, done);
    }

    /** And so does a stage of the EZ-hybrid. */
    lemma EzRuled(r: Record, m: seq<Point>, b: Controls, c: Controls, prev: real, done: bool)
      requires alg.EzHybrid? && Ruled(r, true, b) && prev == D(r.visited[|r.methods|])
      requires b.areSwapping ==> |r.methods| < term.maxTotStage
      requires EzDone(prev, b, c, D(m), done)
      ensures Ruled(r.Then(Chosen(b), m), !done, c)
    {
      hide KMlocal.D, Rdl, AtMost, LossAtMost, EzRuns;
      SameLoss(prev, D(m), term.minConsecRDL);
      assert Trace(r.visited + [m]) == Trace(r.visited) + [D(m)];
      EzAppended(term, Trace(r.visited), r.methods, D(m));
    }

    /** The finished run of Lloyd's algorithm. */
    ghost function Note(r: Record, initRunDist: real): RunNote {
      RunNote(NextStart(r.runs), |r.methods|, NextRestart(term, Trace(r.visited), r.runs), initRunDist)
    }

    /** endRun() keeps the law. */
    lemma RunRuled(r: Record, w: Record, b: Controls, c: Controls, stages: int, v: Solutions, swaps: int, draw: nat)
      requires Ruled(r, false, b) && Sound(r, stages, v, alg.EzHybrid?, swaps, draw)
      requires alg.Lloyds? ==> w == r.(runs := r.runs + [Note(r, b.initRunDist)]) && LloydsEnded(b, c, D(v.curr))
      requires alg.EzHybrid? ==> w == r && c == b.(areSwapping := true)
      ensures Ruled(w, true, c.(runInitStage := stages)) && RunLaw(w)
    {
      hide KMlocal.D, Rdl, Less, LossBelow, LossAtMost, LloydOpen, LloydDone, EzRuns, NextRestart, KMlocal.Lawful, Least;
      if alg.Lloyds? {
        SameLoss(b.initRunDist, D(v.curr), term.minAccumRDL);
        LloydRunEnds(term, Trace(r.visited), r.methods, r.runs, b.isNewPhase, b.initRunDist);
      }
    }

    // ------------------------------------------------ what the law says

    lemma FirstMethod(r: Record)
      requires Lawful(r) && RunLaw(r) && r.methods != []
      ensures r.methods[0] == if alg.Lloyds? then LLOYD else SWAP
    {
      hide KMlocal.D, KMlocal.IsStage, KMlocal.AtData, KMlocal.SwapsFrom, KMlocal.Kept, LloydLaw, EzLaw;
      match alg
      case Lloyds => FirstStage(term, Trace(r.visited), r.methods, r.runs, 0);
      case PSwap(_) => assert MayFollow(r.visited[..1], r.methods[0], r.visited[1], r.first + Taken(0));
      case EzHybrid => EzStages(term, Trace(r.visited), r.methods, 0);
    }

    /** A Lloyd stage ends its run exactly if there was a distortion to lose and the loss was at most the
        threshold. */
    lemma EzEndsExactlyWhen(r: Record, i: nat)
      requires alg.EzHybrid? && Lawful(r) && RunLaw(r) && 0.0 <= df <= 1.0
      requires i < |r.methods| && r.methods[i] == LLOYD
      ensures var before, after := D(r.visited[i]), D(r.visited[i + 1]);
        i + 1 == |r.methods| || r.methods[i + 1] == SWAP
        <==> before > 0.0 && (before - after) / before <= term.minConsecRDL
    {
      hide KMlocal.D, KMlocal.MayFollow, KMlocal.AtData, EzLaw;
      EzStages(term, Trace(r.visited), r.methods, i);
      LawfulFalls(r, i);
    }

    /** The test after `j` more Lloyd stages from the centres `c`, and the next one (see Convergence.Stops). */
    ghost predicate StopsAfter(c: seq<Point>, j: nat) {
      Fitting(c) && Stops(data.root.shape, data.pts, data.dim, c, df, term.minConsecRDL, j)
    }

    /** The `j`-th centres from `c` on. */
    ghost function LloydFrom(c: seq<Point>, j: nat): seq<Point> {
      if Fitting(c) then Orbit(data.root.shape, data.pts, data.dim, c, df, j) else c
    }

    /** The distortions of a Lloyd phase are those of its centres. */
    lemma StopsAfterIs(c: seq<Point>, j: nat)
      requires Fitting(c)
      ensures LloydFrom(c, 0) == c
      ensures StopsAfter(c, j) <==> LossAtMost(D(LloydFrom(c, j)), D(LloydFrom(c, j + 1)), term.minConsecRDL)
    {
      hide Stage, LossAtMost, AtMost, Rdl;
      SameLoss(D(LloydFrom(c, j)), D(LloydFrom(c, j + 1)), term.minConsecRDL);
    }

    lemma NextFrom(c: seq<Point>, j: nat, m: seq<Point>)
      requires Fitting(c) && IsLloyd(LloydFrom(c, j), m)
      ensures m == LloydFrom(c, j + 1)
    {
      hide Stage;
    }

    /** Stage `n` of a record, with what comes after it. */
    lemma EzStageAt(r: Record, n: nat)
      requires alg.EzHybrid? && Lawful(r) && RunLaw(r) && n < |r.methods|
      ensures r.methods[n] == SWAP ==> n + 1 < |r.methods| && r.methods[n + 1] == LLOYD
      ensures r.methods[n] == LLOYD ==> IsLloyd(r.visited[n], r.visited[n + 1])
      ensures r.methods[n] == LLOYD ==>
        (n + 1 == |r.methods| || r.methods[n + 1] == SWAP
         <==> LossAtMost(D(r.visited[n]), D(r.visited[n + 1]), term.minConsecRDL))
      ensures r.methods[n] != RANDOM
    {
      hide KMlocal.D, KMlocal.IsLloyd, KMlocal.AtData, EzLaw, LossAtMost;
      EzStages(term, Trace(r.visited), r.methods, n);
      assert MayFollow(r.visited[..n + 1], r.methods[n], r.visited[n + 1], r.first + Taken(n));
    }

    /** After a swap the EZ-hybrid makes Lloyd stages as long as the test is not met. */
    lemma {:induction false} EzGoesOn(r: Record, i: nat, c: seq<Point>, j: nat)
      requires alg.EzHybrid? && Lawful(r) && RunLaw(r)
      requires i < |r.methods| && r.methods[i] == SWAP && r.visited[i + 1] == c
      requires forall l: nat | l < j :: !StopsAfter(c, l)
      ensures i + 1 + j < |r.methods| && r.methods[i + 1 + j] == LLOYD && Fitting(c)
      ensures r.visited[i + 1 + j] == LloydFrom(c, j) && r.visited[i + 2 + j] == LloydFrom(c, j + 1)
      ensures StopsAfter(c, j) <==> i + 2 + j == |r.methods| || r.methods[i + 2 + j] == SWAP
    {
      hide KMlocal.D, KMlocal.StopsAfter, KMlocal.RunLaw, KMlocal.MayFollow, KMlocal.AtData, KMlocal.LloydFrom,
        KMlocal.Fitting, Stage, LossAtMost;
      EzStageAt(r, i);
      if j > 0 {
        EzGoesOn(r, i, c, j - 1);
      }
      var n := i + 1 + j;
      EzStageAt(r, n);
      StopsAfterIs(c, j);
      NextFrom(c, j, r.visited[n + 1]);
    }

    /** So a Lloyd phase has exactly one stage more than the least number after which the test is met. */
    lemma EzPhase(r: Record, i: nat, c: seq<Point>, n: nat)
      requires alg.EzHybrid? && Lawful(r) && RunLaw(r)
      requires i < |r.methods| && r.methods[i] == SWAP && r.visited[i + 1] == c
      requires StopsAfter(c, n) && forall j: nat | j < n :: !StopsAfter(c, j)
      ensures i + 1 + n < |r.methods| && (i + 2 + n == |r.methods| || r.methods[i + 2 + n] == SWAP)
      ensures forall j | i < j <= i + 1 + n :: r.methods[j] == LLOYD && r.visited[j + 1] == LloydFrom(c, j - i)
    {
      hide KMlocal.StopsAfter, KMlocal.LloydFrom, KMlocal.MayFollow, KMlocal.RunLaw, KMlocal.Fitting;
      EzGoesOn(r, i, c, n);
      forall j | i < j <= i + 1 + n ensures r.methods[j] == LLOYD && r.visited[j + 1] == LloydFrom(c, j - i) {
        EzGoesOn(r, i, c, j - i - 1);
      }
    }

    // ------------------------------------------------ runs

    /** What the EZ-hybrid needs to finish every Lloyd phase (see Dampened.EndsExactlyWhen). */
    ghost predicate Terminating() {
      alg.EzHybrid? ==> 0.0 <= df <= 1.0 && MeetsThreshold(df, term.minConsecRDL) && |Places(data.pts)| > k
    }

    /** How many stages, at most, a Lloyd phase can still go on from distortion `d`: without dampening, the
        partitions left; otherwise, with a positive threshold, the drops left. */
    ghost function Steps(d: real): int {
      if !Whole(data.root.shape, data.pts, data.dim) || k == 0 || |Places(data.pts)| <= k then 0
      else if df == 1.0 then Rank(data.pts, data.dim, k, d)
      else if term.minConsecRDL > 0.0 then
        Drops(d, Drop(data.root.shape, data.pts, data.dim, k, term.minConsecRDL))
      else 0
    }

    /** How many stages, at most, the run can go on; not known for a dampened EZ-hybrid before its swap. */
    ghost function Budget(): int
      reads this, curr, best, Objects(), data.repr
    {
      match alg
      case Lloyds => if stageNo < term.maxTotStage then term.maxTotStage - stageNo + 1 else 1
      case PSwap(m) => if swapNo < m then m - swapNo + 1 else 1
      case EzHybrid => if areSwapping then Pow(k, |data.pts|) + 2 else Steps(D(View().curr)) + 1
    }

    /** A Lloyd stage of the EZ-hybrid leaves fewer steps unless the run is then found done. */
    lemma EzStage(c: seq<Point>, m: seq<Point>)
      requires Terminating() && alg.EzHybrid? && IsLloyd(c, m)
      ensures !AtMost(Rdl(D(c), D(m)), term.minConsecRDL) ==> Steps(D(m)) < Steps(D(c))
    {
      hide Whole, Rank, Drops, Stage, Places, AtMost;
      var t, pts, dim := data.root.shape, data.pts, data.dim;
      if df == 1.0 {
        UndampedStage(t, pts, dim, c, term.minConsecRDL);
      } else if term.minConsecRDL > 0.0 {
        if !AtMost(Rdl(D(c), D(m)), term.minConsecRDL) {
          ContinuingHasFewerDrops(t, pts, dim, c, m, term.minConsecRDL);
        }
      } else {
        FrozenStage(t, pts, dim, c);
        FrozenIsDone(c);
      }
    }

    lemma FrozenIsDone(c: seq<Point>)
      requires Fitting(c) && |Places(data.pts)| > k
      ensures AtMost(Rdl(D(c), D(c)), 0.0)
    {
      ManyPlaces(data.pts, c, data.dim);
    }

    lemma StepsBound(d: real)
      requires d >= 0.0
      ensures Steps(d) >= 0 && (df == 1.0 ==> Steps(d) <= Pow(k, |data.pts|))
    {
      if Whole(data.root.shape, data.pts, data.dim) {
        RankBound(data.pts, data.dim, k, d);
      }
    }

    /** What one stage adds to the record. */
    lemma BodyRecorded(r: Record, stages: int, v: Solutions, w: Solutions, b: Controls, swaps: int, draw: nat)
      requires Sound(r, stages, v, alg.EzHybrid? && !b.areSwapping, swaps, draw) && (alg.EzHybrid? ==> 0.0 <= df <= 1.0)
      requires IsStage(Chosen(b), v.curr, w.curr, draws(draw))
      requires w.best == if alg.Lloyds? && D(w.curr) < D(v.best) then w.curr else v.best
      ensures alg.PSwap? ==> Sound(r, stages, w, false, swaps + 1, draw + 1)
      ensures !alg.PSwap? ==> Sound(r.Then(Chosen(b), w.curr), stages + 1, w, alg.EzHybrid?, 0, draw + 1)
      ensures alg.EzHybrid? && !b.areSwapping ==> IsLloyd(v.curr, w.curr)
    {
      hide KMlocal.Sound, KMlocal.D, KMlocal.IsLloyd, KMlocal.IsSwap, KMlocal.AtData;
      if alg.PSwap? {
        SwapRecorded(r, stages, v, w, swaps, draw);
      } else {
        NoSwaps(r, stages, v, alg.EzHybrid? && !b.areSwapping, swaps, draw);
        StageRecorded(r, stages, v, w, Chosen(b), alg.EzHybrid? && !b.areSwapping, draw);
      }
    }

    lemma NoSwaps(r: Record, stages: int, v: Solutions, either: bool, swaps: int, draw: nat)
      requires Sound(r, stages, v, either, swaps, draw)
      ensures stages == |r.methods| && |r.visited| == stages + 1
      ensures !alg.PSwap? ==> swaps == 0 && v.curr == r.visited[stages]
    {
    }

    /** The swaps already made in the stage that is under way. */
    ghost function SwapsSoFar(): int
      reads this`swapNo
    {
      if alg.PSwap? then swapNo else 0
    }

    /** beginStage(), the switch and endStage(). */
    method StageBody()
      requires View().ok && (alg.EzHybrid? ==> 0.0 <= df <= 1.0)
      requires Sound(record, stageNo, View(), alg.EzHybrid? && !Control().areSwapping, SwapsSoFar(), drawNo)
      modifies this`prevDist, this`drawNo, this`stageNo, this`record, Objects()
      ensures View().ok && Objects() == old(Objects())
      ensures stageNo == if alg.PSwap? then old(stageNo) else old(stageNo) + 1
      ensures Sound(record, stageNo, View(), alg.EzHybrid?, if alg.PSwap? then SwapsSoFar() + 1 else 0, drawNo)
      ensures record == if alg.PSwap? then old(record) else old(record).Then(Chosen(Control()), View().curr)
      ensures alg.EzHybrid? ==> prevDist == D(old(View()).curr)
      ensures alg.EzHybrid? && !Control().areSwapping ==> IsLloyd(old(View()).curr, View().curr)
    {
      hide *;
      InOrder();
      Selection();
      ghost var v := View();
      BeginStage();
      var m := PerformStage();
      EndStage(m);
      BodyRecorded(old(record), old(stageNo), v, View(), Control(), SwapsSoFar(), drawNo - 1);
    }

    /** One stage, and the test whether the run is done: the record stays lawful and sound. */
    method TestedStage() returns (done: bool)
      requires View().ok && (alg.EzHybrid? ==> 0.0 <= df <= 1.0)
      requires !alg.EzHybrid? || Control().areSwapping ==> stageNo < term.maxTotStage
      requires Ruled(record, true, Control())
      requires Sound(record, stageNo, View(), alg.EzHybrid? && !Control().areSwapping, SwapsSoFar(), drawNo)
      modifies this`prevDist, this`drawNo, this`stageNo, this`record, this`isNewPhase, this`initRunDist,
               this`swapNo, this`areSwapping, Objects()
      ensures View().ok && Objects() == old(Objects())
      ensures stageNo == if alg.PSwap? then old(stageNo) else old(stageNo) + 1
      ensures Ruled(record, !done, Control())
      ensures Sound(record, stageNo, View(), alg.EzHybrid?, if alg.PSwap? then old(SwapsSoFar()) + 1 else 0, drawNo)
      ensures match alg
        case Lloyds => !done ==> stageNo < term.maxTotStage
        case PSwap(_) => SwapDone(stageNo, old(swapNo), swapNo, done)
        case EzHybrid =>
          var before, after := old(View()).curr, View().curr;
          && EzDone(D(before), old(Control()), Control(), D(after), done)
          && (!old(Control()).areSwapping ==> IsLloyd(before, after))
    {
      hide *;
      InOrder();
      ghost var r, b := record, Control();
      NoSwaps(r, stageNo, View(), alg.EzHybrid? && !b.areSwapping, SwapsSoFar(), drawNo);
      RuledDist(r, true, b);
      StageBody();
      done := IsRunDone();
      match alg
      case Lloyds =>
        LloydRuled(r, View().curr, b, Control(), done);
        LimitTested(stageNo, b, Control(), D(View().curr), done);
      case PSwap(_) => SwapRuled(record, !done, Control());
      case EzHybrid => EzRuled(r, View().curr, b, Control(), prevDist, done);
    }

    lemma RuledDist(r: Record, open: bool, c: Controls)
      requires Ruled(r, open, c)
      ensures alg.Lloyds? ==> c.initRunDist >= 0.0
    {
    }

    lemma SwapRuled(r: Record, open: bool, c: Controls)
      requires alg.PSwap?
      ensures Ruled(r, open, c) && RunLaw(r)
    {
    }

    lemma LimitTested(stage: int, b: Controls, c: Controls, d: real, done: bool)
      requires b.initRunDist >= 0.0 && d >= 0.0 && LloydsDone(stage, b, c, d, done)
      ensures !done ==> stage < term.maxTotStage
    {
    }

    /** The body of the do-loop in execute(): there is less and less left to do. */
    method OneStage() returns (done: bool)
      requires View().ok && Terminating() && (!alg.EzHybrid? || areSwapping ==> stageNo < term.maxTotStage)
      requires Ruled(record, true, Control())
      requires Sound(record, stageNo, View(), alg.EzHybrid? && !areSwapping, if alg.PSwap? then swapNo else 0, drawNo)
      modifies this`prevDist, this`drawNo, this`stageNo, this`record, this`isNewPhase, this`initRunDist,
               this`swapNo, this`areSwapping, Objects()
      ensures View().ok && Objects() == old(Objects())
      ensures stageNo == if alg.PSwap? then old(stageNo) else old(stageNo) + 1
      ensures Ruled(record, !done, Control())
      ensures Sound(record, stageNo, View(), alg.EzHybrid?, if alg.PSwap? then swapNo else 0, drawNo)
      ensures alg.Lloyds? && !done ==> stageNo < term.maxTotStage
      ensures alg.PSwap? ==> swapNo == old(swapNo) + 1 && done == (swapNo >= alg.maxSwaps)
      ensures alg.EzHybrid? ==> !areSwapping && (old(areSwapping) ==> !done)
      ensures !done && (alg.EzHybrid? && old(areSwapping) ==> df == 1.0) ==> Budget() < old(Budget())
      ensures Budget() >= 1
    {
      hide KMlocal.Valid, KMlocal.View, KMlocal.Objects, KMlocal.D, KMlocal.Steps, Rdl, AtMost, AtLeast, KMlocal.Sound,
        KMlocal.IsLloyd, KMlocal.Ruled;
      InOrder();
      ghost var c := View().curr;
      done := TestedStage();
      StepsBound(D(View().curr));
      if alg.EzHybrid? && !old(areSwapping) {
        EzStage(c, View().curr);
      }
    }

    /** The do-loop in execute(): when it ends, the law of runs has the run end here, and not before. */
    method Stages()
      requires View().ok && Terminating() && stageNo < term.maxTotStage
      requires Sound(record, stageNo, View(), false, 0, drawNo) && Ruled(record, true, Control())
      requires (alg.EzHybrid? ==> Control().areSwapping) && (alg.PSwap? ==> swapNo == 0)
      modifies this`prevDist, this`drawNo, this`stageNo, this`record, this`isNewPhase, this`initRunDist,
               this`swapNo, this`areSwapping, Objects()
      ensures View().ok && Objects() == old(Objects())
      ensures Sound(record, stageNo, View(), alg.EzHybrid?, if alg.PSwap? then Swaps() else 0, drawNo)
      ensures Ruled(record, false, Control())
      ensures match alg
        case Lloyds => old(stageNo) < stageNo <= term.maxTotStage
        case PSwap(_) => stageNo == old(stageNo)
        case EzHybrid =>
          old(stageNo) + 2 <= stageNo && (df == 1.0 ==> stageNo <= old(stageNo) + Pow(k, |data.pts|) + 2)
    {
      hide KMlocal.Valid, KMlocal.View, KMlocal.Objects, KMlocal.D, KMlocal.Steps, Rdl, AtMost, AtLeast, KMlocal.Sound;
      ghost var s0 := stageNo;
      ghost var objects := Objects();
      InOrder();
      var done := OneStage();
      ghost var n := 1;
      while !done
        invariant View().ok && Objects() == objects && n >= 1
        invariant Sound(record, stageNo, View(), alg.EzHybrid?, if alg.PSwap? then swapNo else 0, drawNo)
        invariant Ruled(record, !done, Control())
        invariant stageNo == if alg.PSwap? then s0 else s0 + n
        invariant alg.Lloyds? ==> if done then stageNo <= term.maxTotStage else stageNo < term.maxTotStage
        invariant alg.PSwap? ==> swapNo == n && done == (swapNo >= alg.maxSwaps) && (n == 1 || n <= alg.maxSwaps)
        invariant alg.EzHybrid? ==> !areSwapping && (n == 1 ==> !done)
        invariant Budget() >= 1
        invariant alg.EzHybrid? && df == 1.0 ==> n <= old(Budget()) && (!done ==> n + Budget() <= old(Budget()))
        decreases !done, Budget()
      {
        done := OneStage();
        n := n + 1;
      }
    }

    /** beginRun(), the do-loop, endRun() and tryAcceptance(). */
    method Run()
      requires View().ok && Terminating() && stageNo < term.maxTotStage
      requires Sound(record, stageNo, View(), false, 0, drawNo) && Ready()
      modifies this, Objects()
      ensures View().ok && Objects() == old(Objects())
      ensures Sound(record, stageNo, View(), false, 0, drawNo) && Ready()
      ensures match alg
        case Lloyds => old(stageNo) < stageNo <= term.maxTotStage
        case PSwap(_) => stageNo == old(stageNo) + 1
        case EzHybrid =>
          old(stageNo) + 2 <= stageNo && (df == 1.0 ==> stageNo <= old(stageNo) + Pow(k, |data.pts|) + 2)
    {
      hide *;
      InOrder();
      AtStart();
      BeginRun();
      Stages();
      ghost var s, r, v, b, swaps := stageNo, record, View(), Control(), if alg.PSwap? then Swaps() else 0;
      ghost var draw := drawNo;
      RuledDist(r, false, b);
      EndRun();
      RunRuled(r, record, b, Control(), s, v, swaps, draw);
      TryAcceptance();
      if alg.PSwap? {
        SwapRunRecorded(r, s, v, View(), draw);
      } else {
        RunRecorded(r, s, v, View(), swaps, draw);
        if alg.Lloyds? {
          SoundAfterNote(r, record.runs, s, View(), draw);
        }
      }
      AtEnd(Control());
    }

    lemma AtStart()
      requires Ready()
      ensures Ruled(record, true, Control().(runInitStage := stageNo)) && (alg.EzHybrid? ==> Control().areSwapping)
    {
    }

    lemma AtEnd(c: Controls)
      requires Ruled(record, true, c.(runInitStage := stageNo)) && RunLaw(record) && c == Control()
      requires alg.EzHybrid? ==> c.areSwapping
      ensures Ready()
    {
    }

    /** execute(): every stage of the search is recorded, from the centres chosen by SetCtrs on, and the record
        obeys the law of runs (RunLaw), which says from the distortions alone what every stage does and where the
        runs end; the solution returned is the best of them all, its distortion, computed by brute force, the
        least.  Lloyd's
        algorithm and the swap heuristic perform exactly the permitted number of stages (none, if none is
        permitted); the EZ-hybrid, which looks at the limit only between runs, exceeds it by less than one
        run. */
    method Execute() returns (r: KMfilterCenters)
      requires View().usable && Terminating()
      modifies this, Objects()
      ensures fresh(r.Repr()) && r.Valid() && r.data == data && r.kCtrs == k
      ensures Lawful(record) && RunLaw(record) && stageNo == |record.methods| && |record.visited| == stageNo + 1
      ensures stageNo > 0 ==> record.methods[0] == if alg.Lloyds? then LLOYD else SWAP
      ensures r.Dist() == Least(Trace(record.visited)) && (!alg.EzHybrid? ==> r.C() == Kept(record.visited))
      ensures r.C() in record.visited
      ensures 0.0 <= df <= 1.0 ==> forall i | 0 <= i < stageNo && record.methods[i] == LLOYD ::
        D(record.visited[i + 1]) <= D(record.visited[i])
      ensures match alg
        case Lloyds => stageNo == if term.maxTotStage > 0 then term.maxTotStage else 0
        case PSwap(_) => stageNo == if term.maxTotStage > 0 then term.maxTotStage else 0
        case EzHybrid =>
          if term.maxTotStage > 0
          then term.maxTotStage <= stageNo && (df == 1.0 ==> stageNo <= term.maxTotStage + Pow(k, |data.pts|) + 1)
          else stageNo == 0
    {
      hide KMlocal.Valid, KMlocal.View, KMlocal.Objects, KMlocal.D, Rdl, AtMost, AtLeast, Less,
        KMfilterCenters.Valid, KMfilterCenters.Dist, KMfilterCenters.C, KMlocal.Sound, KMlocal.AtData, KMlocal.Lawful,
        KMlocal.Ruled, KMlocal.RunLaw;
      ghost var objects := Objects();
      Reset();
      SoundAtReset(View(), drawNo);
      RuledAtReset(record, Control());
      while !IsDone()
        invariant View().ok && Objects() == objects
        invariant Sound(record, stageNo, View(), false, 0, drawNo) && Ready()
        invariant stageNo >= 0 && (stageNo > 0 ==> term.maxTotStage > 0)
        invariant match alg
          case Lloyds => stageNo == 0 || stageNo <= term.maxTotStage
          case PSwap(_) => stageNo == 0 || stageNo <= term.maxTotStage
          case EzHybrid => stageNo == 0 || df != 1.0 || stageNo <= term.maxTotStage + Pow(k, |data.pts|) + 1
        decreases term.maxTotStage - stageNo
      {
        Run();
      }
      r := CopyOfBest();
      SoundAtEnd(record, stageNo, View(), drawNo);
      if record.methods != [] {
        FirstMethod(record);
      }
    }

    lemma SoundAtEnd(r: Record, stages: int, v: Solutions, draw: nat)
      requires Sound(r, stages, v, false, 0, draw)
      ensures Lawful(r) && stages == |r.methods| && |r.visited| == stages + 1
      ensures D(v.best) == Least(Trace(r.visited)) && (!alg.EzHybrid? ==> v.best == Kept(r.visited))
      ensures v.best in r.visited
      ensures 0.0 <= df <= 1.0 ==> forall i | 0 <= i < stages && r.methods[i] == LLOYD ::
        D(r.visited[i + 1]) <= D(r.visited[i])
    {
      hide KMlocal.D, KMlocal.Lawful, KMlocal.Kept, Least;
      if 0.0 <= df <= 1.0 {
        forall i | 0 <= i < stages && r.methods[i] == LLOYD ensures D(r.visited[i + 1]) <= D(r.visited[i]) {
          LawfulFalls(r, i);
        }
      }
    }

    /** `return best`. */
    method CopyOfBest() returns (r: KMfilterCenters)
      requires View().ok
      ensures View() == old(View())
      ensures fresh(r.Repr()) && r.Valid() && r.data == data && r.kCtrs == k
      ensures r.C() == View().best && r.Dist() == D(View().best)
    {
      hide TalliesOf, DistsOf, TallyArrays, Tallies, Fits, Vouched, KMfilterCenters.Settled, KMlocal.Drawable,
        KCnode.Linked, KCnode.Bucket, KCnode.Summed;
      r := new KMfilterCenters.Copy(best);
    }
  }
}
