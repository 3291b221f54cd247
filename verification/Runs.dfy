/** Which method every stage of a search uses and where its runs end (DisCrawler/KMean/KMlocal.cpp,
    DisCrawler/KMean/KMlocal.h), as laws of the distortions and methods that a search has recorded.
    `trace[i]` is the distortion after i stages, and `methods[i]` is the method of the stage after that. */
module Runs {
  /** KMalg, as far as execute() tells the methods apart. */
  datatype Method = LLOYD | SWAP | RANDOM

  /** KMterm. */
  datatype Term = Term(maxTotStage: int, minConsecRDL: real, minAccumRDL: real, maxRunStage: int)

  // ------------------------------------------------ relative distortion loss

  /* The quotient (first - last) / first of two non-negative doubles, compared with a bound.  From zero it is
     minus infinity, or a NaN if the last is zero too. */

  predicate LossBelow(first: real, last: real, bound: real) {
    if first != 0.0 then (first - last) / first < bound else last > 0.0
  }

  predicate LossAtMost(first: real, last: real, bound: real) {
    if first != 0.0 then (first - last) / first <= bound else last > 0.0
  }

  predicate LossAtLeast(first: real, last: real, bound: real) {
    first != 0.0 && (first - last) / first >= bound
  }

  // ------------------------------------------------ Lloyd's algorithm

  /** A finished run: its stages, whether it began with a restart, and the distortion from which its loss was
      measured. */
  datatype RunNote = RunNote(start: nat, end: nat, restart: bool, base: real)

  function At(trace: seq<real>, i: nat): real { if i < |trace| then trace[i] else 0.0 }

  ghost predicate Failed(term: Term, trace: seq<real>, run: RunNote) {
    LossBelow(run.base, At(trace, run.end), term.minAccumRDL)
  }

  /** The restart of a run was cut off before the run could measure its distortion. */
  predicate CutOff(run: RunNote) { run.restart && run.end == run.start + 1 }

  function NextStart(runs: seq<RunNote>): nat { if runs == [] then 0 else runs[|runs| - 1].end }

  /** The next run begins with random centres after a run that failed or was cut off. */
  ghost predicate NextRestart(term: Term, trace: seq<real>, runs: seq<RunNote>) {
    runs != [] && (Failed(term, trace, runs[|runs| - 1]) || CutOff(runs[|runs| - 1]))
  }

  /** The distortion from which the next run measures its loss, unless it restarts. */
  ghost function NextBase(term: Term, trace: seq<real>, runs: seq<RunNote>): real {
    if runs == [] then At(trace, 0)
    else
      var last := runs[|runs| - 1];
      if Failed(term, trace, last) then last.base else At(trace, last.end)
  }

  /** The distortion from which the run that goes on after `runs` measures its loss after stage `e`: that of
      its restart, once there has been a stage after it. */
  ghost function Measured(term: Term, trace: seq<real>, runs: seq<RunNote>, e: nat): real {
    var start := NextStart(runs);
    if NextRestart(term, trace, runs) && e >= start + 2 then At(trace, start + 1) else NextBase(term, trace, runs)
  }

  /** When that run ends: at a stage limit, or with enough loss, but for want of loss not with its restart. */
  ghost predicate RunDone(term: Term, trace: seq<real>, runs: seq<RunNote>, e: nat) {
    var start := NextStart(runs);
    || e >= term.maxTotStage || e - start >= term.maxRunStage
    || (&& !(NextRestart(term, trace, runs) && e == start + 1)
        && LossAtLeast(Measured(term, trace, runs, e), At(trace, e), term.minAccumRDL))
  }

  /** Its method at stage `i`. */
  ghost function RunMethod(term: Term, trace: seq<real>, runs: seq<RunNote>, i: nat): Method {
    if NextRestart(term, trace, runs) && i == NextStart(runs) then RANDOM else LLOYD
  }

  /** Up to stage `e` the run uses these methods, and it has not ended before. */
  ghost predicate GoesOn(term: Term, trace: seq<real>, methods: seq<Method>, runs: seq<RunNote>, e: nat) {
    && e <= |methods|
    && (forall i | NextStart(runs) <= i < e :: methods[i] == RunMethod(term, trace, runs, i))
    && (forall i | NextStart(runs) < i < e :: !RunDone(term, trace, runs, i))
  }

  /** `run` is what comes after the runs `before`. */
  ghost predicate IsRun(term: Term, trace: seq<real>, methods: seq<Method>, before: seq<RunNote>, run: RunNote) {
    && run.start == NextStart(before) < run.end <= |methods| && run.start < term.maxTotStage
    && run.restart == NextRestart(term, trace, before)
    && run.base == Measured(term, trace, before, run.end)
    && GoesOn(term, trace, methods, before, run.end) && RunDone(term, trace, before, run.end)
  }

  /** The runs follow one another by these rules. */
  ghost predicate LloydRuns(term: Term, trace: seq<real>, methods: seq<Method>, runs: seq<RunNote>) {
    |trace| == |methods| + 1 && forall j | 0 <= j < |runs| :: IsRun(term, trace, methods, runs[..j], runs[j])
  }

  /** The whole record of Lloyd's algorithm between runs. */
  ghost predicate LloydLaw(term: Term, trace: seq<real>, methods: seq<Method>, runs: seq<RunNote>) {
    LloydRuns(term, trace, methods, runs) && NextStart(runs) == |methods|
  }

  /** A search by Lloyd's algorithm within a run, or before one, with the state of the control variables. */
  ghost predicate LloydOpen(term: Term, trace: seq<real>, methods: seq<Method>, runs: seq<RunNote>,
                            isNewPhase: bool, initRunDist: real)
  {
    var n := |methods|;
    && LloydRuns(term, trace, methods, runs) && GoesOn(term, trace, methods, runs, n)
    && (n > NextStart(runs) ==> !RunDone(term, trace, runs, n))
    && isNewPhase == (NextRestart(term, trace, runs) && n == NextStart(runs))
    && initRunDist == Measured(term, trace, runs, n + 1)
  }

  /** The same when the run has been found done. */
  ghost predicate LloydDone(term: Term, trace: seq<real>, methods: seq<Method>, runs: seq<RunNote>,
                            isNewPhase: bool, initRunDist: real)
  {
    var run := RunNote(NextStart(runs), |methods|, NextRestart(term, trace, runs), initRunDist);
    LloydRuns(term, trace, methods, runs) && IsRun(term, trace, methods, runs, run) && isNewPhase == CutOff(run)
  }

  /** What follows in the record does not concern the runs already made. */
  lemma RulesStay(term: Term, trace: seq<real>, runs: seq<RunNote>, d: real, e: nat)
    requires NextStart(runs) < |trace| && e < |trace|
    ensures NextRestart(term, trace + [d], runs) == NextRestart(term, trace, runs)
    ensures NextBase(term, trace + [d], runs) == NextBase(term, trace, runs)
    ensures Measured(term, trace + [d], runs, e) == Measured(term, trace, runs, e)
    ensures RunDone(term, trace + [d], runs, e) == RunDone(term, trace, runs, e)
  {
    hide LossBelow, LossAtLeast;
  }

  lemma GoingOnStays(term: Term, trace: seq<real>, methods: seq<Method>, runs: seq<RunNote>, m: Method, d: real, e: nat)
    requires |trace| == |methods| + 1 && GoesOn(term, trace, methods, runs, e)
    ensures GoesOn(term, trace + [d], methods + [m], runs, e)
  {
    hide Measured, NextRestart, RunDone;
    if NextStart(runs) <= e {
      forall i: nat | i <= e ensures RunDone(term, trace + [d], runs, i) == RunDone(term, trace, runs, i) {
        RulesStay(term, trace, runs, d, i);
      }
      RulesStay(term, trace, runs, d, e);
    }
  }

  lemma RunStays(term: Term, trace: seq<real>, methods: seq<Method>, before: seq<RunNote>, run: RunNote, m: Method,
                 d: real)
    requires |trace| == |methods| + 1 && IsRun(term, trace, methods, before, run)
    ensures IsRun(term, trace + [d], methods + [m], before, run)
  {
    hide GoesOn, Measured, NextRestart, RunDone, NextBase;
    RulesStay(term, trace, before, d, run.end);
    GoingOnStays(term, trace, methods, before, m, d, run.end);
  }

  lemma RunsStay(term: Term, trace: seq<real>, methods: seq<Method>, runs: seq<RunNote>, m: Method, d: real)
    requires LloydRuns(term, trace, methods, runs)
    ensures LloydRuns(term, trace + [d], methods + [m], runs) && NextStart(runs) <= |methods|
  {
    hide GoesOn, Measured, NextRestart, RunDone;
    forall j | 0 <= j < |runs| ensures IsRun(term, trace + [d], methods + [m], runs[..j], runs[j]) {
      RunStays(term, trace, methods, runs[..j], runs[j], m, d);
    }
    assert runs != [] ==> IsRun(term, trace, methods, runs[..|runs| - 1], runs[|runs| - 1]);
  }

  /** One more stage, and whether the run is then done (`done`), by the tests of the control variables. */
  lemma LloydStage(term: Term, trace: seq<real>, methods: seq<Method>, runs: seq<RunNote>, isNewPhase: bool,
                   initRunDist: real, m: Method, d: real, tooMany: bool, done: bool)
    requires LloydOpen(term, trace, methods, runs, isNewPhase, initRunDist) && |methods| < term.maxTotStage
    requires m == if isNewPhase then RANDOM else LLOYD
    requires var n := |methods| + 1;
      tooMany == (n >= term.maxTotStage || n - NextStart(runs) >= term.maxRunStage)
    requires done == (tooMany || (!isNewPhase && LossAtLeast(initRunDist, d, term.minAccumRDL)))
    ensures var newPhase := tooMany && isNewPhase;
      var dist := if !tooMany && isNewPhase then d else initRunDist;
      if done then LloydDone(term, trace + [d], methods + [m], runs, newPhase, dist)
      else LloydOpen(term, trace + [d], methods + [m], runs, newPhase, dist)
  {
    hide LossBelow, LossAtLeast;
    var n, t, ms := |methods| + 1, trace + [d], methods + [m];
    RunsStay(term, trace, methods, runs, m, d);
    RulesStay(term, trace, runs, d, n - 1);
    GoingOnStays(term, trace, methods, runs, m, d, n - 1);
  }

  lemma RunNoted(term: Term, trace: seq<real>, methods: seq<Method>, runs: seq<RunNote>, run: RunNote)
    requires LloydRuns(term, trace, methods, runs) && IsRun(term, trace, methods, runs, run)
    ensures LloydRuns(term, trace, methods, runs + [run])
  {
    hide IsRun;
    var next := runs + [run];
    forall j | 0 <= j < |next| ensures IsRun(term, trace, methods, next[..j], next[j]) {
      assert next[..j] == if j < |runs| then runs[..j] else runs;
    }
  }

  /** endRun(): the finished run is noted. */
  lemma LloydRunEnds(term: Term, trace: seq<real>, methods: seq<Method>, runs: seq<RunNote>, isNewPhase: bool,
                     initRunDist: real)
    requires LloydDone(term, trace, methods, runs, isNewPhase, initRunDist)
    ensures var n := |methods|;
      var run := RunNote(NextStart(runs), n, NextRestart(term, trace, runs), initRunDist);
      var failed := LossBelow(initRunDist, At(trace, n), term.minAccumRDL);
      && LloydLaw(term, trace, methods, runs + [run])
      && LloydOpen(term, trace, methods, runs + [run], failed || isNewPhase, if failed then initRunDist else At(trace, n))
  {
    hide LossBelow, LossAtLeast, IsRun, RunDone, LloydRuns;
    var run := RunNote(NextStart(runs), |methods|, NextRestart(term, trace, runs), initRunDist);
    RunNoted(term, trace, methods, runs, run);
  }

  // ------------------------------------------------ what the law says

  lemma RunsBefore(term: Term, trace: seq<real>, methods: seq<Method>, runs: seq<RunNote>, j: nat)
    requires LloydRuns(term, trace, methods, runs) && j <= |runs|
    ensures LloydRuns(term, trace, methods, runs[..j])
  {
    hide IsRun;
    forall i | 0 <= i < j ensures IsRun(term, trace, methods, runs[..j][..i], runs[..j][i]) {
      assert runs[..j][..i] == runs[..i];
    }
  }

  /** Every stage belongs to a run. */
  lemma {:induction false} RunOf(term: Term, trace: seq<real>, methods: seq<Method>, runs: seq<RunNote>, i: nat)
    returns (j: nat)
    requires LloydRuns(term, trace, methods, runs) && i < NextStart(runs)
    ensures j < |runs| && runs[j].start <= i < runs[j].end
  {
    hide RunDone, GoesOn, NextRestart, Measured;
    j := |runs| - 1;
    assert IsRun(term, trace, methods, runs[..j], runs[j]);
    if i < runs[j].start {
      RunsBefore(term, trace, methods, runs, j);
      j := RunOf(term, trace, methods, runs[..j], i);
    }
  }

  /** The distortion from which the loss of a run is measured: its first, or the one after its restart. */
  function FirstOf(trace: seq<real>, run: RunNote): real {
    At(trace, if run.restart then run.start + 1 else run.start)
  }

  /** If runs may have two stages, no run is cut off but the last, and the loss of a run is that from its first
      distortion. */
  lemma LossOfRun(term: Term, trace: seq<real>, methods: seq<Method>, runs: seq<RunNote>, j: nat)
    requires LloydLaw(term, trace, methods, runs) && term.maxRunStage >= 2
    requires j < |runs| && runs[j].end < |methods|
    ensures !CutOff(runs[j]) && runs[j].base == FirstOf(trace, runs[j])
  {
    hide LossBelow, LossAtLeast, GoesOn;
    assert IsRun(term, trace, methods, runs[..j], runs[j]);
    assert IsRun(term, trace, methods, runs[..j + 1], runs[j + 1]);
  }

  /** The run after a run begins with random centres exactly if that one failed or was cut off. */
  lemma AfterRun(term: Term, trace: seq<real>, methods: seq<Method>, runs: seq<RunNote>, j: nat)
    requires LloydLaw(term, trace, methods, runs) && j < |runs| && runs[j].end < |methods|
    ensures methods[runs[j].end] == RANDOM <==> Failed(term, trace, runs[j]) || CutOff(runs[j])
  {
    hide LossBelow, LossAtLeast, RunDone, Measured;
    assert IsRun(term, trace, methods, runs[..j + 1], runs[j + 1]);
  }

  /** A restart comes only with the start of a run, and that is the end of another. */
  lemma BeforeRestart(term: Term, trace: seq<real>, methods: seq<Method>, runs: seq<RunNote>, i: nat) returns (j: nat)
    requires LloydLaw(term, trace, methods, runs) && i < |methods| && methods[i] == RANDOM
    ensures j < |runs| && runs[j].end == i
  {
    hide LossBelow, LossAtLeast, RunDone, Measured;
    var n := RunOf(term, trace, methods, runs, i);
    assert IsRun(term, trace, methods, runs[..n], runs[n]);
    j := n - 1;
  }

  /** A run ended with stage `i`, and its loss was below the bound. */
  ghost predicate FailedBefore(term: Term, trace: seq<real>, runs: seq<RunNote>, i: nat) {
    exists j :: 0 <= j < |runs| && runs[j].end == i
      && LossBelow(FirstOf(trace, runs[j]), At(trace, i), term.minAccumRDL)
  }

  /** The search begins with a Lloyd stage, and if runs may have two stages it restarts exactly after runs whose
      loss, from their first distortion to their last, was below the bound. */
  lemma RestartsExactlyWhen(term: Term, trace: seq<real>, methods: seq<Method>, runs: seq<RunNote>, i: nat)
    requires LloydLaw(term, trace, methods, runs) && i < |methods|
    ensures methods[0] == LLOYD && methods[i] != SWAP
    ensures term.maxRunStage >= 2 ==> (methods[i] == RANDOM <==> FailedBefore(term, trace, runs, i))
  {
    hide LossBelow, LloydRuns, NextRestart;
    FirstStage(term, trace, methods, runs, i);
    if term.maxRunStage >= 2 {
      if methods[i] == RANDOM {
        var j := BeforeRestart(term, trace, methods, runs, i);
        AfterRun(term, trace, methods, runs, j);
        LossOfRun(term, trace, methods, runs, j);
      }
      if j :| 0 <= j < |runs| && runs[j].end == i && LossBelow(FirstOf(trace, runs[j]), At(trace, i), term.minAccumRDL) {
        AfterRun(term, trace, methods, runs, j);
        LossOfRun(term, trace, methods, runs, j);
      }
    }
  }

  lemma FirstStage(term: Term, trace: seq<real>, methods: seq<Method>, runs: seq<RunNote>, i: nat)
    requires LloydLaw(term, trace, methods, runs) && i < |methods|
    ensures methods[0] == LLOYD && methods[i] != SWAP
  {
    hide RunDone, Measured;
    var j := RunOf(term, trace, methods, runs, i);
    assert IsRun(term, trace, methods, runs[..j], runs[j]);
    assert IsRun(term, trace, methods, runs[..0], runs[0]);
  }

  /** If runs may have only one stage, a restart is always cut off, and restarts are all that follows. */
  lemma OneStageRuns(term: Term, trace: seq<real>, methods: seq<Method>, runs: seq<RunNote>, i: nat)
    requires LloydLaw(term, trace, methods, runs) && term.maxRunStage <= 1
    requires i + 1 < |methods| && methods[i] == RANDOM
    ensures methods[i + 1] == RANDOM
  {
    hide LossBelow, LossAtLeast;
    var j := RunOf(term, trace, methods, runs, i);
    assert IsRun(term, trace, methods, runs[..j], runs[j]);
    assert RunDone(term, trace, runs[..j], runs[j].start + 1);
    AfterRun(term, trace, methods, runs, j);
  }

  // ------------------------------------------------ the EZ-hybrid

  /** The method after a record: a swap is followed by a Lloyd stage, a Lloyd stage by another one unless the
      loss was at most the threshold. */
  ghost function NextEz(term: Term, trace: seq<real>, methods: seq<Method>): Method {
    var n := |methods|;
    if n == 0 then SWAP
    else if methods[n - 1] == SWAP then LLOYD
    else if LossAtMost(At(trace, n - 1), At(trace, n), term.minConsecRDL) then SWAP
    else LLOYD
  }

  /** The methods follow one another by this rule, and no run begins once the limit is reached. */
  ghost predicate EzRuns(term: Term, trace: seq<real>, methods: seq<Method>) {
    && |trace| == |methods| + 1
    && (forall i | 0 <= i < |methods| :: methods[i] == NextEz(term, trace[..i + 1], methods[..i]))
    && forall i | 0 <= i < |methods| && methods[i] == SWAP :: i < term.maxTotStage
  }

  /** The whole record of the EZ-hybrid between runs. */
  ghost predicate EzLaw(term: Term, trace: seq<real>, methods: seq<Method>) {
    EzRuns(term, trace, methods) && NextEz(term, trace, methods) == SWAP
  }

  lemma EzAppended(term: Term, trace: seq<real>, methods: seq<Method>, d: real)
    requires EzRuns(term, trace, methods) && (NextEz(term, trace, methods) == SWAP ==> |methods| < term.maxTotStage)
    ensures EzRuns(term, trace + [d], methods + [NextEz(term, trace, methods)]) && |trace| == |methods| + 1
  {
    hide NextEz;
    var m := NextEz(term, trace, methods);
    var t, ms := trace + [d], methods + [m];
    forall i | 0 <= i < |ms| ensures ms[i] == NextEz(term, t[..i + 1], ms[..i]) {
      assert i < |methods| ==> t[..i + 1] == trace[..i + 1] && ms[..i] == methods[..i];
      assert i == |methods| ==> t[..i + 1] == trace && ms[..i] == methods;
    }
  }

  /** The stages of the EZ-hybrid: it begins with a swap, a swap is followed by a Lloyd stage, and a Lloyd stage
      ends its run, by a swap or the end of the search, exactly if the loss was at most the threshold. */
  lemma EzStages(term: Term, trace: seq<real>, methods: seq<Method>, i: nat)
    requires EzLaw(term, trace, methods) && i < |methods|
    ensures methods[0] == SWAP && methods[i] != RANDOM
    ensures methods[i] == SWAP ==> i < term.maxTotStage && i + 1 < |methods| && methods[i + 1] == LLOYD
    ensures methods[i] == LLOYD ==>
      (i + 1 == |methods| || methods[i + 1] == SWAP <==> LossAtMost(trace[i], trace[i + 1], term.minConsecRDL))
  {
    hide LossAtMost;
    assert i + 1 < |methods| ==> methods[i + 1] == NextEz(term, trace[..i + 2], methods[..i + 1]);
  }
}
