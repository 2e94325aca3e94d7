/** Lexicographic solve stages over an abstract solver: each stage minimises one score, records the
    value it reached and locks it within a tolerance before the next stage runs. */
module Lexicographic {
  import Arithmetic
  import opened Prelude

  datatype Lock<!P> = Lock(score: P -> real, bound: real)
  datatype Stage<!P> = Stage(score: P -> real, lockResult: bool)

  /** What a solve call leaves behind: an exception, or a termination condition in lower case and
      possibly a point loaded into the model. */
  datatype Report<+P> = SolverRaised | Finished(term: string, loaded: Option<P>)

  datatype StageRecord = StageRecord(value: real, proven: bool)
  datatype Settings = Settings(lexicographic: bool, absTolerance: real, relTolerance: real, lexicographicGap: real, finalGap: real)

  /** A solver: given the locks, the score to minimise and the relative gap allowed. */
  type Backend<!P> = (seq<Lock<P>>, P -> real, real) -> Report<P>

  /** `point` holds the variable values the model carries; a solve that loads nothing keeps them. */
  datatype Progress<!P> = Progress(point: Option<P>, locks: seq<Lock<P>>, records: seq<StageRecord>)
  datatype Step<!P> = Continue(progress: Progress<P>) | StageFailed(index: nat) | Escaped(index: nat)

  predicate Contains(s: string, part: string) {
    exists i :: 0 <= i <= |s| && part <= s[i..]
  }

  predicate Usable(term: string, hasIncumbent: bool) {
    Contains(term, "optimal") || Contains(term, "feasible") || hasIncumbent
  }

  function Tolerance(s: Settings, value: real): real {
    Max(s.absTolerance, s.relTolerance * Abs(value))
  }

  function StageGap(s: Settings, stages: nat, index: nat): real {
    if index == stages - 1 || !s.lexicographic then s.finalGap else s.lexicographicGap
  }

  function LockOf<P>(s: Settings, stage: Stage<P>, value: real): seq<Lock<P>> {
    if stage.lockResult then [Lock(stage.score, value + Tolerance(s, value))] else []
  }

  function OneStage<P>(s: Settings, stages: seq<Stage<P>>, index: nat, solve: Backend<P>, g: Progress<P>): Step<P>
    requires index < |stages|
  {
    var stage := stages[index];
    match solve(g.locks, stage.score, StageGap(s, |stages|, index))
    case SolverRaised => StageFailed(index)
    case Finished(term, loaded) =>
      var point := if loaded.Some? then loaded else g.point;
      if !Usable(term, point.Some?) then StageFailed(index)
      else match point
        case None => Escaped(index)
        case Some(p) =>
          var value := stage.score(p);
          Continue(Progress(point, g.locks + LockOf(s, stage, value), g.records + [StageRecord(value, Contains(term, "optimal"))]))
  }

  /** The first `k` stages. */
  function Run<P>(s: Settings, stages: seq<Stage<P>>, k: nat, solve: Backend<P>): Step<P>
    requires k <= |stages|
  {
    if k == 0 then Continue(Progress(None, [], []))
    else match Run(s, stages, k - 1, solve)
      case Continue(g) => OneStage(s, stages, k - 1, solve, g)
      case stopped => stopped
  }

  lemma {:induction false} StoppedStaysStopped<P>(s: Settings, stages: seq<Stage<P>>, j: nat, k: nat, solve: Backend<P>)
    requires j <= k <= |stages| && !Run(s, stages, j, solve).Continue?
    ensures Run(s, stages, k, solve) == Run(s, stages, j, solve)
  {
    if j < k {
      StoppedStaysStopped(s, stages, j, k - 1, solve);
    }
  }

  // ---------------------------------------------------------------- one stage, in terms of its report

  /** A text contains another if the other stands somewhere in it. */
  lemma ContainsBetween(s: string, part: string)
    ensures Contains(s, part) <==> exists before: string, after: string :: s == before + part + after
  {
    if i :| 0 <= i <= |s| && part <= s[i..] {
      assert s == s[..i] + part + s[i + |part|..];
    }
    if before: string, after: string :| s == before + part + after {
      assert part <= s[|before|..];
    }
  }

  /** The bound a value is locked at: the larger of the two tolerances above it. */
  lemma LockBound(s: Settings, value: real)
    ensures var bound := value + Tolerance(s, value);
            var relative := s.relTolerance * if value >= 0.0 then value else -value;
            && bound >= value + s.absTolerance && bound >= value + relative
            && (bound == value + s.absTolerance || bound == value + relative)
  {
  }

  /** What a stage makes of its report. The gap is the final one at the last stage and without
      priorities; an exception fails the stage; without any point the stage fails, or leaves by an
      exception when the condition says "optimal" or "feasible"; with one, new or kept from before, its
      score is recorded, and locked if the stage says so. */
  lemma StageRules<P>(s: Settings, stages: seq<Stage<P>>, index: nat, solve: Backend<P>, g: Progress<P>)
    requires index < |stages|
    ensures var stage := stages[index];
            var report := solve(g.locks, stage.score, if index == |stages| - 1 || !s.lexicographic then s.finalGap else s.lexicographicGap);
            var step := OneStage(s, stages, index, solve, g);
            match report
            case SolverRaised => step == StageFailed(index)
            case Finished(term, loaded) =>
              if loaded.None? && g.point.None? then
                step == if Contains(term, "optimal") || Contains(term, "feasible") then Escaped(index) else StageFailed(index)
              else
                var p := if loaded.Some? then loaded.value else g.point.value;
                && step.Continue? && step.progress.point == Some(p)
                && step.progress.records == g.records + [StageRecord(stage.score(p), Contains(term, "optimal"))]
                && |step.progress.locks| == |g.locks| + (if stage.lockResult then 1 else 0)
                && step.progress.locks[..|g.locks|] == g.locks
                && (stage.lockResult ==>
                      step.progress.locks[|g.locks|] == Lock(stage.score, stage.score(p) + Tolerance(s, stage.score(p))))
  {
    hide Contains, Tolerance;
  }

  /** The stages run in order from a model without a point, and stop at the first that does not continue. */
  lemma RunInOrder<P>(s: Settings, stages: seq<Stage<P>>, k: nat, solve: Backend<P>)
    requires k < |stages|
    ensures Run(s, stages, 0, solve) == Continue(Progress(None, [], []))
    ensures Run(s, stages, k + 1, solve)
         == match Run(s, stages, k, solve)
            case Continue(g) => OneStage(s, stages, k, solve, g)
            case stopped => stopped
  {
    hide OneStage;
  }

  /** The stage loop of one solver. */
  method SolveStages<P>(s: Settings, stages: seq<Stage<P>>, solve: Backend<P>) returns (r: Step<P>)
    ensures r == Run(s, stages, |stages|, solve)
  {
    var point: Option<P> := None;
    var locks: seq<Lock<P>> := [];
    var records: seq<StageRecord> := [];
    for index := 0 to |stages|
      invariant Run(s, stages, index, solve) == Continue(Progress(point, locks, records))
    {
      var stage := stages[index];
      var report := solve(locks, stage.score, StageGap(s, |stages|, index));
      if report.SolverRaised? {
        StoppedStaysStopped(s, stages, index + 1, |stages|, solve);
        return StageFailed(index);
      }
      if report.loaded.Some? {
        point := report.loaded;
      }
      if !Usable(report.term, point.Some?) {
        StoppedStaysStopped(s, stages, index + 1, |stages|, solve);
        return StageFailed(index);
      }
      if point.None? {
        StoppedStaysStopped(s, stages, index + 1, |stages|, solve);
        return Escaped(index);
      }
      var value := stage.score(point.value);
      if stage.lockResult {
        locks := locks + [Lock(stage.score, value + Tolerance(s, value))];
      }
      records := records + [StageRecord(value, Contains(report.term, "optimal"))];
    }
    r := Continue(Progress(point, locks, records));
  }

  // ---------------------------------------------------------------- what the locks mean

  ghost predicate Admits<P(!new)>(locks: seq<Lock<P>>, p: P) {
    forall l :: l in locks ==> l.score(p) <= l.bound
  }

  /** `p` stays within the tolerance of every value locked by the stages so far. */
  ghost predicate WithinLocks<P(!new)>(s: Settings, stages: seq<Stage<P>>, records: seq<StageRecord>, p: P)
    requires |records| <= |stages|
  {
    forall j :: 0 <= j < |records| && stages[j].lockResult ==>
      stages[j].score(p) <= records[j].value + Tolerance(s, records[j].value)
  }

  /** The lock constraints accumulated by a run say exactly that. */
  lemma {:induction false} LocksSayWithin<P(!new)>(s: Settings, stages: seq<Stage<P>>, k: nat, solve: Backend<P>, p: P)
    requires k <= |stages| && Run(s, stages, k, solve).Continue?
    ensures var g := Run(s, stages, k, solve).progress;
            && |g.records| == k
            && (Admits(g.locks, p) <==> WithinLocks(s, stages, g.records, p))
  {
    if k > 0 {
      LocksSayWithin(s, stages, k - 1, solve, p);
      var before, g := Run(s, stages, k - 1, solve).progress, Run(s, stages, k, solve).progress;
      var added := LockOf(s, stages[k - 1], g.records[k - 1].value);
      assert g.locks == before.locks + added;
      assert forall l :: l in g.locks <==> l in before.locks || l in added;
      assert g.records[..k - 1] == before.records;
      assert forall j :: 0 <= j < k - 1 ==> g.records[j] == before.records[j];
    }
  }

  /** A lock keeps the point it was computed from exactly when one of the tolerances is not
      negative, or the relative one has nothing to scale. */
  lemma LockKeepsItsOwnPoint(s: Settings, value: real)
    ensures value <= value + Tolerance(s, value) <==> s.absTolerance >= 0.0 || s.relTolerance >= 0.0 || value == 0.0
  {
    if s.relTolerance >= 0.0 {
      assert s.relTolerance * Abs(value) >= 0.0;
    } else if value != 0.0 {
      assert s.relTolerance * Abs(value) < 0.0;
    } else {
      assert s.relTolerance * Abs(value) == 0.0;
    }
  }

  // ---------------------------------------------------------------- any solver

  /** What is loaded satisfies the model and the locks. */
  ghost predicate LoadsOnlySolutions<P(!new)>(solve: Backend<P>, feasible: P -> bool) {
    forall locks, score, gap ::
      var r := solve(locks, score, gap);
      r.Finished? && r.loaded.Some? ==> feasible(r.loaded.value) && Admits(locks, r.loaded.value)
  }

  /** Whatever the solver reports, and even when a later stage times out and the earlier values
      stay in the model, the point kept is feasible and within every lock. */
  lemma {:induction false} EveryPointKeptIsWithinTheLocks<P(!new)>(s: Settings, stages: seq<Stage<P>>, k: nat, solve: Backend<P>, feasible: P -> bool)
    requires LoadsOnlySolutions(solve, feasible) && (s.absTolerance >= 0.0 || s.relTolerance >= 0.0)
    requires k <= |stages| && Run(s, stages, k, solve).Continue?
    ensures var g := Run(s, stages, k, solve).progress;
            && |g.records| == k
            && (k > 0 ==> g.point.Some?)
            && (g.point.Some? ==> feasible(g.point.value) && Admits(g.locks, g.point.value) && WithinLocks(s, stages, g.records, g.point.value))
  {
    if k > 0 {
      EveryPointKeptIsWithinTheLocks(s, stages, k - 1, solve, feasible);
      var before, g := Run(s, stages, k - 1, solve).progress, Run(s, stages, k, solve).progress;
      var p := g.point.value;
      assert Admits(before.locks, p) && feasible(p);
      LockKeepsItsOwnPoint(s, stages[k - 1].score(p));
      assert g.locks == before.locks + LockOf(s, stages[k - 1], stages[k - 1].score(p));
      LocksSayWithin(s, stages, k, solve, p);
    }
  }

  /** Once one stage has produced a point, only an exception from the solver stops the run. */
  lemma {:induction false} OnlyAnExceptionStopsLater<P>(s: Settings, stages: seq<Stage<P>>, k: nat, solve: Backend<P>)
    requires k <= |stages| && !Run(s, stages, k, solve).Continue?
    ensures var r := Run(s, stages, k, solve);
            && r.index < k
            && (r.Escaped? ==> r.index == 0)
            && (r.index > 0 ==> exists locks :: solve(locks, stages[r.index].score, StageGap(s, |stages|, r.index)).SolverRaised?)
  {
    if Run(s, stages, k - 1, solve).Continue? {
      var g := Run(s, stages, k - 1, solve).progress;
      if k > 1 {
        assert g.point.Some?;
        assert solve(g.locks, stages[k - 1].score, StageGap(s, |stages|, k - 1)).SolverRaised?;
      }
    } else {
      OnlyAnExceptionStopsLater(s, stages, k - 1, solve);
    }
  }

  /** The termination condition "infeasible" contains "feasible": a first stage that proves there is
      no solution passes the usability test and leaves the loop by the exception raised when the
      empty model is evaluated, not as a reported failure. */
  lemma InfeasibleLooksUsable<P>(s: Settings, stages: seq<Stage<P>>, solve: Backend<P>)
    requires |stages| > 0
    requires solve([], stages[0].score, StageGap(s, |stages|, 0)) == Finished("infeasible", None)
    ensures Run(s, stages, |stages|, solve) == Escaped(0)
  {
    assert "feasible" <= "infeasible"[2..];
    assert Run(s, stages, 0, solve) == Continue(Progress(None, [], []));
    assert Run(s, stages, 1, solve) == Escaped(0);
    StoppedStaysStopped(s, stages, 1, |stages|, solve);
  }

  // ---------------------------------------------------------------- an exact solver

  /** `p` is a solution under the locks and no other solution beats it by more than the gap. */
  ghost predicate Minimises<P(!new)>(feasible: P -> bool, locks: seq<Lock<P>>, score: P -> real, gap: real, p: P) {
    && feasible(p) && Admits(locks, p)
    && forall q :: feasible(q) && Admits(locks, q) ==> score(p) <= score(q) + gap * Abs(score(p))
  }

  /** Locks on the scores of these stages, with any bounds. */
  ghost predicate OnStages<P(!new)>(stages: seq<Stage<P>>, locks: seq<Lock<P>>) {
    forall l :: l in locks ==> exists j {:trigger stages[j]} :: 0 <= j < |stages| && l.score == stages[j].score
  }

  /** Asked for a stage's score under such locks, the solver finds a minimiser whenever there is a
      solution at all. */
  ghost predicate Exact<P(!new)>(s: Settings, stages: seq<Stage<P>>, solve: Backend<P>, feasible: P -> bool) {
    forall locks, j {:trigger solve(locks, stages[j].score, StageGap(s, |stages|, j))} :: 0 <= j < |stages| && OnStages(stages, locks) ==>
      (exists q :: feasible(q) && Admits(locks, q)) ==>
        var r := solve(locks, stages[j].score, StageGap(s, |stages|, j));
        r.Finished? && r.loaded.Some? && Minimises(feasible, locks, stages[j].score, StageGap(s, |stages|, j), r.loaded.value)
  }

  lemma LockIsOnStages<P(!new)>(s: Settings, stages: seq<Stage<P>>, locks: seq<Lock<P>>, index: nat, value: real)
    requires OnStages(stages, locks) && index < |stages|
    ensures OnStages(stages, locks + LockOf(s, stages[index], value))
  {
    var added := LockOf(s, stages[index], value);
    forall l | l in locks + added ensures exists j {:trigger stages[j]} :: 0 <= j < |stages| && l.score == stages[j].score {
      if l in added {
        assert l.score == stages[index].score;
      }
    }
  }

  /** `value` is the minimum, up to the stage's gap, of its score over the solutions that respect the
      locks of the stages recorded before it. */
  ghost predicate IsMinimum<P(!new)>(s: Settings, stages: seq<Stage<P>>, before: seq<StageRecord>, value: real, feasible: P -> bool)
    requires |before| < |stages|
  {
    && (exists p :: feasible(p) && WithinLocks(s, stages, before, p) && stages[|before|].score(p) == value)
    && forall q :: feasible(q) && WithinLocks(s, stages, before, q) ==>
         value <= stages[|before|].score(q) + StageGap(s, |stages|, |before|) * Abs(value)
  }

  ghost predicate Minima<P(!new)>(s: Settings, stages: seq<Stage<P>>, records: seq<StageRecord>, feasible: P -> bool)
    requires |records| <= |stages|
  {
    forall j :: 0 <= j < |records| ==> IsMinimum(s, stages, records[..j], records[j].value, feasible)
  }

  ghost predicate OnCourse<P(!new)>(s: Settings, stages: seq<Stage<P>>, k: nat, g: Progress<P>, feasible: P -> bool)
    requires k <= |stages|
  {
    && |g.records| == k && Minima(s, stages, g.records, feasible) && OnStages(stages, g.locks)
    && (k > 0 ==> g.point.Some? && stages[k - 1].score(g.point.value) == g.records[k - 1].value)
    && (g.point.Some? ==> feasible(g.point.value) && Admits(g.locks, g.point.value))
  }

  lemma OneMoreMinimum<P(!new)>(s: Settings, stages: seq<Stage<P>>, records: seq<StageRecord>, record: StageRecord, feasible: P -> bool)
    requires |records| < |stages| && Minima(s, stages, records, feasible)
    requires IsMinimum(s, stages, records, record.value, feasible)
    ensures Minima(s, stages, records + [record], feasible)
  {
    hide IsMinimum;
    var all := records + [record];
    forall j | 0 <= j < |all| ensures IsMinimum(s, stages, all[..j], all[j].value, feasible) {
      assert all[..j] == records[..j];
      assert records[..|records|] == records;
    }
  }

  /** An exact solver keeps a feasible model on course: the stage succeeds, and the next one starts
      with a solution that respects every lock. */
  lemma OneStageStaysOnCourse<P(!new)>(s: Settings, stages: seq<Stage<P>>, index: nat, solve: Backend<P>, g: Progress<P>, feasible: P -> bool, some: P)
    requires Exact(s, stages, solve, feasible) && feasible(some) && (s.absTolerance >= 0.0 || s.relTolerance >= 0.0)
    requires index < |stages| && OnCourse(s, stages, index, g, feasible) && (index == 0 ==> g.locks == [])
    requires forall q :: Admits(g.locks, q) <==> WithinLocks(s, stages, g.records, q)
    ensures var step := OneStage(s, stages, index, solve, g);
            step.Continue? && OnCourse(s, stages, index + 1, step.progress, feasible)
  {
    hide WithinLocks, StageGap, Minima, Tolerance, Contains, OnStages;
    var score, gap := stages[index].score, StageGap(s, |stages|, index);
    var start := if g.point.Some? then g.point.value else some;
    assert feasible(start) && Admits(g.locks, start);
    var r := solve(g.locks, score, gap);
    assert Minimises(feasible, g.locks, score, gap, r.loaded.value);
    var p := r.loaded.value;
    LockKeepsItsOwnPoint(s, score(p));
    var step := OneStage(s, stages, index, solve, g);
    assert step.progress.locks == g.locks + LockOf(s, stages[index], score(p));
    LockIsOnStages(s, stages, g.locks, index, score(p));
    assert WithinLocks(s, stages, g.records, p);
    OneMoreMinimum(s, stages, g.records, StageRecord(score(p), Contains(r.term, "optimal")), feasible);
  }

  /** With an exact solver no stage of a feasible model fails, and every recorded value is a minimum
      among the solutions within the earlier locks. */
  lemma {:induction false} NoLaterStageIsInfeasible<P(!new)>(s: Settings, stages: seq<Stage<P>>, k: nat, solve: Backend<P>, feasible: P -> bool, some: P)
    requires Exact(s, stages, solve, feasible) && feasible(some) && (s.absTolerance >= 0.0 || s.relTolerance >= 0.0)
    requires k <= |stages|
    ensures Run(s, stages, k, solve).Continue?
    ensures OnCourse(s, stages, k, Run(s, stages, k, solve).progress, feasible)
  {
    if k > 0 {
      hide OneStage, Exact, OnCourse, Admits, WithinLocks;
      NoLaterStageIsInfeasible(s, stages, k - 1, solve, feasible, some);
      var g := Run(s, stages, k - 1, solve).progress;
      forall q ensures Admits(g.locks, q) <==> WithinLocks(s, stages, g.records, q) {
        LocksSayWithin(s, stages, k - 1, solve, q);
      }
      OneStageStaysOnCourse(s, stages, k - 1, solve, g, feasible, some);
    }
  }

  /** The solution returned: each locked score lies within its tolerance of the stage's minimum,
      and no solution that respects the locks has a better final score beyond the gap. */
  lemma TheResultIsOptimalWithinTheLocks<P(!new)>(s: Settings, stages: seq<Stage<P>>, solve: Backend<P>, feasible: P -> bool, some: P)
    requires Exact(s, stages, solve, feasible) && LoadsOnlySolutions(solve, feasible) && feasible(some)
    requires (s.absTolerance >= 0.0 || s.relTolerance >= 0.0) && |stages| > 0
    ensures Run(s, stages, |stages|, solve).Continue?
    ensures var g := Run(s, stages, |stages|, solve).progress;
            && g.point.Some? && |g.records| == |stages|
            && feasible(g.point.value) && WithinLocks(s, stages, g.records, g.point.value)
            && Minima(s, stages, g.records, feasible)
            && stages[|stages| - 1].score(g.point.value) == g.records[|stages| - 1].value
  {
    hide Run, OneStage, Exact, LoadsOnlySolutions, WithinLocks, Admits, Minima;
    NoLaterStageIsInfeasible(s, stages, |stages|, solve, feasible, some);
    EveryPointKeptIsWithinTheLocks(s, stages, |stages|, solve, feasible);
  }

  lemma MinimumAt<P(!new)>(s: Settings, stages: seq<Stage<P>>, j: nat, records: seq<StageRecord>, feasible: P -> bool, q: P)
    requires j < |records| <= |stages| && Minima(s, stages, records, feasible)
    requires feasible(q) && WithinLocks(s, stages, records[..j], q)
    ensures records[j].value <= stages[j].score(q) + StageGap(s, |stages|, j) * Abs(records[j].value)
  {
    hide WithinLocks, StageGap, Abs;
    assert IsMinimum(s, stages, records[..j], records[j].value, feasible);
    assert |records[..j]| == j;
  }

  lemma MinimumAttained<P(!new)>(s: Settings, stages: seq<Stage<P>>, j: nat, records: seq<StageRecord>, feasible: P -> bool)
    requires j < |records| <= |stages| && Minima(s, stages, records, feasible)
    ensures exists p :: feasible(p) && stages[j].score(p) == records[j].value
  {
    hide WithinLocks, StageGap, Abs;
    assert IsMinimum(s, stages, records[..j], records[j].value, feasible);
    assert |records[..j]| == j;
  }

  lemma LockAt<P(!new)>(s: Settings, stages: seq<Stage<P>>, j: nat, records: seq<StageRecord>, p: P)
    requires j < |records| <= |stages| && WithinLocks(s, stages, records, p) && stages[j].lockResult
    ensures stages[j].score(p) <= records[j].value + Tolerance(s, records[j].value)
  {
  }

  lemma FewerLocks<P(!new)>(s: Settings, stages: seq<Stage<P>>, j: nat, records: seq<StageRecord>, q: P)
    requires j <= |records| <= |stages| && WithinLocks(s, stages, records, q)
    ensures WithinLocks(s, stages, records[..j], q)
  {
    hide Tolerance;
    assert forall i :: 0 <= i < j ==> records[..j][i] == records[i];
  }

  /** In particular the final score is minimal, up to the final gap, among the solutions that
      respect the locks. */
  lemma TheFinalScoreIsMinimal<P(!new)>(s: Settings, stages: seq<Stage<P>>, solve: Backend<P>, feasible: P -> bool, q: P)
    requires Exact(s, stages, solve, feasible) && LoadsOnlySolutions(solve, feasible) && feasible(q)
    requires (s.absTolerance >= 0.0 || s.relTolerance >= 0.0) && |stages| > 0 && !stages[|stages| - 1].lockResult
    ensures var g, last := Run(s, stages, |stages|, solve), stages[|stages| - 1].score;
            && g.Continue? && g.progress.point.Some? && |g.progress.records| == |stages|
            && (WithinLocks(s, stages, g.progress.records, q) ==>
                  last(g.progress.point.value) <= last(q) + s.finalGap * Abs(last(g.progress.point.value)))
  {
    hide Run, OneStage, Exact, LoadsOnlySolutions, Admits, WithinLocks, Minima, Abs;
    TheResultIsOptimalWithinTheLocks(s, stages, solve, feasible, q);
    var g := Run(s, stages, |stages|, solve).progress;
    if WithinLocks(s, stages, g.records, q) {
      FewerLocks(s, stages, |stages| - 1, g.records, q);
      MinimumAt(s, stages, |stages| - 1, g.records, feasible, q);
    }
  }

  // ---------------------------------------------------------------- against the exact lexicographic order

  /** `p` is at most `q` in the lexicographic order of the scores from stage `j` on. */
  ghost predicate LexLeq<P>(stages: seq<Stage<P>>, j: nat, p: P, q: P)
    requires j <= |stages|
    decreases |stages| - j
  {
    j == |stages| || stages[j].score(p) < stages[j].score(q)
    || (stages[j].score(p) == stages[j].score(q) && LexLeq(stages, j + 1, p, q))
  }

  ghost predicate NonNegative(s: Settings) {
    s.absTolerance >= 0.0 && s.relTolerance >= 0.0 && s.lexicographicGap >= 0.0 && s.finalGap >= 0.0
  }

  /** The settings that apply leave no room: with one weighted stage only the final gap does. */
  predicate NoSlack(s: Settings) {
    s.finalGap == 0.0 && (s.lexicographic ==> s.absTolerance == 0.0 && s.relTolerance == 0.0 && s.lexicographicGap == 0.0)
  }

  /** Every stage but the last is locked, and without priorities there is only the last. */
  ghost predicate EarlierStagesAreLocked<P>(s: Settings, stages: seq<Stage<P>>) {
    && |stages| > 0 && (forall j :: 0 <= j < |stages| - 1 ==> stages[j].lockResult)
    && !stages[|stages| - 1].lockResult && (s.lexicographic || |stages| == 1)
  }

  lemma NoSlackNoTolerance(s: Settings, stages: nat, index: nat, value: real)
    requires NoSlack(s) && (s.lexicographic || index == stages - 1)
    ensures s.lexicographic ==> Tolerance(s, value) == 0.0
    ensures StageGap(s, stages, index) * Abs(value) == 0.0
  {
  }

  /** With zero tolerances and gaps the result is a lexicographic minimum of the whole model. */
  lemma ZeroTolerancesGiveTheLexicographicMinimum<P(!new)>(s: Settings, stages: seq<Stage<P>>, solve: Backend<P>, feasible: P -> bool, q: P)
    requires Exact(s, stages, solve, feasible) && LoadsOnlySolutions(solve, feasible) && feasible(q)
    requires NoSlack(s) && NonNegative(s) && EarlierStagesAreLocked(s, stages)
    ensures Run(s, stages, |stages|, solve).Continue?
    ensures var g := Run(s, stages, |stages|, solve).progress;
            g.point.Some? && LexLeq(stages, 0, g.point.value, q)
  {
    hide Run, OneStage, Exact, LoadsOnlySolutions, WithinLocks;
    TheResultIsOptimalWithinTheLocks(s, stages, solve, feasible, q);
    var g := Run(s, stages, |stages|, solve).progress;
    NothingLockedYet(s, stages, g.records, q);
    LexFrom(s, stages, 0, g.records, feasible, g.point.value, q);
  }

  lemma NothingLockedYet<P(!new)>(s: Settings, stages: seq<Stage<P>>, records: seq<StageRecord>, q: P)
    requires |records| <= |stages|
    ensures WithinLocks(s, stages, records[..0], q)
  {
  }

  lemma StageOrder<P(!new)>(s: Settings, stages: seq<Stage<P>>, j: nat, records: seq<StageRecord>, feasible: P -> bool, p: P, q: P)
    requires NoSlack(s) && EarlierStagesAreLocked(s, stages) && feasible(q) && j < |stages| == |records|
    requires Minima(s, stages, records, feasible) && WithinLocks(s, stages, records, p)
    requires stages[|stages| - 1].score(p) == records[|stages| - 1].value
    requires WithinLocks(s, stages, records[..j], q)
    ensures stages[j].score(p) <= records[j].value <= stages[j].score(q)
  {
    hide Tolerance, StageGap, Abs, WithinLocks, Minima, NoSlack;
    NoSlackNoTolerance(s, |stages|, j, records[j].value);
    MinimumAt(s, stages, j, records, feasible, q);
    if j < |stages| - 1 {
      LockAt(s, stages, j, records, p);
    }
  }

  lemma OneMoreLock<P(!new)>(s: Settings, stages: seq<Stage<P>>, j: nat, records: seq<StageRecord>, q: P)
    requires NoSlack(s) && EarlierStagesAreLocked(s, stages) && j < |stages| == |records|
    requires WithinLocks(s, stages, records[..j], q) && stages[j].score(q) <= records[j].value
    ensures WithinLocks(s, stages, records[..j + 1], q)
  {
    hide Tolerance, NoSlack;
    NoSlackNoTolerance(s, |stages|, j, records[j].value);
    assert forall i :: 0 <= i < j ==> records[..j + 1][i] == records[..j][i];
  }

  /** Stage by stage: the value reached is at most `q`'s, and where they are equal `q` respects the
      next lock as well. */
  lemma {:induction false} LexFrom<P(!new)>(s: Settings, stages: seq<Stage<P>>, j: nat, records: seq<StageRecord>, feasible: P -> bool, p: P, q: P)
    requires NoSlack(s) && EarlierStagesAreLocked(s, stages) && feasible(q) && j <= |stages| == |records|
    requires Minima(s, stages, records, feasible) && WithinLocks(s, stages, records, p)
    requires stages[|stages| - 1].score(p) == records[|stages| - 1].value
    requires WithinLocks(s, stages, records[..j], q)
    ensures LexLeq(stages, j, p, q)
    decreases |stages| - j
  {
    hide WithinLocks, Minima, NoSlack, EarlierStagesAreLocked;
    if j < |stages| {
      StageOrder(s, stages, j, records, feasible, p, q);
      if stages[j].score(p) == stages[j].score(q) {
        OneMoreLock(s, stages, j, records, q);
        LexFrom(s, stages, j + 1, records, feasible, p, q);
      }
    }
  }

  // ---------------------------------------------------------------- exactly when the minimum is guaranteed

  datatype Scores<!P> = Scores(service: P -> real, operational: P -> real, economic: P -> real, weighted: P -> real)

  /** The stages built from the four scores of a model. */
  function StagesOf<P>(s: Settings, scores: Scores<P>): seq<Stage<P>> {
    if s.lexicographic then [Stage(scores.service, true), Stage(scores.operational, true), Stage(scores.economic, false)]
    else [Stage(scores.weighted, false)]
  }

  /** With priorities: service and operational violation are locked, then cost; without: one weighted score. */
  lemma StagesAre<P(!new)>(s: Settings, scores: Scores<P>)
    ensures var stages := StagesOf(s, scores);
            if s.lexicographic then
              && |stages| == 3
              && stages[0].score == scores.service && stages[0].lockResult
              && stages[1].score == scores.operational && stages[1].lockResult
              && stages[2].score == scores.economic && !stages[2].lockResult
            else |stages| == 1 && stages[0].score == scores.weighted && !stages[0].lockResult
  {
  }

  ghost predicate ReturnsTheMinimum<P(!new)>(s: Settings, stages: seq<Stage<P>>, solve: Backend<P>, feasible: P -> bool) {
    var r := Run(s, stages, |stages|, solve);
    r.Continue? && r.progress.point.Some? && forall q :: feasible(q) ==> LexLeq(stages, 0, r.progress.point.value, q)
  }

  /** Over all scores of two solutions, and all exact solvers, a lexicographic minimum is returned. */
  ghost predicate GuaranteesTheMinimum(s: Settings) {
    forall scores: Scores<bool>, solve: Backend<bool>, feasible: bool -> bool ::
      Exact(s, StagesOf(s, scores), solve, feasible) && LoadsOnlySolutions(solve, feasible) && (feasible(true) || feasible(false)) ==>
        ReturnsTheMinimum(s, StagesOf(s, scores), solve, feasible)
  }

  predicate Anything(x: bool) {
    true
  }

  /** An exact solver over two solutions: `true` whenever the locks and the gap leave the choice. */
  ghost function PreferTrue(locks: seq<Lock<bool>>, score: bool -> real, gap: real): Report<bool> {
    if Admits(locks, true) && (!Admits(locks, false) || score(true) <= score(false) + gap * Abs(score(true))) then
      Finished("optimal", Some(true))
    else if Admits(locks, false) then Finished("optimal", Some(false))
    else Finished("infeasible", None)
  }

  lemma PreferTrueIsExact(s: Settings, stages: seq<Stage<bool>>)
    requires NonNegative(s)
    ensures Exact(s, stages, PreferTrue, Anything) && LoadsOnlySolutions(PreferTrue, Anything)
  {
    forall locks: seq<Lock<bool>>, j | 0 <= j < |stages| && (exists q :: Anything(q) && Admits(locks, q))
      ensures var r := PreferTrue(locks, stages[j].score, StageGap(s, |stages|, j));
              r.loaded.Some? && Minimises(Anything, locks, stages[j].score, StageGap(s, |stages|, j), r.loaded.value)
    {
      var r := PreferTrue(locks, stages[j].score, StageGap(s, |stages|, j));
      assert StageGap(s, |stages|, j) * Abs(stages[j].score(r.loaded.value)) >= 0.0;
    }
  }

  /** At stage `j` either the lock on `false`'s score still admits `true`, or the gap lets `true` be
      chosen over `false`. */
  ghost predicate Spares(s: Settings, stages: seq<Stage<bool>>, j: nat)
    requires j < |stages|
  {
    var score := stages[j].score;
    || score(true) <= score(false) + Tolerance(s, score(false))
    || score(true) <= score(false) + StageGap(s, |stages|, j) * Abs(score(true))
  }

  lemma OneStageAdmitsTrue(s: Settings, stages: seq<Stage<bool>>, index: nat, g: Progress<bool>)
    requires NonNegative(s) && index < |stages| && Spares(s, stages, index) && Admits(g.locks, true)
    ensures var r := OneStage(s, stages, index, PreferTrue, g);
            r.Continue? && Admits(r.progress.locks, true)
  {
    hide Admits, Abs, StageGap, Tolerance;
    var score := stages[index].score;
    OptimalIsUsable();
    LockKeepsItsOwnPoint(s, score(true));
    var kept := PreferTrue(g.locks, score, StageGap(s, |stages|, index)).loaded.value;
    AdmittedByOneMore(g.locks, LockOf(s, stages[index], score(kept)), true);
  }

  lemma {:induction false} TrueStaysAdmitted(s: Settings, stages: seq<Stage<bool>>, k: nat)
    requires NonNegative(s) && k <= |stages| && forall j :: 0 <= j < k ==> Spares(s, stages, j)
    ensures var r := Run(s, stages, k, PreferTrue);
            r.Continue? && Admits(r.progress.locks, true)
  {
    hide OneStage, Spares, NonNegative;
    if k > 0 {
      TrueStaysAdmitted(s, stages, k - 1);
      OneStageAdmitsTrue(s, stages, k - 1, Run(s, stages, k - 1, PreferTrue).progress);
    }
  }

  lemma OptimalIsUsable()
    ensures forall hasIncumbent :: Usable("optimal", hasIncumbent)
  {
    assert "optimal" <= "optimal"[0..];
  }

  lemma AdmittedByOneMore<P(!new)>(locks: seq<Lock<P>>, added: seq<Lock<P>>, p: P)
    requires Admits(locks, p) && forall l :: l in added ==> l.score(p) <= l.bound
    ensures Admits(locks + added, p)
  {
  }

  /** One stage tells the two solutions apart, to the disadvantage of `true`. */
  function Worse(here: bool, low: real, high: real): bool -> real {
    x => if !here then 0.0 else if x then high else low
  }

  function WorseAt(first: bool, low: real, high: real): Scores<bool> {
    Scores(Worse(first, low, high), Worse(false, low, high), Worse(!first, low, high), Worse(true, low, high))
  }

  lemma {:induction false} FirstDifferenceDecides<P>(stages: seq<Stage<P>>, i: nat, j: nat, p: P, q: P)
    requires i <= j < |stages| && stages[j].score(p) > stages[j].score(q)
    requires forall h :: i <= h < j ==> stages[h].score(p) == stages[h].score(q)
    ensures !LexLeq(stages, i, p, q)
    decreases j - i
  {
    if i < j {
      FirstDifferenceDecides(stages, i + 1, j, p, q);
    }
  }

  lemma PreferredIsKept(s: Settings, stages: seq<Stage<bool>>, index: nat, g: Progress<bool>)
    requires index < |stages| && Admits(g.locks, true)
    requires var score := stages[index].score; score(true) <= score(false) + StageGap(s, |stages|, index) * Abs(score(true))
    ensures var r := OneStage(s, stages, index, PreferTrue, g);
            r.Continue? && r.progress.point == Some(true)
  {
    hide Admits, Abs, StageGap, Tolerance;
    OptimalIsUsable();
    assert PreferTrue(g.locks, stages[index].score, StageGap(s, |stages|, index)) == Finished("optimal", Some(true));
  }

  /** Where `true` is spared all along and preferred at the end it is what the run returns. */
  lemma TrueIsReturned(s: Settings, stages: seq<Stage<bool>>)
    requires NonNegative(s) && |stages| > 0 && forall j :: 0 <= j < |stages| ==> Spares(s, stages, j)
    requires var last := stages[|stages| - 1].score; last(true) <= last(false) + StageGap(s, |stages|, |stages| - 1) * Abs(last(true))
    ensures var r := Run(s, stages, |stages|, PreferTrue);
            r.Continue? && r.progress.point == Some(true)
  {
    hide OneStage, Admits, Abs, StageGap, Tolerance, Spares, NonNegative;
    TrueStaysAdmitted(s, stages, |stages| - 1);
    PreferredIsKept(s, stages, |stages| - 1, Run(s, stages, |stages| - 1, PreferTrue).progress);
  }

  lemma IndifferenceIsSpared(s: Settings, stages: seq<Stage<bool>>, j: nat)
    requires NonNegative(s) && j < |stages| && stages[j].score(true) == stages[j].score(false)
    ensures Spares(s, stages, j)
    ensures stages[j].score(true) <= stages[j].score(false) + StageGap(s, |stages|, j) * Abs(stages[j].score(true))
  {
    LockKeepsItsOwnPoint(s, stages[j].score(false));
    Arithmetic.NotNegative(StageGap(s, |stages|, j), Abs(stages[j].score(true)));
  }

  /** Each tolerance or gap that applies lets the one stage with a difference pass over its minimum. */
  lemma SomeSlackSpares(s: Settings) returns (first: bool, low: real, high: real)
    requires NonNegative(s) && !NoSlack(s)
    ensures low < high && (first ==> s.lexicographic)
    ensures first ==> Spares(s, StagesOf(s, WorseAt(first, low, high)), 0)
    ensures !first ==> high <= low + s.finalGap * Abs(high)
  {
    if s.finalGap > 0.0 {
      return false, 1.0 - Min(s.finalGap, 1.0), 1.0;
    } else if s.lexicographicGap > 0.0 && s.lexicographic {
      return true, 1.0 - Min(s.lexicographicGap, 1.0), 1.0;
    } else {
      return true, 1.0, 1.0 + Tolerance(s, 1.0);
    }
  }

  lemma WorseIsReturned(s: Settings, first: bool, low: real, high: real)
    requires NonNegative(s) && (first ==> s.lexicographic)
    requires first ==> Spares(s, StagesOf(s, WorseAt(first, low, high)), 0)
    requires !first ==> high <= low + s.finalGap * Abs(high)
    ensures var stages := StagesOf(s, WorseAt(first, low, high));
            var r := Run(s, stages, |stages|, PreferTrue);
            r.Continue? && r.progress.point == Some(true)
  {
    hide Run, Tolerance, Abs, NonNegative;
    var stages := StagesOf(s, WorseAt(first, low, high));
    var last := |stages| - 1;
    forall j | 0 <= j < |stages| && j != (if first then 0 else last) ensures Spares(s, stages, j) {
      IndifferenceIsSpared(s, stages, j);
    }
    if first {
      IndifferenceIsSpared(s, stages, last);
    }
    TrueIsReturned(s, stages);
  }

  lemma SlackMissesTheMinimum(s: Settings)
    requires NonNegative(s) && !NoSlack(s)
    ensures !GuaranteesTheMinimum(s)
  {
    hide Run, Exact, LoadsOnlySolutions, Abs, NoSlack, Spares, LexLeq, NonNegative;
    var first, low, high := SomeSlackSpares(s);
    var stages := StagesOf(s, WorseAt(first, low, high));
    WorseIsReturned(s, first, low, high);
    FirstDifferenceDecides(stages, 0, if first then 0 else |stages| - 1, true, false);
    PreferTrueIsExact(s, stages);
    assert Anything(false) && !ReturnsTheMinimum(s, stages, PreferTrue, Anything);
  }

  /** The run returns a lexicographic minimum whatever the scores and whichever exact solver is used
      if and only if the settings leave no slack. */
  lemma MinimumIsGuaranteedIffNoSlack(s: Settings)
    requires s.absTolerance >= 0.0 && s.relTolerance >= 0.0 && s.lexicographicGap >= 0.0 && s.finalGap >= 0.0
    ensures GuaranteesTheMinimum(s) <==>
      && s.finalGap == 0.0
      && (s.lexicographic ==> s.absTolerance == 0.0 && s.relTolerance == 0.0 && s.lexicographicGap == 0.0)
  {
    hide Run, Exact, LoadsOnlySolutions, LexLeq;
    if NoSlack(s) {
      forall scores: Scores<bool>, solve: Backend<bool>, feasible: bool -> bool |
        Exact(s, StagesOf(s, scores), solve, feasible) && LoadsOnlySolutions(solve, feasible) && (feasible(true) || feasible(false))
        ensures ReturnsTheMinimum(s, StagesOf(s, scores), solve, feasible)
      {
        forall q | feasible(q)
          ensures Run(s, StagesOf(s, scores), |StagesOf(s, scores)|, solve).Continue?
          ensures var g := Run(s, StagesOf(s, scores), |StagesOf(s, scores)|, solve).progress;
                  g.point.Some? && LexLeq(StagesOf(s, scores), 0, g.point.value, q)
        {
          ZeroTolerancesGiveTheLexicographicMinimum(s, StagesOf(s, scores), solve, feasible, q);
        }
      }
    } else {
      SlackMissesTheMinimum(s);
    }
  }

  // ---------------------------------------------------------------- the price of the first tolerance

  function LockedOut(s: Settings, price: real): Scores<bool> {
    Scores(Worse(true, 0.0, s.absTolerance), Worse(true, s.absTolerance + 1.0, 0.0), Worse(true, 0.0, price), Worse(true, 0.0, price))
  }

  /** With a positive absolute tolerance there are two solutions for which every exact solver makes
      the run return the one that is worse on the first score and, by any amount, on the last: the
      second stage locks the other one out. */
  lemma SlackCanLockOutTheBetterPlan(s: Settings, price: real, solve: Backend<bool>)
    requires NonNegative(s) && s.lexicographic && s.absTolerance > 0.0 && s.lexicographicGap < 1.0 && price > 0.0
    requires Exact(s, StagesOf(s, LockedOut(s, price)), solve, Anything) && LoadsOnlySolutions(solve, Anything)
    ensures var scores := LockedOut(s, price);
            scores.service(true) > scores.service(false) && scores.economic(true) == scores.economic(false) + price
    ensures var stages := StagesOf(s, LockedOut(s, price));
            Run(s, stages, 3, solve).Continue? && Run(s, stages, 3, solve).progress.point == Some(true)
  {
    hide Run, OneStage, Exact, LoadsOnlySolutions, Admits, Minimises, Minima;
    var stages := StagesOf(s, LockedOut(s, price));
    TheResultIsOptimalWithinTheLocks(s, stages, solve, Anything, true);
    var r := Run(s, stages, 3, solve).progress.records;
    MinimumAttained(s, stages, 0, r, Anything);
    NothingLockedYet(s, stages, r, false);
    MinimumAt(s, stages, 0, r, Anything, false);
    OnlyZeroIsBelowItsGap(r[0].value, s.lexicographicGap);
    assert WithinLocks(s, stages, r[..1], true);
    MinimumAttained(s, stages, 1, r, Anything);
    MinimumAt(s, stages, 1, r, Anything, true);
    OnlyZeroIsBelowItsGap(r[1].value, s.lexicographicGap);
    LockAt(s, stages, 1, r, Run(s, stages, 3, solve).progress.point.value);
  }

  lemma OnlyZeroIsBelowItsGap(value: real, gap: real)
    requires 0.0 <= gap < 1.0 && value >= 0.0
    ensures value <= gap * Abs(value) ==> value == 0.0
  {
    if value > 0.0 {
      Arithmetic.ProductIsPositive(1.0 - gap, value);
      assert (1.0 - gap) * value == value - gap * value == value - gap * Abs(value);
    }
  }

  // ---------------------------------------------------------------- when there is an exact solver

  /** Under these locks, if they are on the stages' scores and leave a solution at all, the stage's score
      has a minimiser. */
  ghost predicate HasMinimum<P(!new)>(s: Settings, stages: seq<Stage<P>>, feasible: P -> bool, locks: seq<Lock<P>>, j: nat)
    requires j < |stages|
  {
    OnStages(stages, locks) && (exists q :: feasible(q) && Admits(locks, q)) ==>
      exists p :: Minimises(feasible, locks, stages[j].score, StageGap(s, |stages|, j), p)
  }

  ghost predicate MinimaExist<P(!new)>(s: Settings, stages: seq<Stage<P>>, feasible: P -> bool) {
    forall locks, j: nat :: j < |stages| ==> HasMinimum(s, stages, feasible, locks, j)
  }

  /** The solver that finds some minimiser whenever there is one. */
  ghost function Best<P(!new)>(feasible: P -> bool): Backend<P> {
    (locks: seq<Lock<P>>, score: P -> real, gap: real) =>
      if exists p :: Minimises(feasible, locks, score, gap, p) then
        var p :| Minimises(feasible, locks, score, gap, p);
        Finished("optimal", Some(p))
      else Finished("infeasible", None)
  }

  /** Exact: there is an exact solver that loads only solutions if and only if the minima exist. */
  lemma ExactSolverExistsIff<P(!new)>(s: Settings, stages: seq<Stage<P>>, feasible: P -> bool)
    ensures (exists solve: Backend<P> :: Exact(s, stages, solve, feasible) && LoadsOnlySolutions(solve, feasible)) <==> MinimaExist(s, stages, feasible)
  {
    if MinimaExist(s, stages, feasible) {
      BestIsExact(s, stages, feasible);
    }
    if solve: Backend<P> :| Exact(s, stages, solve, feasible) && LoadsOnlySolutions(solve, feasible) {
      forall locks, j: nat | j < |stages| ensures HasMinimum(s, stages, feasible, locks, j) {
        if OnStages(stages, locks) && exists q :: feasible(q) && Admits(locks, q) {
          var r := solve(locks, stages[j].score, StageGap(s, |stages|, j));
          assert Minimises(feasible, locks, stages[j].score, StageGap(s, |stages|, j), r.loaded.value);
        }
      }
    }
  }

  lemma BestIsExact<P(!new)>(s: Settings, stages: seq<Stage<P>>, feasible: P -> bool)
    requires MinimaExist(s, stages, feasible)
    ensures Exact(s, stages, Best(feasible), feasible) && LoadsOnlySolutions(Best(feasible), feasible)
  {
    hide OnStages;
    var solve := Best(feasible);
    forall locks, j | 0 <= j < |stages| && OnStages(stages, locks) && (exists q :: feasible(q) && Admits(locks, q))
      ensures var r := solve(locks, stages[j].score, StageGap(s, |stages|, j));
              r.Finished? && r.loaded.Some? && Minimises(feasible, locks, stages[j].score, StageGap(s, |stages|, j), r.loaded.value)
    {
      assert HasMinimum(s, stages, feasible, locks, j);
    }
  }

  // ---------------------------------------------------------------- falling back over solvers

  datatype Outcome<+P> = Solved(point: P, records: seq<StageRecord>) | NoSolution | RuntimeError

  /** Solver `i` completed every stage with this point and these records, and no earlier one did. */
  ghost predicate WinsAt<P(!new)>(s: Settings, stages: seq<Stage<P>>, solvers: seq<Option<Backend<P>>>, i: nat, point: P, records: seq<StageRecord>) {
    && i < |solvers| && solvers[i].Some?
    && Run(s, stages, |stages|, solvers[i].value).Continue?
    && Run(s, stages, |stages|, solvers[i].value).progress.point == Some(point)
    && Run(s, stages, |stages|, solvers[i].value).progress.records == records
    && forall h :: 0 <= h < i && solvers[h].Some? ==> !Run(s, stages, |stages|, solvers[h].value).Continue?
  }

  /** The solvers in the configured order, `None` for one that is not available: the first that
      completes every stage wins. A failure is reported only if some solver failed at a stage
      without leaving by an exception. */
  method SolveWithFallback<P(!new)>(s: Settings, stages: seq<Stage<P>>, solvers: seq<Option<Backend<P>>>) returns (r: Outcome<P>)
    requires |stages| > 0
    ensures r.Solved? <==> exists i :: 0 <= i < |solvers| && solvers[i].Some? && Run(s, stages, |stages|, solvers[i].value).Continue?
    ensures r.Solved? ==> exists i :: WinsAt(s, stages, solvers, i, r.point, r.records)
    ensures r.NoSolution? ==> exists i :: 0 <= i < |solvers| && solvers[i].Some? && Run(s, stages, |stages|, solvers[i].value).StageFailed?
    ensures r.RuntimeError? ==> forall i :: 0 <= i < |solvers| && solvers[i].Some? ==> Run(s, stages, |stages|, solvers[i].value).Escaped?
  {
    var reported := false;
    for i := 0 to |solvers|
      invariant forall h :: 0 <= h < i && solvers[h].Some? ==> !Run(s, stages, |stages|, solvers[h].value).Continue?
      invariant reported <==> exists h :: 0 <= h < i && solvers[h].Some? && Run(s, stages, |stages|, solvers[h].value).StageFailed?
    {
      if solvers[i].Some? {
        var step := SolveStages(s, stages, solvers[i].value);
        match step
        case Continue(g) =>
          assert WinsAt(s, stages, solvers, i, g.point.value, g.records);
          return Solved(g.point.value, g.records);
        case StageFailed(_) => reported := true;
        case Escaped(_) =>
      }
    }
    r := if reported then NoSolution else RuntimeError;
  }
}
