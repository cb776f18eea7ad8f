/**
 * Long-running operations: the pure transition functions and one saga's life
 * under several workers. Each transaction commits or rolls back as a whole; the
 * write that records a failed step happens later and on its own.
 */
module SagaCore {
  import opened Common

  const MAX_ATTEMPTS := 5
  const BACKOFF_MINUTES: seq<int> := [1, 5, 30, 120]
  const POLL_MS := 60_000

  datatype Status = Running | Waiting | Completed | Compensating | Compensated | Failed

  datatype StepResult = Next | WaitTask(taskId: int) | Done

  datatype TaskStatus = TaskOpen | TaskDone | TaskCancelled

  datatype SagaRow = SagaRow(status: Status, stepIndex: int, attempts: int)

  datatype Patch = Patch(row: SagaRow, waitingTaskId: Option<int>, nextRunAt: Option<int>, finished: bool)

  function SagaBackoffMs(attempts: int): int {
    BACKOFF_MINUTES[Min(Max(attempts, 1), |BACKOFF_MINUTES|) - 1] * 60_000
  }

  function AfterStepSuccess(row: SagaRow, totalSteps: nat, result: StepResult, now: int): Patch {
    var nextIndex := row.stepIndex + 1;
    if result.Done? then Patch(SagaRow(Completed, totalSteps, 0), None, None, true)
    else if result.WaitTask? then
      Patch(SagaRow(Waiting, nextIndex, 0), Some(result.taskId), Some(now + POLL_MS), false)
    else if nextIndex >= totalSteps then Patch(SagaRow(Completed, totalSteps, 0), None, None, true)
    else Patch(SagaRow(Running, nextIndex, 0), None, Some(now), false)
  }

  /** Where an abort at `stepIndex` goes: back through the committed steps, or straight to failed. */
  function Abort(stepIndex: int, attempts: int, now: int): Patch {
    if stepIndex - 1 < 0 then Patch(SagaRow(Failed, stepIndex, attempts), None, None, true)
    else Patch(SagaRow(Compensating, stepIndex - 1, 0), None, Some(now), false)
  }

  function AfterStepFailure(row: SagaRow, now: int): Patch {
    var attempts := row.attempts + 1;
    if attempts >= MAX_ATTEMPTS then Abort(row.stepIndex, attempts, now)
    else Patch(SagaRow(Running, row.stepIndex, attempts), None, Some(now + SagaBackoffMs(attempts)), false)
  }

  function AfterCompensation(row: SagaRow, now: int): Patch {
    if row.stepIndex - 1 < 0 then Patch(SagaRow(Compensated, 0, 0), None, None, true)
    else Patch(SagaRow(Compensating, row.stepIndex - 1, 0), None, Some(now), false)
  }

  function ResumeAfterTask(row: SagaRow, task: TaskStatus, now: int): Option<Patch> {
    match task
    case TaskDone => Some(Patch(SagaRow(Running, row.stepIndex, 0), None, Some(now), false))
    case TaskCancelled => Some(Abort(row.stepIndex, 0, now))
    case TaskOpen => None
  }

  // -------------------------------------------------------------- one saga

  datatype Effect = Ran(step: int) | Undid(step: int)

  /** The stored row, and the history of effects its transactions have committed. */
  datatype Saga = Saga(
    steps: nat, row: SagaRow, waitingTaskId: Option<int>, nextRunAt: int, finished: bool, log: seq<Effect>)

  /** The row a worker saw when its step threw, and the time it saw it. */
  datatype FailureWrite = FailureWrite(seen: SagaRow, now: int)

  /** What the surroundings decide during one transaction. */
  datatype Surroundings = Surroundings(
    step: Option<StepResult>, compensationThrows: bool, task: TaskStatus, commits: bool)

  function NewSaga(steps: nat, now: int): Saga {
    Saga(steps, SagaRow(Running, 0, 0), None, now, false, [])
  }

  function ApplyPatch(s: Saga, p: Patch): Saga {
    s.(row := p.row, waitingTaskId := p.waitingTaskId, finished := p.finished,
       nextRunAt := if p.nextRunAt.Some? then p.nextRunAt.value else s.nextRunAt)
  }

  /** The failure write leaves the waiting task alone and does not look at the row it overwrites. */
  function LandFailure(s: Saga, w: FailureWrite): Saga {
    ApplyPatch(s, AfterStepFailure(w.seen, w.now)).(waitingTaskId := s.waitingTaskId)
  }

  predicate Claimable(s: Saga, now: int) {
    (s.row.status == Running || s.row.status == Waiting || s.row.status == Compensating) && s.nextRunAt <= now
  }

  predicate StepThrows(s: Saga, now: int, env: Surroundings) {
    Claimable(s, now) && s.row.status == Running && s.row.stepIndex < s.steps && env.step.None?
  }

  /** One transaction: claim the row, do what its phase asks for, commit. */
  function Transact(s: Saga, now: int, env: Surroundings): Saga {
    if !Claimable(s, now) || !env.commits then s
    else match s.row.status
      case Waiting =>
        (match ResumeAfterTask(s.row, env.task, now)
         case None => s.(nextRunAt := now + POLL_MS)
         case Some(p) => ApplyPatch(s, p))
      case Compensating =>
        if env.compensationThrows then s
        else ApplyPatch(s, AfterCompensation(s.row, now)).(log := s.log + [Undid(s.row.stepIndex)])
      case _ =>
        if s.row.stepIndex >= s.steps then ApplyPatch(s, AfterStepSuccess(s.row, s.steps, Done, now))
        else if env.step.None? then s
        else
          ApplyPatch(s, AfterStepSuccess(s.row, s.steps, env.step.value, now))
          .(log := s.log + [Ran(s.row.stepIndex)])
  }

  // ------------------------------------------------------ what the log may be

  /** Steps 0..k-1, run once each in order. */
  function Runs(k: int): seq<Effect> {
    if k <= 0 then [] else Runs(k - 1) + [Ran(k - 1)]
  }

  /** Steps k-1..i, undone once each in reverse. */
  function Undos(k: int, i: int): seq<Effect>
    decreases k - i
  {
    if k <= i then [] else Undos(k, i + 1) + [Undid(i)]
  }

  /** The committed effects match the phase the row is in. */
  ghost predicate Traced(s: Saga) {
    var k := s.row.stepIndex;
    match s.row.status
    case Running => 0 <= k <= s.steps && s.log == Runs(k) && 0 <= s.row.attempts < MAX_ATTEMPTS && !s.finished
    case Waiting => 1 <= k <= s.steps && s.log == Runs(k) && s.row.attempts == 0 && !s.finished
    case Completed => k == s.steps && s.finished && exists m: int :: 0 <= m <= s.steps && s.log == Runs(m)
    case Compensating =>
      0 <= k && !s.finished && exists m: int :: k < m <= s.steps && s.log == Runs(m) + Undos(m, k + 1)
    case Compensated => s.finished && exists m: int :: 0 < m <= s.steps && s.log == Runs(m) + Undos(m, 0)
    case Failed => s.finished && s.log == []
  }

  lemma TransactKeepsTrace(s: Saga, now: int, env: Surroundings)
    requires Traced(s)
    ensures Traced(Transact(s, now, env))
  {
    var t := Transact(s, now, env);
    var k := s.row.stepIndex;
    if t != s {
      match s.row.status
      case Waiting =>
        if env.task.TaskCancelled? { assert t.log == Runs(k) + Undos(k, k); }
      case Compensating =>
        var m: int :| k < m <= s.steps && s.log == Runs(m) + Undos(m, k + 1);
        assert t.log == Runs(m) + (Undos(m, k + 1) + [Undid(k)]);
        assert t.log == Runs(m) + Undos(m, k);
      case Running =>
        assert t.log == if k >= s.steps then Runs(k) else Runs(k + 1);
      case _ =>
    }
  }

  /** A failure write lands harmlessly on the row it was computed from. */
  lemma OrderlyFailureKeepsTrace(s: Saga, w: FailureWrite)
    requires Traced(s) && s.row == w.seen && s.row.status == Running && s.row.stepIndex < s.steps
    ensures Traced(LandFailure(s, w))
  {
    var k := s.row.stepIndex;
    assert s.log == Runs(k) + Undos(k, k);
  }

  // ------------------------------------------------------ all runs of a saga

  datatype World = World(saga: Saga, pending: seq<FailureWrite>)

  datatype Event =
    | Claim(now: int, env: Surroundings)
    | Land(index: nat)
    | Lose(index: nat)

  /** One event of any worker, whatever the others are doing. */
  function Step(w: World, e: Event): World {
    match e
    case Claim(now, env) =>
      if StepThrows(w.saga, now, env) then w.(pending := w.pending + [FailureWrite(w.saga.row, now)])
      else w.(saga := Transact(w.saga, now, env))
    case Land(i) =>
      if i < |w.pending| then World(LandFailure(w.saga, w.pending[i]), Without(w.pending, i)) else w
    case Lose(i) =>
      if i < |w.pending| then w.(pending := Without(w.pending, i)) else w
  }

  function Run(w: World, events: seq<Event>): World {
    if events == [] then w else Step(Run(w, events[..|events| - 1]), events[|events| - 1])
  }

  /** A failure write lands, or is lost, before the row is claimed again. */
  ghost predicate Orderly(w: World, events: seq<Event>) {
    events != [] ==>
      var n := |events| - 1;
      && Orderly(w, events[..n])
      && (events[n].Claim? ==> Run(w, events[..n]).pending == [])
  }

  function Start(steps: nat, now: int): World { World(NewSaga(steps, now), []) }

  ghost predicate Settled(w: World) {
    && Traced(w.saga)
    && |w.pending| <= 1
    && (w.pending != [] ==>
          w.pending[0].seen == w.saga.row && w.saga.row.status == Running && w.saga.row.stepIndex < w.saga.steps)
  }

  lemma StepKeepsSettled(w: World, e: Event)
    requires Settled(w) && (e.Claim? ==> w.pending == [])
    ensures Settled(Step(w, e))
    ensures w.saga.finished ==> Step(w, e).saga == w.saga
  {
    match e
    case Claim(now, env) => TransactKeepsTrace(w.saga, now, env);
    case Land(i) => if i < |w.pending| { OrderlyFailureKeepsTrace(w.saga, w.pending[0]); }
    case Lose(i) =>
  }

  lemma {:induction false} RunIsSettled(w: World, events: seq<Event>)
    requires Settled(w) && Orderly(w, events)
    ensures Settled(Run(w, events)) && Run(w, events).saga.steps == w.saga.steps
    decreases |events|
  {
    if events != [] {
      var n := |events| - 1;
      RunIsSettled(w, events[..n]);
      StepKeepsSettled(Run(w, events[..n]), events[n]);
    }
  }

  /**
   * Every orderly run of a saga commits steps 0..m-1 once each in order and
   * then, on abort, undoes them once each in reverse. A compensated saga has
   * nothing left to undo, a failed one never committed a step, and a running
   * one has attempts to spare.
   */
  lemma SagaTrace(steps: nat, now: int, events: seq<Event>)
    requires Orderly(Start(steps, now), events)
    ensures var s := Run(Start(steps, now), events).saga;
            && (exists m: int, i: int :: 0 <= i <= m <= steps && s.log == Runs(m) + Undos(m, i))
            && (s.row.status == Compensated ==> exists m: int :: s.log == Runs(m) + Undos(m, 0))
            && (s.row.status == Completed ==> exists m: int :: s.log == Runs(m))
            && (s.row.status == Failed ==> s.log == [])
            && (s.row.status == Running ==> s.log == Runs(s.row.stepIndex) && 0 <= s.row.attempts < MAX_ATTEMPTS)
  {
    RunIsSettled(Start(steps, now), events);
    var s := Run(Start(steps, now), events).saga;
    var k := s.row.stepIndex;
    match s.row.status
    case Running => assert s.log == Runs(k) + Undos(k, k);
    case Waiting => assert s.log == Runs(k) + Undos(k, k);
    case Completed =>
      var m: int :| 0 <= m <= s.steps && s.log == Runs(m);
      assert s.log == Runs(m) + Undos(m, m);
    case Compensating =>
      var m: int :| k < m <= s.steps && s.log == Runs(m) + Undos(m, k + 1);
    case Compensated =>
    case Failed => assert s.log == Runs(0) + Undos(0, 0);
  }

  /**
   * A failed step that is to be retried rests for 1, 5, 30, then 120 minutes:
   * until then no worker can claim the row.
   */
  lemma RetryWaits(s: Saga, w: FailureWrite, now: int)
    requires w.seen.status == Running && 0 <= w.seen.attempts < MAX_ATTEMPTS - 1
    ensures var t := LandFailure(s, w);
            && t.row.status == Running && t.row.attempts == w.seen.attempts + 1
            && (Claimable(t, now) <==> now >= w.now + BACKOFF_MINUTES[w.seen.attempts] * 60_000)
  {
  }

  // ------------------------------------------------- when the write comes late

  /** Without the ordering a step can commit twice: the late write puts the saga back in front of it. */
  lemma LateFailureWriteRepeatsAStep(steps: nat, now: int)
    requires steps >= 2
    ensures var throws := Claim(now, Surroundings(None, false, TaskOpen, true));
            var runs := Claim(now + 60_000, Surroundings(Some(Next), false, TaskOpen, true));
            Run(Start(steps, now), [throws, runs, Land(0), runs]).saga.log == [Ran(0), Ran(0)]
  {
    var throws := Claim(now, Surroundings(None, false, TaskOpen, true));
    var runs := Claim(now + 60_000, Surroundings(Some(Next), false, TaskOpen, true));
    var w0, es := Start(steps, now), [throws, runs, Land(0), runs];
    assert es[..3][..2][..1][..0] == [] && es[..3][..2][..1] == [throws];
    assert es[..3][..2] == [throws, runs] && es[..3] == [throws, runs, Land(0)];
    var w1 := Step(w0, throws);
    var w2 := Step(w1, runs);
    var w3 := Step(w2, Land(0));
    assert Run(w0, [throws]) == w1;
    assert Run(w0, [throws, runs]) == w2;
    assert Run(w0, es[..3]) == w3;
    assert w2.saga.log == [Ran(0)] && w3.saga.row == SagaRow(Running, 0, 1);
  }

  lemma {:induction false} RunsEndWithRan(m: int)
    requires m > 0
    ensures Runs(m) != [] && Runs(m)[|Runs(m)| - 1] == Ran(m - 1)
  {
  }

  /**
   * Exactly when a failure write, however late, keeps the trace, that is, leaves
   * the committed effects consistent with the row: nothing else may have been
   * committed since, or the saga is already compensating at the very place the
   * write sends it to.
   */
  lemma LateFailureWriteExactly(s: Saga, w: FailureWrite)
    requires Traced(s) && w.seen.status == Running
    requires 0 <= w.seen.stepIndex < s.steps && 0 <= w.seen.attempts < MAX_ATTEMPTS
    ensures Traced(LandFailure(s, w)) <==>
              || s.log == Runs(w.seen.stepIndex)
              || (w.seen.attempts == MAX_ATTEMPTS - 1 && s.row.status == Compensating
                && s.row.stepIndex == w.seen.stepIndex - 1)
  {
    var n, t := w.seen.stepIndex, LandFailure(s, w);
    NothingUndone(n);
    if Traced(t) && t.row.status == Compensating && s.log != Runs(n) {
      var m: int :| n - 1 < m <= s.steps && s.log == Runs(m) + Undos(m, n);
      CompensatingThere(s, n, m);
    }
    hide Runs, Undos;
  }

  lemma NothingUndone(n: int)
    ensures Runs(n) == Runs(n) + Undos(n, n)
  {
  }

  /** A log that ends with undoing step `n`, not the first, belongs to a saga compensating at the step before. */
  lemma CompensatingThere(s: Saga, n: int, m: int)
    requires Traced(s) && 0 < n <= m && s.log == Runs(m) + Undos(m, n) && s.log != Runs(n)
    ensures s.row.status == Compensating && s.row.stepIndex == n - 1
  {
    NothingUndone(n);
    if n < m { UndosEndWithUndid(m, n); }
    LastEffect(s);
    hide Traced, Runs, Undos;
  }

  /** What a saga has done last, as far as its phase tells. */
  lemma LastEffect(s: Saga)
    requires Traced(s) && s.log != []
    ensures var last := s.log[|s.log| - 1];
            match s.row.status
            case Compensating => last == Undid(s.row.stepIndex + 1) || last.Ran?
            case Compensated => last == Undid(0)
            case _ => last.Ran?
  {
    var k := s.row.stepIndex;
    match s.row.status
    case Compensating =>
      var m: int :| k < m <= s.steps && s.log == Runs(m) + Undos(m, k + 1);
      LogEnd(m, k + 1);
    case Completed =>
      var m: int :| 0 <= m <= s.steps && s.log == Runs(m);
      LogEnd(m, m);
    case Compensated =>
      var m: int :| 0 < m <= s.steps && s.log == Runs(m) + Undos(m, 0);
      LogEnd(m, 0);
    case Failed =>
    case _ =>
      LogEnd(k, k);
  }

  /** The last effect of a history: the last step undone, or else the last one run. */
  lemma LogEnd(m: int, i: int)
    requires 0 <= i <= m
    ensures var log := Runs(m) + Undos(m, i);
            && (i == m ==> log == Runs(m))
            && (log != [] ==> log[|log| - 1] == if i < m then Undid(i) else Ran(m - 1))
            && (log == [] <==> m == 0)
  {
    if i < m {
      UndosEndWithUndid(m, i);
    } else {
      NothingUndone(m);
      if m > 0 { RunsEndWithRan(m); }
    }
  }

  /** What the worker behind a failure write reports, whether the write lands or is lost. */
  function FailureReport(f: FailureWrite): Status { AfterStepFailure(f.seen, f.now).row.status }

  /**
   * In every world, the report of a landing write is true at that moment, and
   * that of a lost one exactly when the row has the reported status anyway.
   */
  lemma FailureReportIsTrueExactly(w: World, i: nat)
    requires i < |w.pending|
    ensures Step(w, Land(i)).saga.row.status == FailureReport(w.pending[i])
    ensures Step(w, Lose(i)).saga.row.status == FailureReport(w.pending[i]) <==>
            w.saga.row.status == FailureReport(w.pending[i])
  {
  }

  lemma {:induction false} RunsLength(m: int)
    ensures |Runs(m)| == Max(0, m)
  {
    if m > 0 { RunsLength(m - 1); }
  }

  lemma {:induction false} UndosLength(m: int, i: int)
    ensures |Undos(m, i)| == Max(0, m - i)
    decreases m - i
  {
    if i < m { UndosLength(m, i + 1); }
  }

  /** A write that saw a running step of this saga. */
  predicate Plausible(s: Saga, w: FailureWrite) {
    w.seen.status == Running && 0 <= w.seen.stepIndex < s.steps && 0 <= w.seen.attempts < MAX_ATTEMPTS
  }

  /** If the event is the landing of a failure write, it meets that condition. */
  ghost predicate KeepsTrace(w: World, e: Event) {
    e.Land? && e.index < |w.pending| ==>
      var s, seen := w.saga, w.pending[e.index].seen;
      || s.log == Runs(seen.stepIndex)
      || (seen.attempts == MAX_ATTEMPTS - 1 && s.row.status == Compensating && s.row.stepIndex == seen.stepIndex - 1)
  }

  /** The trace is right, and whoever has a failure to write saw a running step. */
  ghost predicate Proper(w: World) {
    Traced(w.saga) && forall f :: f in w.pending ==> Plausible(w.saga, f)
  }

  lemma LandKeepsSteps(s: Saga, w: FailureWrite)
    ensures LandFailure(s, w).steps == s.steps
  {
  }

  lemma StepKeepsTraceExactly(w: World, e: Event)
    requires Proper(w)
    ensures Traced(Step(w, e).saga) <==> KeepsTrace(w, e)
    ensures Traced(Step(w, e).saga) ==> Proper(Step(w, e))
  {
    match e
    case Claim(now, env) =>
      TransactKeepsTrace(w.saga, now, env);
      hide Runs, Undos;
    case Land(i) =>
      if i < |w.pending| {
        var f := w.pending[i];
        assert f in w.pending;
        LateFailureWriteExactly(w.saga, f);
        hide Traced, Runs, LandFailure;
        assert Step(w, e) == World(LandFailure(w.saga, f), Without(w.pending, i));
        LandKeepsSteps(w.saga, f);
        forall g | g in Without(w.pending, i) ensures Plausible(LandFailure(w.saga, f), g) {
          assert g in w.pending;
        }
      }
    case Lose(i) =>
  }

  /**
   * Over every run, whatever the workers do: the trace is right all along if and
   * only if every failure write that lands meets the condition.
   */
  lemma TraceIsKeptExactly(steps: nat, now: int, events: seq<Event>)
    ensures (forall k: nat :: k <= |events| ==> Traced(After(steps, now, events, k).saga)) <==>
            (forall k: nat :: k < |events| ==> KeepsTrace(After(steps, now, events, k), events[k]))
  {
    hide KeepsTrace, Traced, Proper;
    if forall k: nat :: k <= |events| ==> Traced(After(steps, now, events, k).saga) {
      forall k: nat | k < |events| ensures KeepsTrace(After(steps, now, events, k), events[k]) {
        ProperUpTo(steps, now, events, k);
        OneMore(steps, now, events, k);
        StepKeepsTraceExactly(After(steps, now, events, k), events[k]);
      }
    } else if forall k: nat :: k < |events| ==> KeepsTrace(After(steps, now, events, k), events[k]) {
      forall k: nat | k <= |events| ensures Traced(After(steps, now, events, k).saga) {
        ProperUpTo(steps, now, events, k);
        ProperIsTraced(After(steps, now, events, k));
      }
    }
  }

  function After(steps: nat, now: int, events: seq<Event>, k: nat): World
    requires k <= |events|
  {
    Run(Start(steps, now), events[..k])
  }

  lemma OneMore(steps: nat, now: int, events: seq<Event>, k: nat)
    requires k < |events|
    ensures After(steps, now, events, k + 1) == Step(After(steps, now, events, k), events[k])
  {
    assert events[..k + 1][..k] == events[..k];
  }

  lemma ProperIsTraced(w: World)
    requires Proper(w)
    ensures Traced(w.saga)
  {
  }

  lemma {:induction false} ProperUpTo(steps: nat, now: int, events: seq<Event>, l: nat)
    requires l <= |events|
    requires forall k: nat :: k < l ==>
               KeepsTrace(After(steps, now, events, k), events[k]) || Traced(After(steps, now, events, k + 1).saga)
    ensures Proper(After(steps, now, events, l))
    decreases l
  {
    if l == 0 {
      assert events[..0] == [];
      assert Runs(0) == [];
    } else {
      hide KeepsTrace, Traced, Proper;
      ProperUpTo(steps, now, events, l - 1);
      OneMore(steps, now, events, l - 1);
      StepKeepsTraceExactly(After(steps, now, events, l - 1), events[l - 1]);
    }
  }

  /**
   * Keeping the trace is not enough for a late write to be harmless: it can
   * reopen a finished saga. One that is finished stays so under exactly the
   * writes that give up at the first step, and stays as it is when it was given
   * up there itself.
   */
  lemma LateFailureWriteFinalExactly(s: Saga, w: FailureWrite)
    requires s.finished && Plausible(s, w)
    ensures LandFailure(s, w).finished <==> w.seen.stepIndex == 0 && w.seen.attempts == MAX_ATTEMPTS - 1
    ensures LandFailure(s, w) == s <==>
              && w.seen.stepIndex == 0 && w.seen.attempts == MAX_ATTEMPTS - 1
              && s.row == SagaRow(Failed, 0, MAX_ATTEMPTS)
  {
  }

  /**
   * And it can set a saga back: raise again what is left to do, by calling off an
   * abort or by lowering the attempt counter. Among the writes that keep the
   * trace, exactly these do not: a retry of a saga that is still running, with no
   * more attempts on its row, or waiting; and a giving up of one that is not
   * finished yet, or at the first step.
   */
  lemma LateFailureWriteSetsBackExactly(s: Saga, w: FailureWrite)
    requires Traced(s) && Plausible(s, w) && Traced(LandFailure(s, w))
    ensures Potential(LandFailure(s, w)) <= Potential(s) <==>
              if w.seen.attempts < MAX_ATTEMPTS - 1 then
                s.row.status == Waiting || (s.row.status == Running && s.row.attempts <= w.seen.attempts + 1)
              else
                !s.finished || w.seen.stepIndex == 0
  {
    LateFailureWriteExactly(s, w);
    var n := w.seen.stepIndex;
    RunsLength(n);
    RunsLength(s.row.stepIndex);
    if s.row.status == Compensating && s.log == Runs(n) {
      var m: int :| s.row.stepIndex < m <= s.steps && s.log == Runs(m) + Undos(m, s.row.stepIndex + 1);
      AbortedRuns(n, m, s.row.stepIndex + 1);
    }
    hide Runs, Undos;
  }

  /** Where nothing has been undone yet, compensation is about to start with the last step. */
  lemma AbortedRuns(n: int, m: int, i: int)
    requires 0 < i <= m && Runs(n) == Runs(m) + Undos(m, i)
    ensures i == m == n
  {
    RunsLength(n);
    RunsLength(m);
    UndosLength(m, i);
    if i < m {
      UndosEndWithUndid(m, i);
      RunsEndWithRan(n);
    }
  }

  lemma UndosEndWithUndid(m: int, i: int)
    requires i < m
    ensures var log := Runs(m) + Undos(m, i); log != [] && log[|log| - 1] == Undid(i)
  {
  }

  /** So a saga that was given up at its first step comes back when the write of an early attempt lands at last. */
  lemma LateFailureWriteReopens(s: Saga, now: int)
    requires s.row == SagaRow(Failed, 0, MAX_ATTEMPTS) && s.finished && s.log == [] && s.steps > 0
    ensures var t := LandFailure(s, FailureWrite(SagaRow(Running, 0, 0), now));
            Traced(s) && Traced(t) && t.row == SagaRow(Running, 0, 1) && !t.finished
  {
  }

  // -------------------------------------------------------------- termination

  /** Upper bound on the changes of phase, step or attempt a saga still has in it. */
  function Potential(s: Saga): int {
    var k, left := s.row.stepIndex, s.steps - s.row.stepIndex;
    match s.row.status
    case Running => if left > 0 then 7 * left + k - s.row.attempts else 1
    case Waiting => if left > 0 then 7 * left + k + 1 else k + 1
    case Compensating => k + 1
    case _ => 0
  }

  lemma PotentialIsBounded(s: Saga)
    requires Traced(s)
    ensures Potential(s) >= 0
    ensures Potential(s) == 0 <==> s.finished
  {
  }

  lemma TransactSpendsPotential(s: Saga, now: int, env: Surroundings)
    requires Traced(s)
    ensures var t := Transact(s, now, env);
            (t.row == s.row && Potential(t) == Potential(s)) || Potential(t) < Potential(s)
  {
  }

  lemma FailureSpendsPotential(s: Saga, w: FailureWrite)
    requires Traced(s) && s.row == w.seen && s.row.status == Running && s.row.stepIndex < s.steps
    ensures Potential(LandFailure(s, w)) < Potential(s)
  {
  }

  /**
   * Nothing idles: as long as the saga is not over, a due transaction that commits,
   * with no open task and no throwing compensation, spends potential, at the latest
   * when its failure write lands.
   */
  lemma EffectiveAdvance(w: World, now: int, env: Surroundings)
    requires Settled(w) && w.pending == [] && !w.saga.finished && w.saga.nextRunAt <= now
    requires env.commits && !env.compensationThrows && env.task != TaskOpen
    ensures var after := Step(w, Claim(now, env));
            Potential(Step(after, Land(0)).saga) < Potential(w.saga)
  {
    if StepThrows(w.saga, now, env) {
      FailureSpendsPotential(w.saga, FailureWrite(w.saga.row, now));
    } else {
      TransactSpendsPotential(w.saga, now, env);
    }
  }

  /** How often an orderly run changes the saga's phase, step or attempt counter. */
  function Changes(w: World, events: seq<Event>): nat {
    if events == [] then 0
    else
      var before := Run(w, events[..|events| - 1]);
      Changes(w, events[..|events| - 1])
      + if Step(before, events[|events| - 1]).saga.row != before.saga.row then 1 else 0
  }

  lemma {:induction false} ChangesSpendPotential(w: World, events: seq<Event>)
    requires Settled(w) && Orderly(w, events)
    ensures Changes(w, events) + Potential(Run(w, events).saga) <= Potential(w.saga)
    decreases |events|
  {
    if events != [] {
      var n := |events| - 1;
      var before, e := Run(w, events[..n]), events[n];
      ChangesSpendPotential(w, events[..n]);
      RunIsSettled(w, events[..n]);
      match e
      case Claim(now, env) => TransactSpendsPotential(before.saga, now, env);
      case Land(i) => if i < |before.pending| { FailureSpendsPotential(before.saga, before.pending[0]); }
      case Lose(i) =>
    }
  }

  /** A saga of T steps is over after at most 7T changes (one when it has no steps), and over for good. */
  lemma SagaEnds(steps: nat, now: int, events: seq<Event>)
    requires Orderly(Start(steps, now), events)
    ensures Changes(Start(steps, now), events) <= Max(7 * steps, 1)
    ensures Changes(Start(steps, now), events) == Max(7 * steps, 1) ==> Run(Start(steps, now), events).saga.finished
  {
    ChangesSpendPotential(Start(steps, now), events);
    RunIsSettled(Start(steps, now), events);
    PotentialIsBounded(Run(Start(steps, now), events).saga);
  }
}
