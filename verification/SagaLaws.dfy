/**
 * What claims and failure writes do to a saga, said on the rows themselves and
 * not through the transition functions, and what can never happen after them.
 */
module SagaLaws {
  import opened Common
  import opened SagaCore

  // ------------------------------------------------------------ single events

  /** A saga that is not due, is over, or whose transaction rolls back without a thrown step stays as it is. */
  lemma NothingHappens(w: World, now: int, env: Surroundings)
    requires || now < w.saga.nextRunAt
             || w.saga.row.status in {Completed, Compensated, Failed}
             || (!env.commits && !(w.saga.row.status == Running && env.step.None?))
    ensures Step(w, Claim(now, env)) == w
  {
  }

  /**
   * A waiting saga asks for its task: while it is open only the time of the next
   * look changes, when it is done the saga goes on at its step, and when it was
   * cancelled the step before is the first to be undone.
   */
  lemma WaitingClaim(w: World, now: int, env: Surroundings)
    requires w.saga.row.status == Waiting && w.saga.nextRunAt <= now && env.commits
    ensures var s, t, k := w.saga, Step(w, Claim(now, env)).saga, w.saga.row.stepIndex;
            && Step(w, Claim(now, env)).pending == w.pending && t.log == s.log
            && match env.task
               case TaskOpen => t == s.(nextRunAt := now + 60_000)
               case TaskDone =>
                 t.row == SagaRow(Running, k, 0) && t.waitingTaskId == None && t.nextRunAt == now && !t.finished
               case TaskCancelled =>
                 && t.waitingTaskId == None
                 && if k > 0 then t.row == SagaRow(Compensating, k - 1, 0) && t.nextRunAt == now && !t.finished
                    else t.row == SagaRow(Failed, k, 0) && t.finished
  {
  }

  /** A running saga behind its last step is complete; otherwise the step decides, and a thrown one leaves a note. */
  lemma RunningClaim(w: World, now: int, env: Surroundings)
    requires w.saga.row.status == Running && w.saga.nextRunAt <= now && (env.commits || env.step.None?)
    requires w.saga.row.stepIndex < w.saga.steps || env.commits
    ensures var after, s, k := Step(w, Claim(now, env)), w.saga, w.saga.row.stepIndex;
            var t := after.saga;
            if k >= s.steps then
              after.pending == w.pending && t.log == s.log && t.row == SagaRow(Completed, s.steps, 0) && t.finished
            else match env.step
              case None => after == World(s, w.pending + [FailureWrite(s.row, now)])
              case Some(result) =>
                && after.pending == w.pending && t.log == s.log + [Ran(k)]
                && match result
                   case Done => t.row == SagaRow(Completed, s.steps, 0) && t.finished
                   case WaitTask(id) =>
                     && t.row == SagaRow(Waiting, k + 1, 0) && t.waitingTaskId == Some(id)
                     && t.nextRunAt == now + 60_000 && !t.finished
                   case Next =>
                     && t.waitingTaskId == None
                     && if k + 1 == s.steps then t.row == SagaRow(Completed, s.steps, 0) && t.finished
                        else t.row == SagaRow(Running, k + 1, 0) && t.nextRunAt == now && !t.finished
  {
  }

  /** A compensating saga undoes its step and moves to the one before; behind the first there is nothing left. */
  lemma CompensatingClaim(w: World, now: int, env: Surroundings)
    requires w.saga.row.status == Compensating && w.saga.nextRunAt <= now && env.commits
    ensures var after, s, k := Step(w, Claim(now, env)), w.saga, w.saga.row.stepIndex;
            var t := after.saga;
            && after.pending == w.pending
            && if env.compensationThrows then t == s
               else
                 && t.log == s.log + [Undid(k)]
                 && if k > 0 then t.row == SagaRow(Compensating, k - 1, 0) && t.nextRunAt == now && !t.finished
                    else t.row == SagaRow(Compensated, 0, 0) && t.finished
  {
  }

  /**
   * The fifth failure of a step gives up: the step before is the first to be
   * undone, and with none before it the saga has failed. An earlier one is retried
   * after 1, 5, 30 and 120 minutes.
   */
  lemma FailureLands(w: World, i: nat)
    requires i < |w.pending| && 0 <= w.pending[i].seen.attempts
    ensures var after, f := Step(w, Land(i)), w.pending[i];
            var t, k, n := after.saga, f.seen.stepIndex, f.seen.attempts + 1;
            && after.pending == Without(w.pending, i)
            && t.log == w.saga.log && t.waitingTaskId == w.saga.waitingTaskId
            && if n < 5 then
                 && t.row == SagaRow(Running, k, n) && !t.finished
                 && t.nextRunAt == f.now + (match n case 1 => 1 case 2 => 5 case 3 => 30 case _ => 120) * 60_000
               else if k > 0 then t.row == SagaRow(Compensating, k - 1, 0) && t.nextRunAt == f.now && !t.finished
               else t.row == SagaRow(Failed, k, n) && t.finished && t.nextRunAt == w.saga.nextRunAt
  {
  }

  // ----------------------------------------------------------------- whole runs

  /** An orderly run is one orderly event after another. */
  lemma {:induction false} AfterOne(w: World, e: Event, events: seq<Event>)
    ensures Run(w, [e] + events) == Run(Step(w, e), events)
    ensures Orderly(w, [e] + events) ==> Orderly(Step(w, e), events)
    decreases |events|
  {
    hide Step;
    var all := [e] + events;
    var n := |events| - 1;
    if events == [] {
      assert all == [e] && all[..0] == [] && Run(w, all[..0]) == w;
    } else {
      AfterOne(w, e, events[..n]);
      assert all[..n + 1] == [e] + events[..n] && all[n + 1] == events[n];
    }
  }

  /** A saga that is over stays exactly as it is. */
  lemma {:induction false} OverForGood(w: World, events: seq<Event>)
    requires Settled(w) && w.saga.finished && Orderly(w, events)
    ensures Run(w, events).saga == w.saga
    decreases |events|
  {
    if events != [] {
      var n := |events| - 1;
      OverForGood(w, events[..n]);
      RunIsSettled(w, events[..n]);
      StepKeepsSettled(Run(w, events[..n]), events[n]);
      hide Settled, Step;
    }
  }

  predicate Aborted(s: Saga) { s.row.status in {Compensating, Compensated, Failed} }

  /** What has been committed since is undoing only. */
  ghost predicate OnlyUndoes(before: seq<Effect>, log: seq<Effect>) {
    before <= log && forall j :: |before| <= j < |log| ==> log[j].Undid?
  }

  /** Once a saga is being called off, it stays so, and no step ever runs again. */
  lemma {:induction false} NothingRunsAfterAbort(w: World, events: seq<Event>)
    requires Settled(w) && Aborted(w.saga) && Orderly(w, events)
    ensures Aborted(Run(w, events).saga) && OnlyUndoes(w.saga.log, Run(w, events).saga.log)
    decreases |events|
  {
    if events != [] {
      var n := |events| - 1;
      NothingRunsAfterAbort(w, events[..n]);
      RunIsSettled(w, events[..n]);
      AbortedStep(Run(w, events[..n]), events[n]);
      hide Settled, Step, Aborted;
    }
  }

  lemma AbortedStep(w: World, e: Event)
    requires Settled(w) && Aborted(w.saga)
    ensures Aborted(Step(w, e).saga) && OnlyUndoes(w.saga.log, Step(w, e).saga.log)
  {
    hide Runs, Undos;
  }

  /**
   * A cancelled task calls the saga off for good: in no orderly run behind it does
   * a step run, and it has not failed while something is left to undo.
   */
  lemma CancelledTaskAborts(w: World, now: int, env: Surroundings, events: seq<Event>)
    requires Settled(w) && w.saga.row.status == Waiting && w.saga.nextRunAt <= now
    requires env.commits && env.task == TaskCancelled && Orderly(w, [Claim(now, env)] + events)
    ensures Step(w, Claim(now, env)).saga.row == SagaRow(Compensating, w.saga.row.stepIndex - 1, 0)
    ensures var s := Run(w, [Claim(now, env)] + events).saga;
            && OnlyUndoes(w.saga.log, s.log)
            && s.row.status in {Compensating, Compensated}
  {
    var mid := Step(w, Claim(now, env));
    WaitingClaim(w, now, env);
    StepKeepsSettled(w, Claim(now, env));
    AfterOne(w, Claim(now, env), events);
    NothingRunsAfterAbort(mid, events);
    RunIsSettled(mid, events);
    assert w.saga.log != [] by { RunsLength(w.saga.row.stepIndex); }
  }

  /** A step that says it is done ends the saga, whatever steps are left: nothing runs or is undone after it. */
  lemma DoneEndsTheSaga(w: World, now: int, env: Surroundings, events: seq<Event>)
    requires Settled(w) && w.saga.row.status == Running && w.saga.nextRunAt <= now
    requires w.saga.row.stepIndex < w.saga.steps
    requires env.commits && env.step == Some(Done) && Orderly(w, [Claim(now, env)] + events)
    ensures var s := Run(w, [Claim(now, env)] + events).saga;
            && s.row == SagaRow(Completed, w.saga.steps, 0) && s.finished
            && s.log == w.saga.log + [Ran(w.saga.row.stepIndex)]
  {
    var mid := Step(w, Claim(now, env));
    AfterOne(w, Claim(now, env), events);
    assert w.pending == [] by { FirstClaim(w, Claim(now, env), events); }
    RunningClaim(w, now, env);
    StepKeepsSettled(w, Claim(now, env));
    OverForGood(mid, events);
  }

  lemma {:induction false} FirstClaim(w: World, e: Event, events: seq<Event>)
    requires Orderly(w, [e] + events) && e.Claim?
    ensures w.pending == []
    decreases |events|
  {
    var all := [e] + events;
    if events == [] {
      assert all[..0] == [];
    } else {
      assert all[..|events|] == [e] + events[..|events| - 1];
      FirstClaim(w, e, events[..|events| - 1]);
    }
  }

  /** As long as its task is open, a waiting saga keeps waiting: nothing but the time of the next look changes. */
  lemma {:induction false} OpenTaskHolds(w: World, events: seq<Event>)
    requires w.saga.row.status == Waiting && w.pending == []
    requires forall e :: e in events && e.Claim? ==> e.env.task == TaskOpen
    ensures Run(w, events).pending == []
    ensures Run(w, events).saga == w.saga.(nextRunAt := Run(w, events).saga.nextRunAt)
    decreases |events|
  {
    if events != [] {
      var n := |events| - 1;
      assert events[n] in events;
      OpenTaskHolds(w, events[..n]);
      OpenTaskStep(Run(w, events[..n]), events[n]);
      hide Step;
    }
  }

  lemma OpenTaskStep(w: World, e: Event)
    requires w.saga.row.status == Waiting && w.pending == [] && (e.Claim? ==> e.env.task == TaskOpen)
    ensures Step(w, e).pending == []
    ensures Step(w, e).saga == w.saga.(nextRunAt := Step(w, e).saga.nextRunAt)
  {
  }
}
