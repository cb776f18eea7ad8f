/**
 * The saga table and the calls that update it in place. A row carries the
 * effects its transactions have committed, so that what the calls leave behind
 * can be compared with the transition functions.
 */
module SagaStore {
  import opened Common
  import opened SagaCore

  class Store {
    var rows: map<nat, Saga>
    var dedupe: map<string, nat>
    var nextId: nat

    ghost predicate Valid()
      reads this
    {
      && (forall id :: id in rows ==> id < nextId)
      && (forall key :: key in dedupe ==> dedupe[key] in rows)
    }

    constructor ()
      ensures Valid() && rows == map[]
    {
      rows, dedupe, nextId := map[], map[], 0;
    }

    /** Insert-or-ignore on the dedupe key: the second start with a key finds the first saga. */
    method StartSaga(steps: nat, key: Option<string>, now: int) returns (id: nat, duplicate: bool)
      requires Valid()
      modifies this
      ensures Valid() && id in rows
      ensures duplicate <==> key.Some? && key.value in old(dedupe)
      ensures duplicate ==> id == old(dedupe)[key.value] && rows == old(rows) && dedupe == old(dedupe)
      ensures !duplicate ==> id !in old(rows) && rows == old(rows)[id := NewSaga(steps, now)]
      ensures dedupe == if key.Some? then old(dedupe)[key.value := id] else old(dedupe)
    {
      if key.Some? && key.value in dedupe {
        id, duplicate := dedupe[key.value], true;
        assert dedupe == old(dedupe)[key.value := id];
      } else {
        id, duplicate := nextId, false;
        rows := rows[id := NewSaga(steps, now)];
        nextId := nextId + 1;
        if key.Some? {
          dedupe := dedupe[key.value := id];
        }
      }
    }

    /** Overwrites the row's control fields; the next run time only when the patch has one. */
    method ApplyPatchTo(id: nat, p: Patch)
      requires id in rows
      modifies this`rows
      ensures rows == old(rows)[id := ApplyPatch(old(rows)[id], p)]
    {
      var s := rows[id];
      s := s.(row := p.row, waitingTaskId := p.waitingTaskId, finished := p.finished);
      if p.nextRunAt.Some? {
        s := s.(nextRunAt := p.nextRunAt.value);
      }
      rows := rows[id := s];
    }

    /** The transaction of one advance whose step does not throw. */
    method RunTransaction(id: nat, now: int, env: Surroundings) returns (out: Option<Status>)
      requires id in rows && Claimable(rows[id], now) && !StepThrows(rows[id], now, env)
      modifies this`rows
      ensures rows == old(rows)[id := Transact(old(rows)[id], now, env)]
      ensures out == Outcome(old(rows)[id], now, env)
    {
      var seen := rows[id];
      if !env.commits {
        return None;
      }
      if seen.row.status == Waiting {
        var patch := ResumeAfterTask(seen.row, env.task, now);
        if patch.None? {
          rows := rows[id := seen.(nextRunAt := now + POLL_MS)];
          return Some(Waiting);
        }
        ApplyPatchTo(id, patch.value);
      } else if seen.row.status == Compensating {
        if env.compensationThrows {
          return None;
        }
        rows := rows[id := seen.(log := seen.log + [Undid(seen.row.stepIndex)])];
        ApplyPatchTo(id, AfterCompensation(seen.row, now));
      } else if seen.row.stepIndex >= seen.steps {
        ApplyPatchTo(id, AfterStepSuccess(seen.row, seen.steps, Done, now));
      } else {
        rows := rows[id := seen.(log := seen.log + [Ran(seen.row.stepIndex)])];
        ApplyPatchTo(id, AfterStepSuccess(seen.row, seen.steps, env.step.value, now));
      }
      return Some(rows[id].row.status);
    }

    /**
     * One worker's advance: the transaction, or, when the step threw, the failure
     * write after it, whose own errors are swallowed. What others do to the saga
     * before that write is part of the input. The call reports the new status, or
     * nothing when it knows of no effect.
     */
    method AdvanceSaga(id: nat, now: int, turn: Turn) returns (out: Option<Status>)
      requires Valid()
      modifies this`rows
      ensures Valid() && rows == AdvanceIn(old(rows), id, now, turn)
      ensures out == if id in old(rows) then Report(old(rows)[id], now, turn) else None
    {
      if id !in rows || turn.locked || !Claimable(rows[id], now) {
        assert id in rows ==> rows == rows[id := rows[id]];
        return None;
      }
      if StepThrows(rows[id], now, turn.env) {
        var seen := rows[id];
        var patch := AfterStepFailure(seen.row, now);
        rows := rows[id := Meddled(seen, turn)];
        if turn.recorded {
          ApplyPatchTo(id, patch.(waitingTaskId := rows[id].waitingTaskId));
        }
        return Some(patch.row.status);
      }
      out := RunTransaction(id, now, turn.env);
      if !turn.acknowledged {
        out := None;
      }
    }

    /**
     * One pass over the due rows. Work may stop early at the deadline; the
     * counts are those of the sagas reported as completed or as failed.
     */
    method DrainSagas(due: seq<nat>, now: int, turns: seq<Turn>, budget: nat)
      returns (picked: nat, completed: nat, failed: nat)
      requires Valid() && |turns| == |due|
      modifies this`rows
      ensures Valid() && picked == Min(budget, |due|)
      ensures rows == Drained(old(rows), due[..picked], now, turns[..picked])
      ensures completed == Tally(old(rows), due[..picked], now, turns[..picked], Reports({Completed}))
      ensures failed == Tally(old(rows), due[..picked], now, turns[..picked], Reports({Failed, Compensated}))
    {
      hide Advanced, Report;
      picked, completed, failed := 0, 0, 0;
      while picked < |due| && picked < budget
        invariant picked <= |due| && picked <= budget && Valid()
        invariant rows == Drained(old(rows), due[..picked], now, turns[..picked])
        invariant completed == Tally(old(rows), due[..picked], now, turns[..picked], Reports({Completed}))
        invariant failed == Tally(old(rows), due[..picked], now, turns[..picked], Reports({Failed, Compensated}))
      {
        var i := picked;
        assert due[..i + 1][..i] == due[..i] && turns[..i + 1][..i] == turns[..i];
        var out := AdvanceSaga(due[i], now, turns[i]);
        picked := picked + 1;
        if out == Some(Completed) {
          completed := completed + 1;
        }
        if out == Some(Failed) || out == Some(Compensated) {
          failed := failed + 1;
        }
      }
    }
  }

  /**
   * What one advance meets: its row may be locked by another worker; a commit may
   * go unacknowledged; the failure write may not reach the table. Before that
   * write rivals act, some of them on failures they had seen before.
   */
  datatype Turn = Turn(
    locked: bool, env: Surroundings, acknowledged: bool, recorded: bool, seenBefore: seq<FailureWrite>,
      rivals: seq<Event>)

  predicate Alone(turn: Turn) { turn.rivals == [] }

  /** The saga after the rivals' actions. */
  function Meddled(s: Saga, turn: Turn): Saga { Run(World(s, turn.seenBefore), turn.rivals).saga }

  /** The saga after one worker's advance. */
  function Advanced(s: Saga, now: int, turn: Turn): Saga {
    if turn.locked then s
    else if !StepThrows(s, now, turn.env) then Transact(s, now, turn.env)
    else if turn.recorded then LandFailure(Meddled(s, turn), FailureWrite(s.row, now))
    else Meddled(s, turn)
  }

  /** What a transaction tells: the status after it, if it did anything. */
  function Outcome(s: Saga, now: int, env: Surroundings): Option<Status> {
    if !Claimable(s, now) || !env.commits || (s.row.status == Compensating && env.compensationThrows) then None
    else Some(Transact(s, now, env).row.status)
  }

  /** What the caller is told. */
  function Report(s: Saga, now: int, turn: Turn): Option<Status> {
    if turn.locked then None
    else if StepThrows(s, now, turn.env) then Some(AfterStepFailure(s.row, now).row.status)
    else if turn.acknowledged then Outcome(s, now, turn.env)
    else None
  }

  /** The row keeps a status that the failure write was to replace by another one. */
  predicate LostAndDifferent(s: Saga, now: int, turn: Turn) {
    && StepThrows(s, now, turn.env) && !turn.locked && !turn.recorded
    && Meddled(s, turn).row.status != AfterStepFailure(s.row, now).row.status
  }

  /**
   * A reported status is the status of the row, except exactly where the failure
   * write is lost and the row, as the rivals have left it, has another status.
   */
  lemma ReportIsTrueExactly(s: Saga, now: int, turn: Turn)
    requires Report(s, now, turn).Some?
    ensures Report(s, now, turn) == Some(Advanced(s, now, turn).row.status) <==> !LostAndDifferent(s, now, turn)
  {
    hide Meddled;
  }

  /**
   * A report of nothing means that nothing has changed, except exactly behind an unacknowledged commit
   * that changed something.
   */
  lemma SilenceIsTrueExactly(s: Saga, now: int, turn: Turn)
    requires Report(s, now, turn).None?
    ensures Advanced(s, now, turn) == s <==> turn.locked || Transact(s, now, turn.env) == s
    ensures Advanced(s, now, turn) != s ==> !turn.acknowledged && turn.env.commits
  {
    hide Meddled;
  }

  /**
   * Something is reported exactly when the step threw, or when a commit that
   * changed the saga was acknowledged; the row must have been free.
   */
  lemma ReportsExactly(s: Saga, now: int, turn: Turn)
    ensures Report(s, now, turn).Some? <==>
              !turn.locked && (StepThrows(s, now, turn.env) || (turn.acknowledged && Transact(s, now, turn.env) != s))
  {
  }

  function AdvanceIn(rows: map<nat, Saga>, id: nat, now: int, turn: Turn): map<nat, Saga> {
    if id in rows then rows[id := Advanced(rows[id], now, turn)] else rows
  }

  function Drained(rows: map<nat, Saga>, due: seq<nat>, now: int, turns: seq<Turn>): map<nat, Saga>
    requires |turns| == |due|
  {
    if due == [] then rows
    else
      var n := |due| - 1;
      AdvanceIn(Drained(rows, due[..n], now, turns[..n]), due[n], now, turns[n])
  }

  /**
   * What can be counted in a pass, `hits` being ends of a saga: the advances that
   * report one of them, and those that bring a saga to one; those of the latter
   * that do not say so, and those of the former that say so wrongly.
   */
  datatype Question =
    | Reports(hits: set<Status>)
    | Ends(hits: set<Status>)
    | Missed(hits: set<Status>)
    | Mistaken(hits: set<Status>)

  predicate Holds(q: Question, s: Saga, now: int, turn: Turn) {
    match q
    case Reports(hits) => Report(s, now, turn).Some? && Report(s, now, turn).value in hits
    case Ends(hits) => s.row.status !in hits && Advanced(s, now, turn).row.status in hits
    case Missed(hits) =>
      && !turn.locked
      && if StepThrows(s, now, turn.env) then
           !turn.recorded && Meddled(s, turn).row.status in hits && AfterStepFailure(s.row, now).row.status !in hits
         else
           !turn.acknowledged && s.row.status !in hits && Transact(s, now, turn.env).row.status in hits
    case Mistaken(hits) =>
      && !turn.locked && StepThrows(s, now, turn.env) && !turn.recorded
      && AfterStepFailure(s.row, now).row.status in hits && Meddled(s, turn).row.status !in hits
  }

  function Tally(rows: map<nat, Saga>, due: seq<nat>, now: int, turns: seq<Turn>, q: Question): nat
    requires |turns| == |due|
  {
    if due == [] then 0
    else
      var n := |due| - 1;
      var before := Drained(rows, due[..n], now, turns[..n]);
      Tally(rows, due[..n], now, turns[..n], q)
      + if due[n] in before && Holds(q, before[due[n]], now, turns[n]) then 1 else 0
  }

  /** Only statuses of finished sagas. */
  predicate AreEnds(hits: set<Status>) { Running !in hits && Waiting !in hits && Compensating !in hits }

  lemma OneTurn(s: Saga, now: int, turn: Turn, hits: set<Status>)
    requires AreEnds(hits)
    ensures Holds(Reports(hits), s, now, turn) <==>
              (Holds(Ends(hits), s, now, turn) && !Holds(Missed(hits), s, now, turn))
                || Holds(Mistaken(hits), s, now, turn)
    ensures Holds(Missed(hits), s, now, turn) ==> Holds(Ends(hits), s, now, turn)
    ensures Holds(Mistaken(hits), s, now, turn) ==> !Holds(Ends(hits), s, now, turn)
    ensures hits == {Completed} ==> !Holds(Mistaken(hits), s, now, turn)
  {
    hide Meddled;
  }

  /**
   * For every pass, whatever rivals do and whichever writes and acknowledgements
   * are lost: a count of reported ends is the number of sagas that have come to
   * one, less those missed, plus those reported by mistake. A completion is never
   * reported by mistake.
   */
  lemma {:induction false} CountsExactly(rows: map<nat, Saga>, due: seq<nat>, now: int, turns: seq<Turn>,
      hits: set<Status>)
    requires |turns| == |due| && AreEnds(hits)
    ensures Tally(rows, due, now, turns, Reports(hits)) + Tally(rows, due, now, turns, Missed(hits)) ==
            Tally(rows, due, now, turns, Ends(hits)) + Tally(rows, due, now, turns, Mistaken(hits))
    ensures hits == {Completed} ==> Tally(rows, due, now, turns, Mistaken(hits)) == 0
    decreases |due|
  {
    hide Holds, Drained, AreEnds;
    if due != [] {
      var n := |due| - 1;
      CountsExactly(rows, due[..n], now, turns[..n], hits);
      var before := Drained(rows, due[..n], now, turns[..n]);
      if due[n] in before { OneTurn(before[due[n]], now, turns[n], hits); }
    }
  }

  /**
   * An advance nobody interferes with is an orderly stretch of the protocol, so the trace is kept and
   * potential spent.
   */
  lemma AdvancedIsOrderly(s: Saga, now: int, turn: Turn)
    requires Traced(s) && Alone(turn)
    ensures !turn.locked ==>
              World(Advanced(s, now, turn), []) ==
              Step(Step(World(s, []), Claim(now, turn.env)), if turn.recorded then Land(0) else Lose(0))
    ensures Traced(Advanced(s, now, turn))
    ensures !turn.locked && turn.acknowledged ==>
              (Report(s, now, turn).Some? && Advanced(s, now, turn).finished <==>
               !s.finished && Potential(Advanced(s, now, turn)) == 0)
  {
    hide Runs, Undos;
    TransactKeepsTrace(s, now, turn.env);
    if StepThrows(s, now, turn.env) { OrderlyFailureKeepsTrace(s, FailureWrite(s.row, now)); }
    PotentialIsBounded(s);
    PotentialIsBounded(Advanced(s, now, turn));
  }

  lemma FinishedStays(s: Saga, now: int, turn: Turn)
    requires Traced(s) && s.finished
    ensures Advanced(s, now, turn) == s
  {
  }

  /** A pass keeps every saga's trace, and ends no saga twice. */
  lemma {:induction false} DrainKeepsTraces(rows: map<nat, Saga>, due: seq<nat>, now: int, turns: seq<Turn>)
    requires |turns| == |due| && (forall id :: id in rows ==> Traced(rows[id])) && forall t :: t in turns ==> Alone(t)
    ensures var after := Drained(rows, due, now, turns);
            && after.Keys == rows.Keys
            && (forall id :: id in rows ==> Traced(after[id]) && (rows[id].finished ==> after[id] == rows[id]))
    decreases |due|
  {
    hide Traced, Advanced, Report;
    if due != [] {
      var n := |due| - 1;
      var before := Drained(rows, due[..n], now, turns[..n]);
      DrainKeepsTraces(rows, due[..n], now, turns[..n]);
      if due[n] in before {
        AdvancedIsOrderly(before[due[n]], now, turns[n]);
        if before[due[n]].finished { FinishedStays(before[due[n]], now, turns[n]); }
      }
    }
  }
}
