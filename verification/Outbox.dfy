/**
 * The guaranteed outbox: an event is handled in a transaction of its own, and a
 * failure is recorded afterwards by a write that only touches pending events.
 * Several workers may be at it, and any of them may crash.
 */
module Outbox {
  import opened Common

  const BACKOFF_MINUTES: seq<int> := [1, 5, 30, 120, 720]

  datatype Status = Pending | Done | Dead

  /** `effects` counts how often the handler's work on this event has been committed. */
  datatype Event = Event(status: Status, attempts: int, maxAttempts: int, nextAttemptAt: int, effects: nat)

  function NewEvent(maxAttempts: int, runAt: int): Event { Event(Pending, 0, maxAttempts, runAt, 0) }

  function BackoffMs(attempts: int): int {
    BACKOFF_MINUTES[Min(Max(attempts, 1), |BACKOFF_MINUTES|) - 1] * 60_000
  }

  /** What a worker saw of the event before its transaction failed. */
  datatype Failure = Failure(attempts: int, maxAttempts: int, now: int)

  /** How the transaction ends; `CommitUnseen` has committed although the worker sees an error. */
  datatype Outcome = Commits | Fails | CommitUnseen

  predicate Seen(o: Outcome) { o != Commits }

  function Transact(e: Event, o: Outcome): Event {
    if e.status != Pending || o == Fails then e
    else e.(status := Done, attempts := e.attempts + 1, effects := e.effects + 1)
  }

  /** The guarded failure write. */
  function Record(e: Event, f: Failure): Event {
    if e.status != Pending then e
    else if f.attempts + 1 >= f.maxAttempts then e.(status := Dead, attempts := f.attempts + 1)
    else e.(attempts := f.attempts + 1, nextAttemptAt := f.now + BackoffMs(f.attempts + 1))
  }

  // ------------------------------------------------------------ one event's runs

  datatype World = World(event: Event, failures: seq<Failure>)

  datatype Action = Claim(outcome: Outcome, now: int) | Land(index: nat) | Lose(index: nat)

  function Step(w: World, a: Action): World {
    match a
    case Claim(o, now) =>
      if w.event.status != Pending then w
      else World(Transact(w.event, o),
                 if Seen(o) then w.failures + [Failure(w.event.attempts, w.event.maxAttempts, now)] else w.failures)
    case Land(i) => if i < |w.failures| then World(Record(w.event, w.failures[i]), Without(w.failures, i)) else w
    case Lose(i) => if i < |w.failures| then w.(failures := Without(w.failures, i)) else w
  }

  function Run(w: World, actions: seq<Action>): World {
    if actions == [] then w else Step(Run(w, actions[..|actions| - 1]), actions[|actions| - 1])
  }

  // ----------------------------------------------- single actions, in plain terms

  /** Waiting for a worker at this time. */
  predicate Due(e: Event, now: int) { e.status == Pending && e.nextAttemptAt <= now }

  /**
   * A try on a pending event: with the commit the event is done, one attempt and
   * one effect further; whoever sees an error has a failure to write, as the event
   * was when it was read. On any other event nothing happens.
   */
  lemma ClaimExactly(w: World, o: Outcome, now: int)
    ensures var after, e := Step(w, Claim(o, now)), w.event;
            if e.status != Pending then after == w
            else
              && after.event == (if o == Fails then e
                                 else Event(Done, e.attempts + 1, e.maxAttempts, e.nextAttemptAt, e.effects + 1))
              && after.failures == w.failures + if o == Commits then [] else [Failure(e.attempts, e.maxAttempts, now)]
  {
  }

  /**
   * A failure write on a pending event: the attempts are one more than its worker
   * read; the last allowed one gives the event up, and after an earlier one it
   * rests for 1, 5, 30, 120, and then 720 minutes.
   */
  lemma LandingExactly(w: World, i: nat)
    requires i < |w.failures| && 0 <= w.failures[i].attempts
    ensures var after, e, f := Step(w, Land(i)), w.event, w.failures[i];
            var n := f.attempts + 1;
            && after.failures == Without(w.failures, i)
            && if e.status != Pending then after.event == e
               else if n >= f.maxAttempts then
                 after.event == Event(Dead, n, e.maxAttempts, e.nextAttemptAt, e.effects)
               else
                 && after.event == Event(Pending, n, e.maxAttempts, after.event.nextAttemptAt, e.effects)
                 && forall now :: Due(after.event, now) <==>
                      now >= f.now + (match n case 1 => 1 case 2 => 5 case 3 => 30 case 4 => 120 case _ => 720) * 60_000
  {
  }

  ghost predicate Sound(w: World) {
    && w.event.effects == (if w.event.status == Done then 1 else 0)
    && (w.event.status == Pending ==> 0 <= w.event.attempts < Max(w.event.maxAttempts, 1))
    && (w.event.status == Dead ==> w.event.attempts >= w.event.maxAttempts)
    && (forall f :: f in w.failures ==> f.maxAttempts == w.event.maxAttempts && 0 <= f.attempts)
  }

  lemma StepIsSound(w: World, a: Action)
    requires Sound(w)
    ensures Sound(Step(w, a))
    ensures w.event.status != Pending ==> Step(w, a).event == w.event
    ensures Step(w, a).event.maxAttempts == w.event.maxAttempts
  {
  }

  /**
   * Whatever the workers do and wherever they crash: the handler's work is
   * committed at most once, exactly when the event is done, and an event that
   * is done or dead stays as it is for good.
   */
  lemma {:induction false} ExactlyOnce(maxAttempts: int, runAt: int, actions: seq<Action>, k: nat)
    requires k <= |actions|
    ensures var start := World(NewEvent(maxAttempts, runAt), []);
            var mid, end := Run(start, actions[..k]).event, Run(start, actions).event;
            && end.effects == (if end.status == Done then 1 else 0)
            && (mid.status != Pending ==> end == mid)
            && (end.status == Dead ==> end.attempts >= maxAttempts)
            && (end.status == Pending ==> 0 <= end.attempts < Max(maxAttempts, 1))
    decreases |actions|
  {
    var start := World(NewEvent(maxAttempts, runAt), []);
    RunIsSound(start, actions);
    if k < |actions| {
      var n := |actions| - 1;
      ExactlyOnce(maxAttempts, runAt, actions[..n], k);
      assert actions[..n][..k] == actions[..k];
      RunIsSound(start, actions[..n]);
      StepIsSound(Run(start, actions[..n]), actions[n]);
    } else {
      assert actions[..k] == actions;
    }
  }

  lemma {:induction false} RunIsSound(w: World, actions: seq<Action>)
    requires Sound(w)
    ensures Sound(Run(w, actions)) && Run(w, actions).event.maxAttempts == w.event.maxAttempts
    decreases |actions|
  {
    if actions != [] {
      var n := |actions| - 1;
      RunIsSound(w, actions[..n]);
      StepIsSound(Run(w, actions[..n]), actions[n]);
    }
  }

  // -------------------------------------------------------------- counting tries

  /** The guard does not make the attempt counter exact: a late write can set it back. */
  lemma LateWriteSetsAttemptsBack(now: int)
    ensures var c := Claim(Fails, now);
            var w := Step(Step(Step(Step(Step(World(NewEvent(6, now), []), c), c), Land(1)), c), Land(1));
            w.event.attempts == 2 && Step(w, Land(0)).event.attempts == 1
  {
    var c, f0, f1 := Claim(Fails, now), Failure(0, 6, now), Failure(1, 6, now);
    var e0 := NewEvent(6, now);
    var e1 := Record(e0, f0);
    var e2 := Record(e1, f1);
    assert Step(Step(World(e0, []), c), c) == World(e0, [f0, f0]);
    assert Step(World(e0, [f0, f0]), Land(1)) == World(e1, [f0]);
    assert Step(World(e1, [f0]), c) == World(e1, [f0, f1]);
    assert Step(World(e1, [f0, f1]), Land(1)) == World(e2, [f0]);
  }

  /** The landing of a failure whose worker saw the counter at least two below where it is now. */
  predicate Stale(w: World, a: Action) {
    && a.Land? && a.index < |w.failures|
    && w.event.status == Pending && w.failures[a.index].attempts + 1 < w.event.attempts
  }

  /** Exactly these landings lower the counter. */
  lemma OnlyStaleLandingsLower(w: World, a: Action)
    ensures Step(w, a).event.attempts < w.event.attempts <==> Stale(w, a)
  {
  }

  /** Over a whole run: the counter never falls if and only if nothing stale lands. */
  lemma CounterRisesExactly(w: World, actions: seq<Action>)
    ensures (forall k: nat, l: nat :: k <= l <= |actions| ==>
              AttemptsAfter(w, actions, k) <= AttemptsAfter(w, actions, l)) <==>
            (forall k: nat :: k < |actions| ==> !Stale(Run(w, actions[..k]), actions[k]))
  {
    if forall k: nat :: k < |actions| ==> !Stale(Run(w, actions[..k]), actions[k]) {
      forall k: nat, l: nat | k <= l <= |actions|
        ensures AttemptsAfter(w, actions, k) <= AttemptsAfter(w, actions, l)
      {
        CounterRises(w, actions, k, l);
      }
    } else {
      var k: nat :| k < |actions| && Stale(Run(w, actions[..k]), actions[k]);
      OneMore(w, actions, k);
      OnlyStaleLandingsLower(Run(w, actions[..k]), actions[k]);
      assert AttemptsAfter(w, actions, k + 1) < AttemptsAfter(w, actions, k);
    }
  }

  function AttemptsAfter(w: World, actions: seq<Action>, k: nat): int
    requires k <= |actions|
  {
    Run(w, actions[..k]).event.attempts
  }

  lemma OneMore(w: World, actions: seq<Action>, k: nat)
    requires k < |actions|
    ensures Run(w, actions[..k + 1]) == Step(Run(w, actions[..k]), actions[k])
  {
    assert actions[..k + 1][..k] == actions[..k];
  }

  lemma {:induction false} CounterRises(w: World, actions: seq<Action>, k: nat, l: nat)
    requires k <= l <= |actions| && forall i: nat :: i < |actions| ==> !Stale(Run(w, actions[..i]), actions[i])
    ensures AttemptsAfter(w, actions, k) <= AttemptsAfter(w, actions, l)
    decreases l
  {
    if k < l {
      CounterRises(w, actions, k, l - 1);
      OneMore(w, actions, l - 1);
      OnlyStaleLandingsLower(Run(w, actions[..l - 1]), actions[l - 1]);
    }
  }

  /** Each lost failure, and for each landed one how far the counter had moved since its worker read it. */
  function Unaccounted(w: World, actions: seq<Action>): int {
    if actions == [] then 0
    else
      var n := |actions| - 1;
      var before, a := Run(w, actions[..n]), actions[n];
      Unaccounted(w, actions[..n]) +
      if a.Land? && a.index < |before.failures| then before.event.attempts - before.failures[a.index].attempts
      else if a.Lose? && a.index < |before.failures| then 1
      else 0
  }

  /**
   * While an event is pending, whatever the workers do, the tries made are the
   * counter plus the failures still to be written plus what is unaccounted for.
   * So the counter bounds the tries exactly as far as nothing is lost or late.
   */
  lemma {:induction false} TriesAreAccounted(maxAttempts: int, runAt: int, actions: seq<Action>)
    requires Run(World(NewEvent(maxAttempts, runAt), []), actions).event.status == Pending
    ensures var start := World(NewEvent(maxAttempts, runAt), []);
            var w := Run(start, actions);
            Claims(actions, start) == w.event.attempts + |w.failures| + Unaccounted(start, actions)
    decreases |actions|
  {
    if actions != [] {
      var n := |actions| - 1;
      StepIsAbsorbing(Run(World(NewEvent(maxAttempts, runAt), []), actions[..n]), actions[n]);
      TriesAreAccounted(maxAttempts, runAt, actions[..n]);
    }
  }

  /** How often the handler is tried while the event is pending, and whether the next action tries it once more. */
  function Accounted(start: World, actions: seq<Action>, k: nat): int
    requires k <= |actions|
  {
    var w := Run(start, actions[..k]);
    w.event.attempts + |w.failures| + Unaccounted(start, actions[..k])
    + if k < |actions| && actions[k].Claim? then 1 else 0
  }

  /**
   * The tries of every run, however it ends: `k` actions leave the event pending,
   * and the next one, if there is any, settles it. So the tries keep to the limit
   * exactly when that account does.
   */
  lemma TriesOfEveryRun(maxAttempts: int, runAt: int, actions: seq<Action>) returns (k: nat)
    ensures var start := World(NewEvent(maxAttempts, runAt), []);
            && k <= |actions| && Run(start, actions[..k]).event.status == Pending
            && (k < |actions| ==> Run(start, actions[..k + 1]).event.status != Pending)
            && Claims(actions, start) == Accounted(start, actions, k)
            && (Claims(actions, start) <= Max(maxAttempts, 1) <==> Accounted(start, actions, k) <= Max(maxAttempts, 1))
  {
    var start := World(NewEvent(maxAttempts, runAt), []);
    k := LastPending(start, actions);
    TriesAreAccounted(maxAttempts, runAt, actions[..k]);
    if k < |actions| {
      assert actions[..k + 1][..k] == actions[..k];
      ClaimsStop(start, actions, k + 1);
    } else {
      assert actions[..k] == actions;
    }
  }

  lemma {:induction false} LastPending(w: World, actions: seq<Action>) returns (k: nat)
    requires w.event.status == Pending
    ensures k <= |actions| && Run(w, actions[..k]).event.status == Pending
    ensures k < |actions| ==> Run(w, actions[..k + 1]).event.status != Pending
    decreases |actions|
  {
    if Run(w, actions).event.status == Pending {
      k := |actions|;
      assert actions[..k] == actions;
    } else {
      var n := |actions| - 1;
      k := LastPending(w, actions[..n]);
      assert k < n ==> actions[..n][..k + 1] == actions[..k + 1];
      assert actions[..n][..k] == actions[..k] && actions[..n + 1] == actions;
    }
  }

  /** Once the event is settled nothing is tried any more. */
  lemma {:induction false} ClaimsStop(w: World, actions: seq<Action>, m: nat)
    requires m <= |actions| && Run(w, actions[..m]).event.status != Pending
    ensures Claims(actions, w) == Claims(actions[..m], w) && Run(w, actions).event.status != Pending
    decreases |actions|
  {
    if m < |actions| {
      var n := |actions| - 1;
      assert actions[..n][..m] == actions[..m];
      ClaimsStop(w, actions[..n], m);
      StepIsAbsorbing(Run(w, actions[..n]), actions[n]);
    } else {
      assert actions[..m] == actions;
    }
  }

  lemma StepIsAbsorbing(w: World, a: Action)
    ensures w.event.status != Pending ==> Step(w, a).event == w.event
  {
  }

  /** Nothing bounds the tries when failure writes are lost: any number of them leaves the event as it was. */
  lemma {:induction false} LostWritesAllowAnyTries(maxAttempts: int, runAt: int, now: int, n: nat)
      returns (actions: seq<Action>)
    ensures var start := World(NewEvent(maxAttempts, runAt), []);
            Run(start, actions) == start && Claims(actions, start) == n
  {
    var start := World(NewEvent(maxAttempts, runAt), []);
    actions := [];
    if n > 0 {
      var before := LostWritesAllowAnyTries(maxAttempts, runAt, now, n - 1);
      var claimed := before + [Claim(Fails, now)];
      actions := claimed + [Lose(0)];
      assert claimed[..|before|] == before && actions[..|claimed|] == claimed;
      assert Run(start, claimed) == World(start.event, [Failure(0, maxAttempts, now)]);
    }
  }

  /** Nor do two workers on an event that may be tried once: both try before either failure is written. */
  lemma TwoWorkersExceedTheLimit(runAt: int, now: int)
    ensures var start, actions := World(NewEvent(1, runAt), []), [Claim(Fails, now), Claim(Fails, now), Land(0)];
            Run(start, actions).event.status == Dead && Claims(actions, start) == 2
  {
    var start, c := World(NewEvent(1, runAt), []), Claim(Fails, now);
    var actions := [c, c, Land(0)];
    assert actions[..2] == [c, c] && actions[..2][..1] == [c] && [c][..0] == [];
    assert Run(start, []) == start && Run(start, [c]) == Step(start, c)
      && Run(start, [c, c]) == Step(Step(start, c), c);
    assert Claims([c], start) == 1 && Claims([c, c], start) == 2;
  }

  /** What the worker behind a landing failure write reports, and whether the event then is as reported. */
  predicate LandingReportTrue(w: World, i: nat)
    requires i < |w.failures|
  {
    Step(w, Land(i)).event.status == if GivesUp(w.failures[i]) then Dead else Pending
  }

  predicate GivesUp(f: Failure) { f.attempts + 1 >= f.maxAttempts }

  /**
   * In every world any workers can bring about, the report of a landing write is
   * true exactly when the event was still pending, or was given up before and
   * is reported so again.
   */
  lemma LandingReportIsTrueExactly(w: World, i: nat)
    requires i < |w.failures|
    ensures LandingReportTrue(w, i) <==> w.event.status == Pending || (w.event.status == Dead && GivesUp(w.failures[i]))
  {
  }

  /** A worker that failed reports a retry, or a dead event, although another one has done the work in between. */
  lemma RivalMakesReportFalse(maxAttempts: int, runAt: int, now: int)
    ensures var w := Run(World(NewEvent(maxAttempts, runAt), []), [Claim(Fails, now), Claim(Commits, now)]);
            w.event.status == Done && |w.failures| == 1 && !LandingReportTrue(w, 0)
  {
    var start, a, b := World(NewEvent(maxAttempts, runAt), []), Claim(Fails, now), Claim(Commits, now);
    assert [a, b][..1] == [a] && [a][..0] == [];
    assert Run(start, []) == start && Run(start, [a]) == Step(start, a);
  }

  /** Each failure is written before the event is claimed again. */
  ghost predicate Orderly(w: World, actions: seq<Action>) {
    actions != [] ==>
      var n := |actions| - 1;
      && Orderly(w, actions[..n])
      && (actions[n].Claim? ==> Run(w, actions[..n]).failures == [])
      && !actions[n].Lose?
  }

  function Claims(actions: seq<Action>, w: World): nat {
    if actions == [] then 0
    else
      var n := |actions| - 1;
      Claims(actions[..n], w) + if actions[n].Claim? && Run(w, actions[..n]).event.status == Pending then 1 else 0
  }

  /** In an orderly run the handler is tried at most `maxAttempts` times (once if that is no positive number). */
  lemma {:induction false} TriesAreBounded(maxAttempts: int, runAt: int, actions: seq<Action>)
    requires Orderly(World(NewEvent(maxAttempts, runAt), []), actions)
    ensures Claims(actions, World(NewEvent(maxAttempts, runAt), [])) <= Max(maxAttempts, 1)
  {
    OneTryPerAttempt(maxAttempts, runAt, actions);
  }

  lemma {:induction false} OneTryPerAttempt(maxAttempts: int, runAt: int, actions: seq<Action>)
    requires Orderly(World(NewEvent(maxAttempts, runAt), []), actions)
    ensures var start := World(NewEvent(maxAttempts, runAt), []);
            var w := Run(start, actions);
            && Sound(w) && w.event.maxAttempts == maxAttempts
            && (w.event.status == Pending ==>
                  |w.failures| <= 1 && (w.failures != [] ==> w.failures[0].attempts == w.event.attempts))
            && Claims(actions, start) <=
               (if w.event.status == Pending then w.event.attempts + |w.failures| else Max(maxAttempts, 1))
    decreases |actions|
  {
    var start := World(NewEvent(maxAttempts, runAt), []);
    RunIsSound(start, actions);
    if actions != [] {
      var n := |actions| - 1;
      OneTryPerAttempt(maxAttempts, runAt, actions[..n]);
    }
  }

  // ------------------------------------------------------------------- the table

  class Table {
    var events: map<nat, Event>
    var keys: map<string, nat>
    var nextId: nat

    ghost predicate Valid()
      reads this
    {
      && (forall id :: id in events ==> id < nextId && Sound(World(events[id], [])))
      && (forall key :: key in keys ==> keys[key] in events)
    }

    constructor ()
      ensures Valid() && events == map[]
    {
      events, keys, nextId := map[], map[], 0;
    }

    /** Insert-or-ignore: the second event with a dedupe key is not created. */
    method EnqueueOutbox(key: Option<string>, maxAttempts: int, runAt: int) returns (id: Option<nat>)
      requires Valid()
      modifies this
      ensures Valid()
      ensures id.None? <==> key.Some? && key.value in old(keys)
      ensures id.None? ==> events == old(events) && keys == old(keys)
      ensures id.Some? ==> id.value !in old(events) && events == old(events)[id.value := NewEvent(maxAttempts, runAt)]
      ensures id.Some? ==> keys == if key.Some? then old(keys)[key.value := id.value] else old(keys)
    {
      if key.Some? && key.value in keys {
        return None;
      }
      id := Some(nextId);
      events := events[nextId := NewEvent(maxAttempts, runAt)];
      if key.Some? {
        keys := keys[key.value := nextId];
      }
      nextId := nextId + 1;
    }

    /** The events a pass looks at: those that are due, oldest first, up to the limit. */
    method SelectDue(now: int, limit: nat) returns (due: seq<nat>)
      requires Valid()
      ensures |due| <= limit && (forall i, j :: 0 <= i < j < |due| ==> due[i] < due[j])
      ensures forall id :: id in due ==> id in events && Due(events[id], now)
      ensures forall id :: id in events && Due(events[id], now) && id !in due ==>
                |due| == limit && forall other :: other in due ==> other < id
    {
      due := [];
      var id := 0;
      while id < nextId && |due| < limit
        invariant id <= nextId && |due| <= limit
        invariant forall k :: 0 <= k < |due| ==> due[k] < id && due[k] in events && Due(events[due[k]], now)
        invariant forall i, j :: 0 <= i < j < |due| ==> due[i] < due[j]
        invariant forall x: nat :: x < id && x in events && Due(events[x], now) ==> x in due
      {
        if id in events && Due(events[id], now) {
          due := due + [id];
        }
        id := id + 1;
      }
    }

    /**
     * A worker on one event: the transaction, and the failure write if it saw an
     * error. What others do to the event in between is part of the input.
     */
    method ProcessOne(id: nat, t: Try, now: int) returns (result: Result)
      requires Valid()
      modifies this`events
      ensures Valid()
      ensures events == ProcessIn(old(events), id, t, now)
      ensures result == Reported(old(events), id, t)
    {
      if id !in events || t.locked || events[id].status != Pending {
        assert id in events ==> events == events[id := events[id]];
        return Skipped;
      }
      var seen := events[id];
      ProcessedIsSound(seen, t, now);
      hide Sound, Meddled;
      if t.outcome != Fails {
        events := events[id := seen.(status := Done, attempts := seen.attempts + 1, effects := seen.effects + 1)];
      }
      if t.outcome == Commits {
        return Completed;
      }
      events := events[id := Meddled(events[id], t)];
      if !t.recorded {
        return Errored;
      }
      result := RecordFailure(id, Failure(seen.attempts, seen.maxAttempts, now));
    }

    /** The write after an error the worker has seen: where the event is still pending, retry later or give up. */
    method RecordFailure(id: nat, f: Failure) returns (result: Result)
      requires id in events
      modifies this`events
      ensures events == old(events)[id := Record(old(events)[id], f)]
      ensures result == if GivesUp(f) then Died else Retried
    {
      var attempts := f.attempts + 1;
      var dead := attempts >= f.maxAttempts;
      if events[id].status == Pending {
        var e := events[id].(attempts := attempts);
        events := events[id := if dead then e.(status := Dead) else e.(nextAttemptAt := f.now + BackoffMs(attempts))];
      } else {
        assert events == events[id := events[id]];
      }
      return if dead then Died else Retried;
    }

    /** One pass over the due events, up to the deadline; the counts say how many events got which report. */
    method DrainOutbox(due: seq<nat>, tries: seq<Try>, now: int, budget: nat) returns (r: Counts)
      requires Valid() && |tries| == |due|
      modifies this`events
      ensures Valid() && r.picked == Min(budget, |due|) && r.picked == r.done + r.retried + r.dead + r.skipped
      ensures events == Drained(old(events), due[..r.picked], tries[..r.picked], now)
      ensures CountsAre(r, old(events), due, tries, now)
    {
      hide Sound, Processed, Reported, ProcessIn;
      r := Counts(0, 0, 0, 0, 0);
      ghost var start := events;
      while r.picked < |due| && r.picked < budget
        invariant Valid() && r.picked <= |due| && r.picked <= budget
        invariant r.picked == r.done + r.retried + r.dead + r.skipped
        invariant events == Drained(start, due[..r.picked], tries[..r.picked], now)
        invariant CountsAre(r, start, due, tries, now)
      {
        var i := r.picked;
        assert due[..i + 1][..i] == due[..i] && tries[..i + 1][..i] == tries[..i];
        var result := ProcessOne(due[i], tries[i], now);
        r := r.(picked := r.picked + 1);
        match result {
          case Completed => r := r.(done := r.done + 1);
          case Retried => r := r.(retried := r.retried + 1);
          case Died => r := r.(dead := r.dead + 1);
          case Skipped | Errored => r := r.(skipped := r.skipped + 1);
        }
      }
    }
  }

  /** `Errored`: neither the transaction nor the failure write went through. */
  datatype Result = Completed | Retried | Died | Skipped | Errored

  datatype Counts = Counts(picked: nat, done: nat, retried: nat, dead: nat, skipped: nat)

  /**
   * How one worker fares: the row may be locked by another, the transaction ends
   * somehow, and the failure write may not reach the table. Before that write,
   * rivals act, some of them on failures they had seen before: the counters they
   * read then, and when.
   */
  datatype Try = Try(locked: bool, outcome: Outcome, recorded: bool, readBefore: seq<(nat, int)>, rivals: seq<Action>)

  function RivalFailures(e: Event, t: Try): seq<Failure> {
    seq(|t.readBefore|, i requires 0 <= i < |t.readBefore| =>
      Failure(t.readBefore[i].0, e.maxAttempts, t.readBefore[i].1))
  }

  /** The event after the rivals' actions. */
  function Meddled(e: Event, t: Try): Event { Run(World(e, RivalFailures(e, t)), t.rivals).event }

  /** The event after one worker's pass. */
  function Processed(e: Event, t: Try, now: int): Event {
    if t.locked || e.status != Pending then e
    else if t.outcome == Commits then Transact(e, Commits)
    else
      var later := Meddled(Transact(e, t.outcome), t);
      if t.recorded then Record(later, Failure(e.attempts, e.maxAttempts, now)) else later
  }

  lemma ProcessedIsSound(e: Event, t: Try, now: int)
    requires Sound(World(e, []))
    ensures Sound(World(Processed(e, t, now), [])) && Processed(e, t, now).maxAttempts == e.maxAttempts
    ensures e.status == Pending && t.outcome != Fails ==> Meddled(Transact(e, t.outcome), t) == Transact(e, t.outcome)
  {
    var after := Transact(e, t.outcome);
    RunIsSound(World(after, RivalFailures(after, t)), t.rivals);
    if e.status == Pending && t.outcome != Fails { SettledStays(World(after, RivalFailures(after, t)), t.rivals); }
  }

  lemma {:induction false} SettledStays(w: World, actions: seq<Action>)
    requires w.event.status != Pending
    ensures Run(w, actions).event == w.event
    decreases |actions|
  {
    if actions != [] { SettledStays(w, actions[..|actions| - 1]); }
  }

  /** A worker left alone is an undisturbed stretch of the protocol: claim, then land or lose what failed. */
  lemma AloneIsOrderly(e: Event, t: Try, now: int)
    requires !t.locked && t.rivals == []
    ensures Processed(e, t, now) ==
            Step(Step(World(e, []), Claim(t.outcome, now)), if t.recorded then Land(0) else Lose(0)).event
  {
  }

  /**
   * What the worker reports about a pending event is what became of it exactly
   * when its transaction committed in the open, or the event was still pending
   * when the failure write came, or had been given up and is reported so.
   */
  lemma ReportIsTrueExactly(events: map<nat, Event>, id: nat, t: Try, now: int)
    requires id in events && events[id].status == Pending && Sound(World(events[id], [])) && !t.locked
    ensures var after, said := ProcessIn(events, id, t, now)[id].status, Reported(events, id, t);
            var e := events[id];
            var later := Meddled(Transact(e, t.outcome), t);
            ((said == Completed <==> after == Done) && (said == Died <==> after == Dead)) <==>
              || t.outcome == Commits
              || later.status == Pending
              || (later.status == Dead && t.recorded && e.attempts + 1 >= e.maxAttempts)
  {
    hide Meddled;
  }

  /**
   * What an undisturbed attempt on a pending event reports, and what it has left:
   * the work done; an event that is to be retried, or given up; or an event that
   * looks as if nobody had tried it.
   */
  lemma AloneReports(events: map<nat, Event>, id: nat, t: Try, now: int)
    requires id in events && events[id].status == Pending && !t.locked && t.rivals == [] && t.outcome != CommitUnseen
    ensures var e, after := events[id], ProcessIn(events, id, t, now)[id];
            match Reported(events, id, t)
            case Completed => after.status == Done && after.effects == e.effects + 1
            case Retried => after.status == Pending && after.attempts == e.attempts + 1
            case Died => after.status == Dead && after.attempts == e.attempts + 1
            case Errored => after == e && t.outcome == Fails && !t.recorded
            case Skipped => false
  {
  }

  function ProcessIn(events: map<nat, Event>, id: nat, t: Try, now: int): map<nat, Event> {
    if id in events then events[id := Processed(events[id], t, now)] else events
  }

  function Reported(events: map<nat, Event>, id: nat, t: Try): Result {
    if id !in events || t.locked || events[id].status != Pending then Skipped
    else if t.outcome == Commits then Completed
    else if !t.recorded then Errored
    else if events[id].attempts + 1 >= events[id].maxAttempts then Died
    else Retried
  }

  function Drained(events: map<nat, Event>, due: seq<nat>, tries: seq<Try>, now: int): map<nat, Event>
    requires |tries| == |due|
  {
    if due == [] then events
    else
      var n := |due| - 1;
      ProcessIn(Drained(events, due[..n], tries[..n], now), due[n], tries[n], now)
  }

  /** How many events of the pass were reported as one of `results`. */
  function Tally(events: map<nat, Event>, due: seq<nat>, tries: seq<Try>, now: int, results: set<Result>): nat
    requires |tries| == |due|
  {
    if due == [] then 0
    else
      var n := |due| - 1;
      var before := Drained(events, due[..n], tries[..n], now);
      Tally(events, due[..n], tries[..n], now, results) + if Reported(before, due[n], tries[n]) in results then 1 else 0
  }

  ghost predicate CountsAre(r: Counts, events: map<nat, Event>, due: seq<nat>, tries: seq<Try>, now: int)
    requires |tries| == |due|
  {
    && r.picked <= |due|
    && r.done == Tally(events, due[..r.picked], tries[..r.picked], now, {Completed})
    && r.retried == Tally(events, due[..r.picked], tries[..r.picked], now, {Retried})
    && r.dead == Tally(events, due[..r.picked], tries[..r.picked], now, {Died})
    && r.skipped == Tally(events, due[..r.picked], tries[..r.picked], now, {Skipped, Errored})
  }
}
