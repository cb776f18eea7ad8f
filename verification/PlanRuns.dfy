/**
 * What holds over every run of the plan desk: where an approval must have come
 * from, how a reservation can change, and what the physical stock depends on.
 */
module PlanRuns {
  import opened Common
  import opened StockReservations
  import opened PlanBooks
  import opened PlanLaws

  // -------------------------------------------------------------- single calls

  /** A movement changes the physical quantity of its item, unless that would fall below zero, and nothing else. */
  lemma MovementExactly(b: Books, itemId: int, incoming: bool, amount: int)
    requires Sound(b)
    ensures var after, change := Apply(b, Move(itemId, incoming, amount)), if incoming then amount else -amount;
            && after.outside == b.outside && after.rows == b.rows && after.plans == b.plans
            && after.items.Keys == b.items.Keys
            && forall i :: i in b.items ==>
                 && after.items[i].reserved == b.items[i].reserved
                 && after.items[i].qty - b.items[i].qty ==
                    if i == itemId && amount > 0 && b.items[i].qty + change >= 0 then change else 0
  {
    hide Held;
  }

  /** A hold is taken as far as free stock allows and given back as far as it was taken; no row or plan changes. */
  lemma HoldExactly(b: Books, itemId: int, amount: int, giveBack: bool)
    requires Sound(b)
    ensures var after, change := Apply(b, Hold(itemId, amount, giveBack)), if giveBack then -amount else amount;
            && after.rows == b.rows && after.plans == b.plans && after.items.Keys == b.items.Keys
            && forall i :: i in b.items ==>
                 && after.items[i].qty == b.items[i].qty
                 && var done := i == itemId && amount > 0
                                && if giveBack then amount <= b.outside[i]
                                   else b.items[i].reserved + amount <= b.items[i].qty;
                    && after.items[i].reserved - b.items[i].reserved == (if done then change else 0)
                    && after.outside[i] - b.outside[i] == (if done then change else 0)
  {
    hide Held;
  }

  /** A reservation keeps its plan, item and size, gives up more and more of it, and once it has ended is final. */
  predicate Advances(before: Row, after: Row) {
    && after.planId == before.planId && after.itemId == before.itemId && after.qty == before.qty
    && before.consumed <= after.consumed && (before.consumed <= before.qty ==> after.consumed <= after.qty)
    && (before.status != Active ==> after == before)
  }

  /** The physical quantity of item `i` behind a call, from the call alone. */
  function QtyAfter(q: int, c: Call, i: int): int {
    match c
    case Move(itemId, incoming, amount) =>
      var next := if incoming then q + amount else q - amount;
      if itemId == i && amount > 0 && next >= 0 then next else q
    case _ => q
  }

  /** What one call keeps: no row or plan is lost, rows advance, and only movements change what is in stock. */
  ghost predicate Follows(b: Books, c: Call, after: Books) {
    && |after.plans| >= |b.plans| && |after.rows| >= |b.rows| && after.items.Keys == b.items.Keys
    && (forall i: nat :: i < |b.rows| ==> Advances(b.rows[i], after.rows[i]))
    && (forall p: nat :: |b.plans| <= p < |after.plans| ==> after.plans[p].status == Draft)
    && (forall i :: i in b.items ==> after.items[i].qty == QtyAfter(b.items[i].qty, c, i))
  }

  lemma SoundRowsFit(b: Books)
    requires Sound(b)
    ensures b.outside.Keys == b.items.Keys && forall r :: r in b.rows ==> r.consumed <= r.qty
  {
    hide Held;
  }

  lemma CallFollows(b: Books, c: Call)
    requires Sound(b)
    ensures Follows(b, c, Apply(b, c))
  {
    SoundRowsFit(b);
    ApplyKeepsItems(b, c);
    match c
    case Create(order, level) =>
      CreationExactly(b, order, level);
      hide Sound, Created;
    case Submit(planId, wants) =>
      SubmissionFollows(b, planId, wants);
      hide Sound, SubmittedBooks;
    case Decide(planId, approve, noted, allowed, wants) =>
      DecisionFollows(b, planId, approve, noted, allowed, wants);
      hide Sound, Decided;
    case Release(planId) => ReleaseFollows(b, planId);
    case Consume(order, itemId, qty) => ConsumptionFollows(b, order, itemId, qty);
    case Move(itemId, incoming, amount) =>
      MovementExactly(b, itemId, incoming, amount);
      hide Sound, Moved;
    case Hold(itemId, amount, giveBack) =>
      HoldExactly(b, itemId, amount, giveBack);
      hide Sound, HoldChanged;
  }

  lemma ApplyKeepsItems(b: Books, c: Call)
    requires Sound(b)
    ensures Apply(b, c).items.Keys == b.items.Keys
  {
    hide Held, Sound, SpentRows, ReleasedRows;
    assert b.outside.Keys == b.items.Keys by { SoundRowsFit(b); }
  }

  lemma ApprovalFollows(b: Books, planId: nat, wants: seq<(int, int)>, c: Call)
    requires Sound(b) && planId < |b.plans| && !c.Move?
    ensures ApprovedBooks(b, planId, wants).items.Keys == b.items.Keys
    ensures Follows(b, c, ApprovedBooks(b, planId, wants))
  {
    SoundRowsFit(b);
    ApprovalExactly(b, planId, wants);
    hide Sound, Held, Wanted, ApprovedBooks;
  }

  lemma SubmissionFollows(b: Books, planId: nat, wants: seq<(int, int)>)
    requires Sound(b)
    ensures Follows(b, Submit(planId, wants), SubmittedBooks(b, planId, wants))
  {
    SoundRowsFit(b);
    SubmissionExactly(b, planId, wants);
    if planId < |b.plans| { ApprovalFollows(b, planId, wants, Submit(planId, wants)); }
    hide Sound, SubmittedBooks, ApprovedBooks;
  }

  lemma DecisionFollows(b: Books, planId: nat, approve: bool, noted: bool, allowed: bool, wants: seq<(int, int)>)
    requires Sound(b)
    ensures Follows(b, Decide(planId, approve, noted, allowed, wants),
                    Decided(b, planId, approve, noted, allowed, wants))
  {
    SoundRowsFit(b);
    DecisionExactly(b, planId, approve, noted, allowed, wants);
    if planId < |b.plans| { ApprovalFollows(b, planId, wants, Decide(planId, approve, noted, allowed, wants)); }
    hide Sound, Decided, ApprovedBooks;
  }

  lemma ReleaseFollows(b: Books, planId: nat)
    requires Sound(b)
    ensures Follows(b, Release(planId), ReleasedBooks(b, planId))
  {
    SoundRowsFit(b);
    if planId < |b.plans| { ReleaseExactly(b, planId); }
    hide Sound, Held;
  }

  lemma ConsumptionFollows(b: Books, order: Option<int>, itemId: int, qty: int)
    requires Sound(b)
    ensures Follows(b, Consume(order, itemId, qty), ConsumedBooks(b, order, itemId, qty))
  {
    SoundRowsFit(b);
    if order.Some? && order.value != 0 { ConsumptionExactly(b, order.value, itemId, qty); }
    hide Sound, Held;
  }

  // ----------------------------------------------------------------- whole runs

  /** A run may be cut anywhere, and a run of one call is that call. */
  lemma {:induction false} RunsCompose(b: Books, first: seq<Call>, second: seq<Call>)
    requires b.outside.Keys == b.items.Keys
    ensures Run(b, first + second) == Run(Run(b, first), second)
    ensures |second| == 1 ==> Run(b, first + second) == Apply(Run(b, first), second[0])
    decreases |second|
  {
    var all := first + second;
    if second == [] {
      assert all == first;
    } else {
      var n := |second| - 1;
      assert all[..|all| - 1] == first + second[..n] && all[|all| - 1] == second[n];
      RunsCompose(b, first, second[..n]);
      assert n == 0 ==> second[..n] == [] && Run(Run(b, first), []) == Run(b, first);
    }
  }

  lemma {:induction false} RunStaysSound(b: Books, calls: seq<Call>)
    requires Sound(b)
    ensures Sound(Run(b, calls))
    decreases |calls|
  {
    SoundRowsFit(b);
    if calls != [] {
      var n := |calls| - 1;
      RunStaysSound(b, calls[..n]);
      SoundRowsFit(Run(b, calls[..n]));
      ApplyIsSound(Run(b, calls[..n]), calls[n]);
      hide Sound, Apply;
    }
  }

  /** The state before the last call of a run, and what that call keeps. */
  lemma LastCallFollows(b: Books, calls: seq<Call>)
    requires Sound(b) && calls != []
    ensures b.outside.Keys == b.items.Keys
    ensures var n := |calls| - 1;
            Sound(Run(b, calls[..n])) && Follows(Run(b, calls[..n]), calls[n], Run(b, calls))
  {
    SoundRowsFit(b);
    var n := |calls| - 1;
    RunStaysSound(b, calls[..n]);
    CallFollows(Run(b, calls[..n]), calls[n]);
    hide Sound, Follows, Apply;
  }

  /** Whatever is called, a reservation only gives up more and more, and one that has ended stays as it is. */
  lemma {:induction false} ReservationsAdvance(b: Books, calls: seq<Call>, i: nat)
    requires Sound(b) && i < |b.rows|
    ensures b.outside.Keys == b.items.Keys && i < |Run(b, calls).rows| && Advances(b.rows[i], Run(b, calls).rows[i])
    decreases |calls|
  {
    SoundRowsFit(b);
    if calls == [] {
      assert b.rows[i] in b.rows;
    } else {
      LastCallFollows(b, calls);
      ReservationsAdvance(b, calls[..|calls| - 1], i);
      hide Sound, Run;
    }
  }

  /** The physical quantity of item `i` behind a run, from its movements alone. */
  function QtyAfterAll(q: int, calls: seq<Call>, i: int): int {
    if calls == [] then q else QtyAfter(QtyAfterAll(q, calls[..|calls| - 1], i), calls[|calls| - 1], i)
  }

  /** No reservation, release or consumption of a plan moves stock: what there is follows from the movements alone. */
  lemma {:induction false} StockFollowsMovements(b: Books, calls: seq<Call>, i: int)
    requires Sound(b) && i in b.items
    ensures b.outside.Keys == b.items.Keys && i in Run(b, calls).items
    ensures Run(b, calls).items[i].qty == QtyAfterAll(b.items[i].qty, calls, i)
    decreases |calls|
  {
    SoundRowsFit(b);
    if calls != [] {
      LastCallFollows(b, calls);
      StockFollowsMovements(b, calls[..|calls| - 1], i);
      hide Sound, Run;
    }
  }

  ghost predicate WasSubmitted(stock: map<int, int>, calls: seq<Call>, p: nat) {
    exists k: nat :: k <= |calls| && PlanIs(Run(OpenBooks(stock), calls[..k]), p, Submitted)
  }

  predicate PlanIs(b: Books, p: nat, status: PlanStatus) { p < |b.plans| && b.plans[p].status == status }

  /** In every run, a plan above level 0 that is approved was submitted for a decision at some time before. */
  lemma {:induction false} ApprovedWasSubmitted(stock: map<int, int>, calls: seq<Call>, p: nat)
    requires PlanIs(Run(OpenBooks(stock), calls), p, Approved)
    requires Run(OpenBooks(stock), calls).plans[p].level > 0
    ensures WasSubmitted(stock, calls, p)
    decreases |calls|
  {
    var b := OpenBooks(stock);
    BooksStaySound(stock, []);
    if calls != [] {
      var n := |calls| - 1;
      var before := Run(b, calls[..n]);
      LastCallFollows(b, calls);
      assert Run(b, calls) == Apply(before, calls[n]);
      hide Run, Apply, Sound;
      ApprovalComesFrom(before, calls[n], p);
      if PlanIs(before, p, Approved) {
        ApprovedWasSubmitted(stock, calls[..n], p);
        var k: nat :| k <= n && PlanIs(Run(b, calls[..n][..k]), p, Submitted);
        assert calls[..n][..k] == calls[..k];
      } else {
        assert PlanIs(Run(b, calls[..n]), p, Submitted);
      }
    }
  }

  /** Above level 0 one call approves nothing but what was submitted. */
  lemma ApprovalComesFrom(b: Books, c: Call, p: nat)
    requires Sound(b) && b.outside.Keys == b.items.Keys
    requires PlanIs(Apply(b, c), p, Approved) && Apply(b, c).plans[p].level > 0
    ensures PlanIs(b, p, Submitted) || (PlanIs(b, p, Approved) && b.plans[p].level > 0)
  {
    CallFollows(b, c);
    if p < |b.plans| { PlansMove(b, c, p); }
    hide Apply, Sound;
  }
}
