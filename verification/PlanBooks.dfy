/**
 * All runs of the plan desk over the reservation books: creating, submitting,
 * deciding and releasing plans, consumption by production, stock movements and
 * the holds of the rest of the system, in any order.
 */
module PlanBooks {
  import opened Common
  import opened StockReservations

  datatype Call =
    | Create(salesOrderId: int, level: nat)
    | Submit(planId: nat, wants: seq<(int, int)>)
    | Decide(planId: nat, approve: bool, noted: bool, allowed: bool, wants: seq<(int, int)>)
    | Release(planId: nat)
    | Consume(order: Option<int>, itemId: int, qty: int)
    | Move(itemId: int, incoming: bool, amount: int)
    | Hold(itemId: int, amount: int, giveBack: bool)

  /** One call, as the ledger carries it out. */
  ghost function Apply(b: Books, c: Call): Books
    requires b.outside.Keys == b.items.Keys
  {
    match c
    case Create(order, level) => Created(b, order, level)
    case Submit(planId, wants) => SubmittedBooks(b, planId, wants)
    case Decide(planId, approve, noted, allowed, wants) => Decided(b, planId, approve, noted, allowed, wants)
    case Release(planId) => ReleasedBooks(b, planId)
    case Consume(order, itemId, qty) => ConsumedBooks(b, order, itemId, qty)
    case Move(itemId, incoming, amount) => Moved(b, itemId, incoming, amount)
    case Hold(itemId, amount, giveBack) => HoldChanged(b, itemId, amount, giveBack)
  }

  ghost function Run(b: Books, calls: seq<Call>): (after: Books)
    requires b.outside.Keys == b.items.Keys
    ensures after.outside.Keys == after.items.Keys
  {
    if calls == [] then b else Apply(Run(b, calls[..|calls| - 1]), calls[|calls| - 1])
  }

  // ---------------------------------------------------------- what the books keep

  /** Reserved is what others hold plus what active rows have left. */
  ghost predicate BalancedBooks(b: Books) {
    && b.outside.Keys == b.items.Keys
    && (forall i :: i in b.items ==> b.outside[i] >= 0 && b.items[i].reserved == b.outside[i] + Held(b.rows, i))
  }

  ghost predicate SoundRows(b: Books) {
    forall r :: r in b.rows ==> SoundRow(r) && r.itemId in b.items && r.planId < |b.plans|
  }

  /** At most one plan of an order is approved, and at most one is open. */
  ghost predicate OnePlanEach(plans: seq<Plan>) {
    forall i, j :: 0 <= i < j < |plans| && plans[i].salesOrderId == plans[j].salesOrderId ==>
      && !(plans[i].status == Approved && plans[j].status == Approved)
      && !(Open(plans[i]) && Open(plans[j]))
  }

  /** Only approved plans hold anything. */
  ghost predicate ApprovedHold(rows: seq<Row>, plans: seq<Plan>) {
    forall r :: r in rows && r.status == Active ==> r.planId < |plans| && plans[r.planId].status == Approved
  }

  ghost predicate Sound(b: Books) {
    BalancedBooks(b) && SoundRows(b) && OnePlanEach(b.plans) && ApprovedHold(b.rows, b.plans)
  }

  lemma ResettledIsBalanced(b: Books, rows: seq<Row>, plans: seq<Plan>)
    requires b.outside.Keys == b.items.Keys && forall i :: i in b.items ==> b.outside[i] >= 0
    ensures BalancedBooks(Resettled(b, rows, plans)) && Resettled(b, rows, plans).items.Keys == b.items.Keys
  {
    hide Held;
  }

  // ------------------------------------------------------------- releasing rows

  lemma {:induction false} ReleasedFrom(rows: seq<Row>, planId: nat)
    ensures forall r :: r in ReleasedRows(rows, planId) ==> exists was :: was in rows && r == ReleasedRow(was, planId)
    decreases |rows|
  {
    if rows != [] {
      var n := |rows| - 1;
      ReleasedFrom(rows[..n], planId);
      assert rows[n] in rows;
      forall r | r in ReleasedRows(rows, planId) ensures exists was :: was in rows && r == ReleasedRow(was, planId) {
        if r in ReleasedRows(rows[..n], planId) {
          var was :| was in rows[..n] && r == ReleasedRow(was, planId);
          assert was in rows;
        }
      }
    }
  }

  /** A row that comes from an old one: same plan and item, still sound, and active only if the old one was. */
  predicate Descends(r: Row, was: Row) {
    r.planId == was.planId && r.itemId == was.itemId && SoundRow(r) && (r.status == Active ==> was.status == Active)
  }

  ghost predicate AllDescend(rows: seq<Row>, before: seq<Row>) {
    forall r :: r in rows ==> exists was :: was in before && Descends(r, was)
  }

  lemma ReleasedDescend(rows: seq<Row>, before: seq<Row>, planId: nat)
    requires AllDescend(rows, before)
    ensures AllDescend(ReleasedRows(rows, planId), before)
    ensures forall r :: r in ReleasedRows(rows, planId) && r.status == Active ==> r in rows && r.planId != planId
  {
    ReleasedFrom(rows, planId);
    forall r | r in ReleasedRows(rows, planId) ensures exists was :: was in before && Descends(r, was) {
      var mid :| mid in rows && r == ReleasedRow(mid, planId);
      var was :| was in before && Descends(mid, was);
      assert Descends(r, was);
    }
  }

  lemma SelfDescend(rows: seq<Row>)
    requires forall r :: r in rows ==> SoundRow(r)
    ensures AllDescend(rows, rows)
  {
    forall r | r in rows ensures exists was :: was in rows && Descends(r, was) {
      assert Descends(r, r);
    }
  }

  /** What superseding leaves active belongs to plans that were not superseded. */
  lemma {:induction false} ReleasedForDescend(rows: seq<Row>, plans: seq<Plan>, planId: nat, order: int)
    requires forall r :: r in rows ==> SoundRow(r)
    ensures AllDescend(ReleasedFor(rows, plans, planId, order), rows)
    ensures forall r :: r in ReleasedFor(rows, plans, planId, order) && r.status == Active ==>
              r in rows && (r.planId < |plans| ==> !Superseding(plans[r.planId], r.planId, planId, order))
    decreases |plans|
  {
    if plans == [] {
      SelfDescend(rows);
    } else {
      hide AllDescend, SoundRow;
      var n := |plans| - 1;
      ReleasedForDescend(rows, plans[..n], planId, order);
      if Superseding(plans[n], n, planId, order) {
        ReleasedDescend(ReleasedFor(rows, plans[..n], planId, order), rows, n);
      }
    }
  }

  lemma {:induction false} SupersededAt(plans: seq<Plan>, planId: nat, order: int, i: nat)
    requires i < |plans|
    ensures SupersededPlans(plans, planId, order)[i] ==
            if Superseding(plans[i], i, planId, order) then plans[i].(status := Superseded) else plans[i]
    decreases |plans|
  {
    if i < |plans| - 1 { SupersededAt(plans[..|plans| - 1], planId, order, i); }
  }

  // ------------------------------------------------------------------- approval

  lemma {:induction false} GrantedAreSound(items: map<int, Item>, wants: seq<(int, int)>, planId: nat)
    ensures forall r :: r in Granted(items, wants, planId) ==>
              SoundRow(r) && r.planId == planId && r.itemId in items && r.status == Active
    decreases |wants|
  {
    if wants != [] {
      var itemId, want := wants[0].0, wants[0].1;
      var take := if itemId in items then Min(want, Max(0, items[itemId].qty - items[itemId].reserved)) else 0;
      if take <= 0 {
        GrantedAreSound(items, wants[1..], planId);
      } else {
        GrantedAreSound(items[itemId := items[itemId].(reserved := items[itemId].reserved + take)], wants[1..], planId);
      }
    }
  }

  /** Approving an open plan leaves it the only approved one of its order. */
  lemma ApprovalKeepsOnePlanEach(plans: seq<Plan>, planId: nat)
    requires OnePlanEach(plans) && planId < |plans| && Open(plans[planId])
    ensures var order := plans[planId].salesOrderId;
            OnePlanEach(SupersededPlans(plans[planId := plans[planId].(status := Approved)], planId, order))
  {
    var order := plans[planId].salesOrderId;
    var approved := plans[planId := plans[planId].(status := Approved)];
    var after := SupersededPlans(approved, planId, order);
    forall i | 0 <= i < |plans|
      ensures after[i] ==
              if Superseding(approved[i], i, planId, order) then approved[i].(status := Superseded) else approved[i]
    {
      SupersededAt(approved, planId, order, i);
    }
    hide SupersededPlans;
  }

  lemma ApprovalKeepsHolders(b: Books, planId: nat, wants: seq<(int, int)>)
    requires Sound(b) && planId < |b.plans| && Open(b.plans[planId])
    ensures var after := ApprovedBooks(b, planId, wants);
            SoundRows(after) && ApprovedHold(after.rows, after.plans)
  {
    var order := b.plans[planId].salesOrderId;
    var plans := b.plans[planId := b.plans[planId].(status := Approved)];
    var kept := ReleasedFor(b.rows, plans, planId, order);
    var items := Balanced(b.items, b.outside, kept);
    ReleasedForDescend(b.rows, plans, planId, order);
    GrantedAreSound(items, wants, planId);
    assert items.Keys == b.items.Keys by { ResettledIsBalanced(b, kept, plans); }
    var after := ApprovedBooks(b, planId, wants);
    assert after.rows == kept + Granted(items, wants, planId);
    forall r | r in after.rows ensures SoundRow(r) && r.itemId in after.items && r.planId < |after.plans| {
      if r in kept {
        var was :| was in b.rows && Descends(r, was);
      }
    }
    forall r | r in after.rows && r.status == Active ensures after.plans[r.planId].status == Approved {
      SupersededAt(plans, planId, order, r.planId);
    }
  }

  lemma ApprovalIsSound(b: Books, planId: nat, wants: seq<(int, int)>)
    requires Sound(b) && planId < |b.plans| && Open(b.plans[planId])
    ensures Sound(ApprovedBooks(b, planId, wants))
  {
    ApprovalKeepsOnePlanEach(b.plans, planId);
    ApprovalKeepsHolders(b, planId, wants);
    var after := ApprovedBooks(b, planId, wants);
    ResettledIsBalanced(b, after.rows, after.plans);
    hide SupersededPlans, ReleasedFor, Granted, SoundRows, OnePlanEach, ApprovedHold;
  }

  // ---------------------------------------------------------------- consumption

  lemma {:induction false} SpentDescend(rows: seq<Row>, takes: seq<(nat, int)>, t: nat, itemId: int)
    requires t <= |takes| && TakesFit(rows, takes, itemId) && forall r :: r in rows ==> SoundRow(r)
    ensures AllDescend(SpentRows(rows, takes[..t]), rows)
    decreases t
  {
    if t == 0 {
      assert takes[..0] == [];
      SelfDescend(rows);
    } else {
      SpentDescend(rows, takes, t - 1, itemId);
      SpendStep(rows, takes, t - 1, itemId);
      var before, k := SpentRows(rows, takes[..t - 1]), takes[t - 1].0;
      var spent := SpentRow(rows[k], takes[t - 1].1);
      SpentRowFits(rows[k], takes[t - 1].1);
      var after := before[k := spent];
      assert Descends(spent, rows[k]) && rows[k] in rows;
      hide SpentRows, TakesFit;
      forall r | r in after ensures exists was :: was in rows && Descends(r, was) {
        if r != spent { assert r in before; }
      }
    }
  }

  lemma ConsumptionIsSound(b: Books, order: Option<int>, itemId: int, qty: int)
    requires Sound(b)
    ensures Sound(ConsumedBooks(b, order, itemId, qty))
  {
    if order !in {None, Some(0)} {
      var open := Selected(b.rows, b.plans, order.value, itemId);
      var takes := Allocation(open, qty);
      SelectedAreOpen(b.rows, b.plans, order.value, itemId);
      AllocationFits(b.rows, open, qty, itemId);
      SpentDescend(b.rows, takes, |takes|, itemId);
      assert takes[..|takes|] == takes;
      DescendantsAreSound(b, SpentRows(b.rows, takes));
    }
  }

  /** New rows that all descend from the old ones keep the books sound. */
  lemma DescendantsAreSound(b: Books, rows: seq<Row>)
    requires Sound(b) && AllDescend(rows, b.rows)
    ensures Sound(Resettled(b, rows, b.plans))
  {
    ResettledIsBalanced(b, rows, b.plans);
    forall r | r in rows
      ensures SoundRow(r) && r.itemId in b.items && r.planId < |b.plans|
      ensures r.status == Active ==> b.plans[r.planId].status == Approved
    {
      var was :| was in b.rows && Descends(r, was);
    }
    hide BalancedBooks, Balanced, OnePlanEach;
  }

  lemma {:induction false} SelectedMatch(rows: seq<Row>, plans: seq<Plan>, order: int, itemId: int)
    ensures forall p :: p in Selected(rows, plans, order, itemId) ==>
            p.0 < |rows| && Matches(rows[p.0], plans, order, itemId)
    decreases |rows|
  {
    if rows != [] { SelectedMatch(rows[..|rows| - 1], plans, order, itemId); }
  }

  /** Production draws on one plan only: everything selected for an order belongs to its one approved plan. */
  lemma OnePlanIsConsumed(b: Books, order: int, itemId: int)
    requires Sound(b)
    ensures forall p, q ::
              p in Selected(b.rows, b.plans, order, itemId) && q in Selected(b.rows, b.plans, order, itemId) ==>
              p.0 < |b.rows| && q.0 < |b.rows| && b.rows[p.0].planId == b.rows[q.0].planId
  {
    SelectedMatch(b.rows, b.plans, order, itemId);
    hide Selected, BalancedBooks, SoundRows, ApprovedHold;
    forall p, q | p in Selected(b.rows, b.plans, order, itemId) && q in Selected(b.rows, b.plans, order, itemId)
      ensures b.rows[p.0].planId == b.rows[q.0].planId
    {
      var i, j := b.rows[p.0].planId, b.rows[q.0].planId;
      assert Stands(b.plans[i], order) && Stands(b.plans[j], order);
    }
  }

  // ------------------------------------------------------------- the other calls

  lemma CreationIsSound(b: Books, order: int, level: nat)
    requires Sound(b)
    ensures Sound(Created(b, order, level))
  {
    var plans := Withdrawn(b.plans, order) + [Plan(order, Draft, level)];
    ResettledIsBalanced(b, b.rows, plans);
    hide BalancedBooks, Balanced;
  }

  /** A plan that is not approved changes its status, an open one to submitted or rejected. */
  lemma StatusChangeIsSound(b: Books, planId: nat, status: PlanStatus)
    requires Sound(b) && planId < |b.plans| && Open(b.plans[planId]) && (status == Submitted || status == Rejected)
    ensures Sound(Resettled(b, b.rows, b.plans[planId := b.plans[planId].(status := status)]))
  {
    ResettledIsBalanced(b, b.rows, b.plans[planId := b.plans[planId].(status := status)]);
    hide BalancedBooks, Balanced;
  }

  lemma ReleaseIsSound(b: Books, planId: nat)
    requires Sound(b)
    ensures Sound(ReleasedBooks(b, planId))
  {
    SelfDescend(b.rows);
    ReleasedDescend(b.rows, b.rows, planId);
    DescendantsAreSound(b, ReleasedRows(b.rows, planId));
    hide Sound, Resettled;
  }

  lemma StockIsSound(b: Books, itemId: int, incoming: bool, amount: int)
    requires Sound(b)
    ensures Sound(Moved(b, itemId, incoming, amount))
  {
    hide Held, OnePlanEach, ApprovedHold;
  }

  lemma HoldIsSound(b: Books, itemId: int, amount: int, giveBack: bool)
    requires Sound(b)
    ensures Sound(HoldChanged(b, itemId, amount, giveBack))
  {
    hide Held, OnePlanEach, ApprovedHold;
  }

  lemma ApplyIsSound(b: Books, c: Call)
    requires Sound(b)
    ensures Sound(Apply(b, c))
  {
    hide Sound, Resettled, ApprovedBooks, ReleasedBooks, ConsumedBooks, Created, Moved, HoldChanged;
    assert b.outside.Keys == b.items.Keys by { SoundKeys(b); }
    match c
    case Create(order, level) => CreationIsSound(b, order, level);
    case Submit(planId, wants) =>
      if planId < |b.plans| && b.plans[planId].status == Draft {
        if b.plans[planId].level == 0 {
          ApprovalIsSound(b, planId, wants);
        } else {
          StatusChangeIsSound(b, planId, Submitted);
        }
      }
    case Decide(planId, approve, noted, allowed, wants) =>
      if planId < |b.plans| && b.plans[planId].status == Submitted {
        if approve { ApprovalIsSound(b, planId, wants); } else { StatusChangeIsSound(b, planId, Rejected); }
      }
    case Release(planId) => ReleaseIsSound(b, planId);
    case Consume(order, itemId, qty) => ConsumptionIsSound(b, order, itemId, qty);
    case Move(itemId, incoming, amount) => StockIsSound(b, itemId, incoming, amount);
    case Hold(itemId, amount, giveBack) => HoldIsSound(b, itemId, amount, giveBack);
  }

  lemma SoundKeys(b: Books)
    requires Sound(b)
    ensures b.outside.Keys == b.items.Keys
  {
  }

  /**
   * From any opening stock and through any calls: each item's reserved quantity
   * is what others hold plus what active rows have left, at most one plan of an
   * order is approved and at most one is open, and only approved plans hold
   * anything.
   */
  lemma {:induction false} BooksStaySound(stock: map<int, int>, calls: seq<Call>)
    ensures Sound(Run(OpenBooks(stock), calls))
    decreases |calls|
  {
    if calls == [] {
      assert OpenBooks(stock).outside.Keys == stock.Keys && OpenBooks(stock).items.Keys == stock.Keys;
    } else {
      BooksStaySound(stock, calls[..|calls| - 1]);
      ApplyIsSound(Run(OpenBooks(stock), calls[..|calls| - 1]), calls[|calls| - 1]);
      hide Sound, Apply;
    }
  }
}
