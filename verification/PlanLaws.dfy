/**
 * What each call of the plan desk does to every single row and plan, said on the
 * tables themselves: which rows it touches, by how much, and that it leaves the
 * others, and all other orders, as they were.
 */
module PlanLaws {
  import opened Common
  import opened StockReservations
  import opened PlanBooks

  // ----------------------------------------------------------------- releasing

  /** Releasing a plan ends its active rows and changes nothing else of them, nor any other row. */
  lemma {:induction false} ReleasedAt(rows: seq<Row>, planId: nat, i: nat)
    requires i < |rows|
    ensures var after := ReleasedRows(rows, planId)[i];
            after == if rows[i].planId == planId && rows[i].status == Active
                     then Row(rows[i].planId, rows[i].itemId, rows[i].qty, rows[i].consumed, Released) else rows[i]
    decreases |rows|
  {
    if i < |rows| - 1 { ReleasedAt(rows[..|rows| - 1], planId, i); }
  }

  lemma {:induction false} ActiveAreCounted(rows: seq<Row>, planId: nat)
    ensures CountActive(rows, planId) ==
            |set i: nat | i < |rows| && rows[i].planId == planId && rows[i].status == Active|
    decreases |rows|
  {
    if rows != [] {
      var n := |rows| - 1;
      ActiveAreCounted(rows[..n], planId);
      OneMoreActive(rows, planId);
    }
  }

  lemma OneMoreActive(rows: seq<Row>, planId: nat)
    requires rows != []
    ensures var n := |rows| - 1;
            |set i: nat | i < |rows| && rows[i].planId == planId && rows[i].status == Active| ==
            |set i: nat | i < n && rows[..n][i].planId == planId && rows[..n][i].status == Active|
              + if rows[n].planId == planId && rows[n].status == Active then 1 else 0
  {
    var n := |rows| - 1;
    var before := set i: nat | i < n && rows[..n][i].planId == planId && rows[..n][i].status == Active;
    assert (set i: nat | i < |rows| && rows[i].planId == planId && rows[i].status == Active) ==
      before + if rows[n].planId == planId && rows[n].status == Active then {n} else {};
  }

  /** The release of a plan by hand: its active rows end, everything else but the reserved quantities stays. */
  lemma ReleaseExactly(b: Books, planId: nat)
    requires Sound(b) && planId < |b.plans|
    ensures var after := ReleasedBooks(b, planId);
            && after.plans == b.plans && after.outside == b.outside && |after.rows| == |b.rows|
            && (forall i :: 0 <= i < |b.rows| ==>
                  after.rows[i] == if b.rows[i].planId == planId && b.rows[i].status == Active
                                   then b.rows[i].(status := Released) else b.rows[i])
            && (forall i :: i in b.items ==>
                  i in after.items && after.items[i] == Item(b.items[i].qty, b.outside[i] + Held(after.rows, i)))
  {
    forall i | 0 <= i < |b.rows|
      ensures ReleasedRows(b.rows, planId)[i] == if b.rows[i].planId == planId && b.rows[i].status == Active
                                                 then b.rows[i].(status := Released) else b.rows[i]
    {
      ReleasedAt(b.rows, planId, i);
    }
    hide ReleasedRows, Held;
  }

  // ---------------------------------------------------------------- consumption

  /** One row is as it was, or has given up part or all of what it had left. */
  predicate Drawn(before: Row, after: Row) {
    && before.consumed <= after.consumed <= before.qty
    && after == Row(before.planId, before.itemId, before.qty, after.consumed,
                    if after.consumed == before.consumed then before.status
                    else if after.consumed == before.qty then Consumed else Active)
  }

  /** What the takes hand to row `id`. */
  function TakenFrom(takes: seq<(nat, int)>, id: nat): int {
    if takes == [] then 0
    else TakenFrom(takes[..|takes| - 1], id) + if takes[|takes| - 1].0 == id then takes[|takes| - 1].1 else 0
  }

  lemma {:induction false} SpentAt(rows: seq<Row>, takes: seq<(nat, int)>, itemId: int, t: nat, id: nat)
    requires t <= |takes| && TakesFit(rows, takes, itemId) && id < |rows|
    ensures var after, got := SpentRows(rows, takes[..t])[id], TakenFrom(takes[..t], id);
            && after.consumed == rows[id].consumed + got && 0 <= got
            && (got > 0 ==> got <= rows[id].qty - rows[id].consumed)
            && after == (if got == 0 then rows[id] else SpentRow(rows[id], got))
    decreases t
  {
    assert takes[..0] == [];
    if t > 0 {
      SpentAt(rows, takes, itemId, t - 1, id);
      SpendStep(rows, takes, t - 1, itemId);
      assert takes[..t][..t - 1] == takes[..t - 1];
      if takes[t - 1].0 == id { NotTakenBefore(takes, t - 1, id); }
      hide TakesFit, SpentRows, SoundRow, Part, Remaining;
    }
  }

  lemma {:induction false} NotTakenBefore(takes: seq<(nat, int)>, t: nat, id: nat)
    requires t <= |takes| && forall k :: 0 <= k < t ==> takes[k].0 != id
    ensures TakenFrom(takes[..t], id) == 0
    decreases t
  {
    if t > 0 {
      NotTakenBefore(takes, t - 1, id);
      assert takes[..t][..t - 1] == takes[..t - 1];
    }
  }

  /** A take is handed to its row alone. */
  lemma {:induction false} TakenOnce(takes: seq<(nat, int)>, t: nat, k: nat)
    requires k < t <= |takes| && forall i, j :: 0 <= i < j < |takes| ==> takes[i].0 < takes[j].0
    ensures TakenFrom(takes[..t], takes[k].0) == takes[k].1
    decreases t
  {
    assert takes[..t][..t - 1] == takes[..t - 1];
    if k < t - 1 { TakenOnce(takes, t - 1, k); } else { NotTakenBefore(takes, k, takes[k].0); }
  }

  /** What consumption hands out: to the open rows from the front, all but the last take emptying its row. */
  ghost predicate Handed(rows: seq<Row>, plans: seq<Plan>, order: int, itemId: int, open: seq<(nat, int)>,
      takes: seq<(nat, int)>) {
    && TakesFit(rows, takes, itemId)
    && |takes| <= |open| && (forall k :: 0 <= k < |takes| ==> takes[k].0 == open[k].0)
    && (forall k :: 0 <= k < |takes| - 1 ==> takes[k].1 == open[k].1)
    && (forall k, l :: 0 <= k < l < |open| ==> open[k].0 < open[l].0)
    && (forall p: (nat, int) :: p in open <==>
          p.0 < |rows| && OpenFor(rows, plans, order, itemId, p.0) && p.1 == rows[p.0].qty - rows[p.0].consumed)
  }

  lemma TakesAreHanded(rows: seq<Row>, plans: seq<Plan>, order: int, itemId: int, qty: int)
    requires forall r :: r in rows ==> SoundRow(r)
    ensures var open := Selected(rows, plans, order, itemId);
            var all := OpenSum(rows, plans, order, itemId, |rows|);
            && Handed(rows, plans, order, itemId, open, Allocation(open, qty))
            && Remaining(Allocation(open, qty)) == Min(Max(qty, 0), all)
  {
    hide Selected, Allocation, Remaining, OpenSum, AllOpen, TakesFit, OpenFor, SoundRow, Min, Max;
    var open := Selected(rows, plans, order, itemId);
    SelectedAreOpen(rows, plans, order, itemId);
    AllocationFits(rows, open, qty, itemId);
    SelectedExactly(rows, plans, order, itemId);
    TakesInFront(rows, open, qty, itemId);
  }

  lemma TakesInFront(rows: seq<Row>, open: seq<(nat, int)>, qty: int, itemId: int)
    requires AllOpen(rows, open, itemId)
    ensures var takes := Allocation(open, qty);
            && |takes| <= |open| && (forall k :: 0 <= k < |takes| ==> takes[k].0 == open[k].0)
            && (forall k :: 0 <= k < |takes| - 1 ==> takes[k].1 == open[k].1)
  {
    forall k | 0 <= k < |open| ensures open[k].1 > 0 { assert OpenAt(rows, open[k], itemId); }
    AllocationIsExact(open, qty);
    hide Allocation, Remaining, AllOpen;
  }

  /** Rows that are not open for the order and item stay; and none gives before all older open ones are empty. */
  lemma HandedExactly(rows: seq<Row>, plans: seq<Plan>, order: int, itemId: int, open: seq<(nat, int)>,
      takes: seq<(nat, int)>)
    requires (forall r :: r in rows ==> SoundRow(r)) && Handed(rows, plans, order, itemId, open, takes)
    ensures var after := SpentRows(rows, takes);
            && (forall i: nat :: i < |rows| ==> Drawn(rows[i], after[i]))
            && (forall i: nat :: i < |rows| && after[i] != rows[i] ==> OpenFor(rows, plans, order, itemId, i))
            && (forall i: nat, j: nat :: i < j < |rows| && OpenFor(rows, plans, order, itemId, i) ==>
                  after[j] == rows[j] || after[i].consumed == rows[i].qty)
            && OpenSum(after, plans, order, itemId, |rows|) ==
               OpenSum(rows, plans, order, itemId, |rows|) - Remaining(takes)
  {
    var after := SpentRows(rows, takes);
    assert TakesFit(rows, takes, itemId);
    assert forall i :: 0 <= i < |rows| ==> rows[i] in rows;
    hide SpentRows, TakesFit, OpenFor, Drawn, SoundRow;
    forall i: nat | i < |rows|
      ensures Drawn(rows[i], after[i]) && after[i].consumed == rows[i].consumed + TakenFrom(takes, i)
      ensures after[i] != rows[i] ==> OpenFor(rows, plans, order, itemId, i)
    {
      RowDrawn(rows, takes, itemId, i);
      if after[i] != rows[i] {
        var k :| 0 <= k < |takes| && takes[k].0 == i;
        assert open[k] in open;
      }
    }
    forall i: nat, j: nat | i < j < |rows| && OpenFor(rows, plans, order, itemId, i)
      ensures after[j] == rows[j] || after[i].consumed == rows[i].qty
    {
      if after[j] != rows[j] { OldestFirst(rows, open, takes, itemId, i, j); }
    }
    hide Handed;
    SumDrops(rows, after, plans, order, itemId, takes, |rows|);
    TakesInRange(rows, takes, itemId);
    TakesAddUp(takes, |rows|);
  }

  lemma TakesInRange(rows: seq<Row>, takes: seq<(nat, int)>, itemId: int)
    requires TakesFit(rows, takes, itemId)
    ensures forall k :: 0 <= k < |takes| ==> takes[k].0 < |rows|
  {
  }

  /**
   * Consumption, row by row: only open reservations of the item under the order's
   * approved plan give anything up, none gives before all older ones are empty, and
   * together they give what is asked for, or all they have.
   */
  lemma ConsumptionExactly(b: Books, order: int, itemId: int, qty: int)
    requires Sound(b) && order != 0
    ensures var after := ConsumedBooks(b, Some(order), itemId, qty);
            var all := OpenSum(b.rows, b.plans, order, itemId, |b.rows|);
            && after.plans == b.plans && after.outside == b.outside && |after.rows| == |b.rows|
            && (forall i: nat :: i < |b.rows| ==> Drawn(b.rows[i], after.rows[i]))
            && (forall i: nat :: i < |b.rows| && after.rows[i] != b.rows[i] ==>
                  OpenFor(b.rows, b.plans, order, itemId, i))
            && (forall i: nat, j: nat :: i < j < |b.rows| && OpenFor(b.rows, b.plans, order, itemId, i) ==>
                  after.rows[j] == b.rows[j] || after.rows[i].consumed == b.rows[i].qty)
            && OpenSum(after.rows, b.plans, order, itemId, |b.rows|) == all - Min(Max(qty, 0), all)
            && (forall i :: i in b.items ==>
                  i in after.items && after.items[i] == Item(b.items[i].qty, b.outside[i] + Held(after.rows, i)))
  {
    assert forall r :: r in b.rows ==> SoundRow(r);
    hide Sound, Held, Drawn, OpenFor, OpenSum, SpentRows, Selected, Allocation, Remaining, Handed, SoundRow;
    TakesAreHanded(b.rows, b.plans, order, itemId, qty);
    var open := Selected(b.rows, b.plans, order, itemId);
    HandedExactly(b.rows, b.plans, order, itemId, open, Allocation(open, qty));
    assert b.outside.Keys == b.items.Keys by { SoundKeys(b); }
  }

  lemma RowDrawn(rows: seq<Row>, takes: seq<(nat, int)>, itemId: int, i: nat)
    requires TakesFit(rows, takes, itemId) && i < |rows| && SoundRow(rows[i])
    ensures Drawn(rows[i], SpentRows(rows, takes)[i])
    ensures SpentRows(rows, takes)[i] != rows[i] <==> exists k :: 0 <= k < |takes| && takes[k].0 == i
    ensures SpentRows(rows, takes)[i].consumed == rows[i].consumed + TakenFrom(takes, i)
  {
    assert takes[..|takes|] == takes;
    SpentAt(rows, takes, itemId, |takes|, i);
    if k :| 0 <= k < |takes| && takes[k].0 == i {
      TakenOnce(takes, |takes|, k);
    } else {
      NotTakenBefore(takes, |takes|, i);
    }
    hide SpentRows, TakenFrom;
  }

  /** A row that gives anything finds all older open rows empty. */
  lemma OldestFirst(rows: seq<Row>, open: seq<(nat, int)>, takes: seq<(nat, int)>, itemId: int, i: nat, j: nat)
    requires TakesFit(rows, takes, itemId) && i < j < |rows| && SoundRow(rows[i]) && SoundRow(rows[j])
    requires |takes| <= |open| && forall k :: 0 <= k < |takes| ==> takes[k].0 == open[k].0
    requires forall k :: 0 <= k < |takes| - 1 ==> takes[k].1 == open[k].1
    requires forall k, l :: 0 <= k < l < |open| ==> open[k].0 < open[l].0
    requires (i, rows[i].qty - rows[i].consumed) in open && SpentRows(rows, takes)[j] != rows[j]
    ensures SpentRows(rows, takes)[i].consumed == rows[i].qty
  {
    RowDrawn(rows, takes, itemId, i);
    RowDrawn(rows, takes, itemId, j);
    hide SpentRows, TakenFrom;
    var l :| 0 <= l < |takes| && takes[l].0 == j;
    var k :| 0 <= k < |open| && open[k] == (i, rows[i].qty - rows[i].consumed);
    assert k < l;
    TakenOnce(takes, |takes|, k);
    assert takes[..|takes|] == takes;
  }

  /** All takes together, row by row. */
  function TakenUpTo(takes: seq<(nat, int)>, upto: nat): int {
    if upto == 0 then 0 else TakenUpTo(takes, upto - 1) + TakenFrom(takes, upto - 1)
  }

  lemma {:induction false} TakenSnoc(takes: seq<(nat, int)>, upto: nat)
    requires takes != []
    ensures var init, last := takes[..|takes| - 1], takes[|takes| - 1];
            TakenUpTo(takes, upto) == TakenUpTo(init, upto) + if last.0 < upto then last.1 else 0
    decreases upto
  {
    if upto > 0 { TakenSnoc(takes, upto - 1); }
  }

  lemma {:induction false} NothingTaken(upto: nat)
    ensures TakenUpTo([], upto) == 0
  {
    if upto > 0 { NothingTaken(upto - 1); }
  }

  lemma {:induction false} TakesAddUp(takes: seq<(nat, int)>, upto: nat)
    requires forall k :: 0 <= k < |takes| ==> takes[k].0 < upto
    ensures TakenUpTo(takes, upto) == Remaining(takes)
    decreases |takes|
  {
    if takes == [] {
      NothingTaken(upto);
    } else {
      var init, last := takes[..|takes| - 1], takes[|takes| - 1];
      TakenSnoc(takes, upto);
      TakesAddUp(init, upto);
      RemainingSnoc(init, last);
      assert takes == init + [last];
    }
  }

  lemma {:induction false} SumDrops(rows: seq<Row>, after: seq<Row>, plans: seq<Plan>, order: int, itemId: int,
      takes: seq<(nat, int)>, upto: nat)
    requires |after| == |rows| && upto <= |rows|
    requires forall i: nat :: i < |rows| ==> Drawn(rows[i], after[i]) && SoundRow(rows[i])
    requires forall i: nat :: i < |rows| && after[i] != rows[i] ==> OpenFor(rows, plans, order, itemId, i)
    requires forall i: nat :: i < |rows| ==> after[i].consumed == rows[i].consumed + TakenFrom(takes, i)
    ensures OpenSum(after, plans, order, itemId, upto) ==
            OpenSum(rows, plans, order, itemId, upto) - TakenUpTo(takes, upto)
    decreases upto
  {
    if upto > 0 { SumDrops(rows, after, plans, order, itemId, takes, upto - 1); }
  }

  // ------------------------------------------------------------------- approval

  /** Superseding, row by row: the active rows of the plans that are replaced end, and no other row changes. */
  lemma {:induction false} ReleasedForAt(rows: seq<Row>, plans: seq<Plan>, planId: nat, order: int, i: nat)
    requires i < |rows|
    ensures var r := rows[i];
            ReleasedFor(rows, plans, planId, order)[i] ==
              if r.status == Active && r.planId < |plans| && r.planId != planId
                 && plans[r.planId].salesOrderId == order && plans[r.planId].status == Approved
              then r.(status := Released) else r
    decreases |plans|
  {
    if plans != [] {
      var n := |plans| - 1;
      ReleasedForAt(rows, plans[..n], planId, order, i);
      ReleasedAt(ReleasedFor(rows, plans[..n], planId, order), n, i);
    }
  }

  /**
   * An approval, plan by plan and row by row: the plan is approved, the approved
   * ones of the same order that it replaces are superseded and hold nothing any
   * more, and no other plan or row changes. Behind the old rows stand the new
   * ones: of each item what is wanted of it, or all that is available then.
   */
  lemma ApprovalExactly(b: Books, planId: nat, wants: seq<(int, int)>)
    requires b.outside.Keys == b.items.Keys && planId < |b.plans|
    ensures var after, order, n := ApprovedBooks(b, planId, wants), b.plans[planId].salesOrderId, |b.rows|;
            && after.outside == b.outside && |after.plans| == |b.plans|
            && (forall p: nat :: p < |b.plans| ==>
                  after.plans[p] ==
                    if p == planId then b.plans[p].(status := Approved)
                    else if b.plans[p].salesOrderId == order && b.plans[p].status == Approved
                    then b.plans[p].(status := Superseded) else b.plans[p])
            && |after.rows| >= n
            && (forall i: nat :: i < n ==>
                  after.rows[i] ==
                    if b.rows[i].status == Active && b.rows[i].planId < |b.plans| && b.rows[i].planId != planId
                       && after.plans[b.rows[i].planId] != b.plans[b.rows[i].planId]
                    then b.rows[i].(status := Released) else b.rows[i])
            && (forall i: nat :: n <= i < |after.rows| ==>
                  var r := after.rows[i];
                  r == Row(planId, r.itemId, r.qty, 0, Active) && r.qty > 0 && r.itemId in b.items)
            && (forall i :: i in b.items ==>
                  Held(after.rows[n..], i) ==
                  Min(Wanted(wants, i), Max(0, b.items[i].qty - (b.outside[i] + Held(after.rows[..n], i)))))
            && (forall i :: i in b.items ==>
                  i in after.items && after.items[i] == Item(b.items[i].qty, b.outside[i] + Held(after.rows, i)))
  {
    var order, n := b.plans[planId].salesOrderId, |b.rows|;
    var plans := b.plans[planId := b.plans[planId].(status := Approved)];
    var kept := ReleasedFor(b.rows, plans, planId, order);
    var items := Balanced(b.items, b.outside, kept);
    var granted := Granted(items, wants, planId);
    var after := ApprovedBooks(b, planId, wants);
    assert after.rows == kept + granted && after.rows[..n] == kept && after.rows[n..] == granted;
    forall p: nat | p < |b.plans|
      ensures after.plans[p] ==
                if p == planId then b.plans[p].(status := Approved)
                else if b.plans[p].salesOrderId == order && b.plans[p].status == Approved
                then b.plans[p].(status := Superseded) else b.plans[p]
    {
      SupersededAt(plans, planId, order, p);
    }
    GrantedAreSound(items, wants, planId);
    NewRows(items, wants, planId);
    hide Granted, SupersededPlans, Held, Wanted, ReleasedFor;
    forall i: nat | i < n
      ensures kept[i] == if b.rows[i].status == Active && b.rows[i].planId < |b.plans| && b.rows[i].planId != planId
                            && after.plans[b.rows[i].planId] != b.plans[b.rows[i].planId]
                         then b.rows[i].(status := Released) else b.rows[i]
    {
      ReleasedForAt(b.rows, plans, planId, order, i);
    }
    forall i | i in b.items
      ensures Held(granted, i) == Min(Wanted(wants, i), Max(0, b.items[i].qty - (b.outside[i] + Held(kept, i))))
    {
      GrantIsExact(items, wants, planId, i);
    }
    forall i: nat | n <= i < |after.rows|
      ensures var r := after.rows[i];
              r == Row(planId, r.itemId, r.qty, 0, Active) && r.qty > 0 && r.itemId in b.items
    {
      assert after.rows[i] == granted[i - n] && granted[i - n] in granted;
    }
  }

  lemma {:induction false} NewRows(items: map<int, Item>, wants: seq<(int, int)>, planId: nat)
    ensures forall r :: r in Granted(items, wants, planId) ==> r.consumed == 0
    decreases |wants|
  {
    if wants != [] {
      var itemId, want := wants[0].0, wants[0].1;
      var take := if itemId in items then Min(want, Max(0, items[itemId].qty - items[itemId].reserved)) else 0;
      if take <= 0 {
        NewRows(items, wants[1..], planId);
      } else {
        NewRows(items[itemId := items[itemId].(reserved := items[itemId].reserved + take)], wants[1..], planId);
      }
    }
  }

  // --------------------------------------------------- creating, submitting, deciding

  /** Books in which only the plans have changed. */
  predicate OnlyPlans(b: Books, after: Books) {
    after.items == b.items && after.outside == b.outside && after.rows == b.rows
  }

  lemma BalancedAlready(b: Books, plans: seq<Plan>)
    requires BalancedBooks(b)
    ensures OnlyPlans(b, Resettled(b, b.rows, plans)) && Resettled(b, b.rows, plans).plans == plans
  {
    hide Held;
  }

  /** A new plan is the draft behind all others; the open plans of its order are superseded, no other plan changes. */
  lemma CreationExactly(b: Books, order: int, level: nat)
    requires Sound(b)
    ensures var after, n := Created(b, order, level), |b.plans|;
            && OnlyPlans(b, after) && |after.plans| == n + 1 && after.plans[n] == Plan(order, Draft, level)
            && forall p: nat :: p < n ==>
                 after.plans[p] ==
                   if b.plans[p].salesOrderId == order && b.plans[p].status in {Draft, Submitted}
                   then b.plans[p].(status := Superseded) else b.plans[p]
  {
    BalancedAlready(b, Withdrawn(b.plans, order) + [Plan(order, Draft, level)]);
    hide Resettled, OnlyPlans;
  }

  /** Submitting a draft approves it at level 0; at any other it waits for a decision, and nothing else changes. */
  lemma SubmissionExactly(b: Books, planId: nat, wants: seq<(int, int)>)
    requires Sound(b)
    ensures var after := SubmittedBooks(b, planId, wants);
            if planId >= |b.plans| || b.plans[planId].status != Draft then after == b
            else if b.plans[planId].level == 0 then after == ApprovedBooks(b, planId, wants)
            else OnlyPlans(b, after) && after.plans == b.plans[planId := b.plans[planId].(status := Submitted)]
  {
    if planId < |b.plans| { BalancedAlready(b, b.plans[planId := b.plans[planId].(status := Submitted)]); }
    hide Resettled, OnlyPlans, ApprovedBooks;
  }

  /** A decision counts on a submitted plan only, from someone who may take it, and a rejection needs a reason. */
  lemma DecisionExactly(b: Books, planId: nat, approve: bool, noted: bool, allowed: bool, wants: seq<(int, int)>)
    requires Sound(b)
    ensures var after := Decided(b, planId, approve, noted, allowed, wants);
            if planId < |b.plans| && b.plans[planId].status == Submitted && allowed && (approve || noted) then
              if approve then after == ApprovedBooks(b, planId, wants)
              else OnlyPlans(b, after) && after.plans == b.plans[planId := b.plans[planId].(status := Rejected)]
            else after == b
  {
    if planId < |b.plans| { BalancedAlready(b, b.plans[planId := b.plans[planId].(status := Rejected)]); }
    hide Resettled, OnlyPlans, ApprovedBooks;
  }

  // ------------------------------------------------------------- the life of a plan

  /** The moves a plan can make. */
  predicate Moves(before: Plan, after: Plan) {
    && after.salesOrderId == before.salesOrderId && after.level == before.level
    && (after.status == before.status
        || match before.status
           case Draft =>
              after.status == Superseded || after.status == (if before.level == 0 then Approved else Submitted)
           case Submitted => after.status in {Approved, Rejected, Superseded}
           case Approved => after.status == Superseded
           case Rejected => false
           case Superseded => false)
  }

  /** In every call each plan makes one of these moves: above level 0 none is approved that was not submitted before. */
  lemma PlansMove(b: Books, c: Call, p: nat)
    requires Sound(b) && p < |b.plans|
    ensures p < |Apply(b, c).plans| && Moves(b.plans[p], Apply(b, c).plans[p])
  {
    hide Sound, ApprovedBooks, ReleasedBooks, ConsumedBooks, Created, Moved, HoldChanged, SubmittedBooks, Decided;
    assert b.outside.Keys == b.items.Keys by { SoundKeys(b); }
    match c
    case Create(order, level) => CreationExactly(b, order, level);
    case Submit(planId, wants) =>
      SubmissionExactly(b, planId, wants);
      if planId < |b.plans| { ApprovalMoves(b, planId, wants, p); }
    case Decide(planId, approve, noted, allowed, wants) =>
      DecisionExactly(b, planId, approve, noted, allowed, wants);
      if planId < |b.plans| { ApprovalMoves(b, planId, wants, p); }
    case _ => OtherCallsKeepPlans(b, c);
  }

  lemma ApprovalMoves(b: Books, planId: nat, wants: seq<(int, int)>, p: nat)
    requires b.outside.Keys == b.items.Keys && planId < |b.plans| && p < |b.plans|
    ensures var after := ApprovedBooks(b, planId, wants);
            && |after.plans| == |b.plans|
            && after.plans[p] == if p == planId then b.plans[p].(status := Approved)
                                 else if b.plans[p].salesOrderId == b.plans[planId].salesOrderId
                                   && b.plans[p].status == Approved
                                 then b.plans[p].(status := Superseded) else b.plans[p]
  {
    ApprovalExactly(b, planId, wants);
    hide ApprovedBooks, Held, Wanted;
  }

  lemma OtherCallsKeepPlans(b: Books, c: Call)
    requires Sound(b) && !c.Create? && !c.Submit? && !c.Decide?
    ensures Apply(b, c).plans == b.plans
  {
    hide Held;
  }
}
