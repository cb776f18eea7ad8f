/**
 * Reservations of stock for approved plans. Quantities are whole thousandths,
 * the scale of the stored columns. Every method is one database transaction on
 * locked rows; a row's id is its position, so id order is the order of entry.
 */
module StockReservations {
  import opened Common

  datatype Item = Item(qty: int, reserved: int)

  datatype RowStatus = Active | Consumed | Released

  datatype Row = Row(planId: nat, itemId: int, qty: int, consumed: int, status: RowStatus)

  datatype PlanStatus = Draft | Submitted | Approved | Rejected | Superseded

  /** Plans of approval level 0 are approved when they are submitted. */
  datatype Plan = Plan(salesOrderId: int, status: PlanStatus, level: nat)

  predicate Open(p: Plan) { p.status == Draft || p.status == Submitted }

  /** The approved plans of an order. */
  predicate Stands(p: Plan, salesOrderId: int) { p.salesOrderId == salesOrderId && p.status == Approved }

  datatype StockError = NoSuchItem | BadAmount | NotAvailable | OverRelease

  datatype PlanError = NoteRequired | PlanNotFound | PlanNotDraft | PlanNotSubmitted | DecisionNotAllowed

  // ------------------------------------------------------------ what rows hold

  predicate SoundRow(r: Row) {
    && 0 <= r.consumed <= r.qty && r.qty > 0
    && (r.status == Active ==> r.consumed < r.qty)
    && (r.status == Consumed ==> r.consumed == r.qty)
  }

  /** What one row keeps reserved on an item. */
  function Part(r: Row, itemId: int): int {
    if r.status == Active && r.itemId == itemId then r.qty - r.consumed else 0
  }

  function Held(rows: seq<Row>, itemId: int): int {
    if rows == [] then 0 else Held(rows[..|rows| - 1], itemId) + Part(rows[|rows| - 1], itemId)
  }

  lemma {:induction false} HeldAfterUpdate(rows: seq<Row>, k: nat, r: Row, itemId: int)
    requires k < |rows|
    ensures Held(rows[k := r], itemId) == Held(rows, itemId) - Part(rows[k], itemId) + Part(r, itemId)
    decreases |rows|
  {
    var n := |rows| - 1;
    if k < n {
      HeldAfterUpdate(rows[..n], k, r, itemId);
      assert rows[k := r][..n] == rows[..n][k := r];
    } else {
      assert rows[k := r][..n] == rows[..n];
    }
  }

  lemma {:induction false} HeldCoversPart(rows: seq<Row>, k: nat, itemId: int)
    requires k < |rows| && forall r :: r in rows ==> SoundRow(r)
    ensures 0 <= Part(rows[k], itemId) <= Held(rows, itemId)
    decreases |rows|
  {
    var n := |rows| - 1;
    assert rows[n] in rows;
    if k < n {
      HeldCoversPart(rows[..n], k, itemId);
    } else if n > 0 {
      HeldCoversPart(rows[..n], n - 1, itemId);
    }
  }

  lemma HeldIsNonNegative(rows: seq<Row>, itemId: int)
    requires forall r :: r in rows ==> SoundRow(r)
    ensures Held(rows, itemId) >= 0
  {
    if rows != [] { HeldCoversPart(rows, 0, itemId); }
  }

  lemma HeldAfterInsert(rows: seq<Row>, r: Row, itemId: int)
    ensures Held(rows + [r], itemId) == Held(rows, itemId) + Part(r, itemId)
  {
    assert (rows + [r])[..|rows|] == rows;
  }

  // ---------------------------------------------------------------- allocation

  function Remaining(rs: seq<(nat, int)>): int {
    if rs == [] then 0 else rs[0].1 + Remaining(rs[1..])
  }

  /** First come, first drained. */
  function Allocation(rs: seq<(nat, int)>, qty: int): seq<(nat, int)> {
    if rs == [] || qty <= 0 then []
    else
      var take := Min(rs[0].1, qty);
      if take > 0 then [(rs[0].0, take)] + Allocation(rs[1..], qty - take) else Allocation(rs[1..], qty)
  }

  method AllocateConsumption(rs: seq<(nat, int)>, qty: int) returns (out: seq<(nat, int)>)
    ensures out == Allocation(rs, qty)
  {
    out := [];
    var left := qty;
    for k := 0 to |rs|
      invariant out + Allocation(rs[k..], left) == Allocation(rs, qty)
    {
      if left <= 0 {
        break;
      }
      var take := Min(rs[k].1, left);
      assert rs[k..][0] == rs[k] && rs[k..][1..] == rs[k + 1..];
      if take > 0 {
        assert out + [(rs[k].0, take)] + Allocation(rs[k + 1..], left - take)
            == out + ([(rs[k].0, take)] + Allocation(rs[k + 1..], left - take));
        out := out + [(rs[k].0, take)];
        left := left - take;
      }
    }
    assert out + [] == out;
  }

  /**
   * The allocation hands out exactly what is asked for, or all there is. It
   * goes through the reservations in order and leaves none before the last one
   * it touches with anything to give.
   */
  lemma {:induction false} AllocationIsExact(rs: seq<(nat, int)>, qty: int)
    requires forall k :: 0 <= k < |rs| ==> rs[k].1 > 0
    ensures var out := Allocation(rs, qty);
            && Remaining(out) == Min(Max(qty, 0), Remaining(rs))
            && |out| <= |rs|
            && (forall k :: 0 <= k < |out| ==> out[k].0 == rs[k].0 && 0 < out[k].1 <= rs[k].1)
            && (forall k :: 0 <= k < |out| - 1 ==> out[k].1 == rs[k].1)
    decreases |rs|
  {
    RemainingIsPositive(rs);
    if rs != [] && qty > 0 {
      var take := Min(rs[0].1, qty);
      var rest := Allocation(rs[1..], qty - take);
      AllocationIsExact(rs[1..], qty - take);
      var out := [(rs[0].0, take)] + rest;
      assert out[1..] == rest;
      forall k | 0 <= k < |out|
        ensures out[k].0 == rs[k].0 && 0 < out[k].1 <= rs[k].1 && (k < |out| - 1 ==> out[k].1 == rs[k].1)
      {
        if k > 0 { assert out[k] == rest[k - 1] && rs[k] == rs[1..][k - 1]; }
      }
    }
  }

  lemma {:induction false} RemainingIsPositive(rs: seq<(nat, int)>)
    requires forall k :: 0 <= k < |rs| ==> rs[k].1 > 0
    ensures Remaining(rs) >= 0
  {
    if rs != [] { RemainingIsPositive(rs[1..]); }
  }

  lemma {:induction false} RemainingSnoc(rs: seq<(nat, int)>, p: (nat, int))
    ensures Remaining(rs + [p]) == Remaining(rs) + p.1
    decreases |rs|
  {
    if rs == [] {
      assert ([] + [p])[1..] == [];
    } else {
      RemainingSnoc(rs[1..], p);
      assert (rs + [p])[1..] == rs[1..] + [p];
    }
  }

  // ----------------------------------------------------------------- the tables

  class Ledger {
    var items: map<int, Item>
    var rows: seq<Row>
    var plans: seq<Plan>
    /** Reservations made by the rest of the system. */
    ghost var outside: map<int, int>

    /** Each item's reserved quantity is what others hold plus what active plan rows still hold. */
    ghost predicate Valid()
      reads this
    {
      && outside.Keys == items.Keys
      && (forall r :: r in rows ==> SoundRow(r) && r.itemId in items)
      && (forall i :: i in items ==> outside[i] >= 0 && items[i].reserved == outside[i] + Held(rows, i))
    }

    ghost function Now(): Books
      reads this
    {
      Books(items, outside, rows, plans)
    }

    constructor (stock: map<int, int>)
      ensures Valid() && Now() == OpenBooks(stock)
    {
      items := map i | i in stock :: Item(stock[i], 0);
      outside := map i | i in stock :: 0;
      rows, plans := [], [];
    }

    /** Raises the reserved quantity when enough is available. */
    method ReserveStock(itemId: int, amount: int) returns (error: Option<StockError>)
      modifies this`items
      ensures error.None? <==>
              itemId in old(items) && amount > 0 && old(items)[itemId].qty - old(items)[itemId].reserved >= amount
      ensures error.None? ==>
              items == old(items)[itemId := old(items)[itemId].(reserved := old(items)[itemId].reserved + amount)]
      ensures error.Some? ==> items == old(items)
    {
      if itemId !in items {
        return Some(NoSuchItem);
      }
      if amount <= 0 {
        return Some(BadAmount);
      }
      if items[itemId].qty - items[itemId].reserved < amount {
        return Some(NotAvailable);
      }
      items := items[itemId := items[itemId].(reserved := items[itemId].reserved + amount)];
      error := None;
    }

    /** Lowers it again; refuses to release more than is reserved. */
    method ReleaseStockReservation(itemId: int, amount: int) returns (error: Option<StockError>)
      modifies this`items
      ensures error.None? <==> amount > 0 && itemId in old(items) && old(items)[itemId].reserved >= amount
      ensures error.None? ==>
              items == old(items)[itemId := old(items)[itemId].(reserved := old(items)[itemId].reserved - amount)]
      ensures error.Some? ==> items == old(items)
    {
      if amount <= 0 {
        return Some(BadAmount);
      }
      if itemId !in items {
        return Some(NoSuchItem);
      }
      if items[itemId].reserved < amount {
        return Some(OverRelease);
      }
      items := items[itemId := items[itemId].(reserved := items[itemId].reserved - amount)];
      error := None;
    }

    /** A stock movement changes the physical quantity only, and never below zero. */
    method ApplyStockMovement(itemId: int, incoming: bool, amount: int) returns (error: Option<StockError>)
      requires Valid()
      modifies this`items
      ensures Valid()
      ensures error.None? <==>
                && itemId in old(items) && amount > 0
                && (if incoming then old(items)[itemId].qty + amount else old(items)[itemId].qty - amount) >= 0
      ensures error.None? ==> items == old(items)[itemId := old(items)[itemId].(
                qty := if incoming then old(items)[itemId].qty + amount else old(items)[itemId].qty - amount)]
      ensures error.Some? ==> items == old(items)
      ensures Now() == Moved(old(Now()), itemId, incoming, amount)
    {
      if itemId !in items {
        return Some(NoSuchItem);
      }
      if amount <= 0 {
        return Some(BadAmount);
      }
      var next := if incoming then items[itemId].qty + amount else items[itemId].qty - amount;
      if next < 0 {
        return Some(NotAvailable);
      }
      items := items[itemId := items[itemId].(qty := next)];
      error := None;
    }

    /** A hold taken or given back by the rest of the system, which gives back no more than it took. */
    method HoldOutside(itemId: int, amount: int, release: bool) returns (error: Option<StockError>)
      requires Valid()
      requires release ==> itemId in outside && amount <= outside[itemId]
      modifies this`items, this`outside
      ensures Valid() && items.Keys == old(items).Keys && (forall i :: i in items ==> items[i].qty == old(items)[i].qty)
      ensures error.None? <==>
                itemId in old(items) && amount > 0
                  && (release || old(items)[itemId].qty - old(items)[itemId].reserved >= amount)
      ensures outside == if error.Some? then old(outside)
                         else old(outside)[itemId := old(outside)[itemId] + if release then -amount else amount]
      ensures Now() == HoldChanged(old(Now()), itemId, amount, release)
    {
      hide Held, Balanced, SoundRow, Resettled;
      HeldIsNonNegative(rows, itemId);
      if release {
        error := ReleaseStockReservation(itemId, amount);
      } else {
        error := ReserveStock(itemId, amount);
      }
      if error.None? {
        var change := if release then -amount else amount;
        outside := outside[itemId := outside[itemId] + change];
        HoldBalances(old(items), items, old(outside), outside, rows, itemId, change);
        HoldSettles(old(Now()), itemId, amount, release);
      }
    }

    /** One row gives back `amount`: the stock release cannot fail, and the books still balance. */
    method ShrinkRow(k: nat, amount: int, r: Row)
      requires Valid() && k < |rows| && rows[k].status == Active
      requires 0 < amount <= rows[k].qty - rows[k].consumed
      requires SoundRow(r) && r.itemId == rows[k].itemId && Part(r, r.itemId) == Part(rows[k], r.itemId) - amount
      modifies this`items, this`rows
      ensures Valid() && rows == old(rows)[k := r]
      ensures items == old(items)[r.itemId := old(items)[r.itemId].(reserved := old(items)[r.itemId].reserved - amount)]
    {
      assert rows[k] in rows;
      HeldCoversPart(rows, k, r.itemId);
      forall i ensures Held(rows[k := r], i) == Held(rows, i) - if i == r.itemId then amount else 0 {
        HeldAfterUpdate(rows, k, r, i);
      }
      var error := ReleaseStockReservation(r.itemId, amount);
      assert error.None?;
      rows := rows[k := r];
    }

    /** Releases what the plan's active rows still hold; reports how many there were. */
    method ReleasePlanReservations(planId: nat) returns (count: nat)
      requires Valid()
      modifies this`items, this`rows
      ensures Valid() && rows == ReleasedRows(old(rows), planId)
      ensures items.Keys == old(items).Keys
      ensures forall i :: i in items ==>
              items[i].qty == old(items)[i].qty && items[i].reserved <= old(items)[i].reserved
      ensures count == CountActive(old(rows), planId)
      ensures items == Balanced(old(items), outside, rows)
    {
      hide Held, ReleasedRows, CountActive;
      count := 0;
      ghost var was := rows;
      NothingReleased(was, planId);
      for k := 0 to |rows|
        invariant Valid() && |rows| == |was| && items.Keys == old(items).Keys
        invariant rows == PartlyReleased(was, k, planId) && count == CountActive(was[..k], planId)
        invariant forall i :: i in items ==>
                items[i].qty == old(items)[i].qty && items[i].reserved <= old(items)[i].reserved
      {
        var r := rows[k];
        ReleaseStep(was, k, planId);
        if r.planId == planId && r.status == Active {
          assert r in rows;
          ShrinkRow(k, r.qty - r.consumed, r.(status := Released));
          count := count + 1;
        }
      }
      AllReleased(was, planId);
      ItemsAreBalanced(old(items), items, outside, rows);
    }

    /**
     * When production receives a material, the approved plan of the same sales
     * order gives up that much of its reservations, oldest first.
     */
    method ConsumePlanReservation(salesOrderId: Option<int>, itemId: int, qty: int) returns (total: int)
      requires Valid()
      modifies this`items, this`rows
      ensures Valid()
      ensures salesOrderId in {None, Some(0)} ==> total == 0 && rows == old(rows)
      ensures salesOrderId !in {None, Some(0)} ==>
                var open := Selected(old(rows), plans, salesOrderId.value, itemId);
                && total == Min(Max(qty, 0), OpenSum(old(rows), plans, salesOrderId.value, itemId, |old(rows)|))
                && rows == SpentRows(old(rows), Allocation(open, qty))
      ensures items == Lowered(old(items), itemId, total)
      ensures Now() == ConsumedBooks(old(Now()), salesOrderId, itemId, qty)
    {
      total := 0;
      if salesOrderId.None? || salesOrderId.value == 0 {
        ItemsAreBalanced(items, items, outside, rows);
        return;
      }
      var open := Select(salesOrderId.value, itemId);
      SelectedAreOpen(rows, plans, salesOrderId.value, itemId);
      SelectedSum(rows, plans, salesOrderId.value, itemId);
      hide OpenSum, Remaining, Allocation, Selected, Matches;
      var takes := AllocateConsumption(open, qty);
      AllocationFits(rows, open, qty, itemId);
      hide Held, Part, SoundRow;
      total := SpendTakes(takes, itemId);
    }

    /** The loop over the takes: release the stock, book the consumption. */
    method SpendTakes(takes: seq<(nat, int)>, itemId: int) returns (total: int)
      requires Valid() && TakesFit(rows, takes, itemId)
      modifies this`items, this`rows
      ensures Valid() && rows == SpentRows(old(rows), takes) && total == Remaining(takes)
      ensures items == Lowered(old(items), itemId, total) && items == Balanced(old(items), outside, rows)
    {
      total := 0;
      ghost var was := rows;
      hide SpentRows, SpentRow, Part, Held, TakesFit, Remaining, Lowered, SoundRow;
      NothingSpent(was, takes, items, itemId);
      for t := 0 to |takes|
        invariant Valid() && rows == SpentRows(was, takes[..t])
        invariant total == Remaining(takes[..t]) && items == Lowered(old(items), itemId, total)
      {
        var id, take := takes[t].0, takes[t].1;
        SpendStep(was, takes, t, itemId);
        assert rows[id] in rows;
        LowerStep(old(items), itemId, total, take);
        ShrinkRow(id, take, SpentRow(rows[id], take));
        total := total + take;
      }
      assert takes[..|takes|] == takes;
      LoweredIsBalanced(old(items), items, itemId, total, outside, rows);
    }

    /** The plan's open reservations of the item, in id order, with what each has left. */
    method Select(salesOrderId: int, itemId: int) returns (open: seq<(nat, int)>)
      ensures open == Selected(rows, plans, salesOrderId, itemId)
    {
      open := [];
      for k := 0 to |rows|
        invariant open == Selected(rows[..k], plans, salesOrderId, itemId)
      {
        assert rows[..k + 1][..k] == rows[..k];
        if Matches(rows[k], plans, salesOrderId, itemId) {
          open := open + [(k, rows[k].qty - rows[k].consumed)];
        }
      }
      assert rows[..|rows|] == rows;
    }

    /** An older approved plan of the same order loses its reservations and is superseded. */
    method SupersedeOthers(planId: nat, salesOrderId: int)
      requires Valid()
      modifies this`items, this`rows, this`plans
      ensures Valid() && items.Keys == old(items).Keys && (forall i :: i in items ==> items[i].qty == old(items)[i].qty)
      ensures rows == ReleasedFor(old(rows), old(plans), planId, salesOrderId)
      ensures plans == SupersededPlans(old(plans), planId, salesOrderId)
    {
      hide Held, ReleasedRows, SupersededPlans, ReleasedFor, CountActive;
      ghost var wasRows, wasPlans := rows, plans;
      NothingSuperseded(rows, plans, planId, salesOrderId);
      for p := 0 to |plans|
        invariant Valid() && |plans| == |wasPlans|
        invariant items.Keys == old(items).Keys && (forall i :: i in items ==> items[i].qty == old(items)[i].qty)
        invariant rows == ReleasedFor(wasRows, wasPlans[..p], planId, salesOrderId)
        invariant plans == SupersededPlans(wasPlans[..p], planId, salesOrderId) + wasPlans[p..]
      {
        SupersedeStep(wasRows, wasPlans, p, planId, salesOrderId);
        if Superseding(plans[p], p, planId, salesOrderId) {
          var n := ReleasePlanReservations(p);
          plans := plans[p := plans[p].(status := Superseded)];
        }
      }
      assert wasPlans[..|plans|] == wasPlans;
    }

    /**
     * Approval reserves for the plan what is available of what it wants, after
     * the plans it replaces have let go of theirs.
     */
    method ReservePlanMaterials(planId: nat, salesOrderId: int, wants: seq<(int, int)>)
        returns (reserved: int, count: nat)
      requires Valid()
      modifies this`items, this`rows, this`plans
      ensures Valid() && plans == SupersededPlans(old(plans), planId, salesOrderId)
      ensures var kept := ReleasedFor(old(rows), old(plans), planId, salesOrderId);
              var granted := Granted(Balanced(old(items), outside, kept), wants, planId);
              rows == kept + granted && reserved == SumQty(granted) && count == |granted|
      ensures items == Balanced(old(items), outside, rows)
    {
      SupersedeOthers(planId, salesOrderId);
      hide ReleasedFor, SupersededPlans, Held, SumQty, Granted;
      ItemsAreBalanced(old(items), items, outside, rows);
      reserved, count := GrantWants(planId, wants);
      ItemsAreBalanced(old(items), items, outside, rows);
    }

    /** A new plan replaces the draft and submitted ones of its order. */
    method CreatePlan(salesOrderId: int, level: nat) returns (planId: nat)
      requires Valid()
      modifies this`plans
      ensures Valid() && planId == |old(plans)| && Now() == Created(old(Now()), salesOrderId, level)
    {
      planId := |plans|;
      plans := Withdrawn(plans, salesOrderId) + [Plan(salesOrderId, Draft, level)];
      ItemsAreBalanced(items, items, outside, rows);
    }

    /** Submitting a draft; at level 0 it is approved, and reserved for, at once. */
    method SubmitPlan(planId: nat, wants: seq<(int, int)>) returns (error: Option<PlanError>)
      requires Valid()
      modifies this`items, this`rows, this`plans
      ensures Valid() && Now() == SubmittedBooks(old(Now()), planId, wants)
      ensures error == if planId >= |old(plans)| then Some(PlanNotFound)
                       else if old(plans)[planId].status != Draft then Some(PlanNotDraft) else None
    {
      if planId >= |plans| {
        return Some(PlanNotFound);
      }
      if plans[planId].status != Draft {
        return Some(PlanNotDraft);
      }
      if plans[planId].level == 0 {
        Approve(planId, wants);
      } else {
        ItemsAreBalanced(items, items, outside, rows);
        plans := plans[planId := plans[planId].(status := Submitted)];
      }
      error := None;
    }

    /** The decision on a submitted plan; who may decide is settled elsewhere. */
    method DecidePlan(planId: nat, approve: bool, noted: bool, allowed: bool, wants: seq<(int, int)>)
      returns (error: Option<PlanError>)
      requires Valid()
      modifies this`items, this`rows, this`plans
      ensures Valid() && Now() == Decided(old(Now()), planId, approve, noted, allowed, wants)
      ensures error == if !approve && !noted then Some(NoteRequired)
                       else if planId >= |old(plans)| then Some(PlanNotFound)
                       else if old(plans)[planId].status != Submitted then Some(PlanNotSubmitted)
                       else if !allowed then Some(DecisionNotAllowed) else None
    {
      if !approve && !noted {
        return Some(NoteRequired);
      }
      if planId >= |plans| {
        return Some(PlanNotFound);
      }
      if plans[planId].status != Submitted {
        return Some(PlanNotSubmitted);
      }
      if !allowed {
        return Some(DecisionNotAllowed);
      }
      if approve {
        Approve(planId, wants);
      } else {
        ItemsAreBalanced(items, items, outside, rows);
        plans := plans[planId := plans[planId].(status := Rejected)];
      }
      error := None;
    }

    /** The status and the reservation in one transaction. */
    method Approve(planId: nat, wants: seq<(int, int)>)
      requires Valid() && planId < |plans|
      modifies this`items, this`rows, this`plans
      ensures Valid() && Now() == ApprovedBooks(old(Now()), planId, wants)
    {
      plans := plans[planId := plans[planId].(status := Approved)];
      var reserved, count := ReservePlanMaterials(planId, plans[planId].salesOrderId, wants);
    }

    /** Manual release of a plan's reservations; its status stays. */
    method ReleasePlan(planId: nat) returns (released: Option<nat>)
      requires Valid()
      modifies this`items, this`rows
      ensures Valid() && Now() == ReleasedBooks(old(Now()), planId)
      ensures released.None? <==> planId >= |plans|
    {
      if planId >= |plans| {
        return None;
      }
      var count := ReleasePlanReservations(planId);
      released := Some(count);
    }

    /** The loop over the wants. */
    method GrantWants(planId: nat, wants: seq<(int, int)>) returns (reserved: int, count: nat)
      requires Valid()
      modifies this`items, this`rows
      ensures Valid() && items.Keys == old(items).Keys && (forall i :: i in items ==> items[i].qty == old(items)[i].qty)
      ensures var granted := Granted(old(items), wants, planId);
              rows == old(rows) + granted && reserved == SumQty(granted) && count == |granted|
    {
      hide Held, Part, SumQty, Granted;
      reserved, count := 0, 0;
      ghost var kept, start := rows, items;
      ghost var granted: seq<Row> := [];
      NoQty();
      assert wants[0..] == wants;
      for k := 0 to |wants|
        invariant Valid() && rows == kept + granted
        invariant items.Keys == start.Keys && (forall i :: i in items ==> items[i].qty == start[i].qty)
        invariant granted + Granted(items, wants[k..], planId) == Granted(start, wants, planId)
        invariant reserved == SumQty(granted) && count == |granted|
      {
        var itemId, want := wants[k].0, wants[k].1;
        GrantStep(items, wants, k, planId, granted);
        if itemId !in items {
          continue;
        }
        var take := Min(want, Max(0, items[itemId].qty - items[itemId].reserved));
        if take <= 0 {
          continue;
        }
        var r := Row(planId, itemId, take, 0, Active);
        var error := InsertReservation(r);
        SumQtySnoc(granted, r);
        granted := granted + [r];
        reserved, count := reserved + take, count + 1;
      }
      NothingMoreGranted(items, wants, planId, granted);
    }

    /** A new row and the stock it holds: within what is available, this cannot fail. */
    method InsertReservation(r: Row) returns (error: Option<StockError>)
      requires Valid() && r.itemId in items && r.status == Active && r.consumed == 0
      requires 0 < r.qty <= items[r.itemId].qty - items[r.itemId].reserved
      modifies this`items, this`rows
      ensures Valid() && error.None? && rows == old(rows) + [r]
      ensures items == old(items)[r.itemId := old(items)[r.itemId].(reserved := old(items)[r.itemId].reserved + r.qty)]
    {
      error := ReserveStock(r.itemId, r.qty);
      forall i ensures Held(rows + [r], i) == Held(rows, i) + Part(r, i) { HeldAfterInsert(rows, r, i); }
      hide Held;
      rows := rows + [r];
    }
  }

  // ------------------------------------------------------------------ the books

  /** The tables, and what the rest of the system holds. */
  datatype Books = Books(items: map<int, Item>, outside: map<int, int>, rows: seq<Row>, plans: seq<Plan>)

  function OpenBooks(stock: map<int, int>): Books {
    Books(map i | i in stock :: Item(stock[i], 0), map i | i in stock :: 0, [], [])
  }

  /** New rows and plans, the reserved quantities following the rows. */
  ghost function Resettled(b: Books, rows: seq<Row>, plans: seq<Plan>): Books
    requires b.outside.Keys == b.items.Keys
  {
    Books(Balanced(b.items, b.outside, rows), b.outside, rows, plans)
  }

  function Moved(b: Books, itemId: int, incoming: bool, amount: int): Books {
    if itemId !in b.items || amount <= 0 then b
    else
      var next := if incoming then b.items[itemId].qty + amount else b.items[itemId].qty - amount;
      if next < 0 then b else b.(items := b.items[itemId := b.items[itemId].(qty := next)])
  }

  /** A hold of the rest of the system, taken as far as available, or given back as far as it was taken. */
  ghost function HoldChanged(b: Books, itemId: int, amount: int, release: bool): Books
    requires b.outside.Keys == b.items.Keys
  {
    if itemId !in b.items || amount <= 0 then b
    else if (if release then amount > b.outside[itemId] else b.items[itemId].qty - b.items[itemId].reserved < amount)
    then b
    else
      var outside := b.outside[itemId := if release then b.outside[itemId] - amount else b.outside[itemId] + amount];
      Resettled(b.(outside := outside), b.rows, b.plans)
  }

  ghost function ConsumedBooks(b: Books, salesOrderId: Option<int>, itemId: int, qty: int): Books
    requires b.outside.Keys == b.items.Keys
  {
    if salesOrderId in {None, Some(0)} then b
    else Resettled(b, SpentRows(b.rows, Allocation(Selected(b.rows, b.plans, salesOrderId.value, itemId), qty)),
      b.plans)
  }

  function Withdrawn(plans: seq<Plan>, salesOrderId: int): seq<Plan> {
    seq(|plans|, i requires 0 <= i < |plans| =>
      if plans[i].salesOrderId == salesOrderId && Open(plans[i]) then plans[i].(status := Superseded) else plans[i])
  }

  ghost function Created(b: Books, salesOrderId: int, level: nat): Books
    requires b.outside.Keys == b.items.Keys
  {
    Resettled(b, b.rows, Withdrawn(b.plans, salesOrderId) + [Plan(salesOrderId, Draft, level)])
  }

  ghost function ApprovedBooks(b: Books, planId: nat, wants: seq<(int, int)>): Books
    requires b.outside.Keys == b.items.Keys && planId < |b.plans|
  {
    var order := b.plans[planId].salesOrderId;
    var plans := b.plans[planId := b.plans[planId].(status := Approved)];
    var kept := ReleasedFor(b.rows, plans, planId, order);
    var granted := Granted(Balanced(b.items, b.outside, kept), wants, planId);
    Resettled(b, kept + granted, SupersededPlans(plans, planId, order))
  }

  ghost function SubmittedBooks(b: Books, planId: nat, wants: seq<(int, int)>): Books
    requires b.outside.Keys == b.items.Keys
  {
    if planId >= |b.plans| || b.plans[planId].status != Draft then b
    else if b.plans[planId].level == 0 then ApprovedBooks(b, planId, wants)
    else Resettled(b, b.rows, b.plans[planId := b.plans[planId].(status := Submitted)])
  }

  ghost function Decided(b: Books, planId: nat, approve: bool, noted: bool, allowed: bool,
      wants: seq<(int, int)>): Books
    requires b.outside.Keys == b.items.Keys
  {
    if (!approve && !noted) || planId >= |b.plans| || b.plans[planId].status != Submitted || !allowed then b
    else if approve then ApprovedBooks(b, planId, wants)
    else Resettled(b, b.rows, b.plans[planId := b.plans[planId].(status := Rejected)])
  }

  ghost function ReleasedBooks(b: Books, planId: nat): Books
    requires b.outside.Keys == b.items.Keys
  {
    if planId >= |b.plans| then b else Resettled(b, ReleasedRows(b.rows, planId), b.plans)
  }

  // -------------------------------------------------------- what the calls do

  predicate Matches(r: Row, plans: seq<Plan>, salesOrderId: int, itemId: int) {
    && r.planId < |plans| && Stands(plans[r.planId], salesOrderId)
    && r.itemId == itemId && r.status == Active
  }

  function Selected(rows: seq<Row>, plans: seq<Plan>, salesOrderId: int, itemId: int): seq<(nat, int)> {
    if rows == [] then []
    else
      var n := |rows| - 1;
      Selected(rows[..n], plans, salesOrderId, itemId) +
      if Matches(rows[n], plans, salesOrderId, itemId) then [(n, rows[n].qty - rows[n].consumed)] else []
  }

  /** Row `id` is an active reservation of the item under a plan of the order that is approved. */
  predicate OpenFor(rows: seq<Row>, plans: seq<Plan>, salesOrderId: int, itemId: int, id: nat)
    requires id < |rows|
  {
    var r := rows[id];
    && r.status == Active && r.itemId == itemId
    && r.planId < |plans| && plans[r.planId].status == Approved && plans[r.planId].salesOrderId == salesOrderId
  }

  /** What all these rows have left together. */
  function OpenSum(rows: seq<Row>, plans: seq<Plan>, salesOrderId: int, itemId: int, upto: nat): int
    requires upto <= |rows|
  {
    if upto == 0 then 0
    else
      var id := upto - 1;
      OpenSum(rows, plans, salesOrderId, itemId, id) +
      if OpenFor(rows, plans, salesOrderId, itemId, id) then rows[id].qty - rows[id].consumed else 0
  }

  /** Selected are exactly these rows, each with what it has left, in the order of their ids. */
  lemma SelectedExactly(rows: seq<Row>, plans: seq<Plan>, salesOrderId: int, itemId: int)
    ensures var open := Selected(rows, plans, salesOrderId, itemId);
            && (forall p: (nat, int) :: p in open <==>
                  && p.0 < |rows| && OpenFor(rows, plans, salesOrderId, itemId, p.0)
                  && p.1 == rows[p.0].qty - rows[p.0].consumed)
            && (forall j, k :: 0 <= j < k < |open| ==> open[j].0 < open[k].0)
            && Remaining(open) == OpenSum(rows, plans, salesOrderId, itemId, |rows|)
  {
    forall p: (nat, int)
      ensures p in Selected(rows, plans, salesOrderId, itemId) <==>
                && p.0 < |rows| && OpenFor(rows, plans, salesOrderId, itemId, p.0)
                && p.1 == rows[p.0].qty - rows[p.0].consumed
    {
      SelectedMember(rows, plans, salesOrderId, itemId, p);
    }
    SelectedInOrder(rows, plans, salesOrderId, itemId);
    SelectedSum(rows, plans, salesOrderId, itemId);
  }

  lemma {:induction false} SelectedMember(
    rows: seq<Row>, plans: seq<Plan>, salesOrderId: int, itemId: int, p: (nat, int))
    ensures p in Selected(rows, plans, salesOrderId, itemId) <==>
              && p.0 < |rows| && OpenFor(rows, plans, salesOrderId, itemId, p.0)
              && p.1 == rows[p.0].qty - rows[p.0].consumed
    decreases |rows|
  {
    if rows != [] { SelectedMember(rows[..|rows| - 1], plans, salesOrderId, itemId, p); }
  }

  lemma {:induction false} SelectedInOrder(rows: seq<Row>, plans: seq<Plan>, salesOrderId: int, itemId: int)
    ensures var open := Selected(rows, plans, salesOrderId, itemId);
            forall j, k :: 0 <= j < k < |open| ==> open[j].0 < open[k].0
    decreases |rows|
  {
    if rows != [] {
      var init := rows[..|rows| - 1];
      SelectedInOrder(init, plans, salesOrderId, itemId);
      var before := Selected(init, plans, salesOrderId, itemId);
      forall k | 0 <= k < |before| ensures before[k].0 < |init| {
        SelectedMember(init, plans, salesOrderId, itemId, before[k]);
      }
    }
  }

  lemma {:induction false} SelectedSum(rows: seq<Row>, plans: seq<Plan>, salesOrderId: int, itemId: int)
    ensures Remaining(Selected(rows, plans, salesOrderId, itemId)) == OpenSum(rows, plans, salesOrderId, itemId, |rows|)
    decreases |rows|
  {
    if rows != [] {
      var n := |rows| - 1;
      SelectedSum(rows[..n], plans, salesOrderId, itemId);
      SumOfPrefix(rows, plans, salesOrderId, itemId, n);
      var before := Selected(rows[..n], plans, salesOrderId, itemId);
      RemainingSnoc(before, (n, rows[n].qty - rows[n].consumed));
      assert before + [] == before;
      hide Remaining;
    }
  }

  lemma {:induction false} SumOfPrefix(rows: seq<Row>, plans: seq<Plan>, salesOrderId: int, itemId: int, upto: nat)
    requires upto < |rows|
    ensures OpenSum(rows[..|rows| - 1], plans, salesOrderId, itemId, upto) ==
            OpenSum(rows, plans, salesOrderId, itemId, upto)
    decreases upto
  {
    if upto > 0 { SumOfPrefix(rows, plans, salesOrderId, itemId, upto - 1); }
  }

  /** Open reservations in id order. */
  ghost predicate AllOpen(rows: seq<Row>, open: seq<(nat, int)>, itemId: int) {
    && (forall k :: 0 <= k < |open| ==> OpenAt(rows, open[k], itemId))
    && (forall j, k :: 0 <= j < k < |open| ==> open[j].0 < open[k].0)
  }

  lemma OpenStays(rows: seq<Row>, r: Row, open: seq<(nat, int)>, itemId: int)
    requires AllOpen(rows, open, itemId)
    ensures AllOpen(rows + [r], open, itemId)
  {
    forall k | 0 <= k < |open| ensures OpenAt(rows + [r], open[k], itemId) {
      assert OpenAt(rows, open[k], itemId);
    }
  }

  lemma {:induction false} SelectedAreOpen(rows: seq<Row>, plans: seq<Plan>, salesOrderId: int, itemId: int)
    requires forall r :: r in rows ==> SoundRow(r)
    ensures AllOpen(rows, Selected(rows, plans, salesOrderId, itemId), itemId)
    decreases |rows|
  {
    if rows != [] {
      var n := |rows| - 1;
      var r := rows[n];
      assert r in rows;
      SelectedAreOpen(rows[..n], plans, salesOrderId, itemId);
      var init := Selected(rows[..n], plans, salesOrderId, itemId);
      OpenStays(rows[..n], r, init, itemId);
      assert rows == rows[..n] + [r];
      if Matches(r, plans, salesOrderId, itemId) {
        OpenHasSomeLeft(r);
        var more := init + [(n, r.qty - r.consumed)];
        forall k | 0 <= k < |init| ensures init[k].0 < n {
          assert OpenAt(rows[..n], init[k], itemId);
        }
        assert AllOpen(rows, more, itemId);
      }
    }
  }

  lemma OpenHasSomeLeft(r: Row)
    requires SoundRow(r)
    ensures r.status == Active ==> r.qty - r.consumed > 0
  {
  }

  predicate OpenAt(rows: seq<Row>, p: (nat, int), itemId: int) {
    && p.0 < |rows| && rows[p.0].status == Active && rows[p.0].itemId == itemId
    && p.1 == rows[p.0].qty - rows[p.0].consumed && p.1 > 0
  }

  /** Takes go to distinct open rows, in id order, and fit what each has left. */
  ghost predicate TakesFit(rows: seq<Row>, takes: seq<(nat, int)>, itemId: int) {
    && (forall k :: 0 <= k < |takes| ==>
          && takes[k].0 < |rows| && rows[takes[k].0].status == Active && rows[takes[k].0].itemId == itemId
          && SoundRow(rows[takes[k].0])
          && 0 < takes[k].1 <= rows[takes[k].0].qty - rows[takes[k].0].consumed)
    && (forall j, k :: 0 <= j < k < |takes| ==> takes[j].0 < takes[k].0)
  }

  lemma TakesFitRows(rows: seq<Row>, open: seq<(nat, int)>, takes: seq<(nat, int)>, itemId: int)
    requires forall r :: r in rows ==> SoundRow(r)
    requires AllOpen(rows, open, itemId)
    requires |takes| <= |open| && forall k :: 0 <= k < |takes| ==>
            takes[k].0 == open[k].0 && 0 < takes[k].1 <= open[k].1
    ensures TakesFit(rows, takes, itemId)
  {
    hide SoundRow;
    forall k | 0 <= k < |takes|
      ensures takes[k].0 < |rows| && rows[takes[k].0].status == Active && rows[takes[k].0].itemId == itemId
      ensures SoundRow(rows[takes[k].0]) && 0 < takes[k].1 <= rows[takes[k].0].qty - rows[takes[k].0].consumed
    {
      assert OpenAt(rows, open[k], itemId);
      assert rows[takes[k].0] in rows;
    }
  }

  lemma AllocationFits(rows: seq<Row>, open: seq<(nat, int)>, qty: int, itemId: int)
    requires (forall r :: r in rows ==> SoundRow(r)) && AllOpen(rows, open, itemId)
    ensures TakesFit(rows, Allocation(open, qty), itemId)
    ensures Remaining(Allocation(open, qty)) == Min(Max(qty, 0), Remaining(open))
  {
    hide SoundRow, Remaining, Allocation;
    forall k | 0 <= k < |open| ensures open[k].1 > 0 { assert OpenAt(rows, open[k], itemId); }
    AllocationIsExact(open, qty);
    TakesFitRows(rows, open, Allocation(open, qty), itemId);
  }

  lemma NothingSpent(rows: seq<Row>, takes: seq<(nat, int)>, items: map<int, Item>, itemId: int)
    ensures SpentRows(rows, takes[..0]) == rows && Remaining(takes[..0]) == 0 && Lowered(items, itemId, 0) == items
  {
    assert takes[..0] == [];
  }

  lemma LowerStep(items: map<int, Item>, itemId: int, total: int, take: int)
    requires total >= 0 && take > 0 && itemId in items
    ensures var before := Lowered(items, itemId, total);
            itemId in before &&
            Lowered(items, itemId, total + take) ==
              before[itemId := before[itemId].(reserved := before[itemId].reserved - take)]
  {
  }

  function Lowered(items: map<int, Item>, itemId: int, amount: int): map<int, Item> {
    if amount != 0 && itemId in items then items[itemId := items[itemId].(reserved := items[itemId].reserved - amount)]
    else items
  }

  function SpentRow(r: Row, take: int): Row {
    r.(consumed := r.consumed + take, status := if r.consumed + take >= r.qty then Consumed else Active)
  }

  function SpentRows(rows: seq<Row>, takes: seq<(nat, int)>): (out: seq<Row>)
    ensures |out| == |rows|
  {
    if takes == [] then rows
    else
      var last := takes[|takes| - 1];
      var before := SpentRows(rows, takes[..|takes| - 1]);
      if last.0 < |rows| then before[last.0 := SpentRow(before[last.0], last.1)] else before
  }

  lemma SpendStep(rows: seq<Row>, takes: seq<(nat, int)>, t: nat, itemId: int)
    requires t < |takes| && TakesFit(rows, takes, itemId)
    ensures takes[t].0 < |rows| && 0 < takes[t].1 && Remaining(takes[..t + 1]) == Remaining(takes[..t]) + takes[t].1
    ensures Remaining(takes[..t]) >= 0
    ensures var before, r := SpentRows(rows, takes[..t]), rows[takes[t].0];
            && before[takes[t].0] == r && r.status == Active && r.itemId == itemId && takes[t].1 <= r.qty - r.consumed
            && SpentRows(rows, takes[..t + 1]) == before[takes[t].0 := SpentRow(r, takes[t].1)]
            && SoundRow(SpentRow(r, takes[t].1)) && SpentRow(r, takes[t].1).itemId == itemId
            && Part(SpentRow(r, takes[t].1), itemId) == Part(r, itemId) - takes[t].1
  {
    hide TakesFit, SpentRows, Remaining, SpentRow, Part, SoundRow;
    TakeAt(rows, takes, t, itemId);
    SpentSnoc(rows, takes, t);
    SpentRowFits(rows[takes[t].0], takes[t].1);
    TakenSoFar(takes, t);
    Untouched(rows, takes[..t], takes[t].0);
  }

  lemma TakenSoFar(takes: seq<(nat, int)>, t: nat)
    requires t < |takes| && forall k :: 0 <= k < t ==> takes[k].1 > 0
    ensures Remaining(takes[..t + 1]) == Remaining(takes[..t]) + takes[t].1 && Remaining(takes[..t]) >= 0
  {
    assert takes[..t + 1] == takes[..t] + [takes[t]];
    RemainingIsPositive(takes[..t]);
    RemainingSnoc(takes[..t], takes[t]);
  }

  lemma TakeAt(rows: seq<Row>, takes: seq<(nat, int)>, t: nat, itemId: int)
    requires t < |takes| && TakesFit(rows, takes, itemId)
    ensures takes[t].0 < |rows| && rows[takes[t].0].status == Active && rows[takes[t].0].itemId == itemId
    ensures SoundRow(rows[takes[t].0]) && 0 < takes[t].1 <= rows[takes[t].0].qty - rows[takes[t].0].consumed
    ensures forall k :: 0 <= k < t ==> takes[k].0 != takes[t].0 && takes[k].1 > 0
  {
  }

  lemma SpentSnoc(rows: seq<Row>, takes: seq<(nat, int)>, t: nat)
    requires t < |takes| && takes[t].0 < |rows|
    ensures var before := SpentRows(rows, takes[..t]);
            SpentRows(rows, takes[..t + 1]) == before[takes[t].0 := SpentRow(before[takes[t].0], takes[t].1)]
  {
    assert takes[..t + 1][..t] == takes[..t];
    hide SpentRow;
  }

  lemma SpentRowFits(r: Row, take: int)
    requires SoundRow(r) && r.status == Active && 0 < take <= r.qty - r.consumed
    ensures SoundRow(SpentRow(r, take)) && SpentRow(r, take).itemId == r.itemId && SpentRow(r, take).planId == r.planId
    ensures Part(SpentRow(r, take), r.itemId) == Part(r, r.itemId) - take
  {
  }

  lemma {:induction false} Untouched(rows: seq<Row>, takes: seq<(nat, int)>, id: nat)
    requires id < |rows| && forall k :: 0 <= k < |takes| ==> takes[k].0 != id
    ensures SpentRows(rows, takes)[id] == rows[id]
    decreases |takes|
  {
    if takes != [] { Untouched(rows, takes[..|takes| - 1], id); }
  }

  predicate Superseding(p: Plan, id: nat, planId: nat, salesOrderId: int) {
    Stands(p, salesOrderId) && id != planId
  }

  function SupersededPlans(plans: seq<Plan>, planId: nat, salesOrderId: int): (out: seq<Plan>)
    ensures |out| == |plans|
  {
    if plans == [] then []
    else
      var n := |plans| - 1;
      SupersededPlans(plans[..n], planId, salesOrderId) +
      [if Superseding(plans[n], n, planId, salesOrderId) then plans[n].(status := Superseded) else plans[n]]
  }

  lemma NothingSuperseded(rows: seq<Row>, plans: seq<Plan>, planId: nat, salesOrderId: int)
    ensures ReleasedFor(rows, plans[..0], planId, salesOrderId) == rows
    ensures SupersededPlans(plans[..0], planId, salesOrderId) + plans[0..] == plans
  {
    assert plans[..0] == [];
  }

  lemma SupersedeStep(rows: seq<Row>, plans: seq<Plan>, p: nat, planId: nat, salesOrderId: int)
    requires p < |plans|
    ensures var mixed := SupersededPlans(plans[..p], planId, salesOrderId) + plans[p..];
            var yes := Superseding(plans[p], p, planId, salesOrderId);
            && |mixed| == |plans| && mixed[p] == plans[p]
            && SupersededPlans(plans[..p + 1], planId, salesOrderId) + plans[p + 1..] ==
               (if yes then mixed[p := plans[p].(status := Superseded)] else mixed)
            && ReleasedFor(rows, plans[..p + 1], planId, salesOrderId) ==
               (var before := ReleasedFor(rows, plans[..p], planId, salesOrderId);
                if yes then ReleasedRows(before, p) else before)
  {
    hide ReleasedRows;
    assert plans[..p + 1][..p] == plans[..p];
  }

  function ReleasedFor(rows: seq<Row>, plans: seq<Plan>, planId: nat, salesOrderId: int): (out: seq<Row>)
    ensures |out| == |rows|
  {
    if plans == [] then rows
    else
      var n := |plans| - 1;
      var before := ReleasedFor(rows, plans[..n], planId, salesOrderId);
      if Superseding(plans[n], n, planId, salesOrderId) then ReleasedRows(before, n) else before
  }

  /** The items with the reserved quantity that the rows and the outside holds call for. */
  ghost function Balanced(items: map<int, Item>, outside: map<int, int>, rows: seq<Row>): map<int, Item>
    requires outside.Keys == items.Keys
  {
    map i | i in items :: Item(items[i].qty, outside[i] + Held(rows, i))
  }

  /** A hold outside changes both sides of one item's balance alike. */
  lemma HoldBalances(before: map<int, Item>, items: map<int, Item>, held: map<int, int>, outside: map<int, int>,
                     rows: seq<Row>, itemId: int, change: int)
    requires itemId in before && held.Keys == before.Keys
    requires forall i :: i in before ==> before[i].reserved == held[i] + Held(rows, i)
    requires items == before[itemId := before[itemId].(reserved := before[itemId].reserved + change)]
    requires outside == held[itemId := held[itemId] + change]
    ensures outside.Keys == before.Keys == items.Keys && items == Balanced(before, outside, rows)
    ensures forall i :: i in items ==> items[i].qty == before[i].qty && items[i].reserved == outside[i] + Held(rows, i)
  {
    hide Held;
  }

  lemma HoldSettles(b: Books, itemId: int, amount: int, release: bool)
    requires b.outside.Keys == b.items.Keys && itemId in b.items && amount > 0
    requires if release then amount <= b.outside[itemId] else b.items[itemId].qty - b.items[itemId].reserved >= amount
    ensures var outside := b.outside[itemId := b.outside[itemId] + if release then -amount else amount];
            HoldChanged(b, itemId, amount, release) ==
              Books(Balanced(b.items, outside, b.rows), outside, b.rows, b.plans)
  {
    hide Balanced;
  }

  lemma LoweredIsBalanced(before: map<int, Item>, items: map<int, Item>, itemId: int, total: int,
      outside: map<int, int>, rows: seq<Row>)
    requires items == Lowered(before, itemId, total) && outside.Keys == items.Keys
    requires forall i :: i in items ==> items[i].reserved == outside[i] + Held(rows, i)
    ensures outside.Keys == before.Keys && items == Balanced(before, outside, rows)
  {
    hide Held;
  }

  lemma ItemsAreBalanced(before: map<int, Item>, items: map<int, Item>, outside: map<int, int>, rows: seq<Row>)
    requires outside.Keys == items.Keys == before.Keys
    requires forall i :: i in items ==> items[i].qty == before[i].qty && items[i].reserved == outside[i] + Held(rows, i)
    ensures items == Balanced(before, outside, rows)
  {
    hide Held;
  }

  /** What is granted want by want: as much as is available, nothing for an unknown item. */
  function Granted(items: map<int, Item>, wants: seq<(int, int)>, planId: nat): seq<Row> {
    if wants == [] then []
    else
      var itemId, want := wants[0].0, wants[0].1;
      var take := if itemId in items then Min(want, Max(0, items[itemId].qty - items[itemId].reserved)) else 0;
      if take <= 0 then Granted(items, wants[1..], planId)
      else
        [Row(planId, itemId, take, 0, Active)] +
        Granted(items[itemId := items[itemId].(reserved := items[itemId].reserved + take)], wants[1..], planId)
  }

  function SumQty(rows: seq<Row>): int {
    if rows == [] then 0 else SumQty(rows[..|rows| - 1]) + rows[|rows| - 1].qty
  }

  lemma GrantStep(items: map<int, Item>, wants: seq<(int, int)>, k: nat, planId: nat, granted: seq<Row>)
    requires k < |wants|
    ensures var itemId, want := wants[k].0, wants[k].1;
            var take := if itemId in items then Min(want, Max(0, items[itemId].qty - items[itemId].reserved)) else 0;
            granted + Granted(items, wants[k..], planId) ==
              if take <= 0 then granted + Granted(items, wants[k + 1..], planId)
              else granted + [Row(planId, itemId, take, 0, Active)] +
                   Granted(items[itemId := items[itemId].(reserved := items[itemId].reserved + take)], wants[k + 1..],
                     planId)
  {
    assert wants[k..][0] == wants[k] && wants[k..][1..] == wants[k + 1..];
  }

  lemma NothingMoreGranted(items: map<int, Item>, wants: seq<(int, int)>, planId: nat, granted: seq<Row>)
    ensures granted + Granted(items, wants[|wants|..], planId) == granted
  {
    assert granted + [] == granted;
  }

  lemma NoQty()
    ensures SumQty([]) == 0
  {
  }

  lemma SumQtySnoc(rows: seq<Row>, r: Row)
    ensures SumQty(rows + [r]) == SumQty(rows) + r.qty
  {
    assert (rows + [r])[..|rows|] == rows;
  }

  function Wanted(wants: seq<(int, int)>, itemId: int): int {
    if wants == [] then 0 else (if wants[0].0 == itemId then Max(0, wants[0].1) else 0) + Wanted(wants[1..], itemId)
  }

  lemma {:induction false} WantedIsNonNegative(wants: seq<(int, int)>, itemId: int)
    ensures Wanted(wants, itemId) >= 0
  {
    if wants != [] { WantedIsNonNegative(wants[1..], itemId); }
  }

  /** An item is granted what is wanted of it, or all that is available, and never more. */
  lemma {:induction false} GrantIsExact(items: map<int, Item>, wants: seq<(int, int)>, planId: nat, itemId: int)
    requires itemId in items
    ensures Held(Granted(items, wants, planId), itemId) ==
            Min(Wanted(wants, itemId), Max(0, items[itemId].qty - items[itemId].reserved))
    decreases |wants|
  {
    WantedIsNonNegative(wants, itemId);
    if wants != [] {
      var id, want := wants[0].0, wants[0].1;
      var take := if id in items then Min(want, Max(0, items[id].qty - items[id].reserved)) else 0;
      WantedIsNonNegative(wants[1..], itemId);
      if take <= 0 {
        GrantIsExact(items, wants[1..], planId, itemId);
      } else {
        var items' := items[id := items[id].(reserved := items[id].reserved + take)];
        GrantIsExact(items', wants[1..], planId, itemId);
        HeldAfterFront(Row(planId, id, take, 0, Active), Granted(items', wants[1..], planId), itemId);
      }
    }
  }

  lemma {:induction false} HeldAfterFront(r: Row, rows: seq<Row>, itemId: int)
    ensures Held([r] + rows, itemId) == Part(r, itemId) + Held(rows, itemId)
    decreases |rows|
  {
    var all := [r] + rows;
    if rows == [] {
      assert all[..0] == [] && all == [r];
    } else {
      HeldAfterFront(r, rows[..|rows| - 1], itemId);
      assert all[..|all| - 1] == [r] + rows[..|rows| - 1];
    }
  }

  /** After an approval no other plan of the order is approved, and the superseded ones hold nothing. */
  lemma {:induction false} SupersededHoldNothing(rows: seq<Row>, plans: seq<Plan>, planId: nat, salesOrderId: int,
      p: nat)
    requires p < |plans| && Superseding(plans[p], p, planId, salesOrderId)
    ensures SupersededPlans(plans, planId, salesOrderId)[p] == plans[p].(status := Superseded)
    ensures forall r :: r in ReleasedFor(rows, plans, planId, salesOrderId) && r.planId == p ==> r.status != Active
    decreases |plans|
  {
    var n := |plans| - 1;
    var before := ReleasedFor(rows, plans[..n], planId, salesOrderId);
    if p < n {
      SupersededHoldNothing(rows, plans[..n], planId, salesOrderId, p);
      if Superseding(plans[n], n, planId, salesOrderId) { ReleaseKeepsOthers(before, n); }
    } else {
      ReleaseKeepsOthers(before, n);
    }
  }

  lemma {:induction false} ReleaseKeepsOthers(rows: seq<Row>, planId: nat)
    ensures forall r :: r in ReleasedRows(rows, planId) ==>
              (r.planId == planId ==> r.status != Active) && (r.planId != planId ==> r in rows)
    decreases |rows|
  {
    if rows != [] { ReleaseKeepsOthers(rows[..|rows| - 1], planId); }
  }

  /** The first `k` rows are through, the others still to come. */
  function PartlyReleased(rows: seq<Row>, k: nat, planId: nat): seq<Row>
    requires k <= |rows|
  {
    ReleasedRows(rows[..k], planId) + rows[k..]
  }

  lemma NothingReleased(rows: seq<Row>, planId: nat)
    ensures PartlyReleased(rows, 0, planId) == rows && CountActive(rows[..0], planId) == 0
  {
    assert rows[..0] == [] && rows[0..] == rows;
  }

  lemma AllReleased(rows: seq<Row>, planId: nat)
    ensures PartlyReleased(rows, |rows|, planId) == ReleasedRows(rows, planId)
    ensures CountActive(rows[..|rows|], planId) == CountActive(rows, planId)
  {
    assert rows[..|rows|] == rows;
  }

  lemma ReleaseStep(rows: seq<Row>, k: nat, planId: nat)
    requires k < |rows|
    ensures |PartlyReleased(rows, k, planId)| == |rows| && PartlyReleased(rows, k, planId)[k] == rows[k]
    ensures PartlyReleased(rows, k + 1, planId) == PartlyReleased(rows, k, planId)[k := ReleasedRow(rows[k], planId)]
    ensures CountActive(rows[..k + 1], planId) ==
            CountActive(rows[..k], planId) + if rows[k].planId == planId && rows[k].status == Active then 1 else 0
  {
    assert rows[..k + 1][..k] == rows[..k];
  }

  function ReleasedRow(r: Row, planId: nat): Row {
    if r.planId == planId && r.status == Active then r.(status := Released) else r
  }

  function ReleasedRows(rows: seq<Row>, planId: nat): (out: seq<Row>)
    ensures |out| == |rows|
  {
    if rows == [] then []
    else ReleasedRows(rows[..|rows| - 1], planId) + [ReleasedRow(rows[|rows| - 1], planId)]
  }

  function CountActive(rows: seq<Row>, planId: nat): nat {
    if rows == [] then 0
    else
      var r := rows[|rows| - 1];
      CountActive(rows[..|rows| - 1], planId) + if r.planId == planId && r.status == Active then 1 else 0
  }
}
