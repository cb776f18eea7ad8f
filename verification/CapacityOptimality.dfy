/**
 * What the forecast promises: its late count is zero exactly when the dated
 * orders can be finished in time by some day-by-day allocation at all.
 */
module CapacityOptimality {
  import opened Common
  import opened CapacityForecast

  // ------------------------------------------------- any allocation whatever

  function ColumnSum(rows: seq<seq<real>>, i: nat): real
    requires forall r :: r in rows ==> i < |r|
  {
    if rows == [] then 0.0 else rows[0][i] + ColumnSum(rows[1..], i)
  }

  /** What an order gets by date `t`. */
  function DeliveredBy(row: seq<real>, dates: seq<int>, t: int): real
    requires |row| == |dates|
  {
    if row == [] then 0.0
    else
      var n := |row| - 1;
      DeliveredBy(row[..n], dates[..n], t) + if dates[n] <= t then row[n] else 0.0
  }

  /**
   * `rows[j][i]` is the work order `j` gets on day `i`. No day gives more than
   * its capacity, and every dated order with work left is finished by its deadline.
   */
  ghost predicate Allocation(ds: seq<Demand>, rows: seq<seq<real>>, dates: seq<int>, caps: seq<real>)
    requires |caps| == |dates|
  {
    && |rows| == |ds|
    && Shaped(rows, |dates|)
    && WithinCapacity(rows, caps)
    && (forall j :: 0 <= j < |ds| ==> Finished(ds[j], rows[j], dates))
  }

  predicate NonNegative(row: seq<real>) { forall i :: 0 <= i < |row| ==> row[i] >= 0.0 }

  ghost predicate Shaped(rows: seq<seq<real>>, n: nat) { forall r :: r in rows ==> |r| == n && NonNegative(r) }

  ghost predicate WithinCapacity(rows: seq<seq<real>>, caps: seq<real>)
    requires Shaped(rows, |caps|)
  {
    forall i: nat :: i < |caps| ==> ColumnSum(rows, i) <= caps[i]
  }

  predicate Finished(d: Demand, row: seq<real>, dates: seq<int>)
    requires |row| == |dates|
  {
    d.neededBy.Some? && d.days > 0.0 ==> DeliveredBy(row, dates, d.neededBy.value) >= d.days
  }

  ghost predicate FeasibleWithin(ds: seq<Demand>, dates: seq<int>, caps: seq<real>)
    requires |caps| == |dates|
  {
    exists rows :: Allocation(ds, rows, dates, caps)
  }

  ghost predicate Feasible(ds: seq<Demand>, dates: seq<int>, perDay: real) {
    FeasibleWithin(ds, dates, seq(|dates|, _ => perDay))
  }

  // ---------------------------------------- the order of the input is no matter

  function Minus(caps: seq<real>, row: seq<real>): seq<real>
    requires |row| == |caps|
  {
    seq(|caps|, i requires 0 <= i < |caps| => caps[i] - row[i])
  }

  lemma {:induction false} ColumnSumWithout(rows: seq<seq<real>>, k: nat, i: nat)
    requires k < |rows| && forall r :: r in rows ==> i < |r|
    ensures ColumnSum(rows, i) == rows[k][i] + ColumnSum(Without(rows, k), i)
  {
    if k > 0 {
      ColumnSumWithout(rows[1..], k - 1, i);
      assert Without(rows, k) == [rows[0]] + Without(rows[1..], k - 1);
    } else {
      assert Without(rows, k) == rows[1..];
    }
  }

  lemma DropOrder(ds: seq<Demand>, rows: seq<seq<real>>, dates: seq<int>, caps: seq<real>, k: nat)
    requires |caps| == |dates| && k < |ds| && Allocation(ds, rows, dates, caps)
    ensures Allocation(Without(ds, k), Without(rows, k), dates, Minus(caps, rows[k]))
  {
    assert Shaped(Without(rows, k), |dates|);
    forall i: nat | i < |dates| ensures ColumnSum(Without(rows, k), i) <= Minus(caps, rows[k])[i] {
      ColumnSumWithout(rows, k, i);
    }
  }

  lemma AddOrder(d: Demand, row: seq<real>, ds: seq<Demand>, dates: seq<int>, caps: seq<real>)
    requires |caps| == |dates| == |row| && FeasibleWithin(ds, dates, Minus(caps, row))
    requires NonNegative(row) && Finished(d, row, dates)
    ensures FeasibleWithin([d] + ds, dates, caps)
  {
    var rows :| Allocation(ds, rows, dates, Minus(caps, row));
    var all := [row] + rows;
    forall i: nat | i < |dates| ensures ColumnSum(all, i) <= caps[i] {
      assert all[1..] == rows;
      assert ColumnSum(rows, i) <= Minus(caps, row)[i];
    }
    assert Allocation([d] + ds, all, dates, caps);
  }

  /** The first order and its share can be taken out. */
  lemma SplitOrder(ds: seq<Demand>, k: nat, dates: seq<int>, caps: seq<real>) returns (row: seq<real>)
    requires |caps| == |dates| && k < |ds| && FeasibleWithin(ds, dates, caps)
    ensures |row| == |dates| && NonNegative(row) && Finished(ds[k], row, dates)
    ensures FeasibleWithin(Without(ds, k), dates, Minus(caps, row))
  {
    var rows :| Allocation(ds, rows, dates, caps);
    DropOrder(ds, rows, dates, caps, k);
    row := rows[k];
  }

  lemma MoreCapacityHelps(ds: seq<Demand>, row: seq<real>, dates: seq<int>, caps: seq<real>)
    requires |caps| == |dates| == |row| && NonNegative(row) && FeasibleWithin(ds, dates, Minus(caps, row))
    ensures FeasibleWithin(ds, dates, caps)
  {
    var rows :| Allocation(ds, rows, dates, Minus(caps, row));
    forall i: nat | i < |dates| ensures ColumnSum(rows, i) <= caps[i] {
      assert ColumnSum(rows, i) <= Minus(caps, row)[i];
    }
    assert Allocation(ds, rows, dates, caps);
  }

  lemma {:induction false} FeasibleInAnyOrder(ds: seq<Demand>, es: seq<Demand>, dates: seq<int>, caps: seq<real>)
    requires |caps| == |dates| && multiset(ds) == multiset(es) && FeasibleWithin(ds, dates, caps)
    ensures FeasibleWithin(es, dates, caps)
    decreases |es|
  {
    if es == [] {
      assert |multiset(ds)| == 0;
      assert ds == [];
    } else {
      var k := FindFirst(ds, es);
      var row := SplitOrder(ds, k, dates, caps);
      FeasibleInAnyOrder(Without(ds, k), es[1..], dates, Minus(caps, row));
      AddOrder(es[0], row, es[1..], dates, caps);
      assert es == [es[0]] + es[1..];
    }
  }

  /** The orders that ask for anything: dated, with work left. */
  function Dated(ds: seq<Demand>): seq<Demand> {
    if ds == [] then []
    else if ds[0].neededBy.Some? && ds[0].days > 0.0 then [ds[0]] + Dated(ds[1..])
    else Dated(ds[1..])
  }

  lemma {:induction false} DatedIsEasier(ds: seq<Demand>, dates: seq<int>, caps: seq<real>)
    requires |caps| == |dates| && FeasibleWithin(ds, dates, caps)
    ensures FeasibleWithin(Dated(ds), dates, caps)
    decreases |ds|
  {
    hide FeasibleWithin, Finished, NonNegative;
    if ds != [] {
      var row := SplitOrder(ds, 0, dates, caps);
      assert Without(ds, 0) == ds[1..];
      DatedIsEasier(ds[1..], dates, Minus(caps, row));
      if ds[0].neededBy.Some? && ds[0].days > 0.0 {
        AddOrder(ds[0], row, Dated(ds[1..]), dates, caps);
      } else {
        MoreCapacityHelps(Dated(ds[1..]), row, dates, caps);
      }
    }
  }

  lemma {:induction false} OthersNeedNothing(ds: seq<Demand>, dates: seq<int>, caps: seq<real>)
    requires |caps| == |dates| && FeasibleWithin(Dated(ds), dates, caps)
    ensures FeasibleWithin(ds, dates, caps)
    decreases |ds|
  {
    hide FeasibleWithin, NonNegative;
    if ds != [] {
      var row := seq(|dates|, _ => 0.0);
      if ds[0].neededBy.Some? && ds[0].days > 0.0 {
        assert Without(Dated(ds), 0) == Dated(ds[1..]);
        row := SplitOrder(Dated(ds), 0, dates, caps);
      } else {
        assert Minus(caps, row) == caps && NonNegative(row) by { ZeroRow(caps); }
      }
      OthersNeedNothing(ds[1..], dates, Minus(caps, row));
      AddOrder(ds[0], row, ds[1..], dates, caps);
      assert ds == [ds[0]] + ds[1..];
    }
  }

  lemma ZeroRow(caps: seq<real>)
    ensures var row := seq(|caps|, _ => 0.0); Minus(caps, row) == caps && NonNegative(row)
  {
  }

  /** Orders without a date or without work left decide nothing about feasibility. */
  lemma DatedFeasibility(ds: seq<Demand>, dates: seq<int>, perDay: real)
    ensures Feasible(Dated(ds), dates, perDay) <==> Feasible(ds, dates, perDay)
  {
    var caps := seq(|dates|, _ => perDay);
    if Feasible(ds, dates, perDay) { DatedIsEasier(ds, dates, caps); }
    if Feasible(Dated(ds), dates, perDay) { OthersNeedNothing(ds, dates, caps); }
  }

  lemma {:induction false} DatedArePending(ds: seq<Demand>)
    ensures Dated(Pending(ds)) == Dated(ds)
    ensures forall d :: d in Dated(ds) <==> d in ds && d.neededBy.Some? && d.days > 0.0
  {
    if ds != [] { DatedArePending(ds[1..]); }
  }

  /** Nor does the service order. */
  lemma QueueFeasibility(ds: seq<Demand>, dates: seq<int>, perDay: real)
    ensures Feasible(Queue(ds), dates, perDay) <==> Feasible(ds, dates, perDay)
  {
    var caps := seq(|dates|, _ => perDay);
    ByDeadlineSorts(Pending(ds));
    DatedFeasibility(ds, dates, perDay);
    DatedFeasibility(Pending(ds), dates, perDay);
    DatedArePending(ds);
    if Feasible(ds, dates, perDay) { FeasibleInAnyOrder(Pending(ds), Queue(ds), dates, caps); }
    if Feasible(Queue(ds), dates, perDay) { FeasibleInAnyOrder(Queue(ds), Pending(ds), dates, caps); }
  }

  // --------------------------------------------------------------- necessity

  /** What orders `0..k` get by `t`, added up. */
  function AllDeliveredBy(rows: seq<seq<real>>, dates: seq<int>, t: int): real
    requires forall r :: r in rows ==> |r| == |dates|
  {
    if rows == [] then 0.0 else DeliveredBy(rows[0], dates, t) + AllDeliveredBy(rows[1..], dates, t)
  }

  function Shorten(rows: seq<seq<real>>, n: nat): seq<seq<real>>
    requires forall r :: r in rows ==> n <= |r|
  {
    seq(|rows|, j requires 0 <= j < |rows| => rows[j][..n])
  }

  lemma {:induction false} ShortenColumns(rows: seq<seq<real>>, n: nat, i: nat)
    requires i < n && forall r :: r in rows ==> n <= |r|
    ensures ColumnSum(Shorten(rows, n), i) == ColumnSum(rows, i)
  {
    if rows != [] {
      ShortenColumns(rows[1..], n, i);
      assert Shorten(rows, n)[1..] == Shorten(rows[1..], n);
    }
  }

  /** Adding by order or by day is the same: dropping the last day takes that day's column away. */
  lemma {:induction false} LastColumn(rows: seq<seq<real>>, dates: seq<int>, t: int, n: nat)
    requires |dates| == n + 1 && forall r :: r in rows ==> |r| == n + 1
    ensures AllDeliveredBy(rows, dates, t)
         == AllDeliveredBy(Shorten(rows, n), dates[..n], t) + if dates[n] <= t then ColumnSum(rows, n) else 0.0
  {
    if rows != [] {
      LastColumn(rows[1..], dates, t, n);
      assert Shorten(rows, n)[1..] == Shorten(rows[1..], n);
    }
  }

  lemma {:induction false} NothingDelivered(rows: seq<seq<real>>, t: int)
    requires forall r :: r in rows ==> |r| == 0
    ensures AllDeliveredBy(rows, [], t) == 0.0
  {
    if rows != [] { NothingDelivered(rows[1..], t); }
  }

  /** No allocation delivers more by `t` than the days up to `t` hold. */
  lemma {:induction false} DeliveryIsBounded(rows: seq<seq<real>>, dates: seq<int>, t: int, perDay: real)
    requires forall r :: r in rows ==> |r| == |dates|
    requires forall i: nat :: i < |dates| ==> ColumnSum(rows, i) <= perDay
    ensures AllDeliveredBy(rows, dates, t) <= Edge(DueDays(dates, t), perDay)
    decreases |dates|
  {
    if dates == [] {
      NothingDelivered(rows, t);
    } else {
      var n := |dates| - 1;
      forall i: nat | i < n ensures ColumnSum(Shorten(rows, n), i) <= perDay {
        ShortenColumns(rows, n, i);
      }
      DeliveryIsBounded(Shorten(rows, n), dates[..n], t, perDay);
      LastColumn(rows, dates, t, n);
    }
  }

  lemma {:induction false} RowIsNonNegative(row: seq<real>, dates: seq<int>, t: int)
    requires |row| == |dates| && NonNegative(row)
    ensures DeliveredBy(row, dates, t) >= 0.0
  {
    if row != [] { RowIsNonNegative(row[..|row| - 1], dates[..|row| - 1], t); }
  }

  lemma {:induction false} DeliveredSplit(rows: seq<seq<real>>, k: nat, dates: seq<int>, t: int)
    requires k <= |rows| && forall r :: r in rows ==> |r| == |dates|
    ensures AllDeliveredBy(rows, dates, t) == AllDeliveredBy(rows[..k], dates, t) + AllDeliveredBy(rows[k..], dates, t)
  {
    if k > 0 {
      DeliveredSplit(rows[1..], k - 1, dates, t);
      assert rows[..k][1..] == rows[1..][..k - 1];
    }
  }

  lemma {:induction false} DeliveredNonNegative(rows: seq<seq<real>>, dates: seq<int>, t: int)
    requires Shaped(rows, |dates|)
    ensures AllDeliveredBy(rows, dates, t) >= 0.0
  {
    if rows != [] {
      RowIsNonNegative(rows[0], dates, t);
      DeliveredNonNegative(rows[1..], dates, t);
    }
  }

  lemma {:induction false} DeliveredCoversWork(s: seq<Demand>, rows: seq<seq<real>>, dates: seq<int>, t: int)
    requires |rows| == |s| && forall r :: r in rows ==> |r| == |dates|
    requires forall j :: 0 <= j < |s| ==> DeliveredBy(rows[j], dates, t) >= s[j].days
    ensures AllDeliveredBy(rows, dates, t) >= Work(s)
    decreases |s|
  {
    hide DeliveredBy;
    if s != [] {
      var n := |s| - 1;
      DeliveredCoversWork(s[..n], rows[..n], dates, t);
      DeliveredSplit(rows, n, dates, t);
      assert rows[n..] == [rows[n]];
      assert AllDeliveredBy(rows[n..], dates, t) == DeliveredBy(rows[n], dates, t)
        + AllDeliveredBy(rows[n..][1..], dates, t);
    }
  }

  lemma {:induction false} LaterMeansMore(row: seq<real>, dates: seq<int>, t: int, u: int)
    requires |row| == |dates| && t <= u && NonNegative(row)
    ensures DeliveredBy(row, dates, t) <= DeliveredBy(row, dates, u)
  {
    if row != [] { LaterMeansMore(row[..|row| - 1], dates[..|row| - 1], t, u); }
  }

  /** Undated orders that are served before a dated one, promoted to the stand-in date. */
  function Binding(s: seq<Demand>): seq<Demand> {
    if s == [] then []
    else
      [if s[0].neededBy.None? && DatedAmong(s[1..]) then s[0].(neededBy := Some(LAST_DATE)) else s[0]]
      + Binding(s[1..])
  }

  predicate DatedAmong(s: seq<Demand>) { exists j :: 0 <= j < |s| && s[j].neededBy.Some? }

  lemma {:induction false} BindingAt(s: seq<Demand>, j: nat)
    requires j < |s|
    ensures |Binding(s)| == |s|
    ensures Binding(s)[j] ==
            if s[j].neededBy.None? && DatedAmong(s[j + 1..]) then s[j].(neededBy := Some(LAST_DATE)) else s[j]
  {
    if j > 0 {
      BindingAt(s[1..], j - 1);
      assert s[1..][j..] == s[j + 1..];
    } else if |s| > 1 {
      BindingAt(s[1..], 0);
    }
  }

  /** Whatever is bound to be finished before order `k` has its deadline no later. */
  lemma BoundByDeadline(s: seq<Demand>, j: nat, k: nat)
    requires DeadlineOrdered(s) && j <= k < |s| && s[k].neededBy.Some?
    ensures |Binding(s)| == |s| && Binding(s)[j].days == s[j].days
    ensures Binding(s)[j].neededBy.Some? && Binding(s)[j].neededBy.value <= s[k].neededBy.value
  {
    BindingAt(s, j);
    if j < k {
      assert s[j + 1..][k - j - 1] == s[k];
      assert SortKey(s[j]) <= SortKey(s[k]);
    }
  }

  /** If any allocation is in time, then the earliest-deadline queue is never late. */
  lemma AllocationBeatsNoLateOrder(s: seq<Demand>, k: nat, dates: seq<int>, perDay: real)
    requires DeadlineOrdered(s) && k < |s| && forall d :: d in s ==> d.days > 0.0
    requires Feasible(Binding(s), dates, perDay)
    ensures !LateAt(s, k, dates, perDay)
  {
    if s[k].neededBy.Some? {
      var t := s[k].neededBy.value;
      BindingAt(s, k);
      var rows :| Allocation(Binding(s), rows, dates, seq(|dates|, _ => perDay));
      WorkCovered(s, rows, k, dates);
      AllDeliveredFits(rows, k + 1, dates, t, perDay);
    }
  }

  lemma DeliveredInTime(s: seq<Demand>, row: seq<real>, j: nat, k: nat, dates: seq<int>)
    requires DeadlineOrdered(s) && j <= k < |s| && s[k].neededBy.Some? && s[j].days > 0.0
    requires |row| == |dates| && NonNegative(row) && |Binding(s)| == |s| && Finished(Binding(s)[j], row, dates)
    ensures DeliveredBy(row, dates, s[k].neededBy.value) >= s[j].days
  {
    BoundByDeadline(s, j, k);
    LaterMeansMore(row, dates, Binding(s)[j].neededBy.value, s[k].neededBy.value);
  }

  lemma WorkCovered(s: seq<Demand>, rows: seq<seq<real>>, k: nat, dates: seq<int>)
    requires DeadlineOrdered(s) && k < |s| && s[k].neededBy.Some? && forall d :: d in s ==> d.days > 0.0
    requires |rows| == |s| == |Binding(s)| && Shaped(rows, |dates|)
    requires forall j :: 0 <= j < |s| ==> Finished(Binding(s)[j], rows[j], dates)
    ensures AllDeliveredBy(rows[..k + 1], dates, s[k].neededBy.value) >= Work(s[..k + 1])
  {
    var t, some := s[k].neededBy.value, rows[..k + 1];
    forall j | 0 <= j < k + 1 ensures DeliveredBy(some[j], dates, t) >= s[..k + 1][j].days {
      assert some[j] == rows[j];
      DeliveredInTime(s, rows[j], j, k, dates);
    }
    DeliveredCoversWork(s[..k + 1], some, dates, t);
  }

  lemma AllDeliveredFits(rows: seq<seq<real>>, k: nat, dates: seq<int>, t: int, perDay: real)
    requires Shaped(rows, |dates|) && WithinCapacity(rows, seq(|dates|, _ => perDay)) && k <= |rows|
    ensures AllDeliveredBy(rows[..k], dates, t) <= Edge(DueDays(dates, t), perDay)
  {
    DeliveredNonNegative(rows[k..], dates, t);
    DeliveredSplit(rows, k, dates, t);
    forall i: nat | i < |dates| ensures ColumnSum(rows, i) <= perDay {
      assert seq(|dates|, _ => perDay)[i] == perDay;
    }
    DeliveryIsBounded(rows, dates, t, perDay);
  }

  // ------------------------------------------------------------- sufficiency

  /** The part of the work from `a` to `b` that the queue puts on each day. */
  function IntervalRow(a: real, b: real, n: nat, perDay: real): seq<real> {
    seq(n, i requires i >= 0 => DayLoad(b, i, perDay) - DayLoad(a, i, perDay))
  }

  /** The queue's own allocation, for orders served after `before` line-days of work. */
  function QueueRows(s: seq<Demand>, before: real, n: nat, perDay: real): seq<seq<real>> {
    if s == [] then []
    else [IntervalRow(before, before + s[0].days, n, perDay)] + QueueRows(s[1..], before + s[0].days, n, perDay)
  }

  lemma {:induction false} WorkFromFront(s: seq<Demand>)
    requires s != []
    ensures Work(s) == s[0].days + Work(s[1..])
  {
    var n := |s| - 1;
    if n > 0 {
      WorkFromFront(s[..n]);
      assert s[..n][1..] == s[1..][..n - 1];
    } else {
      assert s[1..] == [] && s[..0] == [];
    }
  }

  lemma {:induction false} QueueColumns(s: seq<Demand>, before: real, n: nat, perDay: real, i: nat)
    requires i < n
    ensures |QueueRows(s, before, n, perDay)| == |s|
    ensures forall r :: r in QueueRows(s, before, n, perDay) ==> |r| == n
    ensures ColumnSum(QueueRows(s, before, n, perDay), i) ==
            DayLoad(before + Work(s), i, perDay) - DayLoad(before, i, perDay)
    decreases |s|
  {
    if s != [] {
      QueueColumns(s[1..], before + s[0].days, n, perDay, i);
      WorkFromFront(s);
      assert QueueRows(s, before, n, perDay)[1..] == QueueRows(s[1..], before + s[0].days, n, perDay);
    }
  }

  lemma {:induction false} QueueRowAt(s: seq<Demand>, before: real, n: nat, perDay: real, j: nat)
    requires j < |s|
    ensures |QueueRows(s, before, n, perDay)| == |s|
    ensures QueueRows(s, before, n, perDay)[j]
         == IntervalRow(before + Work(s[..j]), before + Work(s[..j + 1]), n, perDay)
  {
    var rest := QueueRows(s[1..], before + s[0].days, n, perDay);
    if j > 0 {
      QueueRowAt(s[1..], before + s[0].days, n, perDay, j - 1);
      WorkFromFront(s[..j]);
      WorkFromFront(s[..j + 1]);
      assert s[..j][1..] == s[1..][..j - 1] && s[..j + 1][1..] == s[1..][..j];
    } else {
      if |s| > 1 { QueueRowAt(s[1..], before + s[0].days, n, perDay, 0); }
      assert s[..1][..0] == [] && s[..1][0] == s[0];
    }
  }

  lemma DayLoadGrows(a: real, b: real, i: nat, perDay: real)
    requires perDay > 0.0 && 0.0 <= a <= b
    ensures 0.0 <= DayLoad(a, i, perDay) <= DayLoad(b, i, perDay) <= perDay
  {
    EdgeGrows(i, i + 1, perDay);
  }

  lemma {:induction false} IntervalDelivered(a: real, b: real, dates: seq<int>, t: int, perDay: real)
    requires Ascending(dates) && 0.0 <= a <= b && perDay > 0.0
    ensures DeliveredBy(IntervalRow(a, b, |dates|, perDay), dates, t)
         == Packed(b, DueDays(dates, t), perDay) - Packed(a, DueDays(dates, t), perDay)
    decreases |dates|
  {
    if dates != [] {
      hide Edge;
      var n := |dates| - 1;
      var row := IntervalRow(a, b, n + 1, perDay);
      assert row[..n] == IntervalRow(a, b, n, perDay);
      IntervalDelivered(a, b, dates[..n], t, perDay);
      DueDaysIsPrefix(dates, t, n);
      if n > 0 { DueDaysIsPrefix(dates[..n], t, n - 1); }
    }
  }

  lemma {:induction false} WorkGrows(s: seq<Demand>, j: nat)
    requires j <= |s| && forall d :: d in s ==> d.days > 0.0
    ensures 0.0 <= Work(s[..j]) <= Work(s)
    decreases |s|
  {
    var n := |s| - 1;
    if s == [] {
    } else if j == |s| {
      WorkGrows(s[..n], n);
      assert s[..j] == s && s[..n][..n] == s[..n];
    } else {
      WorkGrows(s[..n], j);
      assert s[..n][..j] == s[..j];
    }
  }

  predicate LateAt(s: seq<Demand>, k: nat, dates: seq<int>, perDay: real)
    requires k < |s|
  {
    LastIsLate(s[..k + 1], dates, perDay)
  }

  lemma {:induction false} NoneLate(s: seq<Demand>, dates: seq<int>, perDay: real)
    ensures CountLate(s, dates, perDay) == 0 <==>
            forall k: nat :: k < |s| ==> !LateAt(s, k, dates, perDay)
    decreases |s|
  {
    if s != [] {
      var n := |s| - 1;
      NoneLate(s[..n], dates, perDay);
      assert s[..n + 1] == s;
      forall k: nat | k < n ensures LateAt(s, k, dates, perDay) == LateAt(s[..n], k, dates, perDay) {
        assert s[..n][..k + 1] == s[..k + 1];
      }
      assert LateAt(s, n, dates, perDay) == LastIsLate(s, dates, perDay);
    }
  }

  /** A queue without late orders is itself an allocation in time. */
  lemma QueueIsAllocation(s: seq<Demand>, dates: seq<int>, perDay: real)
    requires DeadlineOrdered(s) && Ascending(dates) && perDay > 0.0 && dates != []
    requires forall d :: d in s ==> d.days > 0.0
    requires CountLate(s, dates, perDay) == 0
    ensures Feasible(Binding(s), dates, perDay)
  {
    var n, b := |dates|, Binding(s);
    var rows := QueueRows(s, 0.0, n, perDay);
    if s != [] { BindingAt(s, 0); }
    QueueColumns(s, 0.0, n, perDay, 0);
    QueueRowsFit(s, n, perDay);
    forall j | 0 <= j < |b| ensures Finished(b[j], rows[j], dates) {
      if b[j].neededBy.Some? { QueueFinishes(s, j, dates, perDay); }
    }
    assert Allocation(b, rows, dates, seq(n, _ => perDay));
  }

  lemma QueueRowsFit(s: seq<Demand>, n: nat, perDay: real)
    requires perDay > 0.0 && n > 0 && forall d :: d in s ==> d.days > 0.0
    ensures Shaped(QueueRows(s, 0.0, n, perDay), n)
    ensures WithinCapacity(QueueRows(s, 0.0, n, perDay), seq(n, _ => perDay))
  {
    hide DayLoad, Work, ColumnSum, QueueRows;
    var rows := QueueRows(s, 0.0, n, perDay);
    QueueColumns(s, 0.0, n, perDay, 0);
    forall j | 0 <= j < |rows| ensures NonNegative(rows[j]) {
      QueueRowAt(s, 0.0, n, perDay, j);
      WorkGrows(s[..j + 1], j);
      assert s[..j + 1][..j] == s[..j];
      forall i: nat | i < n ensures rows[j][i] >= 0.0 {
        DayLoadGrows(Work(s[..j]), Work(s[..j + 1]), i, perDay);
      }
    }
    forall i: nat | i < n ensures ColumnSum(rows, i) <= perDay {
      QueueColumns(s, 0.0, n, perDay, i);
      WorkGrows(s, 0);
      DayLoadGrows(0.0, Work(s), i, perDay);
      DayLoadGrows(0.0, 0.0, i, perDay);
    }
  }

  lemma QueueFinishes(s: seq<Demand>, j: nat, dates: seq<int>, perDay: real)
    requires DeadlineOrdered(s) && Ascending(dates) && perDay > 0.0 && dates != []
    requires forall d :: d in s ==> d.days > 0.0
    requires CountLate(s, dates, perDay) == 0
    requires j < |s| == |Binding(s)| == |QueueRows(s, 0.0, |dates|, perDay)| && Binding(s)[j].neededBy.Some?
    requires |QueueRows(s, 0.0, |dates|, perDay)[j]| == |dates|
    ensures Finished(Binding(s)[j], QueueRows(s, 0.0, |dates|, perDay)[j], dates)
  {
    hide Edge, DayLoad, Work, QueueRows, CountLate;
    BindingAt(s, j);
    NoneLate(s, dates, perDay);
    var k := j;
    if s[j].neededBy.None? {
      var m :| 0 <= m < |s[j + 1..]| && s[j + 1..][m].neededBy.Some?;
      k := j + 1 + m;
      assert SortKey(s[j]) <= SortKey(s[k]);
    }
    assert !LateAt(s, k, dates, perDay);
    OnTimePrefix(s, j, k, dates, perDay, Binding(s)[j].neededBy.value);
    QueueRowAt(s, 0.0, |dates|, perDay, j);
  }

  lemma OnTimePrefix(s: seq<Demand>, j: nat, k: nat, dates: seq<int>, perDay: real, t: int)
    requires Ascending(dates) && perDay > 0.0 && dates != [] && j <= k < |s|
    requires forall d :: d in s ==> d.days > 0.0
    requires s[k].neededBy == Some(t) && !LateAt(s, k, dates, perDay)
    ensures DeliveredBy(IntervalRow(Work(s[..j]), Work(s[..j + 1]), |dates|, perDay), dates, t) >= s[j].days
  {
    hide IntervalRow, DeliveredBy, DayLoad, Ascending;
    var upto := s[..k + 1];
    assert upto[k] == s[k];
    WorkGrows(upto, j + 1);
    assert upto[..j + 1] == s[..j + 1];
    WorkGrows(s[..j + 1], j);
    assert s[..j + 1][..j] == s[..j] && s[..j + 1][j] == s[j];
    IntervalDelivered(Work(s[..j]), Work(s[..j + 1]), dates, t, perDay);
  }

  // ------------------------------------------------------------ main theorems

  /**
   * For every list of orders: the forecast reports no late order exactly when
   * the horizon is empty or the dated orders can all be finished in time. An
   * undated order counts as due on the stand-in date when an order carrying
   * that very date is served behind it.
   */
  lemma LateCountIsExact(ds: seq<Demand>, dates: seq<int>, perDay: real)
    requires Ascending(dates) && perDay > 0.0
    ensures CountLate(Queue(ds), dates, perDay) == 0 <==>
            dates == [] || Feasible(Binding(Queue(ds)), dates, perDay)
  {
    var s := Queue(ds);
    QueueIsOrdered(ds);
    NoneLate(s, dates, perDay);
    if dates == [] {
    } else if Feasible(Binding(s), dates, perDay) {
      forall k: nat | k < |s| ensures !LateAt(s, k, dates, perDay) {
        AllocationBeatsNoLateOrder(s, k, dates, perDay);
      }
    } else if CountLate(s, dates, perDay) == 0 {
      QueueIsAllocation(s, dates, perDay);
    }
  }

  /** Earliest-deadline packing is optimal as long as no order carries the stand-in date itself. */
  lemma EarliestDeadlineIsOptimal(ds: seq<Demand>, dates: seq<int>, perDay: real)
    requires Ascending(dates) && perDay > 0.0 && dates != []
    requires forall d :: d in ds ==> d.neededBy != Some(LAST_DATE)
    ensures CountLate(Queue(ds), dates, perDay) == 0 <==> Feasible(ds, dates, perDay)
  {
    var s := Queue(ds);
    LateCountIsExact(ds, dates, perDay);
    QueueIsOrdered(ds);
    QueueFeasibility(ds, dates, perDay);
    NothingPromoted(s);
  }

  /**
   * Whether the dated orders can be finished in time can be read off the same
   * forecast made for the dated orders alone.
   */
  lemma FeasibleExactly(ds: seq<Demand>, dates: seq<int>, perDay: real)
    requires Ascending(dates) && perDay > 0.0 && dates != []
    ensures Feasible(ds, dates, perDay) <==> CountLate(Queue(Dated(ds)), dates, perDay) == 0
  {
    var all := Dated(ds);
    LateCountIsExact(all, dates, perDay);
    QueueFeasibility(all, dates, perDay);
    DatedFeasibility(ds, dates, perDay);
    DatedArePending(ds);
    QueueIsOrdered(all);
    AllDatedIsBinding(Queue(all));
  }

  /** Every order due on the stand-in date is finished by then, the undated ones queued ahead of it included. */
  ghost predicate StandInOrdersFit(s: seq<Demand>, dates: seq<int>, perDay: real) {
    forall k: nat :: k < |s| && s[k].neededBy == Some(LAST_DATE) ==>
      Work(s[..k + 1]) <= Edge(DueDays(dates, LAST_DATE), perDay)
  }

  /**
   * Exactly when earliest-deadline packing is optimal on a horizon with work
   * days: unless the dated orders are too much already by themselves, the orders
   * due on the stand-in date must fit together with the undated ones ahead of them.
   */
  lemma OptimalExactly(ds: seq<Demand>, dates: seq<int>, perDay: real)
    requires Ascending(dates) && perDay > 0.0 && dates != []
    ensures (CountLate(Queue(ds), dates, perDay) == 0 <==> Feasible(ds, dates, perDay)) <==>
            (CountLate(Queue(Dated(ds)), dates, perDay) == 0 ==> StandInOrdersFit(Queue(ds), dates, perDay))
  {
    hide CountLate, Feasible, StandInOrdersFit;
    FeasibleExactly(ds, dates, perDay);
    if CountLate(Queue(ds), dates, perDay) == 0 { NoneLateIsFeasible(ds, dates, perDay); }
    if Feasible(ds, dates, perDay) { OnlyStandInOrdersLate(ds, dates, perDay); }
  }

  lemma NoneLateIsFeasible(ds: seq<Demand>, dates: seq<int>, perDay: real)
    requires Ascending(dates) && perDay > 0.0 && dates != [] && CountLate(Queue(ds), dates, perDay) == 0
    ensures Feasible(ds, dates, perDay)
  {
    hide CountLate, Feasible;
    LateCountIsExact(ds, dates, perDay);
    BindingIsHarder(Queue(ds), dates, perDay);
    QueueFeasibility(ds, dates, perDay);
  }

  /** Where everything can be in time, only orders due on the stand-in date can be late. */
  lemma OnlyStandInOrdersLate(ds: seq<Demand>, dates: seq<int>, perDay: real)
    requires Ascending(dates) && perDay > 0.0 && dates != [] && Feasible(ds, dates, perDay)
    ensures CountLate(Queue(ds), dates, perDay) == 0 <==> StandInOrdersFit(Queue(ds), dates, perDay)
  {
    hide CountLate, Feasible, Queue, Work, Edge, DueDays, LateAt;
    var s := Queue(ds);
    QueueIsOrdered(ds);
    QueueFeasibility(ds, dates, perDay);
    NoneLate(s, dates, perDay);
    forall k: nat | k < |s| && s[k].neededBy != Some(LAST_DATE) ensures !LateAt(s, k, dates, perDay) {
      EarlierOrdersAreInTime(s, k, dates, perDay);
    }
    forall k: nat | k < |s| && s[k].neededBy == Some(LAST_DATE)
      ensures LateAt(s, k, dates, perDay) <==> Work(s[..k + 1]) > Edge(DueDays(dates, LAST_DATE), perDay)
    {
      StandInLateness(s, k, dates, perDay);
    }
    hide DeadlineOrdered, Ascending;
  }

  lemma StandInLateness(s: seq<Demand>, k: nat, dates: seq<int>, perDay: real)
    requires k < |s| && s[k].neededBy == Some(LAST_DATE) && dates != []
    ensures LateAt(s, k, dates, perDay) <==> Work(s[..k + 1]) > Edge(DueDays(dates, LAST_DATE), perDay)
  {
    hide Work, Edge, DueDays;
  }

  /** On a horizon without work days it is optimal exactly when nothing is asked for. */
  lemma EmptyHorizonOptimalExactly(ds: seq<Demand>, perDay: real)
    ensures (CountLate(Queue(ds), [], perDay) == 0 <==> Feasible(ds, [], perDay)) <==> Dated(ds) == []
  {
    NoneLate(Queue(ds), [], perDay);
    DatedFeasibility(ds, [], perDay);
    if Dated(ds) == [] {
      assert Allocation([], [], [], seq(0, _ => perDay));
    } else {
      DatedArePending(ds);
      assert Dated(ds)[0] in Dated(ds);
      NoDaysNoWork(Dated(ds), perDay);
    }
  }

  lemma NoDaysNoWork(ds: seq<Demand>, perDay: real)
    requires ds != [] && ds[0].neededBy.Some? && ds[0].days > 0.0
    ensures !Feasible(ds, [], perDay)
  {
  }

  lemma BindingIsHarder(s: seq<Demand>, dates: seq<int>, perDay: real)
    requires Feasible(Binding(s), dates, perDay)
    ensures Feasible(s, dates, perDay)
  {
    var rows :| Allocation(Binding(s), rows, dates, seq(|dates|, _ => perDay));
    if s != [] { BindingAt(s, 0); }
    forall j | 0 <= j < |s| ensures Finished(s[j], rows[j], dates) {
      BindingAt(s, j);
    }
    assert Allocation(s, rows, dates, seq(|dates|, _ => perDay));
  }

  /** An order that only dated ones come before is in time whenever that is possible at all. */
  lemma EarlierOrdersAreInTime(s: seq<Demand>, k: nat, dates: seq<int>, perDay: real)
    requires DeadlineOrdered(s) && k < |s| && forall d :: d in s ==> d.days > 0.0
    requires Feasible(s, dates, perDay) && s[k].neededBy != Some(LAST_DATE)
    ensures !LateAt(s, k, dates, perDay)
  {
    hide Binding, Feasible, FeasibleWithin, Work, Edge, DueDays;
    if s[k].neededBy.Some? {
      var p := s[..k + 1];
      assert FeasibleWithin(s, dates, seq(|dates|, _ => perDay)) by { FeasibleIsWithin(s, dates, perDay); }
      FeasiblePrefix(s, k + 1, dates, seq(|dates|, _ => perDay));
      forall j | 0 <= j <= k ensures p[j].neededBy.Some? {
        assert j < k ==> SortKey(s[j]) <= SortKey(s[k]);
      }
      AllDatedIsBinding(p);
      FeasibleIsWithin(p, dates, perDay);
      AllocationBeatsNoLateOrder(p, k, dates, perDay);
      assert p[..k + 1] == s[..k + 1];
    }
  }

  lemma FeasibleIsWithin(s: seq<Demand>, dates: seq<int>, perDay: real)
    ensures Feasible(s, dates, perDay) <==> FeasibleWithin(s, dates, seq(|dates|, _ => perDay))
  {
  }

  lemma {:induction false} FeasiblePrefix(s: seq<Demand>, n: nat, dates: seq<int>, caps: seq<real>)
    requires |caps| == |dates| && n <= |s| && FeasibleWithin(s, dates, caps)
    ensures FeasibleWithin(s[..n], dates, caps)
    decreases |s|
  {
    if n < |s| {
      var m := |s| - 1;
      var row := SplitOrder(s, m, dates, caps);
      assert Without(s, m) == s[..m];
      MoreCapacityHelps(s[..m], row, dates, caps);
      FeasiblePrefix(s[..m], n, dates, caps);
      assert s[..m][..n] == s[..n];
    } else {
      assert s[..n] == s;
    }
  }

  lemma AllDatedIsBinding(s: seq<Demand>)
    requires forall d :: d in s ==> d.neededBy.Some?
    ensures Binding(s) == s
  {
    if s != [] { BindingAt(s, 0); }
    forall j | 0 <= j < |s| ensures Binding(s)[j] == s[j] {
      BindingAt(s, j);
      assert s[j] in s;
    }
  }

  lemma NothingPromoted(s: seq<Demand>)
    requires DeadlineOrdered(s) && forall d :: d in s ==> d.neededBy != Some(LAST_DATE)
    ensures Binding(s) == s
  {
    if s != [] { BindingAt(s, 0); }
    forall j | 0 <= j < |s| ensures Binding(s)[j] == s[j] {
      BindingAt(s, j);
    }
  }
}
