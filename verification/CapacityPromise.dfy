/** The forecast and the delivery promise as they are reported, and what can be read off them. */
module CapacityPromise {
  import opened Common
  import opened CapacityForecast
  import opened CapacityOptimality

  datatype Forecast = Forecast(dates: seq<int>, used: seq<real>, spill: real, queueDays: real, lateOrders: nat)

  function PerDay(lines: int): real { Max(1, lines) as real * CAPACITY_CAP }

  function Sum(s: seq<real>): real {
    if s == [] then 0.0 else Sum(s[..|s| - 1]) + s[|s| - 1]
  }

  /**
   * The whole forecast, before rounding for output. All queued work is either
   * on a day or spilled, no day is overfilled, work is spilled or put on a day
   * only when every earlier day is full, and the late count is the number of
   * queued orders whose work does not fit into the days up to their deadline.
   */
  method BuildForecast(demands: seq<Demand>, lines: int, start: int, horizon: int) returns (f: Forecast)
    ensures f.dates == WorkDays(start, horizon, 800)
    ensures |f.used| == |f.dates| && f.queueDays == Sum(f.used) + f.spill == Work(Queue(demands))
    ensures var cap := Max(1, lines) as real * 0.85;
            && (forall i :: 0 <= i < |f.used| ==> 0.0 <= f.used[i] <= cap)
            && (forall i, j :: 0 <= i < j < |f.used| && f.used[j] > 0.0 ==> f.used[i] == cap)
            && (f.spill > 0.0 ==> forall i :: 0 <= i < |f.used| ==> f.used[i] == cap)
            && f.lateOrders == |LateOnes(Queue(demands), f.dates, cap)|
            && (f.lateOrders == 0 <==> f.dates == [] || Feasible(Binding(Queue(demands)), f.dates, cap))
  {
    var dates := WorkDaysFrom(start, horizon);
    WorkDaysAreTheNextOnes(start, horizon, CALENDAR_GUARD);
    QueueIsOrdered(demands);
    var s := Queue(demands);
    var used, cursor, spill, late := Pack(s, dates, PerDay(lines));
    var total := 0.0;
    for i := 0 to used.Length
      invariant total == Sum(used[..i])
    {
      assert used[..i + 1][..i] == used[..i];
      total := total + used[i];
    }
    assert used[..used.Length] == used[..];
    f := Forecast(dates, used[..], spill, total + spill, late);
    PackedWithoutGaps(Work(s), f.used, cursor, PerDay(lines));
    LoadsAddUp(Work(s), |dates|, PerDay(lines));
    LateCountIsExact(demands, dates, PerDay(lines));
    LateOnesAreCounted(s, dates, PerDay(lines));
  }

  lemma PackedWithoutGaps(w: real, used: seq<real>, cursor: nat, perDay: real)
    requires perDay > 0.0 && QueueReaches(w, cursor, |used|, perDay) && used == Loads(w, |used|, perDay)
    ensures w >= 0.0
    ensures forall i :: 0 <= i < |used| ==> 0.0 <= used[i] <= perDay
    ensures forall i, j :: 0 <= i < j < |used| && used[j] > 0.0 ==> used[i] == perDay
    ensures w > Packed(w, |used|, perDay) ==> forall i :: 0 <= i < |used| ==> used[i] == perDay
  {
    FullBeforeCursor(w, cursor, |used|, perDay);
    if 0 < cursor { EdgeGrows(0, cursor, perDay); }
  }

  lemma {:induction false} LoadsAddUp(w: real, n: nat, perDay: real)
    requires perDay > 0.0 && w >= 0.0
    ensures Sum(Loads(w, n, perDay)) == Packed(w, n, perDay)
    decreases n
  {
    if n > 0 {
      LoadsAddUp(w, n - 1, perDay);
      assert Loads(w, n, perDay)[..n - 1] == Loads(w, n - 1, perDay);
    }
  }

  /** Every day before the cursor is full and every day behind it is empty. */
  lemma FullBeforeCursor(w: real, cursor: nat, n: nat, perDay: real)
    requires perDay > 0.0 && QueueReaches(w, cursor, n, perDay)
    ensures forall i :: 0 <= i < n ==> 0.0 <= DayLoad(w, i, perDay) <= perDay
    ensures forall i :: 0 <= i < cursor ==> DayLoad(w, i, perDay) == perDay
    ensures forall i :: cursor < i < n ==> DayLoad(w, i, perDay) == 0.0
    ensures cursor < n ==> Packed(w, n, perDay) == w
  {
    forall i | 0 <= i < n
      ensures 0.0 <= DayLoad(w, i, perDay) <= perDay
      ensures i < cursor ==> DayLoad(w, i, perDay) == perDay
      ensures cursor < i ==> DayLoad(w, i, perDay) == 0.0
    {
      EdgeGrows(i, i + 1, perDay);
      if i + 1 < cursor { EdgeGrows(i + 1, cursor, perDay); }
      if cursor + 1 < i { EdgeGrows(cursor + 1, i, perDay); }
      if 0 < i { EdgeGrows(0, i, perDay); }
      if 0 < cursor { EdgeGrows(0, cursor, perDay); }
    }
    if cursor + 1 < n { EdgeGrows(cursor + 1, n, perDay); }
  }

  // -------------------------------------------------------- where it can fail

  /** With no work day in the horizon nothing is ever counted late, feasible or not. */
  lemma EmptyHorizonHidesLateness(d: Demand, perDay: real)
    requires d.days > 0.0 && d.neededBy.Some?
    ensures CountLate(Queue([d]), [], perDay) == 0 && !Feasible([d], [], perDay)
  {
    assert Queue([d]) == [d] by {
      assert Pending([d][1..]) == [];
      assert ByDeadline([d][1..]) == [];
    }
  }

  /** An undated order listed before one due on the stand-in date delays it although it need not. */
  lemma StandInDateIsNotOptimal(day: IsoDate, perDay: real)
    requires perDay > 0.0
    ensures var ds := [Demand(perDay, None), Demand(perDay, Some(LAST_DATE))];
            CountLate(Queue(ds), [day], perDay) == 1 && Feasible(ds, [day], perDay)
  {
    var free, dated := Demand(perDay, None), Demand(perDay, Some(LAST_DATE));
    var ds := [free, dated];
    assert ds[1..] == [dated] && ds[..1] == [free];
    StandInQueue(free, dated);
    SingleOrder(dated);
    SingleOrder(free);
    assert Work(ds) == perDay + perDay;
    assert DueDays([day], LAST_DATE) == 1 by { assert [day][..0] == []; }
    assert Edge(1, perDay) == perDay by { assert Edge(0, perDay) == 0.0; }
    assert LastIsLate(ds, [day], perDay) && !LastIsLate([free], [day], perDay);
    assert CountLate([free], [day], perDay) == 0;
    var rows := [[0.0], [perDay]];
    assert rows[1..] == [[perDay]] && [[perDay]][1..] == [];
    assert ColumnSum([[perDay]], 0) == perDay + ColumnSum([], 0);
    assert DeliveredBy([perDay], [day], LAST_DATE) == perDay by {
      assert [perDay][..0] == [] && [day][..0] == [];
      assert DeliveredBy([], [], LAST_DATE) == 0.0;
    }
    assert Allocation(ds, rows, [day], seq(1, _ => perDay));
  }

  lemma SingleOrder(d: Demand)
    requires d.days > 0.0
    ensures Pending([d]) == [d] && ByDeadline([d]) == [d] && Work([d]) == d.days
  {
    assert [d][1..] == [] && [d][..0] == [];
  }

  lemma StandInQueue(free: Demand, dated: Demand)
    requires free.days > 0.0 && dated.days > 0.0 && SortKey(free) <= SortKey(dated)
    ensures Queue([free, dated]) == [free, dated]
  {
    SingleOrder(dated);
    assert [free, dated][1..] == [dated];
    assert Pending([free, dated]) == [free] + [dated];
    assert ByDeadline([free, dated]) == Insert(free, [dated]);
  }

  // ---------------------------------------------------------- delivery promise

  const EARLIEST := 0.9
  const LIKELY := 1.0
  const LATEST := 1.3

  datatype Verdict = Ok | Tight | Late | Unasked

  datatype Promise = Promise(earliest: int, likely: int, latest: int, verdict: Verdict)

  function Ceil(x: real): int { -(-x).Floor }

  /** The work day on which `work` line-days, stretched by `factor`, run out. */
  function FinishDate(work: real, factor: real, perDay: real, start: int): int
    requires perDay > 0.0
  {
    var dates := WorkDays(start, Max(1, Ceil(work * factor / perDay)), CALENDAR_GUARD);
    if dates == [] then start else dates[|dates| - 1]
  }

  function DeliveryPromise(queueDays: real, newDays: real, lines: int, start: int, dueDate: Option<int>): Promise {
    var work, perDay := queueDays + newDays, PerDay(lines);
    var earliest := FinishDate(work, EARLIEST, perDay, start);
    var likely := FinishDate(work, LIKELY, perDay, start);
    var latest := FinishDate(work, LATEST, perDay, start);
    var verdict := match dueDate
      case None => Unasked
      case Some(due) => if latest <= due then Ok else if likely <= due then Tight else Late;
    Promise(earliest, likely, latest, verdict)
  }

  /** Asking for fewer work days lists a prefix of the same days. */
  lemma {:induction false} FewerWorkDays(start: int, k: int, m: int, guard: nat)
    requires k <= m
    ensures WorkDays(start, k, guard) <= WorkDays(start, m, guard)
    decreases guard
  {
    if k > 0 && guard > 0 {
      if IsWorkDay(start) {
        FewerWorkDays(start + 1, k - 1, m - 1, guard - 1);
      } else {
        FewerWorkDays(start + 1, k, m, guard - 1);
      }
    }
  }

  lemma FinishDateGrows(work: real, f: real, g: real, perDay: real, start: int)
    requires work >= 0.0 && f <= g && perDay > 0.0
    ensures FinishDate(work, f, perDay, start) <= FinishDate(work, g, perDay, start)
  {
    hide WorkDays, IsWorkDay;
    assert work * f <= work * g;
    assert work * f / perDay <= work * g / perDay;
    var k, m := Max(1, Ceil(work * f / perDay)), Max(1, Ceil(work * g / perDay));
    FewerWorkDays(start, k, m, CALENDAR_GUARD);
    WorkDaysAreTheNextOnes(start, m, CALENDAR_GUARD);
    WorkDaysCount(start, k, CALENDAR_GUARD);
    var few, many := WorkDays(start, k, CALENDAR_GUARD), WorkDays(start, m, CALENDAR_GUARD);
    assert few != [] && few[|few| - 1] == many[|few| - 1];
  }

  /** The three promised dates come in order, so the verdict never contradicts them. */
  lemma PromiseIsARange(queueDays: real, newDays: real, lines: int, start: int, dueDate: Option<int>)
    requires queueDays >= 0.0 && newDays >= 0.0
    ensures var p := DeliveryPromise(queueDays, newDays, lines, start, dueDate);
            && p.earliest <= p.likely <= p.latest
            && (p.verdict == Ok <==> dueDate.Some? && p.latest <= dueDate.value)
            && (p.verdict == Tight <==> dueDate.Some? && p.likely <= dueDate.value < p.latest)
            && (p.verdict == Late <==> dueDate.Some? && dueDate.value < p.likely)
            && (p.verdict == Unasked <==> dueDate.None?)
  {
    FinishDateGrows(queueDays + newDays, EARLIEST, LIKELY, PerDay(lines), start);
    FinishDateGrows(queueDays + newDays, LIKELY, LATEST, PerDay(lines), start);
  }

  /**
   * The likely date is the day on which packing the new order behind the whole
   * queue would finish it, `Edge(i) < w <= Edge(i + 1)` being what PlaceOrder
   * reports of a day `i`; the other two are the days on which it would be finished
   * if all work took nine tenths, or thirteen tenths, of its time.
   */
  lemma PromisedDatesAreForecastDates(queueDays: real, newDays: real, lines: int, start: int, horizon: int, i: nat)
    requires queueDays >= 0.0 && newDays > 0.0 && i < |WorkDays(start, horizon, CALENDAR_GUARD)|
    ensures var p, w := DeliveryPromise(queueDays, newDays, lines, start, None), queueDays + newDays;
            var day := WorkDays(start, horizon, CALENDAR_GUARD)[i];
            && (Edge(i, PerDay(lines)) < w * 0.9 <= Edge(i + 1, PerDay(lines)) ==> p.earliest == day)
            && (Edge(i, PerDay(lines)) < w <= Edge(i + 1, PerDay(lines)) ==> p.likely == day)
            && (Edge(i, PerDay(lines)) < w * 1.3 <= Edge(i + 1, PerDay(lines)) ==> p.latest == day)
  {
    var w, perDay := queueDays + newDays, PerDay(lines);
    assert perDay > 0.0;
    hide FinishDate, WorkDays, Edge, PerDay;
    FinishOnDay(w, EARLIEST, perDay, start, horizon, i);
    FinishOnDay(w, LIKELY, perDay, start, horizon, i);
    FinishOnDay(w, LATEST, perDay, start, horizon, i);
    assert w * LIKELY == w;
  }

  lemma FinishOnDay(work: real, factor: real, perDay: real, start: int, horizon: int, i: nat)
    requires perDay > 0.0 && i < |WorkDays(start, horizon, CALENDAR_GUARD)|
    ensures Edge(i, perDay) < work * factor <= Edge(i + 1, perDay) ==>
            FinishDate(work, factor, perDay, start) == WorkDays(start, horizon, CALENDAR_GUARD)[i]
  {
    NthWorkDay(start, horizon, i);
    if Edge(i, perDay) < work * factor <= Edge(i + 1, perDay) {
      DaysNeeded(work * factor, i, perDay);
    }
    hide WorkDays, Edge, Ceil;
  }

  lemma NthWorkDay(start: int, horizon: int, i: nat)
    requires i < |WorkDays(start, horizon, CALENDAR_GUARD)|
    ensures |WorkDays(start, i + 1, CALENDAR_GUARD)| == i + 1
    ensures WorkDays(start, i + 1, CALENDAR_GUARD)[i] == WorkDays(start, horizon, CALENDAR_GUARD)[i]
  {
    WorkDaysCount(start, horizon, CALENDAR_GUARD);
    WorkDaysCount(start, i + 1, CALENDAR_GUARD);
    FewerWorkDays(start, i + 1, horizon, CALENDAR_GUARD);
  }

  lemma DaysNeeded(w: real, i: nat, perDay: real)
    requires perDay > 0.0 && Edge(i, perDay) < w <= Edge(i + 1, perDay)
    ensures Ceil(w / perDay) == i + 1
  {
    EdgeIsProduct(i, perDay);
    EdgeIsProduct(i + 1, perDay);
    DivideBetween(w, i as real, (i + 1) as real, perDay);
  }

  lemma DivideBetween(w: real, lo: real, hi: real, perDay: real)
    requires perDay > 0.0 && lo * perDay < w <= hi * perDay
    ensures lo < w / perDay <= hi
  {
    var x := w / perDay;
    assert x * perDay == w;
  }
}
