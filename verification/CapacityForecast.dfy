/**
 * Capacity forecast: open orders are packed onto working days, earliest
 * deadline first, and the orders that end after their deadline are counted.
 *
 * Work is measured in exact line-days (`real`), so the tolerance tests of the
 * program become tests against zero. A calendar date is a day number counted
 * from 1970-01-01; the ISO text order of dates is then the order of numbers.
 */
module CapacityForecast {
  import opened Common

  const CAPACITY_CAP := 0.85
  const CALENDAR_GUARD: nat := 800

  /** Day number of 9999-12-31, the date that stands in for "no deadline". */
  const LAST_DATE := 2932896

  type IsoDate = d: int | d <= LAST_DATE witness 0

  /** Leap days before the year `y + 1`. */
  function LeapDays(y: nat): nat { y / 4 - y / 100 + y / 400 }

  /** The stand-in date is the day before the year 10000 begins. */
  lemma LastDateIsLast()
    ensures LAST_DATE + 1 == 365 * (10_000 - 1970) + LeapDays(9999) - LeapDays(1969)
  {
  }

  datatype Demand = Demand(days: real, neededBy: Option<IsoDate>)

  // ---------------------------------------------------------------- calendar

  /** Every day but Friday; day 0 was a Thursday. */
  predicate IsWorkDay(date: int) { (date + 4) % 7 != 5 }

  /** The first `count` work days from `start`, looking at `guard` calendar days at most. */
  function WorkDays(start: int, count: int, guard: nat): seq<int>
    decreases guard
  {
    if count <= 0 || guard == 0 then []
    else if IsWorkDay(start) then [start] + WorkDays(start + 1, count - 1, guard - 1)
    else WorkDays(start + 1, count, guard - 1)
  }

  method WorkDaysFrom(start: int, count: int) returns (out: seq<int>)
    ensures out == WorkDays(start, count, 800)
  {
    out := [];
    var day, guard := start, 0;
    while |out| < count && guard < CALENDAR_GUARD
      invariant guard <= CALENDAR_GUARD
      invariant out + WorkDays(day, count - |out|, CALENDAR_GUARD - guard) == WorkDays(start, count, CALENDAR_GUARD)
    {
      NextDay(out, day, count - |out|, CALENDAR_GUARD - guard);
      hide WorkDays, IsWorkDay;
      if IsWorkDay(day) {
        out := out + [day];
      }
      day, guard := day + 1, guard + 1;
    }
  }

  lemma NextDay(out: seq<int>, day: int, count: int, guard: nat)
    requires count > 0 && guard > 0
    ensures out + WorkDays(day, count, guard) ==
            if IsWorkDay(day) then (out + [day]) + WorkDays(day + 1, count - 1, guard - 1)
            else out + WorkDays(day + 1, count, guard - 1)
  {
  }

  ghost predicate Ascending(dates: seq<int>) {
    forall i, j :: 0 <= i < j < |dates| ==> dates[i] < dates[j]
  }

  /**
   * The day list is strictly ascending, holds work days only, and skips none:
   * a calendar day up to the last listed one is listed exactly when it is a work day.
   */
  lemma {:induction false} WorkDaysAreTheNextOnes(start: int, count: int, guard: nat)
    ensures var out := WorkDays(start, count, guard);
            && Ascending(out)
            && (forall d :: d in out ==> IsWorkDay(d) && start <= d < start + guard)
            && (forall d :: out != [] && start <= d <= out[|out| - 1] && IsWorkDay(d) ==> d in out)
    decreases guard
  {
    hide IsWorkDay;
    var out := WorkDays(start, count, guard);
    if count <= 0 || guard == 0 {
    } else if IsWorkDay(start) {
      var rest := WorkDays(start + 1, count - 1, guard - 1);
      WorkDaysAreTheNextOnes(start + 1, count - 1, guard - 1);
      assert out == [start] + rest;
      forall i, j | 0 <= i < j < |out| ensures out[i] < out[j] {
        assert out[j] == rest[j - 1] && rest[j - 1] in rest;
      }
      forall d | start < d <= out[|out| - 1] && IsWorkDay(d) ensures d in rest {
        assert rest != [] && out[|out| - 1] == rest[|rest| - 1];
      }
    } else {
      WorkDaysAreTheNextOnes(start + 1, count, guard - 1);
    }
  }

  /** Fridays among the `guard` days from `start`. */
  function OffDays(start: int, guard: nat): int { (start + guard + 5) / 7 - (start + 5) / 7 }

  lemma OffDayStep(start: int, guard: nat)
    requires guard > 0
    ensures OffDays(start, guard) == OffDays(start + 1, guard - 1) + if IsWorkDay(start) then 0 else 1
    ensures 0 <= OffDays(start, guard) <= guard
  {
    assert (start + 4) % 7 == 5 <==> (start + 6) % 7 == 0;
  }

  /** The requested number of days is delivered as long as the guard window holds that many work days. */
  lemma {:induction false} WorkDaysCount(start: int, count: int, guard: nat)
    ensures |WorkDays(start, count, guard)| == Max(0, Min(count, guard - OffDays(start, guard)))
    decreases guard
  {
    if guard > 0 {
      OffDayStep(start, guard);
      if guard > 1 { OffDayStep(start + 1, guard - 1); }
      hide OffDays, IsWorkDay;
      if count <= 0 {
      } else if IsWorkDay(start) {
        WorkDaysCount(start + 1, count - 1, guard - 1);
      } else {
        WorkDaysCount(start + 1, count, guard - 1);
      }
    }
  }

  // ------------------------------------------------------------ service order

  function SortKey(d: Demand): int { if d.neededBy.Some? then d.neededBy.value else LAST_DATE }

  function Pending(ds: seq<Demand>): seq<Demand> {
    if ds == [] then []
    else if ds[0].days > 0.0 then [ds[0]] + Pending(ds[1..])
    else Pending(ds[1..])
  }

  function Insert(d: Demand, s: seq<Demand>): seq<Demand> {
    if s == [] then [d]
    else if SortKey(d) <= SortKey(s[0]) then [d] + s
    else [s[0]] + Insert(d, s[1..])
  }

  /** The stable sort by deadline, undated orders last. */
  function ByDeadline(ds: seq<Demand>): seq<Demand> {
    if ds == [] then [] else Insert(ds[0], ByDeadline(ds[1..]))
  }

  function Queue(ds: seq<Demand>): seq<Demand> { ByDeadline(Pending(ds)) }

  ghost predicate DeadlineOrdered(s: seq<Demand>) {
    forall i, j :: 0 <= i < j < |s| ==> SortKey(s[i]) <= SortKey(s[j])
  }

  lemma {:induction false} InsertKeepsAll(d: Demand, s: seq<Demand>)
    ensures multiset(Insert(d, s)) == multiset{d} + multiset(s)
  {
    if s == [] || SortKey(d) <= SortKey(s[0]) {
    } else {
      InsertKeepsAll(d, s[1..]);
      assert s == [s[0]] + s[1..];
    }
  }

  lemma {:induction false} InsertKeepsOrder(d: Demand, s: seq<Demand>)
    requires DeadlineOrdered(s)
    ensures DeadlineOrdered(Insert(d, s))
  {
    if s == [] || SortKey(d) <= SortKey(s[0]) {
    } else {
      var r := Insert(d, s[1..]);
      InsertKeepsOrder(d, s[1..]);
      InsertKeepsAll(d, s[1..]);
      forall k | 0 <= k < |r| ensures SortKey(s[0]) <= SortKey(r[k]) {
        assert r[k] in multiset{d} + multiset(s[1..]);
        assert r[k] == d || r[k] in s[1..];
      }
    }
  }

  lemma {:induction false} ByDeadlineSorts(ds: seq<Demand>)
    ensures DeadlineOrdered(ByDeadline(ds))
    ensures multiset(ByDeadline(ds)) == multiset(ds)
  {
    if ds != [] {
      ByDeadlineSorts(ds[1..]);
      InsertKeepsOrder(ds[0], ByDeadline(ds[1..]));
      InsertKeepsAll(ds[0], ByDeadline(ds[1..]));
      assert ds == [ds[0]] + ds[1..];
    }
  }

  lemma {:induction false} PendingArePositive(ds: seq<Demand>)
    ensures forall d :: d in Pending(ds) ==> d.days > 0.0 && d in ds
  {
    if ds != [] {
      PendingArePositive(ds[1..]);
    }
  }

  /** The queue is ordered: earlier deadlines first, undated orders behind all dated ones but those of the last date. */
  lemma QueueIsOrdered(ds: seq<Demand>)
    ensures DeadlineOrdered(Queue(ds))
    ensures forall i, j :: 0 <= i < j < |Queue(ds)| && Queue(ds)[j].neededBy.Some? ==>
              var before, due := Queue(ds)[i].neededBy, Queue(ds)[j].neededBy.value;
              if before.Some? then before.value <= due else due == LAST_DATE
    ensures forall d :: d in Queue(ds) ==> d.days > 0.0 && d in ds
  {
    ByDeadlineSorts(Pending(ds));
    PendingArePositive(ds);
    forall d | d in Queue(ds) ensures d in Pending(ds) {
      assert d in multiset(Queue(ds));
    }
  }

  /** The orders of one deadline that have work left, as they are listed; `None` for the undated ones. */
  function DueOn(ds: seq<Demand>, due: Option<IsoDate>): seq<Demand> {
    if ds == [] then []
    else (if ds[0].days > 0.0 && ds[0].neededBy == due then [ds[0]] else []) + DueOn(ds[1..], due)
  }

  /** Nothing with work left is lost or doubled, and orders of one deadline keep the order of the list. */
  lemma QueueIsStable(ds: seq<Demand>, due: Option<IsoDate>)
    ensures DueOn(Queue(ds), due) == DueOn(ds, due)
  {
    PendingKeepsDue(ds, due);
    PendingArePositive(ds);
    SortKeepsDue(Pending(ds), due);
  }

  lemma {:induction false} PendingKeepsDue(ds: seq<Demand>, due: Option<IsoDate>)
    ensures DueOn(Pending(ds), due) == DueOn(ds, due)
  {
    if ds != [] {
      PendingKeepsDue(ds[1..], due);
      if ds[0].days > 0.0 { assert Pending(ds)[1..] == Pending(ds[1..]); }
    }
  }

  lemma {:induction false} SortKeepsDue(ds: seq<Demand>, due: Option<IsoDate>)
    requires forall d :: d in ds ==> d.days > 0.0
    ensures DueOn(ByDeadline(ds), due) == DueOn(ds, due)
  {
    if ds != [] {
      SortKeepsDue(ds[1..], due);
      InsertKeepsDue(ds[0], ByDeadline(ds[1..]), due);
    }
  }

  lemma {:induction false} InsertKeepsDue(d: Demand, s: seq<Demand>, due: Option<IsoDate>)
    requires d.days > 0.0
    ensures DueOn(Insert(d, s), due) == (if d.neededBy == due then [d] else []) + DueOn(s, due)
  {
    if s == [] || SortKey(d) <= SortKey(s[0]) {
      assert Insert(d, s) == [d] + s;
      hide Insert, SortKey;
      DueInFront(d, s, due);
    } else {
      assert Insert(d, s) == [s[0]] + Insert(d, s[1..]) && s == [s[0]] + s[1..] && d.neededBy != s[0].neededBy;
      hide Insert, SortKey;
      InsertKeepsDue(d, s[1..], due);
      DueInFront(s[0], Insert(d, s[1..]), due);
      DueInFront(s[0], s[1..], due);
    }
  }

  lemma DueInFront(d: Demand, s: seq<Demand>, due: Option<IsoDate>)
    ensures DueOn([d] + s, due) == (if d.days > 0.0 && d.neededBy == due then [d] else []) + DueOn(s, due)
  {
    assert ([d] + s)[1..] == s;
  }

  // --------------------------------------------------------- closed-form load

  function Work(s: seq<Demand>): real {
    if s == [] then 0.0 else Work(s[..|s| - 1]) + s[|s| - 1].days
  }

  /** Capacity of the first `i` days. */
  function Edge(i: nat, perDay: real): real
    decreases i
  {
    if i == 0 then 0.0 else Edge(i - 1, perDay) + perDay
  }

  /** How much of the first `w` units of queued work the first `i` days absorb. */
  function Packed(w: real, i: nat, perDay: real): real {
    if w < Edge(i, perDay) then w else Edge(i, perDay)
  }

  /** How much of the first `w` units of queued work lands on day `i`. */
  function DayLoad(w: real, i: nat, perDay: real): real {
    Packed(w, i + 1, perDay) - Packed(w, i, perDay)
  }

  function Loads(w: real, n: nat, perDay: real): seq<real> {
    seq(n, i requires i >= 0 => DayLoad(w, i, perDay))
  }

  /** Number of listed days not after `t`. */
  function DueDays(dates: seq<int>, t: int): nat {
    if dates == [] then 0
    else DueDays(dates[..|dates| - 1], t) + if dates[|dates| - 1] <= t then 1 else 0
  }

  /** The order served last in `s` is late: the work up to it outgrows the days left before its deadline. */
  predicate LastIsLate(s: seq<Demand>, dates: seq<int>, perDay: real)
    requires s != []
  {
    var d := s[|s| - 1];
    && d.neededBy.Some?
    && dates != []
    && Work(s) > Edge(DueDays(dates, d.neededBy.value), perDay)
  }

  function CountLate(s: seq<Demand>, dates: seq<int>, perDay: real): nat {
    if s == [] then 0
    else CountLate(s[..|s| - 1], dates, perDay) + if LastIsLate(s, dates, perDay) then 1 else 0
  }

  /** The days of the list that an order due at `t` may use. */
  function DaysUpTo(dates: seq<int>, t: int): set<nat> { set i: nat | i < |dates| && dates[i] <= t }

  /** Position `k` of the queue is late: the work up to and with it is more than its days can hold. */
  predicate EndsLate(s: seq<Demand>, k: nat, dates: seq<int>, perDay: real)
    requires k < |s|
  {
    && s[k].neededBy.Some?
    && dates != []
    && Work(s[..k + 1]) > |DaysUpTo(dates, s[k].neededBy.value)| as real * perDay
  }

  function LateOnes(s: seq<Demand>, dates: seq<int>, perDay: real): set<nat> {
    set k: nat | k < |s| && EndsLate(s, k, dates, perDay)
  }

  lemma {:induction false} EdgeIsProduct(i: nat, perDay: real)
    ensures Edge(i, perDay) == i as real * perDay
  {
    if i > 0 {
      EdgeIsProduct(i - 1, perDay);
      assert i as real * perDay == (i - 1) as real * perDay + perDay;
    }
  }

  lemma {:induction false} DueDaysAreCounted(dates: seq<int>, t: int)
    ensures |DaysUpTo(dates, t)| == DueDays(dates, t)
  {
    if dates != [] {
      var n := |dates| - 1;
      DueDaysAreCounted(dates[..n], t);
      assert DaysUpTo(dates, t) == DaysUpTo(dates[..n], t) + if dates[n] <= t then {n} else {};
    }
  }

  /** The late count is the number of late positions. */
  lemma {:induction false} LateOnesAreCounted(s: seq<Demand>, dates: seq<int>, perDay: real)
    ensures |LateOnes(s, dates, perDay)| == CountLate(s, dates, perDay)
  {
    if s != [] {
      var n := |s| - 1;
      LateOnesAreCounted(s[..n], dates, perDay);
      LastEndsLate(s, dates, perDay);
      OneMoreLate(s, dates, perDay);
      hide EndsLate, LastIsLate;
    }
  }

  lemma OneMoreLate(s: seq<Demand>, dates: seq<int>, perDay: real)
    requires s != []
    ensures var n := |s| - 1;
            LateOnes(s, dates, perDay) ==
            LateOnes(s[..n], dates, perDay) + if EndsLate(s, n, dates, perDay) then {n} else {}
  {
    var n := |s| - 1;
    forall k: nat | k < n ensures EndsLate(s, k, dates, perDay) == EndsLate(s[..n], k, dates, perDay) {
      LateInPrefix(s, n, k, dates, perDay);
    }
    hide EndsLate;
  }

  lemma LateInPrefix(s: seq<Demand>, n: nat, k: nat, dates: seq<int>, perDay: real)
    requires k < n <= |s|
    ensures EndsLate(s, k, dates, perDay) == EndsLate(s[..n], k, dates, perDay)
  {
    assert s[..n][..k + 1] == s[..k + 1];
  }

  lemma LastEndsLate(s: seq<Demand>, dates: seq<int>, perDay: real)
    requires s != []
    ensures EndsLate(s, |s| - 1, dates, perDay) == LastIsLate(s, dates, perDay)
  {
    assert s[..|s|] == s;
    if s[|s| - 1].neededBy.Some? {
      DueDaysAreCounted(dates, s[|s| - 1].neededBy.value);
      EdgeIsProduct(DueDays(dates, s[|s| - 1].neededBy.value), perDay);
    }
  }

  lemma {:induction false} EdgeGrows(i: nat, j: nat, perDay: real)
    requires perDay > 0.0 && i < j
    ensures Edge(i, perDay) + perDay <= Edge(j, perDay)
    decreases j
  {
    if i + 1 < j { EdgeGrows(i, j - 1, perDay); }
  }

  lemma {:induction false} DueDaysIsPrefix(dates: seq<int>, t: int, i: nat)
    requires Ascending(dates) && i < |dates|
    ensures DueDays(dates, t) <= |dates|
    ensures dates[i] <= t <==> i < DueDays(dates, t)
    decreases |dates|
  {
    var n := |dates| - 1;
    var init := dates[..n];
    if n > 0 {
      DueDaysIsPrefix(init, t, if i < n then i else n - 1);
    } else {
      assert init == [];
    }
  }

  /** Once every day is full, more work changes no day. */
  lemma AllDaysFull(w: real, total: real, n: nat, perDay: real)
    requires perDay > 0.0 && Edge(n, perDay) <= w <= total
    ensures Loads(w, n, perDay) == Loads(total, n, perDay) && Packed(w, n, perDay) == Packed(total, n, perDay)
  {
    forall i | 0 <= i < n ensures DayLoad(w, i, perDay) == DayLoad(total, i, perDay) {
      EdgeGrows(i, i + 1, perDay);
      if i + 1 < n { EdgeGrows(i + 1, n, perDay); }
    }
  }

  /** Work that fits on day `c`, the day the queue has reached, lands on that day alone. */
  lemma OnlyThisDayFills(w: real, take: real, c: nat, n: nat, perDay: real)
    requires perDay > 0.0 && take >= 0.0 && c < n
    requires Edge(c, perDay) <= w && w + take <= Edge(c + 1, perDay)
    ensures Loads(w + take, n, perDay) == Loads(w, n, perDay)[c := DayLoad(w, c, perDay) + take]
    ensures Packed(w + take, n, perDay) == Packed(w, n, perDay) + take
  {
    forall i | 0 <= i < n && i != c ensures DayLoad(w + take, i, perDay) == DayLoad(w, i, perDay) {
      EdgeGrows(i, i + 1, perDay);
      if i < c {
        if i + 1 < c { EdgeGrows(i + 1, c, perDay); }
      } else if c + 1 < i {
        EdgeGrows(c + 1, i, perDay);
      }
    }
    if c + 1 < n { EdgeGrows(c + 1, n, perDay); }
  }

  lemma RoomLeft(w: real, c: nat, perDay: real)
    requires Edge(c, perDay) <= w <= Edge(c + 1, perDay)
    ensures DayLoad(w, c, perDay) == w - Edge(c, perDay) && Edge(c + 1, perDay) == Edge(c, perDay) + perDay
  {
  }

  /** The finishing day lies beyond the `due` admissible days exactly when the work outgrows them. */
  lemma LateTest(total: real, lastIdx: nat, due: nat, n: nat, perDay: real)
    requires perDay > 0.0 && due <= n && lastIdx <= n
    requires Edge(lastIdx, perDay) < total
    requires lastIdx < n ==> total <= Edge(lastIdx + 1, perDay)
    ensures lastIdx >= due <==> total > Edge(due, perDay)
  {
    if due < lastIdx {
      EdgeGrows(due, lastIdx, perDay);
    } else if lastIdx + 1 < due {
      EdgeGrows(lastIdx + 1, due, perDay);
    }
  }

  // -------------------------------------------------------------- the program

  /**
   * The inner loop: one order of `days` line-days is placed after `before`
   * line-days of earlier work. `lastIdx` is the day it ends on, or the number
   * of days when part of it does not fit.
   */
  method PlaceOrder(used: array<real>, cursor0: nat, days: real, perDay: real, ghost before: real)
    returns (cursor: nat, lastIdx: nat, spilled: real)
    requires perDay > 0.0 && days > 0.0 && QueueReaches(before, cursor0, used.Length, perDay)
    requires used[..] == Loads(before, used.Length, perDay)
    modifies used
    ensures QueueReaches(before + days, cursor, used.Length, perDay)
    ensures used[..] == Loads(before + days, used.Length, perDay)
    ensures spilled == days + Packed(before, used.Length, perDay) - Packed(before + days, used.Length, perDay)
    ensures lastIdx <= used.Length && Edge(lastIdx, perDay) < before + days
    ensures lastIdx < used.Length ==> before + days <= Edge(lastIdx + 1, perDay)
  {
    hide DayLoad, Packed, Edge;
    var left := days;
    cursor, lastIdx, spilled := cursor0, cursor0, 0.0;
    ghost var w := before;
    while left > 0.0
      invariant 0.0 <= left <= days && w == before + days - left
      invariant QueueReaches(w, cursor, used.Length, perDay)
      invariant used[..] == Loads(w, used.Length, perDay)
      invariant Packed(w, used.Length, perDay) == Packed(before, used.Length, perDay) + (days - left)
      invariant left == 0.0 ==> lastIdx == cursor < used.Length && Edge(cursor, perDay) < w
      decreases used.Length - cursor,
        if left == 0.0 then 0 else if cursor < used.Length && used[cursor] < perDay then 2 else 1
    {
      if cursor >= used.Length {
        AllDaysFull(w, before + days, used.Length, perDay);
        spilled := spilled + left;
        lastIdx := used.Length;
        break;
      }
      var room := perDay - used[cursor];
      RoomLeft(w, cursor, perDay);
      if room == 0.0 {
        cursor := cursor + 1;
        if cursor < used.Length { EdgeGrows(cursor, cursor + 1, perDay); }
        continue;
      }
      var take := if room < left then room else left;
      OnlyThisDayFills(w, take, cursor, used.Length, perDay);
      used[cursor] := used[cursor] + take;
      left := left - take;
      w := w + take;
      lastIdx := cursor;
    }
  }

  /** `w` line-days of work fill every day before `cursor` and no more than the day at `cursor`. */
  ghost predicate QueueReaches(w: real, cursor: nat, n: nat, perDay: real) {
    && cursor <= n
    && Edge(cursor, perDay) <= w
    && (cursor < n ==> w <= Edge(cursor + 1, perDay))
  }

  /** Packs the whole queue: `used`, `spill` and `late` are what the closed forms say. */
  method Pack(s: seq<Demand>, dates: seq<int>, perDay: real)
    returns (used: array<real>, cursor: nat, spill: real, late: nat)
    requires perDay > 0.0 && Ascending(dates)
    requires forall d :: d in s ==> d.days > 0.0
    ensures fresh(used) && used.Length == |dates|
    ensures used[..] == Loads(Work(s), |dates|, perDay)
    ensures spill == Work(s) - Packed(Work(s), |dates|, perDay)
    ensures late == CountLate(s, dates, perDay)
    ensures QueueReaches(Work(s), cursor, |dates|, perDay)
  {
    used := new real[|dates|](_ => 0.0);
    cursor, late, spill := 0, 0, 0.0;
    EmptyQueue(|dates|, perDay);
    for k := 0 to |s|
      invariant QueueReaches(Work(s[..k]), cursor, |dates|, perDay)
      invariant used[..] == Loads(Work(s[..k]), |dates|, perDay)
      invariant spill == Work(s[..k]) - Packed(Work(s[..k]), |dates|, perDay)
      invariant late == CountLate(s[..k], dates, perDay)
    {
      var d := s[k];
      ghost var done := s[..k + 1];
      assert done[..k] == s[..k] && done[k] == d;
      var next, lastIdx, spilled := PlaceOrder(used, cursor, d.days, perDay, Work(s[..k]));
      cursor, spill := next, spill + spilled;
      if d.neededBy.Some? && dates != [] {
        FinishAfterDeadline(done, dates, lastIdx, perDay);
        if lastIdx >= |dates| || dates[lastIdx] > d.neededBy.value {
          late := late + 1;
        }
      }
    }
    assert s[..|s|] == s;
  }

  lemma EmptyQueue(n: nat, perDay: real)
    requires perDay > 0.0
    ensures QueueReaches(0.0, 0, n, perDay) && Packed(0.0, n, perDay) == 0.0
    ensures Loads(0.0, n, perDay) == seq(n, _ => 0.0)
  {
    forall i | 0 < i <= n + 1 ensures Edge(i, perDay) > 0.0 {
      EdgeGrows(0, i, perDay);
    }
  }

  lemma FinishAfterDeadline(s: seq<Demand>, dates: seq<int>, lastIdx: nat, perDay: real)
    requires perDay > 0.0 && Ascending(dates) && dates != [] && s != [] && s[|s| - 1].neededBy.Some?
    requires lastIdx <= |dates| && Edge(lastIdx, perDay) < Work(s)
    requires lastIdx < |dates| ==> Work(s) <= Edge(lastIdx + 1, perDay)
    ensures (lastIdx >= |dates| || dates[lastIdx] > s[|s| - 1].neededBy.value) <==> LastIsLate(s, dates, perDay)
  {
    var t := s[|s| - 1].neededBy.value;
    DueDaysIsPrefix(dates, t, if lastIdx < |dates| then lastIdx else |dates| - 1);
    LateTest(Work(s), lastIdx, DueDays(dates, t), |dates|, perDay);
  }
}
