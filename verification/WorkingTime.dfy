/**
 * Three loops that measure working time between two instants, day by day. Time
 * is in whole minutes; the zone is a constant number of minutes ahead of UTC.
 */
module WorkingTime {
  import opened Common

  const DAY := 1440
  const MAX_SPAN_DAYS := 60
  const MAX_LOOP_DAYS := 400

  /**
   * Working days are open weekdays (Sunday is 0) that are no holidays, from `open` to `close` minutes
   * past midnight.
   */
  datatype Calendar = Calendar(openDays: set<int>, holidays: set<int>, open: int, close: int) {
    predicate Sane() { 0 <= open <= DAY && close <= DAY }
  }

  function Weekday(day: int): int { (day + 4) % 7 }

  predicate OpenOn(c: Calendar, day: int) { Weekday(day) in c.openDays && day !in c.holidays }

  function LocalDay(t: int, offset: int): int { (t + offset) / DAY }

  function Midnight(day: int, offset: int): int { day * DAY - offset }

  /** Whether the minute that starts at `t` is working time. */
  predicate Working(t: int, c: Calendar, offset: int) {
    var day := LocalDay(t, offset);
    OpenOn(c, day) && c.open <= t - Midnight(day, offset) < c.close
  }

  /** 1970-01-01, day 0, was a Thursday. */
  lemma WeekdayIs(week: int, k: int)
    requires 0 <= k < 7
    ensures Weekday(7 * week + k) == if k < 3 then k + 4 else k - 3
  {
    assert 7 * week + k + 4 == if k < 3 then 7 * week + (k + 4) else 7 * (week + 1) + (k - 3);
  }

  /** Minute `minute` of a local day is working time on an open weekday that is no holiday, within the hours. */
  lemma WorkingExactly(day: int, minute: int, c: Calendar, offset: int)
    requires 0 <= minute < 1440
    ensures Working(1440 * day + minute - offset, c, offset) <==>
              c.open <= minute < c.close && Weekday(day) in c.openDays && day !in c.holidays
  {
    DayOf(1440 * day + minute - offset, day, offset);
    hide LocalDay, Weekday;
  }

  /** Working minutes in [from, to), counted one by one. */
  function Count(from: int, to: int, c: Calendar, offset: int): nat
    decreases to - from
  {
    if to <= from then 0 else Count(from, to - 1, c, offset) + if Working(to - 1, c, offset) then 1 else 0
  }

  lemma {:induction false} CountIsAdditive(x: int, y: int, z: int, c: Calendar, offset: int)
    requires x <= y <= z
    ensures Count(x, z, c, offset) == Count(x, y, c, offset) + Count(y, z, c, offset)
    decreases z - y
  {
    hide Working;
    if y < z { CountIsAdditive(x, y, z - 1, c, offset); }
  }

  lemma DayOf(t: int, day: int, offset: int)
    requires Midnight(day, offset) <= t < Midnight(day + 1, offset)
    ensures LocalDay(t, offset) == day
  {
  }

  /** The overlap of [x, y) with one day's window, which is what the loops add. */
  function Overlap(x: int, y: int, day: int, c: Calendar, offset: int): int {
    if !OpenOn(c, day) then 0
    else Max(0, Min(Midnight(day, offset) + c.close, y) - Max(Midnight(day, offset) + c.open, x))
  }

  /** Within one day, counting minutes is taking the overlap. */
  lemma {:induction false} CountInDay(x: int, y: int, day: int, c: Calendar, offset: int)
    requires c.Sane() && Midnight(day, offset) <= x <= y <= Midnight(day + 1, offset)
    ensures Count(x, y, c, offset) == Overlap(x, y, day, c, offset)
    decreases y - x
  {
    if x < y {
      CountInDay(x, y - 1, day, c, offset);
      DayOf(y - 1, day, offset);
      hide OpenOn, LocalDay, Midnight;
    }
  }

  /** What one turn of a loop adds: the day's part of [x, y), wherever the day lies. */
  lemma OneDay(x: int, y: int, day: int, c: Calendar, offset: int)
    requires c.Sane() && x <= y && LocalDay(x, offset) <= day
    ensures Count(x, Min(y, Max(x, Midnight(day + 1, offset))), c, offset) ==
            Count(x, Min(y, Max(x, Midnight(day, offset))), c, offset) + Overlap(x, y, day, c, offset)
  {
    var lo, hi := Min(y, Max(x, Midnight(day, offset))), Min(y, Max(x, Midnight(day + 1, offset)));
    assert x < Midnight(day + 1, offset);
    CountIsAdditive(x, lo, hi, c, offset);
    if Midnight(day, offset) <= y {
      CountInDay(lo, hi, day, c, offset);
    }
    hide Count, OpenOn, LocalDay;
  }

  // ------------------------------------------------------ the approvals inbox

  /** Every day but one, the same hours each day. */
  function Weekly(startHour: int, endHour: int, offDay: int): Calendar {
    Calendar({0, 1, 2, 3, 4, 5, 6} - {offDay}, {}, startHour * 60, endHour * 60)
  }

  /** Spans over sixty days are cut to their last sixty. */
  function SpanStart(from: int, to: int, offset: int): int {
    Max(from, if LocalDay(to, offset) - LocalDay(from, offset) > MAX_SPAN_DAYS
              then Midnight(LocalDay(to, offset) - MAX_SPAN_DAYS, offset) else from)
  }

  /** What the inbox measures: the working minutes from the start of the span on. */
  function InboxMinutes(from: int, to: int, c: Calendar, offset: int): nat {
    Count(SpanStart(from, to, offset), to, c, offset)
  }

  method WorkingMinutesBetween(from: int, to: int, startHour: int, endHour: int, offDay: int, offset: int)
      returns (total: int)
    requires 0 <= startHour <= 24 && endHour <= 24
    ensures total == InboxMinutes(from, to, Weekly(startHour, endHour, offDay), offset)
    ensures LocalDay(to, offset) - LocalDay(from, offset) <= 60 ==>
              total == Count(from, to, Weekly(startHour, endHour, offDay), offset)
  {
    ghost var c, x := Weekly(startHour, endHour, offDay), SpanStart(from, to, offset);
    total := 0;
    SpanFacts(from, to, offset);
    NothingCounted(from, to, x, c, offset);
    if !(to > from) {
      return;
    }
    var day, last := LocalDay(from, offset), LocalDay(to, offset);
    if last - day > MAX_SPAN_DAYS {
      day := last - MAX_SPAN_DAYS;
    }
    hide SpanStart, Count, LocalDay, Weekly, OpenOn;
    while day <= last
      invariant LocalDay(x, offset) <= day <= last + 1 && (x == from || x <= Midnight(day, offset))
      invariant total == Count(x, Min(to, Max(x, Midnight(day, offset))), c, offset)
      decreases last - day
    {
      OneDay(x, to, day, c, offset);
      WeeklyOverlap(x, from, to, startHour, endHour, offDay, day, offset);
      if Weekday(day) == offDay {
        day := day + 1;
        continue;
      }
      var start := Max(Midnight(day, offset) + startHour * 60, from);
      var end := Min(Midnight(day, offset) + endHour * 60, to);
      if end > start {
        total := total + (end - start);
      }
      day := day + 1;
    }
  }

  lemma SpanFacts(from: int, to: int, offset: int)
    ensures var x := SpanStart(from, to, offset);
            var cut := LocalDay(to, offset) - LocalDay(from, offset) > MAX_SPAN_DAYS;
            && x >= from && (to > from ==> x <= to)
            && (if cut then x == Midnight(LocalDay(to, offset) - MAX_SPAN_DAYS, offset) else x == from)
            && LocalDay(x, offset) == (if cut then LocalDay(to, offset) - MAX_SPAN_DAYS else LocalDay(from, offset))
    ensures to > from ==> LocalDay(from, offset) <= LocalDay(to, offset)
    ensures Midnight(LocalDay(to, offset), offset) <= to < Midnight(LocalDay(to, offset) + 1, offset)
    ensures Midnight(LocalDay(from, offset), offset) <= from
  {
  }

  lemma NothingCounted(from: int, to: int, x: int, c: Calendar, offset: int)
    ensures to <= from <= x ==> Count(x, to, c, offset) == 0 && Count(from, to, c, offset) == 0
    ensures Count(x, x, c, offset) == 0
  {
  }

  lemma WeeklyOverlap(x: int, from: int, to: int, startHour: int, endHour: int, offDay: int, day: int, offset: int)
    requires 0 <= startHour && x >= from && (x == from || x <= Midnight(day, offset))
    ensures Weekly(startHour, endHour, offDay).open == startHour * 60
            && Weekly(startHour, endHour, offDay).close == endHour * 60
    ensures Overlap(x, to, day, Weekly(startHour, endHour, offDay), offset) ==
            if Weekday(day) == offDay then 0
            else
              Max(0, Min(Midnight(day, offset) + endHour * 60, to) - Max(Midnight(day, offset) + startHour * 60, from))
  {
  }

  /** A longer wait is never measured shorter, and intervals add up, while the span is short enough not to be cut. */
  lemma InboxTimeAddsUp(x: int, y: int, z: int, startHour: int, endHour: int, offDay: int, offset: int)
    requires x <= y <= z && LocalDay(z, offset) - LocalDay(x, offset) <= 60
    ensures var c := Weekly(startHour, endHour, offDay);
            && InboxMinutes(x, z, c, offset) == InboxMinutes(x, y, c, offset) + InboxMinutes(y, z, c, offset)
            && InboxMinutes(x, y, c, offset) <= InboxMinutes(x, z, c, offset)
  {
    CountIsAdditive(x, y, z, Weekly(startHour, endHour, offDay), offset);
    hide Count;
  }

  /** A day on which nothing of a span that starts at `x` is working time: a day off, or its hours are over. */
  predicate Idle(x: int, day: int, c: Calendar, offset: int) { !OpenOn(c, day) || x >= Midnight(day, offset) + c.close }

  lemma IdleDay(x: int, day: int, c: Calendar, offset: int)
    requires c.Sane() && c.open < c.close && LocalDay(x, offset) <= day
    ensures x <= Midnight(day + 1, offset) && Overlap(x, Midnight(day + 1, offset), day, c, offset) >= 0
    ensures Overlap(x, Midnight(day + 1, offset), day, c, offset) == 0 <==> Idle(x, day, c, offset)
  {
    hide OpenOn;
  }

  lemma {:induction false} OnlyIdleDays(x: int, day: int, c: Calendar, offset: int)
    requires c.Sane() && c.open < c.close && LocalDay(x, offset) <= day
    ensures Count(x, Max(x, Midnight(day, offset)), c, offset) == 0 <==>
            forall d :: LocalDay(x, offset) <= d < day ==> Idle(x, d, c, offset)
    decreases day - LocalDay(x, offset)
  {
    SpanFacts(x, x, offset);
    hide Idle, Overlap, OpenOn, LocalDay;
    if day == LocalDay(x, offset) {
      NothingCounted(x, x, x, c, offset);
      hide Count;
    } else {
      hide Count;
      OnlyIdleDays(x, day - 1, c, offset);
      IdleDay(x, day - 1, c, offset);
      OneDay(x, Midnight(day, offset), day - 1, c, offset);
    }
  }

  /**
   * Exactly when an inbox wait is measured in full: it spans at most sixty days,
   * or each day that is cut off is the weekly day off, or is the first one and
   * its hours were over when the wait began.
   */
  lemma CutIsHarmlessExactly(from: int, to: int, startHour: int, endHour: int, offDay: int, offset: int)
    requires from <= to && 0 <= startHour < endHour <= 24
    ensures var c := Weekly(startHour, endHour, offDay);
            var first, last := LocalDay(from, offset), LocalDay(to, offset);
            InboxMinutes(from, to, c, offset) == Count(from, to, c, offset) <==>
              || last - first <= 60
              || forall day :: first <= day < last - 60 ==>
                   Weekday(day) == offDay || (day == first && from >= Midnight(day, offset) + endHour * 60)
  {
    var c := Weekly(startHour, endHour, offDay);
    var first, last := LocalDay(from, offset), LocalDay(to, offset);
    SpanFacts(from, to, offset);
    if last - first > MAX_SPAN_DAYS {
      var x := SpanStart(from, to, offset);
      CountIsAdditive(from, x, to, c, offset);
      OnlyIdleDays(from, last - MAX_SPAN_DAYS, c, offset);
      forall day | first <= day
        ensures Idle(from, day, c, offset) <==>
                  Weekday(day) == offDay || (day == first && from >= Midnight(day, offset) + endHour * 60)
      {
        WeeklyIdle(from, day, startHour, endHour, offDay, offset);
      }
    }
    hide Count, SpanStart, Idle;
  }

  lemma WeeklyIdle(x: int, day: int, startHour: int, endHour: int, offDay: int, offset: int)
    requires 0 <= startHour < endHour <= 24 && LocalDay(x, offset) <= day
    ensures Idle(x, day, Weekly(startHour, endHour, offDay), offset) <==>
            Weekday(day) == offDay || (day == LocalDay(x, offset) && x >= Midnight(day, offset) + endHour * 60)
  {
  }

  // ------------------------------------------------------------------ the chat

  /** What the chat measures. */
  function ChatMinutes(start: int, end: int, c: Calendar, offset: int): nat {
    Count(start, Min(end, Midnight(LocalDay(start, offset) + MAX_LOOP_DAYS, offset)), c, offset)
  }

  /** Business minutes for the chat: holidays are closed, and no more than 400 days are looked at. */
  method BusinessMinutesBetween(start: int, end: int, c: Calendar, offset: int) returns (total: int)
    requires c.Sane()
    ensures total == ChatMinutes(start, end, c, offset)
    ensures total == Count(start, Min(end, 1440 * (LocalDay(start, offset) + 400) - offset), c, offset)
  {
    total := 0;
    SpanFacts(start, start, offset);
    NothingCounted(start, end, start, c, offset);
    ghost var first := LocalDay(start, offset);
    MidnightGrows(first, first + MAX_LOOP_DAYS, offset);
    if !(end > start) {
      return;
    }
    var cursor := LocalDay(start, offset);
    hide Count, LocalDay, OpenOn;
    for i := 0 to MAX_LOOP_DAYS
      invariant cursor == first + i
      invariant total == Count(start, Min(end, Max(start, Midnight(cursor, offset))), c, offset)
    {
      OneDay(start, end, cursor, c, offset);
      var windowStart := Midnight(cursor, offset) + c.open;
      if windowStart >= end {
        LateWindow(start, end, cursor, first + MAX_LOOP_DAYS, c, offset);
        return;
      }
      if OpenOn(c, cursor) {
        var windowEnd := Midnight(cursor, offset) + c.close;
        var overlap := Min(end, windowEnd) - Max(start, windowStart);
        if overlap > 0 {
          total := total + overlap;
        }
      }
      OverlapIs(start, end, cursor, c, offset);
      cursor := cursor + 1;
    }
  }

  lemma MidnightGrows(day: int, later: int, offset: int)
    requires day < later
    ensures Midnight(day, offset) + DAY <= Midnight(later, offset)
  {
  }

  lemma OverlapIs(x: int, y: int, day: int, c: Calendar, offset: int)
    ensures Overlap(x, y, day, c, offset) ==
            if OpenOn(c, day)
            then Max(0, Min(y, Midnight(day, offset) + c.close) - Max(x, Midnight(day, offset) + c.open)) else 0
  {
    hide OpenOn;
  }

  /** When a day's window opens after the end, neither it nor any later day adds anything. */
  lemma LateWindow(x: int, y: int, day: int, bound: int, c: Calendar, offset: int)
    requires c.Sane() && x < y && LocalDay(x, offset) <= day < bound && Midnight(day, offset) + c.open >= y
    ensures Count(x, Min(y, Midnight(bound, offset)), c, offset) ==
            Count(x, Min(y, Max(x, Midnight(day, offset))), c, offset)
  {
    OneDay(x, y, day, c, offset);
    MidnightGrows(day, bound, offset);
    assert Midnight(day + 1, offset) >= y;
    hide Count, OpenOn;
  }

  // -------------------------------------------------------- the operations desk

  /** Hundredths of an hour, rounded half up. */
  function HourHundredths(minutes: int): int { (minutes * 200 + 60) / 120 }

  /** What the desk measures: the same minutes without holidays, as hundredths of an hour. */
  function DeskHundredths(from: int, to: int, c: Calendar, offset: int): int {
    HourHundredths(ChatMinutes(from, to, c.(holidays := {}), offset))
  }

  /** Working hours on the local wall clock, Friday off, in hundredths of an hour. */
  method WorkingHoursBetween(from: int, to: int, startHour: int, endHour: int, openDays: set<int>, offset: int)
      returns (hours: int)
    requires 0 <= startHour <= 24 && endHour <= 24
    ensures hours == DeskHundredths(from, to, Calendar(openDays, {}, startHour * 60, endHour * 60), offset)
    ensures var c := Calendar(openDays, {}, startHour * 60, endHour * 60);
            var minutes := Count(from, Min(to, 1440 * (LocalDay(from, offset) + 400) - offset), c, offset);
            -30 < 60 * hours - 100 * minutes <= 30
  {
    ghost var c := Calendar(openDays, {}, startHour * 60, endHour * 60);
    SpanFacts(from, from, offset);
    NothingCounted(from, to, from, c, offset);
    ghost var first := LocalDay(from, offset);
    MidnightGrows(first, first + MAX_LOOP_DAYS, offset);
    if !(to > from) {
      return 0;
    }
    var a, b := from + offset, to + offset;
    var total := 0;
    var day := LocalDay(from, offset);
    assert day == a / DAY;
    hide Count, LocalDay, OpenOn;
    var i := 0;
    while day * DAY <= b && i < MAX_LOOP_DAYS
      invariant 0 <= i <= MAX_LOOP_DAYS && day == first + i
      invariant total == Count(from, Min(to, Max(from, Midnight(day, offset))), c, offset)
      decreases MAX_LOOP_DAYS - i
    {
      OneDay(from, to, day, c, offset);
      OverlapIs(from, to, day, c, offset);
      NoHoliday(c, day);
      if Weekday(day) in openDays {
        var start := Max(a, day * DAY + startHour * 60);
        var end := Min(b, day * DAY + endHour * 60);
        if end > start {
          total := total + (end - start);
        }
      }
      i, day := i + 1, day + 1;
    }
    if day < first + MAX_LOOP_DAYS { MidnightGrows(day, first + MAX_LOOP_DAYS, offset); }
    hours := HourHundredths(total);
  }

  lemma NoHoliday(c: Calendar, day: int)
    requires c.holidays == {}
    ensures OpenOn(c, day) <==> Weekday(day) in c.openDays
  {
  }

  /**
   * The three measures agree: on one calendar without holidays and over a span
   * of at most sixty days, inbox and chat count the same minutes, and the desk
   * reports them to the nearest hundredth of an hour.
   */
  lemma MeasuresAgree(from: int, to: int, startHour: int, endHour: int, offDay: int, offset: int)
    requires LocalDay(to, offset) - LocalDay(from, offset) <= 60
    ensures var c := Weekly(startHour, endHour, offDay);
            var minutes := Count(from, to, c, offset);
            && InboxMinutes(from, to, c, offset) == minutes
            && ChatMinutes(from, to, c, offset) == minutes
            && -30 < 60 * DeskHundredths(from, to, c, offset) - 100 * minutes <= 30
  {
    SpanFacts(from, to, offset);
    MidnightGrows(LocalDay(to, offset), LocalDay(from, offset) + MAX_LOOP_DAYS, offset);
    hide Count;
    assert Weekly(startHour, endHour, offDay).(holidays := {}) == Weekly(startHour, endHour, offDay);
  }
}
