/** Time as the scheduling code sees it: a calendar day and a minute within it.
    Dates and times of day are compared and shifted exactly as the views do,
    without any calendar parsing (which stays outside the model). */
module Clock {
  const MINUTES_PER_DAY := 1440
  const SLOT_MINUTES := 60

  /** A time of day, 00:00 .. 23:59, as minutes since midnight. */
  type Minute = m: int | 0 <= m < 1440

  /** Monday is 0 and Sunday is 6, the numbering of `weekday()` and of `day_of_week`. */
  type Weekday = d: int | 0 <= d < 7

  /** A date and a time of day; `day` counts days from a fixed Monday (earlier dates are negative). */
  datatype Timestamp = Timestamp(day: int, minute: Minute)

  /** Minutes elapsed since midnight of the reference Monday. */
  function Absolute(t: Timestamp): int {
    t.day * MINUTES_PER_DAY + t.minute
  }

  /** Calendar order: an earlier day, or the same day and an earlier minute. */
  predicate Before(a: Timestamp, b: Timestamp) {
    a.day < b.day || (a.day == b.day && a.minute < b.minute)
  }

  /** The calendar order and the order of elapsed minutes agree. */
  lemma BeforeIsAbsoluteOrder(a: Timestamp, b: Timestamp)
    ensures Before(a, b) <==> Absolute(a) < Absolute(b)
  {
    if a.day < b.day {
      assert Absolute(a) < (a.day + 1) * MINUTES_PER_DAY <= Absolute(b);
    } else if a.day > b.day {
      assert Absolute(b) < (b.day + 1) * MINUTES_PER_DAY <= Absolute(a);
    }
  }

  /** `weekday()`: the day of the week, which repeats every seven days. */
  function WeekdayOf(t: Timestamp): (w: Weekday)
    ensures (t.day - w) % 7 == 0
  {
    t.day % 7
  }

  /** `t + timedelta(hours=1)`: sixty minutes later, on the next day from 23:00 on. */
  function PlusOneHour(t: Timestamp): (r: Timestamp)
    ensures Absolute(r) == Absolute(t) + SLOT_MINUTES
    ensures r.day == t.day || r.day == t.day + 1
  {
    if t.minute + SLOT_MINUTES < MINUTES_PER_DAY then Timestamp(t.day, t.minute + SLOT_MINUTES)
    else Timestamp(t.day + 1, t.minute + SLOT_MINUTES - MINUTES_PER_DAY)
  }

  /** `(t + timedelta(hours=1)).time()`: the end of the one-hour slot as a time of day.
      Only the time of day is kept, so from 23:00 on it wraps past midnight and is
      smaller than the slot's start. */
  function SlotEnd(t: Timestamp): (m: Minute)
    ensures m == (t.minute + SLOT_MINUTES) % MINUTES_PER_DAY
    ensures m < t.minute <==> t.minute >= MINUTES_PER_DAY - SLOT_MINUTES
  {
    PlusOneHour(t).minute
  }

  /** A slot that starts at 23:00 or later ends on the next weekday, although the
      filters that use `SlotEnd` compare it against the starting weekday's windows. */
  lemma {:induction false} LateSlotEndsNextWeekday(t: Timestamp)
    requires t.minute >= MINUTES_PER_DAY - SLOT_MINUTES
    ensures WeekdayOf(PlusOneHour(t)) == (WeekdayOf(t) + 1) % 7
  {
    var q := t.day / 7;
    assert t.day == 7 * q + WeekdayOf(t);
    if WeekdayOf(t) == 6 {
      assert t.day + 1 == 7 * (q + 1) + 0;
    } else {
      assert t.day + 1 == 7 * q + (WeekdayOf(t) + 1);
    }
  }
}
