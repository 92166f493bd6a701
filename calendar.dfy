/**
 * Calendar rules of the booking engine: which weekdays belong to which batch,
 * the weekend rule, and the 12:00 cutoff after which floating seats open.
 *
 * A date is a day number counted from 1970-01-01 in local time, and an
 * instant is a number of minutes since 1970-01-01 00:00 local time, so day
 * `d` starts at minute `d * 1440`. Weekdays are numbered like JavaScript's
 * `Date.prototype.getDay`: 0 is Sunday, 6 is Saturday.
 */
module Calendar {

  type Day = int
  type Instant = int

  const MinutesPerDay: int := 1440
  const NoonMinute: int := 720

  const Sunday: int := 0
  const Monday: int := 1
  const Wednesday: int := 3
  const Thursday: int := 4
  const Friday: int := 5
  const Saturday: int := 6

  /** Day of the week of `d`; 1970-01-01 was a Thursday. */
  function Weekday(d: Day): (w: int)
    ensures Sunday <= w <= Saturday
  {
    (d + 4) % 7
  }

  predicate IsWeekend(d: Day) {
    Weekday(d) == Sunday || Weekday(d) == Saturday
  }

  function StartOf(d: Day): Instant {
    d * MinutesPerDay
  }

  function NoonOf(d: Day): Instant {
    d * MinutesPerDay + NoonMinute
  }

  /**
   * Whether `d` is a designated day of `batch`: batch 1 comes in on
   * Monday to Wednesday, batch 2 on Thursday and Friday, and no batch on a
   * weekend.
   */
  function IsDesignatedProcessingDay(batch: int, d: Day): (r: bool)
    ensures r <==> ((batch == 1 && Monday <= Weekday(d) <= Wednesday)
                    || (batch == 2 && Thursday <= Weekday(d) <= Friday))
  {
    var day := Weekday(d);
    if day == Sunday || day == Saturday then false
    else if batch == 1 then day in [1, 2, 3]
    else if batch == 2 then day in [4, 5]
    else false
  }

  /** Number of designated days of `batch` among the `n` days starting at `start`. */
  function DesignatedDaysIn(batch: int, start: Day, n: nat): (c: nat)
    ensures c <= n
    decreases n
  {
    if n == 0 then 0
    else DesignatedDaysIn(batch, start, n - 1) + Indicator(IsDesignatedProcessingDay(batch, start + n - 1))
  }

  /**
   * The two batches share out the working week: every week-long window holds
   * three designated days of batch 1, two of batch 2 and none of any other
   * batch.
   */
  lemma {:induction false} EveryWeekSplitsThreeTwo(batch: int, start: Day)
    ensures DesignatedDaysIn(batch, start, 7) == if batch == 1 then 3 else if batch == 2 then 2 else 0
  {
    var w := Weekday(start);
    DesignatedDaysInSeven(batch, start);
    ShiftedWeekday(batch, start, 1);
    ShiftedWeekday(batch, start, 2);
    ShiftedWeekday(batch, start, 3);
    ShiftedWeekday(batch, start, 4);
    ShiftedWeekday(batch, start, 5);
    ShiftedWeekday(batch, start, 6);
    assert IsDesignatedProcessingDay(batch, start) == DesignatedOnWeekday(batch, w % 7);
    WeekFromAnyWeekday(batch, w);
  }

  /** Whether weekday `day` (0..6) is a designated day of `batch`. */
  predicate DesignatedOnWeekday(batch: int, day: int) {
    (batch == 1 && Monday <= day <= Wednesday) || (batch == 2 && Thursday <= day <= Friday)
  }

  lemma ShiftedWeekday(batch: int, start: Day, k: nat)
    ensures IsDesignatedProcessingDay(batch, start + k) == DesignatedOnWeekday(batch, (Weekday(start) + k) % 7)
  {
    WeekdayAfter(start, k);
  }

  /** The seven weekdays from `w` on hold three designated days of batch 1 and two of batch 2. */
  lemma WeekFromAnyWeekday(batch: int, w: int)
    requires Sunday <= w <= Saturday
    ensures Indicator(DesignatedOnWeekday(batch, w % 7))
          + Indicator(DesignatedOnWeekday(batch, (w + 1) % 7))
          + Indicator(DesignatedOnWeekday(batch, (w + 2) % 7))
          + Indicator(DesignatedOnWeekday(batch, (w + 3) % 7))
          + Indicator(DesignatedOnWeekday(batch, (w + 4) % 7))
          + Indicator(DesignatedOnWeekday(batch, (w + 5) % 7))
          + Indicator(DesignatedOnWeekday(batch, (w + 6) % 7))
         == if batch == 1 then 3 else if batch == 2 then 2 else 0
  {
    if w == 0 {
    } else if w == 1 {
    } else if w == 2 {
    } else if w == 3 {
    } else if w == 4 {
    } else if w == 5 {
    } else {
    }
  }

  /** No day is a designated day of both batches. */
  lemma NoDayDesignatedForBoth(d: Day)
    ensures !(IsDesignatedProcessingDay(1, d) && IsDesignatedProcessingDay(2, d))
  {
  }

  lemma WeekdayAfter(d: Day, k: nat)
    ensures Weekday(d + k) == (Weekday(d) + k) % 7
  {
    var q := (d + 4) / 7;
    assert d + 4 == 7 * q + Weekday(d);
    assert d + k + 4 == 7 * q + (Weekday(d) + k);
  }

  function Indicator(b: bool): nat {
    if b then 1 else 0
  }

  lemma DesignatedDaysInSeven(batch: int, start: Day)
    ensures DesignatedDaysIn(batch, start, 7)
         == Indicator(IsDesignatedProcessingDay(batch, start))
          + Indicator(IsDesignatedProcessingDay(batch, start + 1))
          + Indicator(IsDesignatedProcessingDay(batch, start + 2))
          + Indicator(IsDesignatedProcessingDay(batch, start + 3))
          + Indicator(IsDesignatedProcessingDay(batch, start + 4))
          + Indicator(IsDesignatedProcessingDay(batch, start + 5))
          + Indicator(IsDesignatedProcessingDay(batch, start + 6))
  {
    assert DesignatedDaysIn(batch, start, 1) == Indicator(IsDesignatedProcessingDay(batch, start));
    assert DesignatedDaysIn(batch, start, 2) == DesignatedDaysIn(batch, start, 1) + Indicator(IsDesignatedProcessingDay(batch, start + 1));
    assert DesignatedDaysIn(batch, start, 3) == DesignatedDaysIn(batch, start, 2) + Indicator(IsDesignatedProcessingDay(batch, start + 2));
    assert DesignatedDaysIn(batch, start, 4) == DesignatedDaysIn(batch, start, 3) + Indicator(IsDesignatedProcessingDay(batch, start + 3));
    assert DesignatedDaysIn(batch, start, 5) == DesignatedDaysIn(batch, start, 4) + Indicator(IsDesignatedProcessingDay(batch, start + 4));
    assert DesignatedDaysIn(batch, start, 6) == DesignatedDaysIn(batch, start, 5) + Indicator(IsDesignatedProcessingDay(batch, start + 5));
  }

  /** The day whose noon is the cutoff for `d`: the Friday before a Monday, else the previous day. */
  function CutoffDay(d: Day): Day {
    if Weekday(d) == Monday then d - 3 else d - 1
  }

  /**
   * The instant after which floating seats for `d` may be booked, which is
   * also the instant after which its unbooked designated seats are released.
   */
  function CutoffInstant(d: Day): (t: Instant)
    ensures StartOf(d) - 3 * MinutesPerDay < t < StartOf(d)
  {
    NoonOf(CutoffDay(d))
  }

  predicate IsAfterCutoff(d: Day, now: Instant) {
    now > CutoffInstant(d)
  }

  /**
   * For a working day, the cutoff falls at noon of the closest earlier
   * working day: everything strictly between that day and `d` is weekend.
   */
  lemma CutoffOnPreviousWorkingDay(d: Day)
    requires !IsWeekend(d)
    ensures CutoffDay(d) < d && !IsWeekend(CutoffDay(d))
    ensures forall k :: CutoffDay(d) < k < d ==> IsWeekend(k)
    ensures CutoffInstant(d) == NoonOf(CutoffDay(d))
  {
    WeekdayAfter(d - 3, 1);
    WeekdayAfter(d - 3, 2);
    WeekdayAfter(d - 3, 3);
  }

  // ---------------------------------------------------------------------------
  // The release instant as releaseUnbookedDesignatedSeats computes it, through
  // JavaScript's Date.prototype.setDate, which reads the day of the month.

  /** Day of the 400-year era (0..146096) that `d` falls on, the era starting on a 1 March. */
  function DayOfEra(d: Day): int {
    var z := d + 719468;
    z - (z / 146097) * 146097
  }

  /** The days of an era with its leap days taken out. */
  function LeapDaysRemoved(doe: int): int {
    doe - doe / 1460 + doe / 36524 - doe / 146096
  }

  /** Year of the era (0..399) that day `doe` of the era lies in. */
  function YearOfEra(doe: int): int {
    LeapDaysRemoved(doe) / 365
  }

  /** The day of the era on which year `yoe` of the era starts. */
  function YearStartInEra(yoe: int): int {
    365 * yoe + yoe / 4 - yoe / 100
  }

  /** Day of the month of day `doy` of a year that starts on 1 March. */
  function DayOfMonthInYear(doy: int): int {
    var shiftedMonth := (5 * doy + 2) / 153;
    doy - (153 * shiftedMonth + 2) / 5 + 1
  }

  /** Day of the month (1..31) of `d` in the proleptic Gregorian calendar. */
  function DayOfMonth(d: Day): int {
    var doe := DayOfEra(d);
    DayOfMonthInYear(doe - YearStartInEra(YearOfEra(doe)))
  }

  lemma DayOfMonthInYearBounds(doy: int)
    ensures 1 <= DayOfMonthInYear(doy) <= 31
  {
  }

  /** Within a year, the day of the month steps down by one, or the day is a first. */
  lemma DayOfMonthInYearStep(doy: int)
    ensures DayOfMonthInYear(doy) == 1 || DayOfMonthInYear(doy - 1) == DayOfMonthInYear(doy) - 1
  {
  }

  /** Fewer leap days than days are removed, so more days of the era never give fewer. */
  lemma LeapDaysRemovedMonotone(x: int, y: int)
    requires 0 <= x <= y <= 146096
    ensures LeapDaysRemoved(x) <= LeapDaysRemoved(y)
  {
  }

  /** Year `yoe` of the era starts on day YearStartInEra(yoe), where exactly 365 * yoe non-leap days have passed. */
  lemma YearStartsWhereItShould(yoe: int)
    requires 0 <= yoe <= 399
    ensures 0 <= YearStartInEra(yoe) <= 146096
    ensures LeapDaysRemoved(YearStartInEra(yoe)) == 365 * yoe
  {
    var a, r := yoe / 4, yoe % 4;
    var c, m := yoe / 100, yoe % 100;
    var doe := YearStartInEra(yoe);
    assert 0 <= c <= a <= 99 && 0 <= r <= 3 && m / 4 <= 24;
    assert doe == 1460 * a + (365 * r + a - c);
    assert 0 <= 365 * r + a - c < 1460;
    assert doe / 1460 == a;
    assert doe == 36524 * c + (365 * m + m / 4);
    assert 0 <= 365 * m + m / 4 < 36524;
    assert doe / 36524 == c;
    assert doe / 146096 == 0;
  }

  /** The day before a year of the era starts still belongs to the year before. */
  lemma DayBeforeYearStart(yoe: int)
    requires 1 <= yoe <= 399
    ensures LeapDaysRemoved(YearStartInEra(yoe) - 1) < 365 * yoe
  {
    var a, r := yoe / 4, yoe % 4;
    var c, m := yoe / 100, yoe % 100;
    var doe := YearStartInEra(yoe) - 1;
    assert 0 <= c <= a <= 99 && 0 <= r <= 3 && m / 4 <= 24;
    assert doe == 1460 * a + (365 * r + a - c - 1);
    assert doe == 36524 * c + (365 * m + m / 4 - 1);
    if m == 0 {
      assert c >= 1 && r == 0 && a == 25 * c;
      assert 0 <= a - c - 1 < 1460;
      assert doe / 1460 == a;
      assert doe / 36524 == c - 1;
    } else {
      assert doe / 36524 == c;
      if r == 0 && a == c {
        assert false;
      }
      assert 0 <= 365 * r + a - c - 1 < 1460;
      assert doe / 1460 == a;
    }
    assert doe / 146096 == 0;
  }

  /** Where the year of the era changes from one day to the next, the later day starts its year. */
  lemma YearChangesAtYearStart(doe: int)
    requires 1 <= doe <= 146096
    requires YearOfEra(doe - 1) != YearOfEra(doe)
    ensures doe == YearStartInEra(YearOfEra(doe))
  {
    var y := YearOfEra(doe);
    assert 0 <= y <= 399;
    YearStartsWhereItShould(y);
    if y > 0 {
      DayBeforeYearStart(y);
    }
    var start := YearStartInEra(y);
    if doe - 1 >= start {
      LeapDaysRemovedMonotone(start, doe - 1);
      LeapDaysRemovedMonotone(doe - 1, doe);
      assert false;
    } else if doe < start {
      LeapDaysRemovedMonotone(doe, start - 1);
      assert false;
    }
  }

  /** The day before a day that does not start an era is the day before it in the same era. */
  lemma DayOfEraStep(d: Day)
    ensures 0 <= DayOfEra(d) <= 146096
    ensures DayOfEra(d) != 0 ==> DayOfEra(d - 1) == DayOfEra(d) - 1
  {
  }

  /** The day of the month of `d`, through its day of the year. */
  lemma DayOfMonthThroughYear(d: Day)
    ensures DayOfMonth(d) == DayOfMonthInYear(DayOfEra(d) - YearStartInEra(YearOfEra(DayOfEra(d))))
    ensures 1 <= DayOfMonth(d) <= 31
  {
    DayOfMonthInYearBounds(DayOfEra(d) - YearStartInEra(YearOfEra(DayOfEra(d))));
  }

  /** A day that starts an era, or a year of it, is a first of the month. */
  lemma FirstOfYearIsFirstOfMonth(d: Day)
    requires DayOfEra(d) == YearStartInEra(YearOfEra(DayOfEra(d)))
    ensures DayOfMonth(d) == 1
  {
    DayOfMonthThroughYear(d);
  }

  /** The day before a day within the same year of the era is one day earlier in that year. */
  lemma DayBeforeInSameYear(d: Day)
    requires DayOfEra(d) != 0 && YearOfEra(DayOfEra(d) - 1) == YearOfEra(DayOfEra(d))
    ensures DayOfMonth(d) == 1 || DayOfMonth(d - 1) == DayOfMonth(d) - 1
  {
    var doe := DayOfEra(d);
    var doy := doe - YearStartInEra(YearOfEra(doe));
    DayOfEraStep(d);
    DayOfMonthThroughYear(d);
    DayOfMonthThroughYear(d - 1);
    DayOfMonthInYearStep(doy);
  }

  /** The day of the month steps down by one from one day to the previous one, unless the day is a first. */
  lemma DayOfMonthStep(d: Day)
    ensures 1 <= DayOfMonth(d) <= 31
    ensures DayOfMonth(d) == 1 || DayOfMonth(d - 1) == DayOfMonth(d) - 1
  {
    var doe := DayOfEra(d);
    DayOfMonthThroughYear(d);
    DayOfEraStep(d);
    if doe == 0 {
      assert YearOfEra(doe) == 0;
      FirstOfYearIsFirstOfMonth(d);
    } else if YearOfEra(doe - 1) == YearOfEra(doe) {
      DayBeforeInSameYear(d);
    } else {
      YearChangesAtYearStart(doe);
      FirstOfYearIsFirstOfMonth(d);
    }
  }

  /**
   * `setDate(n)` on a date on day `x`: day `n` of the month that `x` lies in,
   * counting on from the first of that month when `n` is out of range.
   */
  function SetDate(x: Day, n: int): Day {
    x - DayOfMonth(x) + n
  }

  /**
   * The cutoff as bookSeat computes it: a copy of the booking date moved,
   * within its own month, to its day of the month minus 3 or minus 1.
   */
  lemma CutoffIsSetDateOfBookingDate(d: Day)
    ensures CutoffInstant(d)
         == NoonOf(SetDate(d, DayOfMonth(d) - (if Weekday(d) == Monday then 3 else 1)))
  {
  }

  /**
   * The release instant as written: the date is first moved to the previous
   * day, and on a Monday `setDate(dayOfMonth - 3)` is then applied to that
   * already moved date, whose month differs when the Monday is the first.
   */
  function ReleaseTimeAsWritten(d: Day): (t: Instant)
    ensures Weekday(d) != Monday ==> t == CutoffInstant(d)
  {
    var previous := SetDate(d, DayOfMonth(d) - 1);
    var moved := if Weekday(d) == Monday then SetDate(previous, DayOfMonth(d) - 3) else previous;
    NoonOf(moved)
  }

  /** When the day before `d` lies in the same month, the written release instant is the cutoff. */
  lemma ReleaseTimeAsWrittenWithinMonth(d: Day)
    requires DayOfMonth(d - 1) == DayOfMonth(d) - 1
    ensures ReleaseTimeAsWritten(d) == CutoffInstant(d)
  {
  }

  /**
   * The written release instant is never later than the cutoff, and it is
   * earlier exactly on a Monday that is the first of its month. So once the
   * cutoff has passed, the written release instant has passed too.
   */
  lemma ReleaseTimeAsWrittenNeverLate(d: Day)
    ensures ReleaseTimeAsWritten(d) <= CutoffInstant(d)
    ensures ReleaseTimeAsWritten(d) < CutoffInstant(d) <==> Weekday(d) == Monday && DayOfMonth(d) == 1
  {
    DayOfMonthStep(d);
    DayOfMonthStep(d - 1);
  }

  /**
   * Monday 2021-03-01 (day 18687): the written release instant is noon of
   * 2021-01-29 (day 18656), four weeks before the cutoff at noon of Friday
   * 2021-02-26 (day 18684).
   */
  lemma ReleaseTimeAsWrittenMonthEarly()
    ensures Weekday(18687) == Monday && DayOfMonth(18687) == 1 && DayOfMonth(18686) == 28
    ensures CutoffInstant(18687) == NoonOf(18684)
    ensures ReleaseTimeAsWritten(18687) == NoonOf(18656)
    ensures ReleaseTimeAsWritten(18687) < CutoffInstant(18687)
  {
    assert 738155 / 146097 == 5 && 7670 / 1460 == 5 && 7670 / 36524 == 0 && 7670 / 146096 == 0;
    assert 7665 / 365 == 21 && 21 / 4 == 5 && 21 / 100 == 0 && 2 / 153 == 0 && 2 / 5 == 0;
    assert DayOfMonth(18687) == 1;
    assert 738154 / 146097 == 5 && 7669 / 1460 == 5 && 7669 / 36524 == 0 && 7669 / 146096 == 0;
    assert 7664 / 365 == 20 && 20 / 4 == 5 && 20 / 100 == 0 && 1822 / 153 == 11 && 1685 / 5 == 337;
    assert DayOfMonth(18686) == 28;
  }
}
