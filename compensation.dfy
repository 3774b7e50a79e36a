/**
 * Payable hours for a finished meeting, capped per day and per month over the
 * mentor's completed meetings (`calculateTotalHour` in reports.service.ts).
 */
module Compensation {

  /**
   * A meeting span: the month (0..11) and day of month of its start, as the
   * local calendar reports them, and its start and end in milliseconds.
   */
  datatype Meeting = Meeting(month: int, dayOfMonth: int, startMs: int, endMs: int)

  const MS_PER_HOUR: int := 1000 * 60 * 60
  const DAILY_CAP: int := 4
  const MONTHLY_CAP: int := 10

  /** Whole hours of a meeting, the fraction dropped towards minus infinity. */
  function Hours(m: Meeting): (h: int)
    ensures h * MS_PER_HOUR <= m.endMs - m.startMs < h * MS_PER_HOUR + MS_PER_HOUR
    ensures m.startMs <= m.endMs ==> h >= 0
  {
    (m.endMs - m.startMs) / MS_PER_HOUR
  }

  predicate NonNegative(m: Meeting) { m.startMs <= m.endMs }

  /** The meetings of `history` starting in `month`, in their original order. */
  function SameMonth(history: seq<Meeting>, month: int): seq<Meeting> {
    if history == [] then []
    else
      var last := history[|history| - 1];
      SameMonth(history[..|history| - 1], month) + (if last.month == month then [last] else [])
  }

  /** The meetings of `history` starting on day `day` of some month, in their original order. */
  function SameDay(history: seq<Meeting>, day: int): seq<Meeting> {
    if history == [] then []
    else
      var last := history[|history| - 1];
      SameDay(history[..|history| - 1], day) + (if last.dayOfMonth == day then [last] else [])
  }

  /** `SameMonth` keeps exactly the meetings of `history` that start in `month`. */
  lemma {:induction false} SameMonthSelects(history: seq<Meeting>, month: int)
    ensures forall m :: m in SameMonth(history, month) <==> m in history && m.month == month
  {
    if history != [] {
      var init := history[..|history| - 1];
      SameMonthSelects(init, month);
      assert history == init + [history[|history| - 1]];
    }
  }

  /** `SameDay` keeps exactly the meetings of `history` that start on day `day`. */
  lemma {:induction false} SameDaySelects(history: seq<Meeting>, day: int)
    ensures forall m :: m in SameDay(history, day) <==> m in history && m.dayOfMonth == day
  {
    if history != [] {
      var init := history[..|history| - 1];
      SameDaySelects(init, day);
      assert history == init + [history[|history| - 1]];
    }
  }

  /** Sum of the whole hours of each meeting. */
  function SumHours(ms: seq<Meeting>): int {
    if ms == [] then 0 else SumHours(ms[..|ms| - 1]) + Hours(ms[|ms| - 1])
  }

  /** Hours already logged in the month of `span` (no year is compared). */
  function MonthSum(history: seq<Meeting>, span: Meeting): int {
    SumHours(SameMonth(history, span.month))
  }

  /** Hours already logged on the day of `span`, drawn from the month's meetings. */
  function DaySum(history: seq<Meeting>, span: Meeting): int {
    SumHours(SameDay(SameMonth(history, span.month), span.dayOfMonth))
  }

  /** The hours left after the daily cap, given the hours already logged that day. */
  function AfterDailyCap(base: int, perDay: int): int {
    if perDay + base >= DAILY_CAP then DAILY_CAP - perDay else base
  }

  /**
   * The hours `calculateTotalHour` returns: the daily cap first, then the
   * monthly cap, whose clamp subtracts the DAILY sum from ten.
   */
  function TotalHour(history: seq<Meeting>, span: Meeting): int {
    var perDay, perMonth := DaySum(history, span), MonthSum(history, span);
    if perDay >= DAILY_CAP then 0
    else
      var result := AfterDailyCap(Hours(span), perDay);
      if perMonth >= MONTHLY_CAP then 0
      else if perMonth + result >= MONTHLY_CAP then MONTHLY_CAP - perDay
      else result
  }

  // ---------------------------------------------------------------------------
  // Properties of the history sums

  lemma {:induction false} SumHoursNonNegative(ms: seq<Meeting>)
    requires forall m :: m in ms ==> NonNegative(m)
    ensures SumHours(ms) >= 0
  {
    if ms != [] {
      var init, last := ms[..|ms| - 1], ms[|ms| - 1];
      assert forall m :: m in init ==> m in ms;
      assert last in ms;
      SumHoursNonNegative(init);
      assert Hours(last) >= 0;
    }
  }

  lemma {:induction false} SameDayBelowAll(ms: seq<Meeting>, day: int)
    requires forall m :: m in ms ==> NonNegative(m)
    ensures SumHours(SameDay(ms, day)) <= SumHours(ms)
  {
    if ms != [] {
      var init, last := ms[..|ms| - 1], ms[|ms| - 1];
      assert forall m :: m in init ==> m in ms;
      assert last in ms;
      SameDayBelowAll(init, day);
      var r := SameDay(ms, day);
      if last.dayOfMonth == day {
        assert r == SameDay(init, day) + [last];
        assert r[..|r| - 1] == SameDay(init, day) && r[|r| - 1] == last;
        assert SumHours(r) == SumHours(SameDay(init, day)) + Hours(last);
      } else {
        assert r == SameDay(init, day);
        assert Hours(last) >= 0;
      }
    }
  }

  /**
   * With no meeting of negative length, the day's hours never exceed the
   * month's: the day's meetings are drawn from the month's.
   */
  lemma DaySumAtMostMonthSum(history: seq<Meeting>, span: Meeting)
    requires forall m :: m in history ==> NonNegative(m)
    ensures 0 <= DaySum(history, span) <= MonthSum(history, span)
  {
    var inMonth := SameMonth(history, span.month);
    SameMonthSelects(history, span.month);
    SameDaySelects(inMonth, span.dayOfMonth);
    SameDayBelowAll(inMonth, span.dayOfMonth);
    SumHoursNonNegative(SameDay(inMonth, span.dayOfMonth));
  }

  // ---------------------------------------------------------------------------
  // The caps

  /** Four or more hours already logged that day: the meeting pays nothing. */
  lemma DailyCapReached(history: seq<Meeting>, span: Meeting)
    requires DaySum(history, span) >= DAILY_CAP
    ensures TotalHour(history, span) == 0
  {
  }

  /** Reaching the daily cap clamps the meeting to what is left of the day's four hours. */
  lemma DailyCapClamps(history: seq<Meeting>, span: Meeting)
    requires DaySum(history, span) < DAILY_CAP <= DaySum(history, span) + Hours(span)
    requires MonthSum(history, span) + DAILY_CAP - DaySum(history, span) < MONTHLY_CAP
    ensures TotalHour(history, span) == DAILY_CAP - DaySum(history, span)
  {
  }

  /** Ten or more hours already logged that month: the meeting pays nothing. */
  lemma MonthlyCapReached(history: seq<Meeting>, span: Meeting)
    requires MonthSum(history, span) >= MONTHLY_CAP
    ensures TotalHour(history, span) == 0
  {
  }

  /** Reaching the monthly cap sets the result to ten minus the DAY's hours. */
  lemma MonthlyClampUsesDaySum(history: seq<Meeting>, span: Meeting)
    requires DaySum(history, span) < DAILY_CAP
    requires MonthSum(history, span) < MONTHLY_CAP
    requires MonthSum(history, span) + AfterDailyCap(Hours(span), DaySum(history, span)) >= MONTHLY_CAP
    ensures TotalHour(history, span) == MONTHLY_CAP - DaySum(history, span)
  {
  }

  /** Below both caps the meeting pays its whole hours. */
  lemma BelowCapsPaysBase(history: seq<Meeting>, span: Meeting)
    requires NonNegative(span)
    requires DaySum(history, span) + Hours(span) < DAILY_CAP
    requires MonthSum(history, span) + Hours(span) < MONTHLY_CAP
    ensures TotalHour(history, span) == Hours(span)
  {
  }

  /** A meeting of non-negative length never pays negative hours. */
  lemma TotalHourNonNegative(history: seq<Meeting>, span: Meeting)
    requires NonNegative(span)
    ensures TotalHour(history, span) >= 0
  {
  }

  /** With no meeting of negative length the result stays within the monthly cap. */
  lemma TotalHourAtMostMonthlyCap(history: seq<Meeting>, span: Meeting)
    requires forall m :: m in history ==> NonNegative(m)
    ensures TotalHour(history, span) <= MONTHLY_CAP
  {
    DaySumAtMostMonthSum(history, span);
  }

  /** Three hours already logged today and a two-hour meeting: one hour is paid. */
  lemma DailyCapExample()
    ensures TotalHour([Meeting(3, 15, 0, 3 * MS_PER_HOUR)],
                      Meeting(3, 15, 10 * MS_PER_HOUR, 12 * MS_PER_HOUR)) == 1
  {
    var history := [Meeting(3, 15, 0, 3 * MS_PER_HOUR)];
    assert history[..0] == [];
    assert SameMonth(history, 3) == history;
    assert SameDay(history, 15) == history;
    assert SumHours(history) == 3;
  }

  // ---------------------------------------------------------------------------
  // The monthly clamp as evidently intended

  /**
   * Nine hours logged earlier in the month, none that day, and a three-hour
   * meeting: the clamp pays ten hours, more than the meeting lasted.
   */
  lemma AsWrittenOverpays()
    ensures var history, span := [Meeting(3, 2, 0, 9 * MS_PER_HOUR)], Meeting(3, 15, 0, 3 * MS_PER_HOUR);
      && Hours(span) == 3
      && MonthSum(history, span) == 9 && DaySum(history, span) == 0
      && TotalHour(history, span) == 10
  {
    var history := [Meeting(3, 2, 0, 9 * MS_PER_HOUR)];
    assert history[..0] == [];
    assert SameMonth(history, 3) == history;
    assert SameDay(history, 15) == [];
    assert SumHours(history) == 9;
  }

  /** The caps with the monthly clamp set to ten minus the MONTH's hours. */
  function TotalHourIntended(history: seq<Meeting>, span: Meeting): int {
    var perDay, perMonth := DaySum(history, span), MonthSum(history, span);
    if perDay >= DAILY_CAP then 0
    else
      var result := AfterDailyCap(Hours(span), perDay);
      if perMonth >= MONTHLY_CAP then 0
      else if perMonth + result >= MONTHLY_CAP then MONTHLY_CAP - perMonth
      else result
  }

  /**
   * The corrected calculation never pays more than the meeting's whole hours
   * and never lifts the day's total above four or the month's above ten.
   */
  lemma IntendedRespectsCaps(history: seq<Meeting>, span: Meeting)
    requires NonNegative(span)
    ensures 0 <= TotalHourIntended(history, span) <= Hours(span)
    ensures TotalHourIntended(history, span) == 0 ||
      (&& DaySum(history, span) + TotalHourIntended(history, span) <= DAILY_CAP
       && MonthSum(history, span) + TotalHourIntended(history, span) <= MONTHLY_CAP)
  {
  }

  /** On the overpaying example the corrected calculation pays the one hour left in the month. */
  lemma IntendedExample()
    ensures TotalHourIntended([Meeting(3, 2, 0, 9 * MS_PER_HOUR)], Meeting(3, 15, 0, 3 * MS_PER_HOUR)) == 1
  {
    AsWrittenOverpays();
  }

  // ---------------------------------------------------------------------------
  // The loop

  /**
   * `calculateTotalHour`: collects the month's meetings, then the day's from
   * those, sums each list's whole hours, and applies the two caps with early
   * returns.
   */
  method CalculateTotalHour(history: seq<Meeting>, span: Meeting) returns (result: int)
    ensures result == TotalHour(history, span)
  {
    var inMonth: seq<Meeting> := [];
    var inDay: seq<Meeting> := [];
    result := (span.endMs - span.startMs) / MS_PER_HOUR;

    var i := 0;
    while i < |history|
      invariant 0 <= i <= |history|
      invariant inMonth == SameMonth(history[..i], span.month)
    {
      assert history[..i + 1][..i] == history[..i];
      if history[i].month == span.month {
        inMonth := inMonth + [history[i]];
      }
      i := i + 1;
    }
    assert history[..i] == history;

    i := 0;
    while i < |inMonth|
      invariant 0 <= i <= |inMonth|
      invariant inDay == SameDay(inMonth[..i], span.dayOfMonth)
    {
      assert inMonth[..i + 1][..i] == inMonth[..i];
      if inMonth[i].dayOfMonth == span.dayOfMonth {
        inDay := inDay + [inMonth[i]];
      }
      i := i + 1;
    }
    assert inMonth[..i] == inMonth;

    var perDay := 0;
    i := 0;
    while i < |inDay|
      invariant 0 <= i <= |inDay|
      invariant perDay == SumHours(inDay[..i])
    {
      assert inDay[..i + 1][..i] == inDay[..i];
      perDay := perDay + (inDay[i].endMs - inDay[i].startMs) / MS_PER_HOUR;
      i := i + 1;
    }
    assert inDay[..i] == inDay;
    if perDay >= DAILY_CAP {
      return 0;
    } else if perDay + result >= DAILY_CAP {
      result := DAILY_CAP - perDay;
    }

    var perMonth := 0;
    i := 0;
    while i < |inMonth|
      invariant 0 <= i <= |inMonth|
      invariant perMonth == SumHours(inMonth[..i])
    {
      assert inMonth[..i + 1][..i] == inMonth[..i];
      perMonth := perMonth + (inMonth[i].endMs - inMonth[i].startMs) / MS_PER_HOUR;
      i := i + 1;
    }
    assert inMonth[..i] == inMonth;
    if perMonth >= MONTHLY_CAP {
      return 0;
    } else if perMonth + result >= MONTHLY_CAP {
      result := MONTHLY_CAP - perDay;
    }
  }
}
