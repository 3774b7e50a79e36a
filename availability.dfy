/**
 * A mentor's weekly availability: the per-slot check, the pairwise overlap
 * rule and the validation of a whole week (mentors.service.ts).
 */
module Availability {
  import opened Common

  /** One availability slot within a day, as hours and minutes of its start and end. */
  datatype TimeSlot = TimeSlot(startHour: int, startMinute: int, endHour: int, endMinute: int)

  /** A submitted week: one bucket of slots per day, Sunday first. */
  type Week = seq<seq<TimeSlot>>

  function StartOfSlot(t: TimeSlot): int { t.startHour * 60 + t.startMinute }

  function EndOfSlot(t: TimeSlot): int { t.endHour * 60 + t.endMinute }

  predicate OnHalfHourGrid(t: TimeSlot) {
    && 0 <= t.startHour < 24 && (t.startMinute == 0 || t.startMinute == 30)
    && 0 <= t.endHour < 24 && (t.endMinute == 0 || t.endMinute == 30)
  }

  /**
   * `isValidTime`: hours in [0,24), minutes 0 or 30, the start hour strictly
   * before the end hour, and at least sixty minutes between start and end.
   */
  function IsValidTime(t: TimeSlot): (ok: bool)
    ensures ok ==> OnHalfHourGrid(t)
    ensures ok ==> 0 <= StartOfSlot(t) && EndOfSlot(t) <= 23 * 60 + 30
    ensures ok ==> EndOfSlot(t) - StartOfSlot(t) >= 60
    ensures t.startHour >= t.endHour ==> !ok
  {
    if !OnHalfHourGrid(t) then false
    else if t.startHour >= t.endHour then false
    else if EndOfSlot(t) - StartOfSlot(t) < 60 then false
    else true
  }

  /**
   * On the half-hour grid, once the start hour is below the end hour the
   * sixty-minute rule excludes exactly one shape: h:30 to (h+1):00.
   */
  lemma ValidTimeShapes(t: TimeSlot)
    ensures IsValidTime(t) <==>
      && OnHalfHourGrid(t)
      && t.startHour < t.endHour
      && !(t.startMinute == 30 && t.endMinute == 0 && t.endHour == t.startHour + 1)
  {
  }

  /**
   * `validateTimeOverlap`: four tests, each throwing the overlap error; the
   * third and fourth are the first and second with the slots swapped.
   */
  function ValidateTimeOverlap(a: TimeSlot, b: TimeSlot): (r: Outcome)
    ensures r.Fail? ==> r.error == TimeOverlap
  {
    if a.startHour <= b.startHour && a.endHour > b.startHour then Fail(TimeOverlap)
    else if a.endHour == b.startHour && a.endMinute == 30 && b.endMinute == 0 then Fail(TimeOverlap)
    else if b.startHour <= a.startHour && b.endHour > a.startHour then Fail(TimeOverlap)
    else if b.endHour == a.startHour && b.endMinute == 30 && a.endMinute == 0 then Fail(TimeOverlap)
    else Pass
  }

  /** The overlap rule does not depend on the order of its arguments. */
  lemma OverlapSymmetric(a: TimeSlot, b: TimeSlot)
    ensures ValidateTimeOverlap(a, b) == ValidateTimeOverlap(b, a)
  {
  }

  /** A slot starting inside the other's hour range is rejected, in either argument order. */
  lemma HourIntersectionRejected(a: TimeSlot, b: TimeSlot)
    requires a.startHour <= b.startHour < a.endHour
    ensures ValidateTimeOverlap(a, b) == Fail(TimeOverlap)
    ensures ValidateTimeOverlap(b, a) == Fail(TimeOverlap)
  {
  }

  /** A valid slot always clashes with itself. */
  lemma SameSlotRejected(a: TimeSlot)
    requires IsValidTime(a)
    ensures ValidateTimeOverlap(a, a) == Fail(TimeOverlap)
  {
  }

  /**
   * Valid slots where `b` starts in the hour `a` ends: they are rejected
   * exactly when `a` ends at half past and `b` ends on a whole hour.  The
   * start minute of `b` plays no part.
   */
  lemma AdjacentSlots(a: TimeSlot, b: TimeSlot)
    requires IsValidTime(a) && IsValidTime(b)
    requires a.endHour == b.startHour
    ensures ValidateTimeOverlap(a, b).Fail? <==> a.endMinute == 30 && b.endMinute == 0
  {
  }

  /**
   * For valid slots the rule rejects exactly the pairs whose hour ranges
   * intersect, or that are adjacent with the boundary test firing in either
   * direction; in particular slots separated by a gap always pass.
   */
  lemma OverlapCharacterized(a: TimeSlot, b: TimeSlot)
    requires IsValidTime(a) && IsValidTime(b)
    ensures ValidateTimeOverlap(a, b).Fail? <==>
      || (a.startHour < b.endHour && b.startHour < a.endHour)
      || (a.endHour == b.startHour && a.endMinute == 30 && b.endMinute == 0)
      || (b.endHour == a.startHour && b.endMinute == 30 && a.endMinute == 0)
    ensures a.endHour < b.startHour ==> ValidateTimeOverlap(a, b) == Pass
  {
  }

  // ---------------------------------------------------------------------------
  // The overlap rule against the minutes the slots cover

  /** The half-open minute intervals of the two slots intersect. */
  predicate MinutesIntersect(a: TimeSlot, b: TimeSlot) {
    StartOfSlot(a) < EndOfSlot(b) && StartOfSlot(b) < EndOfSlot(a)
  }

  /** 9:00-10:30 and 10:00-11:30 share half an hour, yet the rule accepts them. */
  lemma AsWrittenMissesHalfHourOverlap()
    ensures var a, b := TimeSlot(9, 0, 10, 30), TimeSlot(10, 0, 11, 30);
      && IsValidTime(a) && IsValidTime(b)
      && MinutesIntersect(a, b)
      && ValidateTimeOverlap(a, b) == Pass
  {
  }

  /** 9:00-10:30 and 10:30-12:00 only touch, yet the rule rejects them. */
  lemma AsWrittenRejectsTouchingSlots()
    ensures var a, b := TimeSlot(9, 0, 10, 30), TimeSlot(10, 30, 12, 0);
      && IsValidTime(a) && IsValidTime(b)
      && !MinutesIntersect(a, b)
      && ValidateTimeOverlap(a, b) == Fail(TimeOverlap)
  {
  }

  /** The boundary test reading the START minute of the later slot. */
  predicate ClashesFromIntended(a: TimeSlot, b: TimeSlot) {
    || (a.startHour <= b.startHour && a.endHour > b.startHour)
    || (a.endHour == b.startHour && a.endMinute == 30 && b.startMinute == 0)
  }

  /** The overlap rule with the boundary test on the later slot's start minute. */
  function ValidateTimeOverlapIntended(a: TimeSlot, b: TimeSlot): (r: Outcome)
    ensures r.Fail? ==> r.error == TimeOverlap
  {
    if ClashesFromIntended(a, b) || ClashesFromIntended(b, a) then Fail(TimeOverlap) else Pass
  }

  /**
   * For valid slots the corrected rule rejects exactly the pairs whose
   * half-open minute intervals intersect.
   */
  lemma IntendedOverlapIsIntervalOverlap(a: TimeSlot, b: TimeSlot)
    requires IsValidTime(a) && IsValidTime(b)
    ensures ValidateTimeOverlapIntended(a, b).Fail? <==> MinutesIntersect(a, b)
  {
  }

  // ---------------------------------------------------------------------------
  // Validating a whole week

  /** Every slot of every bucket passes the per-slot check. */
  predicate AllSlotsValid(week: Week) {
    forall d, k :: 0 <= d < |week| && 0 <= k < |week[d]| ==> IsValidTime(week[d][k])
  }

  /** No ordered pair of distinct positions in one bucket is rejected by the overlap rule. */
  predicate DayFree(day: seq<TimeSlot>) {
    forall i, j :: 0 <= i < |day| && 0 <= j < |day| && i != j ==> ValidateTimeOverlap(day[i], day[j]) == Pass
  }

  /** The overlap pass over days `day`..6, stopping at the first missing or clashing day. */
  function ScanDays(week: Week, day: nat): (r: Result<Week>)
    requires day < 7 || (day == 7 && |week| >= 7)
    decreases 7 - day
    ensures r.Ok? <==> |week| >= 7 && forall d :: day <= d < 7 ==> DayFree(week[d])
    ensures r.Ok? ==> r.value == week
    ensures r.Err? ==> r.error == MissingDay || r.error == TimeOverlap
  {
    if day == 7 then Ok(week)
    else if day >= |week| then Err(MissingDay)
    else if !DayFree(week[day]) then Err(TimeOverlap)
    else ScanDays(week, day + 1)
  }

  /**
   * Which error the day pass gives: the overlap error exactly when some
   * present day from `day` on has a clashing pair, since a present day comes
   * before every missing one; otherwise a failure is the missing day.
   */
  lemma {:induction false} ScanDaysError(week: Week, day: nat)
    requires day < 7 || (day == 7 && |week| >= 7)
    decreases 7 - day
    ensures ScanDays(week, day) == Err(TimeOverlap) <==>
      exists d :: day <= d < 7 && d < |week| && !DayFree(week[d])
    ensures ScanDays(week, day) == Err(MissingDay) <==>
      |week| < 7 && forall d :: day <= d < |week| ==> DayFree(week[d])
  {
    if day < 7 && day < |week| && DayFree(week[day]) {
      ScanDaysError(week, day + 1);
    }
  }

  /**
   * `validateAvailableTime` as a value: the per-slot pass over every bucket
   * first, then the overlap pass over days 0..6; on success the week itself.
   */
  function ValidateSchedule(week: Week): (r: Result<Week>)
    ensures r.Ok? <==> AllSlotsValid(week) && |week| >= 7 && forall d :: 0 <= d < 7 ==> DayFree(week[d])
    ensures r.Ok? ==> r.value == week
    ensures !AllSlotsValid(week) ==> r == Err(InvalidTimeFormat)
  {
    if !AllSlotsValid(week) then Err(InvalidTimeFormat) else ScanDays(week, 0)
  }

  /** Validation is idempotent: an accepted week validates to itself again. */
  lemma ValidationIdempotent(week: Week)
    requires ValidateSchedule(week).Ok?
    ensures ValidateSchedule(ValidateSchedule(week).value) == ValidateSchedule(week)
  {
  }

  /** A slot listed twice on one of the seven days makes the week fail. */
  lemma DuplicateSlotRejected(week: Week, d: nat, i: nat, j: nat)
    requires d < 7 && d < |week|
    requires i < |week[d]| && j < |week[d]| && i != j
    requires week[d][i] == week[d][j]
    ensures ValidateSchedule(week).Err?
  {
    if AllSlotsValid(week) {
      SameSlotRejected(week[d][i]);
      assert !DayFree(week[d]);
    }
  }

  /** Slots are only compared within a bucket: with at most one slot per day nothing clashes. */
  lemma OneSlotPerDayAccepted(week: Week)
    requires AllSlotsValid(week) && |week| >= 7
    requires forall d :: 0 <= d < 7 ==> |week[d]| <= 1
    ensures ValidateSchedule(week) == Ok(week)
  {
  }

  /** 9:00-10:00 and 9:30-10:30 clash on the same Monday but not on Monday and Tuesday. */
  lemma MondayScenario()
    ensures var a, b := TimeSlot(9, 0, 10, 0), TimeSlot(9, 30, 10, 30);
      && ValidateSchedule([[], [a, b], [], [], [], [], []]) == Err(TimeOverlap)
      && ValidateSchedule([[], [a], [b], [], [], [], []]).Ok?
  {
    var a, b := TimeSlot(9, 0, 10, 0), TimeSlot(9, 30, 10, 30);
    assert ValidateTimeOverlap([a, b][0], [a, b][1]).Fail?;
    assert !DayFree([a, b]);
  }

  /**
   * `validateAvailableTime`: a loop checking every slot of every bucket, then
   * nested loops over the days 0..6 and all ordered pairs i != j in that day,
   * leaving at the first error.
   */
  method ValidateAvailableTime(time: Week) returns (r: Result<Week>)
    ensures r == ValidateSchedule(time)
  {
    var d := 0;
    while d < |time|
      invariant 0 <= d <= |time|
      invariant forall e, k :: 0 <= e < d && 0 <= k < |time[e]| ==> IsValidTime(time[e][k])
    {
      var k := 0;
      while k < |time[d]|
        invariant 0 <= k <= |time[d]|
        invariant forall e, k' :: 0 <= e < d && 0 <= k' < |time[e]| ==> IsValidTime(time[e][k'])
        invariant forall k' :: 0 <= k' < k ==> IsValidTime(time[d][k'])
      {
        if !IsValidTime(time[d][k]) {
          return Err(InvalidTimeFormat);
        }
        k := k + 1;
      }
      d := d + 1;
    }

    var day := 0;
    while day < 7
      invariant 0 <= day <= 7 && day <= |time|
      invariant ScanDays(time, day) == ScanDays(time, 0)
    {
      if day >= |time| {
        return Err(MissingDay);
      }
      var bucket := time[day];
      var i := 0;
      while i < |bucket|
        invariant 0 <= i <= |bucket|
        invariant forall x, y :: 0 <= x < i && 0 <= y < |bucket| && x != y ==> ValidateTimeOverlap(bucket[x], bucket[y]) == Pass
      {
        var j := 0;
        while j < |bucket|
          invariant 0 <= j <= |bucket|
          invariant forall x, y :: 0 <= x < i && 0 <= y < |bucket| && x != y ==> ValidateTimeOverlap(bucket[x], bucket[y]) == Pass
          invariant forall y :: 0 <= y < j && y != i ==> ValidateTimeOverlap(bucket[i], bucket[y]) == Pass
        {
          if i != j {
            var o := ValidateTimeOverlap(bucket[i], bucket[j]);
            if o.Fail? {
              assert !DayFree(bucket);
              return Err(o.error);
            }
          }
          j := j + 1;
        }
        i := i + 1;
      }
      day := day + 1;
    }
    return Ok(time);
  }
}
