/** The pool's working schedule: which schedule row governs a date, and the
    hourly time slots that schedule opens for booking on that date. */
module WorkHourService {
  import opened Errors
  import opened Time

  /** A row of the schedule table: the working window [startTime, endTime)
      and the two capacity limits. */
  datatype WorkHour = WorkHour(startTime: TimeOfDay, endTime: TimeOfDay,
                               limitPerHour: int, dailyLimitPerClients: int)

  /** The read-only reference data: schedule rows keyed by their holiday flag,
      and the set of holiday dates. */
  datatype ScheduleData = ScheduleData(workHours: map<bool, WorkHour>, holidays: set<Date>)

  /** The latest schedule end time the model admits (23:00); up to it the
      slot stream always stops. With a later end the stream loops forever
      only when some slot lands in [23:00, end), since the next step wraps
      past midnight to a time that is again before the end; the other
      late-end schedules stop but are not modelled. */
  const LatestEndTime: int := 23 * MinutesPerHour

  predicate EndsInTime(data: ScheduleData) {
    forall flag :: flag in data.workHours ==> data.workHours[flag].endTime <= LatestEndTime
  }

  /** A date is a holiday when the holiday table has a row for it. */
  predicate IsHoliday(data: ScheduleData, date: Date) {
    date in data.holidays
  }

  /** The schedule row for a date: the holiday row on a holiday, the regular
      row otherwise; a missing row is a configuration error. */
  function GetWorkHour(data: ScheduleData, date: Date): (r: Result<WorkHour>)
    ensures r.Ok? <==> (date in data.holidays ==> true in data.workHours) &&
                       (date !in data.holidays ==> false in data.workHours)
    ensures r.Ok? ==> r.value == data.workHours[date in data.holidays]
    ensures r.Err? ==> r.error == InternalServerError
  {
    var flag := IsHoliday(data, date);
    if flag in data.workHours then Ok(data.workHours[flag]) else Err(InternalServerError)
  }

  /** The per-slot capacity that governs a date. */
  function GetLimitPerHour(data: ScheduleData, date: Date): (r: Result<int>)
    ensures r.Ok? <==> GetWorkHour(data, date).Ok?
    ensures r.Ok? ==> r.value == GetWorkHour(data, date).value.limitPerHour
    ensures r.Err? ==> r.error == InternalServerError
  {
    var wh :- GetWorkHour(data, date);
    Ok(wh.limitPerHour)
  }

  /** The per-client daily quota that governs a date. */
  function GetDailyLimitPerClients(data: ScheduleData, date: Date): (r: Result<int>)
    ensures r.Ok? <==> GetWorkHour(data, date).Ok?
    ensures r.Ok? ==> r.value == GetWorkHour(data, date).value.dailyLimitPerClients
    ensures r.Err? ==> r.error == InternalServerError
  {
    var wh :- GetWorkHour(data, date);
    Ok(wh.dailyLimitPerClients)
  }

  /** Where slot generation starts: one hour after now on today's date (keeping
      now's minutes, and wrapping past midnight), the schedule's start
      time on every other date. */
  function EffectiveStart(now: DateTime, date: Date, wh: WorkHour): (r: TimeOfDay)
    ensures date == now.date ==> (r - now.time - MinutesPerHour) % MinutesPerDay == 0
    ensures date != now.date ==> r == wh.startTime
  {
    if date == now.date then TimePlusHours(now.time, 1) else wh.startTime
  }

  /** The stream `iterate(t, time < end, time + 1h)`. */
  function HourlyFrom(t: TimeOfDay, end: TimeOfDay): (r: seq<TimeOfDay>)
    requires end <= LatestEndTime
    ensures |r| > 0 <==> t < end
    ensures forall i :: 0 <= i < |r| ==> r[i] == t + i * MinutesPerHour && r[i] < end
    ensures |r| > 0 ==> r[|r| - 1] + MinutesPerHour >= end
    decreases end - t
  {
    if t < end then [t] + HourlyFrom(TimePlusHours(t, 1), end) else []
  }

  /** The bookable hourly slots of a date. */
  function GeneratedTimeSlots(data: ScheduleData, now: DateTime, date: Date): (r: Result<seq<TimeOfDay>>)
    requires EndsInTime(data)
    ensures r.Ok? <==> GetWorkHour(data, date).Ok? &&
                       EffectiveStart(now, date, GetWorkHour(data, date).value) <
                       GetWorkHour(data, date).value.endTime
    ensures r.Err? ==> r.error == InternalServerError
    ensures r.Ok? ==> var start := EffectiveStart(now, date, GetWorkHour(data, date).value);
                      |r.value| > 0 && r.value[0] == start &&
                      forall i :: 0 <= i < |r.value| ==>
                        r.value[i] == start + i * MinutesPerHour &&
                        r.value[i] < GetWorkHour(data, date).value.endTime
  {
    var wh :- GetWorkHour(data, date);
    var startTime := EffectiveStart(now, date, wh);
    if !(startTime < wh.endTime) then Err(InternalServerError)
    else Ok(HourlyFrom(startTime, wh.endTime))
  }

  /** `isWithinWorkHour`: the time of day is one of the date's slots. */
  function IsWithinWorkHour(data: ScheduleData, now: DateTime, dt: DateTime): (r: Result<bool>)
    requires EndsInTime(data)
    ensures r.Ok? <==> GeneratedTimeSlots(data, now, dt.date).Ok?
    ensures r.Ok? ==> (r.value <==> dt.time in GeneratedTimeSlots(data, now, dt.date).value)
    ensures r.Err? ==> r.error == InternalServerError
  {
    var slots :- GeneratedTimeSlots(data, now, dt.date);
    Ok(dt.time in slots)
  }

  /** `isWithinWorkHourRange`: tests the first hour and the hour before the end only. */
  function IsWithinWorkHourRange(data: ScheduleData, now: DateTime, date: Date,
                                 startTime: TimeOfDay, endTime: TimeOfDay): (r: Result<bool>)
    requires EndsInTime(data)
    ensures r.Ok? <==> GeneratedTimeSlots(data, now, date).Ok?
    ensures r.Err? ==> r.error == InternalServerError
  {
    var slots :- GeneratedTimeSlots(data, now, date);
    Ok(startTime in slots && TimeMinusHours(endTime, 1) in slots)
  }

  /** The slots are exactly the times start + 60k that lie below the end. */
  lemma {:induction false} HourlyFromMembership(t: TimeOfDay, end: TimeOfDay, x: int)
    requires end <= LatestEndTime
    ensures x in HourlyFrom(t, end) <==> t <= x < end && (x - t) % MinutesPerHour == 0
    decreases end - t
  {
    var r := HourlyFrom(t, end);
    if t <= x < end && (x - t) % MinutesPerHour == 0 {
      var i := (x - t) / MinutesPerHour;
      assert x == t + i * MinutesPerHour;
      assert r[|r| - 1] == t + (|r| - 1) * MinutesPerHour;
      assert r[i] == x;
    }
    if x in r {
      var i :| 0 <= i < |r| && r[i] == x;
      assert x == t + i * MinutesPerHour;
    }
  }

  /** The slots strictly ascend. */
  lemma SlotsAscending(data: ScheduleData, now: DateTime, date: Date, i: int, j: int)
    requires EndsInTime(data)
    requires GeneratedTimeSlots(data, now, date).Ok?
    requires 0 <= i < j < |GeneratedTimeSlots(data, now, date).value|
    ensures GeneratedTimeSlots(data, now, date).value[i] + (j - i) * MinutesPerHour ==
            GeneratedTimeSlots(data, now, date).value[j]
  {
  }

  /** No slot is generated twice. */
  lemma SlotsDistinct(data: ScheduleData, now: DateTime, date: Date)
    requires EndsInTime(data)
    requires GeneratedTimeSlots(data, now, date).Ok?
    ensures var v := GeneratedTimeSlots(data, now, date).value;
            forall i, j :: 0 <= i < j < |v| ==> v[i] < v[j]
  {
    var v := GeneratedTimeSlots(data, now, date).value;
    forall i, j | 0 <= i < j < |v|
      ensures v[i] < v[j]
    {
      SlotsAscending(data, now, date, i, j);
    }
  }

  /** A slot of the date is exactly a time start + 60k below the schedule end,
      where start is the effective start. */
  lemma SlotMembership(data: ScheduleData, now: DateTime, date: Date, x: int)
    requires EndsInTime(data)
    requires GeneratedTimeSlots(data, now, date).Ok?
    ensures var wh := GetWorkHour(data, date).value;
            var start := EffectiveStart(now, date, wh);
            x in GeneratedTimeSlots(data, now, date).value <==>
            start <= x < wh.endTime && (x - start) % MinutesPerHour == 0
  {
    var wh := GetWorkHour(data, date).value;
    HourlyFromMembership(EffectiveStart(now, date, wh), wh.endTime, x);
  }

  /** Each of the n consecutive hours from the time a is an element of r. */
  predicate EveryHourIn(r: seq<int>, a: int, n: int) {
    forall k :: 0 <= k < n ==> a + k * MinutesPerHour in r
  }

  /** Testing only the first and the last hour of a same-day range suffices:
      the range check holds exactly when every hour of the range is a slot. */
  lemma {:induction false} RangeCheckCoversEveryHour(data: ScheduleData, now: DateTime, date: Date,
                                                   startTime: TimeOfDay, hourCount: int)
    requires EndsInTime(data)
    requires GeneratedTimeSlots(data, now, date).Ok?
    requires 1 <= hourCount && startTime + hourCount * MinutesPerHour < MinutesPerDay
    ensures IsWithinWorkHourRange(data, now, date, startTime, startTime + hourCount * MinutesPerHour).value
            <==> EveryHourIn(GeneratedTimeSlots(data, now, date).value, startTime, hourCount)
  {
    var slots := GeneratedTimeSlots(data, now, date).value;
    var end := startTime + hourCount * MinutesPerHour;
    assert end - MinutesPerHour == startTime + (hourCount - 1) * MinutesPerHour;
    RangeCheckIsEnds(data, now, date, startTime, end);
    StepsCover(slots, EffectiveStart(now, date, GetWorkHour(data, date).value), startTime, hourCount);
  }

  /** The range check tests the start and the hour before the end. */
  lemma RangeCheckIsEnds(data: ScheduleData, now: DateTime, date: Date, startTime: TimeOfDay, endTime: TimeOfDay)
    requires EndsInTime(data)
    requires GeneratedTimeSlots(data, now, date).Ok?
    requires MinutesPerHour <= endTime
    ensures IsWithinWorkHourRange(data, now, date, startTime, endTime).value ==
            (startTime in GeneratedTimeSlots(data, now, date).value &&
             endTime - MinutesPerHour in GeneratedTimeSlots(data, now, date).value)
  {
  }

  /** In a sequence stepping by one hour, the first and the last of n
      consecutive hours are elements exactly when all n of them are. */
  lemma {:induction false} StepsCover(r: seq<int>, t: int, a: int, n: int)
    requires 1 <= n
    requires forall i :: 0 <= i < |r| ==> r[i] == t + i * MinutesPerHour
    ensures (a in r && a + (n - 1) * MinutesPerHour in r) <==> EveryHourIn(r, a, n)
  {
    if a in r && a + (n - 1) * MinutesPerHour in r {
      var i :| 0 <= i < |r| && r[i] == a;
      var j :| 0 <= j < |r| && r[j] == a + (n - 1) * MinutesPerHour;
      assert j == i + n - 1;
      forall k | 0 <= k < n
        ensures a + k * MinutesPerHour in r
      {
        assert r[i + k] == a + k * MinutesPerHour;
      }
    }
    if EveryHourIn(r, a, n) {
      assert a + 0 * MinutesPerHour in r;
    }
  }

  /** On today's date, when now is not on the hour, no hour-aligned time is a
      slot: the start now + 1h keeps now's minutes, so every slot shares them. */
  lemma SameDaySlotsAreUnaligned(data: ScheduleData, now: DateTime, x: int)
    requires EndsInTime(data)
    requires GeneratedTimeSlots(data, now, now.date).Ok?
    requires now.time % MinutesPerHour != 0
    requires x in GeneratedTimeSlots(data, now, now.date).value
    ensures x % MinutesPerHour != 0
  {
    var slots := GeneratedTimeSlots(data, now, now.date).value;
    var i :| 0 <= i < |slots| && slots[i] == x;
    var start := TimePlusHours(now.time, 1);
    var q := (now.time + MinutesPerHour) / MinutesPerDay;
    assert start == now.time + MinutesPerHour - q * MinutesPerDay;
    assert x == now.time + MinutesPerHour - q * MinutesPerDay + i * MinutesPerHour;
    assert x == now.time + (1 - 24 * q + i) * MinutesPerHour;
    MinutesPastTheHour(now.time, 1 - 24 * q + i);
  }

  /** Adding whole hours keeps the minutes past the hour. */
  lemma MinutesPastTheHour(t: int, k: int)
    ensures (t + k * MinutesPerHour) % MinutesPerHour == t % MinutesPerHour
  {
    var h, m := t / MinutesPerHour, t % MinutesPerHour;
    assert t + k * MinutesPerHour == (h + k) * MinutesPerHour + m;
  }

  /** Before 23:00, every slot of today lies after the current time. */
  lemma SameDaySlotsAfterNow(data: ScheduleData, now: DateTime, x: int)
    requires EndsInTime(data)
    requires GeneratedTimeSlots(data, now, now.date).Ok?
    requires now.time < LatestEndTime
    requires x in GeneratedTimeSlots(data, now, now.date).value
    ensures now.time < x
  {
  }

  /** From 23:00 on, today's start wraps past midnight: the first slot of
      today, when there is one, lies before the current time. */
  lemma SameDayStartWrapsAfter2300(data: ScheduleData, now: DateTime)
    requires EndsInTime(data)
    requires GeneratedTimeSlots(data, now, now.date).Ok?
    requires now.time >= LatestEndTime
    ensures GeneratedTimeSlots(data, now, now.date).value[0] < now.time
  {
  }
}
