/** Dates, times of day and date-times as integers.
    A date is a day number, a time of day counts minutes after midnight, and a
    date-time pairs the two; the order on date-times is the order of `java.time`. */
module Time {

  const MinutesPerHour: int := 60
  const MinutesPerDay: int := 1440
  /** The last minute of a day: `LocalTime.MAX` at minute granularity. */
  const LastMinute: int := 1439

  type Date = int
  type TimeOfDay = t: int | 0 <= t < 1440

  datatype DateTime = DateTime(date: Date, time: TimeOfDay)

  /** `LocalDateTime.isBefore`. */
  predicate Before(a: DateTime, b: DateTime) {
    a.date < b.date || (a.date == b.date && a.time < b.time)
  }

  /** `LocalDateTime.isAfter`. */
  predicate After(a: DateTime, b: DateTime) {
    Before(b, a)
  }

  /** Minutes since day 0 at 00:00; the order `Before` is the order of this number. */
  function Minutes(dt: DateTime): int {
    dt.date * MinutesPerDay + dt.time
  }

  /** `LocalTime.plusHours`: wraps around midnight. */
  function TimePlusHours(t: TimeOfDay, hours: int): (r: TimeOfDay)
    ensures (r - t - hours * MinutesPerHour) % MinutesPerDay == 0
  {
    (t + hours * MinutesPerHour) % MinutesPerDay
  }

  /** `LocalTime.minusHours`: wraps around midnight. */
  function TimeMinusHours(t: TimeOfDay, hours: int): (r: TimeOfDay)
    ensures 0 <= hours * MinutesPerHour <= t ==> r == t - hours * MinutesPerHour
  {
    TimePlusHours(t, -hours)
  }

  /** `LocalDateTime.plusHours`: carries into the date. */
  function PlusHours(dt: DateTime, hours: int): (r: DateTime)
    ensures Minutes(r) == Minutes(dt) + hours * MinutesPerHour
    ensures dt.time + hours * MinutesPerHour < MinutesPerDay && 0 <= dt.time + hours * MinutesPerHour
            ==> r == DateTime(dt.date, dt.time + hours * MinutesPerHour)
  {
    var m := dt.time + hours * MinutesPerHour;
    DateTime(dt.date + m / MinutesPerDay, m % MinutesPerDay)
  }

  /** Adding hours twice is adding their sum. */
  lemma PlusHoursTwice(dt: DateTime, a: int, b: int)
    ensures PlusHours(PlusHours(dt, a), b) == PlusHours(dt, a + b)
  {
    BeforeIsMinutesOrder(PlusHours(PlusHours(dt, a), b), PlusHours(dt, a + b));
  }

  /** When n hours after a date-time still fall on its date, so does every
      hour in between. */
  lemma SameDayHours(dt: DateTime, n: int, j: int)
    requires 0 <= j <= n && PlusHours(dt, n).date == dt.date
    ensures PlusHours(dt, j).date == dt.date
  {
    var e, p := PlusHours(dt, n), PlusHours(dt, j);
    assert Minutes(dt) <= Minutes(p) <= Minutes(e);
    assert dt.date * MinutesPerDay <= p.date * MinutesPerDay + p.time < (dt.date + 1) * MinutesPerDay;
  }

  /** `LocalDate.atStartOfDay`. */
  function AtStartOfDay(d: Date): DateTime {
    DateTime(d, 0)
  }

  /** `LocalDate.atTime(LocalTime.MAX)`. */
  function AtEndOfDay(d: Date): DateTime {
    DateTime(d, LastMinute)
  }

  /** JPQL `x BETWEEN lo AND hi`: both bounds inclusive. */
  predicate Between(x: DateTime, lo: DateTime, hi: DateTime) {
    !Before(x, lo) && !Before(hi, x)
  }

  /** A date-time lies between the start and the end of its own day and of no other. */
  lemma BetweenDayBounds(x: DateTime, d: Date)
    ensures Between(x, AtStartOfDay(d), AtEndOfDay(d)) <==> x.date == d
  {
  }

  /** `Before` is the order of `Minutes`. */
  lemma BeforeIsMinutesOrder(a: DateTime, b: DateTime)
    ensures Before(a, b) <==> Minutes(a) < Minutes(b)
    ensures a == b <==> Minutes(a) == Minutes(b)
  {
  }
}
