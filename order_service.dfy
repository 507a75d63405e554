/** The booking engine: the checks single and multi-hour reservations and
    cancellations apply, in their fixed order, before they write to the store;
    the store invariants those checks keep; and the service object whose
    methods run the checks, write and answer the slot-count queries. */
module OrderService {
  import opened Errors
  import opened Time
  import opened WorkHourService
  import opened OrderEntity
  import opened OrderRepository
  import opened LinkedMap

  /** The wall clock as one call reads it: the current date-time, and the
      booking horizons two months ahead of today and of now. */
  datatype Clock = Clock(now: DateTime, maxDate: Date, maxDateTime: DateTime)

  // ---------------------------------------------------------------------
  // The individual checks

  /** `validateDateNotInPast`: a query date before today is refused. */
  function ValidateDateNotInPast(clock: Clock, date: Date): (r: Outcome)
    ensures r.Pass? <==> clock.now.date <= date
    ensures r.Fail? ==> r.error == BadRequest
  {
    if date < clock.now.date then Fail(BadRequest) else Pass
  }

  /** `validateMaxFutureDate`: a query date after the horizon is refused; the
      horizon date itself is accepted. */
  function ValidateMaxFutureDate(clock: Clock, date: Date): (r: Outcome)
    ensures r.Pass? <==> date <= clock.maxDate
    ensures r.Fail? ==> r.error == BadRequest
  {
    if date > clock.maxDate then Fail(BadRequest) else Pass
  }

  /** `validateDateTimeNotInPastForReserve`: a reservation before now is refused. */
  function ValidateDateTimeNotInPastForReserve(clock: Clock, dt: DateTime): (r: Outcome)
    ensures r.Pass? <==> Minutes(clock.now) <= Minutes(dt)
    ensures r.Fail? ==> r.error == BadRequest
  {
    BeforeIsMinutesOrder(dt, clock.now);
    if Before(dt, clock.now) then Fail(BadRequest) else Pass
  }

  /** `validateMaxFutureDateTimeForReserve`: a reservation after the horizon is refused. */
  function ValidateMaxFutureDateTimeForReserve(clock: Clock, dt: DateTime): (r: Outcome)
    ensures r.Pass? <==> Minutes(dt) <= Minutes(clock.maxDateTime)
    ensures r.Fail? ==> r.error == BadRequest
  {
    BeforeIsMinutesOrder(clock.maxDateTime, dt);
    if After(dt, clock.maxDateTime) then Fail(BadRequest) else Pass
  }

  /** The client's reserved rows on a date: the range count from the start of
      the day to `LocalTime.MAX`. */
  function DayCount(orders: seq<OrderRow>, c: ClientId, date: Date): nat {
    CountReservationsForClientByDateTimeRange(orders, c, AtStartOfDay(date), AtEndOfDay(date))
  }

  /** The client's reserved rows at one date-time: the range count with both
      bounds at that date-time. */
  function SlotCount(orders: seq<OrderRow>, c: ClientId, dt: DateTime): nat {
    CountReservationsForClientByDateTimeRange(orders, c, dt, dt)
  }

  /** `validateNoReservationsForClientAtDateTime`: the client may not hold two
      reservations at one date-time. */
  function ValidateNoReservationsForClientAtDateTime(orders: seq<OrderRow>, c: ClientId, dt: DateTime): (r: Outcome)
    ensures r.Pass? <==> forall o :: o in orders ==> !(o.clientId == c && o.status == Reserved && o.dateTime == dt)
    ensures r.Fail? ==> r.error == BadRequest
  {
    if SlotCount(orders, c, dt) > 0 then Fail(BadRequest) else Pass
  }

  /** `validateHourlyLimit`: a date-time whose reserved count has reached the
      date's per-slot limit is refused; a missing schedule row is a configuration error. */
  function ValidateHourlyLimit(data: ScheduleData, orders: seq<OrderRow>, dt: DateTime): (r: Outcome)
    ensures r.Pass? <==> GetLimitPerHour(data, dt.date).Ok? &&
                         CountReservationsForDateTime(orders, dt) < GetLimitPerHour(data, dt.date).value
    ensures r == Fail(InternalServerError) <==> GetLimitPerHour(data, dt.date).Err?
    ensures r.Fail? ==> r.error != NotFound
  {
    var count := CountReservationsForDateTime(orders, dt);
    match GetLimitPerHour(data, dt.date)
    case Err(e) => Fail(e)
    case Ok(limit) => if count >= limit then Fail(BadRequest) else Pass
  }

  /** `validateClientDailyLimit`: the client's reserved rows on the date plus
      the hours asked for may not exceed the date's per-client quota. */
  function ValidateClientDailyLimit(data: ScheduleData, orders: seq<OrderRow>, c: ClientId,
                                    date: Date, hourCount: int): (r: Outcome)
    ensures r.Pass? <==> GetDailyLimitPerClients(data, date).Ok? &&
                         DayCount(orders, c, date) + hourCount <= GetDailyLimitPerClients(data, date).value
    ensures r == Fail(InternalServerError) <==> GetDailyLimitPerClients(data, date).Err?
    ensures r.Fail? ==> r.error != NotFound
  {
    var count := DayCount(orders, c, date);
    match GetDailyLimitPerClients(data, date)
    case Err(e) => Fail(e)
    case Ok(limit) => if count + hourCount > limit then Fail(BadRequest) else Pass
  }

  /** `getReservedTimesForDate`: the time of day of every reserved row on the
      date, duplicates kept, in store order. */
  function ReservedTimesForDate(orders: seq<OrderRow>, date: Date): (r: seq<TimeOfDay>)
    ensures |r| == |Select(orders, ReservedBetween(AtStartOfDay(date), AtEndOfDay(date)))|
  {
    var dts := FindReservedDateTimesByDateRange(orders, AtStartOfDay(date), AtEndOfDay(date));
    seq(|dts|, i requires 0 <= i < |dts| => dts[i].time)
  }

  /** Appending a row appends its time exactly when it is a reserved row on the date. */
  lemma ReservedTimesAppend(s: seq<OrderRow>, x: OrderRow, date: Date)
    ensures ReservedTimesForDate(s + [x], date) ==
            ReservedTimesForDate(s, date) +
            (if x.status == Reserved && x.dateTime.date == date then [x.dateTime.time] else [])
  {
    var q := ReservedBetween(AtStartOfDay(date), AtEndOfDay(date));
    SelectConcat(s, [x], q);
    SelectSingle(x, q);
    BetweenDayBounds(x.dateTime, date);
    var a, b := ReservedTimesForDate(s + [x], date), ReservedTimesForDate(s, date);
    var tail := if x.status == Reserved && x.dateTime.date == date then [x.dateTime.time] else [];
    var sel := Select(s + [x], q);
    assert sel == Select(s, q) + (if Matches(q, x) then [x] else []);
    assert |a| == |b| + |tail|;
    forall i | 0 <= i < |a|
      ensures a[i] == (b + tail)[i]
    {
      if i < |b| {
        assert sel[i] == Select(s, q)[i];
      } else {
        assert sel[i] == x;
      }
    }
    assert a == b + tail;
  }

  /** Each time of the list occurs as often as there are reserved rows at that
      date-time: the list carries exactly the per-slot counts. */
  lemma {:induction false} ReservedTimesCount(orders: seq<OrderRow>, date: Date, t: TimeOfDay)
    ensures multiset(ReservedTimesForDate(orders, date))[t] == CountReservationsForDateTime(orders, DateTime(date, t))
    decreases |orders|
  {
    if orders != [] {
      ReservedTimesCountStep(orders, date, t);
      ReservedTimesCount(orders[..|orders| - 1], date, t);
    }
  }

  /** The last row adds one occurrence of the time to the list and one to the
      slot's count exactly when it is reserved at that date-time. */
  lemma ReservedTimesCountStep(orders: seq<OrderRow>, date: Date, t: TimeOfDay)
    requires orders != []
    ensures var s, x := orders[..|orders| - 1], orders[|orders| - 1];
            var one := if x.status == Reserved && x.dateTime == DateTime(date, t) then 1 else 0;
            multiset(ReservedTimesForDate(orders, date))[t] == multiset(ReservedTimesForDate(s, date))[t] + one &&
            CountReservationsForDateTime(orders, DateTime(date, t)) ==
              CountReservationsForDateTime(s, DateTime(date, t)) + one
  {
    var s, x := orders[..|orders| - 1], orders[|orders| - 1];
    assert orders == s + [x];
    ReservedTimesAppend(s, x, date);
    CountsAfterAppend(s, x, ReservedAt(DateTime(date, t)));
  }

  // ---------------------------------------------------------------------
  // The check sequences

  /** The checks of `reserve`, in the order `reserve` runs them; the first failure decides. */
  function ReserveChecks(data: ScheduleData, clients: map<ClientId, string>, orders: seq<OrderRow>,
                         clock: Clock, c: ClientId, dt: DateTime): (r: Outcome)
    requires EndsInTime(data)
    ensures r == Fail(NotFound) <==> c !in clients
    ensures r == Fail(InternalServerError) <==>
              c in clients && ValidateDateTimeNotInPastForReserve(clock, dt).Pass? &&
              ValidateMaxFutureDateTimeForReserve(clock, dt).Pass? &&
              GeneratedTimeSlots(data, clock.now, dt.date).Err?
    ensures r.Pass? <==>
              c in clients && ValidateDateTimeNotInPastForReserve(clock, dt).Pass? &&
              ValidateMaxFutureDateTimeForReserve(clock, dt).Pass? &&
              IsWithinWorkHour(data, clock.now, dt) == Ok(true) &&
              ValidateClientDailyLimit(data, orders, c, dt.date, 1).Pass? &&
              ValidateNoReservationsForClientAtDateTime(orders, c, dt).Pass? &&
              ValidateHourlyLimit(data, orders, dt).Pass?
  {
    if c !in clients then Fail(NotFound)
    else
      :- ValidateDateTimeNotInPastForReserve(clock, dt);
      :- ValidateMaxFutureDateTimeForReserve(clock, dt);
      match IsWithinWorkHour(data, clock.now, dt)
      case Err(e) => Fail(e)
      case Ok(within) =>
        if !within then Fail(BadRequest)
        else
          :- ValidateClientDailyLimit(data, orders, c, dt.date, 1);
          :- ValidateNoReservationsForClientAtDateTime(orders, c, dt);
          ValidateHourlyLimit(data, orders, dt)
  }

  /** The two checks the multi-hour stream applies to one hour, in order. */
  function HourChecks(data: ScheduleData, orders: seq<OrderRow>, c: ClientId, dt: DateTime): (r: Outcome)
    ensures r.Fail? ==> r.error != NotFound
  {
    match ValidateNoReservationsForClientAtDateTime(orders, c, dt)
    case Fail(e) => Fail(e)
    case Pass => ValidateHourlyLimit(data, orders, dt)
  }

  /** One streamed hour passes exactly when the client has nothing reserved
      at that hour and the slot is below its limit. */
  lemma HourChecksMeaning(data: ScheduleData, orders: seq<OrderRow>, c: ClientId, dt: DateTime)
    ensures HourChecks(data, orders, c, dt).Pass? <==>
            (forall o :: o in orders ==> !(o.clientId == c && o.status == Reserved && o.dateTime == dt)) &&
            GetLimitPerHour(data, dt.date).Ok? &&
            CountReservationsForDateTime(orders, dt) < GetLimitPerHour(data, dt.date).value
  {
  }

  /** The outcomes of the per-hour checks of the hours 0, 1, ..., n - 1 after
      the start, all against the same store. */
  function HourOutcomes(data: ScheduleData, orders: seq<OrderRow>, c: ClientId,
                        start: DateTime, n: nat): (r: seq<Outcome>)
    ensures |r| == n
    ensures forall j :: 0 <= j < n ==> r[j] == HourChecks(data, orders, c, PlusHours(start, j))
  {
    seq(n, j requires 0 <= j < n => HourChecks(data, orders, c, PlusHours(start, j)))
  }

  /** The stream's checks fail, if at all, with the failure of the first
      hour that does not pass, and never with NOT_FOUND. */
  lemma HourStreamFailure(data: ScheduleData, orders: seq<OrderRow>, c: ClientId, start: DateTime, n: nat)
    ensures var r := FirstFailure(HourOutcomes(data, orders, c, start, n), 0);
            r.Fail? ==> r.error != NotFound &&
                        exists j :: 0 <= j < n && HourChecks(data, orders, c, PlusHours(start, j)) == r &&
                                    forall i :: 0 <= i < j ==> HourChecks(data, orders, c, PlusHours(start, i)).Pass?
  {
    FirstFailureIsFirst(HourOutcomes(data, orders, c, start, n), 0);
  }

  /** The checks `reserveForMultiHours` makes before it streams the hours, in
      the order `reserveForMultiHours` runs them: the client, then a range ending on another date,
      then the past, the horizon, the range of slots and the daily quota. */
  function MultiHourRangeChecks(data: ScheduleData, clients: map<ClientId, string>, orders: seq<OrderRow>,
                                clock: Clock, c: ClientId, start: DateTime, hourCount: int): (r: Outcome)
    requires EndsInTime(data)
    ensures r == Fail(NotFound) <==> c !in clients
    ensures c in clients && PlusHours(start, hourCount).date != start.date ==> r == Fail(BadRequest)
    ensures r == Fail(InternalServerError) <==>
              c in clients && PlusHours(start, hourCount).date == start.date &&
              ValidateDateTimeNotInPastForReserve(clock, start).Pass? &&
              ValidateMaxFutureDateTimeForReserve(clock, start).Pass? &&
              GeneratedTimeSlots(data, clock.now, start.date).Err?
    ensures r.Pass? <==>
              c in clients && PlusHours(start, hourCount).date == start.date &&
              ValidateDateTimeNotInPastForReserve(clock, start).Pass? &&
              ValidateMaxFutureDateTimeForReserve(clock, start).Pass? &&
              IsWithinWorkHourRange(data, clock.now, start.date, start.time,
                                    PlusHours(start, hourCount).time) == Ok(true) &&
              ValidateClientDailyLimit(data, orders, c, start.date, hourCount).Pass?
  {
    if c !in clients then Fail(NotFound)
    else
      var end := PlusHours(start, hourCount);
      if start.date != end.date then Fail(BadRequest)
      else
        :- ValidateDateTimeNotInPastForReserve(clock, start);
        :- ValidateMaxFutureDateTimeForReserve(clock, start);
        match IsWithinWorkHourRange(data, clock.now, start.date, start.time, end.time)
        case Err(e) => Fail(e)
        case Ok(within) =>
          if !within then Fail(BadRequest)
          else ValidateClientDailyLimit(data, orders, c, start.date, hourCount)
  }

  /** All checks of `reserveForMultiHours`: the range checks, then each hour in turn. */
  function MultiHourChecks(data: ScheduleData, clients: map<ClientId, string>, orders: seq<OrderRow>,
                           clock: Clock, c: ClientId, start: DateTime, hourCount: int): Outcome
    requires EndsInTime(data)
  {
    match MultiHourRangeChecks(data, clients, orders, clock, c, start, hourCount)
    case Fail(e) => Fail(e)
    case Pass => FirstFailure(HourOutcomes(data, orders, c, start, if hourCount < 0 then 0 else hourCount), 0)
  }

  /** Once the slots of the start's date can be generated, no hour of a
      same-day stream fails with INTERNAL_SERVER_ERROR: every hour lies on
      that date, whose schedule row exists. */
  lemma HourStreamNoInternalError(data: ScheduleData, orders: seq<OrderRow>, c: ClientId,
                                  start: DateTime, n: nat)
    requires GetWorkHour(data, start.date).Ok? && PlusHours(start, n).date == start.date
    ensures FirstFailure(HourOutcomes(data, orders, c, start, n), 0) != Fail(InternalServerError)
  {
    HourStreamFailure(data, orders, c, start, n);
    var r := FirstFailure(HourOutcomes(data, orders, c, start, n), 0);
    if r.Fail? {
      var j :| 0 <= j < n && HourChecks(data, orders, c, PlusHours(start, j)) == r;
      SameDayHours(start, n, j);
      assert GetLimitPerHour(data, PlusHours(start, j).date).Ok?;
    }
  }

  /** The checks of `reserveForMultiHours` fail with NOT_FOUND exactly when the
      client is unknown, refuse a range ending on another date, fail with
      INTERNAL_SERVER_ERROR exactly when the date's slots cannot be generated
      after the window checks pass, and pass exactly when every range check
      and every hour's checks hold. */
  lemma MultiHourChecksMeaning(data: ScheduleData, clients: map<ClientId, string>, orders: seq<OrderRow>,
                               clock: Clock, c: ClientId, start: DateTime, hourCount: nat)
    requires EndsInTime(data)
    ensures var r := MultiHourChecks(data, clients, orders, clock, c, start, hourCount);
            (r == Fail(NotFound) <==> c !in clients) &&
            (c in clients && PlusHours(start, hourCount).date != start.date ==> r == Fail(BadRequest)) &&
            (r == Fail(InternalServerError) <==>
              c in clients && PlusHours(start, hourCount).date == start.date &&
              ValidateDateTimeNotInPastForReserve(clock, start).Pass? &&
              ValidateMaxFutureDateTimeForReserve(clock, start).Pass? &&
              GeneratedTimeSlots(data, clock.now, start.date).Err?) &&
            (r.Pass? <==>
              c in clients && PlusHours(start, hourCount).date == start.date &&
              ValidateDateTimeNotInPastForReserve(clock, start).Pass? &&
              ValidateMaxFutureDateTimeForReserve(clock, start).Pass? &&
              IsWithinWorkHourRange(data, clock.now, start.date, start.time,
                                    PlusHours(start, hourCount).time) == Ok(true) &&
              ValidateClientDailyLimit(data, orders, c, start.date, hourCount).Pass? &&
              forall j :: 0 <= j < hourCount ==> HourChecks(data, orders, c, PlusHours(start, j)).Pass?)
  {
    var hours := HourOutcomes(data, orders, c, start, hourCount);
    FirstFailurePass(hours, 0);
    HourStreamFailure(data, orders, c, start, hourCount);
    if MultiHourRangeChecks(data, clients, orders, clock, c, start, hourCount).Pass? {
      HourStreamNoInternalError(data, orders, c, start, hourCount);
    }
  }

  /** The checks of `cancelReservation`: the client must exist, the order must
      exist and must not be cancelled already. Whether the order belongs to
      the client is not examined. */
  function CancelChecks(clients: map<ClientId, string>, orders: seq<OrderRow>,
                        c: ClientId, orderId: int): (r: Outcome)
    ensures r.Pass? <==> c in clients && FindById(orders, orderId).Some? &&
                         FindById(orders, orderId).value.status == Reserved
    ensures r == Fail(NotFound) <==> c !in clients || FindById(orders, orderId).None?
    ensures r.Fail? ==> r.error != InternalServerError
  {
    if c !in clients then Fail(NotFound)
    else
      var found := FindById(orders, orderId);
      if found.None? then Fail(NotFound)
      else if found.value.status == Cancelled then Fail(BadRequest)
      else
        assert found.value.status == Reserved;
        Pass
  }

  // ---------------------------------------------------------------------
  // Multi-hour batches

  /** The k-th row a multi-hour reservation writes: the id the store hands
      out k-th, the client, k hours after the start, reserved. */
  function BatchRow(id0: int, c: ClientId, start: DateTime, k: int): OrderRow {
    OrderRow(id0 + k, c, PlusHours(start, k), Reserved)
  }

  /** The rows `saveAll` appends for `n` hours from the start, in ascending order. */
  function Batch(id0: int, c: ClientId, start: DateTime, n: nat): (r: seq<OrderRow>)
    ensures |r| == n && forall k :: 0 <= k < n ==> r[k] == BatchRow(id0, c, start, k)
  {
    seq(n, k requires 0 <= k < n => BatchRow(id0, c, start, k))
  }

  /** The date-time lies a whole number of hours, fewer than n, after the start. */
  predicate InBatch(start: DateTime, n: int, dt: DateTime) {
    var d := Minutes(dt) - Minutes(start);
    0 <= d < n * MinutesPerHour && d % MinutesPerHour == 0
  }

  /** How many hours after the start a date-time of the batch lies. */
  function HourIndex(start: DateTime, dt: DateTime): (r: int)
    ensures (Minutes(dt) - Minutes(start)) % MinutesPerHour == 0 ==>
              r * MinutesPerHour == Minutes(dt) - Minutes(start)
  {
    (Minutes(dt) - Minutes(start)) / MinutesPerHour
  }

  /** A date-time 60k minutes after the start lies k hours after it. */
  lemma HourIndexOf(start: DateTime, k: int, dt: DateTime)
    requires Minutes(dt) - Minutes(start) == k * MinutesPerHour
    ensures HourIndex(start, dt) == k
  {
  }

  /** The hour k after the start is the given date-time exactly when the
      date-time lies 60k minutes after the start. */
  lemma PlusHoursIs(start: DateTime, k: int, dt: DateTime)
    ensures PlusHours(start, k) == dt <==> Minutes(dt) - Minutes(start) == k * MinutesPerHour
  {
    BeforeIsMinutesOrder(PlusHours(start, k), dt);
  }

  /** The hours of a batch of n are those of a batch of n - 1 and hour n - 1. */
  lemma InBatchStep(start: DateTime, n: int, dt: DateTime)
    requires n > 0
    ensures InBatch(start, n, dt) <==>
              InBatch(start, n - 1, dt) || Minutes(dt) - Minutes(start) == (n - 1) * MinutesPerHour
  {
    var d := Minutes(dt) - Minutes(start);
    if InBatch(start, n, dt) && d != (n - 1) * MinutesPerHour {
      var m := d / MinutesPerHour;
      assert d == m * MinutesPerHour;
    }
  }

  /** A batch of n rows is the batch of n - 1 rows followed by the row of hour n - 1. */
  lemma BatchStep(id0: int, c: ClientId, start: DateTime, n: nat)
    requires n > 0
    ensures Batch(id0, c, start, n) == Batch(id0, c, start, n - 1) + [BatchRow(id0, c, start, n - 1)]
  {
  }

  /** The expected count of BatchAtOneDateTime grows by one step exactly
      when the batch's last row is admitted: a date-time n - 1 hours after the
      start is a new hour whose row is the last row; any other date-time is an
      hour of both batches or of neither, and the last row lies elsewhere. */
  lemma BatchLastHour(id0: int, c: ClientId, start: DateTime, n: nat, q: Query, dt: DateTime)
    requires n > 0
    requires forall o :: Matches(q, o) ==> o.dateTime == dt
    ensures (if InBatch(start, n, dt) && Matches(q, OrderRow(id0 + HourIndex(start, dt), c, dt, Reserved)) then 1 else 0) ==
            (if InBatch(start, n - 1, dt) && Matches(q, OrderRow(id0 + HourIndex(start, dt), c, dt, Reserved)) then 1 else 0) +
            (if Matches(q, BatchRow(id0, c, start, n - 1)) then 1 else 0)
  {
    PlusHoursIs(start, n - 1, dt);
    InBatchStep(start, n, dt);
    if Minutes(dt) - Minutes(start) == (n - 1) * MinutesPerHour {
      HourIndexOf(start, n - 1, dt);
    } else {
      assert !Matches(q, BatchRow(id0, c, start, n - 1));
    }
  }

  /** A query that admits rows at one date-time only admits at most one row
      of a batch: the row of that hour, when the date-time is one of the batch's hours. */
  lemma {:induction false} BatchAtOneDateTime(id0: int, c: ClientId, start: DateTime, n: nat,
                                              q: Query, dt: DateTime)
    requires forall o :: Matches(q, o) ==> o.dateTime == dt
    ensures |Select(Batch(id0, c, start, n), q)| ==
            if InBatch(start, n, dt) && Matches(q, OrderRow(id0 + HourIndex(start, dt), c, dt, Reserved)) then 1 else 0
    decreases n
  {
    if n > 0 {
      BatchCountStep(id0, c, start, n, q);
      BatchAtOneDateTime(id0, c, start, n - 1, q, dt);
      BatchLastHour(id0, c, start, n, q, dt);
    }
  }

  /** A query admits the rows of a batch of n that it admits of the batch of
      n - 1, and the last row when it matches. */
  lemma BatchCountStep(id0: int, c: ClientId, start: DateTime, n: nat, q: Query)
    requires n > 0
    ensures |Select(Batch(id0, c, start, n), q)| ==
            |Select(Batch(id0, c, start, n - 1), q)| + if Matches(q, BatchRow(id0, c, start, n - 1)) then 1 else 0
  {
    BatchStep(id0, c, start, n);
    CountsAfterAppend(Batch(id0, c, start, n - 1), BatchRow(id0, c, start, n - 1), q);
  }

  /** A batch holds one reserved row at each of its hours and none elsewhere. */
  lemma BatchReservedAt(id0: int, c: ClientId, start: DateTime, n: nat, t: DateTime)
    ensures |Select(Batch(id0, c, start, n), ReservedAt(t))| == if InBatch(start, n, t) then 1 else 0
  {
    BatchAtOneDateTime(id0, c, start, n, ReservedAt(t), t);
  }

  /** Every row of a same-day batch lies on the start's date and belongs to
      the client: the client's daily count grows by the batch's length. */
  lemma {:induction false} BatchDayCount(id0: int, c: ClientId, start: DateTime, n: nat,
                                         c': ClientId, d: Date)
    requires start.time + n * MinutesPerHour <= MinutesPerDay
    ensures DayCount(Batch(id0, c, start, n), c', d) == if c' == c && d == start.date then n else 0
    decreases n
  {
    if n > 0 {
      var b := Batch(id0, c, start, n - 1);
      var x := BatchRow(id0, c, start, n - 1);
      assert Batch(id0, c, start, n) == b + [x];
      BatchRowOnStartDate(id0, c, start, n - 1);
      BatchDayCount(id0, c, start, n - 1, c', d);
      CountsAfterAppend(b, x, ClientReservedBetween(c', AtStartOfDay(d), AtEndOfDay(d)));
      BetweenDayBounds(x.dateTime, d);
    }
  }

  /** The row of hour k of a batch that fits in its day lies on the start's
      date, and the batch of k hours fits in the day too. */
  lemma BatchRowOnStartDate(id0: int, c: ClientId, start: DateTime, k: nat)
    requires start.time + (k + 1) * MinutesPerHour <= MinutesPerDay
    ensures start.time + k * MinutesPerHour <= MinutesPerDay
    ensures BatchRow(id0, c, start, k).dateTime.date == start.date
  {
    assert (k + 1) * MinutesPerHour == k * MinutesPerHour + MinutesPerHour;
  }

  // ---------------------------------------------------------------------
  // Store invariants

  /** Per-slot capacity: no date-time holds more reserved rows than its date's
      limit per hour. */
  ghost predicate HourlyCapacity(data: ScheduleData, orders: seq<OrderRow>) {
    forall dt :: CountReservationsForDateTime(orders, dt) > 0 ==>
      GetLimitPerHour(data, dt.date).Ok? &&
      CountReservationsForDateTime(orders, dt) <= GetLimitPerHour(data, dt.date).value
  }

  /** One booking per client and slot: a client holds at most one reserved row
      at any date-time. */
  ghost predicate OneBookingPerClientSlot(orders: seq<OrderRow>) {
    forall c, dt :: SlotCount(orders, c, dt) <= 1
  }

  /** Daily quota: no client holds more reserved rows on a date than the
      date's limit per client. */
  ghost predicate DailyQuota(data: ScheduleData, orders: seq<OrderRow>) {
    forall c, d :: DayCount(orders, c, d) > 0 ==>
      GetDailyLimitPerClients(data, d).Ok? &&
      DayCount(orders, c, d) <= GetDailyLimitPerClients(data, d).value
  }

  ghost predicate BookingInvariants(data: ScheduleData, orders: seq<OrderRow>) {
    HourlyCapacity(data, orders) && OneBookingPerClientSlot(orders) && DailyQuota(data, orders)
  }

  /** The empty store satisfies every invariant. */
  lemma EmptyStoreInvariants(data: ScheduleData)
    ensures BookingInvariants(data, [])
  {
  }

  /** Appending a reserved row at a slot below its limit keeps per-slot capacity. */
  lemma AppendKeepsHourlyCapacity(data: ScheduleData, orders: seq<OrderRow>, x: OrderRow)
    requires HourlyCapacity(data, orders) && x.status == Reserved
    requires GetLimitPerHour(data, x.dateTime.date).Ok?
    requires CountReservationsForDateTime(orders, x.dateTime) < GetLimitPerHour(data, x.dateTime.date).value
    ensures HourlyCapacity(data, orders + [x])
  {
    var after := orders + [x];
    forall t | CountReservationsForDateTime(after, t) > 0
      ensures GetLimitPerHour(data, t.date).Ok? &&
              CountReservationsForDateTime(after, t) <= GetLimitPerHour(data, t.date).value
    {
      CountsAfterAppend(orders, x, ReservedAt(t));
      if t != x.dateTime {
        assert CountReservationsForDateTime(after, t) == CountReservationsForDateTime(orders, t);
      }
    }
  }

  /** Appending a reserved row for a client with no row at that slot keeps one
      booking per client and slot. */
  lemma AppendKeepsOneBookingPerClientSlot(orders: seq<OrderRow>, x: OrderRow)
    requires OneBookingPerClientSlot(orders) && x.status == Reserved
    requires SlotCount(orders, x.clientId, x.dateTime) == 0
    ensures OneBookingPerClientSlot(orders + [x])
  {
    var after := orders + [x];
    forall c', t
      ensures SlotCount(after, c', t) <= 1
    {
      CountsAfterAppend(orders, x, ClientReservedBetween(c', t, t));
      if c' != x.clientId || t != x.dateTime {
        assert SlotCount(after, c', t) == SlotCount(orders, c', t);
      }
    }
  }

  /** Appending a reserved row for a client whose day has room keeps the daily quota. */
  lemma AppendKeepsDailyQuota(data: ScheduleData, orders: seq<OrderRow>, x: OrderRow)
    requires DailyQuota(data, orders) && x.status == Reserved
    requires GetDailyLimitPerClients(data, x.dateTime.date).Ok?
    requires DayCount(orders, x.clientId, x.dateTime.date) + 1 <= GetDailyLimitPerClients(data, x.dateTime.date).value
    ensures DailyQuota(data, orders + [x])
  {
    var after := orders + [x];
    forall c', d | DayCount(after, c', d) > 0
      ensures GetDailyLimitPerClients(data, d).Ok? &&
              DayCount(after, c', d) <= GetDailyLimitPerClients(data, d).value
    {
      CountsAfterAppend(orders, x, ClientReservedBetween(c', AtStartOfDay(d), AtEndOfDay(d)));
      BetweenDayBounds(x.dateTime, d);
      if c' != x.clientId || d != x.dateTime.date {
        assert DayCount(after, c', d) == DayCount(orders, c', d);
      }
    }
  }

  /** A reservation whose checks pass keeps every invariant when its row is appended. */
  lemma ReservePreservesInvariants(data: ScheduleData, clients: map<ClientId, string>,
                                   orders: seq<OrderRow>, clock: Clock, c: ClientId,
                                   dt: DateTime, id: int)
    requires EndsInTime(data) && BookingInvariants(data, orders)
    requires ReserveChecks(data, clients, orders, clock, c, dt).Pass?
    ensures BookingInvariants(data, orders + [OrderRow(id, c, dt, Reserved)])
  {
    var x := OrderRow(id, c, dt, Reserved);
    assert ValidateNoReservationsForClientAtDateTime(orders, c, dt).Pass?;
    assert SlotCount(orders, c, dt) == 0;
    AppendKeepsHourlyCapacity(data, orders, x);
    AppendKeepsOneBookingPerClientSlot(orders, x);
    AppendKeepsDailyQuota(data, orders, x);
  }

  /** Appending a batch whose every hour is below its slot's limit keeps per-slot capacity. */
  lemma AppendBatchKeepsHourlyCapacity(data: ScheduleData, orders: seq<OrderRow>,
                                       id0: int, c: ClientId, start: DateTime, h: nat)
    requires HourlyCapacity(data, orders)
    requires forall j :: 0 <= j < h ==> ValidateHourlyLimit(data, orders, PlusHours(start, j)).Pass?
    ensures HourlyCapacity(data, orders + Batch(id0, c, start, h))
  {
    var b := Batch(id0, c, start, h);
    var after := orders + b;
    forall t | CountReservationsForDateTime(after, t) > 0
      ensures GetLimitPerHour(data, t.date).Ok? &&
              CountReservationsForDateTime(after, t) <= GetLimitPerHour(data, t.date).value
    {
      SelectConcat(orders, b, ReservedAt(t));
      BatchReservedAt(id0, c, start, h, t);
      assert CountReservationsForDateTime(after, t) ==
             CountReservationsForDateTime(orders, t) + |Select(b, ReservedAt(t))|;
      if |Select(b, ReservedAt(t))| > 0 {
        var k := HourIndex(start, t);
        assert 0 <= k < h;
        PlusHoursIs(start, k, t);
        assert PlusHours(start, k) == t;
        assert ValidateHourlyLimit(data, orders, t).Pass?;
      } else {
        assert CountReservationsForDateTime(after, t) == CountReservationsForDateTime(orders, t);
      }
    }
  }

  /** Appending a batch of a client with no row at any of its hours keeps one
      booking per client and slot. */
  lemma AppendBatchKeepsOneBookingPerClientSlot(orders: seq<OrderRow>,
                                                id0: int, c: ClientId, start: DateTime, h: nat)
    requires OneBookingPerClientSlot(orders)
    requires forall j :: 0 <= j < h ==> SlotCount(orders, c, PlusHours(start, j)) == 0
    ensures OneBookingPerClientSlot(orders + Batch(id0, c, start, h))
  {
    var b := Batch(id0, c, start, h);
    var after := orders + b;
    forall c', t
      ensures SlotCount(after, c', t) <= 1
    {
      var q := ClientReservedBetween(c', t, t);
      SelectConcat(orders, b, q);
      BatchAtOneDateTime(id0, c, start, h, q, t);
      assert SlotCount(after, c', t) == SlotCount(orders, c', t) + |Select(b, q)|;
      if InBatch(start, h, t) && c' == c {
        var k := HourIndex(start, t);
        PlusHoursIs(start, k, t);
        assert PlusHours(start, k) == t;
      }
    }
  }

  /** Appending a same-day batch for a client whose day has room for all of
      its hours keeps the daily quota. */
  lemma AppendBatchKeepsDailyQuota(data: ScheduleData, orders: seq<OrderRow>,
                                   id0: int, c: ClientId, start: DateTime, h: nat)
    requires DailyQuota(data, orders)
    requires start.time + h * MinutesPerHour <= MinutesPerDay
    requires GetDailyLimitPerClients(data, start.date).Ok?
    requires DayCount(orders, c, start.date) + h <= GetDailyLimitPerClients(data, start.date).value
    ensures DailyQuota(data, orders + Batch(id0, c, start, h))
  {
    var b := Batch(id0, c, start, h);
    var after := orders + b;
    forall c', d | DayCount(after, c', d) > 0
      ensures GetDailyLimitPerClients(data, d).Ok? &&
              DayCount(after, c', d) <= GetDailyLimitPerClients(data, d).value
    {
      SelectConcat(orders, b, ClientReservedBetween(c', AtStartOfDay(d), AtEndOfDay(d)));
      BatchDayCount(id0, c, start, h, c', d);
      assert DayCount(after, c', d) == DayCount(orders, c', d) + DayCount(b, c', d);
    }
  }

  /** A multi-hour reservation whose checks pass keeps every invariant when its
      batch is appended: every hour was checked against the store before the batch. */
  lemma MultiHourPreservesInvariants(data: ScheduleData, clients: map<ClientId, string>,
                                     orders: seq<OrderRow>, clock: Clock, c: ClientId,
                                     start: DateTime, hourCount: nat, id0: int)
    requires EndsInTime(data) && BookingInvariants(data, orders)
    requires MultiHourChecks(data, clients, orders, clock, c, start, hourCount).Pass?
    ensures BookingInvariants(data, orders + Batch(id0, c, start, hourCount))
  {
    MultiHourChecksMeaning(data, clients, orders, clock, c, start, hourCount);
    forall j | 0 <= j < hourCount
      ensures ValidateHourlyLimit(data, orders, PlusHours(start, j)).Pass?
      ensures SlotCount(orders, c, PlusHours(start, j)) == 0
    {
      assert HourChecks(data, orders, c, PlusHours(start, j)).Pass?;
    }
    assert start.time + hourCount * MinutesPerHour <= MinutesPerDay by {
      assert PlusHours(start, hourCount).date == start.date;
      assert Minutes(PlusHours(start, hourCount)) == Minutes(start) + hourCount * MinutesPerHour;
    }
    AppendBatchKeepsHourlyCapacity(data, orders, id0, c, start, hourCount);
    AppendBatchKeepsOneBookingPerClientSlot(orders, id0, c, start, hourCount);
    AppendBatchKeepsDailyQuota(data, orders, id0, c, start, hourCount);
  }

  /** Cancelling a row: the row with its status set to cancelled. */
  function CancelRow(o: OrderRow): (r: OrderRow)
    ensures r.id == o.id && r.clientId == o.clientId && r.dateTime == o.dateTime && r.status == Cancelled
  {
    o.(status := Cancelled)
  }

  /** Cancelling a row never raises a count of reserved rows, so every invariant survives. */
  lemma CancelPreservesInvariants(data: ScheduleData, orders: seq<OrderRow>, i: int)
    requires 0 <= i < |orders| && BookingInvariants(data, orders)
    ensures BookingInvariants(data, orders[i := CancelRow(orders[i])])
  {
    CancelKeepsHourlyCapacity(data, orders, i);
    CancelKeepsOneBookingPerClientSlot(orders, i);
    CancelKeepsDailyQuota(data, orders, i);
  }

  /** Cancelling a row raises no slot's reserved count. */
  lemma CancelKeepsHourlyCapacity(data: ScheduleData, orders: seq<OrderRow>, i: int)
    requires 0 <= i < |orders| && HourlyCapacity(data, orders)
    ensures HourlyCapacity(data, orders[i := CancelRow(orders[i])])
  {
    var after := orders[i := CancelRow(orders[i])];
    forall t | CountReservationsForDateTime(after, t) > 0
      ensures GetLimitPerHour(data, t.date).Ok? &&
              CountReservationsForDateTime(after, t) <= GetLimitPerHour(data, t.date).value
    {
      SelectUpdateUnmatched(orders, i, CancelRow(orders[i]), ReservedAt(t));
      assert CountReservationsForDateTime(after, t) <= CountReservationsForDateTime(orders, t);
    }
  }

  /** Cancelling a row raises no client's count at a date-time. */
  lemma CancelKeepsOneBookingPerClientSlot(orders: seq<OrderRow>, i: int)
    requires 0 <= i < |orders| && OneBookingPerClientSlot(orders)
    ensures OneBookingPerClientSlot(orders[i := CancelRow(orders[i])])
  {
    var after := orders[i := CancelRow(orders[i])];
    forall c', t
      ensures SlotCount(after, c', t) <= 1
    {
      SelectUpdateUnmatched(orders, i, CancelRow(orders[i]), ClientReservedBetween(c', t, t));
      assert SlotCount(after, c', t) <= SlotCount(orders, c', t);
    }
  }

  /** Cancelling a row raises no client's count on a date. */
  lemma CancelKeepsDailyQuota(data: ScheduleData, orders: seq<OrderRow>, i: int)
    requires 0 <= i < |orders| && DailyQuota(data, orders)
    ensures DailyQuota(data, orders[i := CancelRow(orders[i])])
  {
    var after := orders[i := CancelRow(orders[i])];
    forall c', d | DayCount(after, c', d) > 0
      ensures GetDailyLimitPerClients(data, d).Ok? &&
              DayCount(after, c', d) <= GetDailyLimitPerClients(data, d).value
    {
      SelectUpdateUnmatched(orders, i, CancelRow(orders[i]),
                            ClientReservedBetween(c', AtStartOfDay(d), AtEndOfDay(d)));
      assert DayCount(after, c', d) <= DayCount(orders, c', d);
    }
  }

  /** Status only moves forward: every row already stored keeps its id, client
      and date-time, and a cancelled row stays cancelled. */
  ghost predicate StatusOnlyForward(before: seq<OrderRow>, after: seq<OrderRow>) {
    |before| <= |after| &&
    forall i :: 0 <= i < |before| ==>
      after[i].id == before[i].id && after[i].clientId == before[i].clientId &&
      after[i].dateTime == before[i].dateTime &&
      (before[i].status == Cancelled ==> after[i].status == Cancelled)
  }

  /** Appending rows moves no status. */
  lemma AppendIsForward(before: seq<OrderRow>, rows: seq<OrderRow>)
    ensures StatusOnlyForward(before, before + rows)
  {
  }

  /** Cancelling a row moves its status forward only. */
  lemma CancelIsForward(before: seq<OrderRow>, i: int)
    requires 0 <= i < |before|
    ensures StatusOnlyForward(before, before[i := CancelRow(before[i])])
  {
  }

  // ---------------------------------------------------------------------
  // Identifiers

  /** The store position of the row with that id, or -1. */
  function IndexOfId(s: seq<OrderRow>, id: int): (r: int)
    ensures -1 <= r < |s|
    ensures r >= 0 ==> s[r].id == id
    ensures r == -1 <==> forall i :: 0 <= i < |s| ==> s[i].id != id
  {
    if s == [] then -1
    else if s[0].id == id then 0
    else
      var r := IndexOfId(s[1..], id);
      if r == -1 then -1 else r + 1
  }

  ghost predicate DistinctIds(s: seq<OrderRow>) {
    forall i, j :: 0 <= i < j < |s| ==> s[i].id != s[j].id
  }

  /** With distinct ids, `findById` finds exactly the row at the id's position. */
  lemma FindByIdAtIndex(s: seq<OrderRow>, id: int)
    requires DistinctIds(s)
    ensures FindById(s, id).Some? <==> IndexOfId(s, id) >= 0
    ensures FindById(s, id).Some? ==> FindById(s, id).value == s[IndexOfId(s, id)]
  {
    var f := FindById(s, id);
    if f.Some? {
      var j :| 0 <= j < |s| && s[j] == f.value;
      assert s[IndexOfId(s, id)].id == s[j].id;
    }
  }

  /** A batch takes the ids id0, id0 + 1, ... in order. */
  lemma BatchIds(s: seq<OrderRow>, id0: int, c: ClientId, start: DateTime, n: nat)
    requires DistinctIds(s) && forall i :: 0 <= i < |s| ==> s[i].id < id0
    ensures DistinctIds(s + Batch(id0, c, start, n))
    ensures forall i :: 0 <= i < |s| + n ==> (s + Batch(id0, c, start, n))[i].id < id0 + n
  {
    var t := s + Batch(id0, c, start, n);
    forall i, j | 0 <= i < j < |t|
      ensures t[i].id != t[j].id
    {
      if j >= |s| {
        assert t[j].id == id0 + (j - |s|);
        if i >= |s| {
          assert t[i].id == id0 + (i - |s|);
        }
      }
    }
  }

  /** The store's own invariants: ids are generated from 1 upwards and are
      distinct, and the three booking invariants hold. */
  ghost predicate StoreValid(schedule: ScheduleData, orders: seq<OrderRow>, nextId: int) {
    EndsInTime(schedule) && nextId >= 1 &&
    (forall i :: 0 <= i < |orders| ==> orders[i].id < nextId) &&
    DistinctIds(orders) && BookingInvariants(schedule, orders)
  }

  /** Inserting the row of a reservation whose checks pass, under the next id, keeps the store valid. */
  lemma ReserveKeepsStoreValid(schedule: ScheduleData, clients: map<ClientId, string>,
                               orders: seq<OrderRow>, nextId: int, clock: Clock, c: ClientId, dt: DateTime)
    requires StoreValid(schedule, orders, nextId)
    requires ReserveChecks(schedule, clients, orders, clock, c, dt).Pass?
    ensures StoreValid(schedule, orders + [OrderRow(nextId, c, dt, Reserved)], nextId + 1)
  {
    ReservePreservesInvariants(schedule, clients, orders, clock, c, dt, nextId);
    NextIdKeepsIdsDistinct(orders, OrderRow(nextId, c, dt, Reserved), nextId);
  }

  /** A row under an id above every stored id keeps the ids distinct and below the next id. */
  lemma NextIdKeepsIdsDistinct(s: seq<OrderRow>, row: OrderRow, nextId: int)
    requires DistinctIds(s) && (forall i :: 0 <= i < |s| ==> s[i].id < nextId) && row.id == nextId
    ensures DistinctIds(s + [row])
    ensures forall i :: 0 <= i < |s| + 1 ==> (s + [row])[i].id < nextId + 1
  {
    var t := s + [row];
    forall i, j | 0 <= i < j < |t|
      ensures t[i].id != t[j].id
    {
      assert t[i] == s[i];
      if j < |s| {
        assert t[j] == s[j];
      }
    }
  }

  /** Inserting the batch of a multi-hour reservation whose checks pass, under
      consecutive ids, keeps the store valid. */
  lemma MultiHourKeepsStoreValid(schedule: ScheduleData, clients: map<ClientId, string>,
                                 orders: seq<OrderRow>, nextId: int, clock: Clock, c: ClientId,
                                 start: DateTime, hourCount: nat)
    requires StoreValid(schedule, orders, nextId)
    requires MultiHourChecks(schedule, clients, orders, clock, c, start, hourCount).Pass?
    ensures StoreValid(schedule, orders + Batch(nextId, c, start, hourCount), nextId + hourCount)
  {
    MultiHourPreservesInvariants(schedule, clients, orders, clock, c, start, hourCount, nextId);
    BatchIds(orders, nextId, c, start, hourCount);
  }

  /** Cancelling a stored row keeps the store valid. */
  lemma CancelKeepsStoreValid(schedule: ScheduleData, orders: seq<OrderRow>, nextId: int, i: int)
    requires StoreValid(schedule, orders, nextId) && 0 <= i < |orders|
    ensures StoreValid(schedule, orders[i := CancelRow(orders[i])], nextId)
  {
    CancelPreservesInvariants(schedule, orders, i);
    var after := orders[i := CancelRow(orders[i])];
    assert forall j :: 0 <= j < |after| ==> after[j].id == orders[j].id;
  }

  /** The entities of a saved multi-hour batch: the k-th carries the k-th
      generated id, the client, the k-th hour from the start and the status
      reserved. */
  ghost predicate SavedBatch(entities: seq<Order>, id0: int, c: ClientId, start: DateTime)
    reads set k | 0 <= k < |entities| :: entities[k]
  {
    forall k :: 0 <= k < |entities| ==>
      entities[k].id == Some(id0 + k) && entities[k].client == Some(c) &&
      entities[k].dateTime == Some(PlusHours(start, k)) && entities[k].status == Some(Reserved)
  }

  /** The entities the multi-hour stream builds, before they are saved: the
      k-th has no id yet, the client, the k-th hour from the start and the
      status reserved. */
  ghost predicate StreamedBatch(entities: seq<Order>, c: ClientId, start: DateTime)
    reads set k | 0 <= k < |entities| :: entities[k]
  {
    forall k :: 0 <= k < |entities| ==>
      entities[k].id == None && entities[k].client == Some(c) &&
      entities[k].dateTime == Some(PlusHours(start, k)) && entities[k].status == Some(Reserved)
  }

  /** The `hasNext` test `dateTime.isBefore(end)` of the stream's
      `Stream.iterate` admits the k-th hour after the start exactly while k
      is below the hour count. */
  lemma StreamContinues(start: DateTime, k: int, hourCount: int)
    ensures Before(PlusHours(start, k), PlusHours(start, hourCount)) <==> k < hourCount
  {
    BeforeIsMinutesOrder(PlusHours(start, k), PlusHours(start, hourCount));
  }

  /** No entity occurs twice. */
  ghost predicate DistinctEntities(es: seq<Order>) {
    forall i, j :: 0 <= i < j < |es| ==> es[i] != es[j]
  }

  /** An entity not yet among distinct entities keeps them distinct. */
  lemma DistinctEntitiesAppend(es: seq<Order>, o: Order)
    requires DistinctEntities(es) && o !in es
    ensures DistinctEntities(es + [o])
  {
    var es' := es + [o];
    forall i, j | 0 <= i < j < |es'|
      ensures es'[i] != es'[j]
    {
      assert es'[i] == es[i];
      if j == |es| {
        assert es[i] in es;
      } else {
        assert es'[j] == es[j];
      }
    }
  }

  /** Building the entity for the next hour extends the streamed batch. */
  lemma StreamedBatchAppend(entities: seq<Order>, o: Order, c: ClientId, start: DateTime)
    requires StreamedBatch(entities, c, start)
    requires o.id == None && o.client == Some(c) && o.dateTime == Some(PlusHours(start, |entities|)) &&
             o.status == Some(Reserved)
    ensures StreamedBatch(entities + [o], c, start)
  {
    var es := entities + [o];
    forall k | 0 <= k < |es|
      ensures es[k].id == None && es[k].client == Some(c) &&
              es[k].dateTime == Some(PlusHours(start, k)) && es[k].status == Some(Reserved)
    {
      if k < |entities| {
        assert es[k] == entities[k];
      }
    }
  }

  /** The builder chain of the multi-hour stream:
      `newBuilder().client(c).dateTime(dt).status(RESERVED).build()`. */
  method NewReservedEntity(c: ClientId, dt: DateTime) returns (o: Order)
    ensures fresh(o) && o.id == None && o.client == Some(c) && o.dateTime == Some(dt) && o.status == Some(Reserved)
  {
    var builder := new Builder.NewBuilder();
    var b := builder.WithClient(Some(c));
    b := b.WithDateTime(Some(dt));
    b := b.WithStatus(Some(Reserved));
    var built := b.Build();
    assert built.Ok?;
    o := built.value;
  }

  // ---------------------------------------------------------------------
  // The service

  /** `OrderServiceImpl` over the order store. The client directory (ids and
      names) and the schedule are reference data it only reads; the store's
      rows and the next generated id are its state. */
  class OrderServiceImpl {
    const clients: map<ClientId, string>
    const schedule: ScheduleData
    var orders: seq<OrderRow>
    var nextId: int

    /** Ids are generated from 1 upwards and are distinct, and the store keeps
        the three booking invariants. */
    ghost predicate Valid()
      reads this
    {
      StoreValid(schedule, orders, nextId)
    }

    /** An empty store over the given directory and schedule. */
    constructor (clients: map<ClientId, string>, schedule: ScheduleData)
      requires EndsInTime(schedule)
      ensures Valid() && this.clients == clients && this.schedule == schedule
      ensures orders == [] && nextId == 1
    {
      this.clients := clients;
      this.schedule := schedule;
      orders := [];
      nextId := 1;
      new;
      EmptyStoreInvariants(schedule);
    }

    /** `getById`: the stored order with that id, or NOT_FOUND. */
    function GetById(id: int): (r: Result<OrderRow>)
      reads this
      ensures r.Ok? ==> r.value in orders && r.value.id == id
      ensures r.Err? <==> forall o :: o in orders ==> o.id != id
      ensures r.Err? ==> r.error == NotFound
    {
      match FindById(orders, id)
      case None => Err(NotFound)
      case Some(o) => Ok(o)
    }

    /** `getByDate`: every order on the date, whatever its status; NOT_FOUND when there is none. */
    function GetByDate(date: Date): (r: Result<seq<OrderRow>>)
      reads this
      ensures r.Ok? ==> r.value != [] && forall o :: o in r.value <==> o in orders && o.dateTime.date == date
      ensures r.Err? <==> forall o :: o in orders ==> o.dateTime.date != date
      ensures r.Err? ==> r.error == NotFound
    {
      var found := FindByDateTimeRange(orders, AtStartOfDay(date), AtEndOfDay(date));
      if found == [] then Err(NotFound)
      else
        assert found[0] in found;
        Ok(found)
    }

    /** `getByClientName`: every order of a client bearing that name, cancelled
        ones included; NOT_FOUND when there is none. */
    function GetByClientName(name: string): (r: Result<seq<OrderRow>>)
      reads this
      ensures r.Ok? ==> r.value != [] &&
                        forall o :: o in r.value <==> o in orders && o.clientId in clients && clients[o.clientId] == name
      ensures r.Err? <==> forall o :: o in orders ==> !(o.clientId in clients && clients[o.clientId] == name)
      ensures r.Err? ==> r.error == NotFound
    {
      var found := FindByClientName(orders, clients, name);
      if found == [] then Err(NotFound)
      else
        assert found[0] in found;
        Ok(found)
    }

    /** `getReservedSlotCountsForDate`: after the date window checks, counts
        the reserved times of the date into an insertion-ordered map, one
        `compute` per time; NOT_FOUND when the date has no reservation. */
    method GetReservedSlotCountsForDate(clock: Clock, date: Date) returns (r: Result<seq<(TimeOfDay, int)>>)
      ensures var window := ValidateDateNotInPast(clock, date).Pass? && ValidateMaxFutureDate(clock, date).Pass?;
              (r.Ok? <==> window && ReservedTimesForDate(orders, date) != []) &&
              (r.Err? ==> r.error == if window then NotFound else BadRequest)
      ensures r.Ok? ==>
                DistinctKeys(r.value) && Keys(r.value) == FirstSeen(ReservedTimesForDate(orders, date)) &&
                (forall j :: 0 <= j < |r.value| ==>
                   r.value[j].1 == CountReservationsForDateTime(orders, DateTime(date, r.value[j].0))) &&
                SumValues(r.value) == |Select(orders, ReservedBetween(AtStartOfDay(date), AtEndOfDay(date)))|
    {
      var check := ValidateDateNotInPast(clock, date);
      if check.Fail? {
        return Err(check.error);
      }
      check := ValidateMaxFutureDate(clock, date);
      if check.Fail? {
        return Err(check.error);
      }
      var times := ReservedTimesForDate(orders, date);
      var slots := CountAll(times);
      if slots == [] {
        return Err(NotFound);
      }
      forall j | 0 <= j < |slots|
        ensures slots[j].1 == CountReservationsForDateTime(orders, DateTime(date, slots[j].0))
      {
        ReservedTimesCount(orders, date, slots[j].0);
      }
      r := Ok(slots);
    }

    /** `getAvailableSlotCountsForDate`: after the date window checks, puts
        every generated slot of the date with the hourly limit into an
        insertion-ordered map, then lowers the entry of each reserved time that
        is a slot by one (`computeIfPresent`). */
    method GetAvailableSlotCountsForDate(clock: Clock, date: Date) returns (r: Result<seq<(TimeOfDay, int)>>)
      requires Valid()
      ensures var window := ValidateDateNotInPast(clock, date).Pass? && ValidateMaxFutureDate(clock, date).Pass?;
              var generated := GeneratedTimeSlots(schedule, clock.now, date);
              (r.Ok? <==> window && generated.Ok?) &&
              (r.Err? ==> r.error == if window then InternalServerError else BadRequest)
      ensures r.Ok? ==>
                var limit := GetLimitPerHour(schedule, date).value;
                DistinctKeys(r.value) && Keys(r.value) == GeneratedTimeSlots(schedule, clock.now, date).value &&
                forall j :: 0 <= j < |r.value| ==>
                  r.value[j].1 == limit - CountReservationsForDateTime(orders, DateTime(date, r.value[j].0)) &&
                  r.value[j].1 <= limit && (limit >= 0 ==> r.value[j].1 >= 0)
    {
      var check := ValidateDateNotInPast(clock, date);
      if check.Fail? {
        return Err(check.error);
      }
      check := ValidateMaxFutureDate(clock, date);
      if check.Fail? {
        return Err(check.error);
      }
      var times := ReservedTimesForDate(orders, date);
      var generated := GeneratedTimeSlots(schedule, clock.now, date);
      if generated.Err? {
        return Err(generated.error);
      }
      var hours := generated.value;
      var lim := GetLimitPerHour(schedule, date);
      assert lim.Ok?;
      var limit := lim.value;
      SlotsDistinct(schedule, clock.now, date);
      var slots := PutAll(hours, limit);
      slots := DecrementAll(slots, times);
      assert slots != [];
      forall j | 0 <= j < |slots|
        ensures slots[j].1 == limit - CountReservationsForDateTime(orders, DateTime(date, slots[j].0))
        ensures slots[j].1 <= limit && (limit >= 0 ==> slots[j].1 >= 0)
      {
        ReservedTimesCount(orders, date, slots[j].0);
      }
      r := Ok(slots);
    }

    /** `orderRepository.save`: an entity without an id is inserted under the
        next generated id, which the entity then carries; an entity with an id
        overwrites the stored row with that id. */
    method Save(o: Order) returns (id: int)
      requires o.client.Some? && o.dateTime.Some? && o.status.Some?
      requires o.id.Some? ==> IndexOfId(orders, o.id.value) >= 0
      modifies this, o
      ensures o.client == old(o.client) && o.dateTime == old(o.dateTime) && o.status == old(o.status)
      ensures old(o.id).None? ==>
                id == old(nextId) && nextId == old(nextId) + 1 && o.id == Some(id) &&
                orders == old(orders) + [OrderRow(id, o.client.value, o.dateTime.value, o.status.value)]
      ensures old(o.id).Some? ==>
                id == old(o.id).value && nextId == old(nextId) && o.id == old(o.id) &&
                orders == old(orders)[IndexOfId(old(orders), id) :=
                                      OrderRow(id, o.client.value, o.dateTime.value, o.status.value)]
    {
      if o.id.None? {
        id := nextId;
        nextId := nextId + 1;
        o.SetId(Some(id));
        orders := orders + [OrderRow(id, o.client.value, o.dateTime.value, o.status.value)];
      } else {
        id := o.id.value;
        orders := orders[IndexOfId(orders, id) := OrderRow(id, o.client.value, o.dateTime.value, o.status.value)];
      }
    }

    /** `reserve`: runs the checks in order and, when all pass, stamps the
        entity with the client and the reserved status and inserts it. A failed
        check leaves the store and the entity as they were. */
    method Reserve(order: Order?, clientId: ClientId, clock: Clock) returns (r: Result<Order>)
      requires Valid()
      requires order != null ==> order.id.None? && order.dateTime.Some?
      modifies this, order
      ensures Valid()
      ensures order == null ==> r == Err(InternalServerError) && orders == old(orders) && nextId == old(nextId)
      ensures order != null ==>
                var dt := old(order.dateTime).value;
                var checks := ReserveChecks(schedule, clients, old(orders), clock, clientId, dt);
                (r.Ok? <==> checks.Pass?) &&
                (r.Err? ==> r.error == checks.error && orders == old(orders) && nextId == old(nextId) &&
                            order.id == old(order.id) && order.client == old(order.client) &&
                            order.status == old(order.status)) &&
                (r.Ok? ==> r.value == order && nextId == old(nextId) + 1 &&
                           orders == old(orders) + [OrderRow(old(nextId), clientId, dt, Reserved)] &&
                           order.id == Some(old(nextId)) && order.client == Some(clientId) &&
                           order.status == Some(Reserved))
      ensures order != null ==> order.dateTime == old(order.dateTime)
      ensures StatusOnlyForward(old(orders), orders)
    {
      if order == null {
        return Err(InternalServerError);
      }
      if clientId !in clients {
        return Err(NotFound);
      }
      var dt := order.dateTime.value;
      var check := ValidateDateTimeNotInPastForReserve(clock, dt);
      if check.Fail? {
        return Err(check.error);
      }
      check := ValidateMaxFutureDateTimeForReserve(clock, dt);
      if check.Fail? {
        return Err(check.error);
      }
      var within := IsWithinWorkHour(schedule, clock.now, dt);
      if within.Err? {
        return Err(within.error);
      }
      if !within.value {
        return Err(BadRequest);
      }
      check := ValidateClientDailyLimit(schedule, orders, clientId, dt.date, 1);
      if check.Fail? {
        return Err(check.error);
      }
      check := ValidateNoReservationsForClientAtDateTime(orders, clientId, dt);
      if check.Fail? {
        return Err(check.error);
      }
      check := ValidateHourlyLimit(schedule, orders, dt);
      if check.Fail? {
        return Err(check.error);
      }
      ReserveKeepsStoreValid(schedule, clients, orders, nextId, clock, clientId, dt);
      order.SetClient(Some(clientId));
      order.SetStatus(Some(Reserved));
      var id := Save(order);
      AppendIsForward(old(orders), orders[|old(orders)|..]);
      assert old(orders) + orders[|old(orders)|..] == orders;
      return Ok(order);
    }

    /** `reserveForMultiHours`: runs the range checks, then streams the hours
        from the start, checking each hour against the store as it stands and
        building a fresh entity for it, and inserts all entities at the end.
        Any failed check leaves the store as it was. */
    method ReserveForMultiHours(order: Order?, clientId: ClientId, hourCount: int, clock: Clock)
      returns (r: Result<seq<Order>>)
      requires Valid()
      requires 1 <= hourCount <= 6
      requires order != null ==> order.dateTime.Some?
      modifies this
      ensures Valid()
      ensures order == null ==> r == Err(InternalServerError)
      ensures r.Err? ==> orders == old(orders) && nextId == old(nextId)
      ensures order != null ==>
                var start := old(order.dateTime).value;
                var checks := MultiHourChecks(schedule, clients, old(orders), clock, clientId, start, hourCount);
                (r.Ok? <==> checks.Pass?) &&
                (r.Err? ==> r.error == checks.error) &&
                (r.Ok? ==> orders == old(orders) + Batch(old(nextId), clientId, start, hourCount) &&
                           nextId == old(nextId) + hourCount && |r.value| == hourCount &&
                           (forall k :: 0 <= k < hourCount ==> fresh(r.value[k])) &&
                           DistinctEntities(r.value) && SavedBatch(r.value, old(nextId), clientId, start))
      ensures StatusOnlyForward(old(orders), orders)
    {
      if order == null {
        return Err(InternalServerError);
      }
      var start := order.dateTime.value;
      ghost var checks := MultiHourChecks(schedule, clients, orders, clock, clientId, start, hourCount);
      var built := CheckAndStream(clientId, start, hourCount, clock);
      assert (built.Ok? <==> checks.Pass?) && (built.Err? ==> built.error == checks.error);
      if built.Err? {
        return Err(built.error);
      }
      assert forall k :: 0 <= k < hourCount ==> built.value[k] in built.value;
      SaveCheckedBatch(built.value, clientId, start, hourCount, clock);
      r := Ok(built.value);
    }

    /** Saving a batch whose checks all passed keeps the store valid and only
        appends rows. */
    method SaveCheckedBatch(entities: seq<Order>, clientId: ClientId, start: DateTime, hourCount: nat, ghost clock: Clock)
      requires Valid()
      requires MultiHourChecks(schedule, clients, orders, clock, clientId, start, hourCount).Pass?
      requires |entities| == hourCount
      requires StreamedBatch(entities, clientId, start) && DistinctEntities(entities)
      modifies this, set k | 0 <= k < |entities| :: entities[k]
      ensures Valid()
      ensures orders == old(orders) + Batch(old(nextId), clientId, start, hourCount)
      ensures nextId == old(nextId) + hourCount
      ensures SavedBatch(entities, old(nextId), clientId, start)
      ensures StatusOnlyForward(old(orders), orders)
    {
      ghost var before := orders;
      ghost var id0 := nextId;
      InsertBatch(entities, clientId, start, hourCount);
      MultiHourKeepsStoreValid(schedule, clients, before, id0, clock, clientId, start, hourCount);
      AppendIsForward(before, Batch(id0, clientId, start, hourCount));
    }

    /** `cancelReservation`: the client must exist and the order must exist
        and still be reserved; the order is then saved back with the cancelled
        status. Ownership of the order by the client is not checked. A failed
        check leaves the store as it was. */
    method CancelReservation(clientId: ClientId, orderId: int) returns (r: Outcome)
      requires Valid()
      modifies this
      ensures Valid() && nextId == old(nextId)
      ensures r == CancelChecks(clients, old(orders), clientId, orderId)
      ensures r.Fail? ==> orders == old(orders)
      ensures r.Pass? ==>
                var i := IndexOfId(old(orders), orderId);
                0 <= i < |old(orders)| && orders == old(orders)[i := CancelRow(old(orders)[i])]
      ensures StatusOnlyForward(old(orders), orders)
    {
      if clientId !in clients {
        return Fail(NotFound);
      }
      var found := GetById(orderId);
      if found.Err? {
        return Fail(found.error);
      }
      var row := found.value;
      if row.status == Cancelled {
        return Fail(BadRequest);
      }
      FindByIdAtIndex(orders, orderId);
      ghost var i := IndexOfId(orders, orderId);
      CancelKeepsStoreValid(schedule, orders, nextId, i);
      CancelIsForward(orders, i);
      var order := new Order.Loaded(row.id, row.clientId, row.dateTime, row.status);
      order.SetStatus(Some(Cancelled));
      var id := Save(order);
      r := Pass;
    }

    /** Everything `reserveForMultiHours` does before it saves: the range
        checks, then the stream of checked and built hours. */
    method CheckAndStream(clientId: ClientId, start: DateTime, hourCount: nat, clock: Clock)
      returns (r: Result<seq<Order>>)
      requires Valid()
      ensures var checks := MultiHourChecks(schedule, clients, orders, clock, clientId, start, hourCount);
              (r.Ok? <==> checks.Pass?) && (r.Err? ==> r.error == checks.error)
      ensures r.Ok? ==> |r.value| == hourCount && StreamedBatch(r.value, clientId, start) &&
                        (forall o :: o in r.value ==> fresh(o)) && DistinctEntities(r.value)
    {
      var check := RangeChecks(clientId, start, hourCount, clock);
      if check.Fail? {
        return Err(check.error);
      }
      r := StreamHours(clientId, start, hourCount);
    }

    /** The range checks of `reserveForMultiHours`, one after the other,
        stopping at the first that fails. */
    method RangeChecks(clientId: ClientId, start: DateTime, hourCount: int, clock: Clock) returns (r: Outcome)
      requires Valid()
      ensures r == MultiHourRangeChecks(schedule, clients, orders, clock, clientId, start, hourCount)
    {
      if clientId !in clients {
        return Fail(NotFound);
      }
      var end := PlusHours(start, hourCount);
      if start.date != end.date {
        return Fail(BadRequest);
      }
      var check := ValidateDateTimeNotInPastForReserve(clock, start);
      if check.Fail? {
        return check;
      }
      check := ValidateMaxFutureDateTimeForReserve(clock, start);
      if check.Fail? {
        return check;
      }
      var within := IsWithinWorkHourRange(schedule, clock.now, start.date, start.time, end.time);
      if within.Err? {
        return Fail(within.error);
      }
      if !within.value {
        return Fail(BadRequest);
      }
      r := ValidateClientDailyLimit(schedule, orders, clientId, start.date, hourCount);
    }

    /** The `saveAll` of `reserveForMultiHours`: the streamed entities become
        the rows of the batch, under consecutive ids from the next one. */
    method InsertBatch(entities: seq<Order>, clientId: ClientId, start: DateTime, hourCount: nat)
      requires |entities| == hourCount
      requires StreamedBatch(entities, clientId, start) && DistinctEntities(entities)
      modifies this, set k | 0 <= k < |entities| :: entities[k]
      ensures orders == old(orders) + Batch(old(nextId), clientId, start, hourCount)
      ensures nextId == old(nextId) + hourCount
      ensures SavedBatch(entities, old(nextId), clientId, start)
    {
      ghost var batch := Batch(nextId, clientId, start, hourCount);
      forall j | 0 <= j < hourCount
        ensures batch[j] == OrderRow(nextId + j, entities[j].client.value, entities[j].dateTime.value,
                                     entities[j].status.value)
      {
      }
      var ids := SaveAll(entities, batch);
    }

    /** The `map` of the multi-hour stream for one hour: the two checks (no
        booking of the client at that hour, then room in the slot), then the
        builder chain that makes a fresh reserved entity for it; `built` names
        the entities of the earlier hours, which the new one extends. */
    method StreamHour(clientId: ClientId, dateTime: DateTime, ghost start: DateTime, ghost built: seq<Order>)
        returns (r: Result<Order>)
      requires dateTime == PlusHours(start, |built|)
      requires StreamedBatch(built, clientId, start) && DistinctEntities(built)
      ensures var check := HourChecks(schedule, orders, clientId, dateTime);
              (r.Ok? <==> check.Pass?) && (r.Err? ==> r.error == check.error)
      ensures r.Ok? ==> fresh(r.value) && r.value.id == None && r.value.client == Some(clientId) &&
                        r.value.dateTime == Some(dateTime) && r.value.status == Some(Reserved)
      ensures r.Ok? ==> StreamedBatch(built + [r.value], clientId, start) && DistinctEntities(built + [r.value])
    {
      var check := ValidateNoReservationsForClientAtDateTime(orders, clientId, dateTime);
      if check.Fail? {
        return Err(check.error);
      }
      check := ValidateHourlyLimit(schedule, orders, dateTime);
      if check.Fail? {
        return Err(check.error);
      }
      var entity := NewReservedEntity(clientId, dateTime);
      StreamedBatchAppend(built, entity, clientId, start);
      DistinctEntitiesAppend(built, entity);
      return Ok(entity);
    }

    /** The stream of `reserveForMultiHours`: the hours start, start + 1h, ...
        while before the end, each checked (no booking of the client there,
        room in the slot) and turned into a fresh entity by the builder. The
        k-th element of the `Stream.iterate` is reached by adding one hour k
        times; the loop takes it as start + k hours, which `PlusHoursTwice`
        shows is the same date-time. */
    method StreamHours(clientId: ClientId, start: DateTime, hourCount: nat) returns (r: Result<seq<Order>>)
      ensures var checks := FirstFailure(HourOutcomes(schedule, orders, clientId, start, hourCount), 0);
              (r.Ok? <==> checks.Pass?) && (r.Err? ==> r.error == checks.error)
      ensures r.Ok? ==> |r.value| == hourCount && StreamedBatch(r.value, clientId, start) &&
                        (forall o :: o in r.value ==> fresh(o)) && DistinctEntities(r.value)
    {
      ghost var hours := HourOutcomes(schedule, orders, clientId, start, hourCount);
      var end := PlusHours(start, hourCount);
      var built: seq<Order> := [];
      var dateTime := start;
      var k := 0;
      StreamContinues(start, k, hourCount);
      while Before(dateTime, end)
        invariant 0 <= k <= hourCount && dateTime == PlusHours(start, k)
        invariant Before(dateTime, end) <==> k < hourCount
        invariant |built| == k
        invariant forall o :: o in built ==> fresh(o)
        invariant StreamedBatch(built, clientId, start) && DistinctEntities(built)
        invariant FirstFailure(hours, 0) == FirstFailure(hours, k)
        decreases hourCount - k
      {
        var hour := StreamHour(clientId, dateTime, start, built);
        if hour.Err? {
          return Err(hour.error);
        }
        assert hours[k] == HourChecks(schedule, orders, clientId, dateTime);
        assert FirstFailure(hours, k) == FirstFailure(hours, k + 1);
        built := built + [hour.value];
        k := k + 1;
        dateTime := PlusHours(start, k);
        StreamContinues(start, k, hourCount);
      }
      return Ok(built);
    }

    /** `saveAll`: inserts the entities in order, each under the next generated
        id; `rows` names the rows this appends. */
    method SaveAll(entities: seq<Order>, ghost rows: seq<OrderRow>) returns (ids: seq<int>)
      requires forall j :: 0 <= j < |entities| ==>
                 entities[j].id.None? && entities[j].client.Some? &&
                 entities[j].dateTime.Some? && entities[j].status.Some?
      requires forall j, j' :: 0 <= j < j' < |entities| ==> entities[j] != entities[j']
      requires |rows| == |entities|
      requires forall j :: 0 <= j < |entities| ==>
                 rows[j] == OrderRow(nextId + j, entities[j].client.value, entities[j].dateTime.value,
                                     entities[j].status.value)
      modifies this, set j | 0 <= j < |entities| :: entities[j]
      ensures nextId == old(nextId) + |entities|
      ensures orders == old(orders) + rows
      ensures forall j :: 0 <= j < |entities| ==>
                entities[j].id == Some(old(nextId) + j) && entities[j].client == old(entities[j].client) &&
                entities[j].dateTime == old(entities[j].dateTime) && entities[j].status == old(entities[j].status)
      ensures ids == seq(|entities|, j => old(nextId) + j)
    {
      ids := [];
      var i := 0;
      while i < |entities|
        invariant 0 <= i <= |entities|
        invariant nextId == old(nextId) + i
        invariant orders == old(orders) + rows[..i]
        invariant forall j :: 0 <= j < |entities| ==>
                    entities[j].client == old(entities[j].client) &&
                    entities[j].dateTime == old(entities[j].dateTime) && entities[j].status == old(entities[j].status)
        invariant forall j :: 0 <= j < i ==> entities[j].id == Some(old(nextId) + j)
        invariant forall j :: i <= j < |entities| ==> entities[j].id.None?
        invariant ids == seq(i, j => old(nextId) + j)
      {
        assert rows[..i + 1] == rows[..i] + [rows[i]];
        var id := Save(entities[i]);
        ids := ids + [id];
        i := i + 1;
      }
    }
  }
}
