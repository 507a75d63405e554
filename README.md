# Swimming-pool booking engine

This project models the reservation and capacity engine of the swimming-pool
management service in Dafny and proves properties of the model. Clients book
one-hour slots of the pool. Two things govern the slots:

- The working schedule: a regular row and a holiday row. Each row has a working window, a per-slot limit and a per-client daily quota.
- The reservations already stored.

The model covers these parts:

- **The order store** (`OrderRepository`): a sequence of rows. Each of the repository's six JPQL queries becomes a selection over that sequence.
- **The schedule service** (`WorkHourService`):
  - it picks the schedule row for a date;
  - it generates the hourly slots of the date, where today starts one hour after now;
  - it tests a date-time or a range of hours against those slots.
- **The order entity and its builder** (`OrderEntity`). These are classes with mutable fields, `equals` and `hashCode`.
- **The booking service** (`OrderService`):
  - the individual checks and the check sequences of a single reservation, a multi-hour reservation and a cancellation, in the order `reserve`, `reserveForMultiHours` and `cancelReservation` run them;
  - the store invariants those checks keep;
  - the class `OrderServiceImpl`. Its methods run the checks, write to the store and answer the reserved-count and available-count queries.
- **The insertion-ordered map** (`LinkedMap`). The count queries return it.
- **Phone formatting** (`ClientDataUtils`): between the client entity's ten national digits and the `+7` form used by the DTOs.

The store invariants are proved to hold from the empty store onwards, under every accepted operation:

- No slot holds more reserved rows than its date's per-slot limit.
- No client holds two reserved rows at one slot.
- No client holds more reserved rows on a date than the date's daily quota.

Stored rows also never change id, client or date-time. Their status only moves from reserved to cancelled.

Inputs the service reads from its environment are parameters:

- The wall clock is a `Clock` value: the current date-time and the two booking horizons two months ahead.
- The client directory is a map from client id to name.
- The holiday table and the schedule rows are a `ScheduleData` value.

Time has minute precision. A date is an integer day number and a time of day is a minute in 0..1439. `LocalTime.MAX` is 23:59.

The model follows the code as written, including these behaviours a reader may not expect:

- For today the first slot is `LocalTime.now().plusHours(1)`, which is not aligned to the hour. It wraps past midnight when now is 23:00 or later. `WorkHourService.SameDaySlotsAreUnaligned` and `WorkHourService.SameDayStartWrapsAfter2300` state the consequences.
- `cancelReservation` never checks that the order belongs to the client (`OrderService.CancelChecks`).
- The per-hour checks of a multi-hour booking all run against the store as it was before the batch.

## Model

| member | source | states |
|---|---|---|
| Time.PlusHours | src/main/java/com/swimming_pool/management/service/OrderServiceImpl.java:237-246 | adding hours moves the date-time by exactly that many minutes times 60, carrying into the date, and the time of day stays in one day |
| Time.PlusHoursTwice | src/main/java/com/swimming_pool/management/service/OrderServiceImpl.java:242-246 | stepping a hours then b hours equals stepping a + b hours, so the stream's iterated plusHours(1) reaches start + k hours |
| Time.TimeMinusHours | src/main/java/com/swimming_pool/management/service/WorkHourServiceImpl.java:117-120 | `LocalTime.minusHours` is ordinary subtraction when it does not pass midnight |
| Time.TimePlusHours | src/main/java/com/swimming_pool/management/service/WorkHourServiceImpl.java:79-80 | `LocalTime.plusHours` is addition modulo one day |
| Time.Before | src/main/java/com/swimming_pool/management/service/OrderServiceImpl.java:359-369 | `isBefore` on date-times: an earlier date, or the same date and an earlier time; the order of minute counts (`BeforeIsMinutesOrder`) |
| Time.After | src/main/java/com/swimming_pool/management/service/OrderServiceImpl.java:339-351 | `isAfter`: the other date-time is before this one |
| Time.Between | src/main/java/com/swimming_pool/management/repository/OrderRepository.java:35-38 | JPQL `BETWEEN`: not before the lower bound and not after the upper one, both bounds inclusive |
| Time.AtStartOfDay | src/main/java/com/swimming_pool/management/service/OrderServiceImpl.java:421-426 | `atStartOfDay`: 00:00 on the date |
| Time.AtEndOfDay | src/main/java/com/swimming_pool/management/service/OrderServiceImpl.java:421-426 | `atTime(LocalTime.MAX)`: the last minute of the date, so together with `AtStartOfDay` it bounds exactly that date (`BetweenDayBounds`) |
| Time.SameDayHours | src/main/java/com/swimming_pool/management/service/OrderServiceImpl.java:216-231 | when the range end is on the start date, every hour in between is on that date too |
| Time.BetweenDayBounds | src/main/java/com/swimming_pool/management/service/OrderServiceImpl.java:449-452 | a date-time lies between the start of a day and `LocalTime.MAX` on it exactly when it is on that day |
| Time.BeforeIsMinutesOrder | src/main/java/com/swimming_pool/management/service/OrderServiceImpl.java:339-369 | `isBefore`/`equals` on date-times agree with the order of their minute counts |
| WorkHourService.GetWorkHour | src/main/java/com/swimming_pool/management/service/WorkHourServiceImpl.java:128-133 | the holiday row on a holiday and the regular row otherwise; a missing row gives INTERNAL_SERVER_ERROR, in both directions |
| WorkHourService.IsHoliday | src/main/java/com/swimming_pool/management/service/WorkHourServiceImpl.java:142-144 | a date is a holiday exactly when the holiday table has a row for it |
| WorkHourService.GetLimitPerHour | src/main/java/com/swimming_pool/management/service/WorkHourServiceImpl.java:65-67 | the governing row's per-slot limit, failing exactly when the row is missing |
| WorkHourService.GetDailyLimitPerClients | src/main/java/com/swimming_pool/management/service/WorkHourServiceImpl.java:53-55 | the governing row's per-client quota, failing exactly when the row is missing |
| WorkHourService.HourlyFromMembership | src/main/java/com/swimming_pool/management/service/WorkHourServiceImpl.java:88-89 | the iterated stream holds exactly the times start + 60k below the end |
| WorkHourService.EffectiveStart | src/main/java/com/swimming_pool/management/service/WorkHourServiceImpl.java:79-80 | today: now plus one hour, wrapping past midnight and not rounded; any other date: the schedule start |
| WorkHourService.HourlyFrom | src/main/java/com/swimming_pool/management/service/WorkHourServiceImpl.java:88-89 | `Stream.iterate(start, t < end, t + 1h)`: non-empty exactly when the start is before the end; element i is start + 60i and below the end; the last is within an hour of the end |
| WorkHourService.GeneratedTimeSlots | src/main/java/com/swimming_pool/management/service/WorkHourServiceImpl.java:77-90 | generation succeeds exactly when the governing row exists and the effective start (today: now + 1h, otherwise the row's start) is before the end, else INTERNAL_SERVER_ERROR; the slots begin at the effective start, step by one hour and stay below the end |
| WorkHourService.SlotsAscending | src/main/java/com/swimming_pool/management/service/WorkHourServiceImpl.java:77-90 | the slots at positions i < j lie exactly j - i hours apart |
| WorkHourService.SlotsDistinct | src/main/java/com/swimming_pool/management/service/WorkHourServiceImpl.java:77-90 | the slots strictly ascend, so no slot is generated twice and they can key a map |
| WorkHourService.SlotMembership | src/main/java/com/swimming_pool/management/service/WorkHourServiceImpl.java:77-90 | a time is a slot exactly when it lies in [effective start, end) a whole number of hours after the effective start |
| WorkHourService.IsWithinWorkHour | src/main/java/com/swimming_pool/management/service/WorkHourServiceImpl.java:100-105 | true exactly when the date-time's time is one of its date's slots; fails exactly when slot generation fails |
| WorkHourService.IsWithinWorkHourRange | src/main/java/com/swimming_pool/management/service/WorkHourServiceImpl.java:117-120 | fails exactly when slot generation fails, with INTERNAL_SERVER_ERROR |
| WorkHourService.StepsCover | src/main/java/com/swimming_pool/management/service/WorkHourServiceImpl.java:117-120 | in a sequence stepping by one hour, the first and the last of n consecutive hours are elements exactly when all n are |
| WorkHourService.RangeCheckCoversEveryHour | src/main/java/com/swimming_pool/management/service/WorkHourServiceImpl.java:117-120 | testing only the first hour and the hour before the end holds exactly when every hour of a same-day range is a slot |
| WorkHourService.RangeCheckIsEnds | src/main/java/com/swimming_pool/management/service/WorkHourServiceImpl.java:117-120 | the range check is exactly membership of the start time and of the hour before the end among the slots |
| WorkHourService.SameDaySlotsAreUnaligned | src/main/java/com/swimming_pool/management/service/WorkHourServiceImpl.java:79-80 | on today with now not on the hour, no slot is on the hour |
| WorkHourService.SameDaySlotsAfterNow | src/main/java/com/swimming_pool/management/service/WorkHourServiceImpl.java:79-80 | before 23:00 every slot of today lies after now |
| WorkHourService.SameDayStartWrapsAfter2300 | src/main/java/com/swimming_pool/management/service/WorkHourServiceImpl.java:79-80 | from 23:00 on, today's first slot lies before now, because the start wrapped past midnight |
| OrderEntity.ToInt32 | src/main/java/com/swimming_pool/management/model/entity/Order.java:87-89 | a value reduced to a Java `int`: in range and congruent modulo 2^32 |
| OrderEntity.LongHash | src/main/java/com/swimming_pool/management/model/entity/Order.java:87-89 | `Long.hashCode` lies in the `int` range |
| OrderEntity.HashStep | src/main/java/com/swimming_pool/management/model/entity/Order.java:87-89 | one step of the `Objects.hash` fold: `31 * h + element` narrowed to `int` |
| OrderEntity.Order.constructor | src/main/java/com/swimming_pool/management/model/entity/Order.java:46-47 | a new entity has every field null |
| OrderEntity.Order.FromBuilder | src/main/java/com/swimming_pool/management/model/entity/Order.java:49-53 | the builder's client, date-time and status are copied and the id is null |
| OrderEntity.Order.SetId | src/main/java/com/swimming_pool/management/model/entity/BaseEntity.java:50-52 | only the id changes |
| OrderEntity.Order.SetClient | src/main/java/com/swimming_pool/management/model/entity/Order.java:59-61 | only the client changes |
| OrderEntity.Order.SetDateTime | src/main/java/com/swimming_pool/management/model/entity/Order.java:67-69 | only the date-time changes |
| OrderEntity.Order.SetStatus | src/main/java/com/swimming_pool/management/model/entity/Order.java:75-77 | only the status changes |
| OrderEntity.Order.Equals | src/main/java/com/swimming_pool/management/model/entity/Order.java:80-84 | equal exactly when the other is non-null with the same id, date-time and status; the client is ignored |
| OrderEntity.Order.HashCode | src/main/java/com/swimming_pool/management/model/entity/Order.java:87-89 | `Objects.hash(id, dateTime, status)` lies in the `int` range |
| OrderEntity.EqualsReflexive | src/main/java/com/swimming_pool/management/model/entity/Order.java:80-84 | every order equals itself |
| OrderEntity.EqualsSymmetric | src/main/java/com/swimming_pool/management/model/entity/Order.java:80-84 | equality is symmetric |
| OrderEntity.EqualsTransitive | src/main/java/com/swimming_pool/management/model/entity/Order.java:80-84 | equality is transitive |
| OrderEntity.HashCodeAgreesWithEquals | src/main/java/com/swimming_pool/management/model/entity/Order.java:80-89 | equal orders have equal hash codes |
| OrderEntity.Builder.NewBuilder | src/main/java/com/swimming_pool/management/model/entity/Order.java:109-114 | a new builder has every field null |
| OrderEntity.Builder.WithClient | src/main/java/com/swimming_pool/management/model/entity/Order.java:116-119 | sets the client only and returns the same builder |
| OrderEntity.Builder.WithDateTime | src/main/java/com/swimming_pool/management/model/entity/Order.java:121-124 | sets the date-time only and returns the same builder |
| OrderEntity.Builder.WithStatus | src/main/java/com/swimming_pool/management/model/entity/Order.java:126-129 | sets the status only and returns the same builder |
| OrderEntity.Builder.Build | src/main/java/com/swimming_pool/management/model/entity/Order.java:131-139 | succeeds exactly when client, date-time and status are all set, with a fresh id-less order carrying them; otherwise INTERNAL_SERVER_ERROR |
| OrderRepository.Matches | src/main/java/com/swimming_pool/management/repository/OrderRepository.java:25-80 | the WHERE clauses of the six queries (the `Query` cases): `o.id = :id`; RESERVED and `dateTime BETWEEN` both bounds; `dateTime BETWEEN` whatever the status; the client's name equal to the argument; `dateTime =` and RESERVED; the client id, RESERVED and `BETWEEN` |
| OrderRepository.Select | src/main/java/com/swimming_pool/management/repository/OrderRepository.java:25-80 | a query's result holds exactly the stored rows its WHERE clause admits |
| OrderRepository.SelectConcat | src/main/java/com/swimming_pool/management/repository/OrderRepository.java:25-80 | selecting from two parts of the store is selecting from each part in turn |
| OrderRepository.SelectSingle | src/main/java/com/swimming_pool/management/repository/OrderRepository.java:25-80 | a one-row store yields that row exactly when it matches |
| OrderRepository.SelectUpdateUnmatched | src/main/java/com/swimming_pool/management/repository/OrderRepository.java:65-80 | replacing a row by one a count no longer admits lowers that count by one exactly when the old row was admitted |
| OrderRepository.FindById | src/main/java/com/swimming_pool/management/repository/OrderRepository.java:25-26 | a found row is stored and has the id; nothing is found exactly when no row has the id |
| OrderRepository.FindReservedDateTimesByDateRange | src/main/java/com/swimming_pool/management/repository/OrderRepository.java:35-38 | one date-time per reserved row in the inclusive range, in order, each within the range |
| OrderRepository.FindByDateTimeRange | src/main/java/com/swimming_pool/management/repository/OrderRepository.java:47-49 | exactly the rows in the inclusive range, whatever their status |
| OrderRepository.FindByClientName | src/main/java/com/swimming_pool/management/repository/OrderRepository.java:56-57 | exactly the rows whose client bears the name, cancelled ones included |
| OrderRepository.CountReservationsForDateTime | src/main/java/com/swimming_pool/management/repository/OrderRepository.java:65-66 | zero exactly when no reserved row is at that date-time |
| OrderRepository.CountReservationsForClientByDateTimeRange | src/main/java/com/swimming_pool/management/repository/OrderRepository.java:76-80 | zero exactly when the client has no reserved row in the inclusive range |
| OrderRepository.ExactRangeIsExactSlot | src/main/java/com/swimming_pool/management/repository/OrderRepository.java:76-80 | with both bounds at one date-time, the range count admits exactly the client's reserved rows at that date-time |
| OrderRepository.CountsAfterAppend | src/main/java/com/swimming_pool/management/repository/OrderRepository.java:65-80 | inserting a row raises a count by one exactly when the row matches it |
| LinkedMap.Keys | src/main/java/com/swimming_pool/management/service/OrderServiceImpl.java:87-91 | the keys of the map in iteration order |
| LinkedMap.IndexOf | src/main/java/com/swimming_pool/management/service/OrderServiceImpl.java:87-91 | the position of a key, or -1 exactly when the key is absent |
| LinkedMap.Put | src/main/java/com/swimming_pool/management/service/OrderServiceImpl.java:116-117 | `put` overwrites in place when the key is present and appends otherwise, keeping keys distinct |
| LinkedMap.Increment | src/main/java/com/swimming_pool/management/service/OrderServiceImpl.java:89-90 | `compute(count + 1 or 1)` raises a present key's value by one or appends the key with 1 |
| LinkedMap.DecrementIfPresent | src/main/java/com/swimming_pool/management/service/OrderServiceImpl.java:118-120 | `computeIfPresent(count - 1)` lowers only that key's value and adds no key |
| LinkedMap.PutAll | src/main/java/com/swimming_pool/management/service/OrderServiceImpl.java:115-117 | putting distinct keys into an empty map gives exactly those keys, in order, all holding the value |
| LinkedMap.DecrementAll | src/main/java/com/swimming_pool/management/service/OrderServiceImpl.java:118-120 | every entry loses one per occurrence of its key in the list, and the keys stay the same |
| LinkedMap.SumAfterIncrement | src/main/java/com/swimming_pool/management/service/OrderServiceImpl.java:89-90 | each `compute` raises the sum of the values by one |
| LinkedMap.FirstSeen | src/main/java/com/swimming_pool/management/service/OrderServiceImpl.java:87-91 | the distinct elements of a list in order of first occurrence, which is the key order of the counting map |
| LinkedMap.FirstSeenAppend | src/main/java/com/swimming_pool/management/service/OrderServiceImpl.java:87-91 | a new element extends the first-seen order and a repeated one leaves it unchanged |
| LinkedMap.IncrementStep | src/main/java/com/swimming_pool/management/service/OrderServiceImpl.java:87-91 | one `compute` keeps the map equal to the first-seen keys paired with their occurrence counts |
| LinkedMap.IncrementPresent | src/main/java/com/swimming_pool/management/service/OrderServiceImpl.java:87-91 | `compute` on a present key raises its count by one and leaves every other entry and the key order as they were |
| LinkedMap.CountAll | src/main/java/com/swimming_pool/management/service/OrderServiceImpl.java:87-91 | counting a list into an empty map gives its distinct elements in order of first occurrence, each with its number of occurrences, the values summing to the list's length |
| LinkedMap.IncrementAbsent | src/main/java/com/swimming_pool/management/service/OrderServiceImpl.java:87-91 | `compute` on a new key appends it with the count one |
| OrderService.ValidateDateNotInPast | src/main/java/com/swimming_pool/management/service/OrderServiceImpl.java:321-331 | passes exactly when the date is today or later; BAD_REQUEST otherwise |
| OrderService.ValidateMaxFutureDate | src/main/java/com/swimming_pool/management/service/OrderServiceImpl.java:301-313 | passes exactly when the date is not after the horizon date; BAD_REQUEST otherwise |
| OrderService.ValidateDateTimeNotInPastForReserve | src/main/java/com/swimming_pool/management/service/OrderServiceImpl.java:359-369 | passes exactly when the date-time is not before now; BAD_REQUEST otherwise |
| OrderService.ValidateMaxFutureDateTimeForReserve | src/main/java/com/swimming_pool/management/service/OrderServiceImpl.java:339-351 | passes exactly when the date-time is not after the horizon date-time; BAD_REQUEST otherwise |
| OrderService.ValidateNoReservationsForClientAtDateTime | src/main/java/com/swimming_pool/management/service/OrderServiceImpl.java:378-389 | passes exactly when the client has no reserved row at that date-time; BAD_REQUEST otherwise |
| OrderService.ValidateHourlyLimit | src/main/java/com/swimming_pool/management/service/OrderServiceImpl.java:397-411 | passes exactly when the slot's reserved count is below its date's limit; INTERNAL_SERVER_ERROR exactly when the schedule row is missing |
| OrderService.ValidateClientDailyLimit | src/main/java/com/swimming_pool/management/service/OrderServiceImpl.java:421-440 | passes exactly when the client's reserved rows on the date plus the hours asked for do not exceed the quota; INTERNAL_SERVER_ERROR exactly when the row is missing |
| OrderService.DayCount | src/main/java/com/swimming_pool/management/service/OrderServiceImpl.java:421-426 | the client's reserved rows counted from the start of the date to `LocalTime.MAX` on it |
| OrderService.SlotCount | src/main/java/com/swimming_pool/management/service/OrderServiceImpl.java:378-380 | the client's reserved rows counted with both range bounds at the one date-time |
| OrderService.ReservedTimesForDate | src/main/java/com/swimming_pool/management/service/OrderServiceImpl.java:448-456 | one time per reserved row on the date, duplicates kept |
| OrderService.ReservedTimesAppend | src/main/java/com/swimming_pool/management/service/OrderServiceImpl.java:448-456 | inserting a row appends its time exactly when it is a reserved row on the date |
| OrderService.ReservedTimesCount | src/main/java/com/swimming_pool/management/service/OrderServiceImpl.java:448-456 | each time occurs in the list as often as there are reserved rows at that date-time |
| OrderService.ReserveChecks | src/main/java/com/swimming_pool/management/service/OrderServiceImpl.java:177-193 | NOT_FOUND exactly when the client is unknown; INTERNAL_SERVER_ERROR exactly when the window checks pass and the date has no slots; pass exactly when the client exists, the time is within the window, is a slot, the quota has room, the client has no row there and the slot is below its limit |
| OrderService.HourChecks | src/main/java/com/swimming_pool/management/service/OrderServiceImpl.java:248-249 | the two checks of one streamed hour never fail with NOT_FOUND |
| OrderService.HourChecksMeaning | src/main/java/com/swimming_pool/management/service/OrderServiceImpl.java:248-249 | one streamed hour passes exactly when the client has no reserved row there and the slot is below its limit |
| Errors.FirstFailurePass | src/main/java/com/swimming_pool/management/service/OrderServiceImpl.java:242-253 | checks run in order pass together exactly when each of them passes |
| Errors.FirstFailureIsFirst | src/main/java/com/swimming_pool/management/service/OrderServiceImpl.java:242-253 | checks run in order fail, if at all, with the failure of the first check that does not pass, every earlier one passing |
| Errors.FirstFailure | src/main/java/com/swimming_pool/management/service/OrderServiceImpl.java:242-253 | checks run in order, the first that fails decides, as the stream throws from its first failing hour; its meaning is pinned by `FirstFailurePass` and `FirstFailureIsFirst` |
| OrderService.HourOutcomes | src/main/java/com/swimming_pool/management/service/OrderServiceImpl.java:242-253 | entry j is the outcome of the per-hour checks of hour j after the start, all against the store before the batch |
| OrderService.HourStreamFailure | src/main/java/com/swimming_pool/management/service/OrderServiceImpl.java:242-253 | a failed stream fails with the failure of its first failing hour, every earlier hour passing, and never with NOT_FOUND |
| OrderService.MultiHourRangeChecks | src/main/java/com/swimming_pool/management/service/OrderServiceImpl.java:212-241 | NOT_FOUND exactly when the client is unknown; BAD_REQUEST when the range ends on another date; INTERNAL_SERVER_ERROR exactly when the client exists, the range stays on the date, the start is within the window and the date's slots cannot be generated; pass exactly when the start is within the window, the range is within the slots and the quota has room for all the hours |
| OrderService.MultiHourChecksMeaning | src/main/java/com/swimming_pool/management/service/OrderServiceImpl.java:212-253 | the range checks and then every hour's checks: pass exactly when all hold, NOT_FOUND exactly when the client is unknown, BAD_REQUEST for a range ending on another date, and INTERNAL_SERVER_ERROR exactly when the window checks pass and the date's slots cannot be generated, since no streamed hour can raise it then |
| OrderService.MultiHourChecks | src/main/java/com/swimming_pool/management/service/OrderServiceImpl.java:212-253 | the whole check sequence of `reserveForMultiHours`: the range checks, then the hours in stream order; its meaning is pinned by `MultiHourChecksMeaning` |
| OrderService.HourStreamNoInternalError | src/main/java/com/swimming_pool/management/service/OrderServiceImpl.java:242-253 | once the date has a schedule row and the range stays on the date, no streamed hour fails with INTERNAL_SERVER_ERROR |
| OrderService.CancelChecks | src/main/java/com/swimming_pool/management/service/OrderServiceImpl.java:268-276 | pass exactly when the client exists and the order exists with status reserved; NOT_FOUND exactly when the client or the order is missing; BAD_REQUEST when it is already cancelled |
| OrderService.BatchRow | src/main/java/com/swimming_pool/management/service/OrderServiceImpl.java:247-252 | the row the `.map` builds for the k-th hour, saved under the k-th generated id: the client, start plus k hours, RESERVED |
| OrderService.Batch | src/main/java/com/swimming_pool/management/service/OrderServiceImpl.java:242-257 | the rows saved for n hours: the k-th has the k-th new id, the client, start + k hours and status reserved |
| OrderService.HourIndex | src/main/java/com/swimming_pool/management/service/OrderServiceImpl.java:242-246 | the number of whole hours from the start to a date-time of the stream |
| OrderService.PlusHoursIs | src/main/java/com/swimming_pool/management/service/OrderServiceImpl.java:242-246 | hour k of the stream is a given date-time exactly when they are k hours apart |
| OrderService.InBatchStep | src/main/java/com/swimming_pool/management/service/OrderServiceImpl.java:242-246 | the hours of n steps are those of n - 1 steps and hour n - 1 |
| OrderService.BatchStep | src/main/java/com/swimming_pool/management/service/OrderServiceImpl.java:242-257 | a batch of n rows is the batch of n - 1 rows followed by its last row |
| OrderService.BatchAtOneDateTime | src/main/java/com/swimming_pool/management/service/OrderServiceImpl.java:242-257 | a query admitting a single date-time admits at most the one batch row at that hour |
| OrderService.BatchReservedAt | src/main/java/com/swimming_pool/management/service/OrderServiceImpl.java:242-257 | a batch holds one reserved row at each of its hours and none elsewhere |
| OrderService.BatchDayCount | src/main/java/com/swimming_pool/management/service/OrderServiceImpl.java:231-257 | a same-day batch adds exactly n to its client's count on the start date and nothing to any other client or date |
| OrderService.EmptyStoreInvariants | src/main/java/com/swimming_pool/management/service/OrderServiceImpl.java:177-279 | the empty store satisfies per-slot capacity, one booking per client and slot, and the daily quota |
| OrderService.HourlyCapacity | src/main/java/com/swimming_pool/management/service/OrderServiceImpl.java:397-411 | what `validateHourlyLimit` protects: no date-time holds more reserved rows than its date's limit per hour |
| OrderService.OneBookingPerClientSlot | src/main/java/com/swimming_pool/management/service/OrderServiceImpl.java:378-389 | what `validateNoReservationsForClientAtDateTime` protects: a client holds at most one reserved row per date-time |
| OrderService.DailyQuota | src/main/java/com/swimming_pool/management/service/OrderServiceImpl.java:421-440 | what `validateClientDailyLimit` protects: no client holds more reserved rows on a date than the quota |
| OrderService.BookingInvariants | src/main/java/com/swimming_pool/management/service/OrderServiceImpl.java:177-279 | the three booking invariants together, kept by every writing operation |
| OrderService.AppendKeepsHourlyCapacity | src/main/java/com/swimming_pool/management/service/OrderServiceImpl.java:397-411 | inserting a reserved row at a slot below its limit keeps every slot within its limit |
| OrderService.AppendKeepsOneBookingPerClientSlot | src/main/java/com/swimming_pool/management/service/OrderServiceImpl.java:378-389 | inserting a reserved row where the client has none keeps at most one per client and slot |
| OrderService.AppendKeepsDailyQuota | src/main/java/com/swimming_pool/management/service/OrderServiceImpl.java:421-440 | inserting a reserved row for a client whose day has room keeps every client within the quota |
| OrderService.ReservePreservesInvariants | src/main/java/com/swimming_pool/management/service/OrderServiceImpl.java:177-199 | a single reservation whose checks pass keeps all three booking invariants |
| OrderService.AppendBatchKeepsHourlyCapacity | src/main/java/com/swimming_pool/management/service/OrderServiceImpl.java:242-257 | a batch whose every hour is below its limit keeps every slot within its limit |
| OrderService.AppendBatchKeepsOneBookingPerClientSlot | src/main/java/com/swimming_pool/management/service/OrderServiceImpl.java:242-257 | a batch of a client with no row at any of its hours keeps at most one per client and slot |
| OrderService.AppendBatchKeepsDailyQuota | src/main/java/com/swimming_pool/management/service/OrderServiceImpl.java:231-257 | a same-day batch within the quota keeps every client within the quota |
| OrderService.MultiHourPreservesInvariants | src/main/java/com/swimming_pool/management/service/OrderServiceImpl.java:212-257 | a multi-hour reservation whose checks pass keeps all three booking invariants |
| OrderService.CancelRow | src/main/java/com/swimming_pool/management/service/OrderServiceImpl.java:277-278 | a cancelled row keeps id, client and date-time and has status cancelled |
| OrderService.CancelPreservesInvariants | src/main/java/com/swimming_pool/management/service/OrderServiceImpl.java:268-279 | cancelling any row keeps all three booking invariants |
| OrderService.AppendIsForward | src/main/java/com/swimming_pool/management/service/OrderServiceImpl.java:194-199 | inserting rows changes no stored row |
| OrderService.CancelIsForward | src/main/java/com/swimming_pool/management/service/OrderServiceImpl.java:277-278 | cancelling only moves one row's status from reserved to cancelled |
| OrderService.StatusOnlyForward | src/main/java/com/swimming_pool/management/service/OrderServiceImpl.java:177-279 | between two stores: no row disappears, no row changes id, client or date-time, and a cancelled row stays cancelled, so status moves only from RESERVED to CANCELLED |
| OrderService.IndexOfId | src/main/java/com/swimming_pool/management/repository/OrderRepository.java:25-26 | the position of the row with that id, or -1 exactly when no row has it |
| OrderService.FindByIdAtIndex | src/main/java/com/swimming_pool/management/repository/OrderRepository.java:25-26 | with distinct ids, `findById` finds exactly the row at the id's position |
| OrderService.BatchIds | src/main/java/com/swimming_pool/management/service/OrderServiceImpl.java:255-257 | ids handed out to a batch keep all ids distinct and below the next id |
| OrderService.NextIdKeepsIdsDistinct | src/main/java/com/swimming_pool/management/service/OrderServiceImpl.java:194-199 | a row saved under the next id keeps all ids distinct and below the new next id |
| OrderService.ReserveKeepsStoreValid | src/main/java/com/swimming_pool/management/service/OrderServiceImpl.java:194-199 | saving an accepted reservation under the next id keeps ids distinct and the booking invariants |
| OrderService.MultiHourKeepsStoreValid | src/main/java/com/swimming_pool/management/service/OrderServiceImpl.java:255-257 | saving an accepted batch under the next ids keeps ids distinct and the booking invariants |
| OrderService.CancelKeepsStoreValid | src/main/java/com/swimming_pool/management/service/OrderServiceImpl.java:277-278 | saving a cancelled row keeps ids distinct and the booking invariants |
| OrderService.StoreValid | src/main/java/com/swimming_pool/management/service/OrderServiceImpl.java:177-279 | ids below the next generated id and distinct, the schedule within the modelled end, and the booking invariants |
| OrderService.OrderServiceImpl.Valid | src/main/java/com/swimming_pool/management/service/OrderServiceImpl.java:177-279 | the service object's store satisfies `StoreValid` under its schedule and id counter; every state-changing method keeps it |
| OrderService.NewReservedEntity | src/main/java/com/swimming_pool/management/service/OrderServiceImpl.java:245-252 | the builder chain gives a fresh id-less entity with the client, the hour and status reserved |
| OrderEntity.Order.Loaded | src/main/java/com/swimming_pool/management/service/OrderServiceImpl.java:270 | the entity `getById` hands back: every field set from the stored row |
| OrderService.OrderServiceImpl.constructor | src/main/java/com/swimming_pool/management/service/OrderServiceImpl.java:51-56 | a service over an empty store, with the directory and schedule given, satisfying its invariant |
| OrderService.OrderServiceImpl.GetById | src/main/java/com/swimming_pool/management/service/OrderServiceImpl.java:66-73 | the stored order with that id, or NOT_FOUND exactly when none has it |
| OrderService.OrderServiceImpl.GetByDate | src/main/java/com/swimming_pool/management/service/OrderServiceImpl.java:157-166 | exactly the orders on the date, whatever their status, or NOT_FOUND exactly when there is none |
| OrderService.OrderServiceImpl.GetByClientName | src/main/java/com/swimming_pool/management/service/OrderServiceImpl.java:139-147 | exactly the orders of clients bearing the name, or NOT_FOUND exactly when there is none |
| OrderService.OrderServiceImpl.GetReservedSlotCountsForDate | src/main/java/com/swimming_pool/management/service/OrderServiceImpl.java:83-99 | BAD_REQUEST outside the window, NOT_FOUND when the date has no reservation; otherwise the reserved times in order of first occurrence, each with its reserved count, the counts summing to the day's reserved rows |
| OrderService.OrderServiceImpl.GetAvailableSlotCountsForDate | src/main/java/com/swimming_pool/management/service/OrderServiceImpl.java:109-129 | BAD_REQUEST outside the window, INTERNAL_SERVER_ERROR when slot generation fails; otherwise exactly the generated slots in order, each with the limit minus its reserved count, never above the limit and not negative under a non-negative limit |
| OrderService.OrderServiceImpl.Save | src/main/java/com/swimming_pool/management/service/OrderServiceImpl.java:194-199 | an id-less entity is inserted under the next id and gets it; an entity with an id overwrites its stored row |
| OrderService.OrderServiceImpl.Reserve | src/main/java/com/swimming_pool/management/service/OrderServiceImpl.java:177-200 | a null order gives INTERNAL_SERVER_ERROR; otherwise the result is exactly the outcome of the checks, and on success one reserved row under the next id is appended and nothing else changes |
| OrderService.OrderServiceImpl.ReserveForMultiHours | src/main/java/com/swimming_pool/management/service/OrderServiceImpl.java:212-258 | a null order gives INTERNAL_SERVER_ERROR; otherwise the result is exactly the outcome of the range and per-hour checks, and on success the hourCount rows start, start + 1h, ... are appended under consecutive new ids and returned as fresh, pairwise distinct entities; a failure changes nothing |
| OrderService.OrderServiceImpl.CancelReservation | src/main/java/com/swimming_pool/management/service/OrderServiceImpl.java:268-279 | the result is exactly the outcome of the cancel checks; on success only the order's row is set to cancelled, on failure nothing changes |
| OrderService.OrderServiceImpl.RangeChecks | src/main/java/com/swimming_pool/management/service/OrderServiceImpl.java:213-241 | the checks before the stream give exactly the outcome of the range-check sequence |
| OrderService.StreamContinues | src/main/java/com/swimming_pool/management/service/OrderServiceImpl.java:242-245 | the `isBefore(end)` test of the stream admits the k-th hour exactly while k is below the hour count |
| OrderService.StreamedBatchAppend | src/main/java/com/swimming_pool/management/service/OrderServiceImpl.java:250-253 | the entity built for the next hour extends the streamed batch |
| OrderService.OrderServiceImpl.StreamHour | src/main/java/com/swimming_pool/management/service/OrderServiceImpl.java:247-254 | one hour fails exactly as its two checks do, in order, and otherwise yields a fresh reserved entity for the client at that hour |
| OrderService.OrderServiceImpl.CheckAndStream | src/main/java/com/swimming_pool/management/service/OrderServiceImpl.java:212-254 | the outcome is exactly that of the range checks followed by the per-hour checks; on success it holds hourCount distinct fresh entities for the consecutive hours |
| OrderService.OrderServiceImpl.StreamHours | src/main/java/com/swimming_pool/management/service/OrderServiceImpl.java:242-254 | the stream fails exactly as the per-hour checks do, and otherwise builds hourCount distinct fresh entities for the consecutive hours |
| OrderService.OrderServiceImpl.SaveCheckedBatch | src/main/java/com/swimming_pool/management/service/OrderServiceImpl.java:255-257 | saving a batch whose checks passed appends its rows under consecutive new ids, keeps the store valid and moves no status backwards |
| OrderService.OrderServiceImpl.InsertBatch | src/main/java/com/swimming_pool/management/service/OrderServiceImpl.java:255-257 | the streamed entities are saved as the batch rows under consecutive new ids, and each entity gets its id |
| OrderService.OrderServiceImpl.SaveAll | src/main/java/com/swimming_pool/management/service/OrderServiceImpl.java:255-257 | `saveAll` appends the rows in order under consecutive new ids and sets each entity's id, leaving its other fields unchanged |
| ClientDataUtils.MatchesDtoPhonePattern | src/main/java/com/swimming_pool/management/util/ClientDataUtils.java:25 | a full match of `DTO_PHONE_REGEXP` (`+7` or `8`, then ten digits): twelve characters starting `+7` or eleven starting `8`, the rest digits |
| ClientDataUtils.ValidateDtoPhoneFormat | src/main/java/com/swimming_pool/management/util/ClientDataUtils.java:55-62 | as written: fails, with INTERNAL_SERVER_ERROR, exactly when the phone matches `^(\+7\|8)\d{10}$` |
| ClientDataUtils.FormatPhoneForDto | src/main/java/com/swimming_pool/management/util/ClientDataUtils.java:33-37 | as written: returns `+7` and the entity phone exactly when that string does not match the pattern, and raises otherwise |
| ClientDataUtils.FormatPhoneForEntity | src/main/java/com/swimming_pool/management/util/ClientDataUtils.java:45-48 | as written: raises exactly when the phone matches; a non-matching phone shorter than ten characters makes `substring` throw; otherwise its last ten characters |
| ClientDataUtils.DtoFormattingRejectsEveryEntityPhone | src/main/java/com/swimming_pool/management/util/ClientDataUtils.java:33-37 | as written, every ten-digit entity phone makes `formatPhoneForDTO` raise |
| ClientDataUtils.EntityFormattingRejectsEveryDtoPhone | src/main/java/com/swimming_pool/management/util/ClientDataUtils.java:45-48 | as written, every well-formed DTO phone makes `formatPhoneForEntity` raise |
| ClientDataUtils.DtoFormattingRejectsSample | src/main/java/com/swimming_pool/management/util/ClientDataUtils.java:33-37 | as written, the entity phone `9161234567` makes `formatPhoneForDTO` raise |
| ClientDataUtils.ValidateDtoPhoneFormatFixed | src/main/java/com/swimming_pool/management/util/ClientDataUtils.java:55-62 | corrected: passes exactly when the phone matches the pattern |
| ClientDataUtils.FormatPhoneForDtoFixed | src/main/java/com/swimming_pool/management/util/ClientDataUtils.java:33-37 | corrected: returns `+7` and the entity phone exactly when that string matches the pattern |
| ClientDataUtils.FormatPhoneForEntityFixed | src/main/java/com/swimming_pool/management/util/ClientDataUtils.java:45-48 | corrected: succeeds exactly on well-formed DTO phones, returning their last ten characters, all digits |
| ClientDataUtils.DtoFormattingAcceptsExactlyEntityPhones | src/main/java/com/swimming_pool/management/util/ClientDataUtils.java:25-37 | corrected: the DTO form is accepted exactly when the entity phone is ten digits |
| ClientDataUtils.EntityPhoneRoundTrip | src/main/java/com/swimming_pool/management/util/ClientDataUtils.java:33-48 | corrected: entity to DTO and back gives the entity phone again |
| ClientDataUtils.DtoPhoneRoundTrip | src/main/java/com/swimming_pool/management/util/ClientDataUtils.java:33-48 | corrected: DTO to entity and back turns either accepted form into `+7` and the same ten digits |
| ClientDataUtils.InternationalDtoPhoneRoundTrip | src/main/java/com/swimming_pool/management/util/ClientDataUtils.java:33-48 | corrected: a DTO phone already in the `+7` form comes back unchanged |

## Left out

- Concurrency and transactions: each operation is one atomic step on the store. The model has no rollback beyond "a failure changes nothing".
- Exception messages: an error is only its code (NOT_FOUND, BAD_REQUEST, INTERNAL_SERVER_ERROR).
- The wall clock and `LocalDate.now()`: passed in as a `Clock` with minute precision. Seconds and nanoseconds of `LocalTime.now()` are not modelled, and that changes outcomes. Requests carry only `HH:00` times (`DATETIME_REGEXP` in `DateTimeUtils`). At a real `now` of 10:00:30 the service's same-day slots are 11:00:30, 12:00:30, ..., so `contains(11:00)` fails and a reservation at 11:00 is refused with BAD_REQUEST. In the model `now` is 10:00, the slots are 11:00, 12:00, ..., and the same reservation passes.
- Controllers, mappers, DTO classes, `DateTimeUtils`, the client service and the client entity: the client directory is a map from id to name, and `MultiHourReservationDTO`'s bound of 1 to 6 hours becomes a precondition of `ReserveForMultiHours`.
- Order of JPQL results: the queries leave it unspecified, so the model returns rows in store order.
- Id generation: the database identity column is modelled as a counter starting at 1.
- The audit fields (`createdAt`, `modifiedAt`) of the base entity and `toString` of the order.
- OrderEntity.Order.HashCode: `LocalDateTime.hashCode` and the enum's identity hash are replaced by stand-in functions of the same values. The contract states the `int` range and agreement with `Equals`, not the exact JVM numbers.
- WorkHourService.GeneratedTimeSlots: the model requires the schedule's end time to be at most 23:00 (`EndsInTime`). With a later end the service's stream loops forever only when some slot lands in [23:00, end): the next step wraps past midnight to a time before the end. A terminating function cannot express that. The other late-end schedules stop, with start 08:45 and end 23:30 giving 08:45 to 22:45, and they are not modelled either.
- ClientDataUtils.FormatPhoneForEntity: strings are sequences of Unicode scalar values, while Java's `length()` and `substring` count UTF-16 code units. A phone of six characters outside the Basic Multilingual Plane has twelve code units, so Java returns `substring(2)`, while the model fails with the substring error. A null phone, on which `Pattern.matches` throws `NullPointerException` (reachable from a client update that omits the phone), is not modelled either.
- OrderService.OrderServiceImpl.GetAvailableSlotCountsForDate: the service's NOT_FOUND branch for an empty map is not modelled. Slot generation fails whenever there is no slot, so the map is never empty.
- OrderService.OrderServiceImpl.Save and SaveAll: merging an entity the store already holds is modelled as overwriting its row. Entity identity in the persistence context is not modelled.
- OrderService.OrderServiceImpl.Reserve: the incoming entity is required to have a date-time and no id, as the request mapper builds it. A null date-time, which makes the service throw a `NullPointerException`, and re-reserving a stored entity are not modelled.
- OrderService.OrderServiceImpl.ReserveForMultiHours: the incoming entity is required to have a date-time, and `hourCount` to lie in 1..6, the bound the request DTO enforces before the service is called.

## Findings

| source | as written | input that shows it | evidently intended | confidence | as-written member | corrected member |
|---|---|---|---|---|---|---|
| src/main/java/com/swimming_pool/management/util/ClientDataUtils.java:56 | `validateDTOPhoneFormat` raises when the phone matches `^(\+7\|8)\d{10}$`, so well-formed phones are refused and malformed ones pass | entity phone `9161234567` to `formatPhoneForDTO`: `+79161234567` matches, so it raises INTERNAL_SERVER_ERROR | raise when the phone does not match | high, not executed | ClientDataUtils.DtoFormattingRejectsSample | ClientDataUtils.FormatPhoneForDtoFixed |
