# Seat-allocation engine of the seat booking system

A Dafny model of the seat-allocation engine of the seat booking system, with proofs about it. The backend keeps five collections:

- `bookings`, keyed by (date, userId);
- `bookedSeats`, keyed by (date, seatId);
- `dailyStats`, per-date counters;
- `specialDays`, per-date holiday or working-day overrides;
- `users`, the user records.

The office has 50 seats. Seats 1–40 form the designated zone and seats 41–50 the buffer zone. Batch 1 has designated days Monday to Wednesday, batch 2 Thursday and Friday.

- On a designated day a user may book a designated seat, and may take that seat from a floating occupant (a "kick").
- Floating seats open at 12:00 on the previous working day (the Friday before a Monday). At that point every designated seat still unbooked is added to the day's floating pool, lazily, inside the transaction that needs it.
- An admin layer can force-book and force-release seats, set or delete special days, list users without their passwords, and change a user's batch.

The model has two layers.

- **Functions on a store value** (`Records.State`) define each operation as one atomic step. A failing operation returns its error and leaves the store unchanged. These are:
  - `Allocation.Book`, `Allocation.Release` and `Allocation.Status`;
  - `Admin.AdminBook`, `Admin.AdminRelease`, `Admin.SetSpecialDay`, `Admin.DeleteSpecialDay` and `Admin.UpdateUserBatch`.
- **A class `Engine.Db`** holds the five collections as fields. Its methods run each handler's checks and writes step by step, including the loops of the source:
  - the set of booked designated seats;
  - the admin release's batch of deletions;
  - the user list.

  Each method is proved to report the outcome, and leave the store, that the matching function gives.

The lemmas cover the rules of each operation, the order of bookSeat's checks, the kick, and the top-up arithmetic. They also define a store invariant (`Invariants.Inv`):

- bookings and seat records correspond one to one;
- every counter equals the number of seat records of its kind;
- the counters are sane.

bookSeat and releaseSeat keep this invariant. The admin operations keep it only under stated conditions; lemmas show how `adminBookSeat` and the admin release break it otherwise.

Modelling conventions:

- A date is a day number counted from 1970-01-01 in local time; its weekday follows JavaScript's `getDay`.
- An instant is minutes since 1970-01-01 00:00 local time, so the clock reading `new Date()` becomes a parameter `now`.
- A counter field may be absent. It is read with JavaScript's `||`, so a stored 0 also falls back to the default: for `totalFloatingAvailable`, a stored 0 reads as 10.

Two behaviours of the code are easy to miss, and the model follows the code in both:

- **Holidays.** bookSeat treats only Saturday and Sunday as holidays. It never consults `specialDays`: `AdminProperties.SpecialDayDoesNotAffectBooking`.
- **User ids in the listing.** getAllUsers writes `id` before the stored fields, so a stored `id` field replaces the record key: `Admin.PublicView`.

## Model

| member | source | states |
|---|---|---|
| `Calendar.Weekday` | backend/src/controllers/bookingController.js:5-6 | The weekday is a number from 0 (Sunday) to 6 (Saturday), as `getDay` returns. |
| `Calendar.IsDesignatedProcessingDay` | backend/src/controllers/bookingController.js:4-16 | True exactly when batch 1 falls on Monday–Wednesday or batch 2 on Thursday–Friday; false on weekends and for any other batch. |
| `Calendar.EveryWeekSplitsThreeTwo` | backend/src/controllers/bookingController.js:4-16 | Any seven consecutive days hold exactly three designated days of batch 1, two of batch 2 and none of any other batch. |
| `Calendar.NoDayDesignatedForBoth` | backend/src/controllers/bookingController.js:10-15 | No day is designated for both batches. |
| `Calendar.CutoffInstant` | backend/src/controllers/bookingController.js:126-137 | The cutoff falls before the booking day starts and less than three days before it. |
| `Calendar.CutoffOnPreviousWorkingDay` | backend/src/controllers/bookingController.js:126-137 | For a working day, the cutoff is noon of the closest earlier working day. Every day strictly between that day and the booking date is a weekend day. |
| `Calendar.CutoffIsSetDateOfBookingDate` | backend/src/controllers/bookingController.js:126-137 | bookSeat computes the cutoff with `setDate(getDate() - 3 or - 1)` on a copy of the booking date; that value equals the cutoff. |
| `Calendar.ReleaseTimeAsWritten` | backend/src/controllers/bookingController.js:28-35 | The release instant as releaseUnbookedDesignatedSeats computes it. On any day but a Monday it is noon of the previous day, the cutoff. |
| `Calendar.DayOfMonthStep` | backend/src/controllers/bookingController.js:30-34 | The day of the month that `getDate` reads lies in 1..31. From one day to the previous it drops by exactly one, unless the day is the first of its month. |
| `Calendar.ReleaseTimeAsWrittenNeverLate` | backend/src/controllers/bookingController.js:28-37 | The release instant as written is never after the cutoff. It is strictly earlier exactly on a Monday that is the first of its month. |
| `Calendar.ReleaseTimeAsWrittenWithinMonth` | backend/src/controllers/bookingController.js:28-35 | When the day before the date lies in the same month, the release instant as written equals the cutoff. |
| `Calendar.ReleaseTimeAsWrittenMonthEarly` | backend/src/controllers/bookingController.js:28-35 | For Monday 2021-03-01 the release instant as written is noon of 2021-01-29. That is before the correct cutoff, noon of Friday 2021-02-26. |
| `Records.OrElse` | backend/src/controllers/bookingController.js:197-205 | A counter read with `||` is the stored value when present and non-zero, and the fallback otherwise. |
| `SeatPool.UnbookedDesignated` | backend/src/controllers/bookingController.js:22-57 | The unbooked-designated count is 0 on weekends and until the cutoff has passed. It is non-zero only on a weekday after the cutoff. |
| `SeatPool.UnbookedCountsFreeDesignatedSeats` | backend/src/controllers/bookingController.js:39-56 | Once released, the count equals the number of seats 1–40 without a designated occupancy, so it lies in 0..40. |
| `SeatPool.UnbookedDesignatedAsWritten` | backend/src/controllers/bookingController.js:22-57 | The count as written is non-zero only on a weekday after the release instant as written. |
| `SeatPool.UnbookedAsWrittenAgrees` | backend/src/controllers/bookingController.js:22-57 | The count as written equals the corrected count once the cutoff has passed. It also equals it at every instant for a date that is not a Monday the first, and whenever the corrected count is non-zero. |
| `SeatPool.CountUnbookedDesignatedSeats` | backend/src/controllers/bookingController.js:22-57 | The query loop, with the release check as written, collects the distinct designated seat ids ≤ 40 and returns exactly the count as written. After the cutoff that is the corrected count. |
| `SeatPool.UnbookedAsWrittenBeforeCutoff` | backend/src/controllers/bookingController.js:28-37 | At noon of 2021-02-10, the count as written already reports all 40 designated seats of Monday 2021-03-01 as released. The cutoff has not passed, so the corrected count is 0. |
| `SeatPool.ToppedUpTotal` | backend/src/controllers/bookingController.js:197-219 | The topped-up pool is never below the stored pool. It is above it exactly when seats are unbooked and fewer than that are already counted. |
| `SeatPool.TopUp` | backend/src/controllers/bookingController.js:209-219 | The top-up changes only the pool and the auto-release fields. A record it changes has `autoReleasedFromDesignated` set to the unbooked count. |
| `SeatPool.TopUpMeaning` | backend/src/controllers/bookingController.js:200-213 | With sane counters, the topped-up pool is the base buffer of 10, plus the released seats, plus the larger of the seats already counted and the seats unbooked now. |
| `SeatPool.TopUpIdempotent` | backend/src/controllers/bookingController.js:209-219 | The written-back record keeps the topped-up pool. Topping it up again with the same count changes nothing. |
| `Allocation.Book` | backend/src/controllers/bookingController.js:59-275 | A successful bookSeat is on a weekday, with kind "designated" or "floating", for a user with no booking that date. It writes that user's booking and seat record under the requested kind and leaves special days and users alone. |
| `Allocation.Release` | backend/src/controllers/bookingController.js:278-357 | releaseSeat without a user id or date fails with missing parameters. A successful release needs the booking, deletes exactly it and the seat record it names, and leaves special days and users alone. |
| `Allocation.Status` | backend/src/controllers/bookingController.js:386-439 | The corrected getBookingStatus answers whenever both parameters are given. It reports a booking exactly when the user has one, and while the date's counters are sane it never reports a negative number of open floating seats. |
| `Allocation.StatusAsWritten` | backend/src/controllers/bookingController.js:386-439 | getBookingStatus as written, with the count as written: the same answers, bookings and non-negative availability as the corrected status. |
| `AllocationProperties.BookSucceedsExactlyWhen` | backend/src/controllers/bookingController.js:63-266 | bookSeat succeeds if and only if every rule holds: fields present, seat 1–50, no booking that date, and a free seat or the kick case. The date must be a weekday, and the rules of the chosen kind must hold. |
| `AllocationProperties.BookChecksInOrder` | backend/src/controllers/bookingController.js:63-124 | The checks run in order: missing field, seat range, existing booking, occupied seat, weekend, then invalid type. An earlier failure hides later ones. |
| `AllocationProperties.BookKindChecksInOrder` | backend/src/controllers/bookingController.js:141-233 | Once the common checks pass, a designated request fails on another batch's day before it fails on a seat above 40. A floating request fails as too early before the cutoff. After the cutoff with nothing unbooked, it fails on a seat ≤ 40 as buffer-only. Last, it fails as pool-exhausted when the booked count reaches the topped-up pool. |
| `AllocationProperties.BookErrorsAreBookErrors` | backend/src/controllers/bookingController.js:84-266 | A failing bookSeat reports only bookSeat's own errors. |
| `AllocationProperties.DesignatedBookingEffect` | backend/src/controllers/bookingController.js:141-184 | A designated booking is on a designated day in seats 1–40, and both records carry type "designated". The bookings become the old ones, minus a kicked occupant's, plus the new one; the seat records change only at the booked seat. `designatedCount` rises by exactly 1, and the released count, the pool and other dates carry over. |
| `AllocationProperties.KickEffect` | backend/src/controllers/bookingController.js:92-160 | An occupied seat is taken only by a designated request for a seat ≤ 40 held by a floating occupant. The occupant's booking is deleted, `floatingCount` becomes max(0, count−1), and the seat record passes to the new user. |
| `AllocationProperties.FloatingBookingEffect` | backend/src/controllers/bookingController.js:185-264 | A floating booking comes after the cutoff, on a buffer seat unless seats were released, and within the topped-up pool. `floatingCount` rises by exactly 1 and the pool never shrinks. |
| `AllocationProperties.ReleaseCases` | backend/src/controllers/bookingController.js:282-353 | releaseSeat, case by case: no booking, admin-override (records deleted, counters untouched), missing stats, designated (−1 designated, +1 released, +1 pool), floating (−1 floating), and unknown kind. |
| `AllocationProperties.DesignatedReleaseGrowsPoolByOne` | backend/src/controllers/bookingController.js:335-342 | With sane counters, releasing a designated booking grows the floating pool by exactly one. |
| `AllocationProperties.ReleaseTwiceFails` | backend/src/controllers/bookingController.js:310-313 | A second release of the same booking fails with "no booking found". |
| `AllocationProperties.StatusAgreesWithBook` | backend/src/controllers/bookingController.js:409-439 | For a user without a booking, suppose a floating request passes every other rule. It succeeds exactly when getBookingStatus reports a positive number of available floating seats. |
| `AllocationProperties.StatusReportsBooking` | backend/src/controllers/bookingController.js:409-410 | getBookingStatus of a user with a booking returns that booking. |
| `AllocationProperties.StatusAsWrittenAgrees` | backend/src/controllers/bookingController.js:416-439 | getBookingStatus as written reports what the corrected status reports, except before the cutoff of a Monday that is the first of its month. |
| `AllocationProperties.StatusAsWrittenOverstatesBeforeCutoff` | backend/src/controllers/bookingController.js:416-439 | On an empty store at noon of 2021-02-10, getBookingStatus as written reports 50 open floating seats for Monday 2021-03-01. The corrected status reports 10, and a floating bookSeat for that date fails as too early. |
| `AllocationProperties.BookIgnoresSpecialDays` | backend/src/controllers/bookingController.js:120-124 | bookSeat gives the same answer and the same writes whatever the special-day overrides. |
| `Invariants.EmptyStoreSatisfiesInv` | backend/src/controllers/bookingController.js:105-115 | A store with no bookings, seats, counters or overrides satisfies the store invariant. |
| `Invariants.KickedOccupantWasCounted` | backend/src/controllers/bookingController.js:151-160 | Under the invariant, a kicked floating occupant is counted, so the floating count of the kick is at least 1. |
| `Invariants.BookKeepsConsistent` | backend/src/controllers/bookingController.js:151-255 | bookSeat keeps bookings and seat records in one-to-one correspondence, including after a kick. |
| `Invariants.BookKeepsCounters` | backend/src/controllers/bookingController.js:151-264 | After bookSeat, the counters of every date still equal their number of designated and floating seat records. |
| `Invariants.BookKeepsPoolSane` | backend/src/controllers/bookingController.js:197-264 | After bookSeat, every date's counters are sane: released ≥ 0, the pool ≥ 10 + released, and floating bookings ≤ the pool. |
| `Invariants.BookKeepsShape` | backend/src/controllers/bookingController.js:162-179 | bookSeat writes only known kinds, floating occupants with a user id, and designated occupancies in seats 1–40. |
| `Invariants.BookPreservesInv` | backend/src/controllers/bookingController.js:84-266 | bookSeat keeps the whole store invariant. |
| `Invariants.ReleaseFailsOnlyWithoutBooking` | backend/src/controllers/bookingController.js:310-353 | Under the invariant, releaseSeat with a user id succeeds if and only if the booking exists. The missing-stats and unknown-type errors cannot occur. |
| `Invariants.ReleaseKeepsConsistent` | backend/src/controllers/bookingController.js:318-348 | releaseSeat keeps bookings and seat records in one-to-one correspondence. |
| `Invariants.ReleaseKeepsCounters` | backend/src/controllers/bookingController.js:335-348 | After releaseSeat, the counters still equal their number of seat records. |
| `Invariants.ReleaseKeepsPoolSane` | backend/src/controllers/bookingController.js:335-348 | releaseSeat keeps every date's counters sane. |
| `Invariants.ReleasePreservesInv` | backend/src/controllers/bookingController.js:310-353 | releaseSeat keeps the whole store invariant. |
| `Invariants.BookAndReleaseNeverShrinkPool` | backend/src/controllers/bookingController.js:209-219 | Neither bookSeat nor releaseSeat ever lowers the floating pool of any date. |
| `Invariants.CountsAfterPut` | backend/src/controllers/bookingController.js:173-184 | Overwriting a free or floating seat with a counted record, with its date's counters moved to match, keeps every counter equal to its seat records. |
| `Invariants.CountsAfterRemove` | backend/src/controllers/bookingController.js:336-348 | Deleting a seat record, with its date's counters moved by its kind, keeps every counter equal to its seat records. |
| `Admin.IsAdmin` | backend/src/controllers/adminController.js:6-14 | The gate passes exactly when the caller's record exists and its `isAdmin` field is none of JavaScript's falsy values `false`, `0` and `""`. |
| `Admin.AdminBook` | backend/src/controllers/adminController.js:56-111 | adminBookSeat fails, with access denied, only for a non-admin. Otherwise it writes the booking and seat record as "admin-override", makes sure the date has a stats record, and leaves special days and users alone. |
| `Admin.AdminRelease` | backend/src/routes/adminRoutes.js:20-48 | The admin release fails only for a non-admin. Afterwards the user has no booking that date and no seat record of that date names them; no seat record is added and dailyStats is untouched. |
| `Admin.SetSpecialDay` | backend/src/routes/adminRoutes.js:52-69 | Setting a special day succeeds exactly for an admin with a date and a type of "holiday" or "working", and then that date holds that type. |
| `Admin.DeleteSpecialDay` | backend/src/routes/adminRoutes.js:72-81 | Deleting a special day succeeds for every admin, and afterwards the date has no override. |
| `Admin.UpdateUserBatch` | backend/src/controllers/adminController.js:40-54 | The batch update succeeds exactly for an admin, a non-zero batch and an existing user. The user's batch field then holds the new batch and no user record is added or removed. |
| `Admin.PublicView` | backend/src/controllers/adminController.js:29-33 | A listed user has no password field and has an `id` field. When the record has no `id`, that field is the record key. Every other field is kept. |
| `AdminProperties.OnlyAdminsPass` | backend/src/controllers/adminController.js:8-14 | Every admin operation fails with access denied exactly when the caller's record is missing or its `isAdmin` field is falsy. |
| `AdminProperties.AdminBookEffect` | backend/src/controllers/adminController.js:60-103 | adminBookSeat has no checks past the gate. It writes both records as "admin-override" and deletes only a different occupant's booking. It ensures a stats record exists and moves no counter. |
| `AdminProperties.AdminBookOverCountedSeatBreaksCounters` | backend/src/controllers/adminController.js:96-103 | Force-booking a seat that holds a designated or floating record leaves that date's counter out of step with the seat records. |
| `AdminProperties.AdminBookOrphansPreviousSeat` | backend/src/controllers/adminController.js:60-94 | Force-booking a user who holds another seat that date leaves their old seat record behind, so records no longer correspond. |
| `AdminProperties.AdminBookKeepsConsistent` | backend/src/controllers/adminController.js:64-94 | If the user holds no other seat that date, adminBookSeat keeps bookings and seat records in one-to-one correspondence. |
| `AdminProperties.AdminBookKeepsCounters` | backend/src/controllers/adminController.js:60-103 | Force-booking a free or override-held seat leaves every counter equal to its seat records. |
| `AdminProperties.AdminBookPreservesInv` | backend/src/controllers/adminController.js:64-103 | adminBookSeat keeps the whole invariant on a free or admin-held seat for a user without another seat that date. |
| `AdminProperties.AdminReleaseEffect` | backend/src/routes/adminRoutes.js:20-48 | The admin release always succeeds past the gate. The booking and every seat record of that user and date go; everything else, dailyStats included, stays. |
| `AdminProperties.SeatsOfBookedUser` | backend/src/routes/adminRoutes.js:26-30 | With consistent records, the query finds exactly the seat of the user's booking, or nothing. |
| `AdminProperties.AdminReleaseAgreesWithReleaseOnOverride` | backend/src/routes/adminRoutes.js:23-41 | On an admin-override booking, the admin release and releaseSeat leave the same store. |
| `AdminProperties.AdminReleasePreservesInv` | backend/src/routes/adminRoutes.js:23-41 | The admin release keeps the invariant for an admin-override booking. With no booking it changes nothing. |
| `AdminProperties.AdminReleaseOfCountedBreaksCounters` | backend/src/routes/adminRoutes.js:20-48 | Force-releasing a designated or floating booking leaves its counter out of step with the seat records. |
| `AdminProperties.SetSpecialDayEffect` | backend/src/routes/adminRoutes.js:52-63 | A special day is rejected unless the date is present and the type is "holiday" or "working". Otherwise that date holds exactly the new type and nothing else changes. |
| `AdminProperties.SetSpecialDayLastWins` | backend/src/routes/adminRoutes.js:60-63 | Setting a date twice is the same as setting only the second type. |
| `AdminProperties.DeleteSpecialDayEffect` | backend/src/routes/adminRoutes.js:72-75 | Deleting removes only that date's override. It undoes a set on a date that had none, and a set after a delete equals the set alone. |
| `AdminProperties.SpecialDayDoesNotAffectBooking` | backend/src/routes/adminRoutes.js:60-63 | A stored override never changes what bookSeat answers. |
| `AdminProperties.UpdateUserBatchEffect` | backend/src/controllers/adminController.js:40-50 | A missing or zero batch is refused, then an unknown user. Otherwise only that user's batch changes, and no one's admin status does. |
| `AdminProperties.UpdateUserBatchIdempotent` | backend/src/controllers/adminController.js:40-50 | Setting the same batch twice is setting it once. |
| `AdminProperties.AdminOperationsKeepPool` | backend/src/controllers/adminController.js:96-103 | No admin operation moves a counter, so each keeps the counters sane and never shrinks a pool. |
| `Engine.Db.BookSeat` | backend/src/controllers/bookingController.js:59-275 | The step-by-step bookSeat reports the outcome and leaves the store of `Allocation.Book`. It keeps the store invariant. |
| `Engine.Db.BookDesignated` | backend/src/controllers/bookingController.js:141-184 | The designated branch's checks, kick and writes give the outcome and store of `Allocation.Book`. |
| `Engine.Db.BookFloating` | backend/src/controllers/bookingController.js:185-264 | The floating branch's cutoff check, top-up, zone and pool checks and writes give the outcome and store of `Allocation.Book`. It reads the count as written, which the cutoff check makes equal to the corrected count. |
| `Engine.Db.ReleaseSeat` | backend/src/controllers/bookingController.js:278-357 | The step-by-step releaseSeat reports the outcome and leaves the store of `Allocation.Release`. It keeps the store invariant. |
| `Engine.Db.BookingStatusOf` | backend/src/controllers/bookingController.js:386-439 | getBookingStatus uses its own default record `{total 10, count 0}` for a date without stats and the count as written. It returns `Allocation.StatusAsWritten`, which after the cutoff is `Allocation.Status`, and writes nothing. |
| `Engine.Db.AdminBookSeat` | backend/src/controllers/adminController.js:56-111 | The sequence of deletes and sets leaves the store of `Admin.AdminBook`. |
| `Engine.Db.AdminReleaseSeat` | backend/src/routes/adminRoutes.js:20-48 | Deleting the booking and then the whole batch of matching seat records leaves the store of `Admin.AdminRelease`. |
| `Engine.Db.SetSpecialDay` | backend/src/routes/adminRoutes.js:52-69 | The handler leaves the store, and reports the outcome, of `Admin.SetSpecialDay`. |
| `Engine.Db.DeleteSpecialDay` | backend/src/routes/adminRoutes.js:72-81 | The handler leaves the store of `Admin.DeleteSpecialDay`. |
| `Engine.Db.UpdateUserBatch` | backend/src/controllers/adminController.js:40-54 | The handler leaves the store, and reports the outcome, of `Admin.UpdateUserBatch`. |
| `Engine.Db.GetAllUsers` | backend/src/controllers/adminController.js:25-38 | Admins get one entry per user record, no record twice and none missing, each being that record's public view. Others are denied. |

## Left out

- Firestore's optimistic transactions and their retries are left out; each transaction is one atomic step. `adminBookSeat` and the admin release write outside a transaction; concurrent interleavings of their writes are not modelled.
- The field-query fallback that finds a booking stored under a different key (bookingController.js:288-303, 395-407) is not modelled. A booking is found by its (date, userId) key only.
- `io.emit` notifications, HTTP status codes and response bodies are left out; only success or the error kind is kept.
- Document fields that only repeat the key or record a timestamp are not stored. These are `date`, `userId` and `seatId` inside documents, `status: "confirmed"`, `createdAt` and `setAt`.
- Date-string parsing, time zones and daylight-saving changes are left out: dates are local day numbers and instants are local minutes.
- The two clock reads in a floating bookSeat (the cutoff check and the release check) take the same `now`. In the source they may differ by the time between the two reads.
- Request fields are taken as typed values. A string `batch` such as "1", which fails `batch === 1`, is not modelled, and `Number(batch)` in updateUserBatch is the identity.
- Allocation.Book: a bookSeat request without `userName` is modelled with the name "" and books. In the source the name is then `undefined`; the store client rejects that field value, so the transaction fails (bookingController.js:162-179 and 238-255). The same holds for adminBookSeat without `userName` or `batch`, whose kick delete at adminController.js:72 has already happened when the write fails. Absent values are not modelled.
- An admin request with missing fields writes documents under keys containing "undefined"; this is not modelled, and admin requests carry a date, user and seat.
- The second seat-range check of a floating booking (bookingController.js:226-227) cannot fire, because bookingController.js:69-73 already limits the seat to 1..50. The model omits it.
- bookSeat's floating stats write uses merge (bookingController.js:257-263). It is modelled as an overwrite, which is the same because the written record holds every stored field.
- The store-error path of the isAdmin gate (a failed user lookup) is left out. The auth middleware and the auth controller are not part of this model.
- getWeeklyView and getDailyBookedSeats are read-only listings outside the engine and are not modelled.
- User field values are strings, integers and booleans. JavaScript's other values, such as `NaN`, `null` or objects, are not modelled for the truthiness test.
- Engine.Db.GetAllUsers: the order of the entries (Firestore lists documents by id) is not stated; the method promises one entry per record in some order.

## Findings

| source | as written | input that shows it | evidently intended | confidence | as-written member | corrected member |
|---|---|---|---|---|---|---|
| backend/src/controllers/bookingController.js:28-35 | On a Monday the release time is first moved to the previous day. `setDate(getDate() - 3)` is then applied to that moved date. When the Monday is the 1st of a month, the moved date lies in the previous month, so the release instant falls a month too early. | Monday 2021-03-01: release at noon of 2021-01-29 instead of noon of Friday 2021-02-26. From 2021-01-29 on, getBookingStatus counts all 40 unbooked designated seats as floating capacity. | The release instant is the cutoff, noon of the previous working day, as bookSeat computes it at bookingController.js:126-137. | high (not executed) | `SeatPool.UnbookedAsWrittenBeforeCutoff` | `SeatPool.UnbookedDesignated` |
| backend/src/controllers/bookingController.js:416-439 | getBookingStatus counts the unbooked designated seats with the release instant as written. | Empty store, Monday 2021-03-01, at noon of 2021-02-10: it reports 50 open floating seats, yet a floating bookSeat for that date fails as too early. | The report counts released seats only once the cutoff has passed, so it reports the base 10. | high (not executed) | `AllocationProperties.StatusAsWrittenOverstatesBeforeCutoff` | `Allocation.Status` |

The as-written release instant is `Calendar.ReleaseTimeAsWritten`, and `SeatPool.UnbookedDesignatedAsWritten` is the count with it. `Calendar.ReleaseTimeAsWrittenNeverLate` shows it is never after the cutoff and is earlier only on a Monday the first. So bookSeat is not affected: it rejects a floating booking before the cutoff, before it reads the count (`SeatPool.UnbookedAsWrittenAgrees`). `Engine.Db.BookFloating` runs the check as written and is proved to give `Allocation.Book`. getBookingStatus is affected: `Engine.Db.BookingStatusOf` models it as written and returns `Allocation.StatusAsWritten`. The functional model, `Allocation.Status` included, uses the corrected count `SeatPool.UnbookedDesignated`.
