/**
 * What a single bookSeat, releaseSeat or getBookingStatus call does to the
 * store: the order of its checks, the records and counters it writes, and
 * what it leaves alone.
 */
module AllocationProperties {
  import opened Base
  import opened Calendar
  import opened Records
  import opened SeatPool
  import opened Allocation

  /**
   * bookSeat succeeds exactly when every rule holds: the fields are present,
   * the seat is 1..50, the user has no booking that date, the seat is free or
   * held by a floating occupant a designated request takes over, the date is
   * a weekday, and the rules of the requested kind hold.
   */
  lemma BookSucceedsExactlyWhen(s: State, req: BookRequest, now: Instant)
    ensures Book(s, req, now).Ok? <==>
      && !HasMissingField(req)
      && 1 <= req.seatId <= TotalSeats
      && var d := req.date.value;
      && BookingKey(d, req.userId) !in s.bookings
      && (SeatKey(d, req.seatId) !in s.bookedSeats || IsKick(s, req, d))
      && !IsWeekend(d)
      && (|| (req.kind == Designated && IsDesignatedProcessingDay(req.batch, d) && req.seatId <= DesignatedZoneSeats)
          || (&& req.kind == Floating
              && IsAfterCutoff(d, now)
              && (UnbookedDesignated(s.bookedSeats, d, now) > 0 || req.seatId > DesignatedZoneSeats)
              && FloatingCountOf(StatsOf(s.dailyStats, d))
                 < ToppedUpTotal(StatsOf(s.dailyStats, d), UnbookedDesignated(s.bookedSeats, d, now))))
  {
  }

  /**
   * The checks run in a fixed order: an earlier failure hides every later
   * one. An occupied seat is reported before the weekend, and the weekend
   * before an unknown booking type.
   */
  lemma BookChecksInOrder(s: State, req: BookRequest, now: Instant)
    ensures HasMissingField(req) ==> Book(s, req, now) == Err(MissingField)
    ensures !HasMissingField(req) && (req.seatId < 1 || req.seatId > TotalSeats) ==>
              Book(s, req, now) == Err(InvalidSeat)
    ensures !HasMissingField(req) && 1 <= req.seatId <= TotalSeats ==>
              var d := req.date.value;
              && (BookingKey(d, req.userId) in s.bookings ==> Book(s, req, now) == Err(AlreadyBooked))
              && (BookingKey(d, req.userId) !in s.bookings && SeatKey(d, req.seatId) in s.bookedSeats && !IsKick(s, req, d) ==>
                    Book(s, req, now) == Err(SeatTaken))
              && (BookingKey(d, req.userId) !in s.bookings && (SeatKey(d, req.seatId) !in s.bookedSeats || IsKick(s, req, d)) ==>
                    && (IsWeekend(d) ==> Book(s, req, now) == Err(Holiday))
                    && (!IsWeekend(d) && req.kind != Designated && req.kind != Floating ==> Book(s, req, now) == Err(InvalidType)))
  {
  }

  /**
   * Once the common checks pass, the rules of the requested kind run in
   * order. A designated request fails first on a day that is not its batch's,
   * then on a buffer-zone seat. A floating request fails first before the
   * cutoff, then on a designated-zone seat while no designated seat is
   * released, and last when the topped-up pool is full.
   */
  lemma BookKindChecksInOrder(s: State, req: BookRequest, now: Instant)
    requires !HasMissingField(req) && 1 <= req.seatId <= TotalSeats
    requires BookingKey(req.date.value, req.userId) !in s.bookings
    requires SeatKey(req.date.value, req.seatId) !in s.bookedSeats || IsKick(s, req, req.date.value)
    requires !IsWeekend(req.date.value)
    ensures var d := req.date.value;
            && (req.kind == Designated && !IsDesignatedProcessingDay(req.batch, d) ==>
                  Book(s, req, now) == Err(NotDesignatedDay))
            && (req.kind == Designated && IsDesignatedProcessingDay(req.batch, d) && req.seatId > DesignatedZoneSeats ==>
                  Book(s, req, now) == Err(DesignatedZoneOnly))
            && (req.kind == Floating && !IsAfterCutoff(d, now) ==> Book(s, req, now) == Err(TooEarly))
    ensures var d := req.date.value;
            var unbooked := UnbookedDesignated(s.bookedSeats, d, now);
            var st := StatsOf(s.dailyStats, d);
            && (req.kind == Floating && IsAfterCutoff(d, now) && unbooked <= 0 && req.seatId <= DesignatedZoneSeats ==>
                  Book(s, req, now) == Err(BufferZoneOnly))
            && (req.kind == Floating && IsAfterCutoff(d, now) && (unbooked > 0 || req.seatId > DesignatedZoneSeats)
                && FloatingCountOf(st) >= ToppedUpTotal(st, unbooked) ==>
                  Book(s, req, now) == Err(PoolExhausted))
  {
  }

  /** A failed bookSeat reports the first broken rule, and only the rules it checks can fail it. */
  lemma BookErrorsAreBookErrors(s: State, req: BookRequest, now: Instant)
    ensures Book(s, req, now).Err? ==>
      Book(s, req, now).error in {MissingField, InvalidSeat, AlreadyBooked, SeatTaken, Holiday,
                                   NotDesignatedDay, DesignatedZoneOnly, TooEarly, BufferZoneOnly,
                                   PoolExhausted, InvalidType}
  {
  }

  /**
   * A designated booking: the user is in a batch whose day it is, the seat is
   * in the designated zone, both records are written with kind "designated",
   * a kicked occupant's booking is the only one deleted, the designated
   * counter grows by exactly one, and the released count and the pool carry
   * over.
   */
  lemma DesignatedBookingEffect(s: State, req: BookRequest, now: Instant)
    requires Book(s, req, now).Ok? && req.kind == Designated
    ensures var s' := Book(s, req, now).value;
            var d := req.date.value;
            var st, st' := StatsOf(s.dailyStats, d), StatsOf(s'.dailyStats, d);
            var occupant := if IsKick(s, req, d) then s.bookedSeats[SeatKey(d, req.seatId)].userId else "";
            && IsDesignatedProcessingDay(req.batch, d) && 1 <= req.seatId <= DesignatedZoneSeats
            && s'.bookings == (if occupant != "" then s.bookings - {BookingKey(d, occupant)} else s.bookings)
                                [BookingKey(d, req.userId) := Booking(req.userName, req.batch, req.seatId, Designated)]
            && s'.bookedSeats == s.bookedSeats[SeatKey(d, req.seatId) := SeatOccupancy(req.userId, req.userName, Designated)]
            && d in s'.dailyStats
            && DesignatedCountOf(st') == DesignatedCountOf(st) + 1
            && ReleasedCountOf(st') == ReleasedCountOf(st)
            && TotalFloatingOf(st') == TotalFloatingOf(st)
            && (!IsKick(s, req, d) ==> FloatingCountOf(st') == FloatingCountOf(st))
            && (forall e :: e != d ==> StatsOf(s'.dailyStats, e) == StatsOf(s.dailyStats, e))
            && s'.specialDays == s.specialDays && s'.users == s.users
  {
  }

  /**
   * The kick: an occupied seat is taken only by a designated request for a
   * designated-zone seat held by a floating occupant. The occupant's booking
   * is deleted, the floating counter drops by one (never below 0), and the
   * seat record is overwritten by the new user rather than deleted.
   */
  lemma KickEffect(s: State, req: BookRequest, now: Instant)
    requires Book(s, req, now).Ok?
    requires SeatKey(req.date.value, req.seatId) in s.bookedSeats
    ensures var s' := Book(s, req, now).value;
            var d := req.date.value;
            var sk := SeatKey(d, req.seatId);
            var occupant := s.bookedSeats[sk].userId;
            && req.kind == Designated && s.bookedSeats[sk].kind == Floating && req.seatId <= DesignatedZoneSeats
            && (occupant != "" ==>
                  FloatingCountOf(StatsOf(s'.dailyStats, d)) == Max(0, FloatingCountOf(StatsOf(s.dailyStats, d)) - 1))
            && (occupant != "" && occupant != req.userId ==> BookingKey(d, occupant) !in s'.bookings)
            && sk in s'.bookedSeats && s'.bookedSeats[sk].userId == req.userId && s'.bookedSeats[sk].kind == Designated
  {
  }

  /**
   * A floating booking: it comes after the cutoff, on a buffer seat unless
   * designated seats have been released, within the topped-up pool; the
   * floating counter grows by exactly one and the pool never shrinks.
   */
  lemma FloatingBookingEffect(s: State, req: BookRequest, now: Instant)
    requires Book(s, req, now).Ok? && req.kind == Floating
    ensures var s' := Book(s, req, now).value;
            var d := req.date.value;
            var unbooked := UnbookedDesignated(s.bookedSeats, d, now);
            var st, st' := StatsOf(s.dailyStats, d), StatsOf(s'.dailyStats, d);
            && IsAfterCutoff(d, now) && !IsWeekend(d)
            && SeatKey(d, req.seatId) !in s.bookedSeats
            && (unbooked <= 0 ==> DesignatedZoneSeats < req.seatId <= TotalSeats)
            && 1 <= req.seatId <= TotalSeats
            && FloatingCountOf(st) < ToppedUpTotal(st, unbooked)
            && FloatingCountOf(st') == FloatingCountOf(st) + 1
            && DesignatedCountOf(st') == DesignatedCountOf(st)
            && ReleasedCountOf(st') == ReleasedCountOf(st)
            && TotalFloatingOf(st') >= TotalFloatingOf(st)
            && (StatsWellFormed(st) ==> TotalFloatingOf(st') == ToppedUpTotal(st, unbooked))
            && (forall e :: e != d ==> StatsOf(s'.dailyStats, e) == StatsOf(s.dailyStats, e))
            && s'.bookings == s.bookings[BookingKey(d, req.userId) := Booking(req.userName, req.batch, req.seatId, Floating)]
            && s'.bookedSeats == s.bookedSeats[SeatKey(d, req.seatId) := SeatOccupancy(req.userId, req.userName, Floating)]
  {
    var d := req.date.value;
    var st := StatsOf(s.dailyStats, d);
    var unbooked := UnbookedDesignated(s.bookedSeats, d, now);
    if StatsWellFormed(st) {
      TopUpIdempotent(st, unbooked);
    }
  }

  /**
   * releaseSeat, case by case: without a booking it fails; an admin-override
   * booking loses both records and no counter moves; otherwise the date's
   * counters must exist, a designated release moves one seat from the
   * designated count to the released count and the floating pool, a floating
   * release only lowers the floating count, and an unknown kind fails.
   */
  lemma ReleaseCases(s: State, userId: string, d: Day)
    requires userId != ""
    ensures var r := Release(s, userId, Some(d));
            var bk := BookingKey(d, userId);
            && (bk !in s.bookings ==> r == Err(NoBookingFound))
            && (bk in s.bookings ==>
                  var b := s.bookings[bk];
                  var sk := SeatKey(d, b.seatId);
                  && (b.kind == AdminOverride ==>
                        r == Ok(s.(bookings := s.bookings - {bk}, bookedSeats := s.bookedSeats - {sk})))
                  && (b.kind != AdminOverride && d !in s.dailyStats ==> r == Err(StatsMissing))
                  && (b.kind != AdminOverride && b.kind != Designated && b.kind != Floating ==> r.Err?)
                  && (r.Ok? ==>
                        var s', st, st' := r.value, StatsOf(s.dailyStats, d), StatsOf(r.value.dailyStats, d);
                        && s'.bookings == s.bookings - {bk}
                        && s'.bookedSeats == s.bookedSeats - {sk}
                        && (forall e :: e != d ==> StatsOf(s'.dailyStats, e) == StatsOf(s.dailyStats, e))
                        && (b.kind == Designated ==>
                              && DesignatedCountOf(st') == DesignatedCountOf(st) - 1
                              && ReleasedCountOf(st') == ReleasedCountOf(st) + 1
                              && FloatingCountOf(st') == FloatingCountOf(st)
                              && TotalFloatingOf(st') > TotalFloatingOf(st))
                        && (b.kind == Floating ==>
                              && FloatingCountOf(st') == FloatingCountOf(st) - 1
                              && DesignatedCountOf(st') == DesignatedCountOf(st)
                              && TotalFloatingOf(st') == TotalFloatingOf(st))))
  {
  }

  /** With sane counters, releasing a designated booking grows the floating pool by exactly one. */
  lemma DesignatedReleaseGrowsPoolByOne(s: State, userId: string, d: Day)
    requires Release(s, userId, Some(d)).Ok?
    requires s.bookings[BookingKey(d, userId)].kind == Designated
    requires StatsWellFormed(StatsOf(s.dailyStats, d))
    ensures TotalFloatingOf(StatsOf(Release(s, userId, Some(d)).value.dailyStats, d))
         == TotalFloatingOf(StatsOf(s.dailyStats, d)) + 1
  {
  }

  /** A second release of the same booking finds nothing and changes nothing. */
  lemma ReleaseTwiceFails(s: State, userId: string, date: Option<Day>)
    requires Release(s, userId, date).Ok?
    ensures Release(Release(s, userId, date).value, userId, date) == Err(NoBookingFound)
  {
  }

  /**
   * getBookingStatus agrees with bookSeat: for a user without a booking, a
   * floating request that passes every other rule succeeds exactly when the
   * reported number of available floating seats is positive.
   */
  lemma StatusAgreesWithBook(s: State, req: BookRequest, now: Instant)
    requires !HasMissingField(req) && req.kind == Floating && 1 <= req.seatId <= TotalSeats
    requires BookingKey(req.date.value, req.userId) !in s.bookings
    requires SeatKey(req.date.value, req.seatId) !in s.bookedSeats
    requires !IsWeekend(req.date.value) && IsAfterCutoff(req.date.value, now)
    requires UnbookedDesignated(s.bookedSeats, req.date.value, now) > 0 || req.seatId > DesignatedZoneSeats
    ensures var status := Status(s, req.userId, req.date, now);
            && status.Ok? && status.value.Unbooked?
            && (Book(s, req, now).Ok? <==> status.value.availableFloating > 0)
  {
  }

  /** getBookingStatus of a user with a booking reports that booking. */
  lemma StatusReportsBooking(s: State, userId: string, d: Day, now: Instant)
    requires userId != "" && BookingKey(d, userId) in s.bookings
    ensures Status(s, userId, Some(d), now) == Ok(Booked(s.bookings[BookingKey(d, userId)]))
  {
  }

  /**
   * Special days are stored but never consulted: bookSeat gives the same
   * answer and the same writes whatever the special-day overrides are.
   */
  lemma BookIgnoresSpecialDays(s: State, req: BookRequest, now: Instant, overrides: map<Day, SpecialDay>)
    ensures Book(s.(specialDays := overrides), req, now).Err? <==> Book(s, req, now).Err?
    ensures Book(s, req, now).Err? ==> Book(s.(specialDays := overrides), req, now) == Book(s, req, now)
    ensures Book(s, req, now).Ok? ==>
              Book(s.(specialDays := overrides), req, now) == Ok(Book(s, req, now).value.(specialDays := overrides))
  {
  }

  /**
   * The status as written reports what the corrected status reports, except
   * before the cutoff of a Monday that is the first of its month.
   */
  lemma StatusAsWrittenAgrees(s: State, userId: string, date: Option<Day>, now: Instant)
    ensures date.None? || IsAfterCutoff(date.value, now) || Weekday(date.value) != Monday || DayOfMonth(date.value) != 1 ==>
              StatusAsWritten(s, userId, date, now) == Status(s, userId, date, now)
  {
    if date.Some? {
      UnbookedAsWrittenAgrees(s.bookedSeats, date.value, now);
    }
  }

  /**
   * At noon of 2021-02-10, with an empty store, getBookingStatus as written
   * reports 50 floating seats open for Monday 2021-03-01, while the corrected
   * status reports the base 10 and a floating request is refused as too early.
   */
  lemma StatusAsWrittenOverstatesBeforeCutoff()
    ensures var now := NoonOf(18668);
            && StatusAsWritten(EmptyState, "u", Some(18687), now) == Ok(Unbooked(50))
            && Status(EmptyState, "u", Some(18687), now) == Ok(Unbooked(10))
            && Book(EmptyState, BookRequest("u", "n", 1, Some(18687), Floating, 45), now) == Err(TooEarly)
  {
    UnbookedAsWrittenBeforeCutoff();
    ReleaseTimeAsWrittenMonthEarly();
  }
}
