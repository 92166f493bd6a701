/**
 * The booking transactions, as functions from the store before the
 * transaction to the store after it: bookSeat, releaseSeat, and the
 * read-only availability report of getBookingStatus. A transaction that
 * fails returns its error and writes nothing.
 */
module Allocation {
  import opened Base
  import opened Calendar
  import opened Records
  import opened SeatPool

  /** A bookSeat request; a field the caller did not send is "", 0 or `None`. */
  datatype BookRequest = BookRequest(
    userId: string, userName: string, batch: int, date: Option<Day>, kind: string, seatId: int)

  /** JavaScript's falsy test on the required fields. */
  predicate HasMissingField(req: BookRequest) {
    req.userId == "" || req.batch == 0 || req.date.None? || req.kind == "" || req.seatId == 0
  }

  /**
   * The requested seat holds a floating occupant that this designated request
   * may take over: the only case in which an occupied seat does not fail.
   */
  predicate IsKick(s: State, req: BookRequest, d: Day) {
    var sk := SeatKey(d, req.seatId);
    && sk in s.bookedSeats
    && req.kind == Designated
    && s.bookedSeats[sk].kind == Floating
    && req.seatId <= DesignatedZoneSeats
  }

  /** The first rule of bookSeat that the request breaks, in the order the transaction checks them. */
  function BookFailure(s: State, req: BookRequest, now: Instant): Option<Error> {
    if HasMissingField(req) then Some(MissingField)
    else if req.seatId < 1 || req.seatId > TotalSeats then Some(InvalidSeat)
    else
      var d := req.date.value;
      if BookingKey(d, req.userId) in s.bookings then Some(AlreadyBooked)
      else if SeatKey(d, req.seatId) in s.bookedSeats && !IsKick(s, req, d) then Some(SeatTaken)
      else if IsWeekend(d) then Some(Holiday)
      else if req.kind == Designated then
        if !IsDesignatedProcessingDay(req.batch, d) then Some(NotDesignatedDay)
        else if req.seatId > DesignatedZoneSeats then Some(DesignatedZoneOnly)
        else None
      else if req.kind == Floating then
        if !IsAfterCutoff(d, now) then Some(TooEarly)
        else
          var unbooked := UnbookedDesignated(s.bookedSeats, d, now);
          var st := StatsOf(s.dailyStats, d);
          if unbooked <= 0 && (req.seatId <= DesignatedZoneSeats || req.seatId > TotalSeats) then Some(BufferZoneOnly)
          else if FloatingCountOf(st) >= ToppedUpTotal(st, unbooked) then Some(PoolExhausted)
          else None
      else Some(InvalidType)
  }

  /** The writes of a designated booking, including the kick of a floating occupant. */
  function DesignatedWrites(s: State, req: BookRequest, d: Day): State {
    var sk := SeatKey(d, req.seatId);
    var st := StatsOf(s.dailyStats, d);
    var kicked := if IsKick(s, req, d) then s.bookedSeats[sk].userId else "";
    var bookings := if kicked != "" then s.bookings - {BookingKey(d, kicked)} else s.bookings;
    var st' := if kicked != "" then st.(floatingCount := Some(Max(0, FloatingCountOf(st) - 1))) else st;
    s.(bookings := bookings[BookingKey(d, req.userId) := Booking(req.userName, req.batch, req.seatId, Designated)],
       bookedSeats := s.bookedSeats[sk := SeatOccupancy(req.userId, req.userName, Designated)],
       dailyStats := s.dailyStats[d := st'.(designatedCount := Some(DesignatedCountOf(st') + 1))])
  }

  /** The writes of a floating booking, including the lazy top-up of the pool. */
  function FloatingWrites(s: State, req: BookRequest, d: Day, now: Instant): State {
    var st := TopUp(StatsOf(s.dailyStats, d), UnbookedDesignated(s.bookedSeats, d, now));
    s.(bookings := s.bookings[BookingKey(d, req.userId) := Booking(req.userName, req.batch, req.seatId, Floating)],
       bookedSeats := s.bookedSeats[SeatKey(d, req.seatId) := SeatOccupancy(req.userId, req.userName, Floating)],
       dailyStats := s.dailyStats[d := st.(floatingCount := Some(FloatingCountOf(st) + 1))])
  }

  /**
   * The bookSeat transaction. A booking it makes is on a weekday, for a user
   * without a booking that date, and writes the booking and the seat record
   * under the requested kind; special days and users stay as they are.
   */
  function Book(s: State, req: BookRequest, now: Instant): (r: Result<State, Error>)
    ensures r.Ok? ==> req.date.Some? && req.kind in {Designated, Floating}
    ensures r.Ok? ==>
              var d := req.date.value;
              && !IsWeekend(d)
              && BookingKey(d, req.userId) !in s.bookings
              && BookingKey(d, req.userId) in r.value.bookings && SeatKey(d, req.seatId) in r.value.bookedSeats
              && r.value.bookings[BookingKey(d, req.userId)] == Booking(req.userName, req.batch, req.seatId, req.kind)
              && r.value.bookedSeats[SeatKey(d, req.seatId)] == SeatOccupancy(req.userId, req.userName, req.kind)
              && r.value.specialDays == s.specialDays && r.value.users == s.users
  {
    match BookFailure(s, req, now)
    case Some(e) => Err(e)
    case None =>
      if req.kind == Designated then Ok(DesignatedWrites(s, req, req.date.value))
      else Ok(FloatingWrites(s, req, req.date.value, now))
  }

  /**
   * The releaseSeat transaction for the booking of `userId` on `date`. It
   * needs both parameters and an existing booking; a release deletes exactly
   * that booking and the seat record it names.
   */
  function Release(s: State, userId: string, date: Option<Day>): (r: Result<State, Error>)
    ensures userId == "" || date.None? ==> r == Err(MissingParams)
    ensures r.Ok? ==>
              var bk := BookingKey(date.value, userId);
              && bk in s.bookings
              && r.value.bookings == s.bookings - {bk}
              && r.value.bookedSeats == s.bookedSeats - {SeatKey(date.value, s.bookings[bk].seatId)}
              && r.value.specialDays == s.specialDays && r.value.users == s.users
  {
    if userId == "" || date.None? then Err(MissingParams)
    else
      var d := date.value;
      var bk := BookingKey(d, userId);
      if bk !in s.bookings then Err(NoBookingFound)
      else
        var b := s.bookings[bk];
        var cleared := s.(bookings := s.bookings - {bk}, bookedSeats := s.bookedSeats - {SeatKey(d, b.seatId)});
        if b.kind == AdminOverride then Ok(cleared)
        else if d !in s.dailyStats then Err(StatsMissing)
        else
          var st := s.dailyStats[d];
          if b.kind == Designated then
            Ok(cleared.(dailyStats := s.dailyStats[d := st.(
              designatedCount := Some(DesignatedCountOf(st) - 1),
              releasedCount := Some(ReleasedCountOf(st) + 1),
              totalFloatingAvailable := Some(TotalFloatingOf(st) + 1))]))
          else if b.kind == Floating then
            Ok(cleared.(dailyStats := s.dailyStats[d := st.(floatingCount := Some(FloatingCountOf(st) - 1))]))
          else Err(UnknownBookingType)
  }

  datatype BookingStatus = Booked(booking: Booking) | Unbooked(availableFloating: int)

  /** The floating seats of `d` still open, with `unbooked` designated seats released. */
  function Availability(s: State, d: Day, unbooked: int): BookingStatus {
    var st := StatsOf(s.dailyStats, d);
    Unbooked(ToppedUpTotal(st, unbooked) - FloatingCountOf(st))
  }

  /**
   * getBookingStatus: the caller's booking, or the floating seats still open
   * to them, which is never negative while the date's counters are sane.
   */
  function Status(s: State, userId: string, date: Option<Day>, now: Instant): (r: Result<BookingStatus, Error>)
    ensures r.Ok? <==> userId != "" && date.Some?
    ensures r.Ok? ==> (r.value.Booked? <==> BookingKey(date.value, userId) in s.bookings)
    ensures r.Ok? && r.value.Unbooked? && StatsWellFormed(StatsOf(s.dailyStats, date.value)) ==>
              r.value.availableFloating >= 0
  {
    if userId == "" || date.None? then Err(MissingParams)
    else
      var d := date.value;
      if BookingKey(d, userId) in s.bookings then Ok(Booked(s.bookings[BookingKey(d, userId)]))
      else Ok(Availability(s, d, UnbookedDesignated(s.bookedSeats, d, now)))
  }

  /** getBookingStatus with the unbooked-designated count as written. */
  function StatusAsWritten(s: State, userId: string, date: Option<Day>, now: Instant): (r: Result<BookingStatus, Error>)
    ensures r.Ok? <==> userId != "" && date.Some?
    ensures r.Ok? ==> (r.value.Booked? <==> BookingKey(date.value, userId) in s.bookings)
    ensures r.Ok? && r.value.Unbooked? && StatsWellFormed(StatsOf(s.dailyStats, date.value)) ==>
              r.value.availableFloating >= 0
  {
    if userId == "" || date.None? then Err(MissingParams)
    else
      var d := date.value;
      if BookingKey(d, userId) in s.bookings then Ok(Booked(s.bookings[BookingKey(d, userId)]))
      else Ok(Availability(s, d, UnbookedDesignatedAsWritten(s.bookedSeats, d, now)))
  }
}
