/**
 * The store as the handlers change it: the five collections are fields of
 * one object, and each handler checks its rules and then makes its writes
 * one by one, as the transaction bodies do. Each method is proved to report
 * the outcome of, and leave the store that, the functional model of the same
 * operation gives: the new store on success, the untouched store on failure.
 */
module Engine {
  import opened Base
  import opened Calendar
  import opened Records
  import opened SeatPool
  import opened Allocation
  import opened Invariants
  import opened AllocationProperties
  import opened Admin

  /** A handler reported what the model reports and left the store the model leaves. */
  ghost predicate Committed(r: Outcome<Error>, expected: Result<State, Error>, before: State, after: State) {
    match expected
    case Ok(s') => r == Pass && after == s'
    case Err(e) => r == Fail(e) && after == before
  }

  /** The counters getBookingStatus assumes for a date without a record. */
  const StatusDefaultStats: DailyStats := DailyStats(None, Some(0), None, None, Some(BaseFloatingBuffer), None)

  class Db {
    var bookings: map<BookingKey, Booking>
    var bookedSeats: map<SeatKey, SeatOccupancy>
    var dailyStats: map<Day, DailyStats>
    var specialDays: map<Day, SpecialDay>
    var users: map<string, UserRecord>

    /** The store as a value. */
    function Snapshot(): State
      reads this
    {
      State(bookings, bookedSeats, dailyStats, specialDays, users)
    }

    /** A store holding only the given user records. */
    constructor(seeded: map<string, UserRecord>)
      ensures Snapshot() == EmptyState.(users := seeded)
      ensures Inv(Snapshot())
    {
      bookings := map[];
      bookedSeats := map[];
      dailyStats := map[];
      specialDays := map[];
      users := seeded;
      EmptyStoreSatisfiesInv(seeded);
    }

    /** bookSeat: the checks in the order the handler and its transaction make them, then the writes. */
    method BookSeat(req: BookRequest, now: Instant) returns (r: Outcome<Error>)
      modifies this
      ensures Committed(r, Book(old(Snapshot()), req, now), old(Snapshot()), Snapshot())
      ensures Inv(old(Snapshot())) ==> Inv(Snapshot())
    {
      ghost var before := Snapshot();
      if HasMissingField(req) {
        return Fail(MissingField);
      }
      if req.seatId < 1 || req.seatId > TotalSeats {
        return Fail(InvalidSeat);
      }
      var d := req.date.value;
      if BookingKey(d, req.userId) in bookings {
        return Fail(AlreadyBooked);
      }
      var floatingUserToKick := "";
      var seatKey := SeatKey(d, req.seatId);
      if seatKey in bookedSeats {
        var seat := bookedSeats[seatKey];
        if req.kind == Designated && seat.kind == Floating && req.seatId <= DesignatedZoneSeats {
          floatingUserToKick := seat.userId;
        } else {
          return Fail(SeatTaken);
        }
      }
      var dailyData := if d in dailyStats then dailyStats[d] else FreshStats;
      if IsWeekend(d) {
        return Fail(Holiday);
      }
      if req.kind == Designated {
        r := BookDesignated(req, now, floatingUserToKick, dailyData);
      } else if req.kind == Floating {
        r := BookFloating(req, now, dailyData);
      } else {
        return Fail(InvalidType);
      }
      if Inv(before) && r == Pass {
        BookPreservesInv(before, req, now);
      }
    }

    /** The checks bookSeat has passed when it reaches the rules of the requested kind. */
    ghost predicate PassedCommonChecks(req: BookRequest, dailyData: DailyStats)
      reads this
    {
      && !HasMissingField(req)
      && 1 <= req.seatId <= TotalSeats
      && BookingKey(req.date.value, req.userId) !in bookings
      && (SeatKey(req.date.value, req.seatId) !in bookedSeats || IsKick(Snapshot(), req, req.date.value))
      && !IsWeekend(req.date.value)
      && dailyData == StatsOf(dailyStats, req.date.value)
    }

    /** The designated branch of the bookSeat transaction. */
    method BookDesignated(req: BookRequest, now: Instant, floatingUserToKick: string, dailyData: DailyStats)
      returns (r: Outcome<Error>)
      requires req.kind == Designated && PassedCommonChecks(req, dailyData)
      requires floatingUserToKick ==
                 if SeatKey(req.date.value, req.seatId) in bookedSeats
                 then bookedSeats[SeatKey(req.date.value, req.seatId)].userId else ""
      modifies this
      ensures Committed(r, Book(old(Snapshot()), req, now), old(Snapshot()), Snapshot())
    {
      var d := req.date.value;
      if !IsDesignatedProcessingDay(req.batch, d) {
        return Fail(NotDesignatedDay);
      }
      if req.seatId > DesignatedZoneSeats {
        return Fail(DesignatedZoneOnly);
      }
      var data := dailyData;
      if floatingUserToKick != "" {
        bookings := bookings - {BookingKey(d, floatingUserToKick)};
        data := data.(floatingCount := Some(Max(0, FloatingCountOf(data) - 1)));
      }
      bookings := bookings[BookingKey(d, req.userId) := Booking(req.userName, req.batch, req.seatId, Designated)];
      bookedSeats := bookedSeats[SeatKey(d, req.seatId) := SeatOccupancy(req.userId, req.userName, Designated)];
      dailyStats := dailyStats[d := data.(designatedCount := Some(DesignatedCountOf(data) + 1))];
      r := Pass;
    }

    /** The floating branch of the bookSeat transaction, with the lazy top-up of the pool. */
    method BookFloating(req: BookRequest, now: Instant, dailyData: DailyStats) returns (r: Outcome<Error>)
      requires req.kind == Floating && PassedCommonChecks(req, dailyData)
      modifies this
      ensures Committed(r, Book(old(Snapshot()), req, now), old(Snapshot()), Snapshot())
    {
      var d := req.date.value;
      if !IsAfterCutoff(d, now) {
        return Fail(TooEarly);
      }
      var unbooked := CountUnbookedDesignatedSeats(bookedSeats, d, now);
      var data := dailyData;
      var totalAvailable := TotalFloatingOf(data);
      var canUseDesignatedSeats := false;
      if unbooked > 0 {
        canUseDesignatedSeats := true;
        var alreadyCounted := TotalFloatingOf(data) - BaseFloatingBuffer - ReleasedCountOf(data);
        if alreadyCounted < unbooked {
          totalAvailable := totalAvailable + (unbooked - Max(0, alreadyCounted));
          data := data.(totalFloatingAvailable := Some(totalAvailable), autoReleasedFromDesignated := Some(unbooked));
        }
      }
      if !canUseDesignatedSeats && (req.seatId <= DesignatedZoneSeats || req.seatId > TotalSeats) {
        return Fail(BufferZoneOnly);
      }
      var currentFloatingBooked := FloatingCountOf(data);
      if currentFloatingBooked >= totalAvailable {
        return Fail(PoolExhausted);
      }
      bookings := bookings[BookingKey(d, req.userId) := Booking(req.userName, req.batch, req.seatId, Floating)];
      bookedSeats := bookedSeats[SeatKey(d, req.seatId) := SeatOccupancy(req.userId, req.userName, Floating)];
      dailyStats := dailyStats[d := data.(floatingCount := Some(currentFloatingBooked + 1))];
      r := Pass;
    }

    /** releaseSeat: the booking and its seat record go, and the counters move by the booking's kind. */
    method ReleaseSeat(userId: string, date: Option<Day>) returns (r: Outcome<Error>)
      modifies this
      ensures Committed(r, Release(old(Snapshot()), userId, date), old(Snapshot()), Snapshot())
      ensures Inv(old(Snapshot())) ==> Inv(Snapshot())
    {
      ghost var before := Snapshot();
      if userId == "" || date.None? {
        return Fail(MissingParams);
      }
      var d := date.value;
      var bookingKey := BookingKey(d, userId);
      if bookingKey !in bookings {
        return Fail(NoBookingFound);
      }
      var booking := bookings[bookingKey];
      var seatKey := SeatKey(d, booking.seatId);
      if booking.kind == AdminOverride {
        bookings := bookings - {bookingKey};
        bookedSeats := bookedSeats - {seatKey};
      } else {
        if d !in dailyStats {
          return Fail(StatsMissing);
        }
        var dailyData := dailyStats[d];
        if booking.kind == Designated {
          bookings := bookings - {bookingKey};
          bookedSeats := bookedSeats - {seatKey};
          dailyStats := dailyStats[d := dailyData.(
            designatedCount := Some(DesignatedCountOf(dailyData) - 1),
            releasedCount := Some(ReleasedCountOf(dailyData) + 1),
            totalFloatingAvailable := Some(TotalFloatingOf(dailyData) + 1))];
        } else if booking.kind == Floating {
          bookings := bookings - {bookingKey};
          bookedSeats := bookedSeats - {seatKey};
          dailyStats := dailyStats[d := dailyData.(floatingCount := Some(FloatingCountOf(dailyData) - 1))];
        } else {
          return Fail(UnknownBookingType);
        }
      }
      if Inv(before) {
        ReleasePreservesInv(before, userId, date);
      }
      r := Pass;
    }

    /**
     * getBookingStatus: reads the store and writes nothing. It counts the
     * unbooked designated seats with the release instant as written, so it
     * reports the corrected status except before the cutoff of a Monday
     * that is the first of its month.
     */
    method BookingStatusOf(userId: string, date: Option<Day>, now: Instant) returns (r: Result<BookingStatus, Error>)
      ensures r == StatusAsWritten(Snapshot(), userId, date, now)
      ensures date.Some? && IsAfterCutoff(date.value, now) ==> r == Status(Snapshot(), userId, date, now)
    {
      StatusAsWrittenAgrees(Snapshot(), userId, date, now);
      if userId == "" || date.None? {
        return Err(MissingParams);
      }
      var d := date.value;
      if BookingKey(d, userId) in bookings {
        return Ok(Booked(bookings[BookingKey(d, userId)]));
      }
      var stats := if d in dailyStats then dailyStats[d] else StatusDefaultStats;
      var unbooked := CountUnbookedDesignatedSeats(bookedSeats, d, now);
      var totalAvailable := TotalFloatingOf(stats);
      if unbooked > 0 {
        var alreadyCounted := TotalFloatingOf(stats) - BaseFloatingBuffer - ReleasedCountOf(stats);
        if alreadyCounted < unbooked {
          totalAvailable := totalAvailable + (unbooked - Max(0, alreadyCounted));
        }
      }
      ghost var st := StatsOf(dailyStats, d);
      assert TotalFloatingOf(stats) == TotalFloatingOf(st) && ReleasedCountOf(stats) == ReleasedCountOf(st);
      assert FloatingCountOf(stats) == FloatingCountOf(st);
      r := Ok(Unbooked(totalAvailable - FloatingCountOf(stats)));
      assert r == Ok(Availability(Snapshot(), d, unbooked));
    }

    /** adminBookSeat: the kick, the two override records and the stats placeholder, in that order. */
    method AdminBookSeat(caller: string, req: OverrideRequest) returns (r: Outcome<Error>)
      modifies this
      ensures Committed(r, AdminBook(old(Snapshot()), caller, req), old(Snapshot()), Snapshot())
    {
      if !IsAdmin(users, caller) {
        return Fail(AccessDenied);
      }
      var bookingKey := BookingKey(req.date, req.userId);
      var seatKey := SeatKey(req.date, req.seatId);
      if seatKey in bookedSeats {
        var occupant := bookedSeats[seatKey];
        if occupant.userId != req.userId {
          bookings := bookings - {BookingKey(req.date, occupant.userId)};
        }
      }
      bookings := bookings[bookingKey := Booking(req.userName, req.batch, req.seatId, AdminOverride)];
      bookedSeats := bookedSeats[seatKey := SeatOccupancy(req.userId, req.userName, AdminOverride)];
      if req.date !in dailyStats {
        dailyStats := dailyStats[req.date := PlaceholderStats];
      }
      r := Pass;
    }

    /**
     * The admin release: deletes the booking, then collects a deletion for
     * every seat record of the user on the date and commits them together.
     */
    method AdminReleaseSeat(caller: string, userId: string, date: Day) returns (r: Outcome<Error>)
      modifies this
      ensures Committed(r, AdminRelease(old(Snapshot()), caller, userId, date), old(Snapshot()), Snapshot())
    {
      if !IsAdmin(users, caller) {
        return Fail(AccessDenied);
      }
      bookings := bookings - {BookingKey(date, userId)};
      var matching := set k | k in bookedSeats && k.date == date && bookedSeats[k].userId == userId;
      if matching == {} {
        return Pass;
      }
      ghost var all := matching;
      var remaining := bookedSeats;
      while matching != {}
        invariant matching <= all
        invariant remaining == bookedSeats - (all - matching)
        decreases |matching|
      {
        var doc :| doc in matching;
        remaining := remaining - {doc};
        matching := matching - {doc};
      }
      bookedSeats := remaining;
      r := Pass;
    }

    /** POST /special-days. */
    method SetSpecialDay(caller: string, date: Option<Day>, kind: string) returns (r: Outcome<Error>)
      modifies this
      ensures Committed(r, Admin.SetSpecialDay(old(Snapshot()), caller, date, kind), old(Snapshot()), Snapshot())
    {
      if !IsAdmin(users, caller) {
        return Fail(AccessDenied);
      }
      if date.None? || (kind != HolidayKind && kind != WorkingKind) {
        return Fail(InvalidSpecialDay);
      }
      specialDays := specialDays[date.value := SpecialDay(kind)];
      r := Pass;
    }

    /** DELETE /special-days/:date. */
    method DeleteSpecialDay(caller: string, date: Day) returns (r: Outcome<Error>)
      modifies this
      ensures Committed(r, Admin.DeleteSpecialDay(old(Snapshot()), caller, date), old(Snapshot()), Snapshot())
    {
      if !IsAdmin(users, caller) {
        return Fail(AccessDenied);
      }
      specialDays := specialDays - {date};
      r := Pass;
    }

    /** updateUserBatch. */
    method UpdateUserBatch(caller: string, userId: string, batch: Option<int>) returns (r: Outcome<Error>)
      modifies this
      ensures Committed(r, Admin.UpdateUserBatch(old(Snapshot()), caller, userId, batch), old(Snapshot()), Snapshot())
    {
      if !IsAdmin(users, caller) {
        return Fail(AccessDenied);
      }
      if batch.None? || batch.value == 0 {
        return Fail(BatchRequired);
      }
      if userId !in users {
        return Fail(UserNotFound);
      }
      users := users[userId := users[userId][BatchField := Num(batch.value)]];
      r := Pass;
    }

    /**
     * getAllUsers: one entry per user record, each without its password and
     * with the record key as `id`; `order` lists the record keys in the order
     * of the entries.
     */
    method GetAllUsers(caller: string) returns (r: Result<seq<UserRecord>, Error>, ghost order: seq<string>)
      ensures !IsAdmin(users, caller) <==> r == Err(AccessDenied)
      ensures r.Ok? ==>
                && |r.value| == |order| == |users|
                && (forall i :: 0 <= i < |order| ==> order[i] in users && r.value[i] == PublicView(order[i], users[order[i]]))
                && (forall id :: id in users ==> id in order)
                && (forall i, j :: 0 <= i < j < |order| ==> order[i] != order[j])
    {
      if !IsAdmin(users, caller) {
        return Err(AccessDenied), [];
      }
      var pending := users.Keys;
      var list: seq<UserRecord> := [];
      order := [];
      while pending != {}
        invariant pending <= users.Keys
        invariant |list| == |order|
        invariant |order| + |pending| == |users.Keys|
        invariant forall i :: 0 <= i < |order| ==> order[i] in users && order[i] !in pending
        invariant forall i :: 0 <= i < |order| ==> list[i] == PublicView(order[i], users[order[i]])
        invariant forall id :: id in users && id !in pending ==> id in order
        invariant forall i, j :: 0 <= i < j < |order| ==> order[i] != order[j]
        decreases |pending|
      {
        var id :| id in pending;
        list := list + [PublicView(id, users[id])];
        order := order + [id];
        pending := pending - {id};
      }
      r := Ok(list);
    }
  }
}
