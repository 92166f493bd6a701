/**
 * What the admin operations do to the store: the gate, the writes and
 * deletions they make, the counters they never touch, and which store
 * invariants they keep or break.
 */
module AdminProperties {
  import opened Base
  import opened Calendar
  import opened Records
  import opened SeatPool
  import opened Allocation
  import opened AllocationProperties
  import opened Invariants
  import opened Admin

  /** Every counter of every date reads the same in both stat collections. */
  ghost predicate CountersUnchanged(stats: map<Day, DailyStats>, stats': map<Day, DailyStats>) {
    forall e :: && DesignatedCountOf(StatsOf(stats', e)) == DesignatedCountOf(StatsOf(stats, e))
                && FloatingCountOf(StatsOf(stats', e)) == FloatingCountOf(StatsOf(stats, e))
                && ReleasedCountOf(StatsOf(stats', e)) == ReleasedCountOf(StatsOf(stats, e))
                && TotalFloatingOf(StatsOf(stats', e)) == TotalFloatingOf(StatsOf(stats, e))
  }

  /** Counters that read the same keep the pool sane and never shrink it. */
  lemma CountersUnchangedKeepPool(s: State, s': State)
    requires CountersUnchanged(s.dailyStats, s'.dailyStats)
    ensures PoolSane(s) ==> PoolSane(s')
    ensures PoolNotShrunk(s, s')
  {
    if PoolSane(s) {
      forall e ensures StatsWellFormed(StatsOf(s'.dailyStats, e)) {
        assert StatsWellFormed(StatsOf(s.dailyStats, e));
      }
    }
  }

  /** Every admin operation is refused, with AccessDenied, exactly when the caller is not an admin. */
  lemma OnlyAdminsPass(s: State, caller: string, req: OverrideRequest, userId: string, date: Day,
                       special: Option<Day>, kind: string, batch: Option<int>)
    ensures !IsAdmin(s.users, caller) <==> AdminBook(s, caller, req) == Err(AccessDenied)
    ensures !IsAdmin(s.users, caller) <==> AdminRelease(s, caller, userId, date) == Err(AccessDenied)
    ensures !IsAdmin(s.users, caller) <==> SetSpecialDay(s, caller, special, kind) == Err(AccessDenied)
    ensures !IsAdmin(s.users, caller) <==> DeleteSpecialDay(s, caller, date) == Err(AccessDenied)
    ensures !IsAdmin(s.users, caller) <==> UpdateUserBatch(s, caller, userId, batch) == Err(AccessDenied)
  {
  }

  // ---------------------------------------------------------------------------
  // adminBookSeat

  /**
   * adminBookSeat checks nothing past the gate. It writes the booking and the
   * seat record with kind "admin-override", deletes the booking of a
   * different occupant of the seat (and only that one), makes sure the date
   * has a stats record, and moves no counter.
   */
  lemma AdminBookEffect(s: State, caller: string, req: OverrideRequest)
    requires IsAdmin(s.users, caller)
    ensures AdminBook(s, caller, req).Ok?
    ensures var s' := AdminBook(s, caller, req).value;
            var bk := BookingKey(req.date, req.userId);
            var sk := SeatKey(req.date, req.seatId);
            var kicked := sk in s.bookedSeats && s.bookedSeats[sk].userId != req.userId;
            && s'.bookings[bk] == Booking(req.userName, req.batch, req.seatId, AdminOverride)
            && s'.bookedSeats == s.bookedSeats[sk := SeatOccupancy(req.userId, req.userName, AdminOverride)]
            && (kicked ==> BookingKey(req.date, s.bookedSeats[sk].userId) !in s'.bookings)
            && (forall b :: b != bk && !(kicked && b == BookingKey(req.date, s.bookedSeats[sk].userId)) ==>
                  (b in s'.bookings <==> b in s.bookings) && (b in s.bookings ==> s'.bookings[b] == s.bookings[b]))
            && req.date in s'.dailyStats
            && CountersUnchanged(s.dailyStats, s'.dailyStats)
            && s'.specialDays == s.specialDays && s'.users == s.users
  {
  }

  /**
   * Taking over a seat that holds a counted occupancy leaves the counters
   * behind: the date's counter still includes the occupancy that is gone.
   */
  lemma AdminBookOverCountedSeatBreaksCounters(s: State, caller: string, req: OverrideRequest)
    requires IsAdmin(s.users, caller) && CountersMatch(s)
    requires SeatKey(req.date, req.seatId) in s.bookedSeats
    requires s.bookedSeats[SeatKey(req.date, req.seatId)].kind in {Designated, Floating}
    ensures !CountersMatch(AdminBook(s, caller, req).value)
  {
    var s' := AdminBook(s, caller, req).value;
    var d := req.date;
    var sk := SeatKey(d, req.seatId);
    var kind := s.bookedSeats[sk].kind;
    AdminBookEffect(s, caller, req);
    OccupiedAfterPut(s.bookedSeats, sk, s'.bookedSeats[sk], d, kind);
    assert sk in OccupiedOfKind(s.bookedSeats, d, kind);
    assert |OccupiedOfKind(s'.bookedSeats, d, kind)| == |OccupiedOfKind(s.bookedSeats, d, kind)| - 1;
  }

  /**
   * Force-booking a user who already holds another seat that date moves the
   * booking but leaves the old seat record behind, pointing at a booking for
   * a different seat.
   */
  lemma AdminBookOrphansPreviousSeat(s: State, caller: string, req: OverrideRequest)
    requires IsAdmin(s.users, caller) && Consistent(s)
    requires BookingKey(req.date, req.userId) in s.bookings
    requires s.bookings[BookingKey(req.date, req.userId)].seatId != req.seatId
    ensures var s' := AdminBook(s, caller, req).value;
            var prev := SeatKey(req.date, s.bookings[BookingKey(req.date, req.userId)].seatId);
            && prev in s'.bookedSeats && s'.bookedSeats[prev].userId == req.userId
            && !Consistent(s')
  {
    var prev := SeatKey(req.date, s.bookings[BookingKey(req.date, req.userId)].seatId);
    assert prev in s.bookedSeats;
  }

  lemma AdminBookKeepsConsistent(s: State, caller: string, req: OverrideRequest)
    requires IsAdmin(s.users, caller) && Consistent(s)
    requires BookingKey(req.date, req.userId) in s.bookings ==>
               s.bookings[BookingKey(req.date, req.userId)].seatId == req.seatId
    ensures Consistent(AdminBook(s, caller, req).value)
  {
    var s' := AdminBook(s, caller, req).value;
    var d := req.date;
    var bk := BookingKey(d, req.userId);
    var sk := SeatKey(d, req.seatId);
    var kicked := sk in s.bookedSeats && s.bookedSeats[sk].userId != req.userId;
    var ok := if kicked then BookingKey(d, s.bookedSeats[sk].userId) else bk;
    forall b | b in s'.bookings
      ensures var k := SeatKey(b.date, s'.bookings[b].seatId);
              k in s'.bookedSeats && s'.bookedSeats[k].userId == b.userId && s'.bookedSeats[k].kind == s'.bookings[b].kind
    {
      if b != bk {
        assert b in s.bookings && b != ok && s'.bookings[b] == s.bookings[b];
        assert SeatKey(b.date, s.bookings[b].seatId) != sk;
      }
    }
    forall k | k in s'.bookedSeats
      ensures var b := BookingKey(k.date, s'.bookedSeats[k].userId);
              b in s'.bookings && s'.bookings[b].seatId == k.seatId
    {
      if k != sk {
        var b := BookingKey(k.date, s.bookedSeats[k].userId);
        assert b in s.bookings && s.bookings[b].seatId == k.seatId;
        if kicked {
          assert s.bookings[ok].seatId == req.seatId;
          assert b != ok;
        }
        assert b != bk;
      }
    }
  }

  /** Overriding a free or override-held seat leaves every counter equal to its seat records. */
  lemma AdminBookKeepsCounters(s: State, caller: string, req: OverrideRequest)
    requires IsAdmin(s.users, caller) && CountersMatch(s)
    requires var sk := SeatKey(req.date, req.seatId);
             sk !in s.bookedSeats || s.bookedSeats[sk].kind == AdminOverride
    ensures CountersMatch(AdminBook(s, caller, req).value)
  {
    var s' := AdminBook(s, caller, req).value;
    var sk := SeatKey(req.date, req.seatId);
    AdminBookEffect(s, caller, req);
    forall e
      ensures && DesignatedCountOf(StatsOf(s'.dailyStats, e)) == |OccupiedOfKind(s'.bookedSeats, e, Designated)|
              && FloatingCountOf(StatsOf(s'.dailyStats, e)) == |OccupiedOfKind(s'.bookedSeats, e, Floating)|
    {
      OccupiedAfterPut(s.bookedSeats, sk, s'.bookedSeats[sk], e, Designated);
      OccupiedAfterPut(s.bookedSeats, sk, s'.bookedSeats[sk], e, Floating);
      assert sk !in OccupiedOfKind(s.bookedSeats, e, Designated) && sk !in OccupiedOfKind(s.bookedSeats, e, Floating);
    }
  }

  /**
   * adminBookSeat keeps the store invariant when the seat is free or held by
   * another admin override and the user holds no other seat that date.
   */
  lemma AdminBookPreservesInv(s: State, caller: string, req: OverrideRequest)
    requires IsAdmin(s.users, caller) && Inv(s)
    requires var sk := SeatKey(req.date, req.seatId);
             sk !in s.bookedSeats || s.bookedSeats[sk].kind == AdminOverride
    requires BookingKey(req.date, req.userId) in s.bookings ==>
               s.bookings[BookingKey(req.date, req.userId)].seatId == req.seatId
    ensures Inv(AdminBook(s, caller, req).value)
  {
    var s' := AdminBook(s, caller, req).value;
    AdminBookEffect(s, caller, req);
    AdminBookKeepsConsistent(s, caller, req);
    AdminBookKeepsCounters(s, caller, req);
    CountersUnchangedKeepPool(s, s');
    assert KnownKinds(s');
    assert FloatingOccupantsNamed(s');
    assert DesignatedZoneRespected(s'.bookedSeats);
  }

  // ---------------------------------------------------------------------------
  // Admin release

  /**
   * The admin release always succeeds past the gate, even with nothing to
   * delete. Afterwards the user has no booking and no seat record on the
   * date, every other record is as before, and dailyStats is untouched
   * whatever the kind of the deleted booking.
   */
  lemma AdminReleaseEffect(s: State, caller: string, userId: string, date: Day)
    requires IsAdmin(s.users, caller)
    ensures AdminRelease(s, caller, userId, date).Ok?
    ensures var s' := AdminRelease(s, caller, userId, date).value;
            && s'.bookings == s.bookings - {BookingKey(date, userId)}
            && (forall k :: k in s'.bookedSeats <==> k in s.bookedSeats && !(k.date == date && s.bookedSeats[k].userId == userId))
            && (forall k :: k in s'.bookedSeats ==> s'.bookedSeats[k] == s.bookedSeats[k])
            && s'.dailyStats == s.dailyStats && s'.specialDays == s.specialDays && s'.users == s.users
  {
  }

  /** With consistent records, the only seat record the admin release finds is the one of the booking. */
  lemma SeatsOfBookedUser(s: State, userId: string, date: Day)
    requires Consistent(s)
    ensures var bk := BookingKey(date, userId);
            SeatsOf(s.bookedSeats, userId, date) == if bk in s.bookings then {SeatKey(date, s.bookings[bk].seatId)} else {}
  {
    var bk := BookingKey(date, userId);
    forall k | k in SeatsOf(s.bookedSeats, userId, date)
      ensures bk in s.bookings && k == SeatKey(date, s.bookings[bk].seatId)
    {
      assert BookingKey(k.date, s.bookedSeats[k].userId) == bk;
    }
    if bk in s.bookings {
      assert SeatKey(date, s.bookings[bk].seatId) in SeatsOf(s.bookedSeats, userId, date);
    }
  }

  /**
   * On an admin-override booking the admin release and releaseSeat agree: both
   * delete the booking and its seat record and leave the counters alone.
   */
  lemma AdminReleaseAgreesWithReleaseOnOverride(s: State, caller: string, userId: string, date: Day)
    requires IsAdmin(s.users, caller) && Consistent(s) && userId != ""
    requires BookingKey(date, userId) in s.bookings && s.bookings[BookingKey(date, userId)].kind == AdminOverride
    ensures AdminRelease(s, caller, userId, date) == Release(s, userId, Some(date))
  {
    SeatsOfBookedUser(s, userId, date);
  }

  /**
   * The admin release keeps the store invariant when it deletes an
   * admin-override booking, or when the user has no booking that date (then
   * it changes nothing at all).
   */
  lemma AdminReleasePreservesInv(s: State, caller: string, userId: string, date: Day)
    requires IsAdmin(s.users, caller) && Inv(s)
    requires var bk := BookingKey(date, userId);
             bk in s.bookings ==> s.bookings[bk].kind == AdminOverride
    ensures Inv(AdminRelease(s, caller, userId, date).value)
    ensures BookingKey(date, userId) !in s.bookings ==> AdminRelease(s, caller, userId, date).value == s
  {
    var s' := AdminRelease(s, caller, userId, date).value;
    var bk := BookingKey(date, userId);
    SeatsOfBookedUser(s, userId, date);
    if bk in s.bookings {
      var sk := SeatKey(date, s.bookings[bk].seatId);
      assert s'.bookings == s.bookings - {bk} && s'.bookedSeats == s.bookedSeats - {sk};
      forall b | b in s'.bookings
        ensures var k := SeatKey(b.date, s'.bookings[b].seatId);
                k in s'.bookedSeats && s'.bookedSeats[k].userId == b.userId && s'.bookedSeats[k].kind == s'.bookings[b].kind
      {
        assert SeatKey(b.date, s.bookings[b].seatId) != sk;
      }
      CountsAfterRemove(s.bookedSeats, s.dailyStats, s'.dailyStats, sk);
    } else {
      assert s'.bookings == s.bookings && s'.bookedSeats == s.bookedSeats;
    }
  }

  /**
   * Force-releasing a counted booking leaves its counter behind: the counter
   * of the date still includes the deleted occupancy.
   */
  lemma AdminReleaseOfCountedBreaksCounters(s: State, caller: string, userId: string, date: Day)
    requires IsAdmin(s.users, caller) && Consistent(s) && CountersMatch(s)
    requires BookingKey(date, userId) in s.bookings
    requires s.bookings[BookingKey(date, userId)].kind in {Designated, Floating}
    ensures !CountersMatch(AdminRelease(s, caller, userId, date).value)
  {
    var s' := AdminRelease(s, caller, userId, date).value;
    var b := s.bookings[BookingKey(date, userId)];
    var sk := SeatKey(date, b.seatId);
    SeatsOfBookedUser(s, userId, date);
    assert s'.bookedSeats == s.bookedSeats - {sk};
    OccupiedAfterRemove(s.bookedSeats, sk, date, b.kind);
    assert sk in OccupiedOfKind(s.bookedSeats, date, b.kind);
    assert |OccupiedOfKind(s'.bookedSeats, date, b.kind)| == |OccupiedOfKind(s.bookedSeats, date, b.kind)| - 1;
  }

  // ---------------------------------------------------------------------------
  // Special days

  /**
   * Setting a special day is refused unless the date is present and the kind
   * is "holiday" or "working"; otherwise the date holds exactly the latest
   * kind, every other date keeps its override and nothing else changes.
   */
  lemma SetSpecialDayEffect(s: State, caller: string, date: Option<Day>, kind: string)
    requires IsAdmin(s.users, caller)
    ensures SetSpecialDay(s, caller, date, kind).Ok? <==> date.Some? && (kind == HolidayKind || kind == WorkingKind)
    ensures SetSpecialDay(s, caller, date, kind).Err? ==> SetSpecialDay(s, caller, date, kind) == Err(InvalidSpecialDay)
    ensures SetSpecialDay(s, caller, date, kind).Ok? ==>
              var s' := SetSpecialDay(s, caller, date, kind).value;
              && s'.specialDays.Keys == s.specialDays.Keys + {date.value}
              && s'.specialDays[date.value] == SpecialDay(kind)
              && (forall e :: e != date.value && e in s.specialDays ==> s'.specialDays[e] == s.specialDays[e])
              && s' == s.(specialDays := s'.specialDays)
  {
  }

  /** The latest override of a date wins, so setting the same override twice is setting it once. */
  lemma SetSpecialDayLastWins(s: State, caller: string, d: Day, first: string, second: string)
    requires SetSpecialDay(s, caller, Some(d), first).Ok?
    ensures SetSpecialDay(SetSpecialDay(s, caller, Some(d), first).value, caller, Some(d), second)
         == SetSpecialDay(s, caller, Some(d), second)
  {
    assert s.specialDays[d := SpecialDay(first)][d := SpecialDay(second)] == s.specialDays[d := SpecialDay(second)];
  }

  /**
   * Deleting removes only that date's override; it undoes a set on a date
   * that had none, and a set after a delete is the set alone.
   */
  lemma DeleteSpecialDayEffect(s: State, caller: string, d: Day, kind: string)
    requires IsAdmin(s.users, caller)
    ensures DeleteSpecialDay(s, caller, d).Ok?
    ensures var s' := DeleteSpecialDay(s, caller, d).value;
            && d !in s'.specialDays
            && (forall e :: e != d ==> (e in s'.specialDays <==> e in s.specialDays))
            && (forall e :: e in s'.specialDays ==> s'.specialDays[e] == s.specialDays[e])
            && s' == s.(specialDays := s'.specialDays)
    ensures d !in s.specialDays && SetSpecialDay(s, caller, Some(d), kind).Ok? ==>
              DeleteSpecialDay(SetSpecialDay(s, caller, Some(d), kind).value, caller, d) == Ok(s)
    ensures SetSpecialDay(DeleteSpecialDay(s, caller, d).value, caller, Some(d), kind).Ok? ==>
              SetSpecialDay(DeleteSpecialDay(s, caller, d).value, caller, Some(d), kind) == SetSpecialDay(s, caller, Some(d), kind)
  {
    if d !in s.specialDays && SetSpecialDay(s, caller, Some(d), kind).Ok? {
      assert s.specialDays[d := SpecialDay(kind)] - {d} == s.specialDays;
    }
    if SetSpecialDay(DeleteSpecialDay(s, caller, d).value, caller, Some(d), kind).Ok? {
      assert (s.specialDays - {d})[d := SpecialDay(kind)] == s.specialDays[d := SpecialDay(kind)];
    }
  }

  /**
   * The booking gate never consults the overrides: a weekday marked as a
   * holiday can still be booked, and a weekend marked as working cannot.
   */
  lemma SpecialDayDoesNotAffectBooking(s: State, caller: string, d: Day, kind: string, req: BookRequest, now: Instant)
    requires SetSpecialDay(s, caller, Some(d), kind).Ok?
    ensures var s' := SetSpecialDay(s, caller, Some(d), kind).value;
            && (Book(s', req, now).Ok? <==> Book(s, req, now).Ok?)
            && (Book(s, req, now).Err? ==> Book(s', req, now) == Book(s, req, now))
  {
    var s' := SetSpecialDay(s, caller, Some(d), kind).value;
    BookIgnoresSpecialDays(s, req, now, s'.specialDays);
    assert s' == s.(specialDays := s'.specialDays);
  }

  // ---------------------------------------------------------------------------
  // updateUserBatch

  /**
   * updateUserBatch refuses a missing or zero batch and an unknown user, in
   * that order; otherwise it sets that user's batch field and nothing else,
   * so nobody's admin status changes.
   */
  lemma UpdateUserBatchEffect(s: State, caller: string, userId: string, batch: Option<int>)
    requires IsAdmin(s.users, caller)
    ensures batch.None? || batch.value == 0 ==> UpdateUserBatch(s, caller, userId, batch) == Err(BatchRequired)
    ensures batch.Some? && batch.value != 0 && userId !in s.users ==>
              UpdateUserBatch(s, caller, userId, batch) == Err(UserNotFound)
    ensures UpdateUserBatch(s, caller, userId, batch).Ok? ==>
              var s' := UpdateUserBatch(s, caller, userId, batch).value;
              && s'.users.Keys == s.users.Keys
              && s'.users[userId][BatchField] == Num(batch.value)
              && (forall f :: f != BatchField ==> (f in s'.users[userId] <==> f in s.users[userId]))
              && (forall f :: f != BatchField && f in s.users[userId] ==> s'.users[userId][f] == s.users[userId][f])
              && (forall u :: u != userId && u in s.users ==> s'.users[u] == s.users[u])
              && (forall u :: IsAdmin(s'.users, u) <==> IsAdmin(s.users, u))
              && s' == s.(users := s'.users)
  {
  }

  /** Setting the same batch twice is setting it once. */
  lemma UpdateUserBatchIdempotent(s: State, caller: string, userId: string, batch: Option<int>)
    requires UpdateUserBatch(s, caller, userId, batch).Ok?
    ensures UpdateUserBatch(UpdateUserBatch(s, caller, userId, batch).value, caller, userId, batch)
         == UpdateUserBatch(s, caller, userId, batch)
  {
    var s' := UpdateUserBatch(s, caller, userId, batch).value;
    assert IsAdmin(s'.users, caller);
    assert s'.users[userId][BatchField := Num(batch.value)] == s'.users[userId];
    assert s'.users[userId := s'.users[userId]] == s'.users;
  }

  // ---------------------------------------------------------------------------
  // All admin operations

  /** No admin operation moves a counter, so each keeps the pool sane and never shrinks it. */
  lemma AdminOperationsKeepPool(s: State, caller: string, req: OverrideRequest, userId: string, date: Day,
                                special: Option<Day>, kind: string, batch: Option<int>)
    requires PoolSane(s)
    ensures AdminBook(s, caller, req).Ok? ==>
              PoolSane(AdminBook(s, caller, req).value) && PoolNotShrunk(s, AdminBook(s, caller, req).value)
    ensures AdminRelease(s, caller, userId, date).Ok? ==>
              PoolSane(AdminRelease(s, caller, userId, date).value) && PoolNotShrunk(s, AdminRelease(s, caller, userId, date).value)
    ensures SetSpecialDay(s, caller, special, kind).Ok? ==>
              PoolSane(SetSpecialDay(s, caller, special, kind).value) && PoolNotShrunk(s, SetSpecialDay(s, caller, special, kind).value)
    ensures DeleteSpecialDay(s, caller, date).Ok? ==>
              PoolSane(DeleteSpecialDay(s, caller, date).value) && PoolNotShrunk(s, DeleteSpecialDay(s, caller, date).value)
    ensures UpdateUserBatch(s, caller, userId, batch).Ok? ==>
              PoolSane(UpdateUserBatch(s, caller, userId, batch).value) && PoolNotShrunk(s, UpdateUserBatch(s, caller, userId, batch).value)
  {
    if IsAdmin(s.users, caller) {
      AdminBookEffect(s, caller, req);
      CountersUnchangedKeepPool(s, AdminBook(s, caller, req).value);
      CountersUnchangedKeepPool(s, AdminRelease(s, caller, userId, date).value);
      CountersUnchangedKeepPool(s, DeleteSpecialDay(s, caller, date).value);
      if SetSpecialDay(s, caller, special, kind).Ok? {
        CountersUnchangedKeepPool(s, SetSpecialDay(s, caller, special, kind).value);
      }
      if UpdateUserBatch(s, caller, userId, batch).Ok? {
        CountersUnchangedKeepPool(s, UpdateUserBatch(s, caller, userId, batch).value);
      }
    }
  }
}
