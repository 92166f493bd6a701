/**
 * The store invariants the booking transactions keep: every booking and its
 * seat record correspond one to one, the per-date counters equal the number
 * of seat records of each counted kind, and the floating pool is sane and
 * never shrinks.
 */
module Invariants {
  import opened Base
  import opened Calendar
  import opened Records
  import opened SeatPool
  import opened Allocation
  import opened AllocationProperties

  /**
   * Bookings and seat records correspond one to one: a booking has a seat
   * record of its user and kind at its seat, and a seat record has a booking
   * of its user at that seat.
   */
  ghost predicate Consistent(s: State) {
    && (forall bk :: bk in s.bookings ==>
          var sk := SeatKey(bk.date, s.bookings[bk].seatId);
          sk in s.bookedSeats && s.bookedSeats[sk].userId == bk.userId && s.bookedSeats[sk].kind == s.bookings[bk].kind)
    && (forall sk :: sk in s.bookedSeats ==>
          var bk := BookingKey(sk.date, s.bookedSeats[sk].userId);
          bk in s.bookings && s.bookings[bk].seatId == sk.seatId)
  }

  /** Every booking has one of the three kinds the engine writes. */
  ghost predicate KnownKinds(s: State) {
    forall bk :: bk in s.bookings ==> s.bookings[bk].kind in {Designated, Floating, AdminOverride}
  }

  /** Every floating occupant has a user id (bookSeat refuses an empty one). */
  ghost predicate FloatingOccupantsNamed(s: State) {
    forall sk :: sk in s.bookedSeats && s.bookedSeats[sk].kind == Floating ==> s.bookedSeats[sk].userId != ""
  }

  /** The counters of every date equal the number of its designated and floating seat records. */
  ghost predicate CountsMatch(seats: map<SeatKey, SeatOccupancy>, stats: map<Day, DailyStats>) {
    forall d :: && DesignatedCountOf(StatsOf(stats, d)) == |OccupiedOfKind(seats, d, Designated)|
                && FloatingCountOf(StatsOf(stats, d)) == |OccupiedOfKind(seats, d, Floating)|
  }

  ghost predicate CountersMatch(s: State) {
    CountsMatch(s.bookedSeats, s.dailyStats)
  }

  /** The counters of every date are sane (see StatsWellFormed). */
  ghost predicate PoolSane(s: State) {
    forall d :: StatsWellFormed(StatsOf(s.dailyStats, d))
  }

  ghost predicate Inv(s: State) {
    && Consistent(s)
    && KnownKinds(s)
    && FloatingOccupantsNamed(s)
    && DesignatedZoneRespected(s.bookedSeats)
    && CountersMatch(s)
    && PoolSane(s)
  }

  /** A store without bookings, seats, counters or overrides satisfies the invariant, whoever its users are. */
  lemma EmptyStoreSatisfiesInv(users: map<string, UserRecord>)
    ensures Inv(EmptyState.(users := users))
  {
    var s := EmptyState.(users := users);
    forall d ensures OccupiedOfKind(s.bookedSeats, d, Designated) == {}
                  && OccupiedOfKind(s.bookedSeats, d, Floating) == {} {
    }
  }

  // ---------------------------------------------------------------------------
  // Seat records of a kind under the two writes a transaction makes.

  lemma OccupiedAfterPut(seats: map<SeatKey, SeatOccupancy>, sk: SeatKey, occ: SeatOccupancy, d: Day, kind: string)
    ensures OccupiedOfKind(seats[sk := occ], d, kind)
         == if sk.date != d then OccupiedOfKind(seats, d, kind)
            else if occ.kind == kind then OccupiedOfKind(seats, d, kind) + {sk}
            else OccupiedOfKind(seats, d, kind) - {sk}
  {
  }

  lemma OccupiedAfterRemove(seats: map<SeatKey, SeatOccupancy>, sk: SeatKey, d: Day, kind: string)
    ensures OccupiedOfKind(seats - {sk}, d, kind) == OccupiedOfKind(seats, d, kind) - {sk}
  {
  }

  // ---------------------------------------------------------------------------
  // bookSeat

  /** Under the invariant, the floating occupant a kick removes was counted. */
  lemma KickedOccupantWasCounted(s: State, req: BookRequest, d: Day)
    requires CountersMatch(s) && IsKick(s, req, d)
    ensures FloatingCountOf(StatsOf(s.dailyStats, d)) >= 1
  {
    assert SeatKey(d, req.seatId) in OccupiedOfKind(s.bookedSeats, d, Floating);
  }

  lemma BookKeepsConsistent(s: State, req: BookRequest, now: Instant)
    requires Consistent(s) && FloatingOccupantsNamed(s) && Book(s, req, now).Ok?
    ensures Consistent(Book(s, req, now).value)
  {
    var s' := Book(s, req, now).value;
    var d := req.date.value;
    var bk := BookingKey(d, req.userId);
    var sk := SeatKey(d, req.seatId);
    var kick := IsKick(s, req, d);
    var occupant := if kick then s.bookedSeats[sk].userId else "";
    if kick {
      assert BookingKey(d, occupant) in s.bookings && s.bookings[BookingKey(d, occupant)].seatId == req.seatId;
      assert s'.bookings == (s.bookings - {BookingKey(d, occupant)})[bk := s'.bookings[bk]];
    } else {
      assert s'.bookings == s.bookings[bk := s'.bookings[bk]];
    }
    forall b | b in s'.bookings
      ensures var k := SeatKey(b.date, s'.bookings[b].seatId);
              k in s'.bookedSeats && s'.bookedSeats[k].userId == b.userId && s'.bookedSeats[k].kind == s'.bookings[b].kind
    {
      if b != bk {
        assert b in s.bookings && s'.bookings[b] == s.bookings[b];
        var k := SeatKey(b.date, s.bookings[b].seatId);
        assert k != sk;
      }
    }
    forall k | k in s'.bookedSeats
      ensures var b := BookingKey(k.date, s'.bookedSeats[k].userId);
              b in s'.bookings && s'.bookings[b].seatId == k.seatId
    {
      if k != sk {
        var b := BookingKey(k.date, s.bookedSeats[k].userId);
        assert b in s.bookings && s.bookings[b].seatId == k.seatId;
        assert b != bk;
        if kick {
          assert b != BookingKey(d, occupant);
        }
      }
    }
  }

  /**
   * Writing one seat record of a counted kind over a free seat or a floating
   * one, with the counters of its date moved to match, keeps the counters
   * matching.
   */
  lemma CountsAfterPut(seats: map<SeatKey, SeatOccupancy>, stats: map<Day, DailyStats>,
                       stats': map<Day, DailyStats>, sk: SeatKey, occ: SeatOccupancy)
    requires CountsMatch(seats, stats)
    requires occ.kind == Designated || occ.kind == Floating
    requires sk !in OccupiedOfKind(seats, sk.date, Designated)
    requires forall e :: e != sk.date ==> StatsOf(stats', e) == StatsOf(stats, e)
    requires var st, st' := StatsOf(stats, sk.date), StatsOf(stats', sk.date);
             var replaced := if sk in OccupiedOfKind(seats, sk.date, Floating) then 1 else 0;
             && DesignatedCountOf(st') == DesignatedCountOf(st) + (if occ.kind == Designated then 1 else 0)
             && FloatingCountOf(st') == FloatingCountOf(st) + (if occ.kind == Floating then 1 else 0) - replaced
    ensures CountsMatch(seats[sk := occ], stats')
  {
    forall e
      ensures && DesignatedCountOf(StatsOf(stats', e)) == |OccupiedOfKind(seats[sk := occ], e, Designated)|
              && FloatingCountOf(StatsOf(stats', e)) == |OccupiedOfKind(seats[sk := occ], e, Floating)|
    {
      OccupiedAfterPut(seats, sk, occ, e, Designated);
      OccupiedAfterPut(seats, sk, occ, e, Floating);
    }
  }

  /**
   * Deleting one seat record, with the counters of its date moved to match
   * its kind, keeps the counters matching.
   */
  lemma CountsAfterRemove(seats: map<SeatKey, SeatOccupancy>, stats: map<Day, DailyStats>,
                          stats': map<Day, DailyStats>, sk: SeatKey)
    requires CountsMatch(seats, stats) && sk in seats
    requires forall e :: e != sk.date ==> StatsOf(stats', e) == StatsOf(stats, e)
    requires var st, st' := StatsOf(stats, sk.date), StatsOf(stats', sk.date);
             && DesignatedCountOf(st') == DesignatedCountOf(st) - (if seats[sk].kind == Designated then 1 else 0)
             && FloatingCountOf(st') == FloatingCountOf(st) - (if seats[sk].kind == Floating then 1 else 0)
    ensures CountsMatch(seats - {sk}, stats')
  {
    forall e
      ensures && DesignatedCountOf(StatsOf(stats', e)) == |OccupiedOfKind(seats - {sk}, e, Designated)|
              && FloatingCountOf(StatsOf(stats', e)) == |OccupiedOfKind(seats - {sk}, e, Floating)|
    {
      OccupiedAfterRemove(seats, sk, e, Designated);
      OccupiedAfterRemove(seats, sk, e, Floating);
      assert sk in OccupiedOfKind(seats, sk.date, Designated) <==> seats[sk].kind == Designated;
      assert sk in OccupiedOfKind(seats, sk.date, Floating) <==> seats[sk].kind == Floating;
    }
  }

  lemma BookKeepsCounters(s: State, req: BookRequest, now: Instant)
    requires FloatingOccupantsNamed(s) && CountersMatch(s) && Book(s, req, now).Ok?
    ensures CountersMatch(Book(s, req, now).value)
  {
    var s' := Book(s, req, now).value;
    var d := req.date.value;
    var sk := SeatKey(d, req.seatId);
    var kick := IsKick(s, req, d);
    assert kick <==> sk in OccupiedOfKind(s.bookedSeats, d, Floating);
    assert sk !in OccupiedOfKind(s.bookedSeats, d, Designated);
    if kick {
      KickedOccupantWasCounted(s, req, d);
      KickEffect(s, req, now);
    }
    if req.kind == Designated {
      DesignatedBookingEffect(s, req, now);
    } else {
      FloatingBookingEffect(s, req, now);
    }
    CountsAfterPut(s.bookedSeats, s.dailyStats, s'.dailyStats, sk, s'.bookedSeats[sk]);
  }

  lemma BookKeepsPoolSane(s: State, req: BookRequest, now: Instant)
    requires PoolSane(s) && Book(s, req, now).Ok?
    ensures PoolSane(Book(s, req, now).value)
  {
    var s' := Book(s, req, now).value;
    var d := req.date.value;
    var st := StatsOf(s.dailyStats, d);
    assert StatsWellFormed(st);
    if req.kind == Floating {
      TopUpIdempotent(st, UnbookedDesignated(s.bookedSeats, d, now));
    }
    forall e ensures StatsWellFormed(StatsOf(s'.dailyStats, e)) {
      if e != d {
        assert StatsOf(s'.dailyStats, e) == StatsOf(s.dailyStats, e);
      }
    }
  }

  lemma BookKeepsShape(s: State, req: BookRequest, now: Instant)
    requires KnownKinds(s) && FloatingOccupantsNamed(s) && DesignatedZoneRespected(s.bookedSeats)
    requires Book(s, req, now).Ok?
    ensures var s' := Book(s, req, now).value;
            KnownKinds(s') && FloatingOccupantsNamed(s') && DesignatedZoneRespected(s'.bookedSeats)
  {
    if req.kind == Designated {
      DesignatedBookingEffect(s, req, now);
    } else {
      FloatingBookingEffect(s, req, now);
    }
  }

  /** bookSeat keeps the store invariant. */
  lemma BookPreservesInv(s: State, req: BookRequest, now: Instant)
    requires Inv(s) && Book(s, req, now).Ok?
    ensures Inv(Book(s, req, now).value)
  {
    BookKeepsShape(s, req, now);
    BookKeepsConsistent(s, req, now);
    BookKeepsCounters(s, req, now);
    BookKeepsPoolSane(s, req, now);
  }

  // ---------------------------------------------------------------------------
  // releaseSeat

  /**
   * Under the invariant, releaseSeat fails only when there is nothing to
   * release: the missing-counters and unknown-kind errors cannot occur.
   */
  lemma ReleaseFailsOnlyWithoutBooking(s: State, userId: string, d: Day)
    requires Inv(s) && userId != ""
    ensures Release(s, userId, Some(d)).Ok? <==> BookingKey(d, userId) in s.bookings
  {
    var bk := BookingKey(d, userId);
    if bk in s.bookings {
      var b := s.bookings[bk];
      var sk := SeatKey(d, b.seatId);
      if b.kind == Designated {
        assert sk in OccupiedOfKind(s.bookedSeats, d, Designated);
      } else if b.kind == Floating {
        assert sk in OccupiedOfKind(s.bookedSeats, d, Floating);
      }
    }
  }

  lemma ReleaseKeepsConsistent(s: State, userId: string, date: Option<Day>)
    requires Consistent(s) && Release(s, userId, date).Ok?
    ensures Consistent(Release(s, userId, date).value)
  {
    var s' := Release(s, userId, date).value;
    var d := date.value;
    var bk := BookingKey(d, userId);
    var sk := SeatKey(d, s.bookings[bk].seatId);
    assert s'.bookings == s.bookings - {bk} && s'.bookedSeats == s.bookedSeats - {sk};
    forall b | b in s'.bookings
      ensures var k := SeatKey(b.date, s'.bookings[b].seatId);
              k in s'.bookedSeats && s'.bookedSeats[k].userId == b.userId && s'.bookedSeats[k].kind == s'.bookings[b].kind
    {
      assert SeatKey(b.date, s.bookings[b].seatId) != sk;
    }
  }

  lemma ReleaseKeepsCounters(s: State, userId: string, date: Option<Day>)
    requires Consistent(s) && CountersMatch(s) && Release(s, userId, date).Ok?
    ensures CountersMatch(Release(s, userId, date).value)
  {
    var s' := Release(s, userId, date).value;
    var d := date.value;
    var b := s.bookings[BookingKey(d, userId)];
    var sk := SeatKey(d, b.seatId);
    ReleaseCases(s, userId, d);
    CountsAfterRemove(s.bookedSeats, s.dailyStats, s'.dailyStats, sk);
  }

  lemma ReleaseKeepsPoolSane(s: State, userId: string, date: Option<Day>)
    requires PoolSane(s) && Release(s, userId, date).Ok?
    ensures PoolSane(Release(s, userId, date).value)
  {
    var s' := Release(s, userId, date).value;
    var d := date.value;
    assert StatsWellFormed(StatsOf(s.dailyStats, d));
    forall e ensures StatsWellFormed(StatsOf(s'.dailyStats, e)) {
      if e != d {
        assert StatsOf(s'.dailyStats, e) == StatsOf(s.dailyStats, e);
      }
    }
  }

  /** releaseSeat keeps the store invariant. */
  lemma ReleasePreservesInv(s: State, userId: string, date: Option<Day>)
    requires Inv(s) && Release(s, userId, date).Ok?
    ensures Inv(Release(s, userId, date).value)
  {
    ReleaseKeepsConsistent(s, userId, date);
    ReleaseKeepsCounters(s, userId, date);
    ReleaseKeepsPoolSane(s, userId, date);
  }

  // ---------------------------------------------------------------------------
  // The floating pool of a date only grows.

  ghost predicate PoolNotShrunk(s: State, s': State) {
    forall d :: TotalFloatingOf(StatsOf(s'.dailyStats, d)) >= TotalFloatingOf(StatsOf(s.dailyStats, d))
  }

  /** Neither bookSeat nor releaseSeat ever lowers the floating pool of any date. */
  lemma BookAndReleaseNeverShrinkPool(s: State, req: BookRequest, now: Instant, userId: string, date: Option<Day>)
    ensures Book(s, req, now).Ok? ==> PoolNotShrunk(s, Book(s, req, now).value)
    ensures Release(s, userId, date).Ok? ==> PoolNotShrunk(s, Release(s, userId, date).value)
  {
    if Book(s, req, now).Ok? {
      var s' := Book(s, req, now).value;
      forall e ensures TotalFloatingOf(StatsOf(s'.dailyStats, e)) >= TotalFloatingOf(StatsOf(s.dailyStats, e)) {
        if e == req.date.value && req.kind == Floating {
          var st := StatsOf(s.dailyStats, e);
          var u := UnbookedDesignated(s.bookedSeats, e, now);
          assert TotalFloatingOf(StatsOf(s'.dailyStats, e)) == TotalFloatingOf(TopUp(st, u));
        }
      }
    }
    if Release(s, userId, date).Ok? {
      var s' := Release(s, userId, date).value;
      forall e ensures TotalFloatingOf(StatsOf(s'.dailyStats, e)) >= TotalFloatingOf(StatsOf(s.dailyStats, e)) {
      }
    }
  }
}
