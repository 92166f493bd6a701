/**
 * The floating pool of a date: how many designated seats are left unclaimed
 * once the cutoff has passed, and the lazy top-up that turns them into
 * floating capacity inside whichever transaction needs it.
 */
module SeatPool {
  import opened Base
  import opened Calendar
  import opened Records

  /** The distinct seats 1..40 (and below) of date `d` that hold a designated occupancy. */
  function DesignatedSeatIds(seats: map<SeatKey, SeatOccupancy>, d: Day): set<int> {
    set k | k in seats && k.date == d && seats[k].kind == Designated && k.seatId <= DesignatedZoneSeats :: k.seatId
  }

  /**
   * The unbooked-designated count against a given release instant: 0 on a
   * weekend or until `now` passes `releaseAt`, afterwards 40 minus the number
   * of designated seats that hold a designated occupancy.
   */
  function UnbookedAgainst(seats: map<SeatKey, SeatOccupancy>, d: Day, releaseAt: Instant, now: Instant): int {
    if IsWeekend(d) || now <= releaseAt then 0
    else DesignatedZoneSeats - |DesignatedSeatIds(seats, d)|
  }

  /**
   * The number of designated seats of `d` nobody has booked as designated,
   * counted once the release instant, which is the cutoff, has passed.
   */
  function UnbookedDesignated(seats: map<SeatKey, SeatOccupancy>, d: Day, now: Instant): (n: int)
    ensures IsWeekend(d) || !IsAfterCutoff(d, now) ==> n == 0
    ensures n != 0 ==> !IsWeekend(d) && IsAfterCutoff(d, now)
  {
    UnbookedAgainst(seats, d, CutoffInstant(d), now)
  }

  /** releaseUnbookedDesignatedSeats with its release instant as written. */
  function UnbookedDesignatedAsWritten(seats: map<SeatKey, SeatOccupancy>, d: Day, now: Instant): (n: int)
    ensures n != 0 ==> !IsWeekend(d) && now > ReleaseTimeAsWritten(d)
  {
    UnbookedAgainst(seats, d, ReleaseTimeAsWritten(d), now)
  }

  /**
   * The count as written agrees with the corrected count once the cutoff has
   * passed, and at every instant for a date that is not a Monday the first.
   * It is never smaller, because it releases the seats earlier, if at all.
   */
  lemma UnbookedAsWrittenAgrees(seats: map<SeatKey, SeatOccupancy>, d: Day, now: Instant)
    ensures IsAfterCutoff(d, now) ==> UnbookedDesignatedAsWritten(seats, d, now) == UnbookedDesignated(seats, d, now)
    ensures Weekday(d) != Monday || DayOfMonth(d) != 1 ==>
              UnbookedDesignatedAsWritten(seats, d, now) == UnbookedDesignated(seats, d, now)
    ensures UnbookedDesignated(seats, d, now) != 0 ==>
              UnbookedDesignatedAsWritten(seats, d, now) == UnbookedDesignated(seats, d, now)
  {
    ReleaseTimeAsWrittenNeverLate(d);
  }

  /**
   * For Monday 2021-03-01 with no designated booking, the count as written
   * already reports all 40 designated seats as released at noon of
   * 2021-02-10, more than two weeks before floating bookings for that date
   * open; the corrected count is still 0 then.
   */
  lemma UnbookedAsWrittenBeforeCutoff()
    ensures var now := NoonOf(18668);
            UnbookedDesignatedAsWritten(map[], 18687, now) == 40
            && !IsAfterCutoff(18687, now)
            && UnbookedDesignated(map[], 18687, now) == 0
  {
    ReleaseTimeAsWrittenMonthEarly();
    assert DesignatedSeatIds(map[], 18687) == {};
  }

  /** Every designated occupancy lies in the designated zone. */
  ghost predicate DesignatedZoneRespected(seats: map<SeatKey, SeatOccupancy>) {
    forall k :: k in seats && seats[k].kind == Designated ==> 1 <= k.seatId <= DesignatedZoneSeats
  }

  /** The seats 1..n. */
  function SeatRange(n: nat): (r: set<int>)
    ensures forall i :: i in r <==> 1 <= i <= n
    ensures |r| == n
  {
    if n == 0 then {} else SeatRange(n - 1) + {n}
  }

  /**
   * Once released, the count is exactly the number of designated-zone seats
   * without a designated occupancy, so it lies in 0..40.
   */
  lemma UnbookedCountsFreeDesignatedSeats(seats: map<SeatKey, SeatOccupancy>, d: Day, now: Instant)
    requires DesignatedZoneRespected(seats)
    ensures 0 <= UnbookedDesignated(seats, d, now) <= DesignatedZoneSeats
    ensures IsAfterCutoff(d, now) && !IsWeekend(d) ==>
              UnbookedDesignated(seats, d, now) == |SeatRange(DesignatedZoneSeats) - DesignatedSeatIds(seats, d)|
  {
    var ids := DesignatedSeatIds(seats, d);
    var zone := SeatRange(DesignatedZoneSeats);
    assert ids <= zone;
    assert zone == (zone - ids) + ids;
    assert |zone| == |zone - ids| + |ids|;
  }

  /**
   * releaseUnbookedDesignatedSeats as written: compares the clock with the
   * release instant as written, then walks the designated occupancies of `d`
   * (the store query) and collects their distinct seat ids of at most 40.
   * Once the cutoff has passed, its answer is the corrected count.
   */
  method CountUnbookedDesignatedSeats(seats: map<SeatKey, SeatOccupancy>, d: Day, now: Instant) returns (n: int)
    ensures n == UnbookedDesignatedAsWritten(seats, d, now)
    ensures IsAfterCutoff(d, now) ==> n == UnbookedDesignated(seats, d, now)
  {
    UnbookedAsWrittenAgrees(seats, d, now);
    if IsWeekend(d) {
      return 0;
    }
    if now <= ReleaseTimeAsWritten(d) {
      return 0;
    }
    var docs := set k | k in seats && k.date == d && seats[k].kind == Designated;
    ghost var all := docs;
    var booked: set<int> := {};
    while docs != {}
      invariant docs <= all
      invariant booked == set k | k in all - docs && k.seatId <= DesignatedZoneSeats :: k.seatId
      decreases |docs|
    {
      var doc :| doc in docs;
      if doc.seatId <= DesignatedZoneSeats {
        booked := booked + {doc.seatId};
      }
      docs := docs - {doc};
    }
    assert all - docs == all;
    assert booked == DesignatedSeatIds(seats, d);
    n := DesignatedZoneSeats - |booked|;
  }

  // ---------------------------------------------------------------------------
  // Lazy top-up, shared by bookSeat and getBookingStatus.

  /** How much of the stored pool already stems from released designated seats. */
  function AlreadyCounted(st: DailyStats): int {
    TotalFloatingOf(st) - BaseFloatingBuffer - ReleasedCountOf(st)
  }

  /**
   * The floating pool once the `unbooked` designated seats are reflected in
   * it: raised by the shortfall when fewer than `unbooked` are counted yet.
   */
  function ToppedUpTotal(st: DailyStats, unbooked: int): (total: int)
    ensures total >= TotalFloatingOf(st)
    ensures total > TotalFloatingOf(st) <==> unbooked > 0 && AlreadyCounted(st) < unbooked
  {
    if unbooked > 0 && AlreadyCounted(st) < unbooked then
      TotalFloatingOf(st) + (unbooked - Max(0, AlreadyCounted(st)))
    else TotalFloatingOf(st)
  }

  /** The record a floating booking writes back after the top-up. */
  function TopUp(st: DailyStats, unbooked: int): (r: DailyStats)
    ensures r.designatedCount == st.designatedCount && r.floatingCount == st.floatingCount
    ensures r.releasedCount == st.releasedCount && r.baseFloatingBuffer == st.baseFloatingBuffer
    ensures r != st ==> r.autoReleasedFromDesignated == Some(unbooked)
  {
    if unbooked > 0 && AlreadyCounted(st) < unbooked then
      st.(totalFloatingAvailable := Some(ToppedUpTotal(st, unbooked)),
          autoReleasedFromDesignated := Some(unbooked))
    else st
  }

  /**
   * The counters of a date are sane: the released count is non-negative, the
   * pool holds at least the base buffer plus the released seats, and the
   * floating bookings stay within the pool.
   */
  predicate StatsWellFormed(st: DailyStats) {
    && ReleasedCountOf(st) >= 0
    && AlreadyCounted(st) >= 0
    && FloatingCountOf(st) <= TotalFloatingOf(st)
  }

  /**
   * With sane counters, the topped-up pool is the base buffer plus the
   * explicitly released seats plus the larger of the seats auto-released
   * before and the seats unbooked now.
   */
  lemma TopUpMeaning(st: DailyStats, unbooked: int)
    requires StatsWellFormed(st) && unbooked > 0
    ensures ToppedUpTotal(st, unbooked)
         == BaseFloatingBuffer + ReleasedCountOf(st) + Max(AlreadyCounted(st), unbooked)
  {
  }

  /**
   * The top-up is idempotent: topping up the written-back record again with the
   * same unbooked count changes nothing, and the pool read back is the pool
   * the transaction used.
   */
  lemma TopUpIdempotent(st: DailyStats, unbooked: int)
    requires StatsWellFormed(st)
    ensures TotalFloatingOf(TopUp(st, unbooked)) == ToppedUpTotal(st, unbooked)
    ensures AlreadyCounted(TopUp(st, unbooked)) >= unbooked
    ensures TopUp(TopUp(st, unbooked), unbooked) == TopUp(st, unbooked)
    ensures ToppedUpTotal(TopUp(st, unbooked), unbooked) == ToppedUpTotal(st, unbooked)
  {
  }
}
