/**
 * The admin layer, as functions over the same store: the isAdmin gate, the
 * password-free user listing, the batch update, the force-booking and
 * force-release of a seat, and the special-day overrides. Every operation
 * first passes the gate; a caller who is not an admin gets AccessDenied and
 * the store is left alone.
 */
module Admin {
  import opened Base
  import opened Calendar
  import opened Records

  const IsAdminField: string := "isAdmin"
  const PasswordField: string := "password"
  const IdField: string := "id"
  const BatchField: string := "batch"

  const HolidayKind: string := "holiday"
  const WorkingKind: string := "working"

  /** JavaScript truthiness of a stored field value. */
  predicate Truthy(v: FieldValue) {
    match v
    case Str(s) => s != ""
    case Num(n) => n != 0
    case Bool(b) => b
  }

  /** The isAdmin gate: the caller's user record exists and its isAdmin field is truthy. */
  predicate IsAdmin(users: map<string, UserRecord>, caller: string)
    ensures IsAdmin(users, caller) <==>
              && caller in users && IsAdminField in users[caller]
              && users[caller][IsAdminField] !in {Bool(false), Num(0), Str("")}
  {
    caller in users && IsAdminField in users[caller] && Truthy(users[caller][IsAdminField])
  }

  /**
   * One entry of the user listing: the record without its password, with an
   * `id` field holding the record key. The stored fields come after `id` in
   * the object spread, so a stored `id` field wins over the key.
   */
  function PublicView(id: string, rec: UserRecord): (v: UserRecord)
    ensures PasswordField !in v
    ensures IdField in v
    ensures IdField !in rec ==> v[IdField] == Str(id)
    ensures forall f :: f in rec && f != PasswordField ==> f in v && v[f] == rec[f]
    ensures forall f :: f in v ==> f == IdField || (f in rec && f != PasswordField)
  {
    map[IdField := Str(id)] + (rec - {PasswordField})
  }

  /** An adminBookSeat request. */
  datatype OverrideRequest = OverrideRequest(userId: string, userName: string, batch: int, date: Day, seatId: int)

  /**
   * The writes of adminBookSeat: the other occupant's booking is deleted,
   * both records are written with kind "admin-override", and the date gets a
   * stats record holding only the date if it had none. No counter moves.
   */
  function OverrideWrites(s: State, req: OverrideRequest): State {
    var sk := SeatKey(req.date, req.seatId);
    var bookings :=
      if sk in s.bookedSeats && s.bookedSeats[sk].userId != req.userId
      then s.bookings - {BookingKey(req.date, s.bookedSeats[sk].userId)}
      else s.bookings;
    var stats := if req.date in s.dailyStats then s.dailyStats else s.dailyStats[req.date := PlaceholderStats];
    s.(bookings := bookings[BookingKey(req.date, req.userId) := Booking(req.userName, req.batch, req.seatId, AdminOverride)],
       bookedSeats := s.bookedSeats[sk := SeatOccupancy(req.userId, req.userName, AdminOverride)],
       dailyStats := stats)
  }

  /**
   * adminBookSeat: refused only to a non-admin; otherwise the booking and the
   * seat record are the override's, and special days and users stay.
   */
  function AdminBook(s: State, caller: string, req: OverrideRequest): (r: Result<State, Error>)
    ensures r.Err? <==> !IsAdmin(s.users, caller)
    ensures r.Err? ==> r.error == AccessDenied
    ensures r.Ok? ==>
              && BookingKey(req.date, req.userId) in r.value.bookings && SeatKey(req.date, req.seatId) in r.value.bookedSeats
              && r.value.bookings[BookingKey(req.date, req.userId)] == Booking(req.userName, req.batch, req.seatId, AdminOverride)
              && r.value.bookedSeats[SeatKey(req.date, req.seatId)] == SeatOccupancy(req.userId, req.userName, AdminOverride)
              && req.date in r.value.dailyStats
              && r.value.specialDays == s.specialDays && r.value.users == s.users
  {
    if !IsAdmin(s.users, caller) then Err(AccessDenied) else Ok(OverrideWrites(s, req))
  }

  /** The seat records of `userId` on `date`, as the admin release queries them. */
  function SeatsOf(seats: map<SeatKey, SeatOccupancy>, userId: string, date: Day): set<SeatKey> {
    set k | k in seats && k.date == date && seats[k].userId == userId
  }

  /** The admin /release handler: the booking and every matching seat record go; nothing else changes. */
  function AdminRelease(s: State, caller: string, userId: string, date: Day): (r: Result<State, Error>)
    ensures r.Err? <==> !IsAdmin(s.users, caller)
    ensures r.Ok? ==>
              && BookingKey(date, userId) !in r.value.bookings
              && (forall k :: k in r.value.bookedSeats ==> k in s.bookedSeats && (k.date != date || r.value.bookedSeats[k].userId != userId))
              && r.value.dailyStats == s.dailyStats
  {
    if !IsAdmin(s.users, caller) then Err(AccessDenied)
    else Ok(s.(bookings := s.bookings - {BookingKey(date, userId)},
               bookedSeats := s.bookedSeats - SeatsOf(s.bookedSeats, userId, date)))
  }

  /** POST /special-days: upsert the override of a date, which must be "holiday" or "working". */
  function SetSpecialDay(s: State, caller: string, date: Option<Day>, kind: string): (r: Result<State, Error>)
    ensures r.Ok? <==> IsAdmin(s.users, caller) && date.Some? && (kind == HolidayKind || kind == WorkingKind)
    ensures r.Ok? ==> date.value in r.value.specialDays && r.value.specialDays[date.value] == SpecialDay(kind)
  {
    if !IsAdmin(s.users, caller) then Err(AccessDenied)
    else if date.None? || kind !in [HolidayKind, WorkingKind] then Err(InvalidSpecialDay)
    else Ok(s.(specialDays := s.specialDays[date.value := SpecialDay(kind)]))
  }

  /** DELETE /special-days/:date: remove the override of a date, if any. */
  function DeleteSpecialDay(s: State, caller: string, date: Day): (r: Result<State, Error>)
    ensures r.Ok? <==> IsAdmin(s.users, caller)
    ensures r.Ok? ==> date !in r.value.specialDays
  {
    if !IsAdmin(s.users, caller) then Err(AccessDenied)
    else Ok(s.(specialDays := s.specialDays - {date}))
  }

  /**
   * updateUserBatch: a missing or falsy batch is refused; an update on a user
   * that does not exist fails; otherwise only the user's batch field is set.
   */
  function UpdateUserBatch(s: State, caller: string, userId: string, batch: Option<int>): (r: Result<State, Error>)
    ensures r.Ok? <==> IsAdmin(s.users, caller) && batch.Some? && batch.value != 0 && userId in s.users
    ensures r.Ok? ==>
              && r.value.users.Keys == s.users.Keys
              && BatchField in r.value.users[userId] && r.value.users[userId][BatchField] == Num(batch.value)
  {
    if !IsAdmin(s.users, caller) then Err(AccessDenied)
    else if batch.None? || batch.value == 0 then Err(BatchRequired)
    else if userId !in s.users then Err(UserNotFound)
    else Ok(s.(users := s.users[userId := s.users[userId][BatchField := Num(batch.value)]]))
  }
}
