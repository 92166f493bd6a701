/**
 * The records of the seat-allocation store and the errors its operations
 * report.
 *
 * The store holds five collections: `bookings` keyed by (date, userId),
 * `bookedSeats` keyed by (date, seatId), `dailyStats` keyed by date,
 * `specialDays` keyed by date and `users` keyed by user id. A record kind
 * (`type` in the store) is kept as the string the store holds, because the
 * engine compares strings and must cope with kinds it does not know.
 */
module Records {
  import opened Base
  import opened Calendar

  const Designated: string := "designated"
  const Floating: string := "floating"
  const AdminOverride: string := "admin-override"

  /** Seats 1..40 form the designated zone, 41..50 the buffer zone. */
  const DesignatedZoneSeats: int := 40
  const TotalSeats: int := 50
  /** The floating pool every date starts with. */
  const BaseFloatingBuffer: int := 10

  datatype BookingKey = BookingKey(date: Day, userId: string)
  datatype SeatKey = SeatKey(date: Day, seatId: int)

  /** A booking; its date and user are its key, its status is always "confirmed". */
  datatype Booking = Booking(userName: string, batch: int, seatId: int, kind: string)

  /** The occupancy of one seat on one date; the date and seat are its key. */
  datatype SeatOccupancy = SeatOccupancy(userId: string, userName: string, kind: string)

  /**
   * The per-date counters. A field is `None` when the document lacks it, as
   * the placeholder written by an admin override does.
   */
  datatype DailyStats = DailyStats(
    designatedCount: Option<int>,
    floatingCount: Option<int>,
    releasedCount: Option<int>,
    baseFloatingBuffer: Option<int>,
    totalFloatingAvailable: Option<int>,
    autoReleasedFromDesignated: Option<int>)

  datatype SpecialDay = SpecialDay(kind: string)

  /** A field value of a user document. */
  datatype FieldValue = Str(s: string) | Num(n: int) | Bool(b: bool)

  /** A user document: field name to value (name, email, batch, isAdmin, password, ...). */
  type UserRecord = map<string, FieldValue>

  datatype State = State(
    bookings: map<BookingKey, Booking>,
    bookedSeats: map<SeatKey, SeatOccupancy>,
    dailyStats: map<Day, DailyStats>,
    specialDays: map<Day, SpecialDay>,
    users: map<string, UserRecord>)

  const EmptyState: State := State(map[], map[], map[], map[], map[])

  datatype Error =
    // bookSeat
    | MissingField | InvalidSeat | AlreadyBooked | SeatTaken | Holiday
    | NotDesignatedDay | DesignatedZoneOnly | TooEarly | BufferZoneOnly
    | PoolExhausted | InvalidType
    // releaseSeat and getBookingStatus
    | MissingParams | NoBookingFound | StatsMissing | UnknownBookingType
    // admin operations
    | AccessDenied | BatchRequired | UserNotFound | InvalidSpecialDay

  /** JavaScript's `field || fallback` on a numeric field: absent and 0 both give the fallback. */
  function OrElse(field: Option<int>, fallback: int): (v: int)
    ensures field.None? || field.value == 0 ==> v == fallback
    ensures field.Some? && field.value != 0 ==> v == field.value
  {
    if field.None? || field.value == 0 then fallback else field.value
  }

  /** The counters bookSeat starts from when a date has no record yet. */
  const FreshStats: DailyStats := DailyStats(Some(0), Some(0), Some(0), Some(BaseFloatingBuffer), Some(BaseFloatingBuffer), None)

  /** The record an admin override leaves behind for a date that had none: it holds only the date. */
  const PlaceholderStats: DailyStats := DailyStats(None, None, None, None, None, None)

  /** The counters of date `d` as a transaction reads them. */
  function StatsOf(stats: map<Day, DailyStats>, d: Day): DailyStats {
    if d in stats then stats[d] else FreshStats
  }

  function DesignatedCountOf(st: DailyStats): int {
    OrElse(st.designatedCount, 0)
  }

  function FloatingCountOf(st: DailyStats): int {
    OrElse(st.floatingCount, 0)
  }

  function ReleasedCountOf(st: DailyStats): int {
    OrElse(st.releasedCount, 0)
  }

  function TotalFloatingOf(st: DailyStats): int {
    OrElse(st.totalFloatingAvailable, BaseFloatingBuffer)
  }

  /** The seats of date `d` whose occupancy record has kind `kind`. */
  function OccupiedOfKind(seats: map<SeatKey, SeatOccupancy>, d: Day, kind: string): set<SeatKey> {
    set k | k in seats && k.date == d && seats[k].kind == kind
  }
}
