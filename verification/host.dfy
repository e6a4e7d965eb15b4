/** The collaborators the wrapper calls but does not implement: the
    `@internationalized/date` time-zone database, parsers and calendar
    arithmetic, `date-fns` differences, `Intl` field rendering, and the host's
    clock and local zone. Each is a field of `Library`, a total function the
    model never looks inside. The few facts the model relies on are built into
    the definitions below: an instant is an integer epoch, re-zoning keeps the
    epoch, and comparison is the sign of the epoch difference. */
module Host {
  import opened Results
  import opened Values

  /** One `toLocaleString` / `formatToParts` request, by its options. */
  datatype Field =
    | YearNumeric | Year2Digit
    | Month2Digit | MonthNumeric | MonthName | MonthAbbrev
    | Day2Digit | DayNumeric
    | WeekdayName | WeekdayAbbrev
    | Hour2Digit24 | HourNumeric24 | Hour2Digit12 | HourNumeric12
    | Minute2Digit | MinuteNumeric
    | Second2Digit | SecondNumeric
    | FractionalSeconds3
    | ZoneNameShort

  datatype Library = Library(
    /** Zone offset in milliseconds at an epoch instant. */
    offsetAt: (string, int) -> int,
    /** Wall-clock fields of an epoch instant in a zone. */
    wallAt: (string, int) -> DateTime,
    /** The epoch instant a wall-clock reading denotes in a zone (DST
        disambiguation included). */
    epochOf: (string, DateTime) -> int,
    /** `parseDate`, `parseDateTime`, `parseAbsolute`; `None` when they throw. */
    parseDate: string -> Option<CalendarDate>,
    parseDateTime: string -> Option<DateTime>,
    parseAbsolute: (string, string) -> Option<int>,
    /** `startOfYear`, `startOfMonth`, `endOfYear`, `endOfMonth`. */
    startOfYear: Zoned -> Zoned,
    startOfMonth: Zoned -> Zoned,
    endOfYear: Zoned -> Zoned,
    endOfMonth: Zoned -> Zoned,
    /** `ZonedDateTime.add` / `subtract` of `{[unit]: amount}`. */
    add: (Zoned, string, int) -> Zoned,
    subtract: (Zoned, string, int) -> Zoned,
    /** `differenceIn<Unit>` of two valid time values in epoch
        milliseconds. */
    difference: (string, int, int) -> int,
    /** The time value `new Date(x)` reads from a string, a zoned value, a
        calendar date or another object (through its `toString`), with
        `None` for `NaN`. */
    timeValue: Input -> Option<int>,
    /** `toLocaleString("en-US", ...)` of an epoch instant in a zone; for
        `ZoneNameShort`, the `timeZoneName` part or "" when there is none. */
    intl: (Field, int, string) -> string,
    /** JavaScript's rendering of a non-integral minute count, given the
        sub-hour remainder of the offset in milliseconds. */
    showMinutes: int -> string
  )

  /** Everything a call may consult besides its arguments: the library, the
      default zone (`defaultTimeZone`), the host's local zone (read by the
      native `Date` getters) and the clock (`now`), in epoch milliseconds. */
  datatype Env = Env(lib: Library, defaultZone: string, hostZone: string, now: int)

  /** The zoned instant for an epoch in a zone: `toZoned` of an absolute
      value, `now(zone)`, `parseAbsolute(_, zone)`. */
  function ZonedAt(lib: Library, zone: string, epoch: int): (z: Zoned)
    ensures z.zone == zone && z.epoch == epoch
  {
    Zoned(lib.wallAt(zone, epoch), zone, epoch, lib.offsetAt(zone, epoch))
  }

  /** `toZoned(zonedDateTime, zone)`: the same instant seen from another zone. */
  function ToZone(lib: Library, z: Zoned, zone: string): (r: Zoned)
    ensures r.epoch == z.epoch && r.zone == zone
  {
    ZonedAt(lib, zone, z.epoch)
  }

  /** `toZoned(calendarDateTime, zone)`: wall-clock fields bound to a zone.
      The value keeps the requested reading; a reading that falls in a
      daylight-saving gap is not moved forward here. */
  function FromWall(lib: Library, zone: string, w: DateTime): (r: Zoned)
    ensures r.wall == w && r.zone == zone
  {
    var e := lib.epochOf(zone, w);
    Zoned(w, zone, e, lib.offsetAt(zone, e))
  }

  /** `toZoned(calendarDate, zone)`: a date bound to a zone at midnight. */
  function FromDate(lib: Library, zone: string, d: CalendarDate): (r: Zoned)
    ensures r.zone == zone && TimeIs(r.wall, 0, 0, 0, 0)
    ensures r.wall.year == d.year && r.wall.month == d.month && r.wall.day == d.day
  {
    FromWall(lib, zone, DateTime(d.year, d.month, d.day, 0, 0, 0, 0))
  }

  /** `z.set({hour, minute, second, millisecond})`: same date and zone, new
      time of day, instant re-resolved in the zone. */
  function SetTime(lib: Library, z: Zoned, h: int, mi: int, s: int, ms: int): (r: Zoned)
    ensures r.zone == z.zone && SameDate(r.wall, z.wall) && TimeIs(r.wall, h, mi, s, ms)
  {
    FromWall(lib, z.zone, z.wall.(hour := h, minute := mi, second := s, millisecond := ms))
  }

  /** `a.compare(b)`, reduced to its sign: the order of the two instants,
      whatever zones they are read in. */
  function Compare(a: Zoned, b: Zoned): (c: int)
    ensures c < 0 <==> a.epoch < b.epoch
    ensures c == 0 <==> a.epoch == b.epoch
    ensures c > 0 <==> a.epoch > b.epoch
  {
    if a.epoch < b.epoch then -1 else if a.epoch == b.epoch then 0 else 1
  }

  /** Re-zoning is lossless: going to another zone and back gives back the
      instant as the library would present it in the first zone. */
  lemma ToZoneRoundTrip(lib: Library, zone: string, epoch: int, other: string)
    ensures ToZone(lib, ToZone(lib, ZonedAt(lib, zone, epoch), other), zone) == ZonedAt(lib, zone, epoch)
  {
  }
}
