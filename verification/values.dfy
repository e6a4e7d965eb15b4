/** The data the wrapper works on: wall-clock fields, zoned instants, the
    Valid/Invalid wrapper value, and the shapes of input its constructor
    accepts. */
module Values {

  /** Calendar fields of a wall-clock date-time (a `CalendarDateTime`). */
  datatype DateTime = DateTime(year: int, month: int, day: int,
                               hour: int, minute: int, second: int, millisecond: int)

  /** A calendar date without a time of day (a `CalendarDate`). */
  datatype CalendarDate = CalendarDate(year: int, month: int, day: int)

  /** A zoned instant (a `ZonedDateTime`): the wall-clock fields, the zone
      they are read in, the absolute instant in epoch milliseconds, and the
      zone's UTC offset in milliseconds at that instant. */
  datatype Zoned = Zoned(wall: DateTime, zone: string, epoch: int, offset: int)

  /** The public wrapper: a backing zoned instant, or none at all. */
  datatype Gnoment = Invalid | Valid(instant: Zoned)

  /** Every shape of value the constructor can be handed, in the order it
      tests them, plus a finite number of milliseconds (which the
      constructor does not recognise but `new Date` does); `Other` is
      anything else (an object, a `CalendarDateTime`, ...). */
  datatype Input =
    | Undefined
    | Null
    | Str(text: string)
    | NativeDate(epochMs: int)
    | ZonedInput(zoned: Zoned)
    | CalDate(date: CalendarDate)
    | GnomentInput(value: Gnoment)
    | Number(ms: int)
    | Other

  /** Wall-clock time of day is exactly `h:mi:s.ms`. */
  predicate TimeIs(w: DateTime, h: int, mi: int, s: int, ms: int) {
    w.hour == h && w.minute == mi && w.second == s && w.millisecond == ms
  }

  /** Two wall-clock readings fall on the same calendar date. */
  predicate SameDate(a: DateTime, b: DateTime) {
    a.year == b.year && a.month == b.month && a.day == b.day
  }

  /** Lexicographic order of the seven wall-clock fields. */
  predicate WallBefore(a: DateTime, b: DateTime) {
    if a.year != b.year then a.year < b.year
    else if a.month != b.month then a.month < b.month
    else if a.day != b.day then a.day < b.day
    else if a.hour != b.hour then a.hour < b.hour
    else if a.minute != b.minute then a.minute < b.minute
    else if a.second != b.second then a.second < b.second
    else a.millisecond < b.millisecond
  }
}
