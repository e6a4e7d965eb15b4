/** Building wrapper values: the `Gnoment` constructor's dispatch on the
    shape of its argument, the static `gnoment.tz`, `gnoment.utc` and
    `gnoment.unix`, validity, and the zone-changing `utc()` / `tz()`. */
module Construct {
  import opened Results
  import opened Values
  import opened Host
  import opened Parse

  /** `isValid()`: there is a backing instant. */
  predicate IsValid(g: Gnoment) {
    g.Valid?
  }

  /** A native `Date`: its host-local getters give year to second, and the
      milliseconds are dropped before the fields are bound to the default
      zone. */
  function FromNativeDate(env: Env, epochMs: int): (z: Zoned)
    ensures z.zone == env.defaultZone && z.wall.millisecond == 0
    ensures var h := env.lib.wallAt(env.hostZone, epochMs);
            SameDate(z.wall, h) && TimeIs(z.wall, h.hour, h.minute, h.second, 0)
  {
    var h := env.lib.wallAt(env.hostZone, epochMs);
    FromWall(env.lib, env.defaultZone, h.(millisecond := 0))
  }

  /** `new Gnoment(date)`. Only a string can make it throw (when the library
      parser rejects it); `null`, an unrecognised value and an Invalid
      wrapper give Invalid; everything else gives a valid value. */
  function New(env: Env, input: Input): (r: Outcome<Gnoment>)
    ensures r.Throws? ==> input.Str?
    ensures input.Str? ==> (r.Throws? <==> ParseFlexible(env.lib, input.text, env.defaultZone).Throws?)
    ensures r.Returns? ==>
              (!IsValid(r.value) <==> input.Null? || input.Number? || input.Other? || input == GnomentInput(Invalid))
    ensures input.Undefined? ==>
              r.Returns? && r.value.Valid? && r.value.instant.epoch == env.now
              && r.value.instant.zone == env.defaultZone
    ensures input.Str? && r.Returns? ==>
              r.value.Valid? && r.value.instant.zone == env.defaultZone
              && r.value.instant.wall == ParseFlexible(env.lib, input.text, env.defaultZone).value.wall
    ensures input.NativeDate? ==> r == Returns(Valid(FromNativeDate(env, input.epochMs)))
    ensures input.ZonedInput? ==> r == Returns(Valid(input.zoned))
    ensures input.CalDate? ==>
              r.Returns? && r.value.Valid? && r.value.instant.zone == env.defaultZone
              && r.value.instant.wall == DateTime(input.date.year, input.date.month, input.date.day, 0, 0, 0, 0)
    ensures input.GnomentInput? ==> r == Returns(input.value)
  {
    match input
    case Undefined => Returns(Valid(ZonedAt(env.lib, env.defaultZone, env.now)))
    case Null => Returns(Invalid)
    case Str(s) =>
      (match ParseFlexible(env.lib, s, env.defaultZone)
       case Throws => Throws
       case Returns(z) => Returns(Valid(FromWall(env.lib, env.defaultZone, z.wall))))
    case NativeDate(ms) => Returns(Valid(FromNativeDate(env, ms)))
    case ZonedInput(z) => Returns(Valid(z))
    case CalDate(d) => Returns(Valid(FromDate(env.lib, env.defaultZone, d)))
    case GnomentInput(g) => Returns(g)
    case Number(_) => Returns(Invalid)
    case Other => Returns(Invalid)
  }

  /** `g.tz(zone)`: the same instant presented in `zone`; Invalid stays
      Invalid. */
  function ToZoneOf(env: Env, g: Gnoment, zone: string): (r: Gnoment)
    ensures g.Invalid? <==> r.Invalid?
    ensures r.Valid? ==> r.instant.epoch == g.instant.epoch && r.instant.zone == zone
  {
    match g
    case Invalid => Invalid
    case Valid(z) => Valid(ToZone(env.lib, z, zone))
  }

  /** `g.utc()`: the same instant presented in UTC; Invalid stays Invalid. */
  function Utc(env: Env, g: Gnoment): (r: Gnoment)
    ensures g.Invalid? <==> r.Invalid?
    ensures r.Valid? ==> r.instant.epoch == g.instant.epoch && r.instant.zone == "UTC"
  {
    match g
    case Invalid => Invalid
    case Valid(z) => Valid(ToZone(env.lib, z, "UTC"))
  }

  /** `gnoment.utc(date)`: construct, then move to UTC. */
  function StaticUtc(env: Env, input: Input): (r: Outcome<Gnoment>)
    ensures r.Throws? <==> New(env, input).Throws?
    ensures r.Returns? ==> (r.value.Valid? <==> IsValid(New(env, input).value))
    ensures r.Returns? && r.value.Valid? ==>
              r.value.instant.zone == "UTC" && r.value.instant.epoch == New(env, input).value.instant.epoch
  {
    match New(env, input)
    case Throws => Throws
    case Returns(g) => Returns(Utc(env, g))
  }

  /** The argument lists `gnoment.tz(...)` distinguishes by their length;
      `ValueAndZone` is a date argument that is not a string. */
  datatype TzArgs =
    | NoArgs
    | ZoneOnly(zone: string)
    | DateAndZone(text: string, zone: string)
    | ValueAndZone(zone: string)
    | MoreArgs

  /** `gnoment.tz(...)`: with a date and a zone, parse the date directly in
      that zone (no re-binding to the default zone); with a zone alone, now in
      that zone; any other arity, Invalid. A date that is not a string
      reaches `input.includes` (or `.length` of `null`) and throws. */
  function StaticTz(env: Env, args: TzArgs): (r: Outcome<Gnoment>)
    ensures r.Throws? ==> args.DateAndZone? || args.ValueAndZone?
    ensures args.ValueAndZone? ==> r == Throws
    ensures args.DateAndZone? ==>
              (r.Throws? <==> ParseFlexible(env.lib, args.text, args.zone).Throws?)
    ensures args.DateAndZone? && r.Returns? ==>
              r.value == Valid(ParseFlexible(env.lib, args.text, args.zone).value)
    ensures args.ZoneOnly? ==>
              r.Returns? && r.value.Valid? && r.value.instant.epoch == env.now
              && r.value.instant.zone == args.zone
    ensures args.NoArgs? || args.MoreArgs? ==> r == Returns(Invalid)
  {
    match args
    case DateAndZone(text, zone) =>
      (match ParseFlexible(env.lib, text, zone)
       case Throws => Throws
       case Returns(z) => Returns(Valid(z)))
    case ZoneOnly(zone) =>
      (match New(env, Undefined)
       case Throws => Throws
       case Returns(g) => Returns(ToZoneOf(env, g, zone)))
    case ValueAndZone(_) => Throws
    case NoArgs => Returns(Invalid)
    case MoreArgs => Returns(Invalid)
  }

  /** Parsing in the default zone through `gnoment.tz(text, zone)` and through
      the constructor agree for dates and local date-times; they can differ
      only for absolute timestamps, whose wall-clock reading the constructor
      binds to the zone again. */
  lemma TzAgreesWithConstructor(env: Env, text: string)
    requires !Classify(text).Absolute?
    ensures StaticTz(env, DateAndZone(text, env.defaultZone)) == New(env, Str(text))
  {
    if ParseFlexible(env.lib, text, env.defaultZone).Returns? {
      NonAbsoluteIsWallBound(env.lib, text, env.defaultZone);
    }
  }

  /** For an absolute timestamp both paths still denote the same instant when
      the zone reads that instant's wall clock back unambiguously. */
  lemma TzAgreesWithConstructorAbsolute(env: Env, text: string)
    requires Classify(text).Absolute?
    requires env.lib.parseAbsolute(text, env.defaultZone).Some?
    requires var e := env.lib.parseAbsolute(text, env.defaultZone).value;
             env.lib.epochOf(env.defaultZone, env.lib.wallAt(env.defaultZone, e)) == e
    ensures StaticTz(env, DateAndZone(text, env.defaultZone)) == New(env, Str(text))
  {
  }

  /** The argument of `gnoment.unix`. */
  /** The argument of `gnoment.unix`: `undefined`, `null`, or a finite
      number of seconds, which may have a fraction. */
  datatype UnixArg = UnixUndefined | UnixNull | UnixNumber(seconds: real)

  /** The integer part of `x`, rounding toward zero, as `new Date` does to
      the time value it is given. */
  function Truncate(x: real): (r: int)
    ensures x >= 0.0 ==> r as real <= x < r as real + 1.0
    ensures x < 0.0 ==> r as real - 1.0 < x <= r as real
  {
    if x >= 0.0 then x.Floor else -((-x).Floor)
  }

  /** `gnoment.unix(d)`: `undefined` is Invalid, `null` counts as 0, and
      a number becomes a native `Date` of `d * 1000` milliseconds. */
  function FromUnix(env: Env, d: UnixArg): (r: Gnoment)
    ensures r.Invalid? <==> d.UnixUndefined?
    ensures r.Valid? ==> r.instant.zone == env.defaultZone && r.instant.wall.millisecond == 0
    ensures d.UnixNumber? ==> r == Valid(FromNativeDate(env, Truncate(d.seconds * 1000.0)))
  {
    if d.UnixUndefined? then Invalid
    else
      var seconds := if d.UnixNull? then 0.0 else d.seconds;
      New(env, NativeDate(Truncate(seconds * 1000.0))).value
  }

  /** `gnoment.unix(null)` is `gnoment.unix(0)`. */
  lemma UnixNullIsEpoch(env: Env)
    ensures FromUnix(env, UnixNull) == FromUnix(env, UnixNumber(0.0)) == Valid(FromNativeDate(env, 0))
  {
  }

  /** Whole seconds become exactly `n * 1000` milliseconds; a fraction of a
      second keeps its milliseconds, truncated toward zero, so half a second
      before the epoch is the time value `-500`. */
  lemma UnixMilliseconds(env: Env, n: int)
    ensures FromUnix(env, UnixNumber(n as real)) == Valid(FromNativeDate(env, n * 1000))
    ensures FromUnix(env, UnixNumber(1.5)) == Valid(FromNativeDate(env, 1500))
    ensures FromUnix(env, UnixNumber(-0.5)) == Valid(FromNativeDate(env, -500))
    ensures FromUnix(env, UnixNumber(0.0005)) == Valid(FromNativeDate(env, 0))
  {
    assert (n as real) * 1000.0 == (n * 1000) as real;
  }
}
