/** Calendar arithmetic and boundaries: `unitLookup`, `diff`, `add`,
    `subtract`, `startOf`, `endOf`, and the seconds truncation of `unix`
    and `valueOf`. The calendar work itself is the library's. */
module Arithmetic {
  import opened Results
  import opened Values
  import opened Host

  /** The singular unit names `unitLookup` knows. */
  predicate Singular(unit: string) {
    unit == "year" || unit == "month" || unit == "week" || unit == "day"
  }

  /** The plural unit names `diff` knows. */
  predicate DiffUnit(unit: string) {
    unit == "years" || unit == "months" || unit == "weeks" || unit == "days"
  }

  /** `unitLookup`: the four singular names become their plurals; every
      other name is passed through. */
  function UnitLookup(unit: string): (r: string)
    ensures Singular(unit) ==> r == unit + "s" && DiffUnit(r)
    ensures !Singular(unit) ==> r == unit
  {
    if unit == "month" then "months"
    else if unit == "day" then "days"
    else if unit == "year" then "years"
    else if unit == "week" then "weeks"
    else unit
  }

  /** No plural is itself a key of the table, so looking up twice is
      looking up once. */
  lemma UnitLookupIdempotent(unit: string)
    ensures UnitLookup(UnitLookup(unit)) == UnitLookup(unit)
  {
    if Singular(unit) {
      var r := UnitLookup(unit);
      assert |r| == |unit| + 1;
      assert !Singular(r) by {
        assert r[|r| - 1] == 's';
      }
    }
  }

  /** The time value `new Date(x)` gives `diff`'s argument, `None` for
      `NaN`. A wrapper is converted through its `valueOf`, so an Invalid one
      throws and a valid one loses its milliseconds; a native date keeps
      its time value, a number is taken as milliseconds, `null` is 0 and
      `undefined` is `NaN`. Anything else is parsed by the host. */
  function DateArgument(env: Env, x: Input): (r: Outcome<Option<int>>)
    ensures r.Throws? <==> x == GnomentInput(Invalid)
    ensures x.GnomentInput? && x.value.Valid? ==>
              r.Returns? && r.value.Some? && r.value.value % 1000 == 0
              && r.value.value <= x.value.instant.epoch < r.value.value + 1000
  {
    match x
    case GnomentInput(g) =>
      (match ValueOf(g)
       case Throws => Throws
       case Returns(ms) => Returns(Some(ms)))
    case NativeDate(ms) => Returns(Some(ms))
    case Number(ms) => Returns(Some(ms))
    case Null => Returns(Some(0))
    case Undefined => Returns(None)
    case _ => Returns(env.lib.timeValue(x))
  }

  /** `diff(other, unit)`: for the four plural units, the library
      difference from the receiver's instant to the argument's time value;
      `NaN` (here `None`) when `new Date` cannot read the argument, which
      `isNil` lets through. Reading the instant of an Invalid receiver, or
      converting an Invalid wrapper argument, throws. Any other unit gives
      0 without evaluating either. */
  function Diff(env: Env, g: Gnoment, other: Input, unit: string): (r: Outcome<Option<int>>)
    ensures !DiffUnit(unit) ==> r == Returns(Some(0))
    ensures DiffUnit(unit) ==> (r.Throws? <==> g.Invalid? || other == GnomentInput(Invalid))
    ensures DiffUnit(unit) && r.Returns? ==> (r.value.None? <==> DateArgument(env, other).value.None?)
    ensures DiffUnit(unit) && r.Returns? && r.value.Some? ==>
              r.value.value == env.lib.difference(unit, g.instant.epoch, DateArgument(env, other).value.value)
  {
    if !DiffUnit(unit) then Returns(Some(0))
    else
      match g
      case Invalid => Throws
      case Valid(z) =>
        match DateArgument(env, other)
        case Throws => Throws
        case Returns(None) => Returns(None)
        case Returns(Some(ms)) => Returns(Some(env.lib.difference(unit, z.epoch, ms)))
  }

  /** `diff` takes no singular names: `day` measures nothing, even on an
      Invalid receiver or against an Invalid argument, while `days` asks
      the library. */
  lemma DiffNeedsPlural(env: Env, g: Gnoment, other: Input, unit: string)
    requires Singular(unit)
    ensures Diff(env, g, other, unit) == Returns(Some(0))
    ensures Diff(env, g, other, UnitLookup(unit)) == Diff(env, g, other, unit + "s")
    ensures g.Valid? ==> Diff(env, g, GnomentInput(Invalid), UnitLookup(unit)) == Throws
  {
    assert !DiffUnit(unit);
  }

  /** Against a wrapper, `diff` measures to the argument's whole second:
      two arguments within the same second give the same difference, and
      that is the difference to a native date of that second. */
  lemma DiffWrapperWholeSeconds(env: Env, a: Zoned, b: Zoned, unit: string, k: int)
    requires DiffUnit(unit) && k * 1000 <= b.epoch < k * 1000 + 1000
    ensures Diff(env, Valid(a), GnomentInput(Valid(b)), unit) == Returns(Some(env.lib.difference(unit, a.epoch, k * 1000)))
    ensures Diff(env, Valid(a), GnomentInput(Valid(b)), unit) == Diff(env, Valid(a), NativeDate(k * 1000), unit)
  {
    UnixFloor(Valid(b), k);
  }

  /** Numbers, native dates and `null` are read as the time values they
      hold, so different numbers are measured separately. */
  lemma DiffNumeric(env: Env, a: Zoned, ms: int, unit: string)
    requires DiffUnit(unit)
    ensures Diff(env, Valid(a), Number(ms), unit) == Returns(Some(env.lib.difference(unit, a.epoch, ms)))
    ensures Diff(env, Valid(a), NativeDate(ms), unit) == Diff(env, Valid(a), Number(ms), unit)
    ensures Diff(env, Valid(a), Null, unit) == Diff(env, Valid(a), Number(0), unit)
    ensures Diff(env, Valid(a), Undefined, unit) == Returns(None)
  {
  }

  /** The state after a mutating call: the receiver as it is left, and the
      value returned. */
  datatype Update = Update(receiver: Gnoment, result: Gnoment)

  /** `add(amount, unit)`. On a valid receiver the instant moves by
      `{[unitLookup(unit)]: amount}`, the receiver is overwritten, and the
      result wraps that same instant. An Invalid receiver stays as it is
      and a new Invalid is returned. */
  function Add(env: Env, g: Gnoment, amount: int, unit: string): (r: Update)
    ensures g.Invalid? ==> r == Update(Invalid, Invalid)
    ensures g.Valid? ==> r.receiver == r.result == Valid(env.lib.add(g.instant, UnitLookup(unit), amount))
  {
    match g
    case Invalid => Update(g, Invalid)
    case Valid(z) =>
      var moved := env.lib.add(z, UnitLookup(unit), amount);
      Update(Valid(moved), Valid(moved))
  }

  /** `subtract(amount, unit)`, shaped like `add`. */
  function Subtract(env: Env, g: Gnoment, amount: int, unit: string): (r: Update)
    ensures g.Invalid? ==> r == Update(Invalid, Invalid)
    ensures g.Valid? ==> r.receiver == r.result == Valid(env.lib.subtract(g.instant, UnitLookup(unit), amount))
  {
    match g
    case Invalid => Update(g, Invalid)
    case Valid(z) =>
      var moved := env.lib.subtract(z, UnitLookup(unit), amount);
      Update(Valid(moved), Valid(moved))
  }

  /** Singular and plural names move the instant alike, and the receiver
      always ends up equal to what is returned. */
  lemma AddUnitNames(env: Env, g: Gnoment, amount: int, unit: string)
    requires Singular(unit)
    ensures Add(env, g, amount, unit) == Add(env, g, amount, unit + "s")
    ensures Subtract(env, g, amount, unit) == Subtract(env, g, amount, unit + "s")
    ensures Add(env, g, amount, unit).receiver == Add(env, g, amount, unit).result
  {
    UnitLookupIdempotent(unit);
  }

  /** `startOf(unit)`: for `year` and `month` the library's boundary, and
      for `day` the receiver's own instant, then the time set to
      00:00:00.000 in that zone. Another unit gives no value (`undefined`);
      an Invalid receiver gives Invalid. The receiver is not changed. */
  function StartOf(env: Env, g: Gnoment, unit: string): (r: Option<Gnoment>)
    ensures g.Invalid? ==> r == Some(Invalid)
    ensures g.Valid? ==> (r.Some? <==> unit == "year" || unit == "month" || unit == "day")
    ensures g.Valid? && r.Some? ==> r.value.Valid? && TimeIs(r.value.instant.wall, 0, 0, 0, 0)
    ensures g.Valid? && unit == "day" ==>
              r.Some? && r.value.instant.zone == g.instant.zone && SameDate(r.value.instant.wall, g.instant.wall)
    ensures g.Valid? && unit == "year" ==> SameDate(r.value.instant.wall, env.lib.startOfYear(g.instant).wall)
    ensures g.Valid? && unit == "month" ==> SameDate(r.value.instant.wall, env.lib.startOfMonth(g.instant).wall)
  {
    match g
    case Invalid => Some(Invalid)
    case Valid(z) =>
      if unit == "year" then Some(Valid(SetTime(env.lib, env.lib.startOfYear(z), 0, 0, 0, 0)))
      else if unit == "month" then Some(Valid(SetTime(env.lib, env.lib.startOfMonth(z), 0, 0, 0, 0)))
      else if unit == "day" then Some(Valid(SetTime(env.lib, z, 0, 0, 0, 0)))
      else None
  }

  /** `endOf(unit)`: as `startOf`, with the library's end boundaries and
      the time 23:59:59.999. */
  function EndOf(env: Env, g: Gnoment, unit: string): (r: Option<Gnoment>)
    ensures g.Invalid? ==> r == Some(Invalid)
    ensures g.Valid? ==> (r.Some? <==> unit == "year" || unit == "month" || unit == "day")
    ensures g.Valid? && r.Some? ==> r.value.Valid? && TimeIs(r.value.instant.wall, 23, 59, 59, 999)
    ensures g.Valid? && unit == "day" ==>
              r.Some? && r.value.instant.zone == g.instant.zone && SameDate(r.value.instant.wall, g.instant.wall)
    ensures g.Valid? && unit == "year" ==> SameDate(r.value.instant.wall, env.lib.endOfYear(g.instant).wall)
    ensures g.Valid? && unit == "month" ==> SameDate(r.value.instant.wall, env.lib.endOfMonth(g.instant).wall)
  {
    match g
    case Invalid => Some(Invalid)
    case Valid(z) =>
      if unit == "year" then Some(Valid(SetTime(env.lib, env.lib.endOfYear(z), 23, 59, 59, 999)))
      else if unit == "month" then Some(Valid(SetTime(env.lib, env.lib.endOfMonth(z), 23, 59, 59, 999)))
      else if unit == "day" then Some(Valid(SetTime(env.lib, z, 23, 59, 59, 999)))
      else None
  }

  /** The start of a day is its own start of day. */
  lemma StartOfDayIdempotent(env: Env, g: Gnoment)
    requires g.Valid?
    ensures StartOf(env, StartOf(env, g, "day").value, "day") == StartOf(env, g, "day")
  {
    var z := g.instant;
    var s := SetTime(env.lib, z, 0, 0, 0, 0);
    assert s.wall.(hour := 0, minute := 0, second := 0, millisecond := 0) == s.wall;
  }

  /** The day's start and end fall on the receiver's date, and the start's
      fields sort before the end's. */
  lemma DayBoundsOrdered(env: Env, g: Gnoment)
    requires g.Valid?
    ensures var s, e := StartOf(env, g, "day").value.instant, EndOf(env, g, "day").value.instant;
            SameDate(s.wall, e.wall) && WallBefore(s.wall, e.wall)
  {
  }

  /** Boundaries and units: `week` and the plural `days` are not
      boundary units. */
  lemma BoundaryUnits(env: Env, g: Gnoment)
    requires g.Valid?
    ensures StartOf(env, g, "week").None? && StartOf(env, g, "days").None?
    ensures EndOf(env, g, "week").None? && EndOf(env, g, "days").None?
  {
  }

  /** `unix()`: whole seconds, rounded down (`Math.floor`); reading the
      instant of an Invalid value throws. */
  function Unix(g: Gnoment): (r: Outcome<int>)
    ensures r.Throws? <==> g.Invalid?
    ensures r.Returns? ==> r.value * 1000 <= g.instant.epoch < r.value * 1000 + 1000
  {
    match g
    case Invalid => Throws
    case Valid(z) => Returns(z.epoch / 1000)
  }

  /** `valueOf()`: `unix()` of a fresh wrapper, times 1000, so the
      milliseconds are lost. */
  function ValueOf(g: Gnoment): (r: Outcome<int>)
    ensures r.Throws? <==> g.Invalid?
    ensures r.Returns? ==> r.value % 1000 == 0 && r.value <= g.instant.epoch < r.value + 1000
  {
    match Unix(g)
    case Throws => Throws
    case Returns(s) => Returns(s * 1000)
  }

  /** `unix` is the unique whole-second count below the instant, and
      `valueOf` puts it back into milliseconds. */
  lemma UnixFloor(g: Gnoment, k: int)
    requires g.Valid? && k * 1000 <= g.instant.epoch < k * 1000 + 1000
    ensures Unix(g) == Returns(k)
    ensures ValueOf(g) == Returns(k * 1000)
  {
  }
}
