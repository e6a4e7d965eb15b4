# gnoment in Dafny

A model of the core of gnoment, a moment-style date wrapper whose values
hold one zoned instant (or nothing, for an invalid date). The model covers:

- the flexible string parser `parseFlexibleDate` and its three branches;
- the `Gnoment` constructor's dispatch on the shape of its argument, validity,
  and the static entry points `gnoment.tz`, `gnoment.utc` and `gnoment.unix`;
- the five comparisons and unit-less `isBetween`;
- `unitLookup`, `diff`, `add`, `subtract`, `startOf` and `endOf`;
- `tz()`, `utc()`, `unix()`, `valueOf()` and the offset printer
  `convertOffsetToHoursMinutes`;
- `format` (macros, the token table's string post-processing, the single
  left-to-right regex substitution), `toString` and `toJSON`.

The date library, `Intl` and the native `Date` getters are not modelled as
code. They are function-valued fields of `Host.Library`. The default zone,
the host's local zone and the clock are fields of `Host.Env`.

A zoned instant (`Values.Zoned`) carries its wall-clock fields, its zone,
its epoch in milliseconds and its UTC offset. Re-zoning keeps the epoch, and
comparison is the sign of the epoch difference. JavaScript exceptions are
`Results.Outcome.Throws`, and `undefined` results are `Results.Option.None`.

Files and modules:

| file | module | covers |
|---|---|---|
| `results.dfy` | `Results` | `Option`, `Outcome` |
| `values.dfy` | `Values` | wall-clock fields, zoned instants, `Gnoment`, constructor inputs |
| `host.dfy` | `Host` | the library record and the date operations built on it |
| `text.dfy` | `Text` | JavaScript string helpers: `replace`, `padStart`, `String(n)`, `split`, `toLowerCase` |
| `parse.dfy` | `Parse` | `parseFlexibleDate` |
| `construct.dfy` | `Construct` | constructor, `tz`/`utc`/`unix` statics, `tz()`, `utc()` |
| `offset.dfy` | `Offset` | `convertOffsetToHoursMinutes` and the `ZZ`/`Z` tokens |
| `scanner.dfy` | `Scanner` | the token regex and the substitution pass |
| `fields.dfy` | `Fields` | post-processing of each `Intl` rendering |
| `format.dfy` | `Formatting` | `format`, `toString`, `toJSON` |
| `compare.dfy` | `Comparisons` | comparisons and `isBetween` |
| `arith.dfy` | `Arithmetic` | units, `diff`, `add`/`subtract`, boundaries, `unix`/`valueOf` |

Places where the code's behaviour departs from moment.js; the model
follows the code:

- The ordinal suffix is chosen by the last digit alone, with no exception
  for 11 to 13. So the 11th prints `11st` (`Fields.OrdinalPeriodic`).
- The `Z` token prints `Z` for a zero offset rather than `+00:00`
  (`Offset.ZuluOnlyAtZero`).
- The `l` macros are expanded before escapes are recognised, so `[l]`
  prints `M/D/YYYY` rather than the letter `l`
  (`Formatting.FormatMacroInEscape`).
- The `z` token falls back to the default zone, not the zone being shown,
  when `Intl` gives no short zone name.
- `YYYY` pads only a one-character year to four digits. Years 10 to 999
  keep two or three digits (`Fields.YearKeepsValue`).
- `SSS` is never padded. It is the text between the first and the second
  `.` of the rendering, or `000` when that text is missing or empty
  (`Fields.MillisText`).
- `ZZ` and `Z` print the receiver's own offset, even when `format` is given
  another zone (`Formatting.OffsetIgnoresZoneArgument`).
- A numeric offset such as `+05:00` does not select the absolute parser.
  Only a `Z` does (`Parse.NumericOffsetIsLocal`).

## Model

| member | source | states |
|---|---|---|
| Parse.RewriteSeparator | gnoment.js:93-95 | only index 10 may change; a space there becomes `T` exactly when the text is longer than 11 characters |
| Parse.RewriteIdempotent | gnoment.js:93-95 | rewriting the separator twice is the same as once |
| Parse.Classify | gnoment.js:77-98 | date-only iff the length is 10; otherwise absolute iff a `Z` occurs; otherwise local, with the separator-rewritten text |
| Parse.NumericOffsetIsLocal | gnoment.js:83-87 | `+05:00` and `-05:00` offsets go to the local-date-time parser unchanged |
| Parse.SampleInputs | gnoment.js:77-98 | the branch taken by a date, a `Z` timestamp, `T`- and space-separated local times, and a 10-character text containing `Z` |
| Parse.ParseFlexible | gnoment.js:75-100 | result is in the requested zone; it throws iff the chosen parser fails; a date is pinned to midnight with its calendar fields; an absolute timestamp keeps the parsed epoch; a local time keeps the parsed wall fields |
| Parse.NonAbsoluteIsWallBound | gnoment.js:75-100 | a non-absolute parse is unchanged by re-binding its wall fields to the same zone |
| Construct.FromNativeDate | gnoment.js:134-143 | a native date keeps its host-local date and time to the second, drops milliseconds, and is bound to the default zone |
| Construct.New | gnoment.js:126-151 | only a string can throw, exactly when parsing fails; invalid iff the input is null, a number, unrecognised or an invalid wrapper; `undefined` is now in the default zone; strings keep their parsed wall fields in the default zone; a native date keeps its host-local clock to the second in the default zone; a calendar date is its midnight in the default zone; zoned values and wrappers are kept as they are |
| Construct.IsValid | gnoment.js:226-231 | valid exactly when the wrapper holds an instant; stated through `Construct.New`'s validity clause |
| Construct.ToZoneOf | gnoment.js:370-373 | `tz(zone)` keeps the instant and sets the zone; invalid stays invalid |
| Construct.Utc | gnoment.js:169-173 | `utc()` keeps the instant in zone `UTC`; invalid stays invalid |
| Construct.StaticUtc | gnoment.js:121-123 | `gnoment.utc(d)` throws iff construction throws, is valid iff the constructed value is, and keeps its instant in `UTC` |
| Construct.StaticTz | gnoment.js:103-113 | with a string date and a zone, the parse in that zone; a non-string date with a zone throws; with a zone alone, now in that zone; with any other arity, invalid; only the two-argument forms can throw |
| Construct.TzAgreesWithConstructor | gnoment.js:103-133 | for dates and local times, `gnoment.tz(text, defaultZone)` equals `gnoment(text)` |
| Construct.TzAgreesWithConstructorAbsolute | gnoment.js:103-133 | for absolute timestamps the two agree when the zone reads the instant's wall clock back to the same instant |
| Construct.Truncate | gnoment.js:537 | the time value `new Date` takes from `d * 1000` is its integer part, rounding toward zero on both sides of zero |
| Construct.FromUnix | gnoment.js:533-538 | `undefined` gives invalid and nothing else does; a number of seconds, fractions included, becomes a native date of `d * 1000` ms truncated toward zero, in the default zone |
| Construct.UnixNullIsEpoch | gnoment.js:536-537 | `gnoment.unix(null)` is `gnoment.unix(0)` |
| Construct.UnixMilliseconds | gnoment.js:533-538 | whole seconds give `n * 1000` ms; `1.5` gives 1500, `-0.5` gives -500 and `0.0005` gives 0 |
| Host.ToZone | gnoment.js:371 | re-zoning keeps the epoch and sets the zone |
| Host.ToZoneRoundTrip | gnoment.js:171 | going to another zone and back gives the original presentation |
| Host.SetTime | gnoment.js:337 | setting the time keeps the zone and the date, and sets exactly the requested time fields |
| Host.Compare | gnoment.js:236 | the sign of `compare` is the order of the two epochs, whatever the zones |
| Offset.SignPart | gnoment.js:209 | `+` iff the offset is non-negative |
| Offset.HoursPart | gnoment.js:210 | at least two decimal digits |
| Offset.MinutesPart | gnoment.js:211-215 | the minutes field is at least two characters |
| Offset.OffsetString | gnoment.js:207-216 | at least six characters, starting with the sign of the offset |
| Offset.OffsetRoundTrip | gnoment.js:207-216 | for whole-minute offsets under 100 hours the text is `sHH:mm` with minutes below 60, and reads back to the offset |
| Offset.OffsetCanonical | gnoment.js:207-216 | every well-formed `sHH:mm` with minutes below 60, except `-00:00`, is what the printer writes for its value |
| Offset.Compact | gnoment.js:509 | `ZZ` is sign, hours and minutes with the first colon removed |
| Offset.CompactIsFiveChars | gnoment.js:509 | for six-character offsets `ZZ` is the five characters `sHHmm` |
| Offset.Zulu | gnoment.js:510 | offset zero prints `Z` |
| Offset.ZuluAwayFromZero | gnoment.js:510 | a non-zero six-character offset is never `+00:00`, so it prints unchanged |
| Offset.ZuluOnlyAtZero | gnoment.js:510 | `Z` is `Z` exactly at offset zero, and the `sHH:mm` text otherwise |
| Scanner.Spelling | gnoment.js:519 | every token is one to four characters |
| Scanner.SpellingInitial | gnoment.js:519 | every spelling starts with one of `YMDdHhmsSAaZz` |
| Scanner.SpellingInjective | gnoment.js:519 | different tokens have different spellings |
| Scanner.FirstToken | gnoment.js:519 | the alternation's choice is a token whose spelling starts the text |
| Scanner.FirstTokenComplete | gnoment.js:519 | the alternation fails only where no spelling starts the text |
| Scanner.FirstTokenEarliest | gnoment.js:519 | no alternative listed before the chosen one starts the text |
| Scanner.LongerListedFirst | gnoment.js:519 | of two spellings with the same first letter, the longer is listed first |
| Scanner.LongestMatch | gnoment.js:519 | leftmost-first alternation picks the longest spelling that starts the text |
| Scanner.Match | gnoment.js:519 | a first-letter dispatch that only returns a token its spelling prefixes |
| Scanner.MatchLongest | gnoment.js:519 | the dispatch finds a token wherever one starts the text, and the longest one |
| Scanner.MatchIsAlternation | gnoment.js:519 | the first-letter dispatch equals the regex alternation on every text |
| Scanner.EscapeEnd | gnoment.js:519 | the escape `[…]` matches exactly when a `]` follows a non-empty run without `]` |
| Scanner.Step | gnoment.js:518-521 | each step consumes a non-empty prefix, and the piece's text is that prefix |
| Scanner.Scan | gnoment.js:518-521 | the scan yields no more pieces than the pattern has characters, and none only for the empty pattern |
| Scanner.ScanLossless | gnoment.js:518-521 | joining the matched pieces gives back the pattern |
| Scanner.ExpandStep | gnoment.js:518-521 | `Expand`, the substitution, emits the replacement of the match at the start and then substitutes the text after the match |
| Scanner.EmptyBrackets | gnoment.js:519-520 | `[]` is not an escape: both brackets are kept as text |
| Scanner.ExpandToken | gnoment.js:518-521 | a token followed by a non-token letter expands to its table entry |
| Scanner.ExpandTokenAnywhere | gnoment.js:518-521 | a token that no spelling extends expands to its table entry whatever follows |
| Scanner.ExpandLiteral | gnoment.js:518-521 | a character outside the token alphabet is copied |
| Scanner.ExpandEscape | gnoment.js:519-520 | an escape prints the text between its brackets |
| Scanner.PlainTextUnchanged | gnoment.js:518-521 | text free of token letters and `[` passes through unchanged |
| Scanner.ReplaceTokens | gnoment.js:518-521 | the global-replace loop (match, emit, continue after the match) computes the substitution |
| Fields.DateEnding | gnoment.js:389-400 | the suffix is always two characters |
| Fields.OrdinalByLastDigit | gnoment.js:389-400 | the suffix is read off the last written digit: 1 `st`, 2 `nd`, 3 `rd`, else `th` |
| Fields.OrdinalPeriodic | gnoment.js:389-400 | days ten apart share a suffix, and 11, 12 and 13 read `st`, `nd` and `rd` |
| Fields.YearText | gnoment.js:421 | a one-character year is padded to `000d`; any other year text is kept |
| Fields.YearKeepsValue | gnoment.js:415-421 | a year printed in decimal keeps its value and digits through `YYYY`; only years below 10 become four characters |
| Fields.TwoDigitHourFixed | gnoment.js:441-447 | `HH` maps a two-digit hour up to 24 to the hour modulo 24 |
| Fields.NumericHourFixed | gnoment.js:448-454 | `H` maps an hour up to 24 to the hour modulo 24 |
| Fields.StripMeridiem | gnoment.js:455-468 | removing ` AM`/` PM` never lengthens the text |
| Fields.MeridiemStripped | gnoment.js:455-468 | `hour + " AM"` or `hour + " PM"` gives back the hour digits |
| Fields.Meridiem | gnoment.js:492-498 | the meridiem is missing exactly when the rendering has no ASCII space |
| Fields.MeridiemOfClock | gnoment.js:492-498 | the meridiem of `hour + " " + m` is `m` |
| Fields.MillisText | gnoment.js:483-489 | `000` when there is no `.`; never empty |
| Fields.MillisOfClock | gnoment.js:483-489 | a rendering ending in `.` and three digits gives those digits |
| Formatting.MacroFree | gnoment.js:515-517 | `ExpandMacros` leaves a pattern without `L` or `l` untouched |
| Formatting.MacroFirstOnly | gnoment.js:515-517 | in a pattern without `l`, the first `LL` becomes `MMMM D, YYYY` and every later `LL` stays |
| Formatting.LongMacro | gnoment.js:515-517 | an `ll` in otherwise macro-free text becomes `MMM D, YYYY` whole, before the `l` rule can split it |
| Formatting.LoneMacro | gnoment.js:515-517 | a single `l` in otherwise macro-free text becomes `M/D/YYYY` wherever it stands |
| Formatting.MacroInsideEscape | gnoment.js:515-517 | an `l` between brackets is expanded too: macros run before escapes are recognised |
| Formatting.FormatMacroInEscape | gnoment.js:515-521 | `[a l b]` prints `a M/D/YYYY b` literally, not the date |
| Formatting.TokenText | gnoment.js:419-512 | `mm` and `ss` are at least two characters; `a` is as long as the meridiem; `ZZ` is at least five characters; `Z` at offset zero is `Z`; `z` is empty only if the default zone is |
| Formatting.ShownZone | gnoment.js:379-383 | the zone argument if non-empty, else the instant's own zone |
| Formatting.PatternOf | gnoment.js:380-382 | the pattern if non-empty, else `YYYY-MM-DDTHH:mm:ssZ` |
| Formatting.Format | gnoment.js:375-522 | invalid gives `Invalid date`; a valid value throws iff the 12-hour rendering in the shown zone has no ASCII space |
| Formatting.FormatDefaults | gnoment.js:379-383 | absent, empty and default patterns agree; absent, empty and own zones agree |
| Formatting.FormatPlainText | gnoment.js:518-521 | a pattern with no token letters, brackets or macro letters prints as itself |
| Formatting.FormatEscaped | gnoment.js:518-521 | a bracketed escape prints its contents, token letters included |
| Formatting.FormatToken | gnoment.js:419-521 | a one-token pattern prints that token's table entry |
| Formatting.OffsetIgnoresZoneArgument | gnoment.js:509-510 | `ZZ` and `Z` print the receiver's own offset whatever zone is passed |
| Formatting.FormatHourWraps | gnoment.js:441-447 | `HH` prints a host hour of 24 as `00` and leaves other hours alone |
| Formatting.ToString | gnoment.js:197-205 | invalid gives `Invalid date`; a valid value is formatted with `ddd MMM DD YYYY HH:mm:ss [GMT]ZZ` in its own zone |
| Formatting.ToJson | gnoment.js:524-526 | the UTC view of the instant, formatted with `YYYY-MM-DDTHH:mm:ss.SSSZ` |
| Formatting.ToJsonZoneFree | gnoment.js:524-526 | the JSON text depends only on the instant: re-zoning or taking the UTC view first changes nothing |
| Comparisons.IsSame | gnoment.js:234-237 | invalid receiver gives false; an invalid argument throws; otherwise equal epochs |
| Comparisons.IsSameOrBefore | gnoment.js:239-242 | the same, with epoch `<=` |
| Comparisons.IsBefore | gnoment.js:244-247 | the same, with epoch `<` |
| Comparisons.IsSameOrAfter | gnoment.js:249-252 | the same, with epoch `>=` |
| Comparisons.IsAfter | gnoment.js:254-257 | the same, with epoch `>` |
| Comparisons.Trichotomy | gnoment.js:234-257 | for valid values exactly one of before, same and after holds |
| Comparisons.InclusiveIsStrictOrSame | gnoment.js:234-257 | the inclusive comparisons are the strict one or sameness, and throw in the same cases |
| Comparisons.Converse | gnoment.js:244-257 | before is after with the operands swapped; sameness is symmetric |
| Comparisons.IsBetween | gnoment.js:259-278 | invalid receiver gives false; a bound whose construction throws, or that is invalid, makes it throw; otherwise each end is inclusive iff its bracket is `[` or `]` |
| Comparisons.BetweenDefaultExclusive | gnoment.js:259-278 | `()` excludes both ends and `[]` includes both |
| Comparisons.BetweenItself | gnoment.js:259-278 | a value lies in its own closed interval but not in its open one |
| Arithmetic.UnitLookup | gnoment.js:300-311 | the four singular units gain an `s`; any other unit is passed through |
| Arithmetic.UnitLookupIdempotent | gnoment.js:300-311 | looking up twice is looking up once |
| Arithmetic.DateArgument | gnoment.js:180-182 | `new Date(x)`: throws exactly for an invalid wrapper (through `valueOf`); a valid wrapper gives its whole-second time value |
| Arithmetic.Diff | gnoment.js:281-297 | any unit but `years`/`months`/`weeks`/`days` gives 0; a known unit throws iff the receiver or the argument is an invalid wrapper; it is `NaN` exactly when the argument has no time value; otherwise it is the library difference from the receiver's instant to the argument's time value |
| Arithmetic.DiffNeedsPlural | gnoment.js:281-297 | singular units give 0 even on an invalid receiver; their plurals ask the library; a plural unit with an invalid wrapper argument throws |
| Arithmetic.DiffWrapperWholeSeconds | gnoment.js:281-297 | a wrapper argument is read at its whole second: it acts as the native date of that second |
| Arithmetic.DiffNumeric | gnoment.js:281-297 | a number and a native date with the same milliseconds agree, `null` is the epoch, and `undefined` gives `NaN` |
| Arithmetic.Add | gnoment.js:318-323 | invalid gives invalid and leaves the receiver; otherwise receiver and result both hold the instant moved by the looked-up unit |
| Arithmetic.Subtract | gnoment.js:325-330 | the same, moving backwards |
| Arithmetic.AddUnitNames | gnoment.js:318-330 | singular and plural units move alike, and the receiver is left equal to the result |
| Arithmetic.StartOf | gnoment.js:332-349 | invalid gives invalid; `year`, `month` and `day` give a valid value at 00:00:00.000 on the boundary's date (the receiver's own date and zone for `day`); any other unit gives undefined |
| Arithmetic.EndOf | gnoment.js:351-368 | the same at 23:59:59.999, with the end-of-year and end-of-month boundaries |
| Arithmetic.StartOfDayIdempotent | gnoment.js:343-346 | the start of a day's start is that start |
| Arithmetic.DayBoundsOrdered | gnoment.js:332-368 | the day's start and end share the receiver's date, and the start's fields come first |
| Arithmetic.BoundaryUnits | gnoment.js:332-368 | `week` and `days` have no boundary |
| Arithmetic.Unix | gnoment.js:175-178 | throws iff invalid; otherwise the whole seconds at or below the epoch |
| Arithmetic.ValueOf | gnoment.js:180-182 | throws iff invalid; otherwise a multiple of 1000 within the second below the epoch |
| Arithmetic.UnixFloor | gnoment.js:175-182 | the second count is the unique `k` with `k * 1000 <= epoch < k * 1000 + 1000` |

## Left out

- The calendar and zone arithmetic of the date library: zone rules, daylight-saving gaps and overlaps, and the calendar moves of `add`, `startOfYear` and the like. These are the `Host.Library` fields, and the model places no constraint on them beyond their types.
- What `Intl` renders for each field. The renderings are the `intl` field, and only the wrapper's post-processing of them is modelled.
- The clock, the default zone set by `gnoment.tz.setDefault`, and the host's local zone. They are the `Host.Env` fields.
- `isBetween` with a unit argument. It calls `startOf` on a raw library value, which belongs to the library.
- `year()`, `normalize`, the inspect hook, `toCalendarDate` and the other accessors, `clone`, `getOffset`, `isGnoment`, and the range adapters. They are outside the core.
- Comparison arguments that are not wrapper values, such as a string passed to `isBefore`. These are not modelled.
- Native dates holding `NaN`, numbers outside the `Date` range, and the time clip of `new Date`. A `NaN` difference is modelled as `None`; a time value is any integer.
- Arithmetic.UnitLookup: the source tests unit names with `in`, which also accepts keys inherited from `Object.prototype` such as `toString`. The model treats those as unknown units.
- Fields.StripMeridiem, Text.Lower: only ASCII letters are case-mapped, and the ` AM`/` PM` strip matches ASCII spaces only.
- Formatting.Format: an unknown zone name makes `Intl.DateTimeFormat` throw a `RangeError` (the zone passed to `toDate` is ignored, since `ZonedDateTime.toDate()` takes no argument); the model takes every zone name as known. Its own contract states the invalid and throwing cases only. The printed text is stated by `FormatToken`, `FormatPlainText`, `FormatEscaped` and the scanner lemmas, and is not proved as a whole for the fixed default, `toString` and `toJSON` patterns.
- `gnoment.tz(date, undefined)`: an explicit `undefined` zone takes the parser's default zone `UTC`. The model's zone argument is always a string.
- The `timeOptions` branch for an empty zone. The shown zone is never empty once the instant's own zone is substituted.
- Offset.MinutesPart: offsets that are not a whole number of minutes are printed by JavaScript's number-to-string conversion, which the model leaves to the `showMinutes` parameter.
- Host.FromWall, Host.SetTime: the wall clock is the requested reading. In a daylight-saving gap the library moves it forward, and the model does not tie `wall` to `wallAt(zone, epoch)`.
- Construct.ToZoneOf: an unknown zone name makes `toZoned` throw a `RangeError`. The model takes every zone name as known.
- Construct.StaticTz: an unknown zone name throws a `RangeError`, with a zone alone in `toZoned` and with a date and a zone in the parse (see `Parse.ParseFlexible`). The model takes every zone name as known, so it returns a value in both forms.
- Parse.ParseFlexible: an unknown zone name makes `toZoned` (date and local branches) or `parseAbsolute` (absolute branch) throw a `RangeError`. The model takes every zone name as known, so "throws iff the chosen parser fails" holds only for known zones.
- Construct.FromUnix: `d * 1000` is computed exactly on reals, not in double precision, so rounding of the product is not modelled.
- Parse.Classify: JavaScript's `length` and indices count UTF-16 code units, while a Dafny `char` is a Unicode scalar value. Text outside the Basic Multilingual Plane and lone surrogates are not modelled.
