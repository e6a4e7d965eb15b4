/** `format`, `toString` and `toJSON`: the three macro rewrites, the token
    table built from the host's renderings of one instant, and the single
    substitution pass of the scanner. */
module Formatting {
  import opened Results
  import opened Values
  import opened Host
  import opened Text
  import opened Scanner
  import opened Fields
  import opened Offset
  import opened Construct

  /** The pattern used when `format` is given none (or an empty one). */
  const DefaultPattern: string := "YYYY-MM-DDTHH:mm:ssZ"

  /** The pattern `toString` formats with. */
  const StringPattern: string := "ddd MMM DD YYYY HH:mm:ss [GMT]ZZ"

  /** The pattern `toJSON` formats the UTC view with. */
  const JsonPattern: string := "YYYY-MM-DDTHH:mm:ss.SSSZ"

  /** The macros: `LL`, then `ll`, then `l`, each replacing only its first
      occurrence, anywhere in the text (escapes included). */
  function ExpandMacros(fmt: string): string {
    var a := ReplaceFirst(fmt, "LL", "MMMM D, YYYY");
    var b := ReplaceFirst(a, "ll", "MMM D, YYYY");
    ReplaceFirst(b, "l", "M/D/YYYY")
  }

  /** A pattern whose first character never occurs does not occur at all. */
  lemma PatternAbsent(s: string, pat: string)
    requires |pat| > 0 && pat[0] !in s
    ensures forall j :: !OccursAt(s, pat, j)
  {
    forall j ensures !OccursAt(s, pat, j) {
      if 0 <= j && j + |pat| <= |s| {
        assert s[j..j + |pat|][0] == s[j];
      }
    }
  }

  /** Text without `L` or `l` is left alone by the macro rewrites. */
  lemma MacroFree(fmt: string)
    requires 'L' !in fmt && 'l' !in fmt
    ensures ExpandMacros(fmt) == fmt
  {
    PatternAbsent(fmt, "LL");
    PatternAbsent(fmt, "ll");
    PatternAbsent(fmt, "l");
  }

  /** Only the first `LL` is a macro: in a pattern without `l`, the first
      `LL` becomes `MMMM D, YYYY` and everything after it, later `LL`s
      included, stays as it is. */
  lemma MacroFirstOnly(s: string, i: nat)
    requires FirstAt(s, "LL", i) && 'l' !in s
    ensures ExpandMacros(s) == s[..i] + "MMMM D, YYYY" + s[i + 2..]
  {
    var a := s[..i] + "MMMM D, YYYY" + s[i + 2..];
    assert ReplaceFirst(s, "LL", "MMMM D, YYYY") == a;
    assert 'l' !in a by {
      assert 'l' !in "MMMM D, YYYY";
      assert 'l' !in s[..i] && 'l' !in s[i + 2..];
    }
    PatternAbsent(a, "ll");
    PatternAbsent(a, "l");
  }

  /** A lone `l` in otherwise macro-free text is the `M/D/YYYY` macro,
      wherever it stands. */
  lemma LoneMacro(pre: string, post: string)
    requires 'L' !in pre && 'l' !in pre && 'L' !in post && 'l' !in post
    ensures ExpandMacros(pre + "l" + post) == pre + "M/D/YYYY" + post
  {
    var s := pre + "l" + post;
    var k := |pre|;
    assert s[..k] == pre && s[k + 1..] == post && s[k] == 'l';
    assert forall j :: 0 <= j < |s| && j != k ==> s[j] != 'l' && s[j] != 'L' by {
      forall j | 0 <= j < |s| && j != k ensures s[j] != 'l' && s[j] != 'L' {
        if j < k {
          assert s[j] == pre[j];
        } else {
          assert s[j] == post[j - k - 1];
        }
      }
    }
    PatternAbsent(s, "LL");
    forall j | 0 <= j && j + 2 <= |s| ensures !OccursAt(s, "ll", j) {
      if j == k {
        assert s[j..j + 2][1] == s[k + 1];
      } else {
        assert s[j..j + 2][0] == s[j];
      }
    }
    assert OccursAt(s, "l", k) by {
      assert s[k..k + 1] == [s[k]];
    }
    forall j | 0 <= j < k ensures !OccursAt(s, "l", j) {
      assert s[j..j + 1] == [s[j]];
    }
    assert FirstAt(s, "l", k);
  }

  /** An `ll` in otherwise macro-free text is the `MMM D, YYYY` macro: it is
      replaced whole, before the `l` rule could take its first letter. */
  lemma LongMacro(pre: string, post: string)
    requires 'L' !in pre && 'l' !in pre && 'L' !in post && 'l' !in post
    ensures ExpandMacros(pre + "ll" + post) == pre + "MMM D, YYYY" + post
  {
    var s := pre + "ll" + post;
    var k := |pre|;
    assert s[..k] == pre && s[k + 2..] == post;
    assert 'L' !in s by {
      assert 'L' !in "ll";
    }
    PatternAbsent(s, "LL");
    assert OccursAt(s, "ll", k) by {
      assert s[k..k + 2] == "ll";
    }
    forall j | 0 <= j < k ensures !OccursAt(s, "ll", j) {
      assert s[j] == pre[j];
      assert s[j..j + 2][0] == s[j];
    }
    assert FirstAt(s, "ll", k);
    var a := pre + "MMM D, YYYY" + post;
    assert ReplaceFirst(s, "ll", "MMM D, YYYY") == a;
    assert 'l' !in a by {
      assert 'l' !in "MMM D, YYYY";
    }
    PatternAbsent(a, "l");
  }

  /** Macros are rewritten before escapes are recognised, so brackets do not
      protect them: an `l` inside an escape is expanded first. */
  lemma MacroInsideEscape(a: string, b: string)
    requires 'L' !in a && 'l' !in a && 'L' !in b && 'l' !in b
    ensures ExpandMacros("[" + a + "l" + b + "]") == "[" + a + "M/D/YYYY" + b + "]"
  {
    LoneMacro("[" + a, b + "]");
    assert "[" + a + "l" + b + "]" == ("[" + a) + "l" + (b + "]");
    assert ("[" + a) + "M/D/YYYY" + (b + "]") == "[" + a + "M/D/YYYY" + b + "]";
  }

  /** The zone a format call renders in: the argument when it is a
      non-empty string, otherwise the instant's own zone. */
  function ShownZone(z: Zoned, zone: Option<string>): (r: string)
    ensures zone.Some? && zone.value != "" ==> r == zone.value
    ensures zone.None? || zone.value == "" ==> r == z.zone
  {
    if zone.None? || zone.value == "" then z.zone else zone.value
  }

  /** What one token renders as, for the instant `z` shown in `shown`, given
      the meridiem read from the 12-hour rendering. */
  function TokenText(env: Env, z: Zoned, shown: string, meridiem: string, t: Token): (r: string)
    ensures t == Minute2 || t == Second2 ==> |r| >= 2
    ensures t == MeridiemLower ==> |r| == |meridiem|
    ensures t == OffsetCompact ==> |r| >= 5
    ensures t == OffsetColon && z.offset == 0 ==> r == "Z"
    ensures t == ZoneAbbr ==> r != "" || env.defaultZone == ""
  {
    var intl := (f: Field) => env.lib.intl(f, z.epoch, shown);
    match t
    case YearFull => YearText(intl(YearNumeric))
    case Year2 => intl(Year2Digit)
    case MonthLong => intl(MonthName)
    case MonthShort => intl(MonthAbbrev)
    case Month2 => intl(Month2Digit)
    case Month => intl(MonthNumeric)
    case Day2 => intl(Day2Digit)
    case DayOrdinal => intl(DayNumeric) + DateEnding(env.lib.wallAt(env.hostZone, z.epoch).day)
    case Day => intl(DayNumeric)
    case WeekdayLong => intl(WeekdayName)
    case WeekdayShort => intl(WeekdayAbbrev)
    case Hour24Padded => ReplaceAll(intl(Hour2Digit24), "24", "00")
    case Hour24 => ReplaceAll(intl(HourNumeric24), "24", "0")
    case Hour12Padded => StripMeridiem(intl(Hour2Digit12))
    case Hour12 => StripMeridiem(intl(HourNumeric12))
    case Minute2 => PadStart(intl(Minute2Digit), 2, '0')
    case Minute => intl(MinuteNumeric)
    case Second2 => PadStart(intl(Second2Digit), 2, '0')
    case Second => intl(SecondNumeric)
    case Millis => MillisText(intl(FractionalSeconds3))
    case MeridiemUpper => meridiem
    case MeridiemLower => Lower(meridiem)
    case OffsetCompact => Compact(z.offset, env.lib.showMinutes)
    case OffsetColon => Zulu(z.offset, env.lib.showMinutes)
    case ZoneAbbr =>
      var name := intl(ZoneNameShort);
      if name == "" then env.defaultZone else name
  }

  /** The pattern a format call uses: the argument when it is a non-empty
      string, otherwise the default pattern. */
  function PatternOf(fmt: Option<string>): (r: string)
    ensures fmt.Some? && fmt.value != "" ==> r == fmt.value
    ensures fmt.None? || fmt.value == "" ==> r == DefaultPattern
  {
    if fmt.None? || fmt.value == "" then DefaultPattern else fmt.value
  }

  /** The token table of one format call. */
  function TableOf(env: Env, z: Zoned, shown: string, meridiem: string): Token -> string {
    t => TokenText(env, z, shown, meridiem, t)
  }

  /** `format(fmt, zone)`. An Invalid receiver gives "Invalid date". Every
      table entry is computed before the substitution, so a 12-hour
      rendering without an ASCII space makes the `a` entry call
      `toLowerCase` on `undefined`, which throws whatever the pattern. */
  function Format(env: Env, g: Gnoment, fmt: Option<string>, zone: Option<string>): (r: Outcome<string>)
    ensures g.Invalid? ==> r == Returns("Invalid date")
    ensures g.Valid? ==>
              (r.Throws? <==> ' ' !in env.lib.intl(HourNumeric12, g.instant.epoch, ShownZone(g.instant, zone)))
  {
    match g
    case Invalid => Returns("Invalid date")
    case Valid(z) =>
      var shown := ShownZone(z, zone);
      match Meridiem(env.lib.intl(HourNumeric12, z.epoch, shown))
      case None => Throws
      case Some(m) => Returns(Expand(ExpandMacros(PatternOf(fmt)), TableOf(env, z, shown, m)))
  }

  /** The meridiem a successful format of `z` in `zone` reads. */
  function MeridiemOf(env: Env, z: Zoned, zone: Option<string>): Option<string> {
    Meridiem(env.lib.intl(HourNumeric12, z.epoch, ShownZone(z, zone)))
  }

  /** A format of a valid instant that reads a meridiem is the macro
      expansion of its pattern, substituted through the call's table. */
  lemma FormatValid(env: Env, z: Zoned, fmt: Option<string>, zone: Option<string>)
    requires MeridiemOf(env, z, zone).Some?
    ensures Format(env, Valid(z), fmt, zone)
            == Returns(Expand(ExpandMacros(PatternOf(fmt)), TableOf(env, z, ShownZone(z, zone), MeridiemOf(env, z, zone).value)))
  {
  }

  /** An absent or empty pattern means the default pattern, and an absent or
      empty zone means the instant's own zone. */
  lemma FormatDefaults(env: Env, g: Gnoment, fmt: Option<string>, zone: Option<string>)
    ensures Format(env, g, None, zone) == Format(env, g, Some(""), zone) == Format(env, g, Some(DefaultPattern), zone)
    ensures g.Valid? ==> Format(env, g, fmt, None) == Format(env, g, fmt, Some("")) == Format(env, g, fmt, Some(g.instant.zone))
  {
    assert PatternOf(None) == PatternOf(Some("")) == PatternOf(Some(DefaultPattern));
    if g.Valid? {
      assert ShownZone(g.instant, None) == ShownZone(g.instant, Some("")) == ShownZone(g.instant, Some(g.instant.zone));
    }
  }

  /** Plain text, free of token letters, `[`, `L` and `l`, comes out of the
      macros and the substitution as it went in. */
  lemma SubstitutePlain(s: string, table: Token -> string)
    requires forall i :: 0 <= i < |s| ==> s[i] != '[' && !TokenInitial(s[i]) && s[i] != 'L' && s[i] != 'l'
    ensures Expand(ExpandMacros(s), table) == s
  {
    MacroFree(s);
    PlainTextUnchanged(s, table);
  }

  /** A lone escape comes out as the text between its brackets. */
  lemma SubstituteEscaped(text: string, table: Token -> string)
    requires |text| > 0 && ']' !in text && 'L' !in text && 'l' !in text && '[' !in text
    ensures Expand(ExpandMacros("[" + text + "]"), table) == text
  {
    var s := "[" + text + "]";
    MacroFree(s);
    ExpandEscape(text, "", table);
    assert s + "" == s;
    assert Expand("", table) == "";
  }

  /** Plain text is printed as it is. */
  lemma FormatPlainText(env: Env, z: Zoned, s: string, zone: Option<string>)
    requires s != []
    requires forall i :: 0 <= i < |s| ==> s[i] != '[' && !TokenInitial(s[i]) && s[i] != 'L' && s[i] != 'l'
    requires MeridiemOf(env, z, zone).Some?
    ensures Format(env, Valid(z), Some(s), zone) == Returns(s)
  {
    FormatValid(env, z, Some(s), zone);
    SubstitutePlain(s, TableOf(env, z, ShownZone(z, zone), MeridiemOf(env, z, zone).value));
  }

  /** A bracketed escape is printed without its brackets, token letters and
      all. */
  lemma FormatEscaped(env: Env, z: Zoned, text: string, zone: Option<string>)
    requires |text| > 0 && ']' !in text && 'L' !in text && 'l' !in text && '[' !in text
    requires MeridiemOf(env, z, zone).Some?
    ensures Format(env, Valid(z), Some("[" + text + "]"), zone) == Returns(text)
  {
    FormatValid(env, z, Some("[" + text + "]"), zone);
    SubstituteEscaped(text, TableOf(env, z, ShownZone(z, zone), MeridiemOf(env, z, zone).value));
  }

  /** The macro inside an escape, at the level of the substitution. */
  lemma SubstituteMacroInEscape(a: string, b: string, table: Token -> string)
    requires 'L' !in a && 'l' !in a && ']' !in a && 'L' !in b && 'l' !in b && ']' !in b
    ensures Expand(ExpandMacros("[" + a + "l" + b + "]"), table) == a + "M/D/YYYY" + b
  {
    var text := a + "M/D/YYYY" + b;
    MacroInsideEscape(a, b);
    assert ']' !in text by {
      assert ']' !in "M/D/YYYY";
    }
    Enclose(a, "M/D/YYYY", b);
    WholeEscape(text, table);
  }

  lemma Enclose(a: string, m: string, b: string)
    ensures "[" + a + m + b + "]" == "[" + (a + m + b) + "]"
  {
  }

  /** A pattern that is one escape prints the escaped text. */
  lemma WholeEscape(text: string, table: Token -> string)
    requires |text| > 0 && ']' !in text
    ensures Expand("[" + text + "]", table) == text
  {
    ExpandEscape(text, "", table);
    assert "[" + text + "]" + "" == "[" + text + "]";
    assert Expand("", table) == "";
  }

  /** Brackets do not keep the `l` macro out: `[` + a + `l` + b + `]` prints
      the macro's expansion `M/D/YYYY` literally, not the date. */
  lemma FormatMacroInEscape(env: Env, z: Zoned, a: string, b: string, zone: Option<string>)
    requires 'L' !in a && 'l' !in a && ']' !in a && 'L' !in b && 'l' !in b && ']' !in b
    requires MeridiemOf(env, z, zone).Some?
    ensures Format(env, Valid(z), Some("[" + a + "l" + b + "]"), zone) == Returns(a + "M/D/YYYY" + b)
  {
    FormatValid(env, z, Some("[" + a + "l" + b + "]"), zone);
    SubstituteMacroInEscape(a, b, TableOf(env, z, ShownZone(z, zone), MeridiemOf(env, z, zone).value));
  }

  /** No token is spelled with `L` or `l`, so the macros leave a token alone. */
  lemma SpellingMacroFree(t: Token)
    ensures 'L' !in Spelling(t) && 'l' !in Spelling(t)
  {
  }

  /** A lone token, macros and all, comes out as its table entry. */
  lemma SubstituteToken(t: Token, table: Token -> string)
    ensures Expand(ExpandMacros(Spelling(t)), table) == table(t)
  {
    SpellingMacroFree(t);
    MacroFree(Spelling(t));
    ExpandToken(t, "", table);
    assert Spelling(t) + "" == Spelling(t);
  }

  /** A pattern made of one token prints that token's table entry. */
  lemma FormatToken(env: Env, z: Zoned, t: Token, zone: Option<string>)
    requires MeridiemOf(env, z, zone).Some?
    ensures Format(env, Valid(z), Some(Spelling(t)), zone)
            == Returns(TokenText(env, z, ShownZone(z, zone), MeridiemOf(env, z, zone).value, t))
  {
    FormatValid(env, z, Some(Spelling(t)), zone);
    SubstituteToken(t, TableOf(env, z, ShownZone(z, zone), MeridiemOf(env, z, zone).value));
  }

  /** `ZZ` and `Z` print the receiver's own offset: the zone argument of
      `format` does not reach them. */
  lemma OffsetIgnoresZoneArgument(env: Env, z: Zoned, t: Token, zone: Option<string>)
    requires t == OffsetCompact || t == OffsetColon
    requires MeridiemOf(env, z, zone).Some? && MeridiemOf(env, z, None).Some?
    ensures Format(env, Valid(z), Some(Spelling(t)), zone) == Format(env, Valid(z), Some(Spelling(t)), None)
    ensures Format(env, Valid(z), Some(Spelling(t)), zone)
            == Returns(if t == OffsetCompact then Compact(z.offset, env.lib.showMinutes) else Zulu(z.offset, env.lib.showMinutes))
  {
    FormatToken(env, z, t, zone);
    FormatToken(env, z, t, None);
  }

  /** `HH`, for a host that writes hour `h` (0 to 24) with two digits,
      prints the hour modulo 24, so midnight written as `24` prints `00`. */
  lemma FormatHourWraps(env: Env, z: Zoned, t: Token, zone: Option<string>, h: nat)
    requires t == Hour24Padded && h <= 24 && MeridiemOf(env, z, zone).Some?
    requires env.lib.intl(Hour2Digit24, z.epoch, ShownZone(z, zone)) == PadStart(NatToString(h), 2, '0')
    ensures Format(env, Valid(z), Some(Spelling(t)), zone) == Returns(PadStart(NatToString(h % 24), 2, '0'))
  {
    FormatToken(env, z, t, zone);
    TwoDigitHourFixed(h);
  }

  /** `toString()`: the fixed pattern in the instant's own zone, or
      "Invalid date". */
  function ToString(env: Env, g: Gnoment): (r: Outcome<string>)
    ensures g.Invalid? ==> r == Returns("Invalid date")
    ensures g.Valid? ==> r == Format(env, g, Some(StringPattern), None)
  {
    match g
    case Invalid => Returns("Invalid date")
    case Valid(z) =>
      assert ShownZone(z, Some(z.zone)) == ShownZone(z, None);
      Format(env, g, Some(StringPattern), Some(z.zone))
  }

  /** `toJSON()`: the UTC view formatted with milliseconds. */
  function ToJson(env: Env, g: Gnoment): (r: Outcome<string>)
    ensures g.Invalid? ==> r == Returns("Invalid date")
    ensures g.Valid? ==> r == Format(env, Valid(ToZone(env.lib, g.instant, "UTC")), Some(JsonPattern), None)
  {
    Format(env, Utc(env, g), Some(JsonPattern), None)
  }

  /** The JSON text depends only on the instant: re-zoning first, or taking
      the UTC view first, changes nothing. */
  lemma ToJsonZoneFree(env: Env, g: Gnoment, zone: string)
    ensures ToJson(env, ToZoneOf(env, g, zone)) == ToJson(env, g)
    ensures ToJson(env, Utc(env, g)) == ToJson(env, g)
  {
    if g.Valid? {
      var z := g.instant;
      assert ToZone(env.lib, ToZone(env.lib, z, zone), "UTC") == ToZone(env.lib, z, "UTC");
      assert ToZone(env.lib, ToZone(env.lib, z, "UTC"), "UTC") == ToZone(env.lib, z, "UTC");
    }
  }
}
