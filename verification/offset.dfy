/** `convertOffsetToHoursMinutes` and the two format tokens built from it:
    a UTC offset in milliseconds rendered as `+HH:mm` / `-HH:mm` (the
    `time-numoffset` shape of section 5.6 of RFC 3339), `ZZ` without the
    colon, and `Z` with exactly `+00:00` collapsed to `Z`. */
module Offset {
  import opened Results
  import opened Text

  /** Removing the first `sep` from `head + [sep] + tail` when `head` has
      none. */
  lemma RemoveFirstSeparator(head: string, sep: char, tail: string)
    requires sep !in head
    ensures ReplaceFirst(head + [sep] + tail, [sep], "") == head + tail
  {
    var s := head + [sep] + tail;
    var k := |head|;
    assert s[..k] == head && s[k + 1..] == tail;
    assert s[k..k + 1] == [sep];
    forall j | 0 <= j < k ensures !OccursAt(s, [sep], j) {
      assert s[j] == head[j];
      assert s[j..j + 1] == [s[j]];
    }
    assert FirstAt(s, [sep], k);
  }

  function Abs(x: int): nat {
    if x >= 0 then x else -x
  }

  /** The sign is taken from `offset / 60000 >= 0`, so zero is `+`. */
  function SignPart(offsetMs: int): (r: string)
    ensures r == "+" <==> offsetMs >= 0
    ensures r == "+" || r == "-"
  {
    if offsetMs >= 0 then "+" else "-"
  }

  /** Whole hours of the magnitude, at least two digits. */
  function HoursPart(offsetMs: int): (r: string)
    ensures |r| >= 2 && forall i :: 0 <= i < |r| ==> IsDigit(r[i])
  {
    PadStart(NatToString(Abs(offsetMs) / 3600000), 2, '0')
  }

  /** The minutes left over after the whole hours; a non-integral count is
      printed the way JavaScript prints the number, which the model leaves to
      `showMinutes`. */
  function MinutesPart(offsetMs: int, showMinutes: int -> string): (r: string)
    ensures |r| >= 2
  {
    var rem := Abs(offsetMs) % 3600000;
    var minutes := if rem % 60000 == 0 then NatToString(rem / 60000) else showMinutes(rem);
    PadStart(minutes, 2, '0')
  }

  /** `convertOffsetToHoursMinutes(offset)`. */
  function OffsetString(offsetMs: int, showMinutes: int -> string): (r: string)
    ensures |r| >= 6 && (r[0] == '+' <==> offsetMs >= 0) && (r[0] == '+' || r[0] == '-')
  {
    SignPart(offsetMs) + HoursPart(offsetMs) + ":" + MinutesPart(offsetMs, showMinutes)
  }

  /** A whole number of minutes under 100 hours either way: the offsets that
      fit the six-character `sHH:mm` shape. */
  predicate SixCharOffset(offsetMs: int) {
    offsetMs % 60000 == 0 && -100 * 3600000 < offsetMs < 100 * 3600000
  }

  /** Reads a six-character `sHH:mm` back into milliseconds. */
  function ParseOffset(s: string): (r: Option<int>)
    ensures r.Some? ==> |s| == 6 && s[3] == ':' && r.value % 60000 == 0
  {
    if |s| == 6 && (s[0] == '+' || s[0] == '-') && IsDigit(s[1]) && IsDigit(s[2])
       && s[3] == ':' && IsDigit(s[4]) && IsDigit(s[5])
    then
      var minutes := (DigitValue(s[1]) * 10 + DigitValue(s[2])) * 60
                     + DigitValue(s[4]) * 10 + DigitValue(s[5]);
      Some((if s[0] == '-' then -minutes else minutes) * 60000)
    else None
  }

  /** The two-digit minutes field of a six-character offset. */
  function MinutesField(s: string): nat
    requires |s| == 6 && IsDigit(s[4]) && IsDigit(s[5])
  {
    DigitValue(s[4]) * 10 + DigitValue(s[5])
  }

  lemma DigitRoundTrip(d: nat)
    requires d < 10
    ensures DigitValue(DigitChar(d)) == d
  {
  }

  lemma CharRoundTrip(c: char)
    requires IsDigit(c)
    ensures DigitChar(DigitValue(c)) == c
  {
  }

  /** A number below 100 as exactly two digits. */
  function TwoDigitString(n: nat): (r: string)
    requires n < 100
    ensures |r| == 2 && IsDigit(r[0]) && IsDigit(r[1])
  {
    [DigitChar(n / 10), DigitChar(n % 10)]
  }

  /** The six characters `sHH:mm`. */
  function Spell(sign: string, h: nat, m: nat): string
    requires h < 100 && m < 60
  {
    sign + TwoDigitString(h) + ":" + TwoDigitString(m)
  }

  /** Splitting `(h * 60 + m)` minutes into hours and minutes again. */
  lemma SplitMinutes(h: nat, m: nat)
    requires m < 60
    ensures ((h * 60 + m) * 60000) / 3600000 == h
    ensures ((h * 60 + m) * 60000) % 3600000 == m * 60000
    ensures (m * 60000) % 60000 == 0 && (m * 60000) / 60000 == m
  {
    assert (h * 60 + m) * 60000 == h * 3600000 + m * 60000;
    assert 0 <= m * 60000 < 3600000;
  }

  /** The whole hours and leftover whole minutes of a whole-minute magnitude. */
  lemma JoinMinutes(a: nat)
    requires a % 60000 == 0
    ensures (a % 3600000) % 60000 == 0
    ensures ((a / 3600000) * 60 + (a % 3600000) / 60000) * 60000 == a
    ensures (a % 3600000) / 60000 < 60
  {
    var h := a / 3600000;
    var rem := a % 3600000;
    assert a == h * 3600000 + rem;
    assert h * 3600000 == (h * 60) * 60000;
    var q := a / 60000;
    assert a == q * 60000;
    assert rem == (q - h * 60) * 60000;
    assert rem % 60000 == 0;
    assert rem == (rem / 60000) * 60000;
  }

  /** The hours field of a whole-minute offset under 100 hours. */
  lemma HoursDigits(offsetMs: int)
    requires SixCharOffset(offsetMs)
    ensures Abs(offsetMs) / 3600000 < 100
    ensures HoursPart(offsetMs) == TwoDigitString(Abs(offsetMs) / 3600000)
  {
    TwoDigits(Abs(offsetMs) / 3600000);
  }

  /** The minutes field of a whole-minute offset. */
  lemma MinutesDigits(offsetMs: int, showMinutes: int -> string)
    requires offsetMs % 60000 == 0
    ensures (Abs(offsetMs) % 3600000) / 60000 < 60
    ensures MinutesPart(offsetMs, showMinutes) == TwoDigitString((Abs(offsetMs) % 3600000) / 60000)
  {
    JoinMinutes(Abs(offsetMs));
    TwoDigits((Abs(offsetMs) % 3600000) / 60000);
  }

  /** A six-character offset spelled out digit by digit. */
  lemma OffsetDigits(offsetMs: int, showMinutes: int -> string)
    requires SixCharOffset(offsetMs)
    ensures var h := Abs(offsetMs) / 3600000;
            var m := (Abs(offsetMs) % 3600000) / 60000;
            h < 100 && m < 60 && (h * 60 + m) * 60000 == Abs(offsetMs)
            && OffsetString(offsetMs, showMinutes) == Spell(SignPart(offsetMs), h, m)
  {
    JoinMinutes(Abs(offsetMs));
    HoursDigits(offsetMs);
    MinutesDigits(offsetMs, showMinutes);
  }

  /** Decoding the digits the encoder writes. */
  lemma DecodeSpelled(sign: string, h: nat, m: nat)
    requires sign == "+" || sign == "-"
    requires h < 100 && m < 60
    ensures var s := Spell(sign, h, m);
            |s| == 6 && s[3] == ':' && IsDigit(s[4]) && IsDigit(s[5]) && MinutesField(s) == m
            && ParseOffset(s) == Some((if sign == "-" then -(h * 60 + m) else h * 60 + m) * 60000)
  {
    DigitRoundTrip(h / 10);
    DigitRoundTrip(h % 10);
    DigitRoundTrip(m / 10);
    DigitRoundTrip(m % 10);
  }

  /** The value of spelled digits, given the magnitude and sign it must match. */
  lemma SpelledValue(sign: string, h: nat, m: nat, offsetMs: int)
    requires sign == "+" || sign == "-"
    requires h < 100 && m < 60
    requires (sign == "+") == (offsetMs >= 0)
    requires (h * 60 + m) * 60000 == Abs(offsetMs)
    ensures ParseOffset(Spell(sign, h, m)) == Some(offsetMs)
  {
    DecodeSpelled(sign, h, m);
  }

  /** Encoding: a six-character offset, minutes below 60, and decoding gives
      the offset back. */
  lemma OffsetRoundTrip(offsetMs: int, showMinutes: int -> string)
    requires SixCharOffset(offsetMs)
    ensures |OffsetString(offsetMs, showMinutes)| == 6
    ensures OffsetString(offsetMs, showMinutes)[3] == ':'
    ensures var s := OffsetString(offsetMs, showMinutes);
            IsDigit(s[4]) && IsDigit(s[5]) && MinutesField(s) < 60
    ensures ParseOffset(OffsetString(offsetMs, showMinutes)) == Some(offsetMs)
  {
    var h := Abs(offsetMs) / 3600000;
    var m := (Abs(offsetMs) % 3600000) / 60000;
    OffsetDigits(offsetMs, showMinutes);
    DecodeSpelled(SignPart(offsetMs), h, m);
    SpelledValue(SignPart(offsetMs), h, m, offsetMs);
  }

  /** The hours field of a six-character offset string. */
  function HoursField(s: string): nat
    requires |s| == 6 && IsDigit(s[1]) && IsDigit(s[2])
  {
    DigitValue(s[1]) * 10 + DigitValue(s[2])
  }

  /** A parsed offset splits back into the hours and minutes it was read from. */
  lemma ParsedParts(s: string)
    requires ParseOffset(s).Some? && MinutesField(s) < 60
    ensures var o := ParseOffset(s).value;
            Abs(o) / 3600000 == HoursField(s) && (Abs(o) % 3600000) / 60000 == MinutesField(s)
            && SixCharOffset(o)
  {
    var h := HoursField(s);
    var m := MinutesField(s);
    assert Abs(ParseOffset(s).value) == (h * 60 + m) * 60000;
    SplitMinutes(h, m);
  }

  /** A well-formed offset string is the spelling of its own fields. */
  lemma SpelledFields(s: string)
    requires ParseOffset(s).Some? && MinutesField(s) < 60
    ensures HoursField(s) < 100 && Spell(s[..1], HoursField(s), MinutesField(s)) == s
  {
    var h := HoursField(s);
    var m := MinutesField(s);
    CharRoundTrip(s[1]);
    CharRoundTrip(s[2]);
    CharRoundTrip(s[4]);
    CharRoundTrip(s[5]);
    assert h / 10 == DigitValue(s[1]) && h % 10 == DigitValue(s[2]);
    assert m / 10 == DigitValue(s[4]) && m % 10 == DigitValue(s[5]);
    assert TwoDigitString(h) == s[1..3] && TwoDigitString(m) == s[4..];
    assert s == s[..1] + s[1..3] + ":" + s[4..];
  }

  /** The sign the encoder writes for a parsed offset, `-00:00` aside. */
  lemma ParsedSign(s: string)
    requires ParseOffset(s).Some? && s != "-00:00"
    ensures SignPart(ParseOffset(s).value) == s[..1]
  {
  }

  /** Decoding then encoding: every well-formed offset string with minutes
      below 60 is exactly what the encoder writes for its value, except
      `-00:00`, which the encoder writes as `+00:00`. */
  lemma OffsetCanonical(s: string, showMinutes: int -> string)
    requires ParseOffset(s).Some? && MinutesField(s) < 60 && s != "-00:00"
    ensures OffsetString(ParseOffset(s).value, showMinutes) == s
  {
    var o := ParseOffset(s).value;
    ParsedParts(s);
    OffsetDigits(o, showMinutes);
    SpelledFields(s);
    ParsedSign(s);
  }

  /** The `ZZ` token: the offset without its colon. */
  function Compact(offsetMs: int, showMinutes: int -> string): (r: string)
    ensures r == SignPart(offsetMs) + HoursPart(offsetMs) + MinutesPart(offsetMs, showMinutes)
  {
    var head := SignPart(offsetMs) + HoursPart(offsetMs);
    RemoveFirstSeparator(head, ':', MinutesPart(offsetMs, showMinutes));
    ReplaceFirst(OffsetString(offsetMs, showMinutes), ":", "")
  }

  /** The `Z` token: the offset, except that exactly `+00:00` becomes `Z`. */
  function Zulu(offsetMs: int, showMinutes: int -> string): (r: string)
    ensures offsetMs == 0 ==> r == "Z"
  {
    var s := OffsetString(offsetMs, showMinutes);
    if offsetMs == 0 then
      ZeroOffset(offsetMs, showMinutes);
      assert s[..0] + "Z" + s[6..] == "Z";
      ReplaceFirst(s, "+00:00", "Z")
    else
      ReplaceFirst(s, "+00:00", "Z")
  }

  lemma SpelledZero(t: string)
    requires t == "+" + "00" + ":" + "00"
    ensures t == "+00:00"
  {
  }

  /** At offset zero both fields are `00`. */
  lemma ZeroFields(offsetMs: int, showMinutes: int -> string)
    requires offsetMs == 0
    ensures HoursPart(offsetMs) == "00" && MinutesPart(offsetMs, showMinutes) == "00"
  {
    var a := Abs(offsetMs);
    assert a == 0;
    assert a / 3600000 == 0 && a % 3600000 == 0;
    assert (a % 3600000) % 60000 == 0 && (a % 3600000) / 60000 == 0;
    PaddedZero();
  }

  /** Offset zero is written `+00:00`. */
  lemma ZeroOffset(offsetMs: int, showMinutes: int -> string)
    requires offsetMs == 0
    ensures OffsetString(offsetMs, showMinutes) == "+00:00"
    ensures FirstAt(OffsetString(offsetMs, showMinutes), "+00:00", 0)
  {
    ZeroFields(offsetMs, showMinutes);
    var t := "+" + "00" + ":" + "00";
    assert OffsetString(offsetMs, showMinutes) == t;
    SpelledZero(t);
  }

  /** Away from zero a six-character offset is never `+00:00`, so `Z` is the
      plain offset string. */
  lemma ZuluAwayFromZero(offsetMs: int, showMinutes: int -> string)
    requires SixCharOffset(offsetMs) && offsetMs != 0
    ensures Zulu(offsetMs, showMinutes) == OffsetString(offsetMs, showMinutes)
  {
    var s := OffsetString(offsetMs, showMinutes);
    OffsetRoundTrip(offsetMs, showMinutes);
    NonZeroSpelling(s);
    WholeOnlyOccurrence(s, "+00:00");
  }

  /** A string that reads back as a non-zero offset is not `+00:00`. */
  lemma NonZeroSpelling(s: string)
    requires ParseOffset(s).Some? && ParseOffset(s).value != 0
    ensures s != "+00:00"
  {
    var z := "+00:00";
    assert z[1] == '0' && z[2] == '0' && z[4] == '0' && z[5] == '0';
    assert s[1] != '0' || s[2] != '0' || s[4] != '0' || s[5] != '0';
  }

  /** For six-character offsets, `Z` is `Z` exactly at offset zero and the
      plain offset string otherwise. */
  lemma ZuluOnlyAtZero(offsetMs: int, showMinutes: int -> string)
    requires SixCharOffset(offsetMs)
    ensures Zulu(offsetMs, showMinutes) == (if offsetMs == 0 then "Z" else OffsetString(offsetMs, showMinutes))
  {
    if offsetMs != 0 {
      ZuluAwayFromZero(offsetMs, showMinutes);
    }
  }

  /** For six-character offsets `ZZ` is the five characters `sHHmm`. */
  lemma CompactIsFiveChars(offsetMs: int, showMinutes: int -> string)
    requires SixCharOffset(offsetMs)
    ensures var s := OffsetString(offsetMs, showMinutes);
            Compact(offsetMs, showMinutes) == s[..3] + s[4..] && |Compact(offsetMs, showMinutes)| == 5
  {
    HoursDigits(offsetMs);
    MinutesDigits(offsetMs, showMinutes);
    var sign, hours, minutes := SignPart(offsetMs), HoursPart(offsetMs), MinutesPart(offsetMs, showMinutes);
    var s := OffsetString(offsetMs, showMinutes);
    assert s == sign + hours + ":" + minutes;
    assert s[..3] == sign + hours && s[4..] == minutes;
  }
}
