/** The string post-processing `format` applies to what `Intl` renders for
    one field: the ordinal suffix, the year padding, the `24` hour fix, the
    removal of ` AM`/` PM`, the meridiem split and the milliseconds default.
    The rendered strings themselves come from the host and are inputs here. */
module Fields {
  import opened Results
  import opened Text

  /** `getDateEnding(day)`: the English ordinal suffix chosen by `day % 10`,
      with JavaScript's truncating `%` (a negative day never ends in 1, 2
      or 3). */
  function DateEnding(day: int): (r: string)
    ensures |r| == 2
  {
    var last := if day >= 0 then day % 10 else -((-day) % 10);
    if last == 1 then "st"
    else if last == 2 then "nd"
    else if last == 3 then "rd"
    else "th"
  }

  /** The decimal rendering of a natural number ends in its last digit. */
  lemma {:induction false} LastDigit(n: nat)
    ensures NatToString(n)[|NatToString(n)| - 1] == DigitChar(n % 10)
  {
  }

  /** The suffix is read off the last digit the day is written with:
      `1` gives `st`, `2` gives `nd`, `3` gives `rd`, anything else `th`. */
  lemma OrdinalByLastDigit(day: nat)
    ensures var s := NatToString(day);
            var c := s[|s| - 1];
            DateEnding(day) == (if c == '1' then "st" else if c == '2' then "nd" else if c == '3' then "rd" else "th")
  {
    LastDigit(day);
  }

  /** Days ten apart get the same suffix, the teens included: 11, 12 and 13
      read `11st`, `12nd`, `13rd`. */
  lemma OrdinalPeriodic(day: nat)
    ensures DateEnding(day + 10) == DateEnding(day)
    ensures DateEnding(11) == "st" && DateEnding(12) == "nd" && DateEnding(13) == "rd"
  {
    assert (day + 10) % 10 == day % 10;
  }

  /** `YYYY`: a one-character year is padded to four with `0`; any other
      rendering is kept as it is. */
  function YearText(raw: string): (r: string)
    ensures |raw| == 1 ==> |r| == 4 && r[3] == raw[0] && r[..3] == "000"
    ensures |raw| != 1 ==> r == raw
  {
    if |raw| == 1 then PadStart(raw, 4, '0') else raw
  }

  /** The value of a digit string does not change when it gains leading
      zeros. */
  lemma PaddedValue(d: char)
    requires IsDigit(d)
    ensures DigitsValue("000" + [d]) == DigitValue(d)
  {
    var s := "000" + [d];
    assert DigitsValue(s[..1]) == 0 by {
      assert s[..1][..0] == [];
    }
    assert DigitsValue(s[..2]) == 0 by {
      assert s[..2][..1] == s[..1];
    }
    assert DigitsValue(s[..3]) == 0 by {
      assert s[..3][..2] == s[..2];
    }
    assert s[..|s| - 1] == s[..3];
  }

  /** A year written by `String(y)` keeps its value through `YYYY`; only
      years below 10 get four characters, so years 10 to 999 keep two or
      three. */
  lemma YearKeepsValue(y: nat)
    ensures var r := YearText(NatToString(y));
            (forall i :: 0 <= i < |r| ==> IsDigit(r[i])) && DigitsValue(r) == y
    ensures |YearText(NatToString(y))| == (if y < 10 then 4 else |NatToString(y)|)
  {
    var s := NatToString(y);
    NatToStringRoundTrip(y);
    if y < 10 {
      var r := YearText(s);
      assert r == "000" + [s[0]];
      PaddedValue(s[0]);
      assert DigitsValue(s) == DigitValue(s[0]) by {
        assert s[..0] == [];
      }
    }
  }

  /** `replace(/24/g, ...)` on a string exactly as long as the pattern. */
  lemma ReplaceAllWhole(s: string, pat: string, rep: string)
    requires |pat| > 0 && |s| == |pat|
    ensures ReplaceAll(s, pat, rep) == if s == pat then rep else s
  {
    if s != pat {
      assert s[..|pat|] == s;
      WholeOnlyOccurrence(s, pat);
      ReplaceAllAbsent(s, pat, rep);
    } else {
      assert s[|pat|..] == [];
    }
  }

  /** `HH`: the 24-hour two-digit rendering with every `24` turned into `00`.
      For an hour up to 24 this is the two-digit hour modulo 24. */
  lemma TwoDigitHourFixed(h: nat)
    requires h <= 24
    ensures ReplaceAll(PadStart(NatToString(h), 2, '0'), "24", "00") == PadStart(NatToString(h % 24), 2, '0')
  {
    var s := PadStart(NatToString(h), 2, '0');
    if h == 24 {
      PaddedTwentyFour();
      PaddedZero();
      ReplaceAllWhole(s, "24", "00");
    } else {
      PaddedBelowTwentyFour(h);
      assert h % 24 == h;
      ReplaceAllWhole(s, "24", "00");
    }
  }

  lemma PaddedTwentyFour()
    ensures PadStart(NatToString(24), 2, '0') == "24"
  {
    assert NatToString(24) == "24" by {
      assert NatToString(2) == "2";
    }
  }

  lemma PaddedBelowTwentyFour(h: nat)
    requires h < 24
    ensures |PadStart(NatToString(h), 2, '0')| == 2 && PadStart(NatToString(h), 2, '0') != "24"
  {
    TwoDigits(h);
  }

  /** `H`: the 24-hour numeric rendering with every `24` turned into `0`.
      For an hour up to 24 this is the hour modulo 24. */
  lemma NumericHourFixed(h: nat)
    requires h <= 24
    ensures ReplaceAll(NatToString(h), "24", "0") == NatToString(h % 24)
  {
    if h >= 10 {
      assert NatToString(h) == [DigitChar(h / 10), DigitChar(h % 10)] by {
        assert NatToString(h / 10) == [DigitChar(h / 10)];
      }
      ReplaceAllWhole(NatToString(h), "24", "0");
    }
  }

  /** `replace(/ AM| PM/g, "")`: every ` AM` and ` PM`, left to right, is
      removed. */
  function StripMeridiem(s: string): (r: string)
    ensures |r| <= |s|
    decreases |s|
  {
    if |s| < 3 then s
    else if s[..3] == " AM" || s[..3] == " PM" then StripMeridiem(s[3..])
    else [s[0]] + StripMeridiem(s[1..])
  }

  /** Text without an ASCII space passes through the strip untouched. */
  lemma {:induction false} StripSpaceFree(s: string, tail: string)
    requires ' ' !in s
    ensures StripMeridiem(s + tail) == s + StripMeridiem(tail)
    decreases |s|
  {
    if s != [] {
      var t := s + tail;
      assert t[0] == s[0] && t[1..] == s[1..] + tail;
      KeptByStrip(t);
      assert ' ' !in s[1..];
      StripSpaceFree(s[1..], tail);
      assert [s[0]] + (s[1..] + StripMeridiem(tail)) == s + StripMeridiem(tail);
    } else {
      assert s + tail == tail;
    }
  }

  /** A first character other than a space is kept by the strip. */
  lemma KeptByStrip(t: string)
    requires |t| > 0 && t[0] != ' '
    ensures StripMeridiem(t) == [t[0]] + StripMeridiem(t[1..])
  {
    if |t| >= 3 {
      assert t[..3][0] == t[0];
    }
  }

  /** `hh`/`h`: an hour rendered with an ASCII space before `AM` or `PM`
      loses the suffix and keeps its digits. */
  lemma MeridiemStripped(hour: string, m: string)
    requires ' ' !in hour && (m == "AM" || m == "PM")
    ensures StripMeridiem(hour + " " + m) == hour
  {
    StripSpaceFree(hour, " " + m);
    assert hour + " " + m == hour + (" " + m);
  }

  /** `split(" ")[1]`: the meridiem of a 12-hour rendering, `None` (in
      JavaScript, `undefined`) when it has no ASCII space. */
  function Meridiem(raw: string): (r: Option<string>)
    ensures r.None? <==> ' ' !in raw
  {
    SecondField(raw, ' ')
  }

  /** The meridiem is whatever follows the one space of `hour + " " + m`. */
  lemma MeridiemOfClock(hour: string, m: string)
    requires ' ' !in hour && ' ' !in m
    ensures Meridiem(hour + " " + m) == Some(m)
  {
    SecondFieldOfPair(hour, ' ', m);
  }

  /** `SSS`: the text after the first `.` up to the next one, or `000` when
      there is no `.` or nothing follows it. */
  function MillisText(raw: string): (r: string)
    ensures '.' !in raw ==> r == "000"
    ensures r != ""
  {
    match SecondField(raw, '.')
    case None => "000"
    case Some(f) => if f == "" then "000" else f
  }

  /** A rendering that ends in `.` and three digits yields those digits. */
  lemma MillisOfClock(head: string, ms: string)
    requires '.' !in head && |ms| == 3 && '.' !in ms
    ensures MillisText(head + "." + ms) == ms
  {
    var s := head + "." + ms;
    assert s[|head|] == '.';
    var r := SecondField(s, '.');
    var i :| 0 <= i < |s| && s[i] == '.' && '.' !in s[..i]
             && IsPrefix(r.value, s[i + 1..])
             && (i + 1 + |r.value| == |s| || s[i + 1 + |r.value|] == '.');
    OnlyDot(head, ms, i);
    assert s[i + 1..] == ms;
  }

  lemma OnlyDot(head: string, ms: string, i: int)
    requires '.' !in head && '.' !in ms
    requires 0 <= i < |head + "." + ms| && (head + "." + ms)[i] == '.'
    ensures i == |head|
  {
  }
}
