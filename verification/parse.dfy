/** `parseFlexibleDate`: sniff the shape of a date string, pick one of the
    library's three parsers, and bind the result to a zone. */
module Parse {
  import opened Results
  import opened Values
  import opened Host

  /** The branch the classifier takes. `Local` carries the text handed to
      `parseDateTime` after the separator rewrite. */
  datatype Branch = DateOnly | Absolute | Local(text: string)

  /** A single space at index 10 becomes `T` (the space-separated form of a
      date-time that section 5.6 of RFC 3339 allows), but only when more than
      eleven characters are present. */
  function RewriteSeparator(s: string): (r: string)
    ensures |r| == |s|
    ensures forall i :: 0 <= i < |s| && i != 10 ==> r[i] == s[i]
    ensures |s| > 11 && s[10] == ' ' ==> r[10] == 'T'
    ensures !(|s| > 11 && s[10] == ' ') ==> r == s
  {
    if |s| > 11 && s[10] == ' ' then s[..10] + "T" + s[11..] else s
  }

  /** The rewrite is a point update of index 10, so applying it again changes
      nothing. */
  lemma RewriteIdempotent(s: string)
    ensures RewriteSeparator(RewriteSeparator(s)) == RewriteSeparator(s)
  {
  }

  /** Length 10 wins over everything; otherwise any `Z` means an absolute
      timestamp; everything else is local. */
  function Classify(input: string): (b: Branch)
    ensures b.DateOnly? <==> |input| == 10
    ensures b.Absolute? <==> |input| != 10 && 'Z' in input
    ensures b.Local? ==> |b.text| == |input| && 'Z' !in input
    ensures b.Local? ==> forall i :: 0 <= i < |input| && i != 10 ==> b.text[i] == input[i]
    ensures b.Local? && |input| > 11 && input[10] == ' ' ==> b.text[10] == 'T'
    ensures b.Local? && !(|input| > 11 && input[10] == ' ') ==> b.text == input
  {
    if |input| == 10 then DateOnly
    else if 'Z' in input then Absolute
    else Local(RewriteSeparator(input))
  }

  /** A numeric offset such as `+05:00` or `-05:00` never selects the
      absolute parser: without a `Z` the string goes to `parseDateTime`
      unchanged. */
  lemma NumericOffsetIsLocal()
    ensures Classify("2025-01-22T08:00:00+05:00") == Local("2025-01-22T08:00:00+05:00")
    ensures Classify("2025-01-22T08:00:00-05:00") == Local("2025-01-22T08:00:00-05:00")
  {
    assert 'Z' !in "2025-01-22T08:00:00+05:00";
    assert 'Z' !in "2025-01-22T08:00:00-05:00";
  }

  /** The sample inputs and the branch each one takes. */
  lemma SampleInputs()
    ensures Classify("2021-01-01") == DateOnly
    ensures Classify("2025-03-09T00:00:00Z") == Absolute
    ensures Classify("2025-01-22T08:00:00") == Local("2025-01-22T08:00:00")
    ensures Classify("2025-01-22 08:00:00") == Local("2025-01-22T08:00:00")
    ensures Classify("20250122Z0") == DateOnly
  {
    assert "2025-03-09T00:00:00Z"[19] == 'Z';
    assert 'Z' !in "2025-01-22T08:00:00";
    assert 'Z' !in "2025-01-22 08:00:00";
    assert "2025-01-22 08:00:00"[..10] + "T" + "2025-01-22 08:00:00"[11..] == "2025-01-22T08:00:00";
  }

  /** `parseFlexibleDate(input, zone)`: throws exactly when the chosen
      library parser throws; otherwise yields an instant in `zone`. A date
      alone is pinned to midnight, an absolute timestamp keeps the parsed
      instant, a local date-time keeps the parsed wall-clock fields. */
  function ParseFlexible(lib: Library, input: string, zone: string): (r: Outcome<Zoned>)
    ensures r.Returns? ==> r.value.zone == zone
    ensures |input| == 10 ==> (r.Throws? <==> lib.parseDate(input).None?)
    ensures |input| == 10 && r.Returns? ==> TimeIs(r.value.wall, 0, 0, 0, 0)
    ensures |input| == 10 && r.Returns? ==>
              (var d := lib.parseDate(input).value;
               r.value.wall.year == d.year && r.value.wall.month == d.month && r.value.wall.day == d.day)
    ensures Classify(input).Absolute? ==> (r.Throws? <==> lib.parseAbsolute(input, zone).None?)
    ensures Classify(input).Absolute? && r.Returns? ==> r.value.epoch == lib.parseAbsolute(input, zone).value
    ensures Classify(input).Local? ==>
              (r.Throws? <==> lib.parseDateTime(RewriteSeparator(input)).None?)
    ensures Classify(input).Local? && r.Returns? ==>
              r.value.wall == lib.parseDateTime(RewriteSeparator(input)).value
  {
    match Classify(input)
    case DateOnly =>
      (match lib.parseDate(input)
       case None => Throws
       case Some(d) => Returns(SetTime(lib, FromDate(lib, zone, d), 0, 0, 0, 0)))
    case Absolute =>
      (match lib.parseAbsolute(input, zone)
       case None => Throws
       case Some(e) => Returns(ZonedAt(lib, zone, e)))
    case Local(text) =>
      (match lib.parseDateTime(text)
       case None => Throws
       case Some(w) => Returns(FromWall(lib, zone, w)))
  }

  /** Every successful parse that does not go through the absolute parser is
      already a wall-clock reading bound to the zone, so binding its fields to
      the same zone again changes nothing. */
  lemma NonAbsoluteIsWallBound(lib: Library, input: string, zone: string)
    requires !Classify(input).Absolute?
    requires ParseFlexible(lib, input, zone).Returns?
    ensures var z := ParseFlexible(lib, input, zone).value;
            FromWall(lib, zone, z.wall) == z
  {
  }
}
