/** The single left-to-right pass of `format`: the global regex
    `\[([^\]]+)\]|YYYY|YY|MMMM|MMM|MM|M|DD|Do|D|dddd|ddd|HH|H|hh|h|mm|m|ss|s|SSS|A|a|ZZ|Z|z`
    read as a scanner. At each position it first tries a bracketed escape,
    then each token spelling in the order the alternation lists them; when
    nothing matches, the character is kept and the scan moves one step on. */
module Scanner {
  import opened Results
  import opened Text

  /** The format tokens, one per spelling. */
  datatype Token =
    | YearFull | Year2
    | MonthLong | MonthShort | Month2 | Month
    | Day2 | DayOrdinal | Day
    | WeekdayLong | WeekdayShort
    | Hour24Padded | Hour24 | Hour12Padded | Hour12
    | Minute2 | Minute | Second2 | Second | Millis
    | MeridiemUpper | MeridiemLower
    | OffsetCompact | OffsetColon | ZoneAbbr

  function Spelling(t: Token): (r: string)
    ensures 1 <= |r| <= 4
  {
    match t
    case YearFull => "YYYY"
    case Year2 => "YY"
    case MonthLong => "MMMM"
    case MonthShort => "MMM"
    case Month2 => "MM"
    case Month => "M"
    case Day2 => "DD"
    case DayOrdinal => "Do"
    case Day => "D"
    case WeekdayLong => "dddd"
    case WeekdayShort => "ddd"
    case Hour24Padded => "HH"
    case Hour24 => "H"
    case Hour12Padded => "hh"
    case Hour12 => "h"
    case Minute2 => "mm"
    case Minute => "m"
    case Second2 => "ss"
    case Second => "s"
    case Millis => "SSS"
    case MeridiemUpper => "A"
    case MeridiemLower => "a"
    case OffsetCompact => "ZZ"
    case OffsetColon => "Z"
    case ZoneAbbr => "z"
  }

  /** The characters a token spelling can start with. */
  predicate TokenInitial(c: char) {
    c == 'Y' || c == 'M' || c == 'D' || c == 'd' || c == 'H' || c == 'h' || c == 'm'
    || c == 's' || c == 'S' || c == 'A' || c == 'a' || c == 'Z' || c == 'z'
  }

  lemma SpellingInitial(t: Token)
    ensures TokenInitial(Spelling(t)[0])
  {
  }

  lemma SpellingInjective(t: Token, u: Token)
    requires Spelling(t) == Spelling(u)
    ensures t == u
  {
  }

  /** The token alternatives in the order the regex lists them. */
  const Alternatives: seq<Token> :=
    [YearFull, Year2, MonthLong, MonthShort, Month2, Month, Day2, DayOrdinal, Day,
     WeekdayLong, WeekdayShort, Hour24Padded, Hour24, Hour12Padded, Hour12,
     Minute2, Minute, Second2, Second, Millis, MeridiemUpper, MeridiemLower,
     OffsetCompact, OffsetColon, ZoneAbbr]

  /** Where a token stands in `Alternatives`. */
  function Position(t: Token): (k: nat)
    ensures k < |Alternatives| && Alternatives[k] == t
  {
    match t
    case YearFull => 0
    case Year2 => 1
    case MonthLong => 2
    case MonthShort => 3
    case Month2 => 4
    case Month => 5
    case Day2 => 6
    case DayOrdinal => 7
    case Day => 8
    case WeekdayLong => 9
    case WeekdayShort => 10
    case Hour24Padded => 11
    case Hour24 => 12
    case Hour12Padded => 13
    case Hour12 => 14
    case Minute2 => 15
    case Minute => 16
    case Second2 => 17
    case Second => 18
    case Millis => 19
    case MeridiemUpper => 20
    case MeridiemLower => 21
    case OffsetCompact => 22
    case OffsetColon => 23
    case ZoneAbbr => 24
  }

  lemma PositionOfAlternative(k: nat)
    requires k < |Alternatives|
    ensures Position(Alternatives[k]) == k
  {
  }

  /** The first alternative of `alts`, from index `from` on, whose spelling
      starts `s`. */
  function FirstFrom(s: string, alts: seq<Token>, from: nat): (r: Option<nat>)
    requires from <= |alts|
    ensures r.Some? ==> from <= r.value < |alts| && IsPrefix(Spelling(alts[r.value]), s)
    decreases |alts| - from
  {
    if from == |alts| then None
    else if IsPrefix(Spelling(alts[from]), s) then Some(from)
    else FirstFrom(s, alts, from + 1)
  }

  /** `FirstFrom` passes over exactly the alternatives that do not start `s`. */
  lemma {:induction false} FirstFromSkips(s: string, alts: seq<Token>, from: nat, j: nat)
    requires from <= j < |alts|
    requires FirstFrom(s, alts, from).None? || j < FirstFrom(s, alts, from).value
    ensures !IsPrefix(Spelling(alts[j]), s)
    decreases |alts| - from
  {
    if j > from {
      FirstFromSkips(s, alts, from + 1, j);
    }
  }

  /** The token alternation, leftmost alternative first. */
  function FirstToken(s: string): (r: Option<Token>)
    ensures r.Some? ==> IsPrefix(Spelling(r.value), s)
  {
    match FirstFrom(s, Alternatives, 0)
    case None => None
    case Some(k) => Some(Alternatives[k])
  }

  /** The alternation fails only where no token spelling starts the text. */
  lemma FirstTokenComplete(s: string, u: Token)
    requires IsPrefix(Spelling(u), s)
    ensures FirstToken(s).Some?
  {
    if FirstFrom(s, Alternatives, 0).None? {
      FirstFromSkips(s, Alternatives, 0, Position(u));
    }
  }

  /** Nothing listed before the chosen alternative starts the text. */
  lemma FirstTokenEarliest(s: string, u: Token)
    requires FirstToken(s).Some? && Position(u) < Position(FirstToken(s).value)
    ensures !IsPrefix(Spelling(u), s)
  {
    var k := FirstFrom(s, Alternatives, 0).value;
    PositionOfAlternative(k);
    FirstFromSkips(s, Alternatives, 0, Position(u));
  }

  /** Of two spellings with the same first letter, the longer is listed first. */
  lemma LongerListedFirst(t: Token, u: Token)
    requires Spelling(t)[0] == Spelling(u)[0] && |Spelling(t)| < |Spelling(u)|
    ensures Position(u) < Position(t)
  {
  }

  /** Leftmost-first alternation happens to pick the longest spelling: every
      spelling that also starts the text is no longer than the one chosen. */
  lemma LongestMatch(s: string, u: Token)
    requires IsPrefix(Spelling(u), s)
    ensures FirstToken(s).Some? && |Spelling(u)| <= |Spelling(FirstToken(s).value)|
  {
    FirstTokenComplete(s, u);
    var t := FirstToken(s).value;
    if |Spelling(t)| < |Spelling(u)| {
      assert Spelling(t)[0] == s[0] == Spelling(u)[0];
      LongerListedFirst(t, u);
      FirstTokenEarliest(s, u);
    }
  }

  /** The token at the start of `s`, found by its first letter and then the
      longest spelling with that letter. `MatchIsAlternation` shows this is
      exactly the regex alternation `FirstToken`. */
  function Match(s: string): (r: Option<Token>)
    ensures r.Some? ==> IsPrefix(Spelling(r.value), s)
  {
    if |s| == 0 then None
    else
      var c := s[0];
      if c == 'Y' then
        if At(s, 1, 'Y') && At(s, 2, 'Y') && At(s, 3, 'Y') then Some(YearFull)
        else if At(s, 1, 'Y') then Some(Year2)
        else None
      else if c == 'M' then
        if At(s, 1, 'M') && At(s, 2, 'M') && At(s, 3, 'M') then Some(MonthLong)
        else if At(s, 1, 'M') && At(s, 2, 'M') then Some(MonthShort)
        else if At(s, 1, 'M') then Some(Month2)
        else Some(Month)
      else if c == 'D' then
        if At(s, 1, 'D') then Some(Day2)
        else if At(s, 1, 'o') then Some(DayOrdinal)
        else Some(Day)
      else if c == 'd' then
        if At(s, 1, 'd') && At(s, 2, 'd') && At(s, 3, 'd') then Some(WeekdayLong)
        else if At(s, 1, 'd') && At(s, 2, 'd') then Some(WeekdayShort)
        else None
      else if c == 'H' then (if At(s, 1, 'H') then Some(Hour24Padded) else Some(Hour24))
      else if c == 'h' then (if At(s, 1, 'h') then Some(Hour12Padded) else Some(Hour12))
      else if c == 'm' then (if At(s, 1, 'm') then Some(Minute2) else Some(Minute))
      else if c == 's' then (if At(s, 1, 's') then Some(Second2) else Some(Second))
      else if c == 'S' then
        if At(s, 1, 'S') && At(s, 2, 'S') then Some(Millis) else None
      else if c == 'A' then Some(MeridiemUpper)
      else if c == 'a' then Some(MeridiemLower)
      else if c == 'Z' then (if At(s, 1, 'Z') then Some(OffsetCompact) else Some(OffsetColon))
      else if c == 'z' then Some(ZoneAbbr)
      else None
  }

  /** `Match` finds a token wherever some spelling starts the text, and
      none of those spellings is longer than the one it picks. */
  lemma MatchLongest(s: string, u: Token)
    requires IsPrefix(Spelling(u), s)
    ensures Match(s).Some? && |Spelling(u)| <= |Spelling(Match(s).value)|
  {
    var p := Spelling(u);
    assert forall i :: 0 <= i < |p| ==> s[i] == p[i];
  }

  /** The first-letter dispatch and the regex alternation agree everywhere. */
  lemma MatchIsAlternation(s: string)
    ensures Match(s) == FirstToken(s)
  {
    if FirstToken(s).Some? {
      var t := FirstToken(s).value;
      MatchLongest(s, t);
      var m := Match(s).value;
      LongestMatch(s, m);
      assert Spelling(m) == s[..|Spelling(m)|] == Spelling(t);
      SpellingInjective(m, t);
    } else if Match(s).Some? {
      FirstTokenComplete(s, Match(s).value);
    }
  }

  /** Where the bracketed escape `\[([^\]]+)\]` matches at the start of `s`:
      the index of its closing `]`. */
  function EscapeEnd(s: string): (r: Option<nat>)
    ensures r.Some? ==> 2 <= r.value < |s| && s[0] == '[' && s[r.value] == ']' && ']' !in s[1..r.value]
    ensures r.None? ==> |s| == 0 || s[0] != '[' || (|s| > 1 && s[1] == ']') || ']' !in s[1..]
  {
    if |s| == 0 || s[0] != '[' then None
    else
      var body := s[1..];
      match IndexOf(body, "]")
      case None =>
        assert ']' !in body by {
          forall k | 0 <= k < |body| ensures body[k] != ']' {
            assert !OccursAt(body, "]", k);
            assert body[k..k + 1] == [body[k]];
          }
        }
        None
      case Some(k) =>
        assert body[k..k + 1] == "]";
        if k == 0 then None
        else
          assert ']' !in body[..k] by {
            forall i | 0 <= i < k ensures body[i] != ']' {
              assert !OccursAt(body, "]", i);
              assert body[i..i + 1] == [body[i]];
            }
          }
          assert s[1..k + 1] == body[..k];
          Some(k + 1)
  }

  /** What the scan produces for one match: a kept character, the text of an
      escape, or a token. */
  datatype Piece = Literal(c: char) | Escaped(text: string) | Directive(token: Token)

  /** The format text a piece stands for. */
  function PieceText(p: Piece): string {
    match p
    case Literal(c) => [c]
    case Escaped(text) => "[" + text + "]"
    case Directive(t) => Spelling(t)
  }

  /** One match of the scan at the start of non-empty `s`: the piece found
      and how many characters it consumes. */
  function Step(s: string): (r: (Piece, nat))
    requires |s| > 0
    ensures 0 < r.1 <= |s| && PieceText(r.0) == s[..r.1]
  {
    match EscapeEnd(s)
    case Some(j) =>
      assert s[..j + 1] == "[" + s[1..j] + "]";
      (Escaped(s[1..j]), j + 1)
    case None =>
      match Match(s)
      case Some(t) => (Directive(t), |Spelling(t)|)
      case None => (Literal(s[0]), 1)
  }

  /** The scan of a whole format string. */
  function Scan(s: string): (r: seq<Piece>)
    ensures |r| <= |s|
    ensures |r| == 0 <==> s == []
    decreases |s|
  {
    if s == [] then []
    else
      var (p, n) := Step(s);
      [p] + Scan(s[n..])
  }

  /** Writing pieces back as format text: the inverse of `Scan`. */
  function Unscan(ps: seq<Piece>): string
    decreases |ps|
  {
    if ps == [] then "" else PieceText(ps[0]) + Unscan(ps[1..])
  }

  /** The scan loses nothing: the pieces spell out the format string again. */
  lemma {:induction false} ScanLossless(s: string)
    ensures Unscan(Scan(s)) == s
    decreases |s|
  {
    if s != [] {
      var (p, n) := Step(s);
      ScanLossless(s[n..]);
      assert s[..n] + s[n..] == s;
    }
  }

  /** What one piece becomes in the output. */
  function RenderPiece(p: Piece, table: Token -> string): string {
    match p
    case Literal(c) => [c]
    case Escaped(text) => text
    case Directive(t) => table(t)
  }

  /** The substitution: kept characters as they are, escapes without their
      brackets, tokens by the table. */
  function Render(ps: seq<Piece>, table: Token -> string): string
    decreases |ps|
  {
    if ps == [] then "" else RenderPiece(ps[0], table) + Render(ps[1..], table)
  }

  /** `format.replace(regex, (match, contents) => contents || table[match])`. */
  function Expand(s: string, table: Token -> string): string {
    Render(Scan(s), table)
  }

  /** A non-empty, `]`-free bracketed text is one escape. */
  lemma EscapeStep(text: string, rest: string)
    requires |text| > 0 && ']' !in text
    ensures Scan("[" + text + "]" + rest) == [Escaped(text)] + Scan(rest)
  {
    var s := "[" + text + "]" + rest;
    var body := s[1..];
    assert body == text + "]" + rest;
    assert FirstAt(body, "]", |text|) by {
      assert body[|text|..|text| + 1] == "]";
      forall i | 0 <= i < |text| ensures !OccursAt(body, "]", i) {
        assert body[i..i + 1] == [text[i]];
      }
    }
    assert EscapeEnd(s) == Some(|text| + 1);
    assert s[1..|text| + 1] == text;
    assert s[|text| + 2..] == rest;
  }

  /** `[]` is not an escape: both brackets are kept as plain characters. */
  lemma EmptyBrackets(s: string)
    requires |s| >= 2 && s[0] == '[' && s[1] == ']'
    ensures Scan(s) == [Literal('[')] + ([Literal(']')] + Scan(s[2..]))
  {
    OpenBracketKept(s);
    CloseBracketKept(s[1..]);
    assert s[1..][1..] == s[2..];
  }

  lemma OpenBracketKept(s: string)
    requires |s| >= 2 && s[0] == '[' && s[1] == ']'
    ensures Scan(s) == [Literal('[')] + Scan(s[1..])
  {
    NoEscapeAtEmptyBrackets(s);
    KeptStep(s);
  }

  lemma CloseBracketKept(s: string)
    requires |s| >= 1 && s[0] == ']'
    ensures Scan(s) == [Literal(']')] + Scan(s[1..])
  {
    assert !TokenInitial(s[0]);
    assert EscapeEnd(s).None?;
    KeptStep(s);
  }

  /** The escape needs at least one character between its brackets. */
  lemma NoEscapeAtEmptyBrackets(s: string)
    requires |s| >= 2 && s[0] == '[' && s[1] == ']'
    ensures EscapeEnd(s).None?
  {
    var body := s[1..];
    assert OccursAt(body, "]", 0) by {
      assert body[0..1] == "]";
    }
  }

  /** No token starts with a character outside the token alphabet. */
  lemma NoTokenAt(s: string)
    requires |s| > 0 && !TokenInitial(s[0])
    ensures Match(s).None?
  {
    if Match(s).Some? {
      SpellingInitial(Match(s).value);
    }
  }

  /** Where neither an escape nor a token matches, one character is kept. */
  lemma KeptStep(s: string)
    requires |s| > 0 && EscapeEnd(s).None? && !TokenInitial(s[0])
    ensures Scan(s) == [Literal(s[0])] + Scan(s[1..])
  {
    NoTokenAt(s);
  }

  /** A character that starts neither an escape nor a token is kept as is. */
  lemma LiteralStep(c: char, rest: string)
    requires c != '[' && !TokenInitial(c)
    ensures Scan([c] + rest) == [Literal(c)] + Scan(rest)
  {
    KeptStep([c] + rest);
    assert ([c] + rest)[1..] == rest;
  }

  /** A token whose spelling no longer token extends is scanned as that token. */
  lemma TokenStep(t: Token, rest: string)
    requires forall u :: IsPrefix(Spelling(u), Spelling(t) + rest) ==> |Spelling(u)| <= |Spelling(t)|
    ensures Scan(Spelling(t) + rest) == [Directive(t)] + Scan(rest)
  {
    var s := Spelling(t) + rest;
    assert s[..|Spelling(t)|] == Spelling(t);
    SpellingInitial(t);
    assert EscapeEnd(s).None?;
    MatchLongest(s, t);
    var f := Match(s).value;
    assert Spelling(f) == s[..|Spelling(f)|] == Spelling(t);
    SpellingInjective(f, t);
    assert s[|Spelling(t)|..] == rest;
  }

  /** Every character of a spelling starts some token, except the `o` of `Do`. */
  lemma SpellingChars(t: Token, i: int)
    requires 0 <= i < |Spelling(t)|
    ensures TokenInitial(Spelling(t)[i]) || Spelling(t)[i] == 'o'
  {
  }

  /** A token followed by a character no spelling continues with is scanned
      as that token. */
  lemma TokenBoundary(t: Token, rest: string)
    requires |rest| > 0 ==> !TokenInitial(rest[0]) && rest[0] != 'o'
    ensures Scan(Spelling(t) + rest) == [Directive(t)] + Scan(rest)
  {
    forall u | IsPrefix(Spelling(u), Spelling(t) + rest) ensures |Spelling(u)| <= |Spelling(t)| {
      NotExtendedAtBoundary(t, u, rest);
    }
    TokenStep(t, rest);
  }

  /** No spelling runs on past a token into a character no spelling
      continues with. */
  lemma NotExtendedAtBoundary(t: Token, u: Token, rest: string)
    requires |rest| > 0 ==> !TokenInitial(rest[0]) && rest[0] != 'o'
    requires IsPrefix(Spelling(u), Spelling(t) + rest)
    ensures |Spelling(u)| <= |Spelling(t)|
  {
    var s := Spelling(t) + rest;
    var k := |Spelling(t)|;
    if |Spelling(u)| > k {
      assert Spelling(u)[k] == s[k] == rest[0];
      SpellingChars(u, k);
    }
  }

  /** Rendering a piece list one piece at a time. */
  lemma RenderCons(p: Piece, ps: seq<Piece>, table: Token -> string)
    ensures Render([p] + ps, table) == RenderPiece(p, table) + Render(ps, table)
  {
    assert ([p] + ps)[1..] == ps;
  }

  /** A token at a boundary expands to its table entry. */
  lemma ExpandToken(t: Token, rest: string, table: Token -> string)
    requires |rest| > 0 ==> !TokenInitial(rest[0]) && rest[0] != 'o'
    ensures Expand(Spelling(t) + rest, table) == table(t) + Expand(rest, table)
  {
    TokenBoundary(t, rest);
    RenderCons(Directive(t), Scan(rest), table);
  }

  /** Tokens no longer spelling extends: the four-letter ones, `SSS`, and
      the two-letter ones whose letter starts no three- or four-letter
      spelling. */
  predicate NeverExtended(t: Token) {
    |Spelling(t)| == 4 || t == Millis || (|Spelling(t)| == 2 && Spelling(t)[0] !in "YMdS")
  }

  lemma NoLongerSpelling(t: Token, u: Token)
    requires NeverExtended(t) && |Spelling(u)| > |Spelling(t)|
    ensures Spelling(u)[0] != Spelling(t)[0]
  {
  }

  /** A token that no spelling extends expands to its table entry, whatever
      follows it. */
  lemma ExpandTokenAnywhere(t: Token, rest: string, table: Token -> string)
    requires NeverExtended(t)
    ensures Expand(Spelling(t) + rest, table) == table(t) + Expand(rest, table)
  {
    var s := Spelling(t) + rest;
    forall u | IsPrefix(Spelling(u), s) ensures |Spelling(u)| <= |Spelling(t)| {
      if |Spelling(u)| > |Spelling(t)| {
        assert Spelling(u)[0] == s[0] == Spelling(t)[0];
        NoLongerSpelling(t, u);
      }
    }
    TokenStep(t, rest);
    RenderCons(Directive(t), Scan(rest), table);
  }

  /** The substitution one match at a time: the replacement of the match at
      the start, then the substitution of what follows it. */
  lemma ExpandStep(s: string, table: Token -> string)
    requires |s| > 0
    ensures Expand(s, table) == RenderPiece(Step(s).0, table) + Expand(s[Step(s).1..], table)
  {
    var (p, n) := Step(s);
    RenderCons(p, Scan(s[n..]), table);
  }

  /** A kept character expands to itself. */
  lemma ExpandLiteral(c: char, rest: string, table: Token -> string)
    requires c != '[' && !TokenInitial(c)
    ensures Expand([c] + rest, table) == [c] + Expand(rest, table)
  {
    LiteralStep(c, rest);
    RenderCons(Literal(c), Scan(rest), table);
  }

  /** An escape expands to the text between its brackets. */
  lemma ExpandEscape(text: string, rest: string, table: Token -> string)
    requires |text| > 0 && ']' !in text
    ensures Expand("[" + text + "]" + rest, table) == text + Expand(rest, table)
  {
    EscapeStep(text, rest);
    RenderCons(Escaped(text), Scan(rest), table);
  }

  /** Text made only of characters outside the token alphabet and free of
      `[` comes out of the substitution unchanged. */
  lemma {:induction false} PlainTextUnchanged(s: string, table: Token -> string)
    requires forall i :: 0 <= i < |s| ==> s[i] != '[' && !TokenInitial(s[i])
    ensures Expand(s, table) == s
    decreases |s|
  {
    if s != [] {
      LiteralStep(s[0], s[1..]);
      assert [s[0]] + s[1..] == s;
      PlainTextUnchanged(s[1..], table);
    }
  }

  /** The regex replacement as the loop the engine runs: match at the
      current position, emit the replacement, continue after the match. */
  method ReplaceTokens(fmt: string, table: Token -> string) returns (out: string)
    ensures out == Expand(fmt, table)
  {
    out := "";
    var i := 0;
    while i < |fmt|
      invariant 0 <= i <= |fmt|
      invariant out + Expand(fmt[i..], table) == Expand(fmt, table)
      decreases |fmt| - i
    {
      var (p, n) := Step(fmt[i..]);
      ExpandStep(fmt[i..], table);
      assert fmt[i..][n..] == fmt[i + n..];
      out := out + RenderPiece(p, table);
      i := i + n;
    }
    assert fmt[i..] == [];
  }
}
