/** The small string library the source leans on: `indexOf`, `replace` with a
    string pattern (first occurrence only), `replace` with a global regex,
    `padStart`, `String(n)` for naturals, `split(sep)[1]` and ASCII
    `toLowerCase`. Strings are `seq<char>`, sequences of Unicode scalar
    values; every character the formats and parsers look at is ASCII. */
module Text {
  import opened Results

  /** `p` is a prefix of `s`. */
  predicate IsPrefix(p: string, s: string) {
    |p| <= |s| && s[..|p|] == p
  }

  /** `s[i] == c`, false past the end (where JavaScript reads `undefined`). */
  predicate At(s: string, i: nat, c: char) {
    i < |s| && s[i] == c
  }

  /** `pat` occurs in `s` starting at index `i`. */
  predicate OccursAt(s: string, pat: string, i: int) {
    0 <= i && i + |pat| <= |s| && s[i..i + |pat|] == pat
  }

  /** `i` is the first index at which `pat` occurs in `s`. */
  predicate FirstAt(s: string, pat: string, i: int) {
    OccursAt(s, pat, i) && forall j :: 0 <= j < i ==> !OccursAt(s, pat, j)
  }

  /** A pattern as long as the string occurs in it only if it is the string. */
  lemma WholeOnlyOccurrence(s: string, pat: string)
    requires |s| == |pat| && s != pat
    ensures forall j :: !OccursAt(s, pat, j)
  {
    forall j ensures !OccursAt(s, pat, j) {
      if j == 0 {
        assert s[0..|pat|] == s;
      }
    }
  }

  /** The first occurrence of `pat` in `s` at or after `from`. */
  function IndexFrom(s: string, pat: string, from: nat): (r: Option<nat>)
    ensures r.Some? ==> from <= r.value && OccursAt(s, pat, r.value)
    ensures r.Some? ==> forall j :: from <= j < r.value ==> !OccursAt(s, pat, j)
    ensures r.None? ==> forall j :: from <= j ==> !OccursAt(s, pat, j)
    decreases |s| + 1 - from
  {
    if from + |pat| > |s| then None
    else if s[from..from + |pat|] == pat then Some(from)
    else IndexFrom(s, pat, from + 1)
  }

  /** `s.indexOf(pat)`, with `None` for -1. */
  function IndexOf(s: string, pat: string): (r: Option<nat>)
    ensures r.Some? ==> FirstAt(s, pat, r.value)
    ensures r.None? ==> forall j :: !OccursAt(s, pat, j)
  {
    IndexFrom(s, pat, 0)
  }

  /** `s.replace(pat, rep)` for a string pattern: only the first occurrence
      is replaced. */
  function ReplaceFirst(s: string, pat: string, rep: string): (r: string)
    ensures (forall j :: !OccursAt(s, pat, j)) ==> r == s
    ensures forall i :: FirstAt(s, pat, i) ==> r == s[..i] + rep + s[i + |pat|..]
  {
    match IndexOf(s, pat)
    case None => s
    case Some(i) =>
      assert forall k :: FirstAt(s, pat, k) ==> k == i;
      s[..i] + rep + s[i + |pat|..]
  }

  /** `s.replace(/pat/g, rep)` for a regex that is a plain non-empty literal:
      occurrences are found left to right and do not overlap. */
  function ReplaceAll(s: string, pat: string, rep: string): (r: string)
    requires |pat| > 0
    decreases |s|
  {
    if |s| < |pat| then s
    else if s[..|pat|] == pat then rep + ReplaceAll(s[|pat|..], pat, rep)
    else [s[0]] + ReplaceAll(s[1..], pat, rep)
  }

  /** A string in which `pat` does not occur is left alone by `ReplaceAll`. */
  lemma {:induction false} ReplaceAllAbsent(s: string, pat: string, rep: string)
    requires |pat| > 0
    requires forall j :: !OccursAt(s, pat, j)
    ensures ReplaceAll(s, pat, rep) == s
    decreases |s|
  {
    if |s| < |pat| {
    } else {
      assert !OccursAt(s, pat, 0);
      assert s[0..|pat|] == s[..|pat|];
      forall j ensures !OccursAt(s[1..], pat, j) {
        if OccursAt(s[1..], pat, j) {
          assert s[1..][j..j + |pat|] == s[j + 1..j + 1 + |pat|];
          assert OccursAt(s, pat, j + 1);
        }
      }
      ReplaceAllAbsent(s[1..], pat, rep);
      assert [s[0]] + s[1..] == s;
    }
  }

  /** `s.padStart(n, c)`: left-pad with `c` up to length `n`; never truncates. */
  function PadStart(s: string, n: nat, c: char): (r: string)
    ensures |r| == if |s| >= n then |s| else n
    ensures r[|r| - |s|..] == s
    ensures forall i :: 0 <= i < |r| - |s| ==> r[i] == c
  {
    if |s| >= n then s else seq(n - |s|, _ => c) + s
  }

  predicate IsDigit(c: char) {
    '0' <= c <= '9'
  }

  function DigitChar(d: nat): (c: char)
    requires d < 10
    ensures IsDigit(c)
  {
    (48 + d) as char
  }

  function DigitValue(c: char): (d: nat)
    requires IsDigit(c)
    ensures d < 10
  {
    (c as int) - 48
  }

  /** `String(n)` for a natural number: decimal digits, no leading zero. */
  function NatToString(n: nat): (r: string)
    ensures |r| >= 1
    ensures forall i :: 0 <= i < |r| ==> IsDigit(r[i])
    ensures |r| > 1 ==> r[0] != '0'
    ensures n < 10 <==> |r| == 1
    decreases n
  {
    if n < 10 then [DigitChar(n)] else NatToString(n / 10) + [DigitChar(n % 10)]
  }

  /** The value of a string of decimal digits (the reading direction). */
  function DigitsValue(s: string): (v: nat)
    requires forall i :: 0 <= i < |s| ==> IsDigit(s[i])
    decreases |s|
  {
    if s == [] then 0 else DigitsValue(s[..|s| - 1]) * 10 + DigitValue(s[|s| - 1])
  }

  /** Reading back what `NatToString` wrote gives the number again. */
  lemma {:induction false} NatToStringRoundTrip(n: nat)
    ensures DigitsValue(NatToString(n)) == n
    decreases n
  {
    var s := NatToString(n);
    if n >= 10 {
      assert s[..|s| - 1] == NatToString(n / 10);
      NatToStringRoundTrip(n / 10);
    }
  }

  /** A two-digit zero-padded rendering of `n < 100`. */
  lemma TwoDigits(n: nat)
    requires n < 100
    ensures PadStart(NatToString(n), 2, '0') == [DigitChar(n / 10), DigitChar(n % 10)]
  {
    if n >= 10 {
      assert NatToString(n / 10) == [DigitChar(n / 10)];
    }
  }

  /** Zero padded to two digits. */
  lemma PaddedZero()
    ensures PadStart(NatToString(0), 2, '0') == "00"
  {
    TwoDigits(0);
    assert [DigitChar(0), DigitChar(0)] == "00";
  }

  /** ASCII `toLowerCase` of one character; other characters are unchanged. */
  function LowerChar(c: char): char {
    if 'A' <= c <= 'Z' then (c as int + 32) as char else c
  }

  /** `s.toLowerCase()` restricted to ASCII letters. */
  function Lower(s: string): (r: string)
    ensures |r| == |s|
  {
    seq(|s|, i requires 0 <= i < |s| => LowerChar(s[i]))
  }

  /** `s.split(sep)[1]`: the text between the first and the second `sep`
      (or the end), or `None` when `sep` does not occur. */
  function SecondField(s: string, sep: char): (r: Option<string>)
    ensures r.None? <==> sep !in s
    ensures r.Some? ==> sep !in r.value
    ensures r.Some? ==> exists i :: 0 <= i < |s| && s[i] == sep && sep !in s[..i]
                                   && IsPrefix(r.value, s[i + 1..])
                                   && (i + 1 + |r.value| == |s| || s[i + 1 + |r.value|] == sep)
  {
    match IndexOf(s, [sep])
    case None =>
      AbsentChar(s, sep, |s|);
      assert s[..|s|] == s;
      None
    case Some(i) =>
      assert s[i..i + 1] == [sep];
      AbsentChar(s, sep, i);
      var rest := s[i + 1..];
      match IndexOf(rest, [sep])
      case None =>
        AbsentChar(rest, sep, |rest|);
        assert rest[..|rest|] == rest;
        assert IsPrefix(rest, s[i + 1..]) && i + 1 + |rest| == |s|;
        Some(rest)
      case Some(j) =>
        assert rest[j..j + 1] == [sep];
        AbsentChar(rest, sep, j);
        assert s[i + 1 + j] == sep;
        assert IsPrefix(rest[..j], s[i + 1..]) && |rest[..j]| == j;
        Some(rest[..j])
  }

  /** A pattern has at most one first occurrence. */
  lemma FirstAtUnique(s: string, pat: string, i: int, j: int)
    requires FirstAt(s, pat, i) && FirstAt(s, pat, j)
    ensures i == j
  {
  }

  /** Two fields joined by one separator: the second field is the text
      after it. */
  lemma SecondFieldOfPair(a: string, sep: char, b: string)
    requires sep !in a && sep !in b
    ensures SecondField(a + [sep] + b, sep) == Some(b)
  {
    var s := a + [sep] + b;
    var k := |a|;
    assert s[..k] == a && s[k + 1..] == b;
    assert s[k..k + 1] == [sep];
    forall j | 0 <= j < k ensures !OccursAt(s, [sep], j) {
      assert s[j] == a[j];
      assert s[j..j + 1] == [s[j]];
    }
    assert FirstAt(s, [sep], k);
    FirstAtUnique(s, [sep], IndexOf(s, [sep]).value, k);
    forall j ensures !OccursAt(b, [sep], j) {
      if 0 <= j && j + 1 <= |b| {
        assert b[j..j + 1] == [b[j]];
      }
    }
    assert IndexOf(b, [sep]) == None;
  }

  /** Where a one-character pattern never starts, the character is absent. */
  lemma AbsentChar(s: string, c: char, n: nat)
    requires n <= |s| && forall k :: 0 <= k < n ==> !OccursAt(s, [c], k)
    ensures c !in s[..n]
  {
    forall k | 0 <= k < n ensures s[..n][k] != c {
      assert !OccursAt(s, [c], k);
      assert s[k..k + 1] == [s[k]];
    }
  }
}
