/** The five comparisons and unit-less `isBetween`. A comparison asks the
    receiver's instant to compare itself with the argument's: an Invalid
    receiver answers false at once, while an Invalid argument hands the
    library a missing value, which throws. */
module Comparisons {
  import opened Results
  import opened Values
  import opened Host
  import opened Text
  import opened Construct

  function IsSame(g: Gnoment, other: Gnoment): (r: Outcome<bool>)
    ensures g.Invalid? ==> r == Returns(false)
    ensures g.Valid? ==> (r.Throws? <==> other.Invalid?)
    ensures g.Valid? && other.Valid? ==> r == Returns(g.instant.epoch == other.instant.epoch)
  {
    match g
    case Invalid => Returns(false)
    case Valid(a) =>
      match other
      case Invalid => Throws
      case Valid(b) => Returns(Compare(a, b) == 0)
  }

  function IsSameOrBefore(g: Gnoment, other: Gnoment): (r: Outcome<bool>)
    ensures g.Invalid? ==> r == Returns(false)
    ensures g.Valid? ==> (r.Throws? <==> other.Invalid?)
    ensures g.Valid? && other.Valid? ==> r == Returns(g.instant.epoch <= other.instant.epoch)
  {
    match g
    case Invalid => Returns(false)
    case Valid(a) =>
      match other
      case Invalid => Throws
      case Valid(b) => Returns(Compare(a, b) <= 0)
  }

  function IsBefore(g: Gnoment, other: Gnoment): (r: Outcome<bool>)
    ensures g.Invalid? ==> r == Returns(false)
    ensures g.Valid? ==> (r.Throws? <==> other.Invalid?)
    ensures g.Valid? && other.Valid? ==> r == Returns(g.instant.epoch < other.instant.epoch)
  {
    match g
    case Invalid => Returns(false)
    case Valid(a) =>
      match other
      case Invalid => Throws
      case Valid(b) => Returns(Compare(a, b) < 0)
  }

  function IsSameOrAfter(g: Gnoment, other: Gnoment): (r: Outcome<bool>)
    ensures g.Invalid? ==> r == Returns(false)
    ensures g.Valid? ==> (r.Throws? <==> other.Invalid?)
    ensures g.Valid? && other.Valid? ==> r == Returns(g.instant.epoch >= other.instant.epoch)
  {
    match g
    case Invalid => Returns(false)
    case Valid(a) =>
      match other
      case Invalid => Throws
      case Valid(b) => Returns(Compare(a, b) >= 0)
  }

  function IsAfter(g: Gnoment, other: Gnoment): (r: Outcome<bool>)
    ensures g.Invalid? ==> r == Returns(false)
    ensures g.Valid? ==> (r.Throws? <==> other.Invalid?)
    ensures g.Valid? && other.Valid? ==> r == Returns(g.instant.epoch > other.instant.epoch)
  {
    match g
    case Invalid => Returns(false)
    case Valid(a) =>
      match other
      case Invalid => Throws
      case Valid(b) => Returns(Compare(a, b) > 0)
  }

  /** For two valid values exactly one of before, same and after holds. */
  lemma Trichotomy(g: Gnoment, other: Gnoment)
    requires g.Valid? && other.Valid?
    ensures IsBefore(g, other).Returns? && IsSame(g, other).Returns? && IsAfter(g, other).Returns?
    ensures var b, s, a := IsBefore(g, other).value, IsSame(g, other).value, IsAfter(g, other).value;
            (b || s || a) && !(b && s) && !(b && a) && !(s && a)
  {
  }

  /** The inclusive comparisons are the strict ones or'ed with sameness,
      throwing in exactly the same cases. */
  lemma InclusiveIsStrictOrSame(g: Gnoment, other: Gnoment)
    ensures IsSameOrBefore(g, other).Throws? == IsBefore(g, other).Throws? == IsSame(g, other).Throws?
    ensures IsSameOrBefore(g, other).Returns? ==>
              IsSameOrBefore(g, other).value == (IsBefore(g, other).value || IsSame(g, other).value)
    ensures IsSameOrAfter(g, other).Throws? == IsAfter(g, other).Throws?
    ensures IsSameOrAfter(g, other).Returns? ==>
              IsSameOrAfter(g, other).value == (IsAfter(g, other).value || IsSame(g, other).value)
  {
  }

  /** Before and after are converses, and sameness is symmetric. */
  lemma Converse(g: Gnoment, other: Gnoment)
    requires g.Valid? && other.Valid?
    ensures IsBefore(g, other) == IsAfter(other, g)
    ensures IsSameOrBefore(g, other) == IsSameOrAfter(other, g)
    ensures IsSame(g, other) == IsSame(other, g)
  {
  }

  /** Both of two outcomes, throwing if either throws. */
  function Both(a: Outcome<bool>, b: Outcome<bool>): (r: Outcome<bool>)
    ensures r.Throws? <==> a.Throws? || b.Throws?
    ensures r.Returns? ==> r.value == (a.value && b.value)
  {
    match a
    case Throws => Throws
    case Returns(x) =>
      match b
      case Throws => Throws
      case Returns(y) => Returns(x && y)
  }

  /** `isBetween(start, end, undefined, inclusivity)`: both bounds go
      through the constructor; the lower bound is inclusive exactly when
      `inclusivity[0]` is `[`, the upper exactly when `inclusivity[1]` is
      `]`. Both comparisons are evaluated. */
  function IsBetween(env: Env, g: Gnoment, start: Input, end: Input, inclusivity: string): (r: Outcome<bool>)
    ensures g.Invalid? ==> r == Returns(false)
    ensures g.Valid? && (New(env, start).Throws? || New(env, end).Throws?) ==> r.Throws?
    ensures g.Valid? && New(env, start).Returns? && New(env, end).Returns? ==>
              (r.Throws? <==> New(env, start).value.Invalid? || New(env, end).value.Invalid?)
    ensures g.Valid? && New(env, start).Returns? && New(env, end).Returns?
            && New(env, start).value.Valid? && New(env, end).value.Valid? ==>
              var lo, hi, e := New(env, start).value.instant.epoch, New(env, end).value.instant.epoch, g.instant.epoch;
              r == Returns((if At(inclusivity, 0, '[') then lo <= e else lo < e)
                           && (if At(inclusivity, 1, ']') then e <= hi else e < hi))
  {
    if g.Invalid? then Returns(false)
    else
      match New(env, start)
      case Throws => Throws
      case Returns(s) =>
        match New(env, end)
        case Throws => Throws
        case Returns(e) =>
          var afterStart := if At(inclusivity, 0, '[') then IsSameOrAfter(g, s) else IsAfter(g, s);
          var beforeEnd := if At(inclusivity, 1, ']') then IsSameOrBefore(g, e) else IsBefore(g, e);
          Both(afterStart, beforeEnd)
  }

  /** The default inclusivity `()` excludes both bounds; `[]` includes
      both. */
  lemma BetweenDefaultExclusive(env: Env, z: Zoned, lo: Zoned, hi: Zoned)
    ensures IsBetween(env, Valid(z), ZonedInput(lo), ZonedInput(hi), "()") == Returns(lo.epoch < z.epoch < hi.epoch)
    ensures IsBetween(env, Valid(z), ZonedInput(lo), ZonedInput(hi), "[]") == Returns(lo.epoch <= z.epoch <= hi.epoch)
  {
    assert !At("()", 0, '[') && !At("()", 1, ']');
    assert At("[]", 0, '[') && At("[]", 1, ']');
  }

  /** A value lies within its own closed interval but not its open one. */
  lemma BetweenItself(env: Env, z: Zoned)
    ensures IsBetween(env, Valid(z), ZonedInput(z), ZonedInput(z), "[]") == Returns(true)
    ensures IsBetween(env, Valid(z), ZonedInput(z), ZonedInput(z), "()") == Returns(false)
  {
    BetweenDefaultExclusive(env, z, z, z);
  }
}
