/** `getRelativeTime` and `getRelativeTimeString`: a millisecond difference
    described as "3 days ago", "1 hour from now", "just now" and so on. The
    current time and the date are passed in as integer milliseconds. */
module RelativeTime {
  import opened Wrappers
  import opened Strings

  const SecondMs: nat := 1000
  const MinuteMs: nat := 60_000
  const HourMs: nat := 3_600_000
  const DayMs: nat := 86_400_000

  datatype Unit = Year | Month | Week | Day | Hour | Minute | Second

  /** The unit counts of a non-negative difference. */
  datatype Counts = Counts(
    seconds: nat, minutes: nat, hours: nat, days: nat, weeks: nat, months: nat, years: nat)

  /** What the string says: a count of a unit, or that the moment is near. */
  datatype Phrase = Moment | Count(n: nat, unit: Unit)

  /** `a / m == k` when `a` is `m * k` plus a remainder below `m`. */
  lemma DivUnique(a: int, m: int, k: int, rem: int)
    requires m > 0 && 0 <= rem < m && a == m * k + rem
    ensures a / m == k
  {
    var q := a / m;
    var r := a % m;
    var d := q - k;
    assert m * q == m * k + m * d;
    if d > 0 {
      MulAtLeast(m, d);
    } else if d < 0 {
      MulAtMost(m, d);
    }
  }

  lemma MulAtLeast(m: int, d: int)
    requires m > 0 && d > 0
    ensures m * d >= m
  {
    assert m * d == m * (d - 1) + m;
  }

  lemma MulAtMost(m: int, d: int)
    requires m > 0 && d < 0
    ensures m * d <= -m
  {
    MulAtLeast(m, -d);
    assert m * (-d) == -(m * d);
  }

  lemma MulNonNegative(m: int, d: int)
    requires m >= 0 && d >= 0
    ensures m * d >= 0
  {
  }

  /** Euclid's decomposition by `b` then by `c` is one by `b * c`. */
  lemma Regroup(a: int, b: int, c: int, q: int, r: int, q2: int, r2: int)
    requires b > 0 && c > 0 && 0 <= r < b && 0 <= r2 < c
    requires a == b * q + r && q == c * q2 + r2
    ensures a == (b * c) * q2 + (b * r2 + r)
    ensures 0 <= b * r2 + r < b * c
  {
    assert b * q == b * (c * q2) + b * r2;
    assert b * (c * q2) == (b * c) * q2;
    MulNonNegative(b, c - 1 - r2);
    assert b * (c - 1 - r2) == b * c - b - b * r2;
  }

  /** Two floors in a row are one floor by the product. */
  lemma DivDiv(a: nat, b: nat, c: nat)
    requires b > 0 && c > 0
    ensures a / b / c == a / (b * c)
  {
    var q := a / b;
    Regroup(a, b, c, q, a % b, q / c, q % c);
    DivUnique(a, b * c, q / c, b * (q % c) + a % b);
  }

  /** The chain of floors in `getRelativeTimeString`. A month is counted as
      30.44 days and a year as 365.25 days, that is `days * 25 / 761` and
      `days * 4 / 1461`. */
  function Breakdown(diffMs: nat): (c: Counts)
    ensures c.seconds == diffMs / SecondMs
    ensures c.minutes == diffMs / MinuteMs
    ensures c.hours == diffMs / HourMs
    ensures c.days == diffMs / DayMs
    ensures c.weeks == diffMs / (7 * DayMs)
    ensures 761 * c.months <= 25 * c.days < 761 * (c.months + 1)
    ensures 1461 * c.years <= 4 * c.days < 1461 * (c.years + 1)
  {
    var seconds := diffMs / 1000;
    var minutes := seconds / 60;
    var hours := minutes / 60;
    var days := hours / 24;
    var weeks := days / 7;
    DivDiv(diffMs, 1000, 60);
    DivDiv(diffMs, 60_000, 60);
    DivDiv(diffMs, 3_600_000, 24);
    DivDiv(diffMs, DayMs, 7);
    Counts(seconds, minutes, hours, days, weeks, days * 25 / 761, days * 4 / 1461)
  }

  /** The order in which units are tried, largest first. */
  function Rank(u: Unit): nat {
    match u
    case Year => 0
    case Month => 1
    case Week => 2
    case Day => 3
    case Hour => 4
    case Minute => 5
    case Second => 6
  }

  function CountOf(c: Counts, u: Unit): nat {
    match u
    case Year => c.years
    case Month => c.months
    case Week => c.weeks
    case Day => c.days
    case Hour => c.hours
    case Minute => c.minutes
    case Second => c.seconds
  }

  /** The first unit with a non-zero count, seconds only above 30. */
  function Choose(c: Counts): (p: Phrase)
    ensures p.Count? ==> p.n == CountOf(c, p.unit) && p.n > 0
    ensures p.Count? ==> forall u | Rank(u) < Rank(p.unit) :: CountOf(c, u) == 0
    ensures p.Count? && p.unit == Second ==> p.n > 30
    ensures p.Moment? <==> (forall u | u != Second :: CountOf(c, u) == 0) && c.seconds <= 30
  {
    if c.years > 0 then Count(c.years, Year)
    else if c.months > 0 then Count(c.months, Month)
    else if c.weeks > 0 then Count(c.weeks, Week)
    else if c.days > 0 then Count(c.days, Day)
    else if c.hours > 0 then Count(c.hours, Hour)
    else if c.minutes > 0 then Count(c.minutes, Minute)
    else if c.seconds > 30 then Count(c.seconds, Second)
    else Moment
  }

  /** What `getRelativeTimeString` says about a difference. The unit depends
      only on the band the difference falls in. A year is 366 days or more
      (the first whole day count reaching 365.25) and a month 31 days or
      more (reaching 30.44). */
  function PhraseOf(diffMs: nat): (p: Phrase)
    ensures p.Moment? <==> diffMs < 31 * SecondMs
    ensures p.Count? ==> p.n == CountOf(Breakdown(diffMs), p.unit)
    ensures p.Count? ==>
              && p.n > 0
              && (p.unit == Second <==> 31 * SecondMs <= diffMs < MinuteMs)
              && (p.unit == Minute <==> MinuteMs <= diffMs < HourMs)
              && (p.unit == Hour <==> HourMs <= diffMs < DayMs)
              && (p.unit == Day <==> DayMs <= diffMs < 7 * DayMs)
              && (p.unit == Week <==> 7 * DayMs <= diffMs < 31 * DayMs)
              && (p.unit == Month <==> 31 * DayMs <= diffMs < 366 * DayMs)
              && (p.unit == Year <==> 366 * DayMs <= diffMs)
  {
    var c := Breakdown(diffMs);
    var d := c.days;
    assert c.years > 0 <==> d >= 366;
    assert c.months > 0 <==> d >= 31;
    Choose(c)
  }

  /** The unit word: singular exactly when the count is 1. */
  function UnitWord(u: Unit, n: nat): string {
    var singular := match u
      case Year => "year"
      case Month => "month"
      case Week => "week"
      case Day => "day"
      case Hour => "hour"
      case Minute => "minute"
      case Second => "second";
    if n == 1 then singular else singular + "s"
  }

  /** The word "second" on its own is never produced: seconds are only
      counted above 30. */
  lemma NoSingularSecond(diffMs: nat)
    requires PhraseOf(diffMs).Count? && PhraseOf(diffMs).unit == Second
    ensures UnitWord(Second, PhraseOf(diffMs).n) == "seconds"
  {
  }

  /** `getRelativeTimeString(diffMs, isFuture)`. */
  function RelativeTimeString(diffMs: nat, isFuture: bool): (r: string)
    ensures diffMs < 31 * SecondMs ==> r == (if isFuture then "in a moment" else "just now")
    ensures diffMs >= 31 * SecondMs ==>
              var p := PhraseOf(diffMs);
              && p.Count? && p.n > 0
              && r == NatToString(p.n) + " " + UnitWord(p.unit, p.n) + " "
                      + (if isFuture then "from now" else "ago")
  {
    var suffix := if isFuture then "from now" else "ago";
    match PhraseOf(diffMs)
    case Moment => if isFuture then "in a moment" else "just now"
    case Count(n, u) => NatToString(n) + " " + UnitWord(u, n) + " " + suffix
  }

  /** `getRelativeTime`: a date after `now` is described as the future with
      the absolute difference. `None` is a date string the date parser
      rejects: its time is NaN, every comparison on it is false, and the
      string falls through to "just now". The `catch` branch is unreachable
      because constructing a date does not throw. */
  function RelativeTime(nowMs: int, date: Option<int>): (r: string)
    ensures date.None? ==> r == "just now"
    ensures date.Some? && date.value <= nowMs ==> r == RelativeTimeString(nowMs - date.value, false)
    ensures date.Some? && date.value > nowMs ==> r == RelativeTimeString(date.value - nowMs, true)
  {
    match date
    case None => "just now"
    case Some(dateMs) =>
      var diffMs := nowMs - dateMs;
      if diffMs < 0 then RelativeTimeString(-diffMs, true) else RelativeTimeString(diffMs, false)
  }
}
