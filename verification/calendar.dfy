/**
 * Calendar arithmetic for the date windows of the reporting queries.
 * Instants are whole milliseconds since 1970-01-01T00:00 in a proleptic
 * Gregorian calendar; the local time zone is taken to be UTC.
 */
module Calendar {

  /** An instant: milliseconds since the epoch. */
  type Time = int

  /** The length of one calendar day. */
  const DAY_MS: int := 86_400_000

  predicate IsLeap(y: int) {
    y % 4 == 0 && (y % 100 != 0 || y % 400 == 0)
  }

  /** Leap years in [1, y) counted with floor division, so that it also holds for y <= 0. */
  function LeapYearsBefore(y: int): int {
    (y - 1) / 4 - (y - 1) / 100 + (y - 1) / 400
  }

  /** Days from 1970-01-01 to January 1 of year `y` (negative before 1970). */
  function DaysBeforeYear(y: int): int {
    365 * (y - 1970) + LeapYearsBefore(y) - LeapYearsBefore(1970)
  }

  /** Days from January 1 to the first day of month `m` (0 = January) of year `y`. */
  function DaysBeforeMonth(y: int, m: int): int
    requires 0 <= m < 12
  {
    [0, 31, 59, 90, 120, 151, 181, 212, 243, 273, 304, 334][m]
      + (if m >= 2 && IsLeap(y) then 1 else 0)
  }

  /**
   * Midnight on the first day of month `m` of year `y`. Like the Date
   * constructor, a month outside 0..11 rolls over into earlier or later years.
   */
  function MonthStart(y: int, m: int): Time {
    var year := y + m / 12;
    (DaysBeforeYear(year) + DaysBeforeMonth(year, m % 12)) * DAY_MS
  }

  /**
   * The largest distance from the epoch a Date can hold: a time value further away
   * than this is clipped to NaN, an invalid Date.
   */
  const MAX_TIME: int := 8_640_000_000_000_000

  /** `t` is a time value a Date can hold (TimeClip, section 21.4.1.31 of the 2024 edition of ECMA-262). */
  predicate ValidTime(t: Time) {
    -MAX_TIME <= t <= MAX_TIME
  }

  /**
   * The year a Date constructor or `setYear` stores for year argument `y`: 0..99 mean
   * 1900..1999. The year stored is never itself a two-digit year, and it keeps the last
   * two digits of the argument.
   */
  function FullYear(y: int): (r: int)
    ensures !(0 <= r <= 99)
    ensures r % 100 == y % 100
    ensures y <= r
  {
    if 0 <= y <= 99 then 1900 + y else y
  }

  /** Reading a stored year back as a year argument gives the same year. */
  lemma FullYearIdempotent(y: int)
    ensures FullYear(FullYear(y)) == FullYear(y)
  {
    var r := FullYear(y);
    assert !(0 <= r <= 99);
  }

  /**
   * `new Date(y, m, 1)`: the first instant of month `m` of the year the constructor reads
   * from `y`. It is midnight, and a month outside 0..11 rolls over into the years around it.
   */
  function NewDate(y: int, m: int): (r: Time)
    ensures r % DAY_MS == 0
    ensures r == MonthStart(FullYear(y) + m / 12, m % 12)
  {
    var year := FullYear(y);
    assert (m % 12) / 12 == 0 && (m % 12) % 12 == m % 12;
    WholeDays(DaysBeforeYear(year + m / 12) + DaysBeforeMonth(year + m / 12, m % 12));
    MonthStart(year, m)
  }

  /** A whole number of days is a multiple of a day's length. */
  lemma WholeDays(days: int)
    ensures (days * DAY_MS) % DAY_MS == 0
  {
  }

  /** One more year contains exactly one more leap year when `y` itself is a leap year. */
  lemma LeapStep(y: int)
    ensures LeapYearsBefore(y + 1) == LeapYearsBefore(y) + (if IsLeap(y) then 1 else 0)
  {
    QuotientStep(y);
  }

  /** Each of the three divisors of the leap-year rule divides `y` exactly when the quotient steps up at `y`. */
  lemma QuotientStep(y: int)
    ensures y / 4 == (y - 1) / 4 + (if y % 4 == 0 then 1 else 0)
    ensures y / 100 == (y - 1) / 100 + (if y % 100 == 0 then 1 else 0)
    ensures y / 400 == (y - 1) / 400 + (if y % 400 == 0 then 1 else 0)
    ensures y % 400 == 0 ==> y % 100 == 0
    ensures y % 100 == 0 ==> y % 4 == 0
  {
  }

  /** A year lasts 365 days, or 366 in a leap year. */
  lemma YearLength(y: int)
    ensures DaysBeforeYear(y + 1) - DaysBeforeYear(y) == if IsLeap(y) then 366 else 365
  {
    LeapStep(y);
  }

  /** Every month lasts between 28 and 31 days, also across the turn of a year. */
  lemma MonthLength(y: int, m: int)
    ensures MonthStart(y, m) + 28 * DAY_MS <= MonthStart(y, m + 1) <= MonthStart(y, m) + 31 * DAY_MS
  {
    var year := y + m / 12;
    if m % 12 == 11 {
      assert (m + 1) / 12 == m / 12 + 1 && (m + 1) % 12 == 0;
      YearLength(year);
    } else {
      assert (m + 1) / 12 == m / 12 && (m + 1) % 12 == m % 12 + 1;
    }
  }

  /**
   * Moving a normalised first-of-month one month on (`setMonth(getMonth() + 1)`)
   * reaches the first of the month after the one the constructor was given.
   */
  lemma NextMonthOfNormalised(y: int, m: int)
    ensures MonthStart(y + m / 12, m % 12 + 1) == MonthStart(y, m + 1)
  {
    var next := m % 12 + 1;
    if m % 12 == 11 {
      assert (m + 1) / 12 == m / 12 + 1 && (m + 1) % 12 == 0;
      assert next / 12 == 1 && next % 12 == 0;
    } else {
      assert (m + 1) / 12 == m / 12 && (m + 1) % 12 == m % 12 + 1;
      assert next / 12 == 0 && next % 12 == next;
    }
    assert y + m / 12 + next / 12 == y + (m + 1) / 12;
    assert next % 12 == (m + 1) % 12;
  }

  /** Month starts increase with the month number. */
  lemma {:induction false} MonthStartsIncrease(y: int, a: int, b: int)
    requires a <= b
    ensures MonthStart(y, a) <= MonthStart(y, b)
    ensures a < b ==> MonthStart(y, a) < MonthStart(y, b)
    decreases b - a
  {
    if a < b {
      MonthLength(y, a);
      MonthStartsIncrease(y, a + 1, b);
    }
  }
}
