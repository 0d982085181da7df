/**
 The proleptic Gregorian calendar, in the shape the `time` crate gives it:
 a `Month` enumeration and the check `Date::from_calendar_date` performs.
 The crate itself is not part of this model; this module restates the rule
 it applies (year within -9999..=9999, the crate's default range, and a day
 between 1 and the length of the month).
 */
module Calendar {
  import opened Wrappers

  datatype Month =
    | January | February | March | April | May | June
    | July | August | September | October | November | December

  /** The year range `time::Date` accepts without its `large-dates` feature. */
  const MinYear: int := -9999
  const MaxYear: int := 9999

  /** The number of a month, January being 1. */
  function MonthNumber(m: Month): (n: int)
    ensures 1 <= n <= 12
  {
    match m
    case January => 1
    case February => 2
    case March => 3
    case April => 4
    case May => 5
    case June => 6
    case July => 7
    case August => 8
    case September => 9
    case October => 10
    case November => 11
    case December => 12
  }

  /** The months in calendar order. */
  const Months: seq<Month> :=
    [January, February, March, April, May, June,
     July, August, September, October, November, December]

  /** The month with number `n`, if there is one: the table `parse_month`
      matches its integer against. */
  function MonthFromNumber(n: int): (m: Option<Month>)
    ensures m.Some? <==> 1 <= n <= 12
    ensures m.Some? ==> MonthNumber(m.value) == n
  {
    if 1 <= n <= 12 then Some(Months[n - 1]) else None
  }

  /** Numbering and lookup are inverse: every month is found again from its number. */
  lemma MonthRoundTrip(m: Month)
    ensures MonthFromNumber(MonthNumber(m)) == Some(m)
  {
  }

  /** Gregorian leap years: divisible by 4, except centuries not divisible by 400.
      Only divisibility is examined, so the result is the same for Rust's
      truncating `%` and Dafny's Euclidean `%`. */
  predicate IsLeapYear(y: int) {
    y % 4 == 0 && (y % 100 != 0 || y % 400 == 0)
  }

  /** The number of days of month `m` in year `y`. */
  function DaysInMonth(y: int, m: Month): (d: nat)
    ensures 28 <= d <= 31
    ensures m == February ==> (d == 29 <==> IsLeapYear(y))
    ensures m != February ==> d >= 30
  {
    match m
    case February => if IsLeapYear(y) then 29 else 28
    case April | June | September | November => 30
    case _ => 31
  }

  /** A calendar date. `day` is kept as an integer so that invalid triples can
      be represented and rejected. */
  datatype Date = Date(year: int, month: Month, day: int)

  /** A triple that names a day that exists, in the supported range of years.
      The Gregorian rule is stated here without the month lengths: every
      month has days 1 to 28; the 29th exists except in February of a common
      year; the 30th except in February; the 31st only in the seven long
      months. */
  predicate IsValidDate(d: Date) {
    && MinYear <= d.year <= MaxYear
    && 1 <= d.day
    && (|| d.day <= 28
        || (d.day == 29 && (d.month != February || IsLeapYear(d.year)))
        || (d.day == 30 && d.month != February)
        || (d.day == 31 && d.month in {January, March, May, July, August, October, December}))
  }

  /** The month lengths agree with the Gregorian rule: a day exists exactly
      when it lies between 1 and the length of its month. */
  lemma DaysInMonthRule(y: int, m: Month, day: int)
    requires MinYear <= y <= MaxYear
    ensures IsValidDate(Date(y, m, day)) <==> 1 <= day <= DaysInMonth(y, m)
  {
  }

  /** `time::Date::from_calendar_date`: the date, if the year is in range and
      the day is between 1 and the length of its month. */
  function FromCalendarDate(year: int, month: Month, day: int): (r: Option<Date>)
    ensures r.Some? <==> IsValidDate(Date(year, month, day))
    ensures r.Some? ==> r.value == Date(year, month, day)
  {
    if MinYear <= year <= MaxYear then
      DaysInMonthRule(year, month, day);
      if 1 <= day <= DaysInMonth(year, month) then Some(Date(year, month, day)) else None
    else None
  }

  /** February 29 exists exactly in leap years, and February 30 never. */
  lemma LeapDay(y: int)
    requires MinYear <= y <= MaxYear
    ensures IsValidDate(Date(y, February, 29)) <==> IsLeapYear(y)
    ensures !IsValidDate(Date(y, February, 30))
  {
  }

  /** The twelve months add up to a year of 365 days, 366 in a leap year. */
  lemma YearLength(y: int)
    ensures DaysInMonth(y, January) + DaysInMonth(y, February) + DaysInMonth(y, March)
          + DaysInMonth(y, April) + DaysInMonth(y, May) + DaysInMonth(y, June)
          + DaysInMonth(y, July) + DaysInMonth(y, August) + DaysInMonth(y, September)
          + DaysInMonth(y, October) + DaysInMonth(y, November) + DaysInMonth(y, December)
          == if IsLeapYear(y) then 366 else 365
  {
  }
}
