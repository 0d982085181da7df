/**
 The date recogniser of `src/lib.rs`: `parse_month` and `parse_date`, reading
 the ISO 8601 calendar date form `YYYY-MM-DD` (any number of digits per field)
 and keeping only triples that name a real day.

 The digit runs are read as unbounded naturals. The source reads them into
 fixed-width integers, and a run too large for its type fails there; every such
 value is also outside the month range 1..12, the day range 1..31 or the year
 range up to 9999, so both fail on the same inputs. A year is never negative,
 because `digit1` admits no sign.
 */
module Dates {
  import opened Wrappers
  import opened Lexer
  import opened Calendar

  /** `parse_month`: a maximal digit run whose value is a month number. */
  function ParseMonth(s: string): (r: Parsed<Month>)
    ensures s == [] || !IsDigit(s[0]) ==> r.Failure?
    ensures r.Success? ==> IsSuffix(r.rest, s)
    ensures r.Success? ==>
      && Lexeme(IsDigit, s[..|s| - |r.rest|], r.rest)
      && DigitsValue(s[..|s| - |r.rest|]) == MonthNumber(r.value)
  {
    var ds := Digit1(s);
    if ds.Failure? then Failure
    else
      assert s[..|s| - |ds.rest|] == ds.value;
      match MonthFromNumber(DigitsValue(ds.value))
      case None => Failure
      case Some(m) => Success(m, ds.rest)
  }

  /** Given the digit run at the head of the input, `parse_month` succeeds
      exactly when its value is in 1..12, returns that month and leaves what
      follows the run. Values such as 0 or 13 fail. */
  lemma ParseMonthComplete(s: string, ds: string, rest: string)
    requires s == ds + rest && Lexeme(IsDigit, ds, rest)
    ensures ParseMonth(s).Success? <==> 1 <= DigitsValue(ds) <= 12
    ensures ParseMonth(s).Success? ==>
      ParseMonth(s).rest == rest && MonthNumber(ParseMonth(s).value) == DigitsValue(ds)
  {
    TakeWhile1Unique(IsDigit, s, ds, rest);
  }

  /** `parse_date`: `digits "-" digits "-" digits`, then the calendar check of
      `time::Date::from_calendar_date`. */
  function ParseDate(s: string): (r: Parsed<Date>)
    ensures s == [] || !IsDigit(s[0]) ==> r.Failure?
    ensures r.Success? ==> IsSuffix(r.rest, s)
    ensures r.Success? ==> IsValidDate(r.value)
    ensures r.Success? ==> r.rest == [] || !IsDigit(r.rest[0])
  {
    var y := Digit1(s);
    if y.Failure? then Failure else
    var dash1 := Char('-', y.rest);
    if dash1.Failure? then Failure else
    var m := ParseMonth(dash1.rest);
    if m.Failure? then Failure else
    var dash2 := Char('-', m.rest);
    if dash2.Failure? then Failure else
    var d := Digit1(dash2.rest);
    if d.Failure? then Failure else
    match FromCalendarDate(DigitsValue(y.value), m.value, DigitsValue(d.value))
    case None => Failure
    case Some(date) =>
      assert IsSuffix(d.rest, s) by {
        SuffixOfSplit(d.rest, dash2.rest, m.rest);
        SuffixOfSplit(d.rest, m.rest, dash1.rest);
        SuffixOfSplit(d.rest, dash1.rest, y.rest);
        SuffixOfSplit(d.rest, y.rest, s);
      }
      Success(date, d.rest)
  }

  /** `s` spells `y-m-d` followed by `rest`: three digit runs, the day's maximal. */
  ghost predicate DateText(s: string, y: string, m: string, d: string, rest: string) {
    && s == y + ("-" + (m + ("-" + (d + rest))))
    && |y| > 0 && All(IsDigit, y)
    && |m| > 0 && All(IsDigit, m)
    && Lexeme(IsDigit, d, rest)
  }

  /** `date` is the triple the digit runs `y`, `m`, `d` denote. */
  ghost predicate Denotes(date: Date, y: string, m: string, d: string) {
    && All(IsDigit, y) && All(IsDigit, m) && All(IsDigit, d)
    && date.year == DigitsValue(y)
    && MonthNumber(date.month) == DigitsValue(m)
    && date.day == DigitsValue(d)
  }

  /** On the text of a date, `parse_date` can only return the date the text
      denotes, leaving exactly what follows the day's digits. With the
      validity ParseDate ensures, an invalid triple (such as February 30, or a
      month 13) always fails. */
  lemma ParseDateOfText(s: string, y: string, m: string, d: string, rest: string)
    requires DateText(s, y, m, d, rest)
    ensures ParseDate(s).Success? ==>
      ParseDate(s).rest == rest && Denotes(ParseDate(s).value, y, m, d)
  {
    DateTextSteps(s, y, m, d, rest);
  }

  /** On the text of a valid date, `parse_date` succeeds with that date. */
  lemma ParseDateComplete(s: string, y: string, m: string, d: string, rest: string, date: Date)
    requires DateText(s, y, m, d, rest)
    requires Denotes(date, y, m, d) && IsValidDate(date)
    ensures ParseDate(s) == Success(date, rest)
  {
    DateTextSteps(s, y, m, d, rest);
    ParseMonthComplete(m + ("-" + (d + rest)), m, "-" + (d + rest));
    MonthRoundTrip(date.month);
  }

  /** On the text of an invalid triple, `parse_date` fails. */
  lemma ParseDateInvalid(s: string, y: string, m: string, d: string, rest: string, date: Date)
    requires DateText(s, y, m, d, rest)
    requires Denotes(date, y, m, d) && !IsValidDate(date)
    ensures ParseDate(s).Failure?
  {
    ParseDateOfText(s, y, m, d, rest);
    forall m1: Month, m2: Month | MonthNumber(m1) == MonthNumber(m2) ensures m1 == m2 {
      MonthRoundTrip(m1);
      MonthRoundTrip(m2);
    }
  }

  /** Whatever `parse_date` accepts is the text of the date it returns. */
  lemma ParseDateSound(s: string)
    requires ParseDate(s).Success?
    ensures exists y, m, d :: DateText(s, y, m, d, ParseDate(s).rest)
                           && Denotes(ParseDate(s).value, y, m, d)
  {
    var y, m, d := DateFields(s);
  }

  /** The digit runs of an accepted date. */
  lemma DateFields(s: string) returns (y: string, m: string, d: string)
    requires ParseDate(s).Success?
    ensures DateText(s, y, m, d, ParseDate(s).rest) && Denotes(ParseDate(s).value, y, m, d)
  {
    ParseDatePieces(s);
    var yr := Digit1(s);
    var t1 := yr.rest[1..];
    var mr := ParseMonth(t1);
    var t2 := mr.rest[1..];
    var dr := Digit1(t2);
    y, m, d := yr.value, t1[..|t1| - |mr.rest|], dr.value;
    SplitHead('-', yr.rest);
    SplitAtSuffix(mr.rest, t1);
    SplitHead('-', mr.rest);
    Assemble(s, y, yr.rest, t1, m, mr.rest, t2, d, dr.rest);
  }

  /** The text rebuilt from the pieces of a date, right-nested as DateText has it. */
  lemma Assemble(s: string, y: string, yrest: string, t1: string, m: string,
                 mrest: string, t2: string, d: string, rest: string)
    requires s == y + yrest && yrest == "-" + t1 && t1 == m + mrest
    requires mrest == "-" + t2 && t2 == d + rest
    ensures s == y + ("-" + (m + ("-" + (d + rest))))
  {
  }

  /** The successful steps of an accepted date, one by one. */
  lemma ParseDatePieces(s: string)
    requires ParseDate(s).Success?
    ensures Digit1(s).Success? && Digit1(s).rest != [] && Digit1(s).rest[0] == '-'
    ensures ParseMonth(Digit1(s).rest[1..]).Success?
    ensures ParseMonth(Digit1(s).rest[1..]).rest != []
         && ParseMonth(Digit1(s).rest[1..]).rest[0] == '-'
    ensures Digit1(ParseMonth(Digit1(s).rest[1..]).rest[1..]).Success?
    ensures ParseDate(s)
         == Success(Date(DigitsValue(Digit1(s).value),
                         ParseMonth(Digit1(s).rest[1..]).value,
                         DigitsValue(Digit1(ParseMonth(Digit1(s).rest[1..]).rest[1..]).value)),
                    Digit1(ParseMonth(Digit1(s).rest[1..]).rest[1..]).rest)
  {
  }

  /** The pieces `parse_date` splits a date's text into. */
  lemma DateTextSteps(s: string, y: string, m: string, d: string, rest: string)
    requires DateText(s, y, m, d, rest)
    ensures Digit1(s) == Success(y, "-" + (m + ("-" + (d + rest))))
    ensures Char('-', "-" + (m + ("-" + (d + rest)))) == Success('-', m + ("-" + (d + rest)))
    ensures Char('-', "-" + (d + rest)) == Success('-', d + rest)
    ensures Digit1(d + rest) == Success(d, rest)
    ensures ParseMonth(m + ("-" + (d + rest))).Success? ==>
      ParseMonth(m + ("-" + (d + rest))).rest == "-" + (d + rest)
      && MonthNumber(ParseMonth(m + ("-" + (d + rest))).value) == DigitsValue(m)
  {
    TakeWhile1Unique(IsDigit, s, y, "-" + (m + ("-" + (d + rest))));
    TakeWhile1Unique(IsDigit, d + rest, d, rest);
    ParseMonthComplete(m + ("-" + (d + rest)), m, "-" + (d + rest));
  }
}
