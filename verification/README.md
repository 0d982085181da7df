# hledger-parser: the journal recogniser of `src/lib.rs`, in Dafny

`hledger-parser` reads hledger plaintext-accounting journals with nom parser
combinators. This project models the part of `src/lib.rs` that has parsing
code: the date recogniser (`parse_date`, `parse_month`), the comment
recogniser (`parse_comment`), monetary values (`Value::parse`,
`Value::parse_currency`) and the price directive (`Price::parse`,
`Price::parse_comment`, `Price::new`), together with the record types of the
journal tree (`Block`, `Entry`, `LineOrComment`, `Line`, `Exchange`).

A parser is a pure function from the input text to either `Failure` or a
value with the unconsumed rest of the input (`Lexer.Parsed`, nom's
`IResult` with its error payload dropped). The nom primitives the source
combines (`char`, `space1`, `digit1`, `alpha1`, `take_till`, `opt`) are
defined in `Lexer` and characterised by maximal-run uniqueness lemmas, so
every parser's result is pinned down by its input. `Price::new` is the
constructor of the `Prices.Price` datatype: it stores its four arguments
unchanged.

Modules, one per concern of the source:

- `Wrappers`, `Lexer`: `Option`, the parse result, the nom primitives, and
  the decimal reading of digit runs (`str::parse`).
- `Calendar`: `time::Month` and the validity rule of
  `time::Date::from_calendar_date`.
- `Dates`, `Comments`, `Values`, `Prices`: the recognisers of `src/lib.rs`.
- `Journal`: the record types that have no parsing code at this revision.
- `Scenarios`: the inputs of the unit tests of `src/lib.rs` and calendar
  edge cases, derived from the general lemmas.

nom's floating-point recogniser `double` reads an `f64`; it is a foreign
library. It enters the model as a parameter, `Values.NumberScanner`, which
gives the length of the numeric prefix of its input (0 for none), and a
`Value` keeps the numeric text it consumed instead of the `f64`.

The `time` crate's default year range is -9999..=9999, so year 0 is accepted,
and it is a leap year: `Calendar.FromCalendarDate` accepts `0000-02-29`.

## Model

| member | source | states |
|---|---|---|
| Lexer.Span | src/lib.rs:6 | the length of the longest run of a character class at the head of the input: every character before it is in the class, the next one is not |
| Lexer.SpanUnique | src/lib.rs:6 | any prefix of the class that stops before a non-member has exactly Span's length, so the maximal run is unique |
| Lexer.TakeWhile1 | src/lib.rs:71-72 | `space1`, `digit1`, `alpha1`: succeed exactly when the input opens with a class member; the input is the run followed by the rest, and the run is maximal and non-empty |
| Lexer.TakeWhile1Unique | src/lib.rs:71-72 | every split into a maximal non-empty run and what follows is the split `space1`/`digit1`/`alpha1` return |
| Lexer.TakeTill | src/lib.rs:174 | `take_till` never fails; the input is the taken text followed by the rest; no stop character is taken; the rest is empty or starts with a stop character |
| Lexer.TakeTillUnique | src/lib.rs:174 | any split whose front has no stop character and whose back is empty or starts with one is the split `take_till` makes |
| Lexer.Opt | src/lib.rs:64 | `opt` always succeeds; it yields `None` exactly when the inner parser fails, and then consumes nothing; otherwise it yields `Some` of the inner value with the inner remainder; the remainder is a suffix of the input whenever the inner parser's is |
| Lexer.Char | src/lib.rs:120 | `char(c)` succeeds exactly when the input opens with `c`; it returns `c` and the input after it |
| Lexer.DigitsValue | src/lib.rs:140 | `str::parse` on a digit run: the value is 0 exactly when every digit is `0` |
| Lexer.DecimalOfDigitsValue | src/lib.rs:140 | a digit run without a leading zero is the decimal rendering of the number it denotes |
| Lexer.LeadingZero | src/lib.rs:140 | leading zeroes do not change the number a digit run denotes (`07` is 7) |
| Lexer.DigitsValueOfDecimal | src/lib.rs:140 | reading back the decimal rendering of a natural gives that natural |
| Calendar.MonthNumber | src/lib.rs:155-167 | every month's number is in 1..12 |
| Calendar.MonthFromNumber | src/lib.rs:155-169 | a month is found exactly for 1..12, and it is the month with that number; every other number fails |
| Calendar.MonthRoundTrip | src/lib.rs:155-167 | every month is found again from its number |
| Calendar.DaysInMonth | src/lib.rs:146 | months have 28 to 31 days; February has 29 exactly in leap years; the other months have at least 30 |
| Calendar.DaysInMonthRule | src/lib.rs:146 | inside the year range, the calendar rule for a valid day agrees with counting up to the month's length |
| Calendar.FromCalendarDate | src/lib.rs:146-149 | a date is built exactly when the year is in -9999..=9999 and the day is 1..28, or 29 outside February or in a leap year (divisible by 4 and not by 100, or by 400), or 30 outside February, or 31 in a 31-day month; it is the given triple |
| Calendar.LeapDay | src/lib.rs:146 | February 29 exists exactly in leap years; February 30 never exists |
| Calendar.YearLength | src/lib.rs:146 | the month lengths add up to 366 in a leap year and 365 otherwise |
| Dates.ParseMonth | src/lib.rs:152-170 | fails on input not opening with a digit; on success it consumed a maximal digit run whose value is the returned month's number, and leaves a suffix |
| Dates.ParseMonthComplete | src/lib.rs:152-170 | on a maximal digit run, `parse_month` succeeds exactly when its value is in 1..12, returning that month and leaving what follows the run |
| Dates.ParseDate | src/lib.rs:139-150 | fails on input not opening with a digit; on success the date is valid, the remainder is a suffix and does not open with a digit |
| Dates.ParseDateOfText | src/lib.rs:139-150 | on the text `y-m-d` followed by a rest, success can only return the date the three digit runs denote, leaving that rest |
| Dates.ParseDateComplete | src/lib.rs:139-150 | on the text of a valid date, `parse_date` returns exactly that date and the text after the day |
| Dates.ParseDateInvalid | src/lib.rs:146-148 | on the text of a triple that is not a valid date, `parse_date` fails |
| Dates.ParseDateSound | src/lib.rs:139-150 | whatever `parse_date` accepts is the text of three digit runs denoting the returned date, followed by the remainder |
| Dates.DateFields | src/lib.rs:140-144 | the year, month and day digit runs of an accepted date, which spell the consumed text and denote the date |
| Comments.ParseComment | src/lib.rs:172-177 | succeeds exactly on input opening with `;`; the input is `;`, the newline-free comment and the rest, which is empty or starts with the newline |
| Comments.ParseCommentRoundTrip | src/lib.rs:172-177 | parsing `;` followed by newline-free text and then the end or a newline gives back that text and leaves the newline |
| Values.ParseNumber | src/lib.rs:63 | the number token is the scanner's non-empty prefix; it fails exactly when the scanner finds none |
| Values.ParseCurrency | src/lib.rs:70-75 | succeeds exactly when blanks and then a letter open the input; it skips a maximal blank run and returns the maximal letter run after it |
| Values.ParseCurrencyComplete | src/lib.rs:70-75 | blanks then letters are read as that currency tag, leaving what follows the letters |
| Values.ParseValue | src/lib.rs:62-68 | succeeds exactly when the scanner finds a number; the number is that prefix; a currency is present exactly when blanks and a letter follow it; without one nothing after the number is consumed; with one, the text between the number and the tag is a maximal blank run and the tag is a maximal letter run |
| Values.ParseValueWithCurrency | src/lib.rs:62-68 | a number followed by blanks and a tag is read as that number and tag, leaving what follows the tag |
| Values.ParseValueBare | src/lib.rs:62-68 | a number not followed by a currency is read alone, leaving exactly the input after the number |
| Prices.ParsePriceComment | src/lib.rs:133-136 | succeeds exactly when blanks and `;` open the input; the blanks are a maximal run, and the comment is the newline-free text up to the end or a newline |
| Prices.ParsePriceCommentComplete | src/lib.rs:133-136 | blanks, `;`, newline-free text and then the end or a newline are read as that text |
| Prices.PriceParsedExtend | src/lib.rs:119-122 | what a read of the fields guarantees still holds after the consumed `P`, blanks and date are put back in front |
| Prices.ParsePrice | src/lib.rs:119-131 | on success the input opens with `P` and a blank, the date is valid, the remainder is a suffix, the asset is a non-empty letter run, a comment is newline-free text after a `;` ending at the end or a newline, and without a comment the remainder does not open with one |
| Prices.ParsePriceFields | src/lib.rs:123-130 | the fields after the date keep the given date and meet the same guarantees about asset, comment and remainder |
| Prices.ParsePriceSteps | src/lib.rs:119-122 | once `P`, maximal blanks and a date have been read, the rest of the directive is read exactly as the fields after the date |
| Prices.ParsePriceFieldsWithComment | src/lib.rs:123-130 | blanks, an asset, blanks, a value and a comment are read as the price with exactly that asset, value and comment |
| Prices.ParsePriceFieldsBare | src/lib.rs:123-130 | blanks, an asset, blanks and a value not followed by a comment are read as the price with no comment, leaving what follows the value |
| Prices.ParsePriceFieldsSound | src/lib.rs:123-127 | whatever the fields after the date accept is a maximal blank run, the asset's maximal letter run and a maximal blank run followed by the value's text; the returned asset and value are the ones read there, and the comment is the one read after the value, or absent with the remainder right after the value |
| Prices.ParsePriceSound | src/lib.rs:119-130 | whatever `Price::parse` accepts is `P`, a maximal blank run and text from which the returned date is read, followed by fields that spell the returned asset, value and comment |
| Scenarios.DateScenario | src/lib.rs:183-187 | `2022-07-16` is read as 16 July 2022 with nothing left |
| Scenarios.NoLeapDayIn2022 | src/lib.rs:146-148 | `2022-02-29` is refused |
| Scenarios.LeapDayIn2024 | src/lib.rs:146-147 | `2024-02-29` is read as 29 February 2024 |
| Scenarios.NoThirteenthMonth | src/lib.rs:155-168 | `2022-13-01` is refused |
| Scenarios.NoMonthZero | src/lib.rs:155-168 | `2022-00-10` is refused |
| Scenarios.PriceDateScenario | src/lib.rs:191 | the date of the unit test's price directive is 12 July 2022, leaving the text after it |
| Scenarios.PriceValueScenario | src/lib.rs:191-194 | the value of the unit test's directive is the number `699.21` with currency `U`, leaving the comment part |
| Scenarios.PriceCommentScenario | src/lib.rs:133-136 | ` ; great buy?` is read as the comment ` great buy?` with nothing left |
| Scenarios.PriceFieldsScenario | src/lib.rs:123-130 | the fields after the unit test's date are the asset `TSLA`, the value `699.21 U` and the comment |
| Scenarios.PriceHeadScenario | src/lib.rs:119-122 | after `P`, a blank and the unit test's date, the directive is read as the fields that follow |
| Scenarios.PricePiecesScenario | src/lib.rs:189-193 | the unit test's directive, assembled from its pieces, is read as the expected price with nothing left |
| Scenarios.PriceScenario | src/lib.rs:189-195 | `P 2022-07-12 TSLA 699.21 U ; great buy?` is read as the price of asset `TSLA` on 12 July 2022 at `699.21 U` with comment ` great buy?`, nothing left |

## Left out

- Values.ParseNumber: nom's `double` is a foreign recogniser; the model takes the length of the number it reads as a parameter and does not restate which texts (signs, exponents, `inf`, `nan`) it accepts.
- Values.ParseValue: the amount is kept as its text, not as the `f64` it denotes; floating-point conversion and rounding are not modelled.
- Scenarios.PriceScenario: the unit test's check that the value equals `699.21` as an `f64` is stated only as the number text `699.21`, for a scanner that reads six characters there.
- Error payloads: nom reports the input position and an error kind, and distinguishes recoverable errors from failures; every error is the single value `Failure` here. All parsers of the source are the `complete` variants, so incomplete-input results do not arise.
- Integer widths: `str::parse` reads the year into `i32`, the day into `u8` and the month into `i32`, and a run too large for its type fails. Digit runs are read as unbounded naturals; every value that would overflow is already outside the accepted year, month or day range, so the same inputs fail.
- The `time` crate's `Date` representation and its other operations are not part of this model; only the validity rule of `Date::from_calendar_date` is, for the crate's default year range without the `large-dates` feature.
- `Price::new`: the `Into<String>` conversion of the asset is the identity on text, so the constructor is the datatype constructor and has no member of its own.
- `Journal`: `Block`, `Entry`, `LineOrComment`, `Line` and `Exchange` have no parsing or other code at this revision, so they are declared as datatypes without operations.
- The `Debug` derivations and the test module's `unwrap` are not modelled.
