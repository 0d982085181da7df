/**
 Concrete inputs of the unit tests in `src/lib.rs`, and a few calendar edge
 cases, worked through the general lemmas.
 */
module Scenarios {
  import opened Wrappers
  import opened Lexer
  import opened Calendar
  import opened Dates
  import opened Values
  import opened Prices

  /** `2022-07-16` is read as 16 July 2022, with nothing left over. */
  lemma DateScenario(s: string)
    requires s == "2022-07-16"
    ensures ParseDate(s) == Success(Date(2022, July, 16), "")
  {
    assert s == "2022" + ("-" + ("07" + ("-" + ("16" + ""))));
    Year2022();
    assert DigitsValue("07") == 7 by { assert "07"[..1] == "0"; }
    assert DigitsValue("16") == 16 by { assert "16"[..1] == "1"; }
    ParseDateComplete(s, "2022", "07", "16", "", Date(2022, July, 16));
  }

  /** February 29 is refused in 2022, which is not a leap year. */
  lemma NoLeapDayIn2022(s: string)
    requires s == "2022-02-29"
    ensures ParseDate(s).Failure?
  {
    assert s == "2022" + ("-" + ("02" + ("-" + ("29" + ""))));
    Year2022();
    assert DigitsValue("02") == 2 by { assert "02"[..1] == "0"; }
    assert DigitsValue("29") == 29 by { assert "29"[..1] == "2"; }
    ParseDateInvalid(s, "2022", "02", "29", "", Date(2022, February, 29));
  }

  /** February 29 is accepted in the leap year 2024. */
  lemma LeapDayIn2024(s: string)
    requires s == "2024-02-29"
    ensures ParseDate(s) == Success(Date(2024, February, 29), "")
  {
    assert s == "2024" + ("-" + ("02" + ("-" + ("29" + ""))));
    assert DigitsValue("2024") == 2024 by {
      assert "2024"[..3] == "202" && "202"[..2] == "20" && "20"[..1] == "2";
    }
    assert DigitsValue("02") == 2 by { assert "02"[..1] == "0"; }
    assert DigitsValue("29") == 29 by { assert "29"[..1] == "2"; }
    ParseDateComplete(s, "2024", "02", "29", "", Date(2024, February, 29));
  }

  /** Month 13 is refused. */
  lemma NoThirteenthMonth(s: string)
    requires s == "2022-13-01"
    ensures ParseDate(s).Failure?
  {
    assert s == "2022" + ("-" + ("13" + ("-" + ("01" + ""))));
    assert DigitsValue("13") == 13 by { assert "13"[..1] == "1"; }
    ParseDateOfText(s, "2022", "13", "01", "");
  }

  /** Month 0 is refused. */
  lemma NoMonthZero(s: string)
    requires s == "2022-00-10"
    ensures ParseDate(s).Failure?
  {
    assert s == "2022" + ("-" + ("00" + ("-" + ("10" + ""))));
    assert DigitsValue("00") == 0 by { assert "00"[..1] == "0"; }
    ParseDateOfText(s, "2022", "00", "10", "");
  }

  /** The digits `2022` denote the year 2022. */
  lemma Year2022()
    ensures All(IsDigit, "2022") && DigitsValue("2022") == 2022
  {
    assert "2022"[..3] == "202" && "202"[..2] == "20" && "20"[..1] == "2";
  }

  /** The date of the price directive of the unit test, read from the text
      after `P `: what follows the date is left for the remaining fields. */
  lemma PriceDateScenario(t1: string, t2: string)
    requires t1 == "2022-07-12" + t2 && (t2 == [] || !IsDigit(t2[0]))
    ensures ParseDate(t1) == Success(Date(2022, July, 12), t2)
  {
    assert t1 == "2022" + ("-" + ("07" + ("-" + ("12" + t2))));
    Year2022();
    assert DigitsValue("07") == 7 by { assert "07"[..1] == "0"; }
    assert DigitsValue("12") == 12 by { assert "12"[..1] == "1"; }
    ParseDateComplete(t1, "2022", "07", "12", t2, Date(2022, July, 12));
  }

  /** The value in the price directive of the unit test: number and currency. */
  lemma PriceValueScenario(scan: NumberScanner, t3: string, t4: string)
    requires t3 == "699.21" + " " + "U" + t4 && t4 == " ; great buy?"
    requires scan(t3) == 6
    ensures ParseValue(scan, t3) == Success(Value("699.21", Some("U")), t4)
  {
    ParseValueWithCurrency(scan, "699.21", " ", "U", t4);
  }

  /** The comment of the price directive of the unit test, leading blank kept. */
  lemma PriceCommentScenario(t4: string)
    requires t4 == " ; great buy?"
    ensures ParsePriceComment(t4) == Success(" great buy?", "")
  {
    assert t4 == " " + ";" + " great buy?" + "";
    ParsePriceCommentComplete(" ", " great buy?", "");
  }

  /** The fields after the date in the price directive of the unit test. */
  lemma PriceFieldsScenario(scan: NumberScanner, t2: string, t3: string, t4: string)
    requires t2 == " " + ("TSLA" + (" " + t3))
    requires t3 == "699.21" + " " + "U" + t4 && t4 == " ; great buy?"
    requires scan(t3) == 6
    ensures ParsePriceFields(scan, Date(2022, July, 12), t2)
         == Success(Price(Date(2022, July, 12), "TSLA", Value("699.21", Some("U")),
                          Some(" great buy?")), "")
  {
    AssetText(t3, t4);
    PriceValueScenario(scan, t3, t4);
    PriceCommentScenario(t4);
    ParsePriceFieldsWithComment(scan, Date(2022, July, 12), " ", "TSLA", " ", t3,
                                Value("699.21", Some("U")), t4, " great buy?", "");
  }

  /** The asset of the unit test's directive is a maximal run of letters
      between single blanks. */
  lemma AssetText(t3: string, t4: string)
    requires t3 == "699.21" + " " + "U" + t4
    ensures Lexeme(IsSpace, " ", "TSLA" + (" " + t3))
    ensures Lexeme(IsAlpha, "TSLA", " " + t3)
    ensures Lexeme(IsSpace, " ", t3)
  {
  }

  /** The text of the price directive of the unit test, in the pieces its
      fields are read from. */
  lemma PriceText()
    ensures "P 2022-07-12 TSLA 699.21 U ; great buy?"
         == "P" + (" " + ("2022-07-12" + (" " + ("TSLA" + (" " + ("699.21" + " " + "U" + " ; great buy?"))))))
  {
  }

  /** The price directive of the unit test, assembled from its pieces. */
  lemma PricePiecesScenario(scan: NumberScanner, s: string, t1: string, t2: string,
                            t3: string, t4: string)
    requires s == "P" + (" " + t1) && t1 == "2022-07-12" + t2
    requires t2 == " " + ("TSLA" + (" " + t3))
    requires t3 == "699.21" + " " + "U" + t4 && t4 == " ; great buy?"
    requires scan(t3) == 6
    ensures ParsePrice(scan, s)
         == Success(Price(Date(2022, July, 12), "TSLA", Value("699.21", Some("U")),
                          Some(" great buy?")), "")
  {
    PriceHeadScenario(scan, t1, t2);
    PriceFieldsScenario(scan, t2, t3, t4);
  }

  /** The head of the price directive of the unit test: after `P`, a blank
      and the date, the fields that follow are read from what the date leaves. */
  lemma PriceHeadScenario(scan: NumberScanner, t1: string, t2: string)
    requires t1 == "2022-07-12" + t2 && (t2 == [] || !IsDigit(t2[0]))
    ensures ParsePrice(scan, "P" + (" " + t1)) == ParsePriceFields(scan, Date(2022, July, 12), t2)
  {
    HeadBlank(t1, t2);
    PriceDateScenario(t1, t2);
    ParsePriceSteps(scan, " ", t1, Date(2022, July, 12), t2);
  }

  /** The blank after the `P` of the unit test's directive is a maximal run. */
  lemma HeadBlank(t1: string, t2: string)
    requires t1 == "2022-07-12" + t2
    ensures Lexeme(IsSpace, " ", t1)
  {
    SingleBlank(t1);
  }

  /** One blank before a non-blank is a maximal blank run. */
  lemma SingleBlank(t: string)
    requires t != [] && !IsSpace(t[0])
    ensures Lexeme(IsSpace, " ", t)
  {
    assert " "[0] == ' ';
  }

  /** The price directive of the unit test: for any number scanner that reads
      `699.21` as the number, the directive yields the date 2022-07-12, the
      asset `TSLA`, the currency `U` and the comment ` great buy?`, the
      leading blank kept, with nothing left over. */
  lemma PriceScenario(scan: NumberScanner, s: string)
    requires s == "P 2022-07-12 TSLA 699.21 U ; great buy?"
    requires scan("699.21" + " " + "U" + " ; great buy?") == 6
    ensures ParsePrice(scan, s)
         == Success(Price(Date(2022, July, 12), "TSLA", Value("699.21", Some("U")),
                          Some(" great buy?")), "")
  {
    PriceText();
    var t3 := "699.21" + " " + "U" + " ; great buy?";
    var t2 := " " + ("TSLA" + (" " + t3));
    var t1 := "2022-07-12" + t2;
    PricePiecesScenario(scan, s, t1, t2, t3, " ; great buy?");
  }
}
