/**
 The price directive of `src/lib.rs`: `Price::new`, `Price::parse` and
 `Price::parse_comment`, reading `P ws date ws ASSET ws value [ws comment]`
 such as `P 2022-07-12 TSLA 699.21 U ; great buy?`.
 */
module Prices {
  import opened Wrappers
  import opened Lexer
  import opened Calendar
  import opened Dates
  import opened Comments
  import opened Values

  /** The price of an asset as of a date. The datatype's constructor is
      `Price::new`: it stores the date, value and comment unchanged and the
      asset as an owned copy of the given text. */
  datatype Price = Price(date: Date, asset: string, value: Value, comment: Option<string>)

  /** The input opens with spaces or tabs followed by a `;`. */
  predicate CommentAhead(s: string) {
    s != [] && IsSpace(s[0]) && Span(IsSpace, s) < |s| && s[Span(IsSpace, s)] == ';'
  }

  /** `Price::parse_comment`: one or more spaces or tabs, then a comment. */
  function ParsePriceComment(s: string): (r: Parsed<string>)
    ensures r.Success? <==> CommentAhead(s)
    ensures r.Success? ==> IsSuffix(";" + r.value + r.rest, s)
    ensures r.Success? ==>
      Lexeme(IsSpace, s[..|s| - |";" + r.value + r.rest|], ";" + r.value + r.rest)
    ensures r.Success? ==> '\n' !in r.value && (r.rest == [] || r.rest[0] == '\n')
  {
    var ws := Space1(s);
    if ws.Failure? then Failure
    else
      SpanUnique(IsSpace, s, |ws.value|);
      var c := ParseComment(ws.rest);
      if c.Failure? then Failure
      else
        assert s[..|s| - |";" + c.value + c.rest|] == ws.value;
        c
  }

  /** Blanks, a `;`, newline-free text and then the end or a newline are read
      as that comment text, leaving the newline. */
  lemma ParsePriceCommentComplete(ws: string, text: string, rest: string)
    requires Lexeme(IsSpace, ws, ";" + text + rest)
    requires '\n' !in text && (rest == [] || rest[0] == '\n')
    ensures ParsePriceComment(ws + ";" + text + rest) == Success(text, rest)
  {
    var s := ws + ";" + text + rest;
    assert s == ws + (";" + text + rest);
    TakeWhile1Unique(IsSpace, s, ws, ";" + text + rest);
    ParseCommentRoundTrip(text, rest);
  }

  /** What a successful read of the fields after the date guarantees about
      the price `p` and the remainder `rest` of input `s`: the remainder is a
      suffix of the input, the asset is a non-empty run of letters, a comment
      is the newline-free text after a `;` that ends the consumed text, and
      when there is no comment the remainder does not open with one. */
  ghost predicate PriceParsed(s: string, p: Price, rest: string) {
    && IsSuffix(rest, s)
    && |p.asset| > 0 && All(IsAlpha, p.asset)
    && (p.comment.Some? ==>
         && '\n' !in p.comment.value
         && (rest == [] || rest[0] == '\n')
         && IsSuffix(";" + p.comment.value + rest, s))
    && (p.comment.None? ==> !CommentAhead(rest))
  }

  /** PriceParsed survives prepending consumed text to the input. */
  lemma PriceParsedExtend(t: string, s: string, p: Price, rest: string)
    requires IsSuffix(t, s) && PriceParsed(t, p, rest)
    ensures PriceParsed(s, p, rest)
  {
    SuffixOfSplit(rest, t, s);
    if p.comment.Some? {
      SuffixOfSplit(";" + p.comment.value + rest, t, s);
    }
  }

  /** `Price::parse`: `P`, blanks and a date; the rest is ParsePriceFields. */
  function ParsePrice(scan: NumberScanner, s: string): (r: Parsed<Price>)
    ensures r.Success? ==> |s| >= 2 && s[0] == 'P' && IsSpace(s[1])
    ensures r.Success? ==> IsValidDate(r.value.date) && PriceParsed(s, r.value, r.rest)
  {
    var p := Char('P', s);
    if p.Failure? then Failure else
    var ws1 := Space1(p.rest);
    if ws1.Failure? then Failure else
    var date := ParseDate(ws1.rest);
    if date.Failure? then Failure else
    var r := ParsePriceFields(scan, date.value, date.rest);
    assert r.Success? ==> PriceParsed(s, r.value, r.rest) by {
      if r.Success? {
        ConcatSuffix(s[..1], p.rest);
        ConcatSuffix(ws1.value, ws1.rest);
        SuffixOfSplit(ws1.rest, p.rest, s);
        SuffixOfSplit(date.rest, ws1.rest, s);
        PriceParsedExtend(date.rest, s, r.value, r.rest);
      }
    }
    r
  }

  /** The fields of `Price::parse` after the date: blanks, the asset's letters,
      blanks, a value, and optionally blanks and a comment. */
  function ParsePriceFields(scan: NumberScanner, date: Date, s: string): (r: Parsed<Price>)
    ensures r.Success? ==> r.value.date == date && PriceParsed(s, r.value, r.rest)
  {
    var ws2 := Space1(s);
    if ws2.Failure? then Failure else
    var asset := Alpha1(ws2.rest);
    if asset.Failure? then Failure else
    var ws3 := Space1(asset.rest);
    if ws3.Failure? then Failure else
    var value := ParseValue(scan, ws3.rest);
    if value.Failure? then Failure else
    var cmt := ParsePriceComment(value.rest);
    assert cmt.Success? ==> IsSuffix(cmt.rest, value.rest) by {
      if cmt.Success? {
        SuffixOfSplit(cmt.rest, ";" + cmt.value + cmt.rest, value.rest);
      }
    }
    var comment := Opt(cmt, value.rest);
    assert IsSuffix(value.rest, s) by {
      ConcatSuffix(ws2.value, ws2.rest);
      ConcatSuffix(asset.value, asset.rest);
      ConcatSuffix(ws3.value, ws3.rest);
      SuffixOfSplit(asset.rest, ws2.rest, s);
      SuffixOfSplit(ws3.rest, asset.rest, s);
      SuffixOfSplit(value.rest, ws3.rest, s);
    }
    SuffixOfSplit(comment.rest, value.rest, s);
    assert cmt.Success? ==> IsSuffix(";" + cmt.value + cmt.rest, s) by {
      if cmt.Success? {
        SuffixOfSplit(";" + cmt.value + cmt.rest, value.rest, s);
      }
    }
    Success(Price(date, asset.value, value.value, comment.value), comment.rest)
  }

  /** Sequencing law of `Price::parse`: once `P`, blanks and a date have been
      read, the rest of the directive is read by ParsePriceFields. */
  lemma ParsePriceSteps(scan: NumberScanner, ws1: string, t1: string, date: Date, t2: string)
    requires Lexeme(IsSpace, ws1, t1)
    requires ParseDate(t1) == Success(date, t2)
    ensures ParsePrice(scan, "P" + (ws1 + t1)) == ParsePriceFields(scan, date, t2)
  {
    var s := "P" + (ws1 + t1);
    assert Char('P', s) == Success('P', ws1 + t1);
    TakeWhile1Unique(IsSpace, ws1 + t1, ws1, t1);
  }

  /** The fields after the date, with a comment: when blanks, an asset,
      blanks, a value and a comment parse in turn, the price carries exactly
      that asset, value and comment, and the remainder is the comment's. */
  lemma ParsePriceFieldsWithComment(scan: NumberScanner, date: Date, ws2: string, asset: string,
                                    ws3: string, t3: string, v: Value, t4: string,
                                    c: string, rest: string)
    requires Lexeme(IsSpace, ws2, asset + (ws3 + t3))
    requires Lexeme(IsAlpha, asset, ws3 + t3)
    requires Lexeme(IsSpace, ws3, t3)
    requires ParseValue(scan, t3) == Success(v, t4)
    requires ParsePriceComment(t4) == Success(c, rest)
    ensures ParsePriceFields(scan, date, ws2 + (asset + (ws3 + t3)))
         == Success(Price(date, asset, v, Some(c)), rest)
  {
    FieldsSteps(ws2, asset, ws3, t3);
  }

  /** The fields after the date, without a comment: when no comment follows
      the value, the price has none and the remainder is what follows the value. */
  lemma ParsePriceFieldsBare(scan: NumberScanner, date: Date, ws2: string, asset: string,
                             ws3: string, t3: string, v: Value, t4: string)
    requires Lexeme(IsSpace, ws2, asset + (ws3 + t3))
    requires Lexeme(IsAlpha, asset, ws3 + t3)
    requires Lexeme(IsSpace, ws3, t3)
    requires ParseValue(scan, t3) == Success(v, t4)
    requires !CommentAhead(t4)
    ensures ParsePriceFields(scan, date, ws2 + (asset + (ws3 + t3)))
         == Success(Price(date, asset, v, None), t4)
  {
    FieldsSteps(ws2, asset, ws3, t3);
  }

  /** The text `t2` after the date spells the price `p` with remainder `rest`:
      it is a maximal blank run, the asset's maximal letter run, another
      maximal blank run and then `t3`, where the value is read from `t3`
      leaving `t4`; the comment is the one a price comment reads from `t4`,
      and when none is read the remainder is `t4` itself. */
  ghost predicate FieldsSpelled(scan: NumberScanner, t2: string, p: Price, rest: string,
                                ws2: string, asset: string, ws3: string, t3: string, t4: string)
  {
    && t2 == ws2 + (asset + (ws3 + t3))
    && Lexeme(IsSpace, ws2, asset + (ws3 + t3))
    && Lexeme(IsAlpha, asset, ws3 + t3)
    && Lexeme(IsSpace, ws3, t3)
    && p.asset == asset
    && ParseValue(scan, t3) == Success(p.value, t4)
    && (p.comment.Some? ==> ParsePriceComment(t4) == Success(p.comment.value, rest))
    && (p.comment.None? ==> ParsePriceComment(t4).Failure? && rest == t4)
  }

  /** Whatever the fields after the date accept is spelled by the text: the
      pieces returned here witness it. */
  lemma ParsePriceFieldsSound(scan: NumberScanner, date: Date, t2: string)
    returns (ws2: string, asset: string, ws3: string, t3: string, t4: string)
    requires ParsePriceFields(scan, date, t2).Success?
    ensures FieldsSpelled(scan, t2, ParsePriceFields(scan, date, t2).value,
                          ParsePriceFields(scan, date, t2).rest, ws2, asset, ws3, t3, t4)
  {
    var a := Space1(t2);
    var b := Alpha1(a.rest);
    var c := Space1(b.rest);
    ws2, asset, ws3, t3 := a.value, b.value, c.value, c.rest;
    t4 := ParseValue(scan, t3).rest;
  }

  /** Whatever `Price::parse` accepts is the text of the price it returns: a
      `P`, a maximal blank run, a date's text read as the returned date, and
      fields after it spelling the asset, value and comment returned. */
  lemma ParsePriceSound(scan: NumberScanner, s: string)
    returns (ws1: string, t1: string, t2: string, ws2: string, asset: string,
             ws3: string, t3: string, t4: string)
    requires ParsePrice(scan, s).Success?
    ensures s == "P" + (ws1 + t1) && Lexeme(IsSpace, ws1, t1)
    ensures ParseDate(t1) == Success(ParsePrice(scan, s).value.date, t2)
    ensures FieldsSpelled(scan, t2, ParsePrice(scan, s).value, ParsePrice(scan, s).rest,
                          ws2, asset, ws3, t3, t4)
  {
    var p := Char('P', s);
    var w := Space1(p.rest);
    ws1, t1 := w.value, w.rest;
    var d := ParseDate(t1);
    t2 := d.rest;
    ParsePriceSteps(scan, ws1, t1, d.value, t2);
    ws2, asset, ws3, t3, t4 := ParsePriceFieldsSound(scan, d.value, t2);
  }

  /** The splits the fields after the date are read by. */
  lemma FieldsSteps(ws2: string, asset: string, ws3: string, t3: string)
    requires Lexeme(IsSpace, ws2, asset + (ws3 + t3))
    requires Lexeme(IsAlpha, asset, ws3 + t3)
    requires Lexeme(IsSpace, ws3, t3)
    ensures Space1(ws2 + (asset + (ws3 + t3))) == Success(ws2, asset + (ws3 + t3))
    ensures Alpha1(asset + (ws3 + t3)) == Success(asset, ws3 + t3)
    ensures Space1(ws3 + t3) == Success(ws3, t3)
  {
    TakeWhile1Unique(IsSpace, ws2 + (asset + (ws3 + t3)), ws2, asset + (ws3 + t3));
    TakeWhile1Unique(IsAlpha, asset + (ws3 + t3), asset, ws3 + t3);
    TakeWhile1Unique(IsSpace, ws3 + t3, ws3, t3);
  }
}
