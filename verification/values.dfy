/**
 Monetary values of `src/lib.rs`: `Value::parse` and `Value::parse_currency`.

 The amount is read by nom's floating-point recogniser `double`, a foreign
 library. It enters this model as a parameter, a NumberScanner giving the
 length of the numeric prefix of its input (0 when there is none), and a
 Value keeps the numeric text that was consumed rather than the `f64` it
 denotes.
 */
module Values {
  import opened Wrappers
  import opened Lexer

  /** A monetary value with its optional currency marker, such as `CAD`. */
  datatype Value = Value(number: string, currency: Option<string>)

  /** The length of the number at the head of the input, 0 if there is none. */
  type NumberScanner = string -> nat

  /** The numeric token, as the scanner delimits it: a non-empty prefix or a failure. */
  function ParseNumber(scan: NumberScanner, s: string): (r: Parsed<string>)
    ensures r.Success? <==> 0 < scan(s) <= |s|
    ensures r.Success? ==> s == r.value + r.rest && |r.value| == scan(s)
  {
    var k := scan(s);
    if 0 < k <= |s| then
      assert s == s[..k] + s[k..];
      Success(s[..k], s[k..])
    else Failure
  }

  /** The input opens with spaces or tabs followed by an ASCII letter. */
  predicate CurrencyAhead(s: string) {
    s != [] && IsSpace(s[0]) && Span(IsSpace, s) < |s| && IsAlpha(s[Span(IsSpace, s)])
  }

  /** `Value::parse_currency`: one or more spaces or tabs, then the maximal run
      of ASCII letters, which is the currency tag. */
  function ParseCurrency(s: string): (r: Parsed<string>)
    ensures r.Success? <==> CurrencyAhead(s)
    ensures r.Success? ==> IsSuffix(r.value + r.rest, s)
    ensures r.Success? ==> Lexeme(IsSpace, s[..|s| - |r.value + r.rest|], r.value + r.rest)
    ensures r.Success? ==> Lexeme(IsAlpha, r.value, r.rest)
  {
    var ws := Space1(s);
    if ws.Failure? then Failure
    else
      SpanUnique(IsSpace, s, |ws.value|);
      var tag := Alpha1(ws.rest);
      if tag.Failure? then Failure
      else
        assert s[..|s| - |tag.value + tag.rest|] == ws.value;
        tag
  }

  /** A maximal blank run followed by a maximal letter run is read as that
      currency tag, leaving exactly what follows the letters. */
  lemma ParseCurrencyComplete(ws: string, tag: string, rest: string)
    requires Lexeme(IsSpace, ws, tag + rest) && Lexeme(IsAlpha, tag, rest)
    ensures ParseCurrency(ws + tag + rest) == Success(tag, rest)
  {
    var s := ws + tag + rest;
    assert s == ws + (tag + rest);
    TakeWhile1Unique(IsSpace, s, ws, tag + rest);
    TakeWhile1Unique(IsAlpha, tag + rest, tag, rest);
  }

  /** `Value::parse`: a number, then optionally a currency. The optional part
      backtracks: when no currency follows, nothing after the number is consumed. */
  function ParseValue(scan: NumberScanner, s: string): (r: Parsed<Value>)
    ensures r.Success? <==> 0 < scan(s) <= |s|
    ensures r.Success? ==> IsSuffix(r.rest, s)
    ensures r.Success? ==> r.value.number == s[..scan(s)]
    ensures r.Success? ==> (r.value.currency.Some? <==> CurrencyAhead(s[scan(s)..]))
    ensures r.Success? && r.value.currency.None? ==> r.rest == s[scan(s)..]
    ensures r.Success? && r.value.currency.Some? ==>
      && |r.value.currency.value| > 0
      && All(IsAlpha, r.value.currency.value)
      && (r.rest == [] || !IsAlpha(r.rest[0]))
      && IsSuffix(r.value.currency.value + r.rest, s[scan(s)..])
      && Lexeme(IsSpace, s[scan(s)..][..|s| - scan(s) - |r.value.currency.value + r.rest|],
                r.value.currency.value + r.rest)
  {
    var n := ParseNumber(scan, s);
    if n.Failure? then Failure
    else
      assert n.rest == s[scan(s)..] && n.value == s[..scan(s)];
      assert IsSuffix(n.rest, s);
      var cur := ParseCurrency(n.rest);
      assert cur.Success? ==> IsSuffix(cur.rest, n.rest) by {
        if cur.Success? {
          SuffixOfSplit(cur.rest, cur.value + cur.rest, n.rest);
        }
      }
      var c := Opt(cur, n.rest);
      SuffixOfSplit(c.rest, n.rest, s);
      Success(Value(n.value, c.value), c.rest)
  }

  /** A number followed by a currency is read as both, leaving what follows the tag. */
  lemma ParseValueWithCurrency(scan: NumberScanner, num: string, ws: string, tag: string, rest: string)
    requires scan(num + ws + tag + rest) == |num| > 0
    requires Lexeme(IsSpace, ws, tag + rest) && Lexeme(IsAlpha, tag, rest)
    ensures ParseValue(scan, num + ws + tag + rest) == Success(Value(num, Some(tag)), rest)
  {
    var s := num + ws + tag + rest;
    assert s[|num|..] == ws + tag + rest;
    assert s[..|num|] == num;
    ParseCurrencyComplete(ws, tag, rest);
  }

  /** A number not followed by a currency is read alone, and the remainder is
      exactly the input after the number. */
  lemma ParseValueBare(scan: NumberScanner, num: string, rest: string)
    requires scan(num + rest) == |num| > 0
    requires !CurrencyAhead(rest)
    ensures ParseValue(scan, num + rest) == Success(Value(num, None), rest)
  {
    var s := num + rest;
    assert s[|num|..] == rest;
    assert s[..|num|] == num;
  }
}
