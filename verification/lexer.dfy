/** Optional values: the model of Rust's `Option`. */
module Wrappers {
  datatype Option<+T> = None | Some(value: T)
}

/**
 The nom primitives the journal parser is assembled from, on `&str` input.

 A parser is a function from the input to either a failure or a pair of a
 value and the remaining input. nom's error payload (the position and the
 error kind) is not modelled: every error is the single value `Failure`.
 */
module Lexer {
  import opened Wrappers

  /** nom's `IResult<&str, T>`: failure, or a value with the unconsumed input. */
  datatype Parsed<+T> = Failure | Success(value: T, rest: string)

  /** The characters nom's `space1` accepts: space and horizontal tab, never a newline. */
  predicate IsSpace(c: char) { c == ' ' || c == '\t' }

  /** The characters nom's `digit1` accepts: ASCII decimal digits. */
  predicate IsDigit(c: char) { '0' <= c <= '9' }

  /** The characters nom's `alpha1` accepts: ASCII letters only. */
  predicate IsAlpha(c: char) { 'a' <= c <= 'z' || 'A' <= c <= 'Z' }

  /** `r` is a suffix of `s`: what a parser leaves behind is always the tail of its input. */
  predicate IsSuffix(r: string, s: string) {
    |r| <= |s| && s[|s| - |r|..] == r
  }

  /** Being a suffix is transitive: consumption composes left to right. */
  lemma SuffixOfSplit(r: string, t: string, s: string)
    requires IsSuffix(r, t) && IsSuffix(t, s)
    ensures IsSuffix(r, s)
  {
    assert s[|s| - |r|..] == s[|s| - |t|..][|t| - |r|..];
  }

  /** The part after a split point is a suffix. */
  lemma ConcatSuffix(front: string, back: string)
    ensures IsSuffix(back, front + back)
  {
    assert (front + back)[|front|..] == back;
  }

  /** A suffix splits its input: the consumed part followed by the suffix. */
  lemma SplitAtSuffix(r: string, s: string)
    requires IsSuffix(r, s)
    ensures s == s[..|s| - |r|] + r
  {
  }

  /** An input opening with `c` is `c` followed by the rest. */
  lemma SplitHead(c: char, s: string)
    requires s != [] && s[0] == c
    ensures s == [c] + s[1..]
  {
  }

  /** Every character of `t` is in the class `p`. */
  predicate All(p: char -> bool, t: string) {
    forall i :: 0 <= i < |t| ==> p(t[i])
  }

  /** `tok` is a maximal non-empty run of class `p` when followed by `rest`. */
  predicate Lexeme(p: char -> bool, tok: string, rest: string) {
    |tok| > 0 && All(p, tok) && (rest == [] || !p(rest[0]))
  }

  /** The length of the longest prefix of `s` whose characters are all in `p`. */
  function Span(p: char -> bool, s: string): (n: nat)
    ensures n <= |s|
    ensures All(p, s[..n])
    ensures n == |s| || !p(s[n])
  {
    if s == [] || !p(s[0]) then 0
    else
      var n := 1 + Span(p, s[1..]);
      assert s[..n] == [s[0]] + s[1..][..n - 1];
      n
  }

  /** The maximal run that Span measures is the only one: a prefix of class `p`
      that stops before a character outside `p` has exactly Span's length. */
  lemma SpanUnique(p: char -> bool, s: string, k: nat)
    requires k <= |s| && All(p, s[..k]) && (k == |s| || !p(s[k]))
    ensures Span(p, s) == k
  {
    var n := Span(p, s);
    forall i | 0 <= i < k ensures p(s[i]) {
      assert s[..k][i] == s[i];
    }
    forall i | 0 <= i < n ensures p(s[i]) {
      assert s[..n][i] == s[i];
    }
  }

  /** nom's `take_while1` family: a maximal non-empty run of class `p`. */
  function TakeWhile1(p: char -> bool, s: string): (r: Parsed<string>)
    ensures r.Success? <==> s != [] && p(s[0])
    ensures r.Success? ==> s == r.value + r.rest && Lexeme(p, r.value, r.rest)
  {
    var n := Span(p, s);
    if n == 0 then Failure
    else
      assert s == s[..n] + s[n..];
      Success(s[..n], s[n..])
  }

  /** Any split of the input into a maximal run and what follows it is the one
      TakeWhile1 returns, so the run and the remainder are determined by the input. */
  lemma TakeWhile1Unique(p: char -> bool, s: string, tok: string, rest: string)
    requires s == tok + rest && Lexeme(p, tok, rest)
    ensures TakeWhile1(p, s) == Success(tok, rest)
  {
    assert s[..|tok|] == tok;
    assert |tok| < |s| ==> s[|tok|] == rest[0];
    SpanUnique(p, s, |tok|);
    assert s[|tok|..] == rest;
  }

  /** nom's `space1`. */
  function Space1(s: string): Parsed<string> { TakeWhile1(IsSpace, s) }

  /** nom's `digit1`. */
  function Digit1(s: string): Parsed<string> { TakeWhile1(IsDigit, s) }

  /** nom's `alpha1`. */
  function Alpha1(s: string): Parsed<string> { TakeWhile1(IsAlpha, s) }

  /** nom's `char(c)`: exactly the character `c`. */
  function Char(c: char, s: string): (r: Parsed<char>)
    ensures r.Success? <==> s != [] && s[0] == c
    ensures r.Success? ==> r.value == c && s == [c] + r.rest
  {
    if s != [] && s[0] == c then Success(c, s[1..]) else Failure
  }

  /** nom's `take_till(stop)` on complete input: everything before the first
      character satisfying `stop`, possibly nothing; it never fails, and the
      stopping character is left in the remainder. */
  function TakeTill(stop: char -> bool, s: string): (r: Parsed<string>)
    ensures r.Success?
    ensures s == r.value + r.rest
    ensures forall i :: 0 <= i < |r.value| ==> !stop(r.value[i])
    ensures r.rest == [] || stop(r.rest[0])
  {
    var n := Span(c => !stop(c), s);
    assert s == s[..n] + s[n..];
    assert forall i :: 0 <= i < n ==> s[..n][i] == s[i];
    Success(s[..n], s[n..])
  }

  /** A split whose front has no stopping character and whose back is empty or
      starts with one is the split TakeTill makes. */
  lemma TakeTillUnique(stop: char -> bool, s: string, front: string, back: string)
    requires s == front + back
    requires forall i :: 0 <= i < |front| ==> !stop(front[i])
    requires back == [] || stop(back[0])
    ensures TakeTill(stop, s) == Success(front, back)
  {
    assert s[..|front|] == front;
    assert |front| < |s| ==> s[|front|] == back[0];
    SpanUnique(c => !stop(c), s, |front|);
    assert s[|front|..] == back;
  }

  /** nom's `opt`, given the inner parser's outcome `r` on input `s`: a failed
      inner parser is turned into success with `None`, consuming nothing; a
      successful one is passed on wrapped in `Some`. Like every parser it
      only ever leaves a suffix of its input. */
  function Opt<T>(r: Parsed<T>, s: string): (o: Parsed<Option<T>>)
    requires r.Success? ==> IsSuffix(r.rest, s)
    ensures o.Success? && IsSuffix(o.rest, s)
    ensures o.value.None? <==> r.Failure?
    ensures o.value.None? ==> o.rest == s
    ensures o.value.Some? ==> o.value.value == r.value && o.rest == r.rest
  {
    match r
    case Failure => Success(None, s)
    case Success(v, rest) => Success(Some(v), rest)
  }

  /** The numeric value of an ASCII digit. */
  function DigitValue(c: char): nat
    requires IsDigit(c)
  {
    c as int - '0' as int
  }

  /** The number a digit string denotes, as Rust's `str::parse` reads it:
      decimal, most significant digit first, leading zeroes allowed. It is 0
      exactly for a run of zeroes (the empty run included). */
  function DigitsValue(ds: string): (v: nat)
    requires All(IsDigit, ds)
    ensures v == 0 <==> forall i :: 0 <= i < |ds| ==> ds[i] == '0'
  {
    if ds == [] then 0
    else
      var init := ds[..|ds| - 1];
      assert forall i :: 0 <= i < |init| ==> init[i] == ds[i];
      DigitsValue(init) * 10 + DigitValue(ds[|ds| - 1])
  }

  /** A digit string without a leading zero is the decimal rendering of the
      number it denotes: Decimal is a right inverse of DigitsValue on such
      strings. */
  lemma {:induction false} DecimalOfDigitsValue(ds: string)
    requires All(IsDigit, ds) && |ds| > 0 && ds[0] != '0'
    ensures Decimal(DigitsValue(ds)) == ds
  {
    var init := ds[..|ds| - 1];
    var last := ds[|ds| - 1];
    assert All(IsDigit, init) by {
      assert forall i :: 0 <= i < |init| ==> init[i] == ds[i];
    }
    var v := DigitsValue(ds);
    assert '0' + DigitValue(last) as char == last;
    if |init| > 0 {
      assert init[0] == ds[0];
      DecimalOfDigitsValue(init);
      assert DigitsValue(init) > 0;
      assert v / 10 == DigitsValue(init) && v % 10 == DigitValue(last);
      assert ds == init + [last];
    }
  }

  /** Leading zeroes do not change the value: `"07"` denotes 7. */
  lemma {:induction false} LeadingZero(ds: string)
    requires All(IsDigit, ds)
    ensures All(IsDigit, "0" + ds)
    ensures DigitsValue("0" + ds) == DigitsValue(ds)
  {
    assert forall i :: 0 < i < |"0" + ds| ==> ("0" + ds)[i] == ds[i - 1];
    if ds != [] {
      var init := ds[..|ds| - 1];
      assert ("0" + ds)[..|ds|] == "0" + init;
      assert All(IsDigit, init) by {
        assert forall i :: 0 <= i < |init| ==> init[i] == ds[i];
      }
      LeadingZero(init);
    }
  }

  /** The rendering of a natural number in decimal without leading zeroes
      ("0" for zero). */
  function Decimal(n: nat): (ds: string)
    ensures All(IsDigit, ds) && |ds| > 0
    ensures |ds| > 1 ==> ds[0] != '0'
  {
    var d := ['0' + (n % 10) as char];
    if n < 10 then d
    else
      var front := Decimal(n / 10);
      assert (front + d)[0] == front[0];
      front + d
  }

  /** Reading back a rendered number gives the number: DigitsValue is a left
      inverse of Decimal. */
  lemma {:induction false} DigitsValueOfDecimal(n: nat)
    ensures DigitsValue(Decimal(n)) == n
  {
    if n >= 10 {
      var ds := Decimal(n);
      assert ds[..|ds| - 1] == Decimal(n / 10);
      DigitsValueOfDecimal(n / 10);
    }
  }
}
