/** The comment recogniser of `src/lib.rs`: `parse_comment`. */
module Comments {
  import opened Lexer

  /** `parse_comment`: a `;` and then everything up to, but not including, the
      next newline. The comment text excludes the `;`; the newline, if any, is
      left in the remainder. */
  function ParseComment(s: string): (r: Parsed<string>)
    ensures r.Success? <==> s != [] && s[0] == ';'
    ensures r.Success? ==> s == ";" + r.value + r.rest
    ensures r.Success? ==> '\n' !in r.value
    ensures r.Success? ==> r.rest == [] || r.rest[0] == '\n'
  {
    var semi := Char(';', s);
    if semi.Failure? then Failure
    else
      var body := TakeTill(c => c == '\n', semi.rest);
      assert s == ";" + body.value + body.rest;
      body
  }

  /** Writing a comment back after its `;` and parsing it again gives the same
      text and remainder, for every newline-free text followed by the end of
      input or a newline. */
  lemma ParseCommentRoundTrip(text: string, rest: string)
    requires '\n' !in text
    requires rest == [] || rest[0] == '\n'
    ensures ParseComment(";" + text + rest) == Success(text, rest)
  {
    var s := ";" + text + rest;
    assert s[1..] == text + rest;
    TakeTillUnique(c => c == '\n', text + rest, text, rest);
  }
}
