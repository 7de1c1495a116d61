/** Worked cases: single rules on fixed windows, and whole scans of small
    buffers, each proved rather than run. */
module WorkedExamples {
  import opened Rules
  import opened RuleLaws
  import opened Lexing

  /** A literal on a proper prefix, on itself and on a longer word. */
  lemma LiteralEnd<T>()
    ensures Matches(Rule<T>.Literal("end"), "en") == PartialMatch
    ensures Matches(Rule<T>.Literal("end"), "end") == Match(None)
    ensures Matches(Rule<T>.Literal("end"), "ended") == NoMatch
  {
    assert "en" <= "end";
    assert !("ended" <= "end");
  }

  /** `Either` defers to its left branch while that branch is a live prefix,
      even though the right branch alone matches the window fully. */
  lemma EitherDefers<T>()
    ensures Matches(Rule<T>.Literal("func"), "func") == Match(None)
    ensures Matches(Either(Rule<T>.Literal("function"), Rule<T>.Literal("func")), "func") == PartialMatch
  {
    assert "func" <= "function";
  }

  /** A keyword before an identifier rule: the keyword wins on itself, the
      identifier wins once the keyword is out of the race, and while the
      keyword is still a live prefix the identifier's full match is dropped. */
  lemma KeywordOrIdentifier<T>(keyword: string -> T, identifier: string -> T)
    ensures Matches(Any([Value(Rule<T>.Literal("or"), keyword), Value(Alphabetic, identifier)]), "or")
            == Match(Some(keyword("or")))
    ensures Matches(Any([Value(Rule<T>.Literal("or"), keyword), Value(Alphabetic, identifier)]), "org")
            == Match(Some(identifier("org")))
    ensures Matches(Any([Value(Rule<T>.Literal("or"), keyword), Value(Alphabetic, identifier)]), "o")
            == NoMatch
  {
    var rs := [Value(Rule<T>.Literal("or"), keyword), Value(Alphabetic, identifier)];
    assert Matches(rs[0], "or") == Match(Some(keyword("or")));
    AnyFirstMatch(rs, "or", 0);
    assert !("org" <= "or");
    assert Matches(rs[0], "org") == NoMatch;
    assert Matches(rs[1], "org") == Match(Some(identifier("org")));
    AnyFirstMatch(rs, "org", 1);
    assert "o" <= "or";
    assert Matches(rs[0], "o") == PartialMatch;
    AnyPartialFirst(rs, "o", 0);
  }

  /** An ordered conjunction with an extractor for the whole window. */
  lemma AlphabeticEndingInS<T>(f: string -> T)
    ensures Matches(All([Rule<T>.Alphabetic, Rule<T>.EndsWith("s")], f), "cats") == Match(Some(f("cats")))
    ensures Matches(All([Rule<T>.Alphabetic, Rule<T>.EndsWith("s")], f), "cat") == NoMatch
  {
    var rs := [Rule<T>.Alphabetic, Rule<T>.EndsWith("s")];
    assert "cats"[3..] == "s";
    assert Matches(rs[0], "cats").IsMatch() && Matches(rs[1], "cats").IsMatch();
    AllMatchIff(rs, f, "cats");
    assert "cat"[2..] != "s";
    assert Matches(rs[0], "cat").IsMatch() && Matches(rs[1], "cat").IsNone();
    AllFirstBlocker(rs, f, "cat", 1);
  }

  /** A buffer that is exactly one keyword never yields it: the window grows
      to "e" and "en", and the next step, whose window would be the whole
      buffer, already reports `Eof`. */
  method ScanEnd<T>(f: string -> T) returns (first: Result<Option<T>>, second: Result<Option<T>>, third: Result<Option<T>>)
    ensures first == Ok(None) && second == Ok(None)
    ensures third == Err(Eof)
  {
    var rule := Value(Rule<T>.Literal("end"), f);
    var lexer := new Lexer.WithBuffer(rule, "end");
    assert "end"[0..1] == "e" && "e" <= "end";
    assert Matches(rule, "e") == PartialMatch;
    first := lexer.Step();
    assert lexer.index == (0, 1);
    assert "end"[0..2] == "en" && "en" <= "end";
    assert Matches(rule, "en") == PartialMatch;
    second := lexer.Step();
    assert lexer.index == (0, 2);
    third := lexer.Step();
  }

  /** How the blank-or-keyword rule classifies the windows a scan of
      " end " hands it. */
  lemma BlankOrEnd<T>(f: string -> T)
    ensures Matches(Any([Ignore(Rule<T>.Whitespace), Value(Rule<T>.Literal("end"), f)]), " ") == Match(None)
    ensures Matches(Any([Ignore(Rule<T>.Whitespace), Value(Rule<T>.Literal("end"), f)]), "e") == NoMatch
    ensures Matches(Any([Ignore(Rule<T>.Whitespace), Value(Rule<T>.Literal("end"), f)]), "en") == NoMatch
    ensures Matches(Any([Ignore(Rule<T>.Whitespace), Value(Rule<T>.Literal("end"), f)]), "end")
            == Match(Some(f("end")))
  {
    var rs := [Ignore(Rule<T>.Whitespace), Value(Rule<T>.Literal("end"), f)];
    assert IsWhitespace(' ');
    assert Matches(rs[0], " ") == Match(None);
    AnyFirstMatch(rs, " ", 0);
    assert "e" <= "end" && "e" != "end" && !IsWhitespace("e"[0]);
    assert !EveryChar("e", IsWhitespace);
    assert Matches(Rule<T>.Whitespace, "e") == NoMatch;
    assert Matches(rs[0], "e") == NoMatch;
    assert Matches(Rule<T>.Literal("end"), "e") == PartialMatch;
    assert Matches(rs[1], "e") == PartialMatch;
    AnyPartialFirst(rs, "e", 1);
    assert "en" <= "end" && !IsWhitespace("en"[0]);
    assert Matches(rs[0], "en") == NoMatch && Matches(rs[1], "en") == PartialMatch;
    AnyPartialFirst(rs, "en", 1);
    assert !IsWhitespace("end"[0]);
    assert Matches(rs[0], "end") == NoMatch && Matches(rs[1], "end") == Match(Some(f("end")));
    AnyFirstMatch(rs, "end", 1);
  }

  /** A keyword between two blanks: the leading blank is consumed without a
      token, the keyword is consumed with its token, and the trailing blank
      is never scanned. */
  method ScanSpacedEnd<T>(f: string -> T) returns (results: seq<Result<Option<T>>>)
    ensures results == [Ok(None), Ok(None), Ok(None), Ok(Some(f("end"))), Err(Eof)]
  {
    var rule := Any([Ignore(Rule<T>.Whitespace), Value(Rule<T>.Literal("end"), f)]);
    BlankOrEnd(f);
    var lexer := new Lexer.WithBuffer(rule, " end ");
    assert " end "[0..1] == " " && " end "[1..2] == "e";
    assert " end "[1..3] == "en" && " end "[1..4] == "end";
    var r1 := lexer.Step();
    assert lexer.index == (1, 1);
    var r2 := lexer.Step();
    assert lexer.index == (1, 2);
    var r3 := lexer.Step();
    assert lexer.index == (1, 3);
    var r4 := lexer.Step();
    assert lexer.index == (4, 4);
    var r5 := lexer.Step();
    results := [r1, r2, r3, r4, r5];
  }
}
