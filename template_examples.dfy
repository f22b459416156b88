/**
 * Concrete runs of the template engine (conhead/template.py) on the examples its
 * tests use, and the two examples that show how the YEAR group's greedy optional
 * part behaves: backtracking, and the header the round trip cannot read back.
 * Each example names its text through a parameter fixed by `requires`, so that
 * the proof unfolds the definitions one step at a time.
 */
module TemplateExamples {
  import opened Wrappers
  import opened Text
  import opened Fields
  import opened Template

  // ---------------------------------------------------------------- tokenizing

  lemma TokenizeEmpty()
    ensures Scan("") == Scanned([], None)
  {
    ResumeIsScan("");
  }

  /** Each line feed is its own token, and each starts a new line. */
  lemma TokenizeLines(t: string)
    requires t == "\n\n\n"
    ensures Scan(t) == Scanned([Token(Newline, "\n", 1, 1), Token(Newline, "\n", 2, 1), Token(Newline, "\n", 3, 1)], None)
  {
    assert Resume(t, 3, 4, 1, "") == Scanned([], None);
    assert NextLexeme(t, 2) == Lexeme(Newline, "\n");
    assert Resume(t, 2, 3, 1, "") == Scanned([Token(Newline, "\n", 3, 1)], None);
    assert NextLexeme(t, 1) == Lexeme(Newline, "\n");
    assert Resume(t, 1, 2, 1, "") == Scanned([Token(Newline, "\n", 2, 1), Token(Newline, "\n", 3, 1)], None);
    assert NextLexeme(t, 0) == Lexeme(Newline, "\n");
    ResumeIsScan(t);
  }

  /** Content is yielded as one token at the column where it began; the line feed follows it. */
  lemma TokenizeContent(t: string)
    requires t == "this is content\n"
    ensures Scan(t) == Scanned([Token(Content, "this is content", 1, 1), Token(Newline, "\n", 1, 16)], None)
  {
    assert NextLexeme(t, 15) == Lexeme(Newline, "\n");
    assert Resume(t, 15, 1, 1, "this is content") == Scanned([Token(Content, "this is content", 1, 1), Token(Newline, "\n", 1, 16)], None);
    assert forall k :: 0 <= k < 15 ==> IsLiteral(t[k]);
    ContentRun(t, 0, 15, 1, 1, "");
    assert "" + t[0..15] == "this is content";
    ResumeIsScan(t);
  }

  /** The three escapes, at columns 1, 3 and 5. */
  lemma TokenizeEscapes(t: string)
    requires t == "\\{\\}\\\\"
    ensures Scan(t) == Scanned([Token(Escaped, "\\{", 1, 1), Token(Escaped, "\\}", 1, 3), Token(Escaped, "\\\\", 1, 5)], None)
  {
    assert NextLexeme(t, 4) == Lexeme(Escaped, "\\\\");
    assert Resume(t, 4, 1, 5, "") == Scanned([Token(Escaped, "\\\\", 1, 5)], None);
    assert NextLexeme(t, 2) == Lexeme(Escaped, "\\}");
    assert Resume(t, 2, 1, 3, "") == Scanned([Token(Escaped, "\\}", 1, 3), Token(Escaped, "\\\\", 1, 5)], None);
    assert NextLexeme(t, 0) == Lexeme(Escaped, "\\{");
    ResumeIsScan(t);
  }

  /** A bare brace: the content before it is yielded, then the error names the brace at its own column, 13. */
  lemma TokenizeInvalid(t: string)
    requires t == "has invalid {."
    ensures Scan(t) == Scanned([Token(Content, "has invalid ", 1, 1)], Some(InvalidCharacter("{", 1, 13)))
  {
    assert forall k :: 0 <= k < 12 ==> IsLiteral(t[k]);
    ContentRun(t, 0, 12, 1, 1, "");
    assert "" + t[0..12] == "has invalid ";
    assert NextLexeme(t, 12) == Lexeme(Invalid, "{");
    ResumeIsScan(t);
  }

  /** The message of that error. */
  lemma InvalidMessage(e: TemplateError)
    requires e == InvalidCharacter("{", 1, 13)
    ensures e.Message() == "Invalid character '{' found at 1:13"
  {
    var c := "{";
    assert EscapeChar(c[0], '\'') == "{";
    assert EscapeAll(c, '\'') == "{";
    var r := Repr(c);
    assert r == "'{'";
    var l := NatToString(1);
    assert l == "1";
    var n := NatToString(13);
    assert n == "13" by { assert NatToString(13 / 10) == "1"; }
  }

  // ---------------------------------------------------------------- compiling

  /** The empty template compiles to no fields and the bare anchor `^`. */
  lemma CompileEmpty()
    ensures CompileTemplate("") == Ok(HeaderParser([], []))
  {
    TokenizeEmpty();
    assert Segments([]) == [];
    assert YearKinds(0) == [];
  }

  /** `{{YEAR}}-2015 x`: a field and then content. */
  lemma ScanBacktrack(t: string)
    requires t == "{{YEAR}}-2015 x"
    ensures Scan(t) == Scanned([Token(YearField, "{{YEAR}}", 1, 1), Token(Content, "-2015 x", 1, 9)], None)
  {
    ScanBacktrackContent(t);
    assert PlaceholderAt(t, 0);
    assert NextLexeme(t, 0) == Lexeme(YearField, "{{YEAR}}");
    ResumeIsScan(t);
  }

  lemma ScanBacktrackContent(t: string)
    requires t == "{{YEAR}}-2015 x"
    ensures Resume(t, 8, 1, 9, "") == Scanned([Token(Content, "-2015 x", 1, 9)], None)
  {
    assert Resume(t, 15, 1, 9, "-2015 x") == Scanned([Token(Content, "-2015 x", 1, 9)], None);
    assert forall k :: 8 <= k < 15 ==> IsLiteral(t[k]);
    ContentRun(t, 8, 15, 1, 9, "");
    assert "" + t[8..15] == "-2015 x";
  }

  lemma CompileBacktrack(t: string)
    requires t == "{{YEAR}}-2015 x"
    ensures CompileTemplate(t) == Ok(HeaderParser([Year], [YearGroup, Lit("-2015 x")]))
  {
    ScanBacktrack(t);
    var toks := [Token(YearField, "{{YEAR}}", 1, 1), Token(Content, "-2015 x", 1, 9)];
    assert toks[..1][..0] == [] && toks[..1] == [toks[0]];
    assert YearCount(toks[..1]) == 1;
    assert YearCount(toks) == 1;
    assert YearKinds(1) == [Year];
    assert Segments(toks) == [YearGroup, Lit("-2015 x")];
  }

  /**
   * Matching `2014-2015 x`: the group first takes `2014-2015`, the literal `-2015 x` then
   * fails, and the match succeeds only after backtracking to `2014`.
   */
  lemma MatchBacktrack(segs: seq<Segment>, c: string)
    requires segs == [YearGroup, Lit("-2015 x")] && c == "2014-2015 x"
    ensures IsLongAt(c, 0) && MatchFrom(segs[1..], c, 9).None?
    ensures MatchFrom(segs, c, 0) == Some(Match(11, ["2014"]))
  {
    var s1 := segs[1..];
    assert s1 == [Lit("-2015 x")] && s1[1..] == [];
    assert c[0..9] == "2014-2015";
    assert 9 + 7 > |c|;
    assert c[4..11] == "-2015 x";
    assert MatchFrom(s1, c, 4) == Some(Match(11, []));
    assert c[0..4] == "2014";
    MatchShort(segs, c, 0, 4, Match(11, []));
    assert [c[0..4]] + [] == ["2014"];
  }

  lemma ParseBacktrack(segs: seq<Segment>, c: string)
    requires segs == [YearGroup, Lit("-2015 x")] && c == "2014-2015 x"
    ensures WellFormed(HeaderParser([Year], segs))
    ensures ParseWith(HeaderParser([Year], segs), c) == Some(ParsedValues([Years(2014, 2014)], c))
  {
    assert segs[1..] == [Lit("-2015 x")] && segs[1..][1..] == [];
    assert GroupCount(segs[1..]) == 0;
    MatchBacktrack(segs, c);
    Digits2014();
    var gs := ["2014"];
    assert gs[0][..4] == "2014";
    assert GroupYears(gs[0]) == Years(2014, 2014);
    assert GroupsYears(gs) == [Years(2014, 2014)];
    assert c[..11] == c;
  }

  // ---------------------------------------------------------------- the round trip needs its condition

  lemma ScanSecondField(t: string)
    requires t == "{{YEAR}}-{{YEAR}}"
    ensures Resume(t, 9, 1, 9, "-") == Scanned([Token(Content, "-", 1, 9), Token(YearField, "{{YEAR}}", 1, 10)], None)
  {
    assert PlaceholderAt(t, 9);
    assert NextLexeme(t, 9) == Lexeme(YearField, "{{YEAR}}");
  }

  lemma ResumeTwoFields(t: string)
    requires t == "{{YEAR}}-{{YEAR}}"
    ensures Resume(t, 0, 1, 1, "") == Scanned([Token(YearField, "{{YEAR}}", 1, 1), Token(Content, "-", 1, 9), Token(YearField, "{{YEAR}}", 1, 10)], None)
  {
    ScanSecondField(t);
    assert NextLexeme(t, 8) == Lexeme(Content, "-");
    assert "" + "-" == "-";
    assert PlaceholderAt(t, 0);
    assert NextLexeme(t, 0) == Lexeme(YearField, "{{YEAR}}");
  }

  lemma ScanTwoFields(t: string)
    requires t == "{{YEAR}}-{{YEAR}}"
    ensures Scan(t) == Scanned([Token(YearField, "{{YEAR}}", 1, 1), Token(Content, "-", 1, 9), Token(YearField, "{{YEAR}}", 1, 10)], None)
  {
    ResumeTwoFields(t);
    ResumeIsScan(t);
  }

  lemma CompileTwoFields(t: string)
    requires t == "{{YEAR}}-{{YEAR}}"
    ensures CompileTemplate(t) == Ok(HeaderParser([Year, Year], [YearGroup, Lit("-"), YearGroup]))
  {
    ScanTwoFields(t);
    var toks := [Token(YearField, "{{YEAR}}", 1, 1), Token(Content, "-", 1, 9), Token(YearField, "{{YEAR}}", 1, 10)];
    assert toks[..2][..1][..0] == [];
    assert toks[..2][..1] == [toks[0]];
    assert toks[..2] == [toks[0], toks[1]];
    assert YearCount(toks[..2][..1][..0]) == 0;
    assert YearCount(toks[..2][..1]) == 1;
    assert YearCount(toks[..2]) == 1;
    assert YearCount(toks) == 2;
    assert YearKinds(2) == [Year, Year];
    assert Segments(toks) == [YearGroup, Lit("-"), YearGroup];
  }

  lemma Digits2016()
    ensures Years(2015, 2016).ToString() == "2015-2016"
    ensures DecimalValue("2016") == 2016
  {
    Digits2014();
    assert NatToString(2016) == "2016" by {
      assert NatToString(20) == "20";
      assert NatToString(201) == "201";
    }
    assert "2016"[..3] == "201" && "201"[..2] == "20" && "20"[..1] == "2";
  }

  lemma RenderTokensTwo(toks: seq<Token>, vs: seq<Years>)
    requires toks == [Token(YearField, "{{YEAR}}", 1, 1), Token(Content, "-", 1, 9), Token(YearField, "{{YEAR}}", 1, 10)]
    requires vs == [Years(2014, 2014), Years(2015, 2016)]
    ensures RenderTokens(toks, vs) == Written("2014-2015-2016", None)
  {
    ToStringExamples();
    Digits2016();
    assert toks[1..][1..][1..] == [];
    assert vs[1..][1..] == [];
    assert RenderTokens(toks[1..][1..], vs[1..]) == Written("2015-2016", None);
    assert LiteralOf(toks[1]) == "-";
    assert RenderTokens(toks[1..], vs[1..]) == Written("-2015-2016", None);
  }

  lemma MatchTwoFields(segs: seq<Segment>, c: string)
    requires segs == [YearGroup, Lit("-"), YearGroup] && c == "2014-2015-2016"
    ensures GroupCount(segs) == 2
    ensures MatchFrom(segs, c, 0) == Some(Match(14, ["2014-2015", "2016"]))
  {
    var s1, s2 := segs[1..], segs[1..][1..];
    assert s1 == [Lit("-"), YearGroup] && s2 == [YearGroup] && s2[1..] == [];
    assert GroupCount(s2[1..]) == 0;
    assert GroupCount(s2) == 1;
    assert GroupCount(s1) == 1;
    assert MatchFrom(s2[1..], c, 14) == Some(Match(14, []));
    assert c[10..14] == "2016";
    assert AllDigits(c[10..14]);
    MatchShort(s2, c, 10, 14, Match(14, []));
    assert ["2016"] + [] == ["2016"];
    assert c[9..10] == "-";
    assert MatchFrom(s1, c, 9) == Some(Match(14, ["2016"]));
    assert c[0..9] == "2014-2015";
    assert IsLongAt(c, 0);
    MatchLong(segs, c, 0, 9, Match(14, ["2016"]));
    assert [c[0..9]] + ["2016"] == ["2014-2015", "2016"];
  }

  lemma ReadTwoGroups(gs: seq<string>)
    requires gs == ["2014-2015", "2016"]
    ensures AllMatchRegex(gs) && GroupsYears(gs) == [Years(2014, 2015), Years(2016, 2016)]
  {
    Digits2014();
    Digits2016();
    assert "2014-2015"[..4] == "2014" && "2014-2015"[5..9] == "2015" && "2016"[..4] == "2016";
    assert IsLongForm(gs[0]) && IsShortForm(gs[1]);
    assert GroupYears(gs[0]) == Years(2014, 2015);
    assert GroupYears(gs[1]) == Years(2016, 2016);
  }

  /**
   * `{{YEAR}}-{{YEAR}}` with 2014 and 2015-2016 renders `2014-2015-2016`, which parses back
   * as 2014-2015 and 2016: the first, one-year field is followed by `-2015`, so the
   * round trip's condition does not hold, and indeed the values do not come back.
   */
  lemma RoundTripNeedsCondition(t: string, vs: seq<Years>)
    requires t == "{{YEAR}}-{{YEAR}}" && vs == [Years(2014, 2014), Years(2015, 2016)]
    ensures CompileTemplate(t).Ok? && WellFormed(CompileTemplate(t).value)
    ensures Render(t, vs) == Written("2014-2015-2016", None)
    ensures !Unambiguous(CompileTemplate(t).value.pattern, Strs(vs), "2014-2015-2016", 0)
    ensures ParseWith(CompileTemplate(t).value, "2014-2015-2016")
         == Some(ParsedValues([Years(2014, 2015), Years(2016, 2016)], "2014-2015-2016"))
  {
    ScanTwoFields(t);
    CompileTwoFields(t);
    RenderTokensTwo(Scan(t).tokens, vs);
    var p := CompileTemplate(t).value;
    var c := "2014-2015-2016";
    MatchTwoFields(p.pattern, c);
    ReadTwoGroups(["2014-2015", "2016"]);
    assert c[..14] == c;
    TwoFieldsAmbiguous(p.pattern, Strs(vs), c);
  }

  lemma TwoFieldsAmbiguous(segs: seq<Segment>, gs: seq<string>, c: string)
    requires segs == [YearGroup, Lit("-"), YearGroup] && c == "2014-2015-2016"
    requires gs == Strs([Years(2014, 2014), Years(2015, 2016)])
    ensures !Unambiguous(segs, gs, c, 0)
  {
    ToStringExamples();
    assert gs[0] == "2014";
    assert c[4..9] == "-2015" && AllDigits(c[5..9]);
    assert DashYearAt(c, 4);
  }
}
