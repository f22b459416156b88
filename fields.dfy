/**
 * The YEAR field kind (conhead/fields.py, and the identical `Years` of
 * conhead/template.py): a frozen, ordered year range with its textual form,
 * its parser, and the "new" and "update" operations that compute a value
 * from the current year.
 */
module Fields {
  import opened Wrappers
  import opened Text

  /** The two textual forms of the field's regular-expression fragment `\d{4}(?:-\d{4})?`. */
  predicate IsShortForm(s: string) { |s| == 4 && AllDigits(s) }

  predicate IsLongForm(s: string)
  {
    |s| == 9 && AllDigits(s[..4]) && s[4] == '-' && AllDigits(s[5..])
  }

  /** `s` is matched in full by the fragment `Years.regex`. */
  predicate MatchesRegex(s: string) { IsShortForm(s) || IsLongForm(s) }

  /** `\d{4}` matches at offset `i` of `s`. */
  predicate IsShortAt(s: string, i: nat) { i + 4 <= |s| && IsShortForm(s[i..i + 4]) }

  /** `\d{4}-\d{4}` matches at offset `i` of `s`. */
  predicate IsLongAt(s: string, i: nat) { i + 9 <= |s| && IsLongForm(s[i..i + 9]) }

  /** The regular-expression anchor `$` (no MULTILINE): the end of `s`, or just before a final line feed. */
  predicate AtEnd(s: string, k: nat)
  {
    k == |s| || (k + 1 == |s| && s[k] == '\n')
  }

  /** A year written with exactly four digits by `str`. */
  predicate FourDigit(y: int) { 1000 <= y <= 9999 }

  datatype Years = Years(start: int, end: int) {

    /** `__str__`: a single year when the range is one year long, else `start-end`. */
    function ToString(): (s: string)
      ensures FourDigit(start) && FourDigit(end) ==> MatchesRegex(s) && (IsShortForm(s) <==> start == end)
    {
      var s := if start == end then IntToString(start) else IntToString(start) + "-" + IntToString(end);
      assert FourDigit(start) && FourDigit(end) ==> MatchesRegex(s) && (IsShortForm(s) <==> start == end) by {
        if FourDigit(start) && FourDigit(end) {
          NatToStringFourDigits(start);
          NatToStringFourDigits(end);
          if start != end {
            assert s[..4] == NatToString(start);
            assert s[5..] == NatToString(end);
          }
        }
      }
      s
    }

    /** `__iter__`: the start year, then the end year. */
    function Iter(): seq<int> { [start, end] }

    /** `update(now)`: keep the start year, end at the current year. */
    function Update(nowYear: int): Years { Years(start, nowYear) }

    /** The order `dataclass(order=True)` derives: the tuple `(start, end)` compared lexicographically. */
    predicate Less(other: Years)
    {
      start < other.start || (start == other.start && end < other.end)
    }
  }

  /** `Years.new(now)`: a range of just the current year. */
  function New(nowYear: int): Years { Years(nowYear, nowYear) }

  datatype ParseError = CannotParseYears(text: string) {
    function Message(): string { "cannot parse years: " + Repr(text) }
  }

  /**
   * `Years.parse`: the pattern `^(\d{4})(?:-(\d{4}))?$`, the optional part tried first,
   * the end year defaulting to the start year.
   */
  function Parse(s: string): (r: Result<Years, ParseError>)
    ensures r.Err? ==> r.error == CannotParseYears(s)
  {
    if IsLongAt(s, 0) && AtEnd(s, 9) then
      Ok(Years(DecimalValue(s[..4]), DecimalValue(s[5..9])))
    else if IsShortAt(s, 0) && AtEnd(s, 4) then
      var y := DecimalValue(s[..4]);
      Ok(Years(y, y))
    else
      Err(CannotParseYears(s))
  }

  /** Parse accepts exactly the two forms, each optionally followed by one final line feed. */
  lemma ParseAccepts(s: string)
    ensures Parse(s).Ok? <==>
      (MatchesRegex(s) || (|s| > 0 && s[|s| - 1] == '\n' && MatchesRegex(s[..|s| - 1])))
  {
    if |s| > 0 && s[|s| - 1] == '\n' && MatchesRegex(s[..|s| - 1]) {
      var c := s[..|s| - 1];
      if IsLongForm(c) {
        assert s[0..9] == c;
      } else {
        assert s[0..4] == c;
      }
    }
    if IsShortAt(s, 0) && AtEnd(s, 4) && |s| == 5 {
      assert s[..|s| - 1] == s[0..4];
    }
    if IsLongAt(s, 0) && AtEnd(s, 9) && |s| == 10 {
      assert s[..|s| - 1] == s[0..9];
    }
  }

  /** Every string the fragment matches in full is accepted by `Parse`; a short form gives a one-year range. */
  lemma ParseAcceptsRegex(s: string)
    requires MatchesRegex(s)
    ensures Parse(s).Ok?
    ensures IsShortForm(s) ==> Parse(s).value.start == Parse(s).value.end
  {
    if IsShortForm(s) { assert s[0..4] == s; } else { assert s[0..9] == s; }
  }

  /** Round trip: rendering a range of four-digit years and parsing the text gives the range back. */
  lemma ParseToString(y: Years)
    requires FourDigit(y.start) && FourDigit(y.end)
    ensures Parse(y.ToString()) == Ok(y)
  {
    var s := y.ToString();
    NatToStringFourDigits(y.start);
    NatToStringFourDigits(y.end);
    if y.start == y.end {
      assert s[..4] == s == NatToString(y.start);
      assert s[0..4] == s;
    } else {
      var a, b := NatToString(y.start), NatToString(y.end);
      assert s == a + "-" + b;
      assert s[..4] == a;
      assert s[5..9] == b;
      assert s[0..9] == s;
      assert !(IsShortAt(s, 0) && AtEnd(s, 4));
    }
  }

  /** Updating twice with the same current year is the same as updating once, and the start year never changes. */
  lemma UpdateIdempotent(y: Years, nowYear: int)
    ensures y.Update(nowYear).Update(nowYear) == y.Update(nowYear)
    ensures y.Update(nowYear).start == y.start && y.Update(nowYear).end == nowYear
  {
  }

  /** A new value is already up to date, and it renders as the bare year. */
  lemma NewIsUpToDate(nowYear: int)
    ensures New(nowYear).Update(nowYear) == New(nowYear)
    ensures New(nowYear).ToString() == IntToString(nowYear)
  {
  }

  /** The order is a strict total order on ranges, and it is the order of the iterated pairs. */
  lemma LessIsStrictTotalOrder(a: Years, b: Years, c: Years)
    ensures !a.Less(a)
    ensures a.Less(b) && b.Less(c) ==> a.Less(c)
    ensures a == b || a.Less(b) || b.Less(a)
    ensures a.Less(b) <==> (a.Iter()[0] < b.Iter()[0] || (a.Iter()[0] == b.Iter()[0] && a.Iter()[1] < b.Iter()[1]))
  {
  }

  lemma Digits2014()
    ensures NatToString(2014) == "2014" && NatToString(2015) == "2015"
    ensures DecimalValue("2014") == 2014 && DecimalValue("2015") == 2015
  {
    assert NatToString(20) == "20";
    assert NatToString(201) == "201";
    assert "2014"[..3] == "201" && "2015"[..3] == "201" && "201"[..2] == "20" && "20"[..1] == "2";
  }

  /** The tested examples of `str`. */
  lemma ToStringExamples()
    ensures Years(2014, 2014).ToString() == "2014"
    ensures Years(2014, 2015).ToString() == "2014-2015"
  {
    Digits2014();
  }

  /** The tested examples `parse` accepts. */
  lemma ParseExamples()
    ensures Parse("2014") == Ok(Years(2014, 2014))
    ensures Parse("2014-2015") == Ok(Years(2014, 2015))
  {
    Digits2014();
    assert "2014-2015"[5..9] == "2015";
    assert "2014-2015"[..4] == "2014";
    assert "2014"[0..4] == "2014";
    assert "2014-2015"[0..9] == "2014-2015";
  }

  /** The tested examples `parse` rejects, and the message it raises. */
  lemma ParseRejectExamples()
    ensures Parse("100").Err? && Parse("10000").Err? && Parse("").Err?
    ensures Parse("abcd").Err? && Parse("2014-100").Err? && Parse("2014-10000").Err?
    ensures Parse("abcd").error.Message() == "cannot parse years: 'abcd'"
  {
    assert !IsDigit("abcd"[0..4][0]);
    assert !AtEnd("2014-10000", 9);
    assert !AtEnd("2014-10000", 4);
    assert !AtEnd("10000", 4);
    assert !AtEnd("2014-100", 4);
    assert Repr("abcd") == "'abcd'" by {
      assert "abcd"[1..] == "bcd" && "bcd"[1..] == "cd" && "cd"[1..] == "d" && "d"[1..] == "";
      assert EscapeAll("d", '\'') == "d";
      assert EscapeAll("cd", '\'') == "cd";
      assert EscapeAll("bcd", '\'') == "bcd";
    }
  }
}
