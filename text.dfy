/**
 * Character and string helpers the other modules share: ASCII decimal digits and
 * Python's `str` of an integer, Python's `repr` of a string, Python's notion of
 * whitespace, `str.split("\n")` with its inverse `"\n".join`, and Python's
 * code-point order on strings together with `sorted`.
 */
module Text {

  // ---------------------------------------------------------------- digits

  predicate IsDigit(c: char) { '0' <= c <= '9' }

  predicate AllDigits(s: string) { forall k :: 0 <= k < |s| ==> IsDigit(s[k]) }

  function DigitValue(c: char): nat
    requires IsDigit(c)
  {
    c as int - '0' as int
  }

  function DigitChar(d: nat): (c: char)
    requires d < 10
    ensures IsDigit(c) && DigitValue(c) == d
  {
    ('0' as int + d) as char
  }

  /** The number a string of decimal digits denotes, as Python's `int` reads it. */
  function DecimalValue(s: string): nat
    requires AllDigits(s)
  {
    if s == [] then 0 else DecimalValue(s[..|s| - 1]) * 10 + DigitValue(s[|s| - 1])
  }

  /** Python's `str` of a non-negative integer: its decimal digits, no leading zero. */
  function NatToString(n: nat): (s: string)
    ensures 1 <= |s| && AllDigits(s) && DecimalValue(s) == n
    ensures (n < 10) == (|s| == 1)
    ensures |s| > 1 ==> s[0] != '0'
    decreases n
  {
    if n < 10 then
      [DigitChar(n)]
    else
      var s := NatToString(n / 10) + [DigitChar(n % 10)];
      assert s[..|s| - 1] == NatToString(n / 10);
      s
  }

  /** `str(n)` has exactly four characters for the years 1000 to 9999. */
  lemma {:induction false} NatToStringFourDigits(n: nat)
    requires 1000 <= n <= 9999
    ensures |NatToString(n)| == 4
  {
    assert NatToString(n) == NatToString(n / 10) + [DigitChar(n % 10)];
    assert NatToString(n / 10) == NatToString(n / 100) + [DigitChar(n / 10 % 10)];
    assert NatToString(n / 100) == NatToString(n / 1000) + [DigitChar(n / 100 % 10)];
  }

  /** Python's `str` of an integer. */
  function IntToString(i: int): string
  {
    if i < 0 then "-" + NatToString(-i) else NatToString(i)
  }

  // ---------------------------------------------------------------- repr

  function HexDigit(d: nat): char
    requires d < 16
  {
    if d < 10 then DigitChar(d) else ('a' as int + d - 10) as char
  }

  /**
   * What `repr` writes for the character `c` inside a literal quoted with `q`. The escapes are
   * Python's below U+0100; from U+0100 up every character is written as it is.
   */
  function EscapeChar(c: char, q: char): string
  {
    var n := c as int;
    if c == '\\' then "\\\\"
    else if c == q then ['\\', q]
    else if c == '\n' then "\\n"
    else if c == '\r' then "\\r"
    else if c == '\t' then "\\t"
    else if n < 0x20 || (0x7f <= n <= 0xa0) || n == 0xad then
      "\\x" + [HexDigit(n / 16), HexDigit(n % 16)]
    else [c]
  }

  function EscapeAll(s: string, q: char): string
  {
    if s == [] then [] else EscapeChar(s[0], q) + EscapeAll(s[1..], q)
  }

  /**
   * Python's `repr` of a string whose characters are all below U+0100: single quotes unless the
   * text holds a single quote and no double one.
   */
  function Repr(s: string): string
  {
    var q := if '\'' in s && '"' !in s then '"' else '\'';
    [q] + EscapeAll(s, q) + [q]
  }

  // ---------------------------------------------------------------- whitespace

  /** The characters Python's `str.isspace` (and so `str.strip` and the regular expression `\s`) treat as whitespace. */
  predicate IsSpace(c: char)
  {
    var n := c as int;
    (9 <= n <= 13) || (28 <= n <= 32) || n == 0x85 || n == 0xa0 || n == 0x1680
    || (0x2000 <= n <= 0x200a) || n == 0x2028 || n == 0x2029 || n == 0x202f
    || n == 0x205f || n == 0x3000
  }

  // ---------------------------------------------------------------- split and join

  /** `sep.join(parts)`. */
  function JoinWith(parts: seq<string>, sep: string): string
  {
    if |parts| == 0 then []
    else if |parts| == 1 then parts[0]
    else parts[0] + sep + JoinWith(parts[1..], sep)
  }

  function IndexOf(s: string, c: char): (i: nat)
    requires c in s
    ensures i < |s| && s[i] == c && c !in s[..i]
  {
    if s[0] == c then 0
    else
      var i := 1 + IndexOf(s[1..], c);
      assert s[..i] == [s[0]] + s[1..][..i - 1];
      i
  }

  /** `s.split("\n")`: the pieces between line feeds; never empty, `""` gives `[""]`. */
  function SplitLines(s: string): (lines: seq<string>)
    ensures |lines| >= 1
    ensures forall k :: 0 <= k < |lines| ==> '\n' !in lines[k]
    decreases |s|
  {
    if '\n' !in s then [s]
    else
      var i := IndexOf(s, '\n');
      [s[..i]] + SplitLines(s[i + 1..])
  }

  /** Joining the pieces of a split with line feeds gives back the text. */
  lemma {:induction false} JoinSplitLines(s: string)
    ensures JoinWith(SplitLines(s), "\n") == s
    decreases |s|
  {
    if '\n' in s {
      var i := IndexOf(s, '\n');
      var rest := SplitLines(s[i + 1..]);
      JoinSplitLines(s[i + 1..]);
      assert SplitLines(s) == [s[..i]] + rest;
      assert ([s[..i]] + rest)[1..] == rest;
      assert s == s[..i] + "\n" + s[i + 1..];
    }
  }

  /** Splitting lines that hold no line feed, once joined, gives back those lines. */
  lemma {:induction false} SplitJoinLines(lines: seq<string>)
    requires |lines| >= 1
    requires forall k :: 0 <= k < |lines| ==> '\n' !in lines[k]
    ensures SplitLines(JoinWith(lines, "\n")) == lines
  {
    if |lines| > 1 {
      var l0, rest := lines[0], lines[1..];
      var s := JoinWith(lines, "\n");
      assert s == l0 + "\n" + JoinWith(rest, "\n");
      assert s[|l0|] == '\n';
      assert s[..|l0|] == l0;
      var i := IndexOf(s, '\n');
      assert i == |l0|;
      assert s[i + 1..] == JoinWith(rest, "\n");
      SplitJoinLines(rest);
      assert lines == [l0] + rest;
    }
  }

  // ---------------------------------------------------------------- order and sorting

  /** Python's `<` on strings: lexicographic by code point. */
  predicate StrLess(a: string, b: string)
    decreases |a|
  {
    if a == [] then b != []
    else if b == [] then false
    else if a[0] != b[0] then a[0] < b[0]
    else StrLess(a[1..], b[1..])
  }

  lemma {:induction false} StrLessIrreflexive(a: string)
    ensures !StrLess(a, a)
    decreases |a|
  {
    if a != [] { StrLessIrreflexive(a[1..]); }
  }

  lemma {:induction false} StrLessTransitive(a: string, b: string, c: string)
    requires StrLess(a, b) && StrLess(b, c)
    ensures StrLess(a, c)
    decreases |a|
  {
    if a != [] && b != [] && c != [] && a[0] == b[0] && b[0] == c[0] {
      StrLessTransitive(a[1..], b[1..], c[1..]);
    }
  }

  lemma {:induction false} StrLessTotal(a: string, b: string)
    ensures a == b || StrLess(a, b) || StrLess(b, a)
    decreases |a|
  {
    if a != [] && b != [] && a[0] == b[0] {
      StrLessTotal(a[1..], b[1..]);
      if a[1..] == b[1..] {
        assert a == [a[0]] + a[1..] && b == [b[0]] + b[1..];
      }
    }
  }

  /** A common prefix does not change the order of two strings. */
  lemma {:induction false} StrLessCommonPrefix(p: string, a: string, b: string)
    ensures StrLess(p + a, p + b) == StrLess(a, b)
    decreases |p|
  {
    if p != [] {
      assert (p + a)[1..] == p[1..] + a && (p + b)[1..] == p[1..] + b;
      StrLessCommonPrefix(p[1..], a, b);
    } else {
      assert p + a == a && p + b == b;
    }
  }

  predicate StrLeq(a: string, b: string) { !StrLess(b, a) }

  predicate Sorted(s: seq<string>)
  {
    forall i, j :: 0 <= i < j < |s| ==> StrLeq(s[i], s[j])
  }

  lemma StrLeqTransitive(a: string, b: string, c: string)
    requires StrLeq(a, b) && StrLeq(b, c)
    ensures StrLeq(a, c)
  {
    if StrLess(c, a) {
      StrLessTotal(a, b);
      if a == b {
      } else if StrLess(a, b) {
        StrLessTransitive(c, a, b);
      } else {
        assert false;
      }
    }
  }

  function Insert(x: string, s: seq<string>): (r: seq<string>)
    requires Sorted(s)
    ensures Sorted(r) && multiset(r) == multiset(s) + multiset{x}
  {
    if s == [] then [x]
    else if StrLess(s[0], x) then
      var tail := Insert(x, s[1..]);
      HeadBelow(s, x, tail);
      SortedCons(s[0], tail);
      [s[0]] + tail
    else
      forall j | 0 <= j < |s| ensures StrLeq(x, s[j]) {
        if j > 0 { StrLeqTransitive(x, s[0], s[j]); }
      }
      SortedCons(x, s);
      [x] + s
  }

  /** A string no greater than every element of a sorted list can go in front of it. */
  lemma SortedCons(h: string, t: seq<string>)
    requires Sorted(t) && forall j :: 0 <= j < |t| ==> StrLeq(h, t[j])
    ensures Sorted([h] + t)
  {
    var r := [h] + t;
    forall i, j | 0 <= i < j < |r| ensures StrLeq(r[i], r[j]) {
      if i > 0 { assert r[i] == t[i - 1] && r[j] == t[j - 1]; }
    }
  }

  /** The head of a sorted list that is below `x` is below every element of the list with `x` inserted. */
  lemma HeadBelow(s: seq<string>, x: string, tail: seq<string>)
    requires Sorted(s) && s != [] && StrLess(s[0], x)
    requires multiset(tail) == multiset(s[1..]) + multiset{x}
    ensures forall j :: 0 <= j < |tail| ==> StrLeq(s[0], tail[j])
    ensures multiset([s[0]] + tail) == multiset(s) + multiset{x}
  {
    assert s == [s[0]] + s[1..];
    forall j | 0 <= j < |tail| ensures StrLeq(s[0], tail[j]) {
      assert tail[j] in multiset(tail);
      if tail[j] == x {
        StrLessTotal(s[0], x);
        if StrLess(x, s[0]) { StrLessTransitive(x, s[0], x); StrLessIrreflexive(x); }
      } else {
        assert tail[j] in s[1..];
        var k :| 0 <= k < |s[1..]| && s[1..][k] == tail[j];
        assert s[k + 1] == tail[j];
      }
    }
  }

  /** Python's `sorted` of a list of strings (insertion sort). */
  function Sort(s: seq<string>): (r: seq<string>)
    ensures Sorted(r) && multiset(r) == multiset(s)
  {
    if s == [] then []
    else
      assert s == [s[0]] + s[1..];
      Insert(s[0], Sort(s[1..]))
  }
}
