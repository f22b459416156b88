/**
 * Header templates (conhead/template.py): the tokenizer, the compilation of a
 * template into a header parser, the parser itself (a backtracking matcher over
 * literal segments and YEAR groups standing in for the compiled regular
 * expression), and the writer that renders a template with field values.
 */
module Template {
  import opened Wrappers
  import opened Text
  import opened Fields

  /** The computed field kinds; YEAR is the only one. */
  datatype FieldKind = Year

  /** The token kinds, in the order the tokenizer's alternation tries them. */
  datatype TokenKind = Newline | Escaped | YearField | Invalid | Content

  /** A token: its kind, its raw text, and the line and column (from 1) of its first character. */
  datatype Token = Token(kind: TokenKind, value: string, line: nat, column: nat)

  /** One match of the tokenizer's alternation, before adjacent content is merged. */
  datatype Lexeme = Lexeme(kind: TokenKind, value: string)

  datatype Pos = Pos(line: nat, column: nat)

  datatype TemplateError = InvalidCharacter(ch: string, line: nat, column: nat) {
    function Message(): string
    {
      "Invalid character " + Repr(ch) + " found at " + NatToString(line) + ":" + NatToString(column)
    }
  }

  const Placeholder: string := "{{YEAR}}"

  /** The characters that must be escaped in a template. */
  predicate IsControl(c: char) { c == '{' || c == '}' || c == '\\' }

  /** A character the CONTENT alternative can take: not a line feed and not a control character. */
  predicate IsLiteral(c: char) { c != '\n' && !IsControl(c) }

  /** The text each kind of token may have. */
  predicate Shaped(kind: TokenKind, value: string)
  {
    match kind
    case Newline => value == "\n"
    case Escaped => |value| == 2 && value[0] == '\\' && IsControl(value[1])
    case YearField => value == Placeholder
    case Invalid => |value| == 1 && IsControl(value[0])
    case Content => value != [] && forall k :: 0 <= k < |value| ==> IsLiteral(value[k])
  }

  predicate AllShaped(ls: seq<Lexeme>) { forall k :: 0 <= k < |ls| ==> Shaped(ls[k].kind, ls[k].value) }

  predicate NoInvalid(ls: seq<Lexeme>) { forall k :: 0 <= k < |ls| ==> ls[k].kind != Invalid }

  predicate NoAdjacentContent(ls: seq<Lexeme>)
  {
    forall k :: 0 < k < |ls| ==> !(ls[k - 1].kind == Content && ls[k].kind == Content)
  }

  lemma ShapedLength(kind: TokenKind, value: string)
    requires Shaped(kind, value)
    ensures value != []
    ensures kind != Newline ==> '\n' !in value
  {
  }

  // ---------------------------------------------------------------- lexing

  /** The placeholder `{{YEAR}}` starts at offset `i` of `t`. */
  predicate PlaceholderAt(t: string, i: nat)
  {
    i + 8 <= |t| && t[i] == '{' && t[i + 1] == '{' && t[i + 2] == 'Y' && t[i + 3] == 'E' &&
    t[i + 4] == 'A' && t[i + 5] == 'R' && t[i + 6] == '}' && t[i + 7] == '}'
  }

  /** The first alternative of NEWLINE | ESCAPED | YEAR | INVALID | CONTENT that matches at offset `i` of `t`. */
  function NextLexeme(t: string, i: nat): (l: Lexeme)
    requires i < |t|
    ensures 1 <= |l.value| && i + |l.value| <= |t|
  {
    if t[i] == '\n' then Lexeme(Newline, "\n")
    else if t[i] == '\\' && i + 2 <= |t| && IsControl(t[i + 1]) then Lexeme(Escaped, [t[i], t[i + 1]])
    else if PlaceholderAt(t, i) then Lexeme(YearField, Placeholder)
    else if IsControl(t[i]) then Lexeme(Invalid, [t[i]])
    else Lexeme(Content, [t[i]])
  }

  /**
   * At offset `i` stands a bare control character: a brace or backslash that does not
   * start an escape or the placeholder, so that only the INVALID alternative matches there.
   */
  predicate BareControlAt(t: string, i: nat)
  {
    i < |t| && IsControl(t[i]) && !(t[i] == '\\' && i + 1 < |t| && IsControl(t[i + 1])) && !PlaceholderAt(t, i)
  }

  /** A match has the shape of its kind and is the text at its offset. */
  lemma NextLexemeText(t: string, i: nat)
    requires i < |t|
    ensures var l := NextLexeme(t, i); Shaped(l.kind, l.value) && l.value == t[i..i + |l.value|]
  {
    var l := NextLexeme(t, i);
    if l.kind == YearField {
      assert t[i..i + 8] == Placeholder;
    }
  }

  /** The successive matches of the alternation from offset `i` to the end of the template (`finditer`). */
  function LexFrom(t: string, i: nat): seq<Lexeme>
    requires i <= |t|
    decreases |t| - i
  {
    if i == |t| then [] else
      var l := NextLexeme(t, i);
      [l] + LexFrom(t, i + |l.value|)
  }

  function Lex(t: string): seq<Lexeme> { LexFrom(t, 0) }

  /** The text a sequence of lexemes covers. */
  function Concat(ls: seq<Lexeme>): string
  {
    if ls == [] then [] else Concat(ls[..|ls| - 1]) + ls[|ls| - 1].value
  }

  lemma {:induction false} ConcatAppend(a: seq<Lexeme>, b: seq<Lexeme>)
    ensures Concat(a + b) == Concat(a) + Concat(b)
    decreases |b|
  {
    if b != [] {
      var b' := b[..|b| - 1];
      assert (a + b)[..|a + b| - 1] == a + b';
      assert (a + b)[|a + b| - 1] == b[|b| - 1];
      ConcatAppend(a, b');
      assert Concat(a + b) == Concat(a + b') + b[|b| - 1].value;
    } else {
      assert a + b == a;
    }
  }

  lemma ConcatCons(l: Lexeme, rest: seq<Lexeme>)
    ensures Concat([l] + rest) == l.value + Concat(rest)
  {
    ConcatAppend([l], rest);
    assert Concat([l]) == l.value by { assert [l][..0] == []; }
  }

  /** Every match from offset `i` on has the shape of its kind. */
  lemma {:induction false} LexFromShaped(t: string, i: nat)
    requires i <= |t|
    ensures AllShaped(LexFrom(t, i))
    decreases |t| - i
  {
    if i < |t| {
      var l := NextLexeme(t, i);
      NextLexemeText(t, i);
      LexFromShaped(t, i + |l.value|);
      var rest := LexFrom(t, i + |l.value|);
      assert LexFrom(t, i) == [l] + rest;
    }
  }

  /** The matches cover the rest of the template: `finditer` skips nothing. */
  lemma {:induction false} ConcatLexFrom(t: string, i: nat)
    requires i <= |t|
    ensures Concat(LexFrom(t, i)) == t[i..]
    decreases |t| - i
  {
    if i < |t| {
      var l := NextLexeme(t, i);
      NextLexemeText(t, i);
      var j := i + |l.value|;
      var rest := LexFrom(t, j);
      assert LexFrom(t, i) == [l] + rest;
      ConcatLexFrom(t, j);
      ConcatCons(l, rest);
      assert t[i..] == l.value + t[j..];
      calc {
        Concat(LexFrom(t, i));
        Concat([l] + rest);
        l.value + Concat(rest);
        l.value + t[j..];
      }
    }
  }

  /** `done` are the matches the alternation finds from the start of `t` up to offset `i`. */
  ghost predicate LexedTo(t: string, i: nat, done: seq<Lexeme>)
    decreases |done|
  {
    if done == [] then i == 0
    else
      var l := done[|done| - 1];
      |l.value| <= i <= |t| && LexedTo(t, i - |l.value|, done[..|done| - 1]) &&
      i - |l.value| < |t| && l == NextLexeme(t, i - |l.value|)
  }

  lemma LexedToStep(t: string, i: nat, done: seq<Lexeme>, i': nat)
    requires LexedTo(t, i, done) && i < |t| && i' == i + |NextLexeme(t, i).value|
    ensures LexedTo(t, i', done + [NextLexeme(t, i)])
  {
    var done' := done + [NextLexeme(t, i)];
    assert done'[..|done|] == done;
  }

  lemma {:induction false} LexedToSpec(t: string, i: nat, done: seq<Lexeme>)
    requires LexedTo(t, i, done)
    ensures i <= |t| && Lex(t) == done + LexFrom(t, i)
    decreases |done|
  {
    if done != [] {
      var init, l := done[..|done| - 1], done[|done| - 1];
      var j := i - |l.value|;
      LexedToSpec(t, j, init);
      var rest := LexFrom(t, i);
      assert LexFrom(t, j) == [l] + rest;
      assert done == init + [l];
    }
  }

  /** The index of the first INVALID match, or the number of matches when there is none. */
  function FirstInvalid(ls: seq<Lexeme>): (j: nat)
    ensures j <= |ls| && NoInvalid(ls[..j]) && (j < |ls| ==> ls[j].kind == Invalid)
  {
    if ls == [] then 0
    else if ls[0].kind == Invalid then 0
    else
      var j := 1 + FirstInvalid(ls[1..]);
      assert forall k :: 1 <= k < j ==> ls[..j][k] == ls[1..][..j - 1][k - 1];
      j
  }

  lemma {:induction false} FirstInvalidAt(a: seq<Lexeme>, b: seq<Lexeme>)
    requires NoInvalid(a) && b != [] && b[0].kind == Invalid
    ensures FirstInvalid(a + b) == |a|
    decreases |a|
  {
    if a != [] {
      assert (a + b)[1..] == a[1..] + b;
      FirstInvalidAt(a[1..], b);
    }
  }

  lemma {:induction false} FirstInvalidNone(ls: seq<Lexeme>)
    requires NoInvalid(ls)
    ensures FirstInvalid(ls) == |ls|
  {
  }

  // ---------------------------------------------------------------- positions

  /** The line and column of the character that follows the text `s`, counting from 1:1. */
  function Advance(s: string): (p: Pos)
    ensures p.line >= 1 && p.column >= 1
  {
    if s == [] then Pos(1, 1)
    else
      var p := Advance(s[..|s| - 1]);
      if s[|s| - 1] == '\n' then Pos(p.line + 1, 1) else Pos(p.line, p.column + 1)
  }

  lemma {:induction false} AdvanceOneLine(s: string, v: string)
    requires '\n' !in v
    ensures Advance(s + v) == Pos(Advance(s).line, Advance(s).column + |v|)
    decreases |v|
  {
    if v != [] {
      var v' := v[..|v| - 1];
      assert (s + v)[..|s + v| - 1] == s + v';
      assert (s + v)[|s + v| - 1] == v[|v| - 1];
      assert v[|v| - 1] in v;
      AdvanceOneLine(s, v');
      assert '\n' !in v' by { assert forall x :: x in v' ==> x in v; }
    } else {
      assert s + v == s;
    }
  }

  lemma AdvanceNewline(s: string)
    ensures Advance(s + "\n") == Pos(Advance(s).line + 1, 1)
  {
    assert (s + "\n")[..|s|] == s;
  }

  /** The line of a position is one more than the line feeds before it. */
  lemma {:induction false} AdvanceLine(s: string)
    ensures Advance(s).line == 1 + multiset(s)['\n']
    decreases |s|
  {
    if s != [] {
      var s' := s[..|s| - 1];
      assert s == s' + [s[|s| - 1]];
      AdvanceLine(s');
    }
  }

  // ---------------------------------------------------------------- coalescing and placing

  /** Add a match to the tokens so far, merging adjacent content. */
  function Merge(acc: seq<Lexeme>, l: Lexeme): seq<Lexeme>
  {
    if l.kind == Content && acc != [] && acc[|acc| - 1].kind == Content then
      acc[..|acc| - 1] + [Lexeme(Content, acc[|acc| - 1].value + l.value)]
    else
      acc + [l]
  }

  /** Merging keeps the text, never leaves two content tokens side by side, and keeps every token well shaped. */
  lemma MergeProps(acc: seq<Lexeme>, l: Lexeme)
    requires NoAdjacentContent(acc)
    ensures Concat(Merge(acc, l)) == Concat(acc) + l.value
    ensures NoAdjacentContent(Merge(acc, l))
    ensures AllShaped(acc) && Shaped(l.kind, l.value) ==> AllShaped(Merge(acc, l))
    ensures NoInvalid(acc) && l.kind != Invalid ==> NoInvalid(Merge(acc, l))
  {
    MergeText(acc, l);
    MergeKinds(acc, l);
  }

  lemma MergeText(acc: seq<Lexeme>, l: Lexeme)
    ensures Concat(Merge(acc, l)) == Concat(acc) + l.value
  {
    var r := Merge(acc, l);
    if l.kind == Content && acc != [] && acc[|acc| - 1].kind == Content {
      var init, last := acc[..|acc| - 1], acc[|acc| - 1];
      assert r[..|r| - 1] == init;
      assert acc == init + [last];
      assert Concat(acc) == Concat(init) + last.value;
      assert Concat(r) == Concat(init) + (last.value + l.value);
    } else {
      assert r[..|r| - 1] == acc;
    }
  }

  lemma MergeKinds(acc: seq<Lexeme>, l: Lexeme)
    requires NoAdjacentContent(acc)
    ensures NoAdjacentContent(Merge(acc, l))
    ensures AllShaped(acc) && Shaped(l.kind, l.value) ==> AllShaped(Merge(acc, l))
    ensures NoInvalid(acc) && l.kind != Invalid ==> NoInvalid(Merge(acc, l))
  {
    var r := Merge(acc, l);
    if l.kind == Content && acc != [] && acc[|acc| - 1].kind == Content {
      assert |r| == |acc|;
      assert forall k :: 0 <= k < |acc| - 1 ==> r[k] == acc[k];
      assert r[|r| - 1] == Lexeme(Content, acc[|acc| - 1].value + l.value);
    } else {
      assert r == acc + [l];
      assert forall k :: 0 <= k < |acc| ==> r[k] == acc[k];
    }
  }

  /** The matches with every run of adjacent content merged into one token. */
  function Coalesce(ls: seq<Lexeme>): seq<Lexeme>
  {
    if ls == [] then [] else Merge(Coalesce(ls[..|ls| - 1]), ls[|ls| - 1])
  }

  /** Coalescing keeps the text, leaves no two content tokens side by side, and keeps shapes and the absence of INVALID. */
  lemma {:induction false} CoalesceProps(ls: seq<Lexeme>)
    ensures Concat(Coalesce(ls)) == Concat(ls)
    ensures NoAdjacentContent(Coalesce(ls))
    ensures AllShaped(ls) ==> AllShaped(Coalesce(ls))
    ensures NoInvalid(ls) ==> NoInvalid(Coalesce(ls))
  {
    if ls != [] {
      var init := ls[..|ls| - 1];
      assert AllShaped(ls) ==> AllShaped(init);
      assert NoInvalid(ls) ==> NoInvalid(init);
      CoalesceProps(init);
      MergeProps(Coalesce(init), ls[|ls| - 1]);
    }
  }

  /** Tokens with the positions their text occupies in the template. */
  function Place(ls: seq<Lexeme>): (toks: seq<Token>)
    ensures |toks| == |ls|
  {
    if ls == [] then []
    else
      var p := Advance(Concat(ls[..|ls| - 1]));
      Place(ls[..|ls| - 1]) + [Token(ls[|ls| - 1].kind, ls[|ls| - 1].value, p.line, p.column)]
  }

  /** Each placed token carries its match's kind and text and the line and column where that text starts. */
  lemma {:induction false} PlaceAt(ls: seq<Lexeme>, k: nat)
    requires k < |ls|
    ensures Place(ls)[k] == Token(ls[k].kind, ls[k].value, Advance(Concat(ls[..k])).line, Advance(Concat(ls[..k])).column)
    decreases |ls|
  {
    var init := ls[..|ls| - 1];
    if k < |init| {
      PlaceAt(init, k);
      assert init[..k] == ls[..k];
    }
  }

  lemma PlaceAppend(e: seq<Lexeme>, x: Lexeme)
    ensures Place(e + [x]) == Place(e) + [Token(x.kind, x.value, Advance(Concat(e)).line, Advance(Concat(e)).column)]
  {
    assert (e + [x])[..|e|] == e;
  }

  /** What the tokenizer yields before it stops, and the error it raises, if any. */
  datatype Scanned = Scanned(tokens: seq<Token>, error: Option<TemplateError>)

  /**
   * The tokenizer generator: content merged, positions attached, and at the
   * first control character that is not part of an escape or a field,
   * the pending content yielded and the error raised at that character.
   */
  function Scan(t: string): Scanned
  {
    var ls := Lex(t);
    var j := FirstInvalid(ls);
    var toks := Place(Coalesce(ls[..j]));
    if j < |ls| then
      var p := Advance(Concat(ls[..j]));
      Scanned(toks, Some(InvalidCharacter(ls[j].value, p.line, p.column)))
    else
      Scanned(toks, None)
  }

  function Tokenize(t: string): Result<seq<Token>, TemplateError>
  {
    var sc := Scan(t);
    if sc.error.Some? then Err(sc.error.value) else Ok(sc.tokens)
  }

  function Pending(content: string): seq<Lexeme>
  {
    if content == [] then [] else [Lexeme(Content, content)]
  }

  lemma MergeContent(emitted: seq<Lexeme>, content: string, l: Lexeme)
    requires NoAdjacentContent(emitted + Pending(content))
    requires emitted == [] || emitted[|emitted| - 1].kind != Content
    requires l.kind == Content && l.value != []
    ensures Merge(emitted + Pending(content), l) == emitted + Pending(content + l.value)
  {
    var acc := emitted + Pending(content);
    if content != [] {
      assert acc[..|acc| - 1] == emitted;
      assert acc[|acc| - 1] == Lexeme(Content, content);
    } else {
      assert acc == emitted;
      assert [] + l.value == l.value;
      assert Merge(acc, l) == emitted + [l];
    }
  }

  /** The lexing half of the tokenizer's loop invariant: the matches consumed so far, none of them INVALID. */
  ghost predicate LexInv(t: string, i: nat, done: seq<Lexeme>)
  {
    LexedTo(t, i, done) && NoInvalid(done)
  }

  /** The emitting half: the tokens yielded so far and the current line and column. */
  ghost predicate EmitInv(emitted: seq<Lexeme>, tokens: seq<Token>, line: nat, column: nat)
  {
    tokens == Place(emitted) && Pos(line, column) == Advance(Concat(emitted))
  }

  /** The matched text covers the template's prefix. */
  lemma {:induction false} LexedToConcat(t: string, i: nat, done: seq<Lexeme>)
    requires LexedTo(t, i, done)
    ensures Concat(done) == t[..i]
    decreases |done|
  {
    if done != [] {
      var init, l := done[..|done| - 1], done[|done| - 1];
      var j := i - |l.value|;
      LexedToConcat(t, j, init);
      NextLexemeText(t, j);
      assert t[..i] == t[..j] + t[j..i];
    }
  }

  /** Consuming the next match keeps the lexing invariant, or, at an INVALID match, locates it. */
  lemma LexAdvance(t: string, i: nat, done: seq<Lexeme>, l: Lexeme, i': nat)
    requires LexInv(t, i, done) && i < |t| && l == NextLexeme(t, i) && i' == i + |l.value|
    ensures l.kind != Invalid ==> LexInv(t, i', done + [l])
    ensures l.kind == Invalid ==>
      |done| < |Lex(t)| && FirstInvalid(Lex(t)) == |done| && Lex(t)[..|done|] == done && Lex(t)[|done|] == l
  {
    LexedToStep(t, i, done, i');
    if l.kind == Invalid {
      LexedToSpec(t, i, done);
      var rest := LexFrom(t, i');
      var ls := Lex(t);
      assert LexFrom(t, i) == [l] + rest;
      assert ls == done + ([l] + rest);
      FirstInvalidAt(done, [l] + rest);
      assert ls[..|done|] == done;
    }
  }

  lemma CoalesceStep(done: seq<Lexeme>, l: Lexeme)
    ensures Coalesce(done + [l]) == Merge(Coalesce(done), l)
  {
    assert (done + [l])[..|done|] == done;
  }

  /**
   * Emitting one token at the current position keeps tokens and position in step with
   * the emitted matches: a line feed moves to the start of the next line, other text along the line.
   */
  lemma EmitStep(emitted: seq<Lexeme>, l: Lexeme, tokens: seq<Token>, line: nat, column: nat, line': nat, column': nat)
    requires Shaped(l.kind, l.value) && EmitInv(emitted, tokens, line, column)
    requires line' == (if l.kind == Newline then line + 1 else line)
    requires column' == (if l.kind == Newline then 1 else column + |l.value|)
    ensures EmitInv(emitted + [l], tokens + [Token(l.kind, l.value, line, column)], line', column')
  {
    PlaceAppend(emitted, l);
    ConcatAppend(emitted, [l]);
    assert Concat([l]) == l.value by { assert [l][..0] == []; }
    ShapedLength(l.kind, l.value);
    if l.kind == Newline {
      AdvanceNewline(Concat(emitted));
    } else {
      AdvanceOneLine(Concat(emitted), l.value);
    }
  }

  /** The tokenizer's loop invariant after `i` characters of the template, with `content` pending. */
  ghost predicate ScanInv(t: string, i: nat, done: seq<Lexeme>, emitted: seq<Lexeme>, content: string,
                          tokens: seq<Token>, line: nat, column: nat)
  {
    LexInv(t, i, done) && EmitInv(emitted, tokens, line, column) &&
    Coalesce(done) == emitted + Pending(content) &&
    (emitted == [] || emitted[|emitted| - 1].kind != Content) &&
    (content == [] || Shaped(Content, content))
  }

  /** A CONTENT match only grows the pending content. */
  lemma ContentStep(t: string, i: nat, done: seq<Lexeme>, emitted: seq<Lexeme>, content: string,
                    tokens: seq<Token>, line: nat, column: nat, i': nat, content': string)
    requires ScanInv(t, i, done, emitted, content, tokens, line, column)
    requires i < |t| && NextLexeme(t, i).kind == Content
    requires i' == i + |NextLexeme(t, i).value| && content' == content + NextLexeme(t, i).value
    ensures ScanInv(t, i', done + [NextLexeme(t, i)], emitted, content', tokens, line, column)
  {
    var l := NextLexeme(t, i);
    NextLexemeText(t, i);
    LexAdvance(t, i, done, l, i');
    CoalesceStep(done, l);
    CoalesceProps(done);
    MergeContent(emitted, content, l);
  }

  /** The tokens yielded so far once the pending content, if any, has been yielded too. */
  function Flushed(tokens: seq<Token>, content: string, line: nat, column: nat): seq<Token>
  {
    if content == "" then tokens else tokens + [Token(Content, content, line, column)]
  }

  /** Yielding the pending content, if any, leaves nothing pending; the column moves past it. */
  lemma FlushStep(done: seq<Lexeme>, emitted: seq<Lexeme>, content: string,
                  tokens: seq<Token>, line: nat, column: nat, col: nat)
    requires EmitInv(emitted, tokens, line, column)
    requires content == [] || Shaped(Content, content)
    requires col == column + |content|
    ensures EmitInv(emitted + Pending(content), Flushed(tokens, content, line, column), line, col)
  {
    if content != [] {
      EmitStep(emitted, Lexeme(Content, content), tokens, line, column, line, col);
    } else {
      assert emitted + Pending(content) == emitted;
    }
  }

  /** A NEWLINE, ESCAPED or YEAR match, with nothing pending, is yielded at once. */
  lemma OtherStep(t: string, i: nat, done: seq<Lexeme>, emitted: seq<Lexeme>,
                  tokens: seq<Token>, line: nat, column: nat, l: Lexeme, i': nat, line': nat, column': nat)
    requires LexInv(t, i, done) && EmitInv(emitted, tokens, line, column) && Coalesce(done) == emitted
    requires i < |t| && l == NextLexeme(t, i) && l.kind != Content && l.kind != Invalid
    requires i' == i + |l.value|
    requires line' == (if l.kind == Newline then line + 1 else line)
    requires column' == (if l.kind == Newline then 1 else column + |l.value|)
    ensures ScanInv(t, i', done + [l], emitted + [l], "", tokens + [Token(l.kind, l.value, line, column)], line', column')
  {
    NextLexemeText(t, i);
    LexAdvance(t, i, done, l, i');
    CoalesceStep(done, l);
    EmitStep(emitted, l, tokens, line, column, line', column');
  }

  /** At an INVALID match, with nothing pending, the tokens so far and the error are those of `Scan`. */
  lemma InvalidStop(t: string, i: nat, done: seq<Lexeme>, emitted: seq<Lexeme>,
                    tokens: seq<Token>, line: nat, column: nat, l: Lexeme)
    requires LexInv(t, i, done) && EmitInv(emitted, tokens, line, column) && Coalesce(done) == emitted
    requires i < |t| && l == NextLexeme(t, i) && l.kind == Invalid
    ensures Scan(t) == Scanned(tokens, Some(InvalidCharacter(l.value, line, column)))
  {
    LexAdvance(t, i, done, l, i + |l.value|);
    var ls := Lex(t);
    var j := FirstInvalid(ls);
    assert j == |done| && ls[..j] == done && ls[j] == l;
    assert Place(Coalesce(ls[..j])) == tokens;
    CoalesceProps(done);
    assert Concat(ls[..j]) == Concat(emitted);
    assert Advance(Concat(ls[..j])) == Pos(line, column);
  }

  /** A NEWLINE, ESCAPED or YEAR match keeps the invariant, once the pending content is yielded before it at `col`. */
  lemma YieldStep(t: string, i: nat, done: seq<Lexeme>, emitted: seq<Lexeme>, content: string,
                  tokens: seq<Token>, line: nat, column: nat, i': nat, col: nat, line': nat, column': nat, tokens': seq<Token>)
    requires ScanInv(t, i, done, emitted, content, tokens, line, column)
    requires i < |t| && NextLexeme(t, i).kind != Content && NextLexeme(t, i).kind != Invalid
    requires var l := NextLexeme(t, i);
             i' == i + |l.value| && col == column + |content| &&
             tokens' == Flushed(tokens, content, line, column) + [Token(l.kind, l.value, line, col)] &&
             line' == (if l.kind == Newline then line + 1 else line) &&
             column' == (if l.kind == Newline then 1 else col + |l.value|)
    ensures ScanInv(t, i', done + [NextLexeme(t, i)], emitted + Pending(content) + [NextLexeme(t, i)], "", tokens', line', column')
  {
    FlushStep(done, emitted, content, tokens, line, column, col);
    OtherStep(t, i, done, emitted + Pending(content), Flushed(tokens, content, line, column), line, col, NextLexeme(t, i), i', line', column');
  }

  /** An INVALID match: the tokens so far, the pending content and the error at `col` are those of `Scan`. */
  lemma ScanStop(t: string, i: nat, done: seq<Lexeme>, emitted: seq<Lexeme>, content: string,
                 tokens: seq<Token>, line: nat, column: nat, col: nat)
    requires ScanInv(t, i, done, emitted, content, tokens, line, column)
    requires i < |t| && NextLexeme(t, i).kind == Invalid && col == column + |content|
    ensures Scan(t) == Scanned(Flushed(tokens, content, line, column), Some(InvalidCharacter(NextLexeme(t, i).value, line, col)))
  {
    FlushStep(done, emitted, content, tokens, line, column, col);
    InvalidStop(t, i, done, emitted + Pending(content), Flushed(tokens, content, line, column), line, col, NextLexeme(t, i));
  }

  /** At the end of the template, the tokens and the pending content, if any, are those of `Scan`. */
  lemma EndStop(t: string, i: nat, done: seq<Lexeme>, emitted: seq<Lexeme>, content: string,
                tokens: seq<Token>, line: nat, column: nat)
    requires ScanInv(t, i, done, emitted, content, tokens, line, column) && i == |t|
    ensures Scan(t) == Scanned(Flushed(tokens, content, line, column), None)
  {
    LexedToSpec(t, i, done);
    FlushStep(done, emitted, content, tokens, line, column, column + |content|);
    assert Lex(t) == done;
    FirstInvalidNone(done);
    assert Lex(t)[..|done|] == done;
  }

  /**
   * The tokenizer's loop resumed at offset `i` with `content` pending and the
   * next token to be placed at `line`:`column`: what it still yields, and what it raises.
   */
  function Resume(t: string, i: nat, line: nat, column: nat, content: string): Scanned
    requires i <= |t|
    decreases |t| - i
  {
    if i == |t| then Scanned(Flushed([], content, line, column), None)
    else
      var l := NextLexeme(t, i);
      var j := i + |l.value|;
      if l.kind == Content then Resume(t, j, line, column, content + l.value)
      else
        var col := column + |content|;
        var pre := Flushed([], content, line, column);
        if l.kind == Invalid then Scanned(pre, Some(InvalidCharacter(l.value, line, col)))
        else
          var next :=
            if l.kind == Newline then Resume(t, j, line + 1, 1, "")
            else Resume(t, j, line, col + |l.value|, "");
          Scanned(pre + [Token(l.kind, l.value, line, col)] + next.tokens, next.error)
  }

  lemma AppendAssoc<T>(a: seq<T>, b: seq<T>, c: seq<T>)
    ensures a + b + c == a + (b + c)
  {
  }

  lemma FlushedAppend(tokens: seq<Token>, content: string, line: nat, column: nat, rest: seq<Token>)
    ensures tokens + (Flushed([], content, line, column) + rest) == Flushed(tokens, content, line, column) + rest
  {
    if content == "" {
      assert [] + rest == rest;
    }
  }

  /** The loop's content branch, stated over the state after it (`i'`, `content'`). */
  lemma LoopContent(t: string, i: nat, line: nat, column: nat, content: string, tokens: seq<Token>, i': nat, content': string)
    requires i < |t| && NextLexeme(t, i).kind == Content
    requires i' == i + |NextLexeme(t, i).value| && content' == content + NextLexeme(t, i).value
    ensures i' <= |t|
    ensures var r, r' := Resume(t, i, line, column, content), Resume(t, i', line, column, content');
            Scanned(tokens + r.tokens, r.error) == Scanned(tokens + r'.tokens, r'.error)
  {
  }

  /** The loop's branch for NEWLINE, ESCAPED and YEAR, stated over the state after it. */
  lemma LoopYield(t: string, i: nat, line: nat, column: nat, content: string, tokens: seq<Token>,
                  i': nat, col: nat, line': nat, column': nat, tokens': seq<Token>)
    requires i < |t| && NextLexeme(t, i).kind != Content && NextLexeme(t, i).kind != Invalid
    requires var l := NextLexeme(t, i);
             i' == i + |l.value| && col == column + |content| &&
             tokens' == Flushed(tokens, content, line, column) + [Token(l.kind, l.value, line, col)] &&
             line' == (if l.kind == Newline then line + 1 else line) &&
             column' == (if l.kind == Newline then 1 else col + |l.value|)
    ensures i' <= |t|
    ensures var r, r' := Resume(t, i, line, column, content), Resume(t, i', line', column', "");
            Scanned(tokens + r.tokens, r.error) == Scanned(tokens' + r'.tokens, r'.error)
  {
    var l := NextLexeme(t, i);
    var tok := Token(l.kind, l.value, line, col);
    var r' := Resume(t, i', line', column', "");
    assert Resume(t, i, line, column, content).tokens == Flushed([], content, line, column) + [tok] + r'.tokens;
    AppendAssoc(Flushed([], content, line, column), [tok], r'.tokens);
    FlushedAppend(tokens, content, line, column, [tok] + r'.tokens);
    AppendAssoc(Flushed(tokens, content, line, column), [tok], r'.tokens);
  }

  /** The loop's INVALID branch: what it has yielded and what it raises are the rest of the loop. */
  lemma LoopRaise(t: string, i: nat, line: nat, column: nat, content: string, tokens: seq<Token>,
                  col: nat, tokens': seq<Token>)
    requires i < |t| && NextLexeme(t, i).kind == Invalid
    requires col == column + |content| && tokens' == Flushed(tokens, content, line, column)
    ensures var r := Resume(t, i, line, column, content);
            Scanned(tokens + r.tokens, r.error) == Scanned(tokens', Some(InvalidCharacter(NextLexeme(t, i).value, line, col)))
  {
    FlushedAppend(tokens, content, line, column, []);
    assert Flushed([], content, line, column) + [] == Flushed([], content, line, column);
    assert Flushed(tokens, content, line, column) + [] == Flushed(tokens, content, line, column);
  }

  /** The loop at the end of the template: only the pending content, if any, is still to be yielded. */
  lemma LoopEnd(t: string, line: nat, column: nat, content: string, tokens: seq<Token>)
    ensures var r := Resume(t, |t|, line, column, content);
            Scanned(tokens + r.tokens, r.error) == Scanned(Flushed(tokens, content, line, column), None)
  {
    FlushedAppend(tokens, content, line, column, []);
    assert Flushed([], content, line, column) + [] == Flushed([], content, line, column);
    assert Flushed(tokens, content, line, column) + [] == Flushed(tokens, content, line, column);
  }

  /** From any state the invariant describes, resuming the loop completes `Scan`. */
  lemma {:induction false} ResumeScan(t: string, i: nat, done: seq<Lexeme>, emitted: seq<Lexeme>, content: string,
                                      tokens: seq<Token>, line: nat, column: nat)
    requires ScanInv(t, i, done, emitted, content, tokens, line, column)
    requires i <= |t|
    ensures Scan(t) == Scanned(tokens + Resume(t, i, line, column, content).tokens, Resume(t, i, line, column, content).error)
    decreases |t| - i
  {
    if i == |t| {
      EndStop(t, i, done, emitted, content, tokens, line, column);
      LoopEnd(t, line, column, content, tokens);
    } else {
      var l := NextLexeme(t, i);
      var j := i + |l.value|;
      var col := column + |content|;
      if l.kind == Content {
        var content' := content + l.value;
        ContentStep(t, i, done, emitted, content, tokens, line, column, j, content');
        ResumeScan(t, j, done + [l], emitted, content', tokens, line, column);
        LoopContent(t, i, line, column, content, tokens, j, content');
      } else if l.kind == Invalid {
        ScanStop(t, i, done, emitted, content, tokens, line, column, col);
        LoopRaise(t, i, line, column, content, tokens, col, Flushed(tokens, content, line, column));
      } else {
        var tokens' := Flushed(tokens, content, line, column) + [Token(l.kind, l.value, line, col)];
        var line' := if l.kind == Newline then line + 1 else line;
        var column' := if l.kind == Newline then 1 else col + |l.value|;
        YieldStep(t, i, done, emitted, content, tokens, line, column, j, col, line', column', tokens');
        ResumeScan(t, j, done + [l], emitted + Pending(content) + [l], "", tokens', line', column');
        LoopYield(t, i, line, column, content, tokens, j, col, line', column', tokens');
      }
    }
  }

  /** The one-pass loop, run from the start of the template, computes `Scan`. */
  lemma ResumeIsScan(t: string)
    ensures Resume(t, 0, 1, 1, "") == Scan(t)
  {
    assert ScanInv(t, 0, [], [], "", [], 1, 1);
    ResumeScan(t, 0, [], [], "", [], 1, 1);
    assert [] + Resume(t, 0, 1, 1, "").tokens == Resume(t, 0, 1, 1, "").tokens;
  }

  /** `tokenize_template`: one pass with a pending content buffer; returns what it yields and what it raises. */
  method TokenizeTemplate(t: string) returns (tokens: seq<Token>, error: Option<TemplateError>)
    ensures Scanned(tokens, error) == Scan(t)
  {
    var line: nat, column: nat := 1, 1;
    var content := "";
    tokens := [];
    var i: nat := 0;
    while i < |t|
      invariant i <= |t|
      invariant Resume(t, 0, 1, 1, "") == Scanned(tokens + Resume(t, i, line, column, content).tokens, Resume(t, i, line, column, content).error)
      decreases |t| - i
    {
      ghost var i0, line0, column0, content0, tokens0 := i, line, column, content, tokens;
      var l := NextLexeme(t, i);
      if l.kind == Content {
        content := content + l.value;
        i := i + |l.value|;
        LoopContent(t, i0, line0, column0, content0, tokens0, i, content);
      } else {
        if content != "" {
          tokens := tokens + [Token(Content, content, line, column)];
          column := column + |content|;
          content := "";
        }
        if l.kind == Invalid {
          error := Some(InvalidCharacter(l.value, line, column));
          LoopRaise(t, i0, line0, column0, content0, tokens0, column, tokens);
          ResumeIsScan(t);
          return;
        }
        ghost var col := column;
        tokens := tokens + [Token(l.kind, l.value, line, column)];
        if l.kind == Newline {
          line, column := line + 1, 1;
        } else {
          column := column + |l.value|;
        }
        i := i + |l.value|;
        LoopYield(t, i0, line0, column0, content0, tokens0, i, col, line, column, tokens);
      }
    }
    ghost var tokens0 := tokens;
    if content != "" {
      tokens := tokens + [Token(Content, content, line, column)];
    }
    error := None;
    LoopEnd(t, line, column, content, tokens0);
    ResumeIsScan(t);
  }

  // ---------------------------------------------------------------- what the tokenizer yields

  /** The text of a sequence of tokens. */
  function TokenText(toks: seq<Token>): string
  {
    if toks == [] then [] else TokenText(toks[..|toks| - 1]) + toks[|toks| - 1].value
  }

  lemma {:induction false} PlaceText(ls: seq<Lexeme>)
    ensures TokenText(Place(ls)) == Concat(ls)
  {
    if ls != [] {
      var init := ls[..|ls| - 1];
      var p := Advance(Concat(init));
      var toks := Place(ls);
      assert toks == Place(init) + [Token(ls[|ls| - 1].kind, ls[|ls| - 1].value, p.line, p.column)];
      assert toks[..|toks| - 1] == Place(init);
      PlaceText(init);
    }
  }

  lemma {:induction false} TokenTextPrefix(toks: seq<Token>, k: nat)
    requires k < |toks|
    ensures TokenText(toks[..k + 1]) == TokenText(toks[..k]) + toks[k].value
  {
    assert toks[..k + 1][..k] == toks[..k];
  }

  /** The tokens the tokenizer yields before it stops, as lexemes. */
  lemma ScanIsPlaced(t: string)
    ensures var ls := Lex(t); var j := FirstInvalid(ls);
            Scan(t).tokens == Place(Coalesce(ls[..j])) && Concat(Coalesce(ls[..j])) == Concat(ls[..j])
  {
    var ls := Lex(t);
    CoalesceProps(ls[..FirstInvalid(ls)]);
  }

  /** The matched text covers the template: `Lex(t)` split at `j` is a prefix of the text followed by the rest. */
  lemma LexSplit(t: string, j: nat)
    requires j <= |Lex(t)|
    ensures Concat(Lex(t)[..j]) + Concat(Lex(t)[j..]) == t
  {
    var ls := Lex(t);
    ConcatLexFrom(t, 0);
    assert t[0..] == t;
    assert ls == ls[..j] + ls[j..];
    ConcatAppend(ls[..j], ls[j..]);
  }

  /** Without an error, the yielded tokens' texts concatenate to exactly the template: no gaps, no overlaps. */
  lemma ScanText(t: string)
    requires Scan(t).error.None?
    ensures TokenText(Scan(t).tokens) == t
  {
    var ls := Lex(t);
    var j := FirstInvalid(ls);
    ScanIsPlaced(t);
    PlaceText(Coalesce(ls[..j]));
    LexSplit(t, j);
    assert ls[j..] == [];
  }

  /**
   * On an error, the tokens yielded first cover the template up to the offending
   * character, which is a bare brace or backslash (no escape or placeholder starts
   * there), and the error names that character at its own line and column.
   */
  lemma ScanError(t: string)
    requires Scan(t).error.Some?
    ensures var e := Scan(t).error.value; var n := |TokenText(Scan(t).tokens)|;
            n < |t| && TokenText(Scan(t).tokens) == t[..n] && BareControlAt(t, n) &&
            e.ch == [t[n]] && Pos(e.line, e.column) == Advance(t[..n])
  {
    var ls := Lex(t);
    var j := FirstInvalid(ls);
    ScanIsPlaced(t);
    PlaceText(Coalesce(ls[..j]));
    LexFromShaped(t, 0);
    InvalidSplit(t, ls, j, Concat(ls[..j]), ls[j].value);
    LexFromAt(t, 0, j);
    assert t[0..] == t;
    InvalidIsBare(t, |Concat(ls[..j])|);
  }

  /** The `k`-th match of `finditer` from `i` is the alternation's match right after the text of the ones before it. */
  lemma {:induction false} LexFromAt(t: string, i: nat, k: nat)
    requires i <= |t| && k < |LexFrom(t, i)|
    ensures i + |Concat(LexFrom(t, i)[..k])| < |t|
    ensures LexFrom(t, i)[k] == NextLexeme(t, i + |Concat(LexFrom(t, i)[..k])|)
    decreases k
  {
    var ls := LexFrom(t, i);
    var l := NextLexeme(t, i);
    var i' := i + |l.value|;
    var rest := LexFrom(t, i');
    assert ls == [l] + rest;
    if k == 0 {
      assert ls[..0] == [];
    } else {
      var k' := k - 1;
      LexFromAt(t, i', k');
      var pre := rest[..k'];
      assert ls[..k] == [l] + pre;
      ConcatCons(l, pre);
      assert ls[k] == rest[k'];
    }
  }

  /** Only a bare control character makes the alternation choose INVALID. */
  lemma InvalidIsBare(t: string, i: nat)
    requires i < |t| && NextLexeme(t, i).kind == Invalid
    ensures BareControlAt(t, i)
  {
  }

  lemma InvalidSplit(t: string, ls: seq<Lexeme>, j: nat, pre: string, v: string)
    requires ls == Lex(t) && j < |ls| && AllShaped(ls) && ls[j].kind == Invalid
    requires pre == Concat(ls[..j]) && v == ls[j].value
    ensures |pre| < |t| && t[..|pre|] == pre && IsControl(t[|pre|]) && v == [t[|pre|]]
  {
    LexSplit(t, j);
    assert ls[j..] == [ls[j]] + ls[j + 1..];
    ConcatCons(ls[j], ls[j + 1..]);
    assert Shaped(ls[j].kind, v);
    assert t == pre + (v + Concat(ls[j + 1..]));
  }

  /** Tokens as the tokenizer yields them: each well shaped, none INVALID, no two CONTENT side by side. */
  predicate TokensShaped(toks: seq<Token>)
  {
    (forall k :: 0 <= k < |toks| ==> toks[k].kind != Invalid && Shaped(toks[k].kind, toks[k].value)) &&
    (forall k :: 0 < k < |toks| ==> !(toks[k - 1].kind == Content && toks[k].kind == Content))
  }

  lemma PlaceShaped(ls: seq<Lexeme>)
    requires AllShaped(ls) && NoInvalid(ls) && NoAdjacentContent(ls)
    ensures TokensShaped(Place(ls))
  {
    var toks := Place(ls);
    forall k | 0 <= k < |toks| ensures toks[k].kind == ls[k].kind && toks[k].value == ls[k].value {
      PlaceAt(ls, k);
    }
  }

  /** CONTENT tokens are never empty, never adjacent, and INVALID is never yielded. */
  lemma ScanShaped(t: string)
    ensures TokensShaped(Scan(t).tokens)
  {
    var ls := Lex(t);
    var j := FirstInvalid(ls);
    LexFromShaped(t, 0);
    assert AllShaped(ls[..j]);
    CoalesceProps(ls[..j]);
    ScanIsPlaced(t);
    PlaceShaped(Coalesce(ls[..j]));
  }

  /** Each token sits at the line and column that follow the text of the tokens before it; a content token where its run begins. */
  lemma ScanPositions(t: string, k: nat)
    requires k < |Scan(t).tokens|
    ensures var toks := Scan(t).tokens;
            Pos(toks[k].line, toks[k].column) == Advance(TokenText(toks[..k]))
  {
    var ls := Lex(t);
    var cs := Coalesce(ls[..FirstInvalid(ls)]);
    ScanIsPlaced(t);
    PlaceAt(cs, k);
    PlaceText(cs[..k]);
    PlacePrefix(cs, k);
  }

  /** Placing a prefix of the matches gives the same prefix of the tokens. */
  lemma PlacePrefix(cs: seq<Lexeme>, k: nat)
    requires k <= |cs|
    ensures Place(cs)[..k] == Place(cs[..k])
  {
    var toks := Place(cs);
    forall m | 0 <= m < k ensures toks[..k][m] == Place(cs[..k])[m] {
      PlaceAt(cs, m);
      PlaceAt(cs[..k], m);
      assert cs[..k][..m] == cs[..m];
    }
  }

  /**
   * The position rules: the first token is at 1:1; after a NEWLINE the next token is at the
   * start of the next line; after any other token it is that token's length further along the line.
   */
  lemma ScanPositionSteps(t: string, k: nat)
    requires k < |Scan(t).tokens|
    ensures var toks := Scan(t).tokens;
            (k == 0 ==> toks[0].line == 1 && toks[0].column == 1) &&
            (k + 1 < |toks| ==>
               if toks[k].kind == Newline then toks[k + 1].line == toks[k].line + 1 && toks[k + 1].column == 1
               else toks[k + 1].line == toks[k].line && toks[k + 1].column == toks[k].column + |toks[k].value|)
  {
    var toks := Scan(t).tokens;
    ScanPositions(t, k);
    if k == 0 {
      assert toks[..0] == [];
    }
    if k + 1 < |toks| {
      ScanPositions(t, k + 1);
      ScanShaped(t);
      TokenTextPrefix(toks, k);
      ShapedLength(toks[k].kind, toks[k].value);
      if toks[k].kind == Newline {
        AdvanceNewline(TokenText(toks[..k]));
      } else {
        AdvanceOneLine(TokenText(toks[..k]), toks[k].value);
      }
    }
  }

  // ---------------------------------------------------------------- tested examples

  /** A run of plain characters only grows the pending content. */
  lemma {:induction false} ContentRun(t: string, i: nat, j: nat, line: nat, column: nat, content: string)
    requires i <= j <= |t| && forall k :: i <= k < j ==> IsLiteral(t[k])
    ensures Resume(t, i, line, column, content) == Resume(t, j, line, column, content + t[i..j])
    decreases j - i
  {
    if i < j {
      var i' := i + 1;
      var c' := content + [t[i]];
      assert NextLexeme(t, i) == Lexeme(Content, [t[i]]);
      ContentRun(t, i', j, line, column, c');
      assert c' + t[i'..j] == content + t[i..j];
    } else {
      assert content + t[i..j] == content;
    }
  }

  // ---------------------------------------------------------------- the header pattern

  /**
   * One piece of the compiled header pattern: literal text, written escaped into the
   * regular expression, or a YEAR capture group `(\d{4}(?:-\d{4})?)`.
   */
  datatype Segment = Lit(text: string) | YearGroup

  /** `HeaderParser`: the kinds of the capture groups, in order, and the pattern, anchored at the start. */
  datatype HeaderParser = HeaderParser(fields: seq<FieldKind>, pattern: seq<Segment>)

  /** Python's `s[1:]`, defined for every string. */
  function DropFirst(s: string): string { if s == [] then [] else s[1..] }

  /** The text a token stands for outside a field: an escape stands for the character it escapes. */
  function LiteralOf(tok: Token): string
  {
    if tok.kind == Escaped then DropFirst(tok.value) else tok.value
  }

  /** The pattern piece `make_template_parser` writes for one token. */
  function SegmentOf(tok: Token): Segment
  {
    if tok.kind == YearField then YearGroup else Lit(LiteralOf(tok))
  }

  function Segments(toks: seq<Token>): (segs: seq<Segment>)
  {
    seq(|toks|, k requires 0 <= k < |toks| => SegmentOf(toks[k]))
  }

  /** The number of `{{YEAR}}` tokens. */
  function YearCount(toks: seq<Token>): nat
  {
    if toks == [] then 0 else YearCount(toks[..|toks| - 1]) + (if toks[|toks| - 1].kind == YearField then 1 else 0)
  }

  /** The number of capture groups of a pattern. */
  function GroupCount(segs: seq<Segment>): nat
  {
    if segs == [] then 0 else (if segs[0].YearGroup? then 1 else 0) + GroupCount(segs[1..])
  }

  /** The field kinds for `n` YEAR fields. */
  function YearKinds(n: nat): seq<FieldKind> { seq(n, _ => Year) }

  /** `make_template_parser`: the parser for a template that tokenizes, or the tokenizer's error. */
  function CompileTemplate(t: string): Result<HeaderParser, TemplateError>
  {
    var sc := Scan(t);
    if sc.error.Some? then Err(sc.error.value)
    else Ok(HeaderParser(YearKinds(YearCount(sc.tokens)), Segments(sc.tokens)))
  }

  /** A parser whose field list has one entry per capture group, as every compiled parser has. */
  predicate WellFormed(p: HeaderParser) { |p.fields| == GroupCount(p.pattern) }

  lemma {:induction false} GroupCountFront(toks: seq<Token>)
    ensures GroupCount(Segments(toks)) == YearCount(toks)
    decreases |toks|
  {
    if toks != [] {
      var init := toks[..|toks| - 1];
      GroupCountFront(init);
      GroupCountAppend(Segments(init), SegmentOf(toks[|toks| - 1]));
      assert Segments(toks) == Segments(init) + [SegmentOf(toks[|toks| - 1])];
    }
  }

  lemma {:induction false} GroupCountAppend(segs: seq<Segment>, x: Segment)
    ensures GroupCount(segs + [x]) == GroupCount(segs) + (if x.YearGroup? then 1 else 0)
    decreases |segs|
  {
    if segs == [] {
      assert [] + [x] == [x];
      assert [x][1..] == [];
    } else {
      assert (segs + [x])[1..] == segs[1..] + [x];
      GroupCountAppend(segs[1..], x);
    }
  }

  /**
   * A compiled parser has one YEAR field per `{{YEAR}}` token and one capture group per field;
   * its pattern has one piece per token, the escaped character for an escape and the text for the rest.
   */
  lemma CompileTemplateShape(t: string)
    requires CompileTemplate(t).Ok?
    ensures var p := CompileTemplate(t).value; var toks := Scan(t).tokens;
            WellFormed(p) && |p.fields| == YearCount(toks) && (forall k :: 0 <= k < |p.fields| ==> p.fields[k] == Year) &&
            |p.pattern| == |toks| &&
            (forall k :: 0 <= k < |toks| ==>
               p.pattern[k] == (if toks[k].kind == YearField then YearGroup else Lit(LiteralOf(toks[k]))) &&
               (toks[k].kind == Escaped ==> |toks[k].value| == 2 && LiteralOf(toks[k]) == toks[k].value[1..2]))
  {
    var toks := Scan(t).tokens;
    GroupCountFront(toks);
    ScanShaped(t);
  }

  lemma YearCountAppend(toks: seq<Token>, k: nat)
    requires k < |toks|
    ensures YearCount(toks[..k + 1]) == YearCount(toks[..k]) + (if toks[k].kind == YearField then 1 else 0)
  {
    assert toks[..k + 1][..k] == toks[..k];
  }

  /** `make_template_parser`: tokenizes, then writes one pattern piece per token and records one field per YEAR. */
  method MakeTemplateParser(t: string) returns (r: Result<HeaderParser, TemplateError>)
    ensures r == CompileTemplate(t)
  {
    var tokens, error := TokenizeTemplate(t);
    if error.Some? {
      return Err(error.value);
    }
    var pattern: seq<Segment> := [];
    var groups: seq<FieldKind> := [];
    var k := 0;
    while k < |tokens|
      invariant k <= |tokens|
      invariant pattern == Segments(tokens[..k]) && groups == YearKinds(YearCount(tokens[..k]))
    {
      var tok := tokens[k];
      if tok.kind == YearField {
        pattern := pattern + [YearGroup];
        groups := groups + [Year];
      } else if tok.kind == Escaped {
        pattern := pattern + [Lit(DropFirst(tok.value))];
      } else {
        pattern := pattern + [Lit(tok.value)];
      }
      YearCountAppend(tokens, k);
      assert Segments(tokens[..k + 1]) == Segments(tokens[..k]) + [SegmentOf(tok)];
      k := k + 1;
    }
    assert tokens[..k] == tokens;
    r := Ok(HeaderParser(groups, pattern));
  }

  // ---------------------------------------------------------------- matching

  /** A successful match at the start of the content: where it ends and the text of each capture group. */
  datatype Match = Match(end: nat, groups: seq<string>)

  /** `-` and four digits at offset `k`: what the optional part of a YEAR group takes. */
  predicate DashYearAt(c: string, k: nat)
  {
    k + 5 <= |c| && c[k] == '-' && AllDigits(c[k + 1..k + 5])
  }

  /**
   * The compiled regular expression's `match` from offset `i`: literal pieces must appear
   * verbatim; a YEAR group first takes `dddd-dddd` and, if the rest of the pattern then
   * fails, backtracks to `dddd`.
   */
  function MatchFrom(segs: seq<Segment>, c: string, i: nat): (r: Option<Match>)
    requires i <= |c|
    ensures r.Some? ==> i <= r.value.end <= |c|
    decreases |segs|
  {
    if segs == [] then Some(Match(i, []))
    else match segs[0]
      case Lit(s) =>
        if i + |s| <= |c| && c[i..i + |s|] == s then MatchFrom(segs[1..], c, i + |s|) else None
      case YearGroup =>
        var long := if IsLongAt(c, i) then MatchFrom(segs[1..], c, i + 9) else None;
        if long.Some? then Some(Match(long.value.end, [c[i..i + 9]] + long.value.groups))
        else if IsShortAt(c, i) then
          var short := MatchFrom(segs[1..], c, i + 4);
          if short.Some? then Some(Match(short.value.end, [c[i..i + 4]] + short.value.groups)) else None
        else None
  }

  /** The text a pattern matches when its capture groups take the texts `gs`. */
  function Fill(segs: seq<Segment>, gs: seq<string>): string
    requires |gs| == GroupCount(segs)
    decreases |segs|
  {
    if segs == [] then []
    else match segs[0]
      case Lit(s) => s + Fill(segs[1..], gs)
      case YearGroup => gs[0] + Fill(segs[1..], gs[1..])
  }

  predicate AllMatchRegex(gs: seq<string>) { forall k :: 0 <= k < |gs| ==> MatchesRegex(gs[k]) }

  /** `c` has the text `s` at offset `i`. */
  predicate TextAt(c: string, i: nat, s: string) { i + |s| <= |c| && c[i..i + |s|] == s }

  lemma TextAtSplit(c: string, i: nat, a: string, b: string)
    ensures TextAt(c, i, a + b) <==> TextAt(c, i, a) && TextAt(c, i + |a|, b)
  {
    if TextAt(c, i, a) && TextAt(c, i + |a|, b) {
      assert c[i..i + |a + b|] == c[i..i + |a|] + c[i + |a|..i + |a| + |b|];
    }
    if TextAt(c, i, a + b) {
      assert c[i..i + |a|] == (a + b)[..|a|];
      assert c[i + |a|..i + |a| + |b|] == (a + b)[|a|..];
    }
  }

  lemma ShortLongAt(c: string, i: nat)
    ensures IsLongAt(c, i) <==> IsShortAt(c, i) && DashYearAt(c, i + 4)
  {
    if i + 9 <= |c| {
      assert c[i..i + 9][..4] == c[i..i + 4];
      assert c[i..i + 9][5..] == c[i + 5..i + 9];
      assert c[i..i + 9][4] == c[i + 4];
    }
  }

  lemma FormAt(c: string, i: nat, g: string)
    requires TextAt(c, i, g)
    ensures IsShortForm(g) ==> IsShortAt(c, i) && c[i..i + 4] == g
    ensures IsLongForm(g) ==> IsLongAt(c, i) && c[i..i + 9] == g
  {
  }

  /** A YEAR group that takes `dddd-dddd` and lets the rest of the pattern match. */
  lemma MatchLong(segs: seq<Segment>, c: string, i: nat, j: nat, r: Match)
    requires segs != [] && segs[0].YearGroup? && IsLongAt(c, i) && j == i + 9
    requires MatchFrom(segs[1..], c, j) == Some(r)
    ensures MatchFrom(segs, c, i) == Some(Match(r.end, [c[i..j]] + r.groups))
  {
  }

  /** A YEAR group that backtracks to `dddd`. */
  lemma MatchShort(segs: seq<Segment>, c: string, i: nat, j: nat, r: Match)
    requires segs != [] && segs[0].YearGroup? && IsShortAt(c, i) && j == i + 4
    requires !IsLongAt(c, i) || MatchFrom(segs[1..], c, i + 9).None?
    requires MatchFrom(segs[1..], c, j) == Some(r)
    ensures MatchFrom(segs, c, i) == Some(Match(r.end, [c[i..j]] + r.groups))
  {
  }

  /** Soundness of one YEAR group, given soundness of the rest. */
  lemma GroupSound(segs: seq<Segment>, c: string, i: nat, j: nat, r: Match, m: Match)
    requires segs != [] && segs[0].YearGroup? && i <= j <= r.end <= |c|
    requires (j == i + 4 && IsShortAt(c, i)) || (j == i + 9 && IsLongAt(c, i))
    requires m == Match(r.end, [c[i..j]] + r.groups)
    requires |r.groups| == GroupCount(segs[1..]) && AllMatchRegex(r.groups) && c[j..r.end] == Fill(segs[1..], r.groups)
    ensures |m.groups| == GroupCount(segs) && AllMatchRegex(m.groups) && c[i..m.end] == Fill(segs, m.groups)
  {
    assert m.groups[1..] == r.groups;
    assert c[i..m.end] == c[i..j] + c[j..m.end];
  }

  /** Soundness: a match ends at the text of the pattern filled with its groups, and every group is a year or a year range. */
  lemma {:induction false} MatchSound(segs: seq<Segment>, c: string, i: nat)
    requires i <= |c| && MatchFrom(segs, c, i).Some?
    ensures var m := MatchFrom(segs, c, i).value;
            |m.groups| == GroupCount(segs) && AllMatchRegex(m.groups) && c[i..m.end] == Fill(segs, m.groups)
    decreases |segs|
  {
    var m := MatchFrom(segs, c, i).value;
    if segs != [] {
      match segs[0]
      case Lit(s) =>
        var j := i + |s|;
        MatchSound(segs[1..], c, j);
        assert c[i..m.end] == c[i..j] + c[j..m.end];
      case YearGroup =>
        if IsLongAt(c, i) && MatchFrom(segs[1..], c, i + 9).Some? {
          var j := i + 9;
          MatchSound(segs[1..], c, j);
          GroupSound(segs, c, i, j, MatchFrom(segs[1..], c, j).value, m);
        } else {
          var j := i + 4;
          MatchSound(segs[1..], c, j);
          GroupSound(segs, c, i, j, MatchFrom(segs[1..], c, j).value, m);
        }
    }
  }

  /** Completeness: whenever the content starts with the pattern filled with some years, the backtracking match succeeds. */
  lemma {:induction false} MatchComplete(segs: seq<Segment>, c: string, i: nat, gs: seq<string>)
    requires i <= |c| && |gs| == GroupCount(segs) && AllMatchRegex(gs) && TextAt(c, i, Fill(segs, gs))
    ensures MatchFrom(segs, c, i).Some?
    decreases |segs|
  {
    if segs != [] {
      match segs[0]
      case Lit(s) =>
        TextAtSplit(c, i, s, Fill(segs[1..], gs));
        MatchComplete(segs[1..], c, i + |s|, gs);
      case YearGroup =>
        var g := gs[0];
        TextAtSplit(c, i, g, Fill(segs[1..], gs[1..]));
        FormAt(c, i, g);
        assert AllMatchRegex(gs[1..]) by { assert forall k :: 0 <= k < |gs[1..]| ==> gs[1..][k] == gs[k + 1]; }
        var j := i + |g|;
        MatchComplete(segs[1..], c, j, gs[1..]);
    }
  }

  /**
   * The matched text is unambiguous when no four-digit group is followed in the content by `-`
   * and four digits, which the greedy group would otherwise take.
   */
  predicate Unambiguous(segs: seq<Segment>, gs: seq<string>, c: string, i: nat)
    decreases |segs|
  {
    if segs == [] then true
    else match segs[0]
      case Lit(s) => Unambiguous(segs[1..], gs, c, i + |s|)
      case YearGroup =>
        gs != [] && (|gs[0]| == 4 ==> !DashYearAt(c, i + 4)) && Unambiguous(segs[1..], gs[1..], c, i + |gs[0]|)
  }

  /** Under that condition the match recovers exactly the filled-in groups and ends where their text ends. */
  lemma {:induction false} MatchExact(segs: seq<Segment>, c: string, i: nat, gs: seq<string>)
    requires i <= |c| && |gs| == GroupCount(segs) && AllMatchRegex(gs) && TextAt(c, i, Fill(segs, gs))
    requires Unambiguous(segs, gs, c, i)
    ensures MatchFrom(segs, c, i) == Some(Match(i + |Fill(segs, gs)|, gs))
    decreases |segs|
  {
    if segs != [] {
      match segs[0]
      case Lit(s) =>
        var j := i + |s|;
        TextAtSplit(c, i, s, Fill(segs[1..], gs));
        MatchExact(segs[1..], c, j, gs);
      case YearGroup =>
        GroupExact(segs, c, i, gs);
    }
  }

  lemma {:induction false} GroupExact(segs: seq<Segment>, c: string, i: nat, gs: seq<string>)
    requires segs != [] && segs[0].YearGroup?
    requires i <= |c| && |gs| == GroupCount(segs) && AllMatchRegex(gs) && TextAt(c, i, Fill(segs, gs))
    requires Unambiguous(segs, gs, c, i)
    ensures MatchFrom(segs, c, i) == Some(Match(i + |Fill(segs, gs)|, gs))
    decreases |segs|, 0
  {
    var g, gs' := gs[0], gs[1..];
    var rest := Fill(segs[1..], gs');
    TextAtSplit(c, i, g, rest);
    FormAt(c, i, g);
    ShortLongAt(c, i);
    assert AllMatchRegex(gs') by { assert forall k :: 0 <= k < |gs'| ==> gs'[k] == gs[k + 1]; }
    var j := i + |g|;
    MatchExact(segs[1..], c, j, gs');
    var r := Match(j + |rest|, gs');
    assert [c[i..j]] + gs' == gs;
    if |g| == 9 {
      MatchLong(segs, c, i, j, r);
    } else {
      MatchShort(segs, c, i, j, r);
    }
  }

  // ---------------------------------------------------------------- parsing a written header

  /** `ParsedValues`: the field values in order, and the header text they were read from. */
  datatype ParsedValues = ParsedValues(fields: seq<Years>, header: string)

  /** The years of one captured group, read as `(\d{4})(?:-(\d{4}))?` reads it; the end year defaults to the start year. */
  function GroupYears(g: string): Years
    requires MatchesRegex(g)
  {
    if IsLongAt(g, 0) then Years(DecimalValue(g[..4]), DecimalValue(g[5..9]))
    else
      var y := DecimalValue(g[..4]);
      Years(y, y)
  }

  /** Reading a group agrees with `Years.parse`, which is what the source's assertion on the group's match relies on. */
  lemma GroupYearsIsParse(g: string)
    requires MatchesRegex(g)
    ensures Parse(g) == Ok(GroupYears(g))
    ensures IsShortForm(g) ==> GroupYears(g).start == GroupYears(g).end
  {
    if IsShortForm(g) {
      assert g[0..4] == g == g[..4];
    } else {
      assert g[0..9] == g;
    }
  }

  function GroupsYears(gs: seq<string>): (ys: seq<Years>)
    requires AllMatchRegex(gs)
  {
    seq(|gs|, k requires 0 <= k < |gs| => GroupYears(gs[k]))
  }

  /** `HeaderParser.parse_fields`: match the pattern at the start of the content and read every group as years. */
  function ParseWith(p: HeaderParser, content: string): Option<ParsedValues>
    requires WellFormed(p)
  {
    var m := MatchFrom(p.pattern, content, 0);
    if m.None? then None
    else
      MatchSound(p.pattern, content, 0);
      Some(ParsedValues(GroupsYears(m.value.groups), content[..m.value.end]))
  }

  /**
   * What parsing promises: no result exactly when no filling of the pattern with years and
   * year ranges starts the content; otherwise the header is that prefix of the content and
   * there is one value per field, read by `Years.parse`, a one-year range when the group has no `-dddd` part.
   */
  lemma ParseWithProps(p: HeaderParser, content: string)
    requires WellFormed(p)
    ensures ParseWith(p, content).Some? <==>
      exists gs :: |gs| == GroupCount(p.pattern) && AllMatchRegex(gs) && TextAt(content, 0, Fill(p.pattern, gs))
    ensures ParseWith(p, content).Some? ==>
      var r := ParseWith(p, content).value; var gs := MatchFrom(p.pattern, content, 0).value.groups;
      |r.header| <= |content| && r.header == content[..|r.header|] &&
      |gs| == |p.fields| && AllMatchRegex(gs) && r.header == Fill(p.pattern, gs) && |r.fields| == |p.fields| &&
      (forall k :: 0 <= k < |r.fields| ==> Parse(gs[k]) == Ok(r.fields[k]) && (IsShortForm(gs[k]) ==> r.fields[k].start == r.fields[k].end))
  {
    if ParseWith(p, content).Some? {
      var m := MatchFrom(p.pattern, content, 0).value;
      MatchSound(p.pattern, content, 0);
      assert content[0..m.end] == content[..m.end];
      forall k | 0 <= k < |m.groups| ensures Parse(m.groups[k]) == Ok(GroupYears(m.groups[k])) {
        GroupYearsIsParse(m.groups[k]);
      }
    } else {
      forall gs | |gs| == GroupCount(p.pattern) && AllMatchRegex(gs) && TextAt(content, 0, Fill(p.pattern, gs))
        ensures false
      {
        MatchComplete(p.pattern, content, 0, gs);
      }
    }
  }

  /** `HeaderParser.parse_fields`, reading the groups one at a time. */
  method ParseFields(p: HeaderParser, content: string) returns (r: Option<ParsedValues>)
    requires WellFormed(p)
    ensures r == ParseWith(p, content)
  {
    var m := MatchFrom(p.pattern, content, 0);
    if m.None? {
      return None;
    }
    MatchSound(p.pattern, content, 0);
    var groups := m.value.groups;
    var values: seq<Years> := [];
    var group := 0;
    while group < |p.fields|
      invariant group <= |p.fields|
      invariant values == GroupsYears(groups[..group])
    {
      var unparsed := groups[group];
      values := values + [GroupYears(unparsed)];
      group := group + 1;
    }
    assert groups[..group] == groups;
    r := Some(ParsedValues(values, content[..m.value.end]));
  }

  // ---------------------------------------------------------------- writing a header

  datatype HeaderError = BadTemplate(error: TemplateError) | ValuesExhausted

  /** What `write_header` has written to its output, and the exception it raises, if any. */
  datatype Written = Written(text: string, error: Option<HeaderError>)

  /** Writing the tokens in order: a field takes `str` of the next value, an escape its character, other tokens their text. */
  function RenderTokens(toks: seq<Token>, values: seq<Years>): Written
    decreases |toks|
  {
    if toks == [] then Written([], None)
    else if toks[0].kind == YearField then
      if values == [] then Written([], Some(ValuesExhausted))
      else
        var w := RenderTokens(toks[1..], values[1..]);
        Written(values[0].ToString() + w.text, w.error)
    else
      var w := RenderTokens(toks[1..], values);
      Written(LiteralOf(toks[0]) + w.text, w.error)
  }

  /**
   * `write_header`: the tokens are written as the tokenizer yields them, so a template error
   * is raised after the text before the offending character, unless the values ran out first.
   */
  function Render(t: string, values: seq<Years>): Written
  {
    var sc := Scan(t);
    var w := RenderTokens(sc.tokens, values);
    if w.error.None? && sc.error.Some? then Written(w.text, Some(BadTemplate(sc.error.value))) else w
  }

  /** The text of each value. */
  function Strs(values: seq<Years>): seq<string>
  {
    seq(|values|, k requires 0 <= k < |values| => values[k].ToString())
  }

  lemma SegmentsTail(toks: seq<Token>)
    requires toks != []
    ensures Segments(toks) == [SegmentOf(toks[0])] + Segments(toks[1..])
  {
  }

  /**
   * Rendering fails only when there are fewer values than fields; otherwise it writes the
   * compiled pattern filled with the text of the first values, one per field.
   */
  lemma {:induction false} RenderTokensFill(toks: seq<Token>, values: seq<Years>)
    ensures var n := GroupCount(Segments(toks)); var w := RenderTokens(toks, values);
            (w.error.None? <==> n <= |values|) && (w.error.Some? ==> w.error == Some(ValuesExhausted)) &&
            (w.error.None? ==> w.text == Fill(Segments(toks), Strs(values[..n])))
    decreases |toks|
  {
    if toks != [] {
      SegmentsTail(toks);
      var segs := Segments(toks);
      assert segs[1..] == Segments(toks[1..]);
      if toks[0].kind == YearField {
        if values != [] {
          RenderTokensFill(toks[1..], values[1..]);
          var n := GroupCount(segs);
          if n <= |values| {
            assert Strs(values[..n])[1..] == Strs(values[1..][..n - 1]);
          }
        }
      } else {
        RenderTokensFill(toks[1..], values);
      }
    }
  }

  /** A template that compiles renders, with enough values, to its pattern filled with their text. */
  lemma RenderIsFill(t: string, values: seq<Years>)
    requires CompileTemplate(t).Ok?
    ensures var p := CompileTemplate(t).value; var n := |p.fields|;
            WellFormed(p) && (Render(t, values).error.None? <==> n <= |values|) &&
            (n <= |values| ==> Render(t, values).text == Fill(p.pattern, Strs(values[..n]))) &&
            (n > |values| ==> Render(t, values).error == Some(ValuesExhausted))
  {
    GroupCountFront(Scan(t).tokens);
    RenderTokensFill(Scan(t).tokens, values);
  }

  lemma RenderTokensStep(toks: seq<Token>, values: seq<Years>, k: nat, v: nat, k': nat, v': nat, out: string, out': string)
    requires k < |toks| && v <= |values| && k' == k + 1
    requires toks[k].kind != YearField || v < |values|
    requires v' == (if toks[k].kind == YearField then v + 1 else v)
    requires out' == out + (if toks[k].kind == YearField then values[v].ToString() else LiteralOf(toks[k]))
    ensures var w, w' := RenderTokens(toks[k..], values[v..]), RenderTokens(toks[k'..], values[v'..]);
            Written(out + w.text, w.error) == Written(out' + w'.text, w'.error)
  {
    assert toks[k..][1..] == toks[k'..];
    if toks[k].kind == YearField {
      assert values[v..][1..] == values[v'..];
    }
  }

  /** `write_header`: consume the values in order, writing one piece per token. */
  method WriteHeader(t: string, values: seq<Years>) returns (output: string, error: Option<HeaderError>)
    ensures Written(output, error) == Render(t, values)
  {
    var tokens, scanError := TokenizeTemplate(t);
    output := "";
    var k, v := 0, 0;
    while k < |tokens|
      invariant k <= |tokens| && v <= |values|
      invariant RenderTokens(tokens, values) ==
        Written(output + RenderTokens(tokens[k..], values[v..]).text, RenderTokens(tokens[k..], values[v..]).error)
    {
      ghost var k0, v0, output0 := k, v, output;
      var tok := tokens[k];
      if tok.kind == YearField {
        if v == |values| {
          error := Some(ValuesExhausted);
          assert values[v..] == [];
          return;
        }
        output := output + values[v].ToString();
        v := v + 1;
      } else if tok.kind == Escaped {
        output := output + DropFirst(tok.value);
      } else {
        output := output + tok.value;
      }
      k := k + 1;
      RenderTokensStep(tokens, values, k0, v0, k, v, output0, output);
    }
    assert tokens[k..] == [];
    assert "" + output == output;
    error := if scanError.Some? then Some(BadTemplate(scanError.value)) else None;
    assert output + [] == output;
  }

  // ---------------------------------------------------------------- round trip

  /** Four-digit years render as text the YEAR group matches, and reading that text gives them back. */
  lemma StrsRead(vs: seq<Years>)
    requires forall k :: 0 <= k < |vs| ==> FourDigit(vs[k].start) && FourDigit(vs[k].end)
    ensures AllMatchRegex(Strs(vs)) && GroupsYears(Strs(vs)) == vs
  {
    var gs := Strs(vs);
    assert AllMatchRegex(gs);
    forall k | 0 <= k < |vs| ensures GroupYears(gs[k]) == vs[k] {
      GroupYearsIsParse(gs[k]);
      ParseToString(vs[k]);
    }
  }

  /** Parsing content that starts with the pattern filled with four-digit years, unambiguously, reads those years back. */
  lemma ParseFill(p: HeaderParser, c: string, text: string, vs: seq<Years>)
    requires WellFormed(p) && |vs| == |p.fields|
    requires forall k :: 0 <= k < |vs| ==> FourDigit(vs[k].start) && FourDigit(vs[k].end)
    requires text == Fill(p.pattern, Strs(vs)) && |text| <= |c| && c[..|text|] == text
    requires Unambiguous(p.pattern, Strs(vs), c, 0)
    ensures ParseWith(p, c) == Some(ParsedValues(vs, text))
  {
    var gs := Strs(vs);
    StrsRead(vs);
    assert TextAt(c, 0, text) by { assert c[0..|text|] == text; }
    MatchExact(p.pattern, c, 0, gs);
  }

  /**
   * Writing a header and parsing it back, whatever follows it in the file, gives back the
   * values and the header text when the years have four digits and no one-year field is
   * followed in the file by `-` and four digits.
   */
  lemma RoundTrip(t: string, values: seq<Years>, rest: string)
    requires CompileTemplate(t).Ok?
    requires var n := |CompileTemplate(t).value.fields|;
             n <= |values| && forall k :: 0 <= k < n ==> FourDigit(values[k].start) && FourDigit(values[k].end)
    requires var p := CompileTemplate(t).value;
             Unambiguous(p.pattern, Strs(values[..|p.fields|]), Render(t, values).text + rest, 0)
    ensures var p := CompileTemplate(t).value; var text := Render(t, values).text;
            Render(t, values).error.None? && WellFormed(p) &&
            ParseWith(p, text + rest) == Some(ParsedValues(values[..|p.fields|], text))
  {
    var p := CompileTemplate(t).value;
    RenderIsFill(t, values);
    var text := Render(t, values).text;
    var c := text + rest;
    assert c[..|text|] == text;
    ParseFill(p, c, text, values[..|p.fields|]);
  }
}
