# conhead in Dafny

conhead keeps license headers at the top of source files current. A header is
written from a template. In the template, `{{YEAR}}` marks a year field and
`\{`, `\}`, `\\` escape the control characters. The configuration maps file
extensions to header definitions. For each file, conhead finds its definition
and reads the existing header with a regular expression derived from the
template. It then compares the years with the current year. An out-of-date
range is rewritten so that it ends at the current year and keeps its start.

This project models that core and proves properties of it:

- `Fields`: the year range `Years`, its textual form, its parser, and the
  `new`/`update` operations (`conhead/fields.py`, and the identical `Years` of
  `conhead/template.py`).
- `Template`: the template tokenizer, the compiler from a template to a header
  parser, header parsing and header writing (`conhead/template.py`).
  - The tokenizer is specified as three steps: the regular-expression matches,
    then merging adjacent content, then placing tokens at lines and columns.
    It is implemented as the source's one-pass loop.
  - The compiled regular expression is a list of literal pieces and year
    groups. It is matched by a backtracking function that tries the long form
    `dddd-dddd` first, as the regular-expression engine does.
  - The round trip "write a header, then parse it back" is proved under a
    stated condition (`Unambiguous`). `TemplateExamples.RoundTripNeedsCondition`
    shows a template for which the round trip fails without that condition.
- `Util`: `FrozenDict`, an insertion-ordered read-only mapping, as an
  association list with unique keys (`conhead/util.py`).
- `Config`: de-indenting a template, reading a header definition and a whole
  configuration from parsed TOML, with each error raised, and choosing the
  definition for a path (`conhead/config.py`).
- `Process`: checking a file and rewriting it (`conhead/process.py`).
  - Reading, writing, the clock and the logger are parameters or outputs.
  - `RewriteThenCheck` proves that rewriting an out-of-date file and checking
    it again finds it up to date.
- `Text`: decimal digits, `str` of an integer, `repr` of a string (for characters below U+0100), Python's
  whitespace, `split`/`join` on line feeds, and string order with `sorted`.
- `Wrappers`: `Option` and `Result`.
- `TemplateExamples`, `ConfigExamples`, `UtilExamples`: the concrete cases of
  the repository's test suite, restated as lemmas about the model.

Where the code and the test suite disagree, the model follows the code:

- The tests refer to `{{YEARS}}`, `FieldKind.YEARS`, `TokenKind.FIELD`,
  five-element tokens and `process.check_file`.
- The code has `{{YEAR}}`, `FieldKind.YEAR`, `TokenKind.YEAR`, four-element
  tokens and `process.check_path`.

## Model

| member | source | states |
|---|---|---|
| Text.NatToString | conhead/fields.py:46-50 | `str` of a natural number: its digits read back as the number, one digit exactly below 10, no leading zero |
| Text.NatToStringFourDigits | conhead/fields.py:46-50 | a year from 1000 to 9999 is written with exactly four digits |
| Text.JoinSplitLines | conhead/config.py:53-66 | joining the lines of `s.split("\n")` with `"\n"` gives `s` back |
| Text.SplitJoinLines | conhead/config.py:53-66 | splitting the join of lines that hold no line feed gives those lines back |
| Text.StrLessIrreflexive | conhead/config.py:142 | Python's string order is irreflexive |
| Text.StrLessTransitive | conhead/config.py:142 | Python's string order is transitive |
| Text.StrLessTotal | conhead/config.py:142 | any two different strings are ordered one way or the other |
| Text.Sort | conhead/config.py:142 | `sorted` of a list of strings is ordered and a permutation of the list |
| Fields.Years.ToString | conhead/fields.py:46-50 | for four-digit years the text matches the field's fragment, and it is the short form exactly when start equals end |
| Fields.Parse | conhead/fields.py:56-67 | a rejected text raises `cannot parse years` with that very text |
| Fields.ParseAccepts | conhead/fields.py:34-67 | parsing succeeds exactly on `dddd` or `dddd-dddd`, optionally followed by one final line feed (the `$` anchor) |
| Fields.ParseAcceptsRegex | conhead/fields.py:44-67 | every full match of the field's fragment parses; the short form gives a one-year range |
| Fields.ParseToString | conhead/fields.py:46-67 | parsing the text of a four-digit range gives the range back |
| Fields.Years.Update | conhead/fields.py:73-74 | `Years.update(now)`; specified by `Fields.UpdateIdempotent` |
| Fields.UpdateIdempotent | conhead/fields.py:73-74 | update keeps the start, ends at the current year, and updating twice equals updating once |
| Fields.New | conhead/fields.py:69-71 | `Years.new(now)`; specified by `Fields.NewIsUpToDate` |
| Fields.NewIsUpToDate | conhead/fields.py:69-71 | a new value is already up to date and is written as the bare year |
| Fields.LessIsStrictTotalOrder | conhead/fields.py:37-54 | the derived order is a strict total order and is the order of the iterated `(start, end)` pairs |
| Fields.ToStringExamples | tests/conhead/test_fields.py:12-19 | `2014` and `2014-2015` |
| Fields.ParseExamples | tests/conhead/test_fields.py:25-32 | `2014` and `2014-2015` parse to the expected ranges |
| Fields.ParseRejectExamples | tests/conhead/test_fields.py:34-40 | the six invalid texts are rejected, and `abcd` gives `cannot parse years: 'abcd'` |
| Template.Scan | conhead/template.py:127-178 | the tokens and error of `tokenize_template` as a value; specified by `Template.ScanText`, `ScanError`, `ScanShaped`, `ScanPositions` and `ScanPositionSteps` |
| Template.TokenizeTemplate | conhead/template.py:127-178 | the one-pass loop yields the tokens, and raises the error, that the specification `Scan` gives |
| Template.ResumeIsScan | conhead/template.py:146-178 | the loop's state machine, started at 1:1 with nothing pending, computes `Scan` |
| Template.ScanText | conhead/template.py:127-178 | without an error the token values concatenate to the template |
| Template.ScanError | conhead/template.py:150-165 | with an error, the tokens cover a prefix of the template; the next character is a brace or backslash that starts neither an escape nor `{{YEAR}}`, so only INVALID matches there; and the error names it at the line and column after that prefix |
| Template.ScanShaped | conhead/template.py:25-37 | every token has its kind's shape, no token is INVALID, and no two content tokens are adjacent |
| Template.ScanPositions | conhead/template.py:146-178 | each token sits at the line and column that follow the text of the tokens before it |
| Template.ScanPositionSteps | conhead/template.py:146-173 | the first token is at 1:1; after a NEWLINE the next token starts the next line; otherwise it is that token's length further along |
| Template.CompileTemplate | conhead/template.py:181-204 | `make_template_parser` as a value; specified by `Template.CompileTemplateShape` |
| Template.MakeTemplateParser | conhead/template.py:181-204 | the loop over the tokens builds the parser that `CompileTemplate` specifies, or raises the tokenizer's error |
| Template.CompileTemplateShape | conhead/template.py:193-204 | one group per YEAR token, every field kind is YEAR, and each other token becomes its literal text with the escape backslash dropped |
| Template.MatchSound | conhead/template.py:111 | a match captures one text per group, each a full match of the year fragment, and the matched text is the pattern filled with them |
| Template.MatchComplete | conhead/template.py:111 | whenever some filling of the pattern starts the text, the backtracking match succeeds |
| Template.MatchExact | conhead/template.py:111 | when no short year is followed by `-dddd`, the match finds exactly the filled-in groups |
| Template.GroupYearsIsParse | conhead/template.py:116-123 | reading a captured group gives what `Years.parse` gives, and the end defaults to the start |
| Template.ParseWith | conhead/template.py:102-124 | `HeaderParser.parse_fields` as a value; specified by `Template.ParseWithProps`, `ParseFill` and `RoundTrip` |
| Template.ParseWithProps | conhead/template.py:102-124 | no result exactly when no filling of the pattern starts the content; otherwise the header is a prefix of the content, filled with the captured groups, and each field is the parse of its group |
| Template.ParseFields | conhead/template.py:102-124 | the loop over the groups returns what `ParseWith` specifies |
| Template.Render | conhead/template.py:207-227 | `write_header` as a value; specified by `Template.RenderIsFill` and `StrsRead` |
| Template.RenderIsFill | conhead/template.py:207-227 | writing succeeds exactly when there are enough values; the text is then the pattern filled with the values' texts; otherwise the values run out |
| Template.WriteHeader | conhead/template.py:207-227 | the loop writes the text, and raises the error, that `Render` specifies |
| Template.StrsRead | conhead/template.py:116-123 | four-digit values are written as texts that match the fragment and read back as the same values |
| Template.ParseFill | conhead/template.py:102-124 | content that starts with an unambiguous filling of the pattern parses to those values, with that text as the header |
| Template.RoundTrip | conhead/template.py:102-227 | a header written from four-digit values, followed by any text, parses back to those values and that header |
| TemplateExamples.TokenizeEmpty | tests/conhead/test_template.py:47-50 | the empty template has no tokens |
| TemplateExamples.TokenizeLines | tests/conhead/test_template.py:52-59 | three NEWLINE tokens on lines 1, 2 and 3 |
| TemplateExamples.TokenizeContent | tests/conhead/test_template.py:61-71 | one content token, then the NEWLINE at column 16 |
| TemplateExamples.TokenizeEscapes | tests/conhead/test_template.py:122-129 | the three escapes at columns 1, 3 and 5 |
| TemplateExamples.TokenizeInvalid | tests/conhead/test_template.py:131-138 | the content before a bare brace is yielded, then the error names the brace at 1:13 |
| TemplateExamples.InvalidMessage | tests/conhead/test_template.py:131-138 | the message `Invalid character '{' found at 1:13` |
| TemplateExamples.CompileEmpty | tests/conhead/test_template.py:142-146 | the empty template gives no fields and the bare anchor |
| TemplateExamples.ScanBacktrack | conhead/template.py:146-178 | `{{YEAR}}-2015 x` is a field, then content |
| TemplateExamples.CompileBacktrack | conhead/template.py:193-204 | that template compiles to one group and the literal `-2015 x` |
| TemplateExamples.MatchBacktrack | conhead/template.py:111-123 | on `2014-2015 x` the long form first fails the rest of the pattern; the match backtracks to `2014` |
| TemplateExamples.ParseBacktrack | conhead/template.py:102-124 | so the header parses with the one-year range 2014 |
| TemplateExamples.ScanTwoFields | conhead/template.py:146-178 | `{{YEAR}}-{{YEAR}}` is a field, `-`, a field |
| TemplateExamples.CompileTwoFields | conhead/template.py:193-204 | which compiles to two groups around the literal `-` |
| TemplateExamples.RenderTokensTwo | conhead/template.py:219-227 | the values 2014 and 2015-2016 are written as `2014-2015-2016` |
| TemplateExamples.MatchTwoFields | conhead/template.py:111 | that text matches with the groups `2014-2015` and `2016` |
| TemplateExamples.ReadTwoGroups | conhead/template.py:116-123 | which read as the ranges 2014-2015 and 2016 |
| TemplateExamples.RoundTripNeedsCondition | conhead/template.py:207-227 | writing 2014 and 2015-2016 and parsing the text back gives 2014-2015 and 2016: the round trip fails where the condition fails |
| TemplateExamples.TwoFieldsAmbiguous | conhead/template.py:198 | that written text breaks the condition |
| Util.Find | conhead/util.py:30-31 | a key is found exactly when it is in the dictionary, with a value stored under it |
| Util.Remove | conhead/config.py:124-131 | `pop` leaves the keys unique and the key absent |
| Util.PutFind | conhead/config.py:207 | storing a value changes the lookup of that key alone |
| Util.PutKeys | conhead/config.py:207 | storing keeps the order of the keys and appends a new key last |
| Util.UpdatedFind | conhead/util.py:23-25 | after `update(m)` the values of `m` win and every other key keeps its value |
| Util.UpdatedKeys | conhead/util.py:23-25 | after `update(m)` the keys are the old keys, then the new keys of `m` in order, and they stay unique |
| Util.UpdatedEmpty | conhead/util.py:22-23 | updating an empty dictionary from `m` gives `m` |
| Util.Construct | conhead/util.py:21-25 | `FrozenDict(dct, **kwargs)` as a value; specified by `Util.ConstructProps` and `ConstructFromMapping` |
| Util.New | conhead/util.py:21-25 | the constructor's steps give the value `Construct` specifies |
| Util.ConstructProps | conhead/util.py:21-37 | keys unique; keyword keys first, then the new keys of the mapping; the mapping's values win; `in` agrees with lookup |
| Util.LookupAgrees | conhead/util.py:27-37 | `len` is the number of distinct keys and of iterated keys; `in`, lookup and iteration agree |
| Util.FrozenDict.Or | conhead/util.py:42-46 | `__or__`; specified by `Util.OrProps` |
| Util.OrProps | conhead/util.py:42-46 | `d.__or__(m)` is `NotImplemented` exactly for a non-mapping and raises `TypeError` exactly for a mapping that is not a `dict` or a `FrozenDict`; otherwise the keys of `d` come first, then the new keys of `m`, and the values of `m` win |
| Util.FrozenDict.ROr | conhead/util.py:48-52 | `__ror__`; specified by `Util.ROrProps` |
| Util.ROrProps | conhead/util.py:48-52 | `d.__ror__(m)` is `NotImplemented` exactly for a non-mapping and raises `TypeError` exactly for a mapping that is not a `dict` or a `FrozenDict`; otherwise the keys of `m` come first, and the values of `d` win |
| Util.FrozenDict.Copy | conhead/util.py:54-59 | `copy`; specified by `Util.CopyEqual` |
| Util.CopyEqual | conhead/util.py:54-59 | a copy equals the original |
| Util.ConstructFromMapping | conhead/util.py:21-25 | constructing from a mapping alone gives exactly that mapping |
| UtilExamples.KwargsConstruct | tests/conhead/test_util.py:22-53 | `FrozenDict(a=1, b=2, c=…)` has length 3 and iterates `a`, `b`, `c` |
| UtilExamples.EmptyConstruct | tests/conhead/test_util.py:18-20 | `FrozenDict()` is empty |
| UtilExamples.SharedLookups | tests/conhead/test_util.py:42-67 | the tested lookups and memberships, present and missing |
| UtilExamples.OrCompatible | tests/conhead/test_util.py:73-77 | `d.__or__(dict(c=5, d=6, e=7))` |
| UtilExamples.ROrCompatible | tests/conhead/test_util.py:84-88 | `d.__ror__(dict(c=5, d=6, e=7))`, the frozen values winning |
| UtilExamples.OrIncompatible | tests/conhead/test_util.py:79-93 | a string operand gives `NotImplemented` on either side |
| UtilExamples.OrOtherMapping | conhead/util.py:42-52 | a mapping other than a `dict` or a `FrozenDict` makes the inner union raise `TypeError`, on either side |
| Config.Lead | conhead/config.py:57-60 | the match of `^(\s*)`: the longest all-whitespace prefix of the line |
| Config.DeindentText | conhead/config.py:29-66 | `deindent_string` as a value; specified by `Config.DeindentLines`, `DeindentAllBlank`, `DeindentFlush` and `MinLeadProps` |
| Config.Deindent | conhead/config.py:29-66 | the two loops compute `DeindentText` |
| Config.MinLeadProps | conhead/config.py:54-63 | no shortest lead exactly when every line is blank; otherwise the lead is at most every non-blank line's lead and is one of them |
| Config.DeindentLines | conhead/config.py:29-66 | the result's lines are the input's lines with the shortest lead of a non-blank line removed, and there are as many of them |
| Config.DeindentAllBlank | conhead/config.py:54-66 | text whose lines are all blank is returned unchanged |
| Config.DeindentFlush | conhead/config.py:29-66 | when some line is not blank, some line of the result starts with a non-space |
| Config.DeindentEmpty | tests/conhead/test_config.py:17-18 | the empty string stays empty |
| Config.ReadHeaderDef | conhead/config.py:102-146 | `HeaderDef.from_dict` as a value; specified by `Config.ReadHeaderDefErrors`, `LeftoverKeys` and `ReadHeaderDefResult` |
| Config.HeaderDefFromDict | conhead/config.py:102-146 | the pops and checks return what `ReadHeaderDef` specifies |
| Config.RemoveFind | conhead/config.py:124-131 | after `pop(k)` only `k` is missing |
| Config.ReadHeaderDefErrors | conhead/config.py:123-138 | `template is required` exactly when it is missing; `template must be str` exactly when it is present but not a string; `extensions must be list of strings` exactly when the template is a string and the extensions are present but not a list of strings |
| Config.LeftoverKeys | conhead/config.py:124-143 | the options left are the keys other than `template` and `extensions` |
| Config.ReadHeaderDefResult | conhead/config.py:131-146 | error exactly when other options are left, naming them sorted; otherwise the name, the de-indented template, and the extensions default to `[name]` |
| Config.ReadHeaders | conhead/config.py:204-207 | the loop over the sections returns what `ReadSections` specifies |
| Config.ReadConfig | conhead/config.py:188-218 | `Config.from_dict` as a value; specified by `Config.ReadConfigErrors`, `ReadConfigConsistent` and `LeftoverErrorProps` |
| Config.ConfigFromDict | conhead/config.py:188-218 | the method returns what `ReadConfig` specifies |
| Config.ReadSectionsStops | conhead/config.py:204-207 | the first failing section decides the error |
| Config.ReadSectionsNames | conhead/config.py:204-207 | each section is a table; definitions keep the section order and are stored under their own names, each the definition its table reads as |
| Config.ReadConfigConsistent | conhead/config.py:200-218 | a configuration that is read stores each definition under its name, in section order |
| Config.ReadConfigErrors | conhead/config.py:200-218 | `header must be section` exactly when `header` is not a table; a section error is raised as is; otherwise error exactly when options or sections are left over |
| Config.ReadSectionsErrorKind | conhead/config.py:204-207 | reading sections never raises `header must be section` |
| Config.LeftoverErrorProps | conhead/config.py:208-217 | names are sorted permutations; unexpected options come before unexpected sections; a lone empty key is accepted, because its join is empty |
| Config.KeysWhereProps | conhead/config.py:208-215 | a key is listed exactly when an entry holds it with a non-table (or a table) |
| Config.JoinEmpty | conhead/config.py:208-217 | `", ".join(xs)` is empty exactly when `xs` is empty or `[""]` |
| Config.ReadConfigEmpty | conhead/config.py:200-218 | an empty dictionary gives an empty configuration |
| Config.ReadConfigUnexpectedOption | conhead/config.py:208-212 | `Config.from_dict({"other-options": 10})` raises `unexpected options: other-options` |
| Config.ReadConfigEmptyKey | conhead/config.py:208-217 | the option `"" = 1` is silently accepted |
| Config.FirstMatchAt | conhead/config.py:166-184 | the first definition, in order, whose group matches at the offset |
| Config.SearchFrom | conhead/config.py:181 | a found match names a definition that exists |
| Config.SearchFromNone | conhead/config.py:181-186 | no match exactly when no definition matches at any later offset |
| Config.SearchFromSome | conhead/config.py:181-184 | a match is at the leftmost offset where any definition matches, and it names the first such definition |
| Config.LookupByName | conhead/config.py:183-184 | in a consistent configuration, looking up a definition's name gives that definition |
| Config.HeaderForPath | conhead/config.py:166-186 | `Config.header_for_path`; specified by `Config.HeaderForPathProps` and `MatchesSomewhere` |
| Config.HeaderForPathProps | conhead/config.py:176-186 | no definition exactly when none matches anywhere; otherwise the leftmost match, then the first definition in order |
| Config.ExtensionAtEnds | conhead/config.py:84-93 | a match of `\.(?:e)$` means the path ends with `.e`, or with `.e` and a line feed |
| Config.EndsExtensionAt | conhead/config.py:84-93 | and every path that ends so has such a match |
| Config.MatchesSomewhere | conhead/config.py:84-93 | a definition matches somewhere exactly when the path ends with one of its extensions |
| ConfigExamples.NoMatchAnywhere | conhead/config.py:84-93 | a path that ends with none of a definition's extensions is matched nowhere by it |
| ConfigExamples.UnexpectedOptionsSorted | tests/conhead/test_config.py:313-330 | `unexpected1`, `unexpected3`, `unexpected2` as options of `[tool.conhead]` raise `unexpected options: unexpected1, unexpected2, unexpected3` |
| ConfigExamples.UnexpectedSectionsSorted | tests/conhead/test_config.py:332-348 | the same names as sub-tables raise `unexpected sections: unexpected1, unexpected2, unexpected3` |
| ConfigExamples.FoundHeader | tests/conhead/test_config.py:262-276 | `path1/path2/file.ext3` takes `header2` |
| ConfigExamples.UnknownExtension | tests/conhead/test_config.py:249-253 | `file.unknown` has no definition |
| ConfigExamples.EmptyConfig | tests/conhead/test_config.py:255-260 | no definitions, no match |
| ConfigExamples.LeftmostWins | conhead/config.py:166-186 | `a.tar.gz` takes `tar.gz` over an earlier `gz`: the leftmost match wins |
| ConfigExamples.FirstDefinitionWins | conhead/config.py:166-186 | two definitions at the same offset: the first wins |
| ConfigExamples.EmptyExtensions | conhead/config.py:92-93 | an empty extension list claims paths ending in a dot |
| Process.UpdateAll | conhead/process.py:101-103 | each range keeps its start and ends at the current year |
| Process.UpdateAllSame | conhead/process.py:101-104 | updating changes nothing exactly when every range already ends at the current year |
| Process.CheckPath | conhead/process.py:45-113 | `check_path`; specified by `Process.CheckReadFailure`, `CheckReadable` and `CheckHeader` |
| Process.CheckReadFailure | conhead/process.py:69-85 | a read that fails with one of the caught `OSError`s reports nothing but `up_to_date = False` |
| Process.CheckReadable | conhead/process.py:87-99 | content is always reported; no definition reports nothing else; a template error propagates; the parsed values are the parser's; no header reports the definition only |
| Process.CheckHeader | conhead/process.py:101-113 | up to date exactly when every parsed range ends at the current year; then no updated values; otherwise updated values that keep each start and end now |
| Process.RewriteFile | conhead/process.py:116-157 | an unwritable file gives `False` and is left alone; otherwise the written header, then the content after the old header; a template error or values running out propagates after a partial header |
| Process.RewriteKeepsRest | conhead/process.py:140-149 | the rewritten file ends with exactly the text after the old header, and the old header with that text is the old content |
| Process.OutOfDateFacts | conhead/process.py:94-109 | an out-of-date check carries the definition, its parser's result, and the updated values |
| Process.UpToDateCheck | conhead/process.py:111-113 | a header whose ranges all end now checks as up to date |
| Process.RewriteThenCheck | conhead/process.py:45-157 | rewriting an out-of-date file and checking it again finds it up to date, with the written values and header |

## Left out

- File I/O becomes data. `check_path` takes what `read_text` returned, as a value or one of the `OSError`s it catches. `rewrite_file` takes whether the file could be opened for writing and gives what it then holds.
- A write that fails with an `OSError` after the file was opened is not modelled, nor the partial file it leaves.
- Logging: the last message of `check_path` is reported as an `Event`. Message texts, levels and the `process`/`rewriting` info lines are not modelled.
- `now` becomes its year, an integer.
- Paths are strings. `pathlib.Path` normalisation is not modelled.
- Python's regular-expression engine is not modelled. Each pattern the core builds is modelled by a function that decides what it matches:
  - `Years.regex` and `_GROUP_YEAR_RE`;
  - the compiled header pattern;
  - `\.(?:…)$`;
  - the combined alternation searched in `header_for_path`.
- `re.escape` is not modelled as text. A literal piece is matched verbatim, which is what the escaped pattern matches.
- `\d` means the ASCII digits only. Other Unicode decimal digits, which `\d` and `int` also accept, are not modelled.
- `str.strip` and `\s` use Python's `isspace` set as listed in `Text.IsSpace`.
- Config.HeaderForPath: where the source raises `re.error`, the model returns the matched definition. The source builds one named group per definition (`(?P<name>…)`), and `re.compile` raises `re.error` when a section name is not a Python identifier. An example is `[tool.conhead.header.c-sharp]`, which `Config.from_dict` accepts. The model has no such restriction and does not model this error.
- Config.HeaderForPath also requires a consistent configuration: each key is its definition's name. `Config.from_dict` always builds one (`Config.ReadConfigConsistent`). A configuration built by hand whose group name is not a key is not modelled.
- `Template.ParseWith` requires a well-formed parser: as many field kinds as groups. `make_template_parser` always builds one (`Template.CompileTemplateShape`). A hand-built `HeaderParser` with an arbitrary regular expression, as in the repository's `HeaderParser` tests, is not modelled.
- Template.RoundTrip: holds only when no one-year value is written just before `-dddd` (`Unambiguous`), and only for four-digit years. `TemplateExamples.RoundTripNeedsCondition` shows why the first condition is needed. Years with fewer or more digits do not satisfy the fragment at all.
- Process.CheckPath: a file that is not valid text in the platform's encoding makes `read_text` raise `UnicodeDecodeError`. That is a `ValueError`, not an `OSError`, so none of the handlers catch it and it propagates out of `check_path`. `ReadResult` has no case for it, and `CheckReadFailure` covers only the three caught read errors.
- Process.RewriteThenCheck: requires the same two conditions as the round trip (four-digit years, an unambiguous rewritten header).
- `deindent_string` uses `1e9` as "no non-blank line yet". It is modelled as the absence of a value. This differs from the source only for a line with at least 10^9 leading whitespace characters.
- `dct.pop` mutates the caller's dictionary. The model reads from the dictionary and computes the rest without changing the input, so the caller's copy after the call is not modelled.
- `Util.FrozenDict`:
  - it is modelled as a value, so object identity is not modelled (`cp is not dct`, shared values `cp["c"] is dct["c"]`);
  - a missing key gives `None` instead of raising `KeyError`;
  - `__hash__`, `__repr__` and the values being of mixed Python types are not modelled.
- Util.FrozenDict.Or: a mapping operand is either a `dict`/`FrozenDict`, which `dict`'s `|` accepts, or a mapping that defines no union with a `dict`, for which `|` raises `TypeError`. A mapping type whose own `__or__`/`__ror__` accepts a `dict`, such as `types.MappingProxyType`, is modelled as a `dict`. A custom `__or__`/`__ror__` that does something else is not modelled. The same holds for `Util.FrozenDict.ROr`.
- Text.Repr: the only escapes modelled are the ones Python uses below U+0100 (`\\`, the quote, `\n`, `\r`, `\t`, `\xhh`). A non-printable character from U+0100 up, such as U+2028 or U+FEFF, is written as it is, while Python writes `\uXXXX` or `\UXXXXXXXX`. Python's table of printable characters is not modelled. This also affects the message of `Fields.Parse` for such text.
- `tuple(values)` and `dict(...)` conversions are identities on the modelled sequences.
- A value in the TOML dictionary is a string, an integer, an array, a table or another scalar. Python's `isinstance` checks are read on that shape.
- The repository's other examples are not restated as lemmas:
  - the nested-brace example of `deindent_string`;
  - the `write_header` example with two lines;
  - the tokenizer examples with trailing content and with a field;
  - the header-parser examples with the hand-built pattern `(.*)`.
  These are either too costly to unfold concretely or refer to the test revision's token shape.
- `find_pyproject`, `parse_pyproject`, `load`/`load_from_pyproject` (TOML reading and the file system), `conhead/main.py` and `conhead/delme.py` are not part of this model.
