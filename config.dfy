/**
 * Configuration (conhead/config.py): de-indenting multi-line templates, reading
 * header definitions and the whole configuration out of the nested tables a TOML
 * parser produces, and choosing the header definition for a path by its
 * extension.
 */
module Config {
  import opened Wrappers
  import opened Text
  import opened Util
  import opened Fields

  // ---------------------------------------------------------------- deindent_string

  /** `not line.strip()`: the line holds whitespace only. */
  predicate Blank(line: string) { forall k :: 0 <= k < |line| ==> IsSpace(line[k]) }

  /** The length of the match of `^(\s*)` on `line`: its leading whitespace. */
  function Lead(line: string): (n: nat)
    ensures n <= |line| && (n < |line| ==> !IsSpace(line[n]))
    ensures forall k :: 0 <= k < n ==> IsSpace(line[k])
  {
    if line == [] || !IsSpace(line[0]) then 0
    else
      var n := 1 + Lead(line[1..]);
      assert forall k :: 1 <= k < n ==> line[k] == line[1..][k - 1];
      n
  }

  function Min(a: nat, b: nat): nat { if a <= b then a else b }

  /** The shortest leading whitespace over the non-blank lines; `None` when every line is blank. */
  function MinLead(lines: seq<string>): Option<nat>
  {
    if lines == [] then None
    else
      var m := MinLead(lines[..|lines| - 1]);
      var line := lines[|lines| - 1];
      if Blank(line) then m
      else if m.None? then Some(Lead(line))
      else Some(Min(m.value, Lead(line)))
  }

  /** `line[k:]`, which is empty when `k` runs past the end. */
  function DropPrefix(line: string, k: nat): string
  {
    if k <= |line| then line[k..] else ""
  }

  function DropAll(lines: seq<string>, k: nat): seq<string>
  {
    seq(|lines|, i requires 0 <= i < |lines| => DropPrefix(lines[i], k))
  }

  /** The number of characters every line loses: the shortest indent, `0` when all lines are blank. */
  function Shift(lines: seq<string>): nat { MinLead(lines).GetOr(0) }

  /** What `deindent_string(s)` returns. */
  function DeindentText(s: string): string
  {
    var lines := SplitLines(s);
    JoinWith(DropAll(lines, Shift(lines)), "\n")
  }

  /** `deindent_string`: one pass for the shortest indent, a second that cuts it off every line in place. */
  method Deindent(s: string) returns (r: string)
    ensures r == DeindentText(s)
  {
    var lines := SplitLines(s);
    var shortest: Option<nat> := None;
    var i := 0;
    while i < |lines|
      invariant 0 <= i <= |lines|
      invariant shortest == MinLead(lines[..i])
    {
      var line := lines[i];
      if !Blank(line) {
        var indent := Lead(line);
        shortest := if shortest.None? then Some(indent) else Some(Min(shortest.value, indent));
      }
      assert lines[..i + 1][..i] == lines[..i];
      i := i + 1;
    }
    assert lines[..i] == lines;
    var k := if shortest.None? then 0 else shortest.value;
    ghost var original := lines;
    var index := 0;
    while index < |lines|
      invariant 0 <= index <= |lines| == |original|
      invariant forall j :: 0 <= j < index ==> lines[j] == DropPrefix(original[j], k)
      invariant forall j :: index <= j < |lines| ==> lines[j] == original[j]
    {
      lines := lines[index := DropPrefix(lines[index], k)];
      index := index + 1;
    }
    assert lines == DropAll(original, k);
    r := JoinWith(lines, "\n");
  }

  /** `MinLead` is the least leading whitespace of a non-blank line, and it is attained. */
  lemma {:induction false} MinLeadProps(lines: seq<string>)
    ensures MinLead(lines).None? <==> forall i :: 0 <= i < |lines| ==> Blank(lines[i])
    ensures MinLead(lines).Some? ==>
      (forall i :: 0 <= i < |lines| && !Blank(lines[i]) ==> MinLead(lines).value <= Lead(lines[i])) &&
      (exists i :: 0 <= i < |lines| && !Blank(lines[i]) && Lead(lines[i]) == MinLead(lines).value)
  {
    if lines != [] {
      var init := lines[..|lines| - 1];
      MinLeadProps(init);
      assert forall i :: 0 <= i < |init| ==> lines[i] == init[i];
      var m := MinLead(init);
      var last := |lines| - 1;
      if !Blank(lines[last]) && m.Some? {
        var i :| 0 <= i < |init| && !Blank(init[i]) && Lead(init[i]) == m.value;
        assert Lead(lines[i]) == m.value;
      }
    }
  }

  lemma DropPrefixNoNewline(line: string, k: nat)
    requires '\n' !in line
    ensures '\n' !in DropPrefix(line, k)
  {
    if k <= |line| {
      forall j | 0 <= j < |line| - k ensures line[k..][j] != '\n' { assert line[k..][j] == line[k + j]; }
    }
  }

  /**
   * De-indenting keeps the number of lines, and every line loses exactly its first `k`
   * characters (an empty line when shorter), `k` being the shortest leading whitespace
   * over the non-blank lines, or `0` when there are none.
   */
  lemma DeindentLines(s: string)
    ensures var lines := SplitLines(s); var k := Shift(lines);
            SplitLines(DeindentText(s)) == DropAll(lines, k) &&
            |SplitLines(DeindentText(s))| == |lines| &&
            (forall i :: 0 <= i < |lines| && !Blank(lines[i]) ==> k <= Lead(lines[i])) &&
            ((exists i :: 0 <= i < |lines| && !Blank(lines[i])) ==>
               exists i :: 0 <= i < |lines| && !Blank(lines[i]) && Lead(lines[i]) == k)
  {
    var lines := SplitLines(s);
    var k := Shift(lines);
    MinLeadProps(lines);
    var r := DropAll(lines, k);
    forall i | 0 <= i < |r| ensures '\n' !in r[i] { DropPrefixNoNewline(lines[i], k); }
    SplitJoinLines(r);
  }

  /** A text whose lines are all blank comes back unchanged. */
  lemma DeindentAllBlank(s: string)
    requires forall i :: 0 <= i < |SplitLines(s)| ==> Blank(SplitLines(s)[i])
    ensures DeindentText(s) == s
  {
    var lines := SplitLines(s);
    MinLeadProps(lines);
    assert DropAll(lines, 0) == lines;
    JoinSplitLines(s);
  }

  /**
   * Once de-indented, a text with a non-blank line has one that starts with a
   * non-whitespace character: no common indentation is left.
   */
  lemma DeindentFlush(s: string)
    requires exists i :: 0 <= i < |SplitLines(s)| && !Blank(SplitLines(s)[i])
    ensures var out := SplitLines(DeindentText(s));
            exists i :: 0 <= i < |out| && |out[i]| > 0 && !IsSpace(out[i][0])
  {
    var lines := SplitLines(s);
    var k := Shift(lines);
    DeindentLines(s);
    var out := SplitLines(DeindentText(s));
    var i :| 0 <= i < |lines| && !Blank(lines[i]) && Lead(lines[i]) == k;
    var line := lines[i];
    assert k < |line|;
    assert out[i] == line[k..];
    assert out[i][0] == line[k];
  }

  /** The tested example: the empty string de-indents to itself. */
  lemma DeindentEmpty()
    ensures DeindentText("") == ""
  {
    DeindentAllBlank("");
  }

  // ---------------------------------------------------------------- HeaderDef.from_dict

  /** A value as the TOML parser hands it over: a string, a number, an array, a table, or another scalar. */
  datatype Value = Str(text: string) | Integer(number: int) | Array(items: seq<Value>) | Table(entries: Entries<Value>) | OtherScalar

  /** The `ConfigError`s the readers raise; `Message` is the text each one carries. */
  datatype ConfigError =
    | TemplateRequired(name: string)
    | TemplateNotString(name: string)
    | ExtensionsNotStrings(name: string)
    | UnexpectedOptions(keys: seq<string>)
    | HeaderNotSection
    | DefinitionNotSection(name: string)
    | UnexpectedSections(keys: seq<string>)
  {
    function Message(): string
    {
      match this
      case TemplateRequired(name) => Prefix(name) + ": template is required"
      case TemplateNotString(name) => Prefix(name) + ": template must be str"
      case ExtensionsNotStrings(name) => Prefix(name) + ": extensions must be list of strings"
      case UnexpectedOptions(keys) => "unexpected options: " + JoinWith(keys, ", ")
      case HeaderNotSection => "tool.conhead.header must be section"
      case DefinitionNotSection(name) => Prefix(name) + " must be section"
      case UnexpectedSections(keys) => "unexpected sections: " + JoinWith(keys, ", ")
    }
  }

  /** A header definition: its name, its (de-indented) template and the file extensions it applies to. */
  datatype HeaderDef = HeaderDef(name: string, template: string, extensions: seq<string>)

  predicate AllStrings(items: seq<Value>) { forall i :: 0 <= i < |items| ==> items[i].Str? }

  function Texts(items: seq<Value>): seq<string>
    requires AllStrings(items)
  {
    seq(|items|, i requires 0 <= i < |items| && AllStrings(items) => items[i].text)
  }

  function Prefix(name: string): string { "tool.conhead.header." + name }

  /** The options other than `template` and `extensions`: what is left once both are popped. */
  function Leftover(dct: Entries<Value>): Entries<Value> { Remove(Remove(dct, "template"), "extensions") }

  /** `HeaderDef.from_dict(name, dct)`: a definition, or the `ConfigError` it raises. */
  function ReadHeaderDef(name: string, dct: Entries<Value>): Result<HeaderDef, ConfigError>
  {
    var template := Find(dct, "template");
    var rest := Remove(dct, "template");
    if template.None? then Err(TemplateRequired(name))
    else if !template.value.Str? then Err(TemplateNotString(name))
    else
      var extensions := Find(rest, "extensions").GetOr(Array([Str(name)]));
      var left := Remove(rest, "extensions");
      if !(extensions.Array? && AllStrings(extensions.items)) then
        Err(ExtensionsNotStrings(name))
      else if left != [] then Err(UnexpectedOptions(Sort(Keys(left))))
      else Ok(HeaderDef(name, DeindentText(template.value.text), Texts(extensions.items)))
  }

  /** `HeaderDef.from_dict`: pop `template`, pop `extensions` (default `[name]`), reject what is left. */
  method HeaderDefFromDict(name: string, dct: Entries<Value>) returns (r: Result<HeaderDef, ConfigError>)
    ensures r == ReadHeaderDef(name, dct)
  {
    var options := dct;
    var template := Find(options, "template");
    options := Remove(options, "template");
    if template.None? {
      return Err(TemplateRequired(name));
    }
    if !template.value.Str? {
      return Err(TemplateNotString(name));
    }
    var extensions := Find(options, "extensions").GetOr(Array([Str(name)]));
    options := Remove(options, "extensions");
    if !(extensions.Array? && AllStrings(extensions.items)) {
      return Err(ExtensionsNotStrings(name));
    }
    if options != [] {
      return Err(UnexpectedOptions(Sort(Keys(options))));
    }
    var text := Deindent(template.value.text);
    r := Ok(HeaderDef(name, text, Texts(extensions.items)));
  }

  /** Popping a key removes exactly that key and keeps every other lookup. */
  lemma RemoveFind<V>(e: Entries<V>, k: string, k': string)
    requires UniqueKeys(e)
    ensures Find(Remove(e, k), k') == if k' == k then None else Find(e, k')
    ensures k' in Keys(Remove(e, k)) <==> k' in Keys(e) && k' != k
  {
    var r := Remove(e, k);
    match Position(e, k)
    case None =>
    case Some(i) =>
      if k' != k {
        match Position(e, k')
        case None =>
          assert forall j :: 0 <= j < |r| ==> r[j].0 != k' by {
            forall j | 0 <= j < |r| ensures r[j].0 != k' { if j >= i { assert r[j] == e[j + 1]; } }
          }
        case Some(j) =>
          if j < i { PositionIs(r, k', j); } else { assert r[j - 1] == e[j]; PositionIs(r, k', j - 1); }
      }
  }

  /**
   * The checks of `HeaderDef.from_dict`, in order: a missing template, a template that
   * is not a string, extensions that are not a list of strings.
   */
  lemma ReadHeaderDefErrors(name: string, dct: Entries<Value>)
    requires UniqueKeys(dct)
    ensures var r := ReadHeaderDef(name, dct); var t := Find(dct, "template"); var ext := Find(dct, "extensions");
            (r == Err(TemplateRequired(name)) <==> t.None?) &&
            (r == Err(TemplateNotString(name)) <==> t.Some? && !t.value.Str?) &&
            (r == Err(ExtensionsNotStrings(name)) <==>
               t.Some? && t.value.Str? && ext.Some? && !(ext.value.Array? && AllStrings(ext.value.items)))
  {
    RemoveFind(dct, "template", "extensions");
  }

  /** What is left once `template` and `extensions` are popped: every other option. */
  lemma LeftoverKeys(dct: Entries<Value>, k: string)
    requires UniqueKeys(dct)
    ensures UniqueKeys(Leftover(dct))
    ensures k in Keys(Leftover(dct)) <==> k in Keys(dct) && k != "template" && k != "extensions"
  {
    RemoveFind(dct, "template", k);
    RemoveFind(Remove(dct, "template"), "extensions", k);
  }

  /**
   * Once the template and the extensions pass, leftover options are reported, all of
   * them and sorted, and a definition is read exactly when nothing is left over.  It
   * then has the given name, the de-indented template, and the listed extensions, or
   * `[name]` when none are listed.
   */
  lemma ReadHeaderDefResult(name: string, dct: Entries<Value>)
    requires UniqueKeys(dct)
    requires Find(dct, "template").Some? && Find(dct, "template").value.Str?
    requires var ext := Find(dct, "extensions"); ext.None? || (ext.value.Array? && AllStrings(ext.value.items))
    ensures var r := ReadHeaderDef(name, dct); var left := Leftover(dct);
            (r.Err? <==> left != []) &&
            (r.Err? ==> r.error == UnexpectedOptions(Sort(Keys(left))) &&
                        Sorted(r.error.keys) && multiset(r.error.keys) == multiset(Keys(left))) &&
            (r.Ok? ==> r.value.name == name &&
                       r.value.template == DeindentText(Find(dct, "template").value.text) &&
                       r.value.extensions == (if "extensions" in Keys(dct) then Texts(Find(dct, "extensions").value.items) else [name]))
  {
    var exts := if "extensions" in Keys(dct) then Texts(Find(dct, "extensions").value.items) else [name];
    ReadHeaderDefPasses(name, dct, exts);
    var keys := Sort(Keys(Leftover(dct)));
    assert Sorted(keys) && multiset(keys) == multiset(Keys(Leftover(dct)));
  }

  /** Past the template and extension checks, `from_dict` either reports the leftovers or builds the definition. */
  lemma ReadHeaderDefPasses(name: string, dct: Entries<Value>, exts: seq<string>)
    requires UniqueKeys(dct)
    requires Find(dct, "template").Some? && Find(dct, "template").value.Str?
    requires var ext := Find(dct, "extensions"); ext.None? || (ext.value.Array? && AllStrings(ext.value.items))
    requires exts == if "extensions" in Keys(dct) then Texts(Find(dct, "extensions").value.items) else [name]
    ensures ReadHeaderDef(name, dct) ==
      if Leftover(dct) != [] then Err(UnexpectedOptions(Sort(Keys(Leftover(dct)))))
      else Ok(HeaderDef(name, DeindentText(Find(dct, "template").value.text), exts))
  {
    RemoveFind(dct, "template", "extensions");
    if "extensions" !in Keys(dct) {
      assert Find(dct, "extensions") == None;
      assert Texts([Str(name)]) == [name];
    }
  }

  // ---------------------------------------------------------------- Config.from_dict

  /** The whole configuration: the header definitions by name, in the order they were read. */
  datatype Config = Config(headerDefs: FrozenDict<HeaderDef>)

  /** Every definition is stored under its own name, and the names are unique. */
  predicate Consistent(cfg: Config)
  {
    var e := cfg.headerDefs.entries;
    UniqueKeys(e) && forall i :: 0 <= i < |e| ==> e[i].1.name == e[i].0
  }

  /** The definitions read from the entries of `tool.conhead.header`, in order; the first error stops the loop. */
  function ReadSections(items: Entries<Value>): Result<Entries<HeaderDef>, ConfigError>
  {
    if items == [] then Ok([])
    else
      match ReadSections(items[..|items| - 1])
      case Err(e) => Err(e)
      case Ok(headers) =>
        var (name, v) := items[|items| - 1];
        if !v.Table? then Err(DefinitionNotSection(name))
        else
          match ReadHeaderDef(name, v.entries)
          case Err(e) => Err(e)
          case Ok(d) => Ok(Put(headers, name, d))
  }

  /** The keys of the entries whose value is (`wantTable`) or is not a table, in order. */
  function KeysWhere(e: Entries<Value>, wantTable: bool): seq<string>
  {
    if e == [] then [] else (if e[0].1.Table? == wantTable then [e[0].0] else []) + KeysWhere(e[1..], wantTable)
  }

  /** The check of the options left beside `header`: non-table ones first, then tables, each list sorted. */
  function LeftoverError(rest: Entries<Value>): Option<ConfigError>
  {
    var options := Sort(KeysWhere(rest, false));
    var sections := Sort(KeysWhere(rest, true));
    if JoinWith(options, ", ") != "" then Some(UnexpectedOptions(options))
    else if JoinWith(sections, ", ") != "" then Some(UnexpectedSections(sections))
    else None
  }

  /** `Config.from_dict(dct)`: a configuration, or the `ConfigError` it raises. */
  function ReadConfig(dct: Entries<Value>): Result<Config, ConfigError>
  {
    var headers := Find(dct, "header").GetOr(Table([]));
    var rest := Remove(dct, "header");
    if !headers.Table? then Err(HeaderNotSection)
    else
      match ReadSections(headers.entries)
      case Err(e) => Err(e)
      case Ok(defs) =>
        match LeftoverError(rest)
        case Some(e) => Err(e)
        case None => Ok(Config(Construct(Some(defs), [])))
  }

  /** The loop of `Config.from_dict` over the header sections, filling `headers`. */
  method ReadHeaders(items: Entries<Value>) returns (r: Result<Entries<HeaderDef>, ConfigError>)
    ensures r == ReadSections(items)
  {
    var headers: Entries<HeaderDef> := [];
    var i := 0;
    while i < |items|
      invariant 0 <= i <= |items|
      invariant ReadSections(items[..i]) == Ok(headers)
    {
      var (name, v) := items[i];
      assert items[..i + 1][..i] == items[..i];
      if !v.Table? {
        ReadSectionsStops(items, i + 1);
        return Err(DefinitionNotSection(name));
      }
      var d := HeaderDefFromDict(name, v.entries);
      if d.Err? {
        ReadSectionsStops(items, i + 1);
        return Err(d.error);
      }
      headers := Put(headers, name, d.value);
      i := i + 1;
    }
    assert items[..i] == items;
    r := Ok(headers);
  }

  /** `Config.from_dict`: pop `header`, read each section, then reject the options left over. */
  method ConfigFromDict(dct: Entries<Value>) returns (r: Result<Config, ConfigError>)
    ensures r == ReadConfig(dct)
  {
    var options := dct;
    var headersValue := Find(options, "header").GetOr(Table([]));
    options := Remove(options, "header");
    if !headersValue.Table? {
      return Err(HeaderNotSection);
    }
    var headers := ReadHeaders(headersValue.entries);
    if headers.Err? {
      return Err(headers.error);
    }
    var unexpectedOptions := Sort(KeysWhere(options, false));
    if JoinWith(unexpectedOptions, ", ") != "" {
      return Err(UnexpectedOptions(unexpectedOptions));
    }
    var unexpectedSections := Sort(KeysWhere(options, true));
    if JoinWith(unexpectedSections, ", ") != "" {
      return Err(UnexpectedSections(unexpectedSections));
    }
    var defs := Util.New(Some(headers.value), []);
    r := Ok(Config(defs));
  }

  /** Once reading a prefix of the sections fails, reading all of them fails the same way. */
  lemma {:induction false} ReadSectionsStops(items: Entries<Value>, n: nat)
    requires n <= |items| && ReadSections(items[..n]).Err?
    ensures ReadSections(items) == ReadSections(items[..n])
    decreases |items| - n
  {
    if n < |items| {
      assert items[..n + 1][..n] == items[..n];
      ReadSectionsStops(items, n + 1);
    } else {
      assert items[..n] == items;
    }
  }

  /** The sections read are stored under their own names, in the order of the table. */
  lemma {:induction false} ReadSectionsNames(items: Entries<Value>)
    requires UniqueKeys(items)
    requires ReadSections(items).Ok?
    ensures var defs := ReadSections(items).value;
            Keys(defs) == Keys(items) && UniqueKeys(defs) &&
            forall i :: 0 <= i < |defs| ==>
              items[i].1.Table? && defs[i].1.name == defs[i].0 && ReadHeaderDef(defs[i].0, items[i].1.entries) == Ok(defs[i].1)
  {
    if items != [] {
      var init := items[..|items| - 1];
      assert UniqueKeys(init);
      ReadSectionsNames(init);
      ReadSectionsLast(items);
      var (name, v) := items[|items| - 1];
      assert items == init + [(name, v)];
      SectionsAppend(init, ReadSections(init).value, name, v, ReadHeaderDef(name, v.entries).value);
    }
  }

  /** One more table that reads, under a new name, extends definitions read in order. */
  lemma SectionsAppend(init: Entries<Value>, headers: Entries<HeaderDef>, name: string, v: Value, d: HeaderDef)
    requires Keys(headers) == Keys(init) && UniqueKeys(headers)
    requires forall i :: 0 <= i < |headers| ==>
               init[i].1.Table? && headers[i].1.name == headers[i].0 && ReadHeaderDef(headers[i].0, init[i].1.entries) == Ok(headers[i].1)
    requires name !in Keys(init) && v.Table? && ReadHeaderDef(name, v.entries) == Ok(d) && d.name == name
    ensures Put(headers, name, d) == headers + [(name, d)]
    ensures var items, defs := init + [(name, v)], headers + [(name, d)];
            Keys(defs) == Keys(items) && UniqueKeys(defs) &&
            forall i :: 0 <= i < |defs| ==>
              items[i].1.Table? && defs[i].1.name == defs[i].0 && ReadHeaderDef(defs[i].0, items[i].1.entries) == Ok(defs[i].1)
  {
    AppendNewKey(headers, name, d);
    AppendNewKey(init, name, v);
    var items, defs := init + [(name, v)], headers + [(name, d)];
    forall i | 0 <= i < |defs|
      ensures items[i].1.Table? && defs[i].1.name == defs[i].0 && ReadHeaderDef(defs[i].0, items[i].1.entries) == Ok(defs[i].1)
    {
      if i < |headers| {
        assert items[i] == init[i] && defs[i] == headers[i];
      }
    }
  }

  /** The last entry of a set of definitions that reads is a table that reads, stored after the others. */
  lemma ReadSectionsLast(items: Entries<Value>)
    requires items != [] && ReadSections(items).Ok?
    ensures var init := items[..|items| - 1]; var (name, v) := items[|items| - 1];
            ReadSections(init).Ok? && v.Table? && ReadHeaderDef(name, v.entries).Ok? &&
            ReadHeaderDef(name, v.entries).value.name == name &&
            ReadSections(items).value == Put(ReadSections(init).value, name, ReadHeaderDef(name, v.entries).value)
  {
  }

  /**
   * A configuration that is read stores each definition of `tool.conhead.header` under its
   * own name, in table order, so that `header_for_path`'s lookup by group name finds it.
   */
  lemma ReadConfigConsistent(dct: Entries<Value>)
    requires UniqueKeys(dct) && (Find(dct, "header").Some? && Find(dct, "header").value.Table? ==> UniqueKeys(Find(dct, "header").value.entries))
    requires ReadConfig(dct).Ok?
    ensures Consistent(ReadConfig(dct).value)
    ensures var headers := Find(dct, "header").GetOr(Table([]));
            headers.Table? && ReadConfig(dct).value.headerDefs.Iter() == Keys(headers.entries)
  {
    var headers := Find(dct, "header").GetOr(Table([]));
    ReadSectionsNames(headers.entries);
    ConstructFromMapping(ReadSections(headers.entries).value);
  }

  /** `sep.join(parts)` with a non-empty separator is empty only for no parts or the single part `""`. */
  lemma JoinEmpty(parts: seq<string>, sep: string)
    requires sep != ""
    ensures JoinWith(parts, sep) == "" <==> parts == [] || parts == [""]
  {
    if |parts| > 1 {
      assert |JoinWith(parts, sep)| >= |sep|;
    }
  }

  /**
   * The checks of `Config.from_dict` in order: `header` must be a table, then its
   * sections are read, the first failing one deciding the error, then the options left
   * beside `header` are checked.
   */
  lemma ReadConfigErrors(dct: Entries<Value>)
    ensures var r := ReadConfig(dct); var headers := Find(dct, "header").GetOr(Table([]));
            (r == Err(HeaderNotSection) <==> !headers.Table?) &&
            (headers.Table? && ReadSections(headers.entries).Err? ==> r == Err(ReadSections(headers.entries).error)) &&
            (headers.Table? && ReadSections(headers.entries).Ok? ==>
               (r.Err? <==> LeftoverError(Remove(dct, "header")).Some?) &&
               (r.Err? ==> r.error == LeftoverError(Remove(dct, "header")).value))
  {
    var headers := Find(dct, "header").GetOr(Table([]));
    if headers.Table? {
      match ReadSections(headers.entries)
      case Err(e) =>
        assert e != HeaderNotSection by { ReadSectionsErrorKind(headers.entries); }
      case Ok(_) =>
        assert LeftoverError(Remove(dct, "header")) != Some(HeaderNotSection);
    }
  }

  lemma {:induction false} ReadSectionsErrorKind(items: Entries<Value>)
    ensures ReadSections(items).Err? ==> !ReadSections(items).error.HeaderNotSection?
  {
    if items != [] {
      ReadSectionsErrorKind(items[..|items| - 1]);
    }
  }

  /**
   * Leftover options that are not tables are reported before leftover tables, each list
   * sorted.  A list holding only the key `""` joins to the empty string, so such a
   * leftover passes the emptiness test.
   */
  lemma LeftoverErrorProps(rest: Entries<Value>)
    ensures var options := Sort(KeysWhere(rest, false)); var sections := Sort(KeysWhere(rest, true));
            var e := LeftoverError(rest);
            Sorted(options) && multiset(options) == multiset(KeysWhere(rest, false)) &&
            Sorted(sections) && multiset(sections) == multiset(KeysWhere(rest, true)) &&
            (e.Some? <==> (options != [] && options != [""]) || (sections != [] && sections != [""])) &&
            (options != [] && options != [""] ==> e == Some(UnexpectedOptions(options))) &&
            (e.Some? && (options == [] || options == [""]) ==> e == Some(UnexpectedSections(sections)))
  {
    JoinEmpty(Sort(KeysWhere(rest, false)), ", ");
    JoinEmpty(Sort(KeysWhere(rest, true)), ", ");
  }

  /** A key is reported by the leftover check exactly when it is left beside `header`, as a table or not. */
  lemma {:induction false} KeysWhereProps(e: Entries<Value>, k: string)
    ensures k in KeysWhere(e, false) <==> exists i :: 0 <= i < |e| && e[i].0 == k && !e[i].1.Table?
    ensures k in KeysWhere(e, true) <==> exists i :: 0 <= i < |e| && e[i].0 == k && e[i].1.Table?
  {
    if e != [] {
      KeysWhereProps(e[1..], k);
      forall i | 1 <= i < |e| ensures e[i] == e[1..][i - 1] { }
      if exists i :: 0 <= i < |e| && e[i].0 == k && !e[i].1.Table? {
        var i :| 0 <= i < |e| && e[i].0 == k && !e[i].1.Table?;
        if i > 0 { assert e[1..][i - 1] == e[i]; }
      }
      if exists i :: 0 <= i < |e| && e[i].0 == k && e[i].1.Table? {
        var i :| 0 <= i < |e| && e[i].0 == k && e[i].1.Table?;
        if i > 0 { assert e[1..][i - 1] == e[i]; }
      }
    }
  }

  /** With no `header` table and nothing else, the configuration holds no definitions. */
  lemma ReadConfigEmpty()
    ensures ReadConfig([]) == Ok(Config(FrozenDict([])))
  {
    assert ReadSections([]) == Ok([]);
    UpdatedEmpty<HeaderDef>([]);
  }

  /** `Config.from_dict` on its own: an option that is not a table is reported by name. */
  lemma ReadConfigUnexpectedOption(dct: Entries<Value>)
    requires dct == [("other-options", Integer(10))]
    ensures ReadConfig(dct) == Err(UnexpectedOptions(["other-options"]))
  {
    assert Remove(dct, "header") == dct;
    assert KeysWhere(dct, false) == ["other-options"];
  }

  /** A leftover option whose key is the empty string passes the emptiness test and is dropped. */
  lemma ReadConfigEmptyKey(dct: Entries<Value>)
    requires dct == [("", Integer(1))]
    ensures ReadConfig(dct) == Ok(Config(FrozenDict([])))
  {
    assert Remove(dct, "header") == dct;
    assert KeysWhere(dct, false) == [""];
    assert KeysWhere(dct, true) == [];
    assert Sort([""]) == [""];
    UpdatedEmpty<HeaderDef>([]);
  }

  // ---------------------------------------------------------------- extensions_re and header_for_path

  /**
   * The alternatives of `\.(?:e1|e2|...)$`.  With no extensions the group is empty,
   * `\.(?:)$`, which behaves like the single extension `""`.
   */
  function Alternatives(extensions: seq<string>): seq<string>
  {
    if extensions == [] then [""] else extensions
  }

  /** `\.` then the escaped extension `e` then `$` match at offset `p` of `path`. */
  predicate ExtensionAt(path: string, p: nat, e: string)
  {
    p + 1 + |e| <= |path| && path[p] == '.' && path[p + 1..p + 1 + |e|] == e && AtEnd(path, p + 1 + |e|)
  }

  /** The group of a definition, `\.(?:...)$`, matches at offset `p`. */
  predicate DefMatchesAt(d: HeaderDef, path: string, p: nat)
  {
    exists e | e in Alternatives(d.extensions) :: ExtensionAt(path, p, e)
  }

  /** The first group, in definition order, that matches at `p`: the alternation tries them in turn. */
  function FirstMatchAt(defs: seq<HeaderDef>, path: string, p: nat): (r: Option<nat>)
    ensures r.Some? ==> r.value < |defs| && DefMatchesAt(defs[r.value], path, p) &&
                        forall j :: 0 <= j < r.value ==> !DefMatchesAt(defs[j], path, p)
    ensures r.None? ==> forall j :: 0 <= j < |defs| ==> !DefMatchesAt(defs[j], path, p)
  {
    if defs == [] then None
    else if DefMatchesAt(defs[0], path, p) then Some(0)
    else match FirstMatchAt(defs[1..], path, p)
      case None => None
      case Some(j) => Some(j + 1)
  }

  /** `search`: the leftmost offset from `p` on where a group matches, with the group that matched there. */
  function SearchFrom(defs: seq<HeaderDef>, path: string, p: nat): (r: Option<(nat, nat)>)
    ensures r.Some? ==> r.value.1 < |defs|
    decreases |path| - p
  {
    if p >= |path| then None
    else match FirstMatchAt(defs, path, p)
      case Some(j) => Some((p, j))
      case None => SearchFrom(defs, path, p + 1)
  }

  function Definitions(cfg: Config): seq<HeaderDef>
  {
    var e := cfg.headerDefs.entries;
    seq(|e|, i requires 0 <= i < |e| => e[i].1)
  }

  /**
   * `header_for_path`: `None` without definitions or without a match; otherwise the
   * definition stored under the name of the group that matched.
   */
  function HeaderForPath(cfg: Config, path: string): Option<HeaderDef>
    requires Consistent(cfg)
  {
    var defs := Definitions(cfg);
    if defs == [] then None
    else match SearchFrom(defs, path, 0)
      case None => None
      case Some((_, j)) => cfg.headerDefs.Get(defs[j].name)
  }

  /** No group matches at offset `q`. */
  predicate NoneMatchAt(defs: seq<HeaderDef>, path: string, q: nat)
  {
    forall j :: 0 <= j < |defs| ==> !DefMatchesAt(defs[j], path, q)
  }

  /** The search fails exactly when no group matches at any offset from `p` on. */
  lemma {:induction false} SearchFromNone(defs: seq<HeaderDef>, path: string, p: nat)
    ensures SearchFrom(defs, path, p).None? <==> forall q: nat :: p <= q ==> NoneMatchAt(defs, path, q)
    decreases |path| - p
  {
    if p >= |path| {
      forall q: nat | p <= q ensures NoneMatchAt(defs, path, q) { }
    } else if FirstMatchAt(defs, path, p).None? {
      assert NoneMatchAt(defs, path, p);
      SearchFromNone(defs, path, p + 1);
    } else {
      assert !NoneMatchAt(defs, path, p);
    }
  }

  /** The search finds the leftmost offset with a match, and the first group matching there. */
  lemma {:induction false} SearchFromSome(defs: seq<HeaderDef>, path: string, p: nat)
    requires SearchFrom(defs, path, p).Some?
    ensures var (q, j) := SearchFrom(defs, path, p).value;
            p <= q && j < |defs| && DefMatchesAt(defs[j], path, q) &&
            (forall q': nat :: p <= q' < q ==> NoneMatchAt(defs, path, q')) &&
            (forall i :: 0 <= i < j ==> !DefMatchesAt(defs[i], path, q))
    decreases |path| - p
  {
    if FirstMatchAt(defs, path, p).None? {
      SearchFromSome(defs, path, p + 1);
    }
  }

  /** Under a consistent configuration the lookup by group name returns the definition that matched. */
  lemma LookupByName(cfg: Config, j: nat)
    requires Consistent(cfg) && j < |cfg.headerDefs.entries|
    ensures cfg.headerDefs.Get(Definitions(cfg)[j].name) == Some(Definitions(cfg)[j])
  {
    var e := cfg.headerDefs.entries;
    PositionIs(e, e[j].0, j);
  }

  /**
   * `header_for_path` returns `None` exactly when no extension of any definition matches;
   * otherwise it returns a definition that matches, at the leftmost offset where any
   * does, and the first in definition order among those matching there.
   */
  lemma HeaderForPathProps(cfg: Config, path: string)
    requires Consistent(cfg)
    ensures var defs := Definitions(cfg); var r := HeaderForPath(cfg, path);
            (r.None? <==> forall q: nat :: NoneMatchAt(defs, path, q)) &&
            (r.Some? ==> exists q: nat, j :: (0 <= j < |defs| && r.value == defs[j] && DefMatchesAt(defs[j], path, q) &&
               (forall q': nat :: q' < q ==> NoneMatchAt(defs, path, q')) &&
               (forall i :: 0 <= i < j ==> !DefMatchesAt(defs[i], path, q))))
  {
    var defs := Definitions(cfg);
    SearchFromNone(defs, path, 0);
    match SearchFrom(defs, path, 0)
    case None =>
    case Some((q, j)) =>
      SearchFromSome(defs, path, 0);
      LookupByName(cfg, j);
  }

  /** `path` ends with `.e`, or with `.e` and one line feed, the two places `$` accepts. */
  predicate EndsWithExtension(path: string, e: string)
  {
    var n := |path|; var m := |e| + 1;
    (m <= n && path[n - m..] == "." + e) || (m + 1 <= n && path[n - m - 1..] == "." + e + "\n")
  }

  /** Where an extension matches, the path ends with it. */
  lemma ExtensionAtEnds(path: string, q: nat, e: string)
    requires ExtensionAt(path, q, e)
    ensures EndsWithExtension(path, e)
  {
    var n, m := |path|, |e| + 1;
    if q + m == n {
      assert path[n - m..] == path[q..] == "." + e;
    } else {
      assert path[n - m - 1..] == path[q..] == "." + e + "\n";
    }
  }

  /** Where the path ends with an extension, it matches just before that ending. */
  lemma EndsExtensionAt(path: string, e: string) returns (q: nat)
    requires EndsWithExtension(path, e)
    ensures ExtensionAt(path, q, e)
  {
    var n, m := |path|, |e| + 1;
    if m <= n && path[n - m..] == "." + e {
      q := n - m;
      assert path[q..] == "." + e;
      assert path[q + 1..q + 1 + |e|] == path[q..][1..];
    } else {
      q := n - m - 1;
      assert path[q..] == "." + e + "\n";
      assert path[q + 1..q + 1 + |e|] == path[q..][1..m];
      assert path[q + m] == path[q..][m];
    }
  }

  /** A definition's group matches somewhere exactly when the path ends with one of its extensions. */
  lemma MatchesSomewhere(d: HeaderDef, path: string)
    ensures (exists q: nat :: DefMatchesAt(d, path, q)) <==>
            exists e :: e in Alternatives(d.extensions) && EndsWithExtension(path, e)
  {
    if exists q: nat :: DefMatchesAt(d, path, q) {
      var q: nat :| DefMatchesAt(d, path, q);
      var e :| e in Alternatives(d.extensions) && ExtensionAt(path, q, e);
      ExtensionAtEnds(path, q, e);
    }
    if exists e :: e in Alternatives(d.extensions) && EndsWithExtension(path, e) {
      var e :| e in Alternatives(d.extensions) && EndsWithExtension(path, e);
      var q := EndsExtensionAt(path, e);
      assert DefMatchesAt(d, path, q);
    }
  }
}
