/**
 * Checking and rewriting one file (conhead/process.py).  Reading the file, writing
 * it and the logger are outside the model: what a read returned is an input, what
 * is written is an output, and the last message logged is reported as an event.
 */
module Process {
  import opened Wrappers
  import opened Fields
  import opened Template
  import Config

  /** What reading the file gave: its text, or the error `read_text` raised. */
  datatype ReadResult = Contents(text: string) | FileNotFound | PermissionDenied | OtherOsError

  /** The outcome of `check_path`. */
  datatype CheckResult = CheckResult(
    upToDate: bool,
    content: Option<string>,
    headerDef: Option<Config.HeaderDef>,
    updatedValues: Option<seq<Years>>,
    parsedValues: Option<ParsedValues>)

  /** The last message `check_path` logs. */
  datatype Event = NotFound | Unreadable | ReadFailed | NoHeaderDef | MissingHeader | OutOfDate | UpToDate

  datatype Checked = Checked(result: CheckResult, event: Event)

  /** Every parsed range with its end moved to the current year. */
  function UpdateAll(fields: seq<Years>, nowYear: int): (r: seq<Years>)
    ensures |r| == |fields| && forall k :: 0 <= k < |fields| ==> r[k] == fields[k].Update(nowYear)
  {
    seq(|fields|, k requires 0 <= k < |fields| => Years(fields[k].start, nowYear))
  }

  /**
   * `check_path`: a failed read, then no definition for the path, then no header, then
   * an out-of-date header, else up to date.  A template that does not tokenize raises
   * the `TemplateError` of `make_template_parser`.
   */
  function CheckPath(cfg: Config.Config, nowYear: int, path: string, read: ReadResult): Result<Checked, TemplateError>
    requires Config.Consistent(cfg)
  {
    match read
    case FileNotFound => Ok(Checked(CheckResult(false, None, None, None, None), NotFound))
    case PermissionDenied => Ok(Checked(CheckResult(false, None, None, None, None), Unreadable))
    case OtherOsError => Ok(Checked(CheckResult(false, None, None, None, None), ReadFailed))
    case Contents(content) =>
      match Config.HeaderForPath(cfg, path)
      case None => Ok(Checked(CheckResult(false, Some(content), None, None, None), NoHeaderDef))
      case Some(def) =>
        match CompileTemplate(def.template)
        case Err(e) => Err(e)
        case Ok(parser) =>
          CompileTemplateShape(def.template);
          match ParseWith(parser, content)
          case None => Ok(Checked(CheckResult(false, Some(content), Some(def), None, None), MissingHeader))
          case Some(parsed) =>
            var updated := UpdateAll(parsed.fields, nowYear);
            if updated != parsed.fields then
              Ok(Checked(CheckResult(false, Some(content), Some(def), Some(updated), Some(parsed)), OutOfDate))
            else
              Ok(Checked(CheckResult(true, Some(content), Some(def), None, Some(parsed)), UpToDate))
  }

  /** A file that cannot be read is reported with nothing else set. */
  lemma CheckReadFailure(cfg: Config.Config, nowYear: int, path: string, read: ReadResult)
    requires Config.Consistent(cfg) && !read.Contents?
    ensures CheckPath(cfg, nowYear, path, read).Ok?
    ensures CheckPath(cfg, nowYear, path, read).value.result == CheckResult(false, None, None, None, None)
  {
  }

  /**
   * A readable file is reported with its content.  Without a definition for the path
   * nothing else is set; with one but no header match, the definition is set and no
   * values are.
   */
  lemma CheckReadable(cfg: Config.Config, nowYear: int, path: string, content: string)
    requires Config.Consistent(cfg)
    ensures var c := CheckPath(cfg, nowYear, path, Contents(content)); var def := Config.HeaderForPath(cfg, path);
            c.Ok? ==> c.value.result.content == Some(content) && c.value.result.headerDef == def
    ensures var c := CheckPath(cfg, nowYear, path, Contents(content)); var def := Config.HeaderForPath(cfg, path);
            def.None? ==> c == Ok(Checked(CheckResult(false, Some(content), None, None, None), NoHeaderDef))
    ensures var c := CheckPath(cfg, nowYear, path, Contents(content)); var def := Config.HeaderForPath(cfg, path);
            def.Some? ==>
              (c.Err? <==> CompileTemplate(def.value.template).Err?) &&
              (c.Ok? ==> var p := CompileTemplate(def.value.template).value;
                 WellFormed(p) && (c.value.result.parsedValues == ParseWith(p, content)) &&
                 (ParseWith(p, content).None? ==>
                    c.value.result == CheckResult(false, Some(content), def, None, None) && c.value.event == MissingHeader))
  {
    var def := Config.HeaderForPath(cfg, path);
    if def.Some? && CompileTemplate(def.value.template).Ok? {
      CompileTemplateShape(def.value.template);
    }
  }

  /**
   * Once a header matched: the updated values keep each parsed start and end at the
   * current year, and the file is up to date exactly when every parsed range already
   * ends at the current year, in which case no updated values are reported.
   */
  lemma CheckHeader(cfg: Config.Config, nowYear: int, path: string, content: string)
    requires Config.Consistent(cfg)
    requires var c := CheckPath(cfg, nowYear, path, Contents(content)); c.Ok? && c.value.result.parsedValues.Some?
    ensures var r := CheckPath(cfg, nowYear, path, Contents(content)).value.result; var fields := r.parsedValues.value.fields;
            (r.upToDate <==> forall k :: 0 <= k < |fields| ==> fields[k].end == nowYear) &&
            (r.upToDate ==> r.updatedValues.None?) &&
            (!r.upToDate ==> (r.updatedValues.Some? && |r.updatedValues.value| == |fields| &&
               forall k :: 0 <= k < |fields| ==>
                 r.updatedValues.value[k].start == fields[k].start && r.updatedValues.value[k].end == nowYear))
  {
    var r := CheckPath(cfg, nowYear, path, Contents(content)).value.result;
    UpdateAllSame(r.parsedValues.value.fields, nowYear);
  }

  /** Updating changes nothing exactly when every range already ends at the current year. */
  lemma UpdateAllSame(fields: seq<Years>, nowYear: int)
    ensures UpdateAll(fields, nowYear) == fields <==> forall k :: 0 <= k < |fields| ==> fields[k].end == nowYear
  {
    if forall k :: 0 <= k < |fields| ==> fields[k].end == nowYear {
      assert UpdateAll(fields, nowYear) == fields;
    }
  }

  /** `content[len(header):]`, or all of the content when nothing was parsed. */
  function Headerless(content: string, parsed: Option<ParsedValues>): string
  {
    if parsed.None? then content
    else if |parsed.value.header| <= |content| then content[|parsed.value.header|..]
    else ""
  }

  /** Whether the file could be opened for writing, or the error that opening or writing raised. */
  datatype Target = Writable | NotWritable | OtherWriteError

  /**
   * `rewrite_file`: the header written from the template, then the content after the old
   * header.  `file` is what the file then holds, `None` when it could not be written.
   * A template error or running out of values propagates out of `write_header` after
   * the header's first part has been written.
   */
  method RewriteFile(target: Target, content: string, def: Config.HeaderDef, values: seq<Years>, parsed: Option<ParsedValues>)
    returns (file: Option<string>, r: Result<bool, HeaderError>)
    ensures target != Writable ==> file.None? && r == Ok(false)
    ensures target == Writable ==>
      var w := Render(def.template, values);
      (r == Ok(true) <==> w.error.None?) &&
      (w.error.None? ==> file == Some(w.text + Headerless(content, parsed))) &&
      (w.error.Some? ==> file == Some(w.text) && r == Err(w.error.value))
  {
    var headerless := Headerless(content, parsed);
    if target != Writable {
      return None, Ok(false);
    }
    var output, error := WriteHeader(def.template, values);
    if error.Some? {
      return Some(output), Err(error.value);
    }
    file := Some(output + headerless);
    r := Ok(true);
  }

  /** The rewritten file keeps what followed the old header, byte for byte, after the new header. */
  lemma RewriteKeepsRest(content: string, def: Config.HeaderDef, values: seq<Years>, parsed: Option<ParsedValues>)
    requires Render(def.template, values).error.None?
    ensures var text := Render(def.template, values).text + Headerless(content, parsed);
            text[|Render(def.template, values).text|..] == Headerless(content, parsed)
    ensures parsed.Some? && |parsed.value.header| <= |content| && parsed.value.header == content[..|parsed.value.header|] ==>
            parsed.value.header + Headerless(content, parsed) == content
  {
    var w := Render(def.template, values).text;
    var rest := Headerless(content, parsed);
    assert (w + rest)[|w|..] == rest;
    if parsed.Some? && |parsed.value.header| <= |content| {
      SplitAt(content, |parsed.value.header|);
    }
  }

  lemma SplitAt(s: string, n: nat)
    requires n <= |s|
    ensures s[..n] + s[n..] == s
  {
  }

  /** What an out-of-date check reports: the definition, its parsed header and the updated values. */
  lemma OutOfDateFacts(cfg: Config.Config, nowYear: int, path: string, content: string)
    requires Config.Consistent(cfg)
    requires var c := CheckPath(cfg, nowYear, path, Contents(content)); c.Ok? && c.value.event == OutOfDate
    ensures var r := CheckPath(cfg, nowYear, path, Contents(content)).value.result;
            var def := Config.HeaderForPath(cfg, path);
            def.Some? && r.headerDef == def && CompileTemplate(def.value.template).Ok? &&
            WellFormed(CompileTemplate(def.value.template).value)
    ensures var r := CheckPath(cfg, nowYear, path, Contents(content)).value.result;
            var p := CompileTemplate(r.headerDef.value.template).value;
            ParseWith(p, content).Some? && r.parsedValues == ParseWith(p, content) &&
            r.updatedValues == Some(UpdateAll(ParseWith(p, content).value.fields, nowYear)) &&
            |ParseWith(p, content).value.fields| == |p.fields|
  {
    var def := Config.HeaderForPath(cfg, path).value;
    CompileTemplateShape(def.template);
    ParseWithProps(CompileTemplate(def.template).value, content);
  }

  /** A file whose header parses with every range ending at the current year checks as up to date. */
  lemma UpToDateCheck(cfg: Config.Config, nowYear: int, path: string, text: string, def: Config.HeaderDef, pv: ParsedValues)
    requires Config.Consistent(cfg) && Config.HeaderForPath(cfg, path) == Some(def)
    requires CompileTemplate(def.template).Ok? && WellFormed(CompileTemplate(def.template).value)
    requires ParseWith(CompileTemplate(def.template).value, text) == Some(pv)
    requires UpdateAll(pv.fields, nowYear) == pv.fields
    ensures CheckPath(cfg, nowYear, path, Contents(text)) ==
            Ok(Checked(CheckResult(true, Some(text), Some(def), None, Some(pv)), UpToDate))
  {
  }

  /**
   * Checking a file, rewriting an out-of-date header with the updated values, and
   * checking the rewritten text again finds it up to date, with the text after the
   * header unchanged, provided the years have four digits and the rewritten header
   * cannot be read with its fields split differently.
   */
  lemma RewriteThenCheck(cfg: Config.Config, nowYear: int, path: string, content: string)
    requires Config.Consistent(cfg)
    requires var c := CheckPath(cfg, nowYear, path, Contents(content));
             c.Ok? && c.value.event == OutOfDate
    requires FourDigit(nowYear)
    requires var r := CheckPath(cfg, nowYear, path, Contents(content)).value.result;
             forall k :: 0 <= k < |r.updatedValues.value| ==> FourDigit(r.updatedValues.value[k].start)
    requires var r := CheckPath(cfg, nowYear, path, Contents(content)).value.result;
             var t := r.headerDef.value.template; var vs := r.updatedValues.value;
             Unambiguous(CompileTemplate(t).value.pattern, Strs(vs),
                         Render(t, vs).text + Headerless(content, r.parsedValues), 0)
    ensures var r := CheckPath(cfg, nowYear, path, Contents(content)).value.result;
            var t := r.headerDef.value.template; var vs := r.updatedValues.value;
            var rest := Headerless(content, r.parsedValues);
            var c' := CheckPath(cfg, nowYear, path, Contents(Render(t, vs).text + rest));
            Render(t, vs).error.None? &&
            c'.Ok? && c'.value.result.upToDate && c'.value.event == UpToDate &&
            c'.value.result.parsedValues == Some(ParsedValues(vs, Render(t, vs).text))
  {
    OutOfDateFacts(cfg, nowYear, path, content);
    var r := CheckPath(cfg, nowYear, path, Contents(content)).value.result;
    var def := r.headerDef.value;
    var t := def.template;
    var vs := r.updatedValues.value;
    var p := CompileTemplate(t).value;
    assert vs[..|p.fields|] == vs;
    assert forall k :: 0 <= k < |vs| ==> vs[k].end == nowYear;
    var rest := Headerless(content, r.parsedValues);
    RoundTrip(t, vs, rest);
    var text := Render(t, vs).text;
    UpdateAllSame(vs, nowYear);
    UpToDateCheck(cfg, nowYear, path, text + rest, def, ParsedValues(vs, text));
  }
}
