/** Concrete configurations: the tested extension lookups, and the leftmost-match rule. */
module ConfigExamples {
  import opened Wrappers
  import opened Text
  import opened Util
  import opened Config

  const Header1: HeaderDef := HeaderDef("header1", "", ["ext1", "ext2"])
  const Header2: HeaderDef := HeaderDef("header2", "", ["ext3", "ext4"])

  /** The tested configuration: two definitions, two extensions each. */
  const Tested: Config := Config(FrozenDict([("header1", Header1), ("header2", Header2)]))

  lemma TestedConsistent()
    ensures Consistent(Tested)
    ensures Definitions(Tested) == [Header1, Header2]
  {
  }

  /** A path that does not end with `.e` (or `.e` and a line feed) is matched by no group of that definition. */
  lemma NoMatchAnywhere(d: HeaderDef, path: string)
    requires forall e :: e in Alternatives(d.extensions) ==> !EndsWithExtension(path, e)
    ensures forall q: nat :: !DefMatchesAt(d, path, q)
  {
    MatchesSomewhere(d, path);
  }

  /** The tested hit: a `.ext3` file takes the second definition. */
  lemma FoundHeader(path: string)
    requires path == "path1/path2/file.ext3"
    ensures HeaderForPath(Tested, path) == Some(Header2)
  {
    TestedConsistent();
    HeaderForPathProps(Tested, path);
    assert path[|path| - 5..] == ".ext3";
    assert path[|path| - 1] == '3';
    assert !EndsWithExtension(path, "ext1") && !EndsWithExtension(path, "ext2");
    NoMatchAnywhere(Header1, path);
    assert EndsWithExtension(path, "ext3");
    var q := EndsExtensionAt(path, "ext3");
    var defs := [Header1, Header2];
    assert defs[1] == Header2;
    assert DefMatchesAt(defs[1], path, q);
    assert !NoneMatchAt(defs, path, q);
  }

  /** The tested miss: no definition claims `.unknown`. */
  lemma UnknownExtension(path: string)
    requires path == "path1/path2/file.unknown"
    ensures HeaderForPath(Tested, path) == None
  {
    TestedConsistent();
    HeaderForPathProps(Tested, path);
    assert path[|path| - 5..] == "known";
    assert path[|path| - 1] == 'n';
    assert !EndsWithExtension(path, "ext1") && !EndsWithExtension(path, "ext2");
    assert !EndsWithExtension(path, "ext3") && !EndsWithExtension(path, "ext4");
    NoMatchAnywhere(Header1, path);
    NoMatchAnywhere(Header2, path);
  }

  /** Without definitions there is no pattern, and no path has a definition. */
  lemma EmptyConfig(path: string)
    ensures HeaderForPath(Config(FrozenDict([])), path) == None
  {
  }

  const Gz: HeaderDef := HeaderDef("gz", "", ["gz"])
  const TarGz: HeaderDef := HeaderDef("targz", "", ["tar.gz"])

  /**
   * The leftmost match wins over definition order: `.tar.gz` starts further left than
   * `.gz`, so the second definition is chosen even though the first also matches.
   */
  lemma LeftmostWins(path: string)
    requires path == "a.tar.gz"
    ensures HeaderForPath(Config(FrozenDict([("gz", Gz), ("targz", TarGz)])), path) == Some(TarGz)
  {
    var cfg := Config(FrozenDict([("gz", Gz), ("targz", TarGz)]));
    assert Definitions(cfg) == [Gz, TarGz];
    assert ExtensionAt(path, 1, "tar.gz") by { assert path[2..8] == "tar.gz"; }
    assert DefMatchesAt(TarGz, path, 1);
    assert !DefMatchesAt(Gz, path, 1) by { assert path[2] == 't'; }
    assert !DefMatchesAt(Gz, path, 0) && !DefMatchesAt(TarGz, path, 0) by { assert path[0] != '.'; }
    assert FirstMatchAt(Definitions(cfg), path, 0) == None;
    assert FirstMatchAt(Definitions(cfg), path, 1) == Some(1);
    assert SearchFrom(Definitions(cfg), path, 0) == Some((1, 1));
    LookupByName(cfg, 1);
  }

  /** Two definitions matching at the same offset: the first in definition order wins. */
  lemma FirstDefinitionWins(path: string)
    requires path == "a.py"
    ensures HeaderForPath(Config(FrozenDict([("one", HeaderDef("one", "", ["py"])), ("two", HeaderDef("two", "", ["py"]))])), path)
            == Some(HeaderDef("one", "", ["py"]))
  {
    var one, two := HeaderDef("one", "", ["py"]), HeaderDef("two", "", ["py"]);
    var cfg := Config(FrozenDict([("one", one), ("two", two)]));
    assert Definitions(cfg) == [one, two];
    assert ExtensionAt(path, 1, "py") by { assert path[2..4] == "py"; }
    assert DefMatchesAt(one, path, 1);
    assert !DefMatchesAt(one, path, 0) && !DefMatchesAt(two, path, 0) by { assert path[0] != '.'; }
    assert FirstMatchAt(Definitions(cfg), path, 0) == None;
    assert SearchFrom(Definitions(cfg), path, 0) == Some((1, 0));
    LookupByName(cfg, 0);
  }

  /** An empty list of extensions behaves as the extension `""`: it claims paths ending in a dot. */
  lemma EmptyExtensions(path: string)
    requires path == "notes."
    ensures HeaderForPath(Config(FrozenDict([("dot", HeaderDef("dot", "", []))])), path) == Some(HeaderDef("dot", "", []))
  {
    var d := HeaderDef("dot", "", []);
    var cfg := Config(FrozenDict([("dot", d)]));
    assert Definitions(cfg) == [d];
    assert ExtensionAt(path, 5, "");
    var defs := [d];
    assert defs[0] == d;
    assert DefMatchesAt(defs[0], path, 5);
    assert !NoneMatchAt(defs, path, 5);
    HeaderForPathProps(cfg, path);
    LookupByName(cfg, 0);
  }

  /** `sorted` of three strings given as `a`, `c`, `b`, when `b < c` and not `b < a`. */
  lemma SortThree(a: string, b: string, c: string)
    requires StrLess(b, c) && !StrLess(b, a)
    ensures Sort([a, c, b]) == [a, b, c]
  {
    SortOne(b);
    assert [c, b][1..] == [b];
    InsertAfter(c, b);
    assert [a, c, b][1..] == [c, b];
    InsertBefore(a, [b, c]);
  }

  lemma SortOne(b: string)
    ensures Sort([b]) == [b]
  {
    assert [b][1..] == [];
  }

  lemma InsertAfter(c: string, b: string)
    requires StrLess(b, c)
    ensures Insert(c, [b]) == [b, c]
  {
    assert [b][1..] == [];
  }

  lemma InsertBefore(a: string, s: seq<string>)
    requires Sorted(s) && s != [] && !StrLess(s[0], a)
    ensures Insert(a, s) == [a] + s
  {
  }

  /** The three tested names, `unexpected1` to `unexpected3`, are sorted by their last digit. */
  lemma UnexpectedOrder(u1: string, u2: string, u3: string)
    requires u1 == "unexpected1" && u2 == "unexpected2" && u3 == "unexpected3"
    ensures StrLess(u2, u3) && !StrLess(u2, u1)
  {
    var p := "unexpected";
    assert u1 == p + "1" && u2 == p + "2" && u3 == p + "3";
    StrLessCommonPrefix(p, "2", "3");
    StrLessCommonPrefix(p, "2", "1");
  }

  /** Listing the keys of three entries whose values all are, or all are not, tables. */
  lemma KeysWhereThree(dct: Entries<Value>, table: bool)
    requires |dct| == 3 && forall i :: 0 <= i < 3 ==> dct[i].1.Table? == table
    ensures KeysWhere(dct, table) == [dct[0].0, dct[1].0, dct[2].0]
    ensures KeysWhere(dct, !table) == []
  {
    var e1 := dct[1..];
    var e2 := e1[1..];
    assert e2[1..] == [];
    assert KeysWhere(e2, table) == [dct[2].0] && KeysWhere(e2, !table) == [];
    assert KeysWhere(e1, table) == [dct[1].0, dct[2].0] && KeysWhere(e1, !table) == [];
  }

  /** The text `", ".join` gives for the three tested names. */
  lemma JoinUnexpected(u1: string, u2: string, u3: string)
    requires u1 == "unexpected1" && u2 == "unexpected2" && u3 == "unexpected3"
    ensures JoinWith([u1, u2, u3], ", ") == "unexpected1, unexpected2, unexpected3"
  {
    assert [u1, u2, u3][1..] == [u2, u3] && [u2, u3][1..] == [u3];
    assert JoinWith([u2, u3], ", ") == u2 + ", " + u3;
  }

  /** A dictionary without `header` reads as empty sections, then the check of its leftovers. */
  lemma NoHeaderLeftovers(dct: Entries<Value>)
    requires "header" !in Keys(dct)
    ensures ReadConfig(dct) == if LeftoverError(dct).Some? then Err(LeftoverError(dct).value) else Ok(Config(FrozenDict([])))
  {
    assert Find(dct, "header") == None;
    assert Remove(dct, "header") == dct;
    assert ReadSections([]) == Ok([]);
    UpdatedEmpty<HeaderDef>([]);
  }

  /** Leftover entries `a`, `c`, `b`, all tables or all not, with `b < c` and not `b < a`. */
  lemma ThreeLeftovers(dct: Entries<Value>, table: bool, a: string, b: string, c: string)
    requires |dct| == 3 && dct[0].0 == a && dct[1].0 == c && dct[2].0 == b
    requires forall i :: 0 <= i < 3 ==> dct[i].1.Table? == table
    requires "header" !in Keys(dct) && a != ""
    requires StrLess(b, c) && !StrLess(b, a)
    ensures ReadConfig(dct) == Err(if table then UnexpectedSections([a, b, c]) else UnexpectedOptions([a, b, c]))
  {
    NoHeaderLeftovers(dct);
    KeysWhereThree(dct, table);
    SortThree(a, b, c);
    assert [a, b, c][1..] == [b, c];
    assert JoinWith([a, b, c], ", ") != "" by { assert |JoinWith([a, b, c], ", ")| >= |a|; }
    assert Sort([]) == [] && JoinWith([], ", ") == "";
  }

  /** The message of a leftover error is its prefix followed by the joined names. */
  lemma LeftoverMessage(e: ConfigError, j: string)
    requires (e.UnexpectedOptions? || e.UnexpectedSections?) && JoinWith(e.keys, ", ") == j
    ensures e.Message() == (if e.UnexpectedOptions? then "unexpected options: " else "unexpected sections: ") + j
  {
  }

  /** Three options that are not tables, under `[tool.conhead]`: reported together, sorted. */
  lemma UnexpectedOptionsSorted(dct: Entries<Value>, u1: string, u2: string, u3: string)
    requires u1 == "unexpected1" && u2 == "unexpected2" && u3 == "unexpected3"
    requires dct == [(u1, Str(u1)), (u3, Str(u3)), (u2, Str(u2))]
    ensures ReadConfig(dct) == Err(UnexpectedOptions([u1, u2, u3]))
    ensures ReadConfig(dct).error.Message() == "unexpected options: " + "unexpected1, unexpected2, unexpected3"
  {
    assert Keys(dct) == [u1, u3, u2];
    UnexpectedOrder(u1, u2, u3);
    ThreeLeftovers(dct, false, u1, u2, u3);
    JoinUnexpected(u1, u2, u3);
    LeftoverMessage(ReadConfig(dct).error, "unexpected1, unexpected2, unexpected3");
  }

  /** Three empty sub-tables of `[tool.conhead]` other than `header`: reported together, sorted. */
  lemma UnexpectedSectionsSorted(dct: Entries<Value>, u1: string, u2: string, u3: string)
    requires u1 == "unexpected1" && u2 == "unexpected2" && u3 == "unexpected3"
    requires dct == [(u1, Table([])), (u3, Table([])), (u2, Table([]))]
    ensures ReadConfig(dct) == Err(UnexpectedSections([u1, u2, u3]))
    ensures ReadConfig(dct).error.Message() == "unexpected sections: " + "unexpected1, unexpected2, unexpected3"
  {
    assert Keys(dct) == [u1, u3, u2];
    UnexpectedOrder(u1, u2, u3);
    ThreeLeftovers(dct, true, u1, u2, u3);
    JoinUnexpected(u1, u2, u3);
    LeftoverMessage(ReadConfig(dct).error, "unexpected1, unexpected2, unexpected3");
  }
}
