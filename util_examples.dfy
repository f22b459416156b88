/** The tested uses of `FrozenDict`, with integers standing for the values. */
module UtilExamples {
  import opened Wrappers
  import opened Util

  /** `FrozenDict(a=1, b=2, c=0)`, the dictionary shared by the tests. */
  lemma KwargsConstruct(kwargs: Entries<int>)
    requires kwargs == [("a", 1), ("b", 2), ("c", 0)]
    ensures Construct(None, kwargs) == FrozenDict(kwargs)
    ensures Construct(None, kwargs).Len() == 3
    ensures Construct(None, kwargs).Iter() == ["a", "b", "c"]
  {
    UpdatedEmpty(kwargs);
  }

  /** `FrozenDict()` is empty. */
  lemma EmptyConstruct()
    ensures Construct<int>(None, []) == FrozenDict([]) && Construct<int>(None, []).Len() == 0
  {
  }

  /** Lookups in the shared dictionary, present and missing keys. */
  lemma SharedLookups(d: FrozenDict<int>)
    requires d == FrozenDict([("a", 1), ("b", 2), ("c", 0)])
    ensures d.Get("a") == Some(1) && d.Get("b") == Some(2) && d.Get("c") == Some(0)
    ensures d.Contains("a") && d.Contains("b") && d.Contains("c")
    ensures !d.Contains("d") && !d.Contains("e") && d.Get("d") == None
  {
    assert Position(d.entries, "a") == Some(0);
    assert Position(d.entries, "b") == Some(1);
    assert Position(d.entries, "c") == Some(2);
    assert Keys(d.entries) == ["a", "b", "c"];
  }

  /** `d | dict(c=5, d=6, e=7)`: the right operand wins on `c`, and its new keys come last. */
  lemma OrCompatible(d: FrozenDict<int>, m: Entries<int>)
    requires d == FrozenDict([("a", 1), ("b", 2), ("c", 0)])
    requires m == [("c", 5), ("d", 6), ("e", 7)]
    ensures d.Or(Mapping(m)) == Merged(FrozenDict([("a", 1), ("b", 2), ("c", 5), ("d", 6), ("e", 7)]))
  {
    var e0 := d.entries;
    var e1 := Put(e0, "c", 5);
    assert Position(e0, "c") == Some(2);
    assert e1 == [("a", 1), ("b", 2), ("c", 5)];
    var e2 := Put(e1, "d", 6);
    assert Position(e1, "d") == None;
    var e3 := Put(e2, "e", 7);
    assert Position(e2, "e") == None;
    assert Updated(e0, m) == Updated(e1, m[1..]) == Updated(e2, m[2..]) == Updated(e3, []);
    var r := e3;
    assert r == [("a", 1), ("b", 2), ("c", 5), ("d", 6), ("e", 7)];
    UpdatedEmpty(r);
  }

  /** `dict(c=5, d=6, e=7) | d`: the frozen dictionary wins on `c`, and its keys follow the plain ones. */
  lemma ROrCompatible(d: FrozenDict<int>, m: Entries<int>)
    requires d == FrozenDict([("a", 1), ("b", 2), ("c", 0)])
    requires m == [("c", 5), ("d", 6), ("e", 7)]
    ensures d.ROr(Mapping(m)) == Merged(FrozenDict([("c", 0), ("d", 6), ("e", 7), ("a", 1), ("b", 2)]))
  {
    var e0 := m;
    var e1 := Put(e0, "a", 1);
    assert Position(e0, "a") == None;
    var e2 := Put(e1, "b", 2);
    assert Position(e1, "b") == None;
    var e3 := Put(e2, "c", 0);
    assert Position(e2, "c") == Some(0);
    assert e3 == [("c", 0), ("d", 6), ("e", 7), ("a", 1), ("b", 2)];
    var es := d.entries;
    assert Updated(e0, es) == Updated(e1, es[1..]) == Updated(e2, es[2..]) == Updated(e3, []);
    UpdatedEmpty(e3);
  }

  /** An operand that is not a mapping gives `NotImplemented`, on either side. */
  lemma OrIncompatible(d: FrozenDict<int>)
    ensures d.Or(NotMapping) == NotImplemented && d.ROr(NotMapping) == NotImplemented
  {
  }

  /** A mapping that is neither a `dict` nor a `FrozenDict` makes the inner union raise, on either side. */
  lemma OrOtherMapping(d: FrozenDict<int>)
    ensures d.Or(OtherMapping) == OperandTypeError && d.ROr(OtherMapping) == OperandTypeError
  {
  }
}
