/**
 * `FrozenDict` (conhead/util.py): a read-only, insertion-ordered mapping from
 * strings to values.  A Python `dict` is modelled as an association list whose
 * keys are unique; its iteration order is the order of the list.
 */
module Util {
  import opened Wrappers

  /** The entries of a dictionary, in iteration order. */
  type Entries<V> = seq<(string, V)>

  predicate UniqueKeys<V>(e: Entries<V>)
  {
    forall i, j :: 0 <= i < j < |e| ==> e[i].0 != e[j].0
  }

  /** The keys of `e`, in order: what iterating a dictionary yields. */
  function Keys<V>(e: Entries<V>): (ks: seq<string>)
    ensures |ks| == |e| && forall i :: 0 <= i < |e| ==> ks[i] == e[i].0
  {
    seq(|e|, i requires 0 <= i < |e| => e[i].0)
  }

  /** Where the key `k` sits in `e`, if it is there. */
  function Position<V>(e: Entries<V>, k: string): (r: Option<nat>)
    ensures r.Some? ==> r.value < |e| && e[r.value].0 == k && forall j :: 0 <= j < r.value ==> e[j].0 != k
    ensures r.None? ==> forall j :: 0 <= j < |e| ==> e[j].0 != k
  {
    if e == [] then None
    else if e[0].0 == k then Some(0)
    else match Position(e[1..], k)
      case None => None
      case Some(i) => Some(i + 1)
  }

  /** `d[k]`, with `None` standing for the `KeyError` a missing key raises. */
  function Find<V>(e: Entries<V>, k: string): (r: Option<V>)
    ensures r.Some? <==> k in Keys(e)
    ensures r.Some? ==> exists i :: 0 <= i < |e| && e[i] == (k, r.value)
  {
    match Position(e, k)
    case None => None
    case Some(i) => Some(e[i].1)
  }

  /** `d[k] = v`: an existing key keeps its place and takes the new value, a new key goes last. */
  function Put<V>(e: Entries<V>, k: string, v: V): Entries<V>
  {
    match Position(e, k)
    case Some(i) => e[i := (k, v)]
    case None => e + [(k, v)]
  }

  /** `d.pop(k)` for a key that is there: the entry is removed, the others keep their order. */
  function Remove<V>(e: Entries<V>, k: string): (r: Entries<V>)
    ensures UniqueKeys(e) ==> UniqueKeys(r) && Find(r, k).None?
  {
    match Position(e, k)
    case Some(i) => e[..i] + e[i + 1..]
    case None => e
  }

  /** `d.update(m)`: each entry of `m` in turn stored into `d`. */
  function Updated<V>(e: Entries<V>, m: Entries<V>): Entries<V>
    decreases |m|
  {
    if m == [] then e else Updated(Put(e, m[0].0, m[0].1), m[1..])
  }

  /** The keys of `ks` that are not in `seen`, in order: the keys an update appends. */
  function Fresh(ks: seq<string>, seen: seq<string>): seq<string>
  {
    if ks == [] then [] else (if ks[0] in seen then [] else [ks[0]]) + Fresh(ks[1..], seen)
  }

  /** `Position` is the first index holding the key. */
  lemma PositionIs<V>(e: Entries<V>, k: string, i: nat)
    requires i < |e| && e[i].0 == k && forall j :: 0 <= j < i ==> e[j].0 != k
    ensures Position(e, k) == Some(i)
  {
  }

  /** Storing a value changes the lookup of that key alone. */
  lemma PutFind<V>(e: Entries<V>, k: string, v: V, k': string)
    ensures Find(Put(e, k, v), k') == if k' == k then Some(v) else Find(e, k')
  {
    var r := Put(e, k, v);
    match Position(e, k)
    case Some(i) =>
      PositionIs(r, k, i);
      if k' != k {
        match Position(e, k')
        case None =>
          assert forall j :: 0 <= j < |r| ==> r[j].0 != k';
        case Some(j) =>
          PositionIs(r, k', j);
      }
    case None =>
      if k' == k {
        PositionIs(r, k, |e|);
      } else {
        match Position(e, k')
        case None =>
          assert forall j :: 0 <= j < |r| ==> r[j].0 != k';
        case Some(j) =>
          PositionIs(r, k', j);
      }
  }

  /** Storing a value keeps the keys and their order, and appends a new key. */
  lemma PutKeys<V>(e: Entries<V>, k: string, v: V)
    ensures Keys(Put(e, k, v)) == if k in Keys(e) then Keys(e) else Keys(e) + [k]
    ensures UniqueKeys(e) ==> UniqueKeys(Put(e, k, v))
  {
  }

  /** Storing a new key appends it, and keeps the keys unique. */
  lemma AppendNewKey<V>(e: Entries<V>, k: string, v: V)
    requires k !in Keys(e)
    ensures Put(e, k, v) == e + [(k, v)]
    ensures Keys(e + [(k, v)]) == Keys(e) + [k]
    ensures UniqueKeys(e) ==> UniqueKeys(e + [(k, v)])
  {
    assert Position(e, k).None?;
  }

  /** After `d.update(m)` the values of `m` win, and every other key keeps its value. */
  lemma {:induction false} UpdatedFind<V>(e: Entries<V>, m: Entries<V>, k: string)
    requires UniqueKeys(m)
    ensures Find(Updated(e, m), k) == if k in Keys(m) then Find(m, k) else Find(e, k)
    decreases |m|
  {
    if m != [] {
      var e' := Put(e, m[0].0, m[0].1);
      var m' := m[1..];
      FindCons(m, k);
      UpdatedFind(e', m', k);
      PutFind(e, m[0].0, m[0].1, k);
    }
  }

  /** Looking up in a non-empty dictionary: its first key, or the rest. */
  lemma FindCons<V>(m: Entries<V>, k: string)
    requires UniqueKeys(m) && m != []
    ensures UniqueKeys(m[1..])
    ensures k in Keys(m) <==> k == m[0].0 || k in Keys(m[1..])
    ensures k == m[0].0 ==> k !in Keys(m[1..]) && Find(m, k) == Some(m[0].1)
    ensures k != m[0].0 ==> Find(m, k) == Find(m[1..], k)
  {
    KeysCons(m);
    if k != m[0].0 {
      FindRest(m, k);
    } else {
      assert Position(m, k) == Some(0);
    }
  }

  lemma KeysCons<V>(m: Entries<V>)
    requires m != []
    ensures Keys(m) == [m[0].0] + Keys(m[1..])
  {
  }

  lemma FindRest<V>(m: Entries<V>, k: string)
    requires m != [] && k != m[0].0
    ensures Position(m, k) == match Position(m[1..], k) case None => None case Some(i) => Some(i + 1)
    ensures Find(m, k) == Find(m[1..], k)
  {
    match Position(m[1..], k)
    case None =>
    case Some(i) =>
      assert m[i + 1] == m[1..][i];
  }

  lemma {:induction false} FreshSkip(ks: seq<string>, seen: seq<string>, k: string)
    requires k !in ks
    ensures Fresh(ks, seen + [k]) == Fresh(ks, seen)
  {
    if ks != [] {
      assert ks[0] != k;
      assert (ks[0] in seen + [k]) == (ks[0] in seen);
      FreshSkip(ks[1..], seen, k);
    }
  }

  lemma FreshCons(k: string, ks: seq<string>, seen: seq<string>)
    ensures Fresh([k] + ks, seen) == (if k in seen then [] else [k]) + Fresh(ks, seen)
  {
    assert ([k] + ks)[1..] == ks;
  }

  /** `d.update(m)` keeps the keys of `d` in order and appends the new keys of `m` in `m`'s order. */
  lemma {:induction false} UpdatedKeys<V>(e: Entries<V>, m: Entries<V>)
    requires UniqueKeys(m)
    ensures Keys(Updated(e, m)) == Keys(e) + Fresh(Keys(m), Keys(e))
    ensures UniqueKeys(e) ==> UniqueKeys(Updated(e, m))
    decreases |m|
  {
    if m != [] {
      var k, v := m[0].0, m[0].1;
      var e' := Put(e, k, v);
      var m' := m[1..];
      assert UniqueKeys(m');
      var ks := Keys(m');
      assert Keys(m) == [k] + ks;
      assert k !in ks;
      PutKeys(e, k, v);
      UpdatedKeys(e', m');
      assert Updated(e, m) == Updated(e', m');
      FreshCons(k, ks, Keys(e));
      if k !in Keys(e) {
        FreshSkip(ks, Keys(e), k);
      }
    }
  }

  /** Storing the entries of a dictionary into an empty one rebuilds it exactly. */
  lemma {:induction false} UpdatedEmpty<V>(e: Entries<V>)
    requires UniqueKeys(e)
    ensures Updated([], e) == e
  {
    forall k ensures Find(Updated([], e), k) == Find(e, k) {
      UpdatedFind([], e, k);
    }
    UpdatedKeys([], e);
    FreshAll(Keys(e));
    KeysFindDetermine(Updated([], e), e);
  }

  lemma {:induction false} FreshAll(ks: seq<string>)
    ensures Fresh(ks, []) == ks
  {
    if ks != [] {
      FreshAll(ks[1..]);
      assert ks == [ks[0]] + ks[1..];
    }
  }

  /** Two dictionaries with the same keys in the same order and the same lookups are the same list. */
  lemma KeysFindDetermine<V>(a: Entries<V>, b: Entries<V>)
    requires Keys(a) == Keys(b) && UniqueKeys(b)
    requires forall k :: Find(a, k) == Find(b, k)
    ensures a == b
  {
    assert |a| == |Keys(a)| == |b|;
    forall i | 0 <= i < |a| ensures a[i] == b[i] {
      var k := b[i].0;
      assert a[i].0 == k;
      assert Position(b, k) == Some(i);
      assert Position(a, k) == Some(i);
      assert Find(a, k) == Find(b, k);
    }
  }

  /**
   * The operand of `|`: a `dict` or a `FrozenDict`, which the inner `dict` union accepts; any
   * other `collections.abc.Mapping` that defines no union with a `dict` of its own, which passes
   * the `isinstance` test but then makes the inner union raise `TypeError`; or no mapping at all.
   */
  datatype Operand<V> = Mapping(entries: Entries<V>) | OtherMapping | NotMapping

  /** What `__or__` and `__ror__` give: a new `FrozenDict`, `NotImplemented`, or a raised `TypeError`. */
  datatype OrResult<V> = Merged(value: FrozenDict<V>) | NotImplemented | OperandTypeError

  datatype FrozenDict<V> = FrozenDict(entries: Entries<V>) {

    /** `len(d)`. */
    function Len(): nat { |entries| }

    /** `d[k]`, `None` for a missing key. */
    function Get(k: string): Option<V> { Find(entries, k) }

    /** `k in d`. */
    predicate Contains(k: string) { k in Keys(entries) }

    /** `iter(d)`: the keys in insertion order. */
    function Iter(): seq<string> { Keys(entries) }

    /** `d | other`: a new `FrozenDict` from `dict | other`, or `NotImplemented` for a non-mapping. */
    function Or(other: Operand<V>): OrResult<V>
    {
      match other
      case Mapping(m) => Merged(Construct(Some(Updated(entries, m)), []))
      case OtherMapping => OperandTypeError
      case NotMapping => NotImplemented
    }

    /** `other | d`: a new `FrozenDict` from `other | dict`, or `NotImplemented` for a non-mapping. */
    function ROr(other: Operand<V>): OrResult<V>
    {
      match other
      case Mapping(m) => Merged(Construct(Some(Updated(m, entries)), []))
      case OtherMapping => OperandTypeError
      case NotMapping => NotImplemented
    }

    /** `copy(d)` and `d.copy()`: `type(self)(self)`. */
    function Copy(): FrozenDict<V> { Construct(Some(entries), []) }
  }

  /** `FrozenDict(dct, **kwargs)` as a value: the keyword arguments stored first, then the mapping. */
  function Construct<V>(dct: Option<Entries<V>>, kwargs: Entries<V>): FrozenDict<V>
  {
    var d := Updated([], kwargs);
    FrozenDict(if dct.Some? then Updated(d, dct.value) else d)
  }

  /** `FrozenDict.__init__`: start empty, update from the keyword arguments, then from the mapping. */
  method New<V>(dct: Option<Entries<V>>, kwargs: Entries<V>) returns (d: FrozenDict<V>)
    ensures d == Construct(dct, kwargs)
  {
    var contents: Entries<V> := [];
    contents := Updated(contents, kwargs);
    if dct.Some? {
      contents := Updated(contents, dct.value);
    }
    d := FrozenDict(contents);
  }

  /**
   * The constructor: the keys are unique, the keyword arguments come first in
   * iteration order followed by the new keys of the mapping, and the mapping's
   * values override the keyword arguments on shared keys.
   */
  lemma ConstructProps<V>(dct: Option<Entries<V>>, kwargs: Entries<V>, k: string)
    requires UniqueKeys(kwargs) && (dct.Some? ==> UniqueKeys(dct.value))
    ensures var d := Construct(dct, kwargs);
            UniqueKeys(d.entries) &&
            d.Iter() == Keys(kwargs) + (if dct.Some? then Fresh(Keys(dct.value), Keys(kwargs)) else []) &&
            d.Get(k) == (if dct.Some? && k in Keys(dct.value) then Find(dct.value, k) else Find(kwargs, k)) &&
            (d.Contains(k) <==> d.Get(k).Some?)
  {
    UpdatedEmpty(kwargs);
    if dct.Some? {
      UpdatedKeys(kwargs, dct.value);
      UpdatedFind(kwargs, dct.value, k);
      assert Construct(dct, kwargs).entries == Updated(kwargs, dct.value);
    }
  }

  /** `len`, `[]`, `in` and iteration agree: the length is the number of distinct keys, each of which can be looked up. */
  lemma LookupAgrees<V>(d: FrozenDict<V>, k: string)
    requires UniqueKeys(d.entries)
    ensures d.Len() == |d.Iter()| == |set i | 0 <= i < |d.entries| :: d.entries[i].0|
    ensures d.Contains(k) <==> d.Get(k).Some?
    ensures d.Contains(k) <==> k in d.Iter()
  {
    KeySetSize(d.entries);
  }

  lemma {:induction false} KeySetSize<V>(e: Entries<V>)
    requires UniqueKeys(e)
    ensures |set i | 0 <= i < |e| :: e[i].0| == |e|
  {
    if e != [] {
      var t := e[1..];
      KeySetSize(t);
      var s := set i | 0 <= i < |e| :: e[i].0;
      var s' := set i | 0 <= i < |t| :: t[i].0;
      assert s == {e[0].0} + s' by {
        forall x | x in s ensures x in {e[0].0} + s' {
          var i :| 0 <= i < |e| && e[i].0 == x;
          if i > 0 { assert t[i - 1].0 == x; }
        }
        forall x | x in s' ensures x in s {
          var i :| 0 <= i < |t| && t[i].0 == x;
          assert e[i + 1].0 == x;
        }
      }
      assert e[0].0 !in s';
    }
  }

  /**
   * `d | m`: the keys of `d` in order followed by the new keys of `m`, the values of `m`
   * winning on shared keys; a non-mapping operand gives `NotImplemented`, which Python turns
   * into a `TypeError`, and a mapping the inner `dict` union refuses raises `TypeError` itself.
   */
  lemma OrProps<V>(d: FrozenDict<V>, other: Operand<V>, k: string)
    requires UniqueKeys(d.entries) && (other.Mapping? ==> UniqueKeys(other.entries))
    ensures d.Or(other).NotImplemented? <==> other.NotMapping?
    ensures d.Or(other).OperandTypeError? <==> other.OtherMapping?
    ensures other.Mapping? ==>
      var r := d.Or(other).value; var m := other.entries;
      UniqueKeys(r.entries) &&
      r.Iter() == d.Iter() + Fresh(Keys(m), d.Iter()) &&
      r.Get(k) == (if k in Keys(m) then Find(m, k) else d.Get(k))
  {
    if other.Mapping? {
      var m := other.entries;
      UpdatedKeys(d.entries, m);
      UpdatedFind(d.entries, m, k);
      ConstructProps(Some(Updated(d.entries, m)), [], k);
      assert Fresh(Keys(Updated(d.entries, m)), []) == Keys(Updated(d.entries, m)) by { FreshAll(Keys(Updated(d.entries, m))); }
    }
  }

  /**
   * `m | d`: the keys of `m` in order followed by the new keys of `d`, the values of `d`
   * winning on shared keys; a non-mapping operand gives `NotImplemented`, and a mapping the
   * inner `dict` union refuses raises `TypeError`.
   */
  lemma ROrProps<V>(d: FrozenDict<V>, other: Operand<V>, k: string)
    requires UniqueKeys(d.entries) && (other.Mapping? ==> UniqueKeys(other.entries))
    ensures d.ROr(other).NotImplemented? <==> other.NotMapping?
    ensures d.ROr(other).OperandTypeError? <==> other.OtherMapping?
    ensures other.Mapping? ==>
      var r := d.ROr(other).value; var m := other.entries;
      UniqueKeys(r.entries) &&
      r.Iter() == Keys(m) + Fresh(d.Iter(), Keys(m)) &&
      r.Get(k) == (if d.Contains(k) then d.Get(k) else Find(m, k))
  {
    if other.Mapping? {
      var m := other.entries;
      UpdatedKeys(m, d.entries);
      UpdatedFind(m, d.entries, k);
      ConstructProps(Some(Updated(m, d.entries)), [], k);
      assert Fresh(Keys(Updated(m, d.entries)), []) == Keys(Updated(m, d.entries)) by { FreshAll(Keys(Updated(m, d.entries))); }
    }
  }

  /** A copy equals the original: same entries in the same order, the very same values. */
  lemma CopyEqual<V>(d: FrozenDict<V>)
    requires UniqueKeys(d.entries)
    ensures d.Copy() == d
  {
    UpdatedEmpty(d.entries);
  }

  /** Constructing from a mapping alone gives exactly that mapping. */
  lemma ConstructFromMapping<V>(m: Entries<V>)
    requires UniqueKeys(m)
    ensures Construct(Some(m), []).entries == m
  {
    UpdatedEmpty(m);
  }
}
