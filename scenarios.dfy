/** Worked uses of the containers with Symbols and strings as keys, and the
    round trips a caller relies on. */
module Scenarios {
  import opened Keys
  import Symbols
  import opened HybridMap
  import opened HybridSet
  import PyDict

  /** Values a caller might use: strings, numbers and Symbols, which are
      hashable (a Symbol defines `__hash__` and `__eq__`), and the contents of
      a list object, which is not. */
  datatype Sample = Str(s: string) | Number(n: int) | Token(symbol: Symbols.Symbol<string>) | ListObject(elements: seq<int>)

  /** `m[key] = value` followed by `m[key]` or `m.get(key, d)` gives `value`
      back, for either kind of key. */
  method SetThenGet<T, V>(m: Map<T, V>, key: Key<T>, value: V, d: V)
    requires m.Valid()
    modifies m
    ensures m.Valid()
    ensures m.GetItem(key) == Ok(value) && m.Contains(key) && m.Get(key, d) == value
  {
    m.SetItem(key, value);
  }

  /** After `del m[key]` succeeds the key is gone and `m[key]` raises. */
  method DeleteThenGet<T, V>(m: Map<T, V>, key: Key<T>) returns (r: Result<(), T>)
    requires m.Valid()
    modifies m
    ensures m.Valid()
    ensures !m.Contains(key) && m.GetItem(key) == Raised(KeyError(key))
  {
    r := m.DelItem(key);
  }

  /** The four keys of the sample are four different keys. */
  lemma FourDistinctKeys(s1: Symbols.Symbol<string>, s2: Symbols.Symbol<string>)
    requires s1.id != s2.id
    ensures |map[Str("a") := 1, Str("b") := 2, Token(s1) := 3, Token(s2) := 4]| == 4
  {
  }

  /** `m["a"] = 1; m["b"] = 2; m[s1] = 3; m[s2] = 4` on a new Map. */
  method FourKeys(s1: Symbols.Symbol<string>, s2: Symbols.Symbol<string>) returns (m: Map<Sample, int>)
    requires s1.id != s2.id
    ensures fresh(m) && m.Valid()
    ensures m.hashable.entries == map[Str("a") := 1, Str("b") := 2, Token(s1) := 3, Token(s2) := 4]
    ensures m.nonHashable.entries == map[]
    ensures m.Len() == 4
    ensures m.GetItem(Hashable(Str("a"))) == Ok(1) && m.GetItem(Hashable(Token(s1))) == Ok(3)
    ensures m.Contains(Hashable(Token(s2)))
  {
    m := new Map<Sample, int>();
    m.SetItem(Hashable(Str("a")), 1);
    m.SetItem(Hashable(Str("b")), 2);
    m.SetItem(Hashable(Token(s1)), 3);
    m.SetItem(Hashable(Token(s2)), 4);
    FourDistinctKeys(s1, s2);
  }

  /** Four keys, two of them Symbols: `m["a"]` is 1, `m[s1]` is 3, `s2 in m`;
      deleting `s1` leaves three, and a second lookup of it raises KeyError. */
  method MapWithSymbols() returns (sizeBefore: nat, a: Result<int, Sample>, first: Result<int, Sample>, hasSecond: bool,
                                    sizeAfter: nat, lookup: Result<int, Sample>)
    ensures sizeBefore == 4 && a == Ok(1) && first == Ok(3) && hasSecond
    ensures sizeAfter == 3
    ensures lookup == Raised(KeyError(Hashable(Token(Symbols.Symbol(1, Some("s1"))))))
  {
    var s1, s2 := Symbols.Symbol(1, Some("s1")), Symbols.Symbol(2, Some("s2"));
    var m := FourKeys(s1, s2);
    sizeBefore := m.Len();
    a := m.GetItem(Hashable(Str("a")));
    first := m.GetItem(Hashable(Token(s1)));
    hasSecond := m.Contains(Hashable(Token(s2)));
    var k1 := Hashable(Token(s1));
    assert Token(s1) in m.hashable.entries;
    var deleted := m.DelItem(k1);
    sizeAfter := m.Len();
    lookup := m.GetItem(k1);
  }

  /** Filing two ids in turn in an empty identity dict lists them in that order. */
  lemma TwoIdsInOrder<V>(x: V, y: V)
    ensures PyDict.Put(PyDict.Put(PyDict.Empty(), 10, x), 11, y) == PyDict.Dict([10, 11], map[10 := x, 11 := y])
  {
    assert [] + [10] + [11] == [10, 11];
  }

  /** `m[x] = 2; m["a"] = 1; m[y] = 3` on a new Map, where `x` and `y` are
      two distinct list objects with equal contents. */
  method ThreeKeys() returns (m: Map<Sample, int>)
    ensures fresh(m) && m.Valid()
    ensures m.hashable == PyDict.Dict([Str("a")], map[Str("a") := 1])
    ensures m.nonHashable == PyDict.Dict([10, 11], map[10 := (Unhashable(10, ListObject([1, 2])), 2), 11 := (Unhashable(11, ListObject([1, 2])), 3)])
  {
    var x, y := Unhashable(10, ListObject([1, 2])), Unhashable(11, ListObject([1, 2]));
    m := new Map<Sample, int>();
    m.SetItem(x, 2);
    m.SetItem(Hashable(Str("a")), 1);
    m.SetItem(y, 3);
    TwoIdsInOrder((x, 2), (y, 3));
    assert [] + [Str("a")] == [Str("a")];
  }

  /** The items of those stores: the value dict's first, then the identity
      dict's in insertion order. */
  lemma ThreeKeysItems()
    ensures var h := PyDict.Dict([Str("a")], map[Str("a") := 1]);
            var nh := PyDict.Dict([10, 11], map[10 := (Unhashable(10, ListObject([1, 2])), 2), 11 := (Unhashable(11, ListObject([1, 2])), 3)]);
            && PyDict.Valid(h) && PyDict.Valid(nh)
            && |h.entries| + |nh.entries| == 3
            && ItemsOf(h, nh) == [(Hashable(Str("a")), 1), (Unhashable(10, ListObject([1, 2])), 2), (Unhashable(11, ListObject([1, 2])), 3)]
  {
    var h := PyDict.Dict([Str("a")], map[Str("a") := 1]);
    var nh := PyDict.Dict([10, 11], map[10 := (Unhashable(10, ListObject([1, 2])), 2), 11 := (Unhashable(11, ListObject([1, 2])), 3)]);
    assert PyDict.Valid(nh);
    assert HashableItems(h) == [(Hashable(Str("a")), 1)];
    assert PyDict.Values(nh) == [(Unhashable(10, ListObject([1, 2])), 2), (Unhashable(11, ListObject([1, 2])), 3)];
  }

  /** Two distinct unhashable objects with equal contents are two keys, and
      the identity dict comes after the value dict in `items()`. */
  method MapWithUnhashableKeys() returns (size: nat, items: seq<(Key<Sample>, int)>)
    ensures size == 3
    ensures items == [(Hashable(Str("a")), 1), (Unhashable(10, ListObject([1, 2])), 2), (Unhashable(11, ListObject([1, 2])), 3)]
  {
    var m := ThreeKeys();
    ThreeKeysItems();
    size := m.Len();
    items := m.Items();
  }

  /** Collecting `1, 2, 1, s1, s2` keeps one `1`, so four values. */
  lemma FiveItemsCollected(s1: Symbols.Symbol<string>, s2: Symbols.Symbol<string>)
    requires s1.id != s2.id
    ensures var items := [Hashable(Number(1)), Hashable(Number(2)), Hashable(Number(1)), Hashable(Token(s1)), Hashable(Token(s2))];
            && Collected(items).hashable == {Number(1), Number(2), Token(s1), Token(s2)}
            && Collected(items).nonHashable.entries == map[]
            && |Collected(items).hashable| == 4
  {
    var items := [Hashable(Number(1)), Hashable(Number(2)), Hashable(Number(1)), Hashable(Token(s1)), Hashable(Token(s2))];
    CollectedAllHashable(items);
    assert (set k | k in items :: k.value) == {Number(1), Number(2), Token(s1), Token(s2)};
    FourDistinctValues(s1, s2);
  }

  /** The four values of the sample are four different values. */
  lemma FourDistinctValues(s1: Symbols.Symbol<string>, s2: Symbols.Symbol<string>)
    requires s1.id != s2.id
    ensures |{Number(1), Number(2), Token(s1), Token(s2)}| == 4
  {
  }

  /** `Set([1, 2, 1, s1, s2])`: the repeated `1` collapses and the Symbols
      stay apart, leaving four items. */
  method SetWithDuplicates() returns (size: nat)
    ensures size == 4
  {
    var s1, s2 := Symbols.Symbol(1, None), Symbols.Symbol(2, None);
    var items := [Hashable(Number(1)), Hashable(Number(2)), Hashable(Number(1)), Hashable(Token(s1)), Hashable(Token(s2))];
    var s := new Set<Sample>(Some(items));
    FiveItemsCollected(s1, s2);
    size := s.Len();
  }

  /** `add` then `in`, and `discard` then `in`, for either kind of item. */
  method AddThenDiscard<T>(s: Set<T>, item: Key<T>) returns (afterAdd: bool, afterDiscard: bool)
    requires s.Valid()
    modifies s
    ensures s.Valid()
    ensures afterAdd && !afterDiscard
  {
    s.Add(item);
    afterAdd := s.Contains(item);
    s.Discard(item);
    afterDiscard := s.Contains(item);
  }

  /** After `clear()` nothing is a member. */
  method ClearThenContains<T>(s: Set<T>, item: Key<T>) returns (found: bool, size: nat)
    modifies s
    ensures !found && size == 0
  {
    s.Clear();
    found := s.Contains(item);
    size := s.Len();
  }

  /** A copy answers membership as the original does, and adding to the copy
      leaves the original's members alone. */
  method CopyThenAdd<T>(s: Set<T>, item: Key<T>) returns (c: Set<T>)
    requires s.Valid()
    ensures fresh(c) && c.Valid()
    ensures c.Contains(item)
    ensures s.Members() == old(s.Members())
    ensures c.Members() == s.Members() + {SlotOf(item)}
  {
    c := s.Copy();
    c.Add(item);
  }

  /** Adding to the original after a copy leaves the copy's members alone. */
  method CopyThenAddToOriginal<T>(s: Set<T>, item: Key<T>) returns (c: Set<T>)
    requires s.Valid()
    modifies s
    ensures fresh(c) && c.Valid() && s.Valid()
    ensures c.Members() == old(s.Members())
    ensures s.Members() == old(s.Members()) + {SlotOf(item)}
  {
    c := s.Copy();
    s.Add(item);
  }
}
