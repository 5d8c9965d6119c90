/** The hybrid Map: a dictionary that accepts hashable and unhashable keys.
    A hashable key lives in a value-equality dict; an unhashable one lives in
    an identity dict that keeps `[key, value]` under the key's id. */
module HybridMap {
  import opened Keys
  import opened PyDict
  import Text

  /** Both dicts are well formed, and the identity dict files each
      `[key, value]` under that key's own id. */
  ghost predicate StoresValid<T, V>(hashable: Dict<T, V>, nonHashable: Dict<Id, (Key<T>, V)>)
  {
    && PyDict.Valid(hashable)
    && PyDict.Valid(nonHashable)
    && forall i :: i in nonHashable.entries ==>
         nonHashable.entries[i].0.Unhashable? && nonHashable.entries[i].0.id == i
  }

  /** A value-keyed map's entries, each key standing for its value's class. */
  function ValueView<T(==), V>(entries: map<T, V>): map<Slot<T>, V>
  {
    map k | k in entries :: ValueSlot(k) := entries[k]
  }

  /** An id-keyed map's entries, each id standing for its object's class. */
  function IdentityView<T(==), V>(entries: map<Id, (Key<T>, V)>): map<Slot<T>, V>
  {
    map i | i in entries :: IdentitySlot(i) := entries[i].1
  }

  /** The value dict's entries, each key standing for its value's class. */
  function ValueEntries<T(==), V>(hashable: Dict<T, V>): map<Slot<T>, V>
  {
    ValueView(hashable.entries)
  }

  /** The identity dict's entries, each id standing for its object's class. */
  function IdentityEntries<T(==), V>(nonHashable: Dict<Id, (Key<T>, V)>): map<Slot<T>, V>
  {
    IdentityView(nonHashable.entries)
  }

  /** The dictionary as its callers see it: the sameness class of each key
      mapped to that key's value. */
  function EntriesOf<T(==), V>(hashable: Dict<T, V>, nonHashable: Dict<Id, (Key<T>, V)>): map<Slot<T>, V>
  {
    ValueEntries(hashable) + IdentityEntries(nonHashable)
  }

  lemma ValueEntriesKeys<T, V>(hashable: Dict<T, V>)
    ensures ValueEntries(hashable).Keys == ValueSlots(hashable.entries.Keys)
  {
    forall s | s in ValueSlots(hashable.entries.Keys) ensures s in ValueEntries(hashable) {
      assert s.value in hashable.entries;
    }
  }

  lemma IdentityEntriesKeys<T, V>(nonHashable: Dict<Id, (Key<T>, V)>)
    ensures IdentityEntries(nonHashable).Keys == IdentitySlots<T>(nonHashable.entries.Keys)
  {
    forall s | s in IdentitySlots<T>(nonHashable.entries.Keys) ensures s in IdentityEntries(nonHashable) {
      assert s.id in nonHashable.entries;
    }
  }

  lemma UnionKeys<X, Y>(a: map<X, Y>, b: map<X, Y>)
    ensures (a + b).Keys == a.Keys + b.Keys
  {
  }

  /** `len(m)`, the sum of the two dicts' sizes, is the number of distinct
      keys the map holds. */
  lemma EntriesOfSize<T, V>(hashable: Dict<T, V>, nonHashable: Dict<Id, (Key<T>, V)>)
    ensures |EntriesOf(hashable, nonHashable)| == |hashable.entries| + |nonHashable.entries|
  {
    ValueEntriesKeys(hashable);
    IdentityEntriesKeys<T, V>(nonHashable);
    UnionKeys(ValueEntries(hashable), IdentityEntries(nonHashable));
    StoresSize<T>(hashable.entries.Keys, nonHashable.entries.Keys);
  }

  lemma ValueViewPut<T, V>(entries: map<T, V>, k: T, v: V)
    ensures ValueView(entries[k := v]) == ValueView(entries)[ValueSlot(k) := v]
  {
    var after, expected := ValueView(entries[k := v]), ValueView(entries)[ValueSlot(k) := v];
    forall s | s in after ensures s in expected && after[s] == expected[s] {
      assert s.value in entries[k := v];
    }
    forall s | s in expected ensures s in after {
      assert s.value in entries[k := v];
    }
  }

  lemma IdentityViewPut<T, V>(entries: map<Id, (Key<T>, V)>, i: Id, x: (Key<T>, V))
    ensures IdentityView(entries[i := x]) == IdentityView(entries)[IdentitySlot(i) := x.1]
  {
    var after, expected := IdentityView(entries[i := x]), IdentityView(entries)[IdentitySlot(i) := x.1];
    forall s | s in after ensures s in expected && after[s] == expected[s] {
      assert s.id in entries[i := x];
    }
    forall s | s in expected ensures s in after {
      assert s.id in entries[i := x];
    }
  }

  lemma ValueViewRemove<T, V>(entries: map<T, V>, k: T)
    ensures ValueView(entries - {k}) == ValueView(entries) - {ValueSlot(k)}
  {
    var after, expected := ValueView(entries - {k}), ValueView(entries) - {ValueSlot(k)};
    forall s | s in after ensures s in expected && after[s] == expected[s] {
      assert s.value in entries - {k};
    }
    forall s | s in expected ensures s in after {
      assert s.value in entries - {k};
    }
  }

  lemma IdentityViewRemove<T, V>(entries: map<Id, (Key<T>, V)>, i: Id)
    ensures IdentityView(entries - {i}) == IdentityView(entries) - {IdentitySlot(i)}
  {
    var after, expected := IdentityView(entries - {i}), IdentityView(entries) - {IdentitySlot(i)};
    forall s | s in after ensures s in expected && after[s] == expected[s] {
      assert s.id in entries - {i};
    }
    forall s | s in expected ensures s in after {
      assert s.id in entries - {i};
    }
  }

  /** The value dict's entries never share a class with the identity dict's. */
  lemma EntriesDisjoint<T, V>(hashable: Dict<T, V>, nonHashable: Dict<Id, (Key<T>, V)>, s: Slot<T>)
    ensures s.ValueSlot? ==> s !in IdentityEntries(nonHashable)
    ensures s.IdentitySlot? ==> s !in ValueEntries(hashable)
  {
  }

  lemma UpdateLeft<X, Y>(a: map<X, Y>, b: map<X, Y>, x: X, y: Y)
    requires x !in b
    ensures a[x := y] + b == (a + b)[x := y]
  {
  }

  lemma UpdateRight<X, Y>(a: map<X, Y>, b: map<X, Y>, x: X, y: Y)
    ensures a + b[x := y] == (a + b)[x := y]
  {
  }

  lemma RemoveLeft<X, Y>(a: map<X, Y>, b: map<X, Y>, x: X)
    requires x !in b
    ensures (a - {x}) + b == (a + b) - {x}
  {
  }

  lemma RemoveRight<X, Y>(a: map<X, Y>, b: map<X, Y>, x: X)
    requires x !in a
    ensures a + (b - {x}) == (a + b) - {x}
  {
  }

  /** Setting a hashable key in the value dict sets its class, and only it. */
  lemma PutHashable<T, V>(hashable: Dict<T, V>, nonHashable: Dict<Id, (Key<T>, V)>, k: T, v: V)
    ensures EntriesOf(Put(hashable, k, v), nonHashable) == EntriesOf(hashable, nonHashable)[ValueSlot(k) := v]
  {
    ValueViewPut(hashable.entries, k, v);
    EntriesDisjoint(hashable, nonHashable, ValueSlot(k));
    UpdateLeft(ValueEntries(hashable), IdentityEntries(nonHashable), ValueSlot(k), v);
  }

  /** Setting an unhashable key in the identity dict sets its class, and only it. */
  lemma PutUnhashable<T, V>(hashable: Dict<T, V>, nonHashable: Dict<Id, (Key<T>, V)>, key: Key<T>, v: V)
    requires key.Unhashable?
    ensures EntriesOf(hashable, Put(nonHashable, key.id, (key, v)))
         == EntriesOf(hashable, nonHashable)[SlotOf(key) := v]
  {
    IdentityViewPut(nonHashable.entries, key.id, (key, v));
    UpdateRight(ValueEntries(hashable), IdentityEntries(nonHashable), SlotOf(key), v);
  }

  /** Deleting a hashable key from the value dict drops its class, and only it. */
  lemma RemoveHashable<T, V>(hashable: Dict<T, V>, nonHashable: Dict<Id, (Key<T>, V)>, k: T)
    ensures EntriesOf(Remove(hashable, k), nonHashable) == EntriesOf(hashable, nonHashable) - {ValueSlot(k)}
  {
    ValueViewRemove(hashable.entries, k);
    EntriesDisjoint(hashable, nonHashable, ValueSlot(k));
    RemoveLeft(ValueEntries(hashable), IdentityEntries(nonHashable), ValueSlot(k));
  }

  /** Deleting an unhashable key from the identity dict drops its class, and only it. */
  lemma RemoveUnhashable<T, V>(hashable: Dict<T, V>, nonHashable: Dict<Id, (Key<T>, V)>, i: Id)
    ensures EntriesOf(hashable, Remove(nonHashable, i)) == EntriesOf(hashable, nonHashable) - {IdentitySlot(i)}
  {
    IdentityViewRemove(nonHashable.entries, i);
    EntriesDisjoint(hashable, nonHashable, IdentitySlot(i));
    RemoveRight(ValueEntries(hashable), IdentityEntries(nonHashable), IdentitySlot(i));
  }

  /** `self._hashable.items()`, with each key as the caller handed it. */
  function HashableItems<T, V>(hashable: Dict<T, V>): seq<(Key<T>, V)>
    requires PyDict.Valid(hashable)
  {
    seq(|hashable.order|, i requires 0 <= i < |hashable.order| =>
      (Hashable(hashable.order[i]), hashable.entries[hashable.order[i]]))
  }

  /** Every `[key, value]` the map holds: the value dict's, then the identity
      dict's, each in its own insertion order. */
  function ItemsOf<T, V>(hashable: Dict<T, V>, nonHashable: Dict<Id, (Key<T>, V)>): seq<(Key<T>, V)>
    requires PyDict.Valid(hashable) && PyDict.Valid(nonHashable)
  {
    HashableItems(hashable) + Values(nonHashable)
  }

  /** A key of the value dict is a class of the map, with the dict's value. */
  lemma ValueEntryAt<T, V>(hashable: Dict<T, V>, nonHashable: Dict<Id, (Key<T>, V)>, k: T)
    requires k in hashable.entries
    ensures ValueSlot(k) in EntriesOf(hashable, nonHashable)
    ensures EntriesOf(hashable, nonHashable)[ValueSlot(k)] == hashable.entries[k]
  {
    assert ValueSlot(k) in ValueEntries(hashable);
    EntriesDisjoint(hashable, nonHashable, ValueSlot(k));
  }

  /** An id of the identity dict is a class of the map, with the stored value. */
  lemma IdentityEntryAt<T, V>(hashable: Dict<T, V>, nonHashable: Dict<Id, (Key<T>, V)>, i: Id)
    requires i in nonHashable.entries
    ensures IdentitySlot(i) in EntriesOf(hashable, nonHashable)
    ensures EntriesOf(hashable, nonHashable)[IdentitySlot(i)] == nonHashable.entries[i].1
  {
    assert IdentitySlot(i) in IdentityEntries(nonHashable);
  }

  /** Item `i` of the item list: its key's class and that class's value in the map. */
  lemma ItemAt<T, V>(hashable: Dict<T, V>, nonHashable: Dict<Id, (Key<T>, V)>, i: nat)
    requires StoresValid(hashable, nonHashable)
    requires i < |ItemsOf(hashable, nonHashable)|
    ensures var n := |hashable.order|;
            SlotOf(ItemsOf(hashable, nonHashable)[i].0)
              == if i < n then ValueSlot(hashable.order[i]) else IdentitySlot(nonHashable.order[i - n])
    ensures SlotOf(ItemsOf(hashable, nonHashable)[i].0) in EntriesOf(hashable, nonHashable)
    ensures EntriesOf(hashable, nonHashable)[SlotOf(ItemsOf(hashable, nonHashable)[i].0)]
         == ItemsOf(hashable, nonHashable)[i].1
  {
    var items, n := ItemsOf(hashable, nonHashable), |hashable.order|;
    if i < n {
      assert items[i] == HashableItems(hashable)[i];
      ValueEntryAt(hashable, nonHashable, hashable.order[i]);
    } else {
      var id := nonHashable.order[i - n];
      assert items[i] == Values(nonHashable)[i - n] == nonHashable.entries[id];
      IdentityEntryAt(hashable, nonHashable, id);
    }
  }

  /** The item list holds each of the map's keys exactly once, with its value. */
  lemma ItemsOfMatchesEntries<T, V>(hashable: Dict<T, V>, nonHashable: Dict<Id, (Key<T>, V)>)
    requires StoresValid(hashable, nonHashable)
    ensures |ItemsOf(hashable, nonHashable)| == |EntriesOf(hashable, nonHashable)|
    ensures forall i :: 0 <= i < |ItemsOf(hashable, nonHashable)| ==>
              SlotOf(ItemsOf(hashable, nonHashable)[i].0) in EntriesOf(hashable, nonHashable) &&
              EntriesOf(hashable, nonHashable)[SlotOf(ItemsOf(hashable, nonHashable)[i].0)] == ItemsOf(hashable, nonHashable)[i].1
    ensures forall i, j :: 0 <= i < j < |ItemsOf(hashable, nonHashable)| ==>
              SlotOf(ItemsOf(hashable, nonHashable)[i].0) != SlotOf(ItemsOf(hashable, nonHashable)[j].0)
  {
    var items := ItemsOf(hashable, nonHashable);
    EntriesOfSize(hashable, nonHashable);
    forall i | 0 <= i < |items|
      ensures SlotOf(items[i].0) in EntriesOf(hashable, nonHashable)
      ensures EntriesOf(hashable, nonHashable)[SlotOf(items[i].0)] == items[i].1
    {
      ItemAt(hashable, nonHashable, i);
    }
    forall i, j | 0 <= i < j < |items|
      ensures SlotOf(items[i].0) != SlotOf(items[j].0)
    {
      ItemAt(hashable, nonHashable, i);
      ItemAt(hashable, nonHashable, j);
    }
  }

  /** `f"{k!r}: {v!r}"` for one item. */
  function EntryText<T, V>(item: (Key<T>, V), keyRepr: Key<T> -> string, valueRepr: V -> string): string
  {
    keyRepr(item.0) + ": " + valueRepr(item.1)
  }

  /** The entry texts of a run of items. */
  function Texts<T, V>(items: seq<(Key<T>, V)>, keyRepr: Key<T> -> string, valueRepr: V -> string): seq<string>
  {
    seq(|items|, i requires 0 <= i < |items| => EntryText(items[i], keyRepr, valueRepr))
  }

  /** The texts of two runs of items, one after the other, are the texts of
      the runs joined. */
  lemma TextsAppend<T, V>(a: seq<(Key<T>, V)>, b: seq<(Key<T>, V)>, keyRepr: Key<T> -> string, valueRepr: V -> string)
    ensures Texts(a + b, keyRepr, valueRepr) == Texts(a, keyRepr, valueRepr) + Texts(b, keyRepr, valueRepr)
  {
  }

  /** The map's repr: the entries' texts, comma-joined, between braces. */
  function MapText<T, V>(items: seq<(Key<T>, V)>, keyRepr: Key<T> -> string, valueRepr: V -> string): string
  {
    "{" + Text.Join(Texts(items, keyRepr, valueRepr), ", ") + "}"
  }

  /** When both dicts hold entries, the repr shows all of the value dict's
      entries, a separator, then all of the identity dict's. */
  lemma MapTextStoresInOrder<T, V>(hashable: Dict<T, V>, nonHashable: Dict<Id, (Key<T>, V)>,
                                   keyRepr: Key<T> -> string, valueRepr: V -> string)
    requires PyDict.Valid(hashable) && PyDict.Valid(nonHashable)
    requires |hashable.order| > 0 && |nonHashable.order| > 0
    ensures MapText(ItemsOf(hashable, nonHashable), keyRepr, valueRepr)
         == "{" + Text.Join(Texts(HashableItems(hashable), keyRepr, valueRepr), ", ") + ", "
                + Text.Join(Texts(Values(nonHashable), keyRepr, valueRepr), ", ") + "}"
  {
    var a, b := HashableItems(hashable), Values(nonHashable);
    TextsAppend(a, b, keyRepr, valueRepr);
    Text.JoinAppend(Texts(a, keyRepr, valueRepr), Texts(b, keyRepr, valueRepr), ", ");
  }

  /** A map with no entries shows as `{}`. */
  lemma EmptyMapText<T, V>(hashable: Dict<T, V>, nonHashable: Dict<Id, (Key<T>, V)>,
                           keyRepr: Key<T> -> string, valueRepr: V -> string)
    requires PyDict.Valid(hashable) && PyDict.Valid(nonHashable)
    requires |hashable.entries| + |nonHashable.entries| == 0
    ensures MapText(ItemsOf(hashable, nonHashable), keyRepr, valueRepr) == "{}"
  {
    assert |ItemsOf(hashable, nonHashable)| == 0;
  }

  /** One `for k, v in ...: items.append(f"{k!r}: {v!r}")` loop of `__repr__`. */
  method AppendTexts<T, V>(parts: seq<string>, items: seq<(Key<T>, V)>, keyRepr: Key<T> -> string, valueRepr: V -> string)
    returns (out: seq<string>)
    ensures out == parts + Texts(items, keyRepr, valueRepr)
  {
    out := parts;
    var i := 0;
    while i < |items|
      invariant 0 <= i <= |items|
      invariant out == parts + Texts(items[..i], keyRepr, valueRepr)
    {
      var (k, v) := items[i];
      assert items[..i + 1] == items[..i] + [items[i]];
      TextsAppend(items[..i], [items[i]], keyRepr, valueRepr);
      out := out + [keyRepr(k) + ": " + valueRepr(v)];
      i := i + 1;
    }
    assert items[..i] == items;
  }

  class Map<T(==), V> {
    /** For hashable keys: key -> value. */
    var hashable: Dict<T, V>
    /** For unhashable keys: id(key) -> (key, value). */
    var nonHashable: Dict<Id, (Key<T>, V)>

    ghost predicate Valid()
      reads this
    {
      StoresValid(hashable, nonHashable)
    }

    /** Each key's sameness class mapped to its value. */
    function Entries(): map<Slot<T>, V>
      reads this
    {
      EntriesOf(hashable, nonHashable)
    }

    constructor ()
      ensures Valid()
      ensures Entries() == map[] && Len() == 0
    {
      hashable := Empty();
      nonHashable := Empty();
    }

    /** `m[key] = value` */
    method SetItem(key: Key<T>, value: V)
      requires Valid()
      modifies this
      ensures Valid()
      ensures Entries() == old(Entries())[SlotOf(key) := value]
      ensures Len() == old(Len()) + (if SlotOf(key) in old(Entries()) then 0 else 1)
      ensures key.Hashable? ==> hashable == Put(old(hashable), key.value, value) && nonHashable == old(nonHashable)
      ensures key.Unhashable? ==> nonHashable == Put(old(nonHashable), key.id, (key, value)) && hashable == old(hashable)
    {
      if key.Hashable? {
        PutHashable(hashable, nonHashable, key.value, value);
        hashable := Put(hashable, key.value, value);
      } else {
        PutUnhashable(hashable, nonHashable, key, value);
        nonHashable := Put(nonHashable, key.id, (key, value));
      }
    }

    /** `m[key]`: looks only in the store the key's hashability selects. */
    function GetItem(key: Key<T>): (r: Result<V, T>)
      reads this
      ensures r.Ok? <==> SlotOf(key) in Entries()
      ensures r.Ok? ==> r.value == Entries()[SlotOf(key)]
      ensures r.Raised? ==> r.error == KeyError(key)
      ensures key.Hashable? ==> (r.Ok? <==> key.value in hashable.entries)
      ensures key.Unhashable? ==> (r.Ok? <==> key.id in nonHashable.entries)
    {
      if key.Hashable? then
        if key.value in hashable.entries then Ok(hashable.entries[key.value]) else Raised(KeyError(key))
      else
        if key.id !in nonHashable.entries then Raised(KeyError(key)) else Ok(nonHashable.entries[key.id].1)
    }

    /** `del m[key]` */
    method DelItem(key: Key<T>) returns (r: Result<(), T>)
      requires Valid()
      modifies this
      ensures Valid()
      ensures r.Raised? <==> SlotOf(key) !in old(Entries())
      ensures r.Raised? <==> if key.Hashable? then key.value !in old(hashable.entries) else key.id !in old(nonHashable.entries)
      ensures r.Raised? ==> r.error == KeyError(key) && hashable == old(hashable) && nonHashable == old(nonHashable)
      ensures r.Ok? ==> Entries() == old(Entries()) - {SlotOf(key)} && Len() + 1 == old(Len())
      ensures r.Ok? && key.Hashable? ==> hashable == Remove(old(hashable), key.value) && nonHashable == old(nonHashable)
      ensures r.Ok? && key.Unhashable? ==> nonHashable == Remove(old(nonHashable), key.id) && hashable == old(hashable)
    {
      ghost var before := Entries();
      if key.Hashable? {
        if key.value in hashable.entries {
          ValueEntryAt(hashable, nonHashable, key.value);
          RemoveHashable(hashable, nonHashable, key.value);
          hashable := Remove(hashable, key.value);
          assert Entries() == before - {SlotOf(key)};
          r := Ok(());
        } else {
          EntriesDisjoint(hashable, nonHashable, SlotOf(key));
          r := Raised(KeyError(key));
        }
      } else {
        if key.id !in nonHashable.entries {
          EntriesDisjoint(hashable, nonHashable, SlotOf(key));
          r := Raised(KeyError(key));
        } else {
          IdentityEntryAt(hashable, nonHashable, key.id);
          RemoveUnhashable(hashable, nonHashable, key.id);
          nonHashable := Remove(nonHashable, key.id);
          assert Entries() == before - {SlotOf(key)};
          r := Ok(());
        }
      }
    }

    /** `key in m` */
    function Contains(key: Key<T>): (b: bool)
      reads this
      ensures b <==> SlotOf(key) in Entries()
    {
      if key.Hashable? then key.value in hashable.entries else key.id in nonHashable.entries
    }

    /** `len(m)` */
    function Len(): (n: nat)
      reads this
      ensures n == |Entries()|
    {
      EntriesOfSize(hashable, nonHashable);
      |hashable.entries| + |nonHashable.entries|
    }

    /** `m.get(key, default)`: the key's value, or `default`; never raises. */
    function Get(key: Key<T>, default: V): (r: V)
      reads this
      ensures SlotOf(key) in Entries() ==> r == Entries()[SlotOf(key)]
      ensures SlotOf(key) !in Entries() ==> r == default
    {
      match GetItem(key)
      case Ok(v) => v
      case Raised(_) => default
    }

    /** `m.items()`: the value dict's items, then the identity dict's. */
    function Items(): (items: seq<(Key<T>, V)>)
      reads this
      requires Valid()
      ensures |items| == Len()
      ensures forall i :: 0 <= i < |items| ==>
                SlotOf(items[i].0) in Entries() && Entries()[SlotOf(items[i].0)] == items[i].1
      ensures forall i, j :: 0 <= i < j < |items| ==> SlotOf(items[i].0) != SlotOf(items[j].0)
      ensures forall i :: 0 <= i < |items| ==> (items[i].0.Hashable? <==> i < |hashable.entries|)
    {
      ItemsOfMatchesEntries(hashable, nonHashable);
      ItemsOf(hashable, nonHashable)
    }

    /** `m.keys()` */
    function Keys(): (keys: seq<Key<T>>)
      reads this
      requires Valid()
      ensures |keys| == |ItemsOf(hashable, nonHashable)|
      ensures forall i :: 0 <= i < |keys| ==> keys[i] == ItemsOf(hashable, nonHashable)[i].0
    {
      var order, stored := hashable.order, PyDict.Values(nonHashable);
      seq(|order|, i requires 0 <= i < |order| => Hashable(order[i]))
        + seq(|stored|, i requires 0 <= i < |stored| => stored[i].0)
    }

    /** `m.values()` */
    function Values(): (values: seq<V>)
      reads this
      requires Valid()
      ensures |values| == |ItemsOf(hashable, nonHashable)|
      ensures forall i :: 0 <= i < |values| ==> values[i] == ItemsOf(hashable, nonHashable)[i].1
    {
      var stored := PyDict.Values(nonHashable);
      PyDict.Values(hashable) + seq(|stored|, i requires 0 <= i < |stored| => stored[i].1)
    }

    /** `repr(m)`, rendering keys and values with the given reprs. */
    method Repr(keyRepr: Key<T> -> string, valueRepr: V -> string) returns (s: string)
      requires Valid()
      ensures s == MapText(ItemsOf(hashable, nonHashable), keyRepr, valueRepr)
      ensures Len() == 0 ==> s == "{}"
    {
      var parts := AppendTexts([], HashableItems(hashable), keyRepr, valueRepr);
      parts := AppendTexts(parts, PyDict.Values(nonHashable), keyRepr, valueRepr);
      TextsAppend(HashableItems(hashable), PyDict.Values(nonHashable), keyRepr, valueRepr);
      assert parts == Texts(ItemsOf(hashable, nonHashable), keyRepr, valueRepr);
      if |hashable.entries| + |nonHashable.entries| == 0 {
        EmptyMapText(hashable, nonHashable, keyRepr, valueRepr);
      }
      s := "{" + Text.Join(parts, ", ") + "}";
    }
  }

  /** `keys()`, `values()` and `items()` are as long as the map, and the i-th
      key and value are the two halves of the i-th item. */
  lemma ListingsAgree<T, V>(m: Map<T, V>)
    requires m.Valid()
    ensures |m.Keys()| == |m.Values()| == |m.Items()| == m.Len()
    ensures forall i :: 0 <= i < |m.Items()| ==> m.Items()[i] == (m.Keys()[i], m.Values()[i])
  {
  }
}
