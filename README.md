# Hybrid Map and Set, and Symbol

A Dafny model of the hybrid containers of `python-ds`: a `Map` (a dictionary)
and a `Set` that accept both hashable and unhashable keys, and the `Symbol`
identity token.

Every operation first classifies its key or item by whether `hash(x)`
succeeds, then goes to exactly one of two stores:

- a **value store** for hashable keys, where two equal values are the same key
  (a dict in `Map`, a set in `Set`);
- an **identity store** for unhashable keys, a dict keyed by `id(x)`, where
  only the same object is the same key, whatever its contents. In `Map` it
  holds `[key, value]`; in `Set` it holds the item.

The model is laid out as follows:

- **Keys** (`keys.dfy`):
  - A key is `Hashable(value)` or `Unhashable(id, contents)`. The `try: hash(x)
    except TypeError` test is the choice of constructor.
  - The *slot* of a key is its sameness class: its value, or its id.
  - What callers see of a container is stated over slots:
    - `Map.Entries()` maps each slot to its value;
    - `Set.Members()` is the set of slots held.
- **Python dict** (`py_dict.dfy`): an insertion-ordered dict, with `d[k] = v`,
  `del d[k]` / `d.pop(k, None)` and `d.values()`.
- **Map** (`hybrid_map.dfy`): a class whose two dict fields the methods
  reassign.
  - `keys()`, `values()`, `items()` and `repr` list the value dict's entries
    first, then the identity dict's.
- **Set** (`hybrid_set.dfy`): a class with a `set` field and a dict field.
  - The constructor is a loop of `add`, proved equal to the pure fold
    `Collected`.
  - Iteration picks the value set's order nondeterministically, since Python
    leaves it unspecified.
- **Symbol** (`symbol.dfy`): a value carrying the identity `id(self)` and a
  description, which may be any object or `None`. Its truth value and repr
  are function parameters.
- **Scenarios** (`scenarios.dfy`): round trips and worked examples.

`Map.py` is mis-indented: its methods sit at module level under a `class Map:`
whose body is only a comment. The model is the evidently intended class with
those methods.

`Symbol` defines `__hash__` and `__eq__`, so a `Symbol` goes to the value
store. There keys are compared with `==` on the whole Symbol value, which
agrees with `__eq__` because one id belongs to one object with one
description (`Symbols.EqualsIsKeyEquality`).

`Set([1, 2, 1, s1, s2])` has four members: only the repeated `1` collapses.

## Model

| member | source | states |
|---|---|---|
| Keys.SameSlot | Map.py:9-18 | two hashable keys are one key iff their values are equal; two unhashable keys are one key iff they have the same id; a hashable key and an unhashable key are never the same key |
| Keys.DistinctObjectsDistinctSlots | Set.py:17-19 | two distinct unhashable objects with equal contents stay two keys |
| Keys.StoresSize | Map.py:53-55 | the two stores never share a key, so the number of keys held is the sum of the two store sizes |
| Keys.ValueSlotsSize | Set.py:49-51 | a value store of n values holds n distinct keys |
| Keys.IdentitySlotsSize | Set.py:49-51 | an identity store of n ids holds n distinct keys |
| PyDict.Put | Map.py:14 | `d[k] = v` sets k to v; the size grows by one exactly when k is new; an existing key keeps its place and a new key goes last; the dict stays well formed |
| PyDict.Remove | Map.py:42 | `del d[k]` takes out k and only k; the size shrinks by one exactly when k was there; the order stays repetition-free |
| PyDict.RemoveKeepsOrder | Map.py:42 | after `del d[k]` the other keys keep their insertion order: the order loses exactly the place where k stood, and is unchanged when k is absent |
| PyDict.WithoutAt | Set.py:28 | taking the element at place p out of a repetition-free order leaves the elements before and after it in order |
| PyDict.WithoutDistinct | Set.py:28 | taking a key out of a repetition-free order keeps it repetition-free and shortens it by one when the key was there |
| PyDict.RemoveIdempotent | Set.py:28 | `d.pop(k, None)` twice leaves the dict as once |
| PyDict.Values | Map.py:62 | `d.values()` has one value per key, in insertion order |
| PyDict.DistinctCovers | Set.py:53-56 | a repetition-free run drawn from a set of the same size lists the whole set |
| Text.JoinAppend | Map.py:64 | joining two non-empty runs is joining each, with one separator between them |
| HybridMap.EntriesOfSize | Map.py:53-55 | the sum of the two dicts' sizes is the number of distinct keys in the map |
| HybridMap.PutHashable | Map.py:14 | setting a hashable key in the value dict changes that key's entry and no other |
| HybridMap.PutUnhashable | Map.py:17-18 | filing `[key, value]` under `id(key)` changes that key's entry and no other |
| HybridMap.RemoveHashable | Map.py:36 | deleting a hashable key from the value dict drops that key's entry and no other |
| HybridMap.RemoveUnhashable | Map.py:39-42 | deleting an id from the identity dict drops that key's entry and no other |
| HybridMap.ItemsOfMatchesEntries | Map.py:85-89 | the item list holds each key of the map exactly once, with its value |
| HybridMap.ItemAt | Map.py:85-89 | item i is the i-th entry of the value dict, or, past those, the entry of the identity dict at position i minus the value dict's size |
| HybridMap.MapTextStoresInOrder | Map.py:57-64 | the repr shows all of the value dict's entries, then one separator, then all of the identity dict's entries |
| HybridMap.EmptyMapText | Map.py:57-64 | a map with no entries shows as `{}` |
| HybridMap.AppendTexts | Map.py:60-63 | one `append` loop adds the `k: v` text of each item, in order, after what was there |
| HybridMap.ListingsAgree | Map.py:73-89 | `keys()`, `values()` and `items()` each have `len(m)` elements, and the i-th key and value are the components of the i-th item |
| HybridMap.Map.constructor | Map.py:5-7 | a new map has no entries and length 0 |
| HybridMap.Map.SetItem | Map.py:9-18 | the key's entry becomes `value` and every other entry is unchanged; the length grows by one exactly when the key was absent; only the store its hashability selects changes |
| HybridMap.Map.GetItem | Map.py:20-30 | returns the key's value iff the key is present, else raises KeyError(key); presence is decided by the selected store alone |
| HybridMap.Map.DelItem | Map.py:32-42 | raises KeyError(key) iff the key is absent from its store, and then changes nothing; otherwise it drops exactly that key's entry, the length drops by one, and the other store is unchanged |
| HybridMap.Map.Contains | Map.py:44-51 | `key in m` iff the key has an entry |
| HybridMap.Map.Len | Map.py:53-55 | `len(m)` is the number of distinct keys held |
| HybridMap.Map.Get | Map.py:66-71 | the key's value when present, otherwise the default; it never raises |
| HybridMap.Map.Items | Map.py:85-89 | `len(m)` items, each a key with its value in the map, no key twice, hashable keys exactly at the first positions |
| HybridMap.Map.Keys | Map.py:73-77 | the keys of `items()`, in the same order |
| HybridMap.Map.Values | Map.py:79-83 | the values of `items()`, in the same order |
| HybridMap.Map.Repr | Map.py:57-64 | `{` + the `k: v` texts of the items joined by `, ` + `}`, hashable entries first; `{}` for an empty map |
| HybridSet.MembersOfSize | Set.py:49-51 | the sum of the two stores' sizes is the number of distinct members |
| HybridSet.MemberRouting | Set.py:41-47 | an item is a member iff the store its hashability selects holds it |
| HybridSet.AddTo | Set.py:12-19 | `add` on the stores: a hashable item's value joins the value set and the identity dict is untouched; an unhashable item is filed under its own id and the value set is untouched |
| HybridSet.DiscardFrom | Set.py:21-28 | `discard` on the stores: a hashable item's value leaves the value set, an unhashable item's id leaves the identity dict, and the other store is untouched |
| HybridSet.Collected | Set.py:4-10 | `Set(items)` on the stores, empty stores then `add` per item in order: every value held comes from a hashable item of the run, and every object held is one of the run's items |
| HybridSet.AddToMembers | Set.py:12-19 | `add` keeps the stores well formed and adds the item's class, and only it |
| HybridSet.AddToContains | Set.py:12-19 | after `add(x)`, `x in s`; adding a present item leaves `len` unchanged, and adding an absent one raises it by one |
| HybridSet.DiscardFromMembers | Set.py:21-28 | `discard` keeps the stores well formed and drops the item's class, and only it |
| HybridSet.DiscardIdempotent | Set.py:21-28 | two `discard(x)` give the same stores as one |
| HybridSet.CollectedSnoc | Set.py:8-10 | building from a run plus one more item is `add` of that item after building from the run |
| HybridSet.CollectedMembers | Set.py:4-10 | `Set(items)` holds exactly the classes of the items |
| HybridSet.CollectedAllHashable | Set.py:4-10 | `Set(items)` of hashable items holds the set of their values, with repeats collapsed, and an empty identity store |
| HybridSet.CollectedSize | Set.py:4-10 | `Set(items)` never holds more members than there are items |
| HybridSet.CollectedPair | Set.py:4-10 | two items of the same class collapse into one member; two distinct objects stay two members, whatever their contents |
| HybridSet.SlotsOfListed | Set.py:8-10 | every class in `Set(items)` is the class of one of the items |
| HybridSet.IterationCoversMembers | Set.py:53-56 | iteration yields `len(s)` items, each a member, no class twice, and every member |
| HybridSet.NonEmptySetText | Set.py:58-64 | a non-empty set's repr starts with `{`, never `Set()` |
| HybridSet.Set.constructor | Set.py:4-10 | the stores are those of starting empty and calling `add` on each item in order; the members are exactly the items' classes; `Set()` is empty |
| HybridSet.Set.Add | Set.py:12-19 | the item's class becomes a member and nothing else changes |
| HybridSet.Set.Discard | Set.py:21-28 | never raises; the item's class stops being a member and nothing else changes |
| HybridSet.Set.Remove | Set.py:30-39 | raises KeyError(item) iff the item is absent, and then changes nothing; otherwise it acts as `discard` and `len` drops by one |
| HybridSet.Set.Contains | Set.py:41-47 | `x in s` iff x's class is a member |
| HybridSet.Set.Len | Set.py:49-51 | `len(s)` is the number of distinct members |
| HybridSet.Set.Iterate | Set.py:53-56 | yields each value of the value set once, in some order, then the identity store's items in insertion order |
| HybridSet.Set.Repr | Set.py:58-64 | `Set()` iff the set is empty; otherwise `{` + the item reprs in an iteration order, joined by `, `, + `}` |
| HybridSet.Set.Clear | Set.py:66-69 | afterwards nothing is a member and `len(s) == 0` |
| HybridSet.Set.Copy | Set.py:71-76 | a new set with the same stores and members as the original |
| Symbols.Equals | Symbol.py:12-13 | true iff the other operand is a Symbol with the same id; equal Symbols have equal hashes |
| Symbols.Hash | Symbol.py:9-10 | the Symbol's id, a non-negative number |
| Symbols.EqualsIsKeyEquality | Symbol.py:12-13 | when one id has one description, `a == b` by `__eq__` iff a and b are the same Symbol value, the equality the value store uses; `__eq__` is false against any non-Symbol |
| Symbols.EqualsIsEquivalence | Symbol.py:12-13 | equality between Symbols is reflexive, symmetric and transitive |
| Symbols.HashAgreesWithEquals | Symbol.py:9-13 | `hash(s)` is s's id, so equal Symbols hash alike |
| Symbols.DistinctInstancesUnequal | Symbol.py:2-4 | two distinct instances are unequal, even with the same description |
| Symbols.Repr | Symbol.py:6-7 | `Symbol()` when the description is `None` or falsy; otherwise `Symbol(` + the description's repr + `)`, which differs from `Symbol()` when that repr is not empty |
| Scenarios.SetThenGet | Map.py:9-30 | after `m[k] = v`, `m[k]` is v and `k in m` holds, for either kind of key |
| Scenarios.DeleteThenGet | Map.py:32-51 | after `del m[k]`, `k` is not in m and `m[k]` raises KeyError |
| Scenarios.FourKeys | Map.py:9-30 | `"a"`, `"b"` and two Symbols give a map of length 4, with `m["a"] == 1`, `m[s1] == 3` and `s2 in m` |
| Scenarios.MapWithSymbols | Map.py:9-55 | length 4, then 3 after `del m[s1]`, after which `m[s1]` raises KeyError |
| Scenarios.ThreeKeys | Map.py:9-18 | two distinct unhashable objects with equal contents are filed under their own ids, in order |
| Scenarios.MapWithUnhashableKeys | Map.py:53-89 | that map has length 3, and `items()` lists the hashable key first, then the two objects in insertion order |
| Scenarios.FiveItemsCollected | Set.py:4-19 | building from `1, 2, 1, s1, s2` gives the value set `{1, 2, s1, s2}` |
| Scenarios.SetWithDuplicates | Set.py:4-51 | `len(Set([1, 2, 1, s1, s2])) == 4` |
| Scenarios.AddThenDiscard | Set.py:12-47 | `add(x)` makes `x in s` true, and a following `discard(x)` makes it false |
| Scenarios.ClearThenContains | Set.py:41-69 | after `clear()`, no x is in s and `len(s) == 0` |
| Scenarios.CopyThenAdd | Set.py:71-76 | adding to a copy leaves the original's members unchanged; the copy holds the original's members plus the item |
| Scenarios.CopyThenAddToOriginal | Set.py:71-76 | adding to the original after a copy leaves the copy's members unchanged |

## Left out

- `fetch.py`: it does network I/O and is not part of this model.
- Python's real `hash()` values and `id()` addresses. Hashability is fixed by the key's constructor, and an identity is an abstract `nat`. Reuse of an `id` after garbage collection is not modelled.
- The `except TypeError` control flow is modelled as a branch on the key's constructor. This leaves out a hashable key whose own `__eq__` raises `TypeError` and so falls into the identity branch.
- Mutating a key object after it was inserted is not modelled. A key's value and contents are fixed.
- The repr of keys, values and items is taken as a function parameter, so only the separators, braces and empty cases are modelled.
- `HybridSet.Set.Iterate`: it does not fix the order of the value set's items, because Python leaves that order unspecified. Only "value set first, then identity store in insertion order" and the counts are stated.
- `HybridSet.Set.Iterate`: it returns the whole sequence, not a lazy generator, so interleaving iteration with mutation is not modelled.
- `Symbols.Repr`: the truth value and repr of a description are function parameters, so Python's rules for them (`0`, `''`, `[]` are false; the quoting of strings) are not modelled.
- `Keys.Key`: a hashable key is its value. When a key equal to a stored one but a different object is set or added (`1`, `1.0`, `True`), Python keeps the first-inserted key object, and `keys()`, `items()` and repr show that object. The model cannot tell such objects apart.
- `HybridMap.Map.Get`: the default is a parameter the caller passes; Python's `default=None` is `Get(key, None)` with values of an `Option` type.
- `HybridMap.Map.Items`: for identity-store entries Python hands out the stored `[key, value]` lists themselves. The model gives pairs, so it does not capture that those items are lists rather than tuples (so `items()[i] == (keys()[i], values()[i])` is false for them in Python), nor that changing such a list changes the map.
- `Symbols.Symbol`: a `Symbol` takes its identity as a field. Creating one does not allocate a fresh id, so uniqueness is stated as the precondition `a.id != b.id` of `Symbols.DistinctInstancesUnequal`.
- `HybridSet.Set.Copy`: the copy shares no mutable state with the original, because the stores are values. The aliasing that `dict.copy()`/`set.copy()` avoid is not modelled beyond that.
