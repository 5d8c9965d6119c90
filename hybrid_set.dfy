/** The hybrid Set: a set that accepts hashable and unhashable items.
    A hashable item lives in a value-equality set; an unhashable one lives in
    an identity dict that keeps the item under its id. */
module HybridSet {
  import opened Keys
  import opened PyDict
  import Text

  /** The identity dict is well formed and files each item under its own id. */
  ghost predicate StoresValid<T>(hashable: set<T>, nonHashable: Dict<Id, Key<T>>)
  {
    && PyDict.Valid(nonHashable)
    && forall i :: i in nonHashable.entries ==>
         nonHashable.entries[i].Unhashable? && nonHashable.entries[i].id == i
  }

  /** The set as its callers see it: the sameness classes of the items held. */
  function MembersOf<T(==)>(hashable: set<T>, nonHashable: Dict<Id, Key<T>>): set<Slot<T>>
  {
    ValueSlots(hashable) + IdentitySlots(nonHashable.entries.Keys)
  }

  /** `len(s)`, the sum of the two stores' sizes, is the number of distinct
      items the set holds. */
  lemma MembersOfSize<T>(hashable: set<T>, nonHashable: Dict<Id, Key<T>>)
    ensures |MembersOf(hashable, nonHashable)| == |hashable| + |nonHashable.entries|
  {
    StoresSize<T>(hashable, nonHashable.entries.Keys);
  }

  /** An item is a member exactly when the store its hashability selects
      holds it. */
  lemma MemberRouting<T>(hashable: set<T>, nonHashable: Dict<Id, Key<T>>, item: Key<T>)
    ensures item.Hashable? ==> (SlotOf(item) in MembersOf(hashable, nonHashable) <==> item.value in hashable)
    ensures item.Unhashable? ==> (SlotOf(item) in MembersOf(hashable, nonHashable) <==> item.id in nonHashable.entries)
  {
    match item
    case Hashable(v) =>
      ValueSlotsHas(hashable, v, 0);
      IdentitySlotsHas<T>(nonHashable.entries.Keys, 0, v);
    case Unhashable(i, c) =>
      ValueSlotsHas(hashable, c, i);
      IdentitySlotsHas<T>(nonHashable.entries.Keys, i, c);
  }

  /** Adding a hashable item to the value set adds its class, and only it. */
  lemma AddHashable<T>(hashable: set<T>, nonHashable: Dict<Id, Key<T>>, v: T)
    ensures MembersOf(hashable + {v}, nonHashable) == MembersOf(hashable, nonHashable) + {ValueSlot(v)}
  {
    ValueSlotsInsert(hashable, v);
  }

  /** Filing an unhashable item in the identity dict adds its class, and only it. */
  lemma AddUnhashable<T>(hashable: set<T>, nonHashable: Dict<Id, Key<T>>, item: Key<T>)
    requires item.Unhashable?
    ensures MembersOf(hashable, Put(nonHashable, item.id, item)) == MembersOf(hashable, nonHashable) + {SlotOf(item)}
  {
    assert Put(nonHashable, item.id, item).entries.Keys == nonHashable.entries.Keys + {item.id};
    IdentitySlotsInsert<T>(nonHashable.entries.Keys, item.id);
  }

  /** Discarding a hashable item from the value set drops its class, and only it. */
  lemma DiscardHashable<T>(hashable: set<T>, nonHashable: Dict<Id, Key<T>>, v: T)
    ensures MembersOf(hashable - {v}, nonHashable) == MembersOf(hashable, nonHashable) - {ValueSlot(v)}
  {
    ValueSlotsDelete(hashable, v);
    IdentitySlotsHas<T>(nonHashable.entries.Keys, 0, v);
  }

  /** Popping an id from the identity dict drops its class, and only it. */
  lemma DiscardUnhashable<T>(hashable: set<T>, nonHashable: Dict<Id, Key<T>>, i: Id)
    ensures MembersOf(hashable, Remove(nonHashable, i)) == MembersOf(hashable, nonHashable) - {IdentitySlot(i)}
  {
    assert Remove(nonHashable, i).entries.Keys == nonHashable.entries.Keys - {i};
    IdentitySlotsDelete<T>(nonHashable.entries.Keys, i);
    forall v: T ensures ValueSlot(v) in ValueSlots(hashable) ==> ValueSlot(v) != IdentitySlot(i) {
    }
  }

  /** The classes of a run of items. */
  ghost function SlotsOf<T>(items: seq<Key<T>>): (r: set<Slot<T>>)
    ensures forall j :: 0 <= j < |items| ==> SlotOf(items[j]) in r
    ensures |r| <= |items|
  {
    if items == [] then {}
    else
      var init := items[..|items| - 1];
      var r := SlotsOf(init) + {SlotOf(items[|items| - 1])};
      assert forall j :: 0 <= j < |init| ==> items[j] == init[j];
      r
  }

  /** Every class of a run of items is the class of one of its items. */
  lemma {:induction false} SlotsOfListed<T>(items: seq<Key<T>>, s: Slot<T>)
    requires s in SlotsOf(items)
    ensures exists j :: 0 <= j < |items| && SlotOf(items[j]) == s
  {
    var init := items[..|items| - 1];
    if s != SlotOf(items[|items| - 1]) {
      SlotsOfListed(init, s);
      var j :| 0 <= j < |init| && SlotOf(init[j]) == s;
      assert items[j] == init[j];
    }
  }

  /** Taking one more item adds that item's class. */
  lemma SlotsOfSnoc<T>(items: seq<Key<T>>, i: nat)
    requires i < |items|
    ensures SlotsOf(items[..i + 1]) == SlotsOf(items[..i]) + {SlotOf(items[i])}
  {
    assert items[..i + 1][..i] == items[..i];
  }

  /** The contents of the two stores. */
  datatype Stores<T> = Stores(hashable: set<T>, nonHashable: Dict<Id, Key<T>>)

  /** What `add(item)` does to the stores: a hashable item joins the value
      set, an unhashable one is filed in the identity dict under its id. */
  ghost function AddTo<T>(st: Stores<T>, item: Key<T>): (r: Stores<T>)
    ensures item.Hashable? ==> item.value in r.hashable && r.nonHashable == st.nonHashable
    ensures item.Unhashable? ==>
              && item.id in r.nonHashable.entries && r.nonHashable.entries[item.id] == item
              && r.hashable == st.hashable
  {
    if item.Hashable? then Stores(st.hashable + {item.value}, st.nonHashable)
    else Stores(st.hashable, Put(st.nonHashable, item.id, item))
  }

  /** Adding an item keeps the stores well formed and adds the item's class,
      and only it. */
  lemma AddToMembers<T>(st: Stores<T>, item: Key<T>)
    requires StoresValid(st.hashable, st.nonHashable)
    ensures StoresValid(AddTo(st, item).hashable, AddTo(st, item).nonHashable)
    ensures MembersOf(AddTo(st, item).hashable, AddTo(st, item).nonHashable)
         == MembersOf(st.hashable, st.nonHashable) + {SlotOf(item)}
  {
    if item.Hashable? {
      AddHashable(st.hashable, st.nonHashable, item.value);
    } else {
      AddUnhashable(st.hashable, st.nonHashable, item);
    }
  }

  /** What `discard(item)` does to the stores: a hashable item leaves the
      value set, an unhashable one's id is popped from the identity dict. */
  ghost function DiscardFrom<T>(st: Stores<T>, item: Key<T>): (r: Stores<T>)
    ensures item.Hashable? ==> item.value !in r.hashable && r.nonHashable == st.nonHashable
    ensures item.Unhashable? ==> item.id !in r.nonHashable.entries && r.hashable == st.hashable
  {
    if item.Hashable? then Stores(st.hashable - {item.value}, st.nonHashable)
    else Stores(st.hashable, Remove(st.nonHashable, item.id))
  }

  /** Discarding an item keeps the stores well formed and drops the item's
      class, and only it. */
  lemma DiscardFromMembers<T>(st: Stores<T>, item: Key<T>)
    requires StoresValid(st.hashable, st.nonHashable)
    ensures StoresValid(DiscardFrom(st, item).hashable, DiscardFrom(st, item).nonHashable)
    ensures MembersOf(DiscardFrom(st, item).hashable, DiscardFrom(st, item).nonHashable)
         == MembersOf(st.hashable, st.nonHashable) - {SlotOf(item)}
  {
    if item.Hashable? {
      DiscardHashable(st.hashable, st.nonHashable, item.value);
    } else {
      DiscardUnhashable(st.hashable, st.nonHashable, item.id);
    }
  }

  /** Discarding twice leaves the stores as discarding once. */
  lemma DiscardIdempotent<T>(st: Stores<T>, item: Key<T>)
    ensures DiscardFrom(DiscardFrom(st, item), item) == DiscardFrom(st, item)
  {
    if item.Unhashable? {
      RemoveIdempotent(st.nonHashable, item.id);
    } else {
      assert st.hashable - {item.value} - {item.value} == st.hashable - {item.value};
    }
  }

  /** Adding an item makes it a member whatever the stores held, and adding an
      item of a class already held leaves the number of members unchanged. */
  lemma AddToContains<T>(st: Stores<T>, item: Key<T>)
    requires StoresValid(st.hashable, st.nonHashable)
    ensures SlotOf(item) in MembersOf(AddTo(st, item).hashable, AddTo(st, item).nonHashable)
    ensures SlotOf(item) in MembersOf(st.hashable, st.nonHashable) ==>
              |MembersOf(AddTo(st, item).hashable, AddTo(st, item).nonHashable)| == |MembersOf(st.hashable, st.nonHashable)|
    ensures SlotOf(item) !in MembersOf(st.hashable, st.nonHashable) ==>
              |MembersOf(AddTo(st, item).hashable, AddTo(st, item).nonHashable)| == |MembersOf(st.hashable, st.nonHashable)| + 1
  {
    AddToMembers(st, item);
    var before := MembersOf(st.hashable, st.nonHashable);
    if SlotOf(item) in before {
      assert before + {SlotOf(item)} == before;
    } else {
      assert |before + {SlotOf(item)}| == |before| + 1;
    }
  }

  /** The stores of `Set(items)`: empty stores, then `add` for each item in
      order. */
  ghost function Collected<T>(items: seq<Key<T>>): (r: Stores<T>)
    ensures forall v :: v in r.hashable ==> Hashable(v) in items
    ensures forall i :: i in r.nonHashable.entries ==> r.nonHashable.entries[i] in items
  {
    if items == [] then Stores({}, Empty())
    else
      var init := items[..|items| - 1];
      assert forall k :: k in init ==> k in items;
      AddTo(Collected(init), items[|items| - 1])
  }

  /** Collecting one more item adds it to what the items before it left. */
  lemma CollectedSnoc<T>(items: seq<Key<T>>, item: Key<T>)
    ensures Collected(items + [item]) == AddTo(Collected(items), item)
  {
    assert (items + [item])[..|items|] == items;
  }

  /** A run of hashable items is collected into the set of their values,
      repeats collapsing, and leaves the identity dict empty. */
  lemma {:induction false} CollectedAllHashable<T>(items: seq<Key<T>>)
    requires forall k :: k in items ==> k.Hashable?
    ensures Collected(items) == Stores((set k | k in items :: k.value), Empty())
  {
    if items != [] {
      var init, last := items[..|items| - 1], items[|items| - 1];
      assert items == init + [last];
      CollectedAllHashable(init);
      assert (set k | k in items :: k.value) == (set k | k in init :: k.value) + {last.value};
    }
  }

  /** Collecting a run gives well-formed stores holding exactly the run's
      classes. */
  lemma {:induction false} CollectedMembers<T>(items: seq<Key<T>>)
    ensures StoresValid(Collected(items).hashable, Collected(items).nonHashable)
    ensures MembersOf(Collected(items).hashable, Collected(items).nonHashable) == SlotsOf(items)
  {
    if items != [] {
      var init := items[..|items| - 1];
      CollectedMembers(init);
      AddToMembers(Collected(init), items[|items| - 1]);
    }
  }

  /** A Set built from a run never holds more items than the run has. */
  lemma CollectedSize<T>(items: seq<Key<T>>)
    ensures |Collected(items).hashable| + |Collected(items).nonHashable.entries| <= |items|
  {
    CollectedMembers(items);
    MembersOfSize(Collected(items).hashable, Collected(items).nonHashable);
  }

  /** Two items of the same class collapse into one member; two items of
      different classes (two distinct objects, whatever their contents) stay
      two members. */
  lemma CollectedPair<T>(a: Key<T>, b: Key<T>)
    ensures var st := Collected([a, b]);
            |MembersOf(st.hashable, st.nonHashable)| == if SlotOf(a) == SlotOf(b) then 1 else 2
  {
    CollectedMembers([a, b]);
    SlotsOfPair(a, b);
    if SlotOf(a) == SlotOf(b) {
      assert {SlotOf(a), SlotOf(b)} == {SlotOf(a)};
    }
  }

  /** The classes of a run of two items are those two items' classes. */
  lemma SlotsOfPair<T>(a: Key<T>, b: Key<T>)
    ensures SlotsOf([a, b]) == {SlotOf(a), SlotOf(b)}
  {
    assert [a, b][..1] == [a] && [a][..0] == [];
  }


  /** `items` is one order in which iterating the stores can yield their
      items: every value of the value set once, in some order, then the
      identity dict's items in its insertion order. */
  ghost predicate IsIterationOf<T>(items: seq<Key<T>>, hashable: set<T>, nonHashable: Dict<Id, Key<T>>)
    requires PyDict.Valid(nonHashable)
  {
    && |items| == |hashable| + |nonHashable.order|
    && items[|hashable|..] == PyDict.Values(nonHashable)
    && (forall i :: 0 <= i < |hashable| ==> items[i].Hashable? && items[i].value in hashable)
    && (forall i, j :: 0 <= i < j < |hashable| ==> items[i] != items[j])
  }

  /** The classes of a run of items, one per item. */
  function SlotSeq<T>(items: seq<Key<T>>): (r: seq<Slot<T>>)
    ensures |r| == |items|
    ensures forall i :: 0 <= i < |items| ==> r[i] == SlotOf(items[i])
  {
    seq(|items|, i requires 0 <= i < |items| => SlotOf(items[i]))
  }

  /** Iterating yields `len(s)` items, each a member, no class twice, and
      every member. */
  lemma IterationCoversMembers<T>(items: seq<Key<T>>, hashable: set<T>, nonHashable: Dict<Id, Key<T>>)
    requires StoresValid(hashable, nonHashable)
    requires IsIterationOf(items, hashable, nonHashable)
    ensures |items| == |MembersOf(hashable, nonHashable)|
    ensures forall i :: 0 <= i < |items| ==> SlotOf(items[i]) in MembersOf(hashable, nonHashable)
    ensures Distinct(SlotSeq(items))
    ensures (set s | s in SlotSeq(items)) == MembersOf(hashable, nonHashable)
  {
    var n := |hashable|;
    var members := MembersOf(hashable, nonHashable);
    var stored := PyDict.Values(nonHashable);
    MembersOfSize(hashable, nonHashable);
    forall i | n <= i < |items|
      ensures items[i].Unhashable? && items[i].id == nonHashable.order[i - n]
      ensures items[i].id in nonHashable.entries
    {
      assert items[i] == stored[i - n];
    }
    forall i | 0 <= i < |items| ensures SlotOf(items[i]) in members {
      if i < n {
        ValueSlotsHas(hashable, items[i].value, 0);
      } else {
        IdentitySlotsHas<T>(nonHashable.entries.Keys, items[i].id, items[i].contents);
      }
    }
    var slots := SlotSeq(items);
    forall i, j | 0 <= i < j < |slots| ensures slots[i] != slots[j] {
      if j < n {
        assert items[i] != items[j];
      } else if n <= i {
        assert nonHashable.order[i - n] != nonHashable.order[j - n];
      }
    }
    DistinctCovers(slots, members);
  }

  class Set<T(==)> {
    /** For hashable items. */
    var hashable: set<T>
    /** For unhashable items: id(item) -> item. */
    var nonHashable: Dict<Id, Key<T>>

    ghost predicate Valid()
      reads this
    {
      StoresValid(hashable, nonHashable)
    }

    /** The sameness classes of the items held. */
    function Members(): set<Slot<T>>
      reads this
    {
      MembersOf(hashable, nonHashable)
    }

    /** `Set(iterable)`: empty stores, then `add` for each item in order. */
    constructor (iterable: Option<seq<Key<T>>>)
      ensures Valid()
      ensures Stores(hashable, nonHashable) == if iterable.Some? then Collected(iterable.value) else Stores({}, Empty())
      ensures Members() == if iterable.Some? then SlotsOf(iterable.value) else {}
    {
      hashable := {};
      nonHashable := Empty();
      new;
      if iterable.Some? {
        var items := iterable.value;
        var i := 0;
        while i < |items|
          invariant 0 <= i <= |items|
          invariant Valid()
          invariant Stores(hashable, nonHashable) == Collected(items[..i])
        {
          assert items[..i + 1][..i] == items[..i];
          Add(items[i]);
          i := i + 1;
        }
        assert items[..i] == items;
        CollectedMembers(items);
      }
    }

    /** `s.add(item)` */
    method Add(item: Key<T>)
      requires Valid()
      modifies this
      ensures Valid()
      ensures Members() == old(Members()) + {SlotOf(item)}
      ensures Stores(hashable, nonHashable) == AddTo(old(Stores(hashable, nonHashable)), item)
    {
      AddToMembers(Stores(hashable, nonHashable), item);
      if item.Hashable? {
        hashable := hashable + {item.value};
      } else {
        nonHashable := Put(nonHashable, item.id, item);
      }
    }

    /** `s.discard(item)`: never raises. */
    method Discard(item: Key<T>)
      requires Valid()
      modifies this
      ensures Valid()
      ensures Members() == old(Members()) - {SlotOf(item)}
      ensures Stores(hashable, nonHashable) == DiscardFrom(old(Stores(hashable, nonHashable)), item)
    {
      DiscardFromMembers(Stores(hashable, nonHashable), item);
      if item.Hashable? {
        hashable := hashable - {item.value};
      } else {
        nonHashable := PyDict.Remove(nonHashable, item.id);
      }
    }

    /** `s.remove(item)`: like `discard`, but raises KeyError for an absent item. */
    method Remove(item: Key<T>) returns (r: Result<(), T>)
      requires Valid()
      modifies this
      ensures Valid()
      ensures r.Raised? <==> SlotOf(item) !in old(Members())
      ensures r.Raised? ==> r.error == KeyError(item) && hashable == old(hashable) && nonHashable == old(nonHashable)
      ensures r.Ok? ==> Members() == old(Members()) - {SlotOf(item)} && Len() + 1 == old(Len())
      ensures r.Ok? ==> Stores(hashable, nonHashable) == DiscardFrom(old(Stores(hashable, nonHashable)), item)
    {
      MemberRouting(hashable, nonHashable, item);
      DiscardFromMembers(Stores(hashable, nonHashable), item);
      if item.Hashable? {
        if item.value in hashable {
          hashable := hashable - {item.value};
          r := Ok(());
        } else {
          r := Raised(KeyError(item));
        }
      } else {
        if item.id !in nonHashable.entries {
          r := Raised(KeyError(item));
        } else {
          nonHashable := PyDict.Remove(nonHashable, item.id);
          r := Ok(());
        }
      }
    }

    /** `item in s`: looks only in the store the item's hashability selects. */
    function Contains(item: Key<T>): (b: bool)
      reads this
      ensures b <==> SlotOf(item) in Members()
    {
      MemberRouting(hashable, nonHashable, item);
      if item.Hashable? then item.value in hashable else item.id in nonHashable.entries
    }

    /** `len(s)` */
    function Len(): (n: nat)
      reads this
      ensures n == |Members()|
    {
      MembersOfSize(hashable, nonHashable);
      |hashable| + |nonHashable.entries|
    }

    /** `list(iter(s))`: the value set's items in whatever order the set
        yields them, then the identity dict's in insertion order. */
    method Iterate() returns (items: seq<Key<T>>)
      requires Valid()
      ensures IsIterationOf(items, hashable, nonHashable)
    {
      var rest := hashable;
      items := [];
      while rest != {}
        invariant rest <= hashable
        invariant |items| + |rest| == |hashable|
        invariant forall i :: 0 <= i < |items| ==> items[i].Hashable? && items[i].value in hashable - rest
        invariant forall i, j :: 0 <= i < j < |items| ==> items[i] != items[j]
        decreases rest
      {
        var v :| v in rest;
        items := items + [Hashable(v)];
        rest := rest - {v};
      }
      assert |items| == |hashable|;
      items := items + PyDict.Values(nonHashable);
      assert items[|hashable|..] == PyDict.Values(nonHashable);
    }

    /** `repr(s)`, rendering items with the given repr. */
    method Repr(itemRepr: Key<T> -> string) returns (s: string)
      requires Valid()
      ensures exists items :: IsIterationOf(items, hashable, nonHashable) && s == SetText(items, itemRepr)
      ensures s == "Set()" <==> Len() == 0
    {
      var items := Iterate();
      if |items| == 0 {
        s := "Set()";
      } else {
        var parts := [];
        var i := 0;
        while i < |items|
          invariant 0 <= i <= |items|
          invariant parts == ItemTexts(items[..i], itemRepr)
        {
          assert items[..i + 1] == items[..i] + [items[i]];
          parts := parts + [itemRepr(items[i])];
          i := i + 1;
        }
        assert items[..i] == items;
        s := "{" + Text.Join(parts, ", ") + "}";
      }
    }

    /** `s.clear()` */
    method Clear()
      modifies this
      ensures Valid()
      ensures Members() == {} && Len() == 0
      ensures hashable == {} && nonHashable == Empty()
    {
      hashable := {};
      nonHashable := Empty();
    }

    /** `s.copy()`: a new Set whose stores are copies of this one's. */
    method Copy() returns (c: Set<T>)
      requires Valid()
      ensures fresh(c)
      ensures c.Valid()
      ensures c.hashable == hashable && c.nonHashable == nonHashable
      ensures c.Members() == Members()
    {
      c := new Set(None);
      c.hashable := hashable;
      c.nonHashable := nonHashable;
    }
  }

  /** The reprs of a run of items. */
  function ItemTexts<T>(items: seq<Key<T>>, itemRepr: Key<T> -> string): (r: seq<string>)
    ensures |r| == |items|
    ensures forall i :: 0 <= i < |items| ==> r[i] == itemRepr(items[i])
  {
    if items == [] then [] else ItemTexts(items[..|items| - 1], itemRepr) + [itemRepr(items[|items| - 1])]
  }

  /** The set's repr: `Set()` when empty, otherwise the items' reprs,
      comma-joined, between braces. */
  function SetText<T>(items: seq<Key<T>>, itemRepr: Key<T> -> string): string
  {
    if items == [] then "Set()" else "{" + Text.Join(ItemTexts(items, itemRepr), ", ") + "}"
  }

  /** A non-empty set never shows as `Set()`: its repr starts with a brace. */
  lemma NonEmptySetText<T>(items: seq<Key<T>>, itemRepr: Key<T> -> string)
    requires items != []
    ensures SetText(items, itemRepr)[0] == '{' && SetText(items, itemRepr) != "Set()"
  {
  }
}
