/** Keys and elements as the hybrid containers see them, and what makes two
    of them "the same". */
module Keys {

  /** An object's identity, as the runtime's `id()` reports it: stable for the
      object's lifetime and different from every other live object's. */
  type Id = nat

  /** A key handed to a Map or an element handed to a Set. Whether `hash()`
      succeeds on it is a property of its type, so the route is fixed by the
      constructor: a hashable key is known by its value (two equal values are
      the same key), an unhashable one only by its identity (`contents` is the
      object's state, which plays no part in lookups). */
  datatype Key<T> = Hashable(value: T) | Unhashable(id: Id, contents: T)

  /** The sameness class of a key: the value of a hashable key, the identity of
      an unhashable one. Two keys denote the same entry exactly when their
      slots are equal. */
  datatype Slot<T> = ValueSlot(value: T) | IdentitySlot(id: Id)

  function SlotOf<T>(k: Key<T>): Slot<T>
  {
    match k
    case Hashable(v) => ValueSlot(v)
    case Unhashable(i, _) => IdentitySlot(i)
  }

  /** Hashable keys are the same when their values are equal; unhashable ones
      when they are the same object, whatever their contents; a hashable key
      is never the same as an unhashable one. */
  lemma SameSlot<T>(a: Key<T>, b: Key<T>)
    ensures SlotOf(a) == SlotOf(b) <==>
              || (a.Hashable? && b.Hashable? && a.value == b.value)
              || (a.Unhashable? && b.Unhashable? && a.id == b.id)
  {
  }

  /** Two distinct objects stay distinct keys even when their contents agree. */
  lemma DistinctObjectsDistinctSlots<T>(a: Key<T>, b: Key<T>)
    requires a.Unhashable? && b.Unhashable? && a.id != b.id && a.contents == b.contents
    ensures SlotOf(a) != SlotOf(b)
  {
  }

  /** The slots of the values held in a hash-based store. */
  function ValueSlots<T(==)>(values: set<T>): set<Slot<T>>
  {
    set v | v in values :: ValueSlot(v)
  }

  /** The slots of the ids held in an identity store. */
  function IdentitySlots<T(==)>(ids: set<Id>): set<Slot<T>>
  {
    set i | i in ids :: IdentitySlot(i)
  }

  lemma {:induction false} ValueSlotsSize<T>(values: set<T>)
    ensures |ValueSlots(values)| == |values|
  {
    if values != {} {
      var v :| v in values;
      ValueSlotsSize(values - {v});
      assert ValueSlots(values) == ValueSlots(values - {v}) + {ValueSlot(v)};
    }
  }

  lemma {:induction false} IdentitySlotsSize<T>(ids: set<Id>)
    ensures |IdentitySlots<T>(ids)| == |ids|
  {
    if ids != {} {
      var i :| i in ids;
      IdentitySlotsSize<T>(ids - {i});
      assert IdentitySlots<T>(ids) == IdentitySlots<T>(ids - {i}) + {IdentitySlot(i)};
    }
  }

  /** The two stores never hold the same slot, so the number of slots held is
      the sum of the two stores' sizes. */
  lemma StoresSize<T>(values: set<T>, ids: set<Id>)
    ensures |ValueSlots(values) + IdentitySlots<T>(ids)| == |values| + |ids|
  {
    ValueSlotsSize(values);
    IdentitySlotsSize<T>(ids);
    assert ValueSlots(values) * IdentitySlots<T>(ids) == {};
  }

  /** A value is among the slots of a hash-based store exactly when the store
      holds it, and no identity is. */
  lemma ValueSlotsHas<T>(values: set<T>, v: T, i: Id)
    ensures ValueSlot(v) in ValueSlots(values) <==> v in values
    ensures IdentitySlot(i) !in ValueSlots(values)
  {
  }

  /** An identity is among the slots of an identity store exactly when the
      store holds it, and no value is. */
  lemma IdentitySlotsHas<T>(ids: set<Id>, i: Id, v: T)
    ensures IdentitySlot(i) in IdentitySlots<T>(ids) <==> i in ids
    ensures ValueSlot(v) !in IdentitySlots<T>(ids)
  {
  }

  lemma ValueSlotsInsert<T>(values: set<T>, v: T)
    ensures ValueSlots(values + {v}) == ValueSlots(values) + {ValueSlot(v)}
  {
    forall s | s in ValueSlots(values + {v}) ensures s in ValueSlots(values) + {ValueSlot(v)} {
      assert s.value in values + {v};
    }
  }

  lemma ValueSlotsDelete<T>(values: set<T>, v: T)
    ensures ValueSlots(values - {v}) == ValueSlots(values) - {ValueSlot(v)}
  {
    forall s | s in ValueSlots(values) - {ValueSlot(v)} ensures s in ValueSlots(values - {v}) {
      assert s.value in values - {v};
    }
  }

  lemma IdentitySlotsInsert<T>(ids: set<Id>, i: Id)
    ensures IdentitySlots<T>(ids + {i}) == IdentitySlots<T>(ids) + {IdentitySlot(i)}
  {
    forall s | s in IdentitySlots<T>(ids + {i}) ensures s in IdentitySlots<T>(ids) + {IdentitySlot(i)} {
      assert s.id in ids + {i};
    }
  }

  lemma IdentitySlotsDelete<T>(ids: set<Id>, i: Id)
    ensures IdentitySlots<T>(ids - {i}) == IdentitySlots<T>(ids) - {IdentitySlot(i)}
  {
    forall s | s in IdentitySlots<T>(ids) - {IdentitySlot(i)} ensures s in IdentitySlots<T>(ids - {i}) {
      assert s.id in ids - {i};
    }
  }

  /** Python's KeyError, carrying the key that was not found. */
  datatype KeyError<T> = KeyError(key: Key<T>)

  /** What an operation that may raise KeyError hands back. */
  datatype Result<R, T> = Ok(value: R) | Raised(error: KeyError<T>)

  /** An optional argument (`iterable=None`). */
  datatype Option<T> = None | Some(value: T)
}
