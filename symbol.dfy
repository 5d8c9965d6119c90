/** Symbol: a unique token whose equality and hash are both its identity. */
module Symbols {
  import opened Keys

  /** A Symbol is fixed at creation: `id` is the identity the runtime gave the
      new object, `description` is any object, only for display (`None` when
      omitted). */
  datatype Symbol<D> = Symbol(id: Id, description: Option<D>)

  /** What `__eq__` may be handed: another Symbol, or any other object. */
  datatype Operand<D, O> = SymbolOperand(symbol: Symbol<D>) | OtherOperand(other: O)

  /** `s == other`: only a Symbol with the same identity is equal, so equal
      Symbols hash alike. */
  function Equals<D, O>(s: Symbol<D>, other: Operand<D, O>): (b: bool)
    ensures b <==> other.SymbolOperand? && other.symbol.id == s.id
    ensures b ==> Hash(s) == Hash(other.symbol)
  {
    other.SymbolOperand? && s.id == other.symbol.id
  }

  /** `hash(s)`: the identity recorded at creation. */
  function Hash<D>(s: Symbol<D>): (h: int)
    ensures h == s.id && h >= 0
  {
    s.id
  }

  /** A value store compares Symbols with `==` on the whole value. One id
      belongs to one live object, which has one description; under that
      condition `__eq__` is exactly the store's equality, and a Symbol is
      never equal to an object of another class. */
  lemma EqualsIsKeyEquality<D, O>(a: Symbol<D>, b: Symbol<D>, o: O)
    requires a.id == b.id ==> a.description == b.description
    ensures Equals<D, O>(a, SymbolOperand(b)) <==> a == b
    ensures !Equals(a, OtherOperand(o))
  {
  }

  /** Equality between Symbols is reflexive, symmetric and transitive. */
  lemma EqualsIsEquivalence<D, O>(a: Symbol<D>, b: Symbol<D>, c: Symbol<D>)
    ensures Equals<D, O>(a, SymbolOperand(a))
    ensures Equals<D, O>(a, SymbolOperand(b)) <==> Equals<D, O>(b, SymbolOperand(a))
    ensures Equals<D, O>(a, SymbolOperand(b)) && Equals<D, O>(b, SymbolOperand(c)) ==> Equals<D, O>(a, SymbolOperand(c))
  {
  }

  /** The hash is the identity, so equal Symbols hash alike. */
  lemma HashAgreesWithEquals<D, O>(a: Symbol<D>, b: Symbol<D>)
    ensures Hash(a) == a.id
    ensures Equals<D, O>(a, SymbolOperand(b)) ==> Hash(a) == Hash(b)
  {
  }

  /** Two live Symbols are different objects, so they are unequal whatever
      their descriptions, even equal ones. */
  lemma DistinctInstancesUnequal<D, O>(a: Symbol<D>, b: Symbol<D>)
    requires a.id != b.id
    ensures !Equals<D, O>(a, SymbolOperand(b)) && !Equals<D, O>(b, SymbolOperand(a))
  {
  }

  /** Python's truth value of the description: `None` is false, and any other
      object is as `truthy` says (`''`, `0` and `[]` are false). */
  predicate Truthy<D>(description: Option<D>, truthy: D -> bool)
  {
    description.Some? && truthy(description.value)
  }

  /** `repr(s)`: `Symbol()` for a false description, otherwise the
      description's repr (as `descRepr` renders it) between the parentheses. */
  function Repr<D>(s: Symbol<D>, truthy: D -> bool, descRepr: D -> string): (r: string)
    ensures |r| >= 8 && r[..7] == "Symbol(" && r[|r| - 1] == ')'
    ensures !Truthy(s.description, truthy) ==> r == "Symbol()"
    ensures Truthy(s.description, truthy) ==> r[7..|r| - 1] == descRepr(s.description.value)
    ensures Truthy(s.description, truthy) && descRepr(s.description.value) != "" ==> r != "Symbol()"
  {
    if Truthy(s.description, truthy) then "Symbol(" + descRepr(s.description.value) + ")" else "Symbol()"
  }
}
