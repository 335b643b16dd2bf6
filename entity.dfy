/** `Entity<TPrimaryKey>` of `Mariowski.Common.DataSource`: identity of
    persisted objects by their `Id`. */
module Entities {
  import opened Common

  /** The primary key type `TPrimaryKey`, as far as `IsTransient` tells
      them apart. Key values are integers for every key type, with 0 standing
      for `default(TPrimaryKey)`. */
  datatype KeyType = Int32 | Int64 | OtherKey

  /** A runtime type, as `GetType()` returns it. */
  type RuntimeType = nat

  /** An entity object at one moment: `instance` tells objects apart (two
      values with the same `instance` and the same fields are the same
      object), `runtimeType` is the concrete class and `id` the `Id`
      property. */
  datatype Entity = Entity(instance: nat, runtimeType: RuntimeType, id: int) {

    /** `IsTransient`: the default key always, whatever the key type; for
        `int` and `long` keys also any key below zero, which EF Core hands
        out for attached objects. */
    predicate IsTransient(keyType: KeyType): (r: bool)
      ensures id == 0 ==> r
      ensures keyType != OtherKey ==> (r <==> id <= 0)
      ensures keyType == OtherKey ==> (r <==> id == 0)
    {
      id == 0 || ((keyType == Int32 || keyType == Int64) && id <= 0)
    }

    /** `Equals(object obj)`. `isAssignableFrom(a, b)` is
        `a.IsAssignableFrom(b)`. */
    function Equals(obj: Object<Entity>, keyType: KeyType, isAssignableFrom: (RuntimeType, RuntimeType) -> bool): (r: bool)
      ensures r ==> obj.SameType?
      ensures obj.SameType? && obj.value == this ==> r
      ensures obj.SameType? && obj.value != this ==>
        (r <==> && !(IsTransient(keyType) && obj.value.IsTransient(keyType))
                && Related(runtimeType, obj.value.runtimeType, isAssignableFrom)
                && id == obj.value.id)
    {
      match obj
      case SameType(other) =>
        if other == this then true
        else if IsTransient(keyType) && other.IsTransient(keyType) then false
        else if !isAssignableFrom(runtimeType, other.runtimeType) && !isAssignableFrom(other.runtimeType, runtimeType) then false
        else id == other.id
      case _ => false
    }

    /** `GetHashCode` is the `Id`'s; the key type's hash is a parameter. */
    function GetHashCode(idHash: int -> int): int {
      idHash(id)
    }
  }

  /** One of the two runtime types is assignable from the other. */
  predicate Related(a: RuntimeType, b: RuntimeType, isAssignableFrom: (RuntimeType, RuntimeType) -> bool) {
    isAssignableFrom(a, b) || isAssignableFrom(b, a)
  }

  /** `operator ==`: `left?.Equals(right) ?? Equals(right, null)`. */
  function Eq(left: Option<Entity>, right: Option<Entity>, keyType: KeyType, isAssignableFrom: (RuntimeType, RuntimeType) -> bool): (r: bool)
    ensures left.None? ==> (r <==> right.None?)
    ensures left.Some? && right.None? ==> !r
    ensures left.Some? && right.Some? ==> r == left.value.Equals(SameType(right.value), keyType, isAssignableFrom)
  {
    match left
    case None => right.None?
    case Some(l) => l.Equals(if right.None? then Null else SameType(right.value), keyType, isAssignableFrom)
  }

  /** `operator !=` */
  function NotEq(left: Option<Entity>, right: Option<Entity>, keyType: KeyType, isAssignableFrom: (RuntimeType, RuntimeType) -> bool): (r: bool)
    ensures left.None? ==> (r <==> right.Some?)
    ensures left.Some? && right.None? ==> r
    ensures left.Some? && right.Some? ==> r == !left.value.Equals(SameType(right.value), keyType, isAssignableFrom)
  {
    !Eq(left, right, keyType, isAssignableFrom)
  }

  /** An entity equals itself, also when transient, and `==` agrees; it
      never equals null or an object of another type. */
  lemma EqualsItself(e: Entity, keyType: KeyType, isAssignableFrom: (RuntimeType, RuntimeType) -> bool)
    ensures e.Equals(SameType(e), keyType, isAssignableFrom)
    ensures Eq(Some(e), Some(e), keyType, isAssignableFrom)
    ensures !e.Equals(Null, keyType, isAssignableFrom) && !e.Equals(OtherType, keyType, isAssignableFrom)
    ensures !Eq(Some(e), None, keyType, isAssignableFrom) && Eq(None, None, keyType, isAssignableFrom)
  {
  }

  /** Two different transient objects are never equal, even with the same
      `Id`. */
  lemma TransientNeverEqual(a: Entity, b: Entity, keyType: KeyType, isAssignableFrom: (RuntimeType, RuntimeType) -> bool)
    requires a != b && a.IsTransient(keyType) && b.IsTransient(keyType)
    ensures !a.Equals(SameType(b), keyType, isAssignableFrom)
    ensures NotEq(Some(a), Some(b), keyType, isAssignableFrom)
  {
  }

  /** `Equals` does not depend on the side it is called on. */
  lemma EqualsSymmetric(a: Entity, b: Entity, keyType: KeyType, isAssignableFrom: (RuntimeType, RuntimeType) -> bool)
    ensures a.Equals(SameType(b), keyType, isAssignableFrom) == b.Equals(SameType(a), keyType, isAssignableFrom)
  {
  }

  /** Equal entities have the same `Id`, so the same hash code. */
  lemma EqualsSameHash(a: Entity, b: Entity, keyType: KeyType, isAssignableFrom: (RuntimeType, RuntimeType) -> bool, idHash: int -> int)
    requires a.Equals(SameType(b), keyType, isAssignableFrom)
    ensures a.id == b.id && a.GetHashCode(idHash) == b.GetHashCode(idHash)
  {
  }
}
