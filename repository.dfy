/** `InMemoryRepository<TEntity, TPrimaryKey>`, with the default operations
    it inherits from `GenericRepository`: a store of entities keyed by their
    `Id`. */
module Repositories {
  import opened Common
  import opened Entities

  /** The exceptions the repository throws. */
  datatype RepositoryError =
    | ArgumentNull         // ArgumentNullException: the entity is null
    | TransientEntity      // ArgumentException: the entity is transient
    | AlreadyAdded(id: int)  // InvalidOperationException from Insert
    | KeyNotFound(id: int)   // KeyNotFoundException from Update and GetById
    | NullReference        // InsertOrUpdate(null) calls IsTransient on null
    | NoMatch              // InvalidOperationException from Single: no element matches
    | MoreThanOneMatch     // InvalidOperationException from Single: several match

  class InMemoryRepository {
    /** `TPrimaryKey`, which decides what `IsTransient` means. */
    const keyType: KeyType
    /** `_memory`: the dictionary from key to entity. */
    var memory: map<int, Entity>

    /** Every stored entity is persistent and stored under its own `Id`. */
    ghost predicate Valid()
      reads this
    {
      forall k :: k in memory ==> memory[k].id == k && !memory[k].IsTransient(keyType)
    }

    constructor(keyType: KeyType)
      ensures Valid() && this.keyType == keyType && memory == map[]
    {
      this.keyType := keyType;
      memory := map[];
    }

    // ---------------------------------------------------------- InMemoryRepository

    /** `Insert`. */
    method Insert(entity: Option<Entity>) returns (r: Result<Entity, RepositoryError>)
      requires Valid()
      modifies this
      ensures Valid()
      ensures entity.None? ==> r == Err(ArgumentNull)
      ensures entity.Some? && entity.value.IsTransient(keyType) ==> r == Err(TransientEntity)
      ensures entity.Some? && !entity.value.IsTransient(keyType) && entity.value.id in old(memory) ==>
        r == Err(AlreadyAdded(entity.value.id))
      ensures r.Err? ==> memory == old(memory)
      ensures r.Ok? <==> entity.Some? && !entity.value.IsTransient(keyType) && entity.value.id !in old(memory)
      ensures r.Ok? ==> r.value == entity.value && memory == old(memory)[entity.value.id := entity.value]
      ensures r.Ok? ==> |memory| == |old(memory)| + 1
    {
      if entity.None? {
        return Err(ArgumentNull);
      }
      var e := entity.value;
      if e.IsTransient(keyType) {
        return Err(TransientEntity);
      }
      if e.id in memory {
        return Err(AlreadyAdded(e.id));
      }
      memory := memory[e.id := e];
      return Ok(e);
    }

    /** `GetAllIncluding`, and `GetAll`: the stored entities; the property
        selectors are ignored. */
    function GetAll(): (r: set<Entity>)
      reads this
      requires Valid()
      ensures forall e :: e in r <==> e.id in memory && memory[e.id] == e
      ensures forall e :: e in r ==> !e.IsTransient(keyType)
    {
      ValuesById();
      memory.Values
    }

    /** `Update`: replaces the entity with the same `Id`, which must be
        stored. */
    method Update(entity: Option<Entity>) returns (r: Result<Entity, RepositoryError>)
      requires Valid()
      modifies this
      ensures Valid()
      ensures entity.None? ==> r == Err(ArgumentNull)
      ensures entity.Some? && entity.value.IsTransient(keyType) ==> r == Err(TransientEntity)
      ensures entity.Some? && !entity.value.IsTransient(keyType) && entity.value.id !in old(memory) ==>
        r == Err(KeyNotFound(entity.value.id))
      ensures r.Err? ==> memory == old(memory)
      ensures r.Ok? <==> entity.Some? && !entity.value.IsTransient(keyType) && entity.value.id in old(memory)
      ensures r.Ok? ==> r.value == entity.value && memory == old(memory)[entity.value.id := entity.value]
      ensures r.Ok? ==> memory.Keys == old(memory).Keys && |memory| == |old(memory)|
    {
      if entity.None? {
        return Err(ArgumentNull);
      }
      var e := entity.value;
      if e.IsTransient(keyType) {
        return Err(TransientEntity);
      }
      var currentEntity := FirstOrDefaultById(e.id);
      if currentEntity.None? {
        return Err(KeyNotFound(e.id));
      }
      memory := memory[e.id := e];
      return Ok(e);
    }

    /** `Delete(entity)`: removes the key of the entity, if present. */
    method Delete(entity: Option<Entity>) returns (r: Result<(), RepositoryError>)
      requires Valid()
      modifies this
      ensures Valid()
      ensures entity.None? ==> r == Err(ArgumentNull)
      ensures entity.Some? && entity.value.IsTransient(keyType) ==> r == Err(TransientEntity)
      ensures r.Err? ==> memory == old(memory)
      ensures r.Ok? <==> entity.Some? && !entity.value.IsTransient(keyType)
      ensures r.Ok? ==> memory == old(memory) - {entity.value.id}
    {
      if entity.None? {
        return Err(ArgumentNull);
      }
      var e := entity.value;
      if e.IsTransient(keyType) {
        return Err(TransientEntity);
      }
      memory := memory - {e.id};
      return Ok(());
    }

    // ---------------------------------------------------------- GenericRepository

    /** `InsertAndGetId`. */
    method InsertAndGetId(entity: Option<Entity>) returns (r: Result<int, RepositoryError>)
      requires Valid()
      modifies this
      ensures Valid()
      ensures entity.None? ==> r == Err(ArgumentNull)
      ensures entity.Some? && entity.value.IsTransient(keyType) ==> r == Err(TransientEntity)
      ensures entity.Some? && !entity.value.IsTransient(keyType) && entity.value.id in old(memory) ==>
        r == Err(AlreadyAdded(entity.value.id))
      ensures r.Ok? <==> entity.Some? && !entity.value.IsTransient(keyType) && entity.value.id !in old(memory)
      ensures r.Ok? ==> r.value == entity.value.id && memory == old(memory)[r.value := entity.value]
      ensures r.Err? ==> memory == old(memory)
    {
      var inserted := Insert(entity);
      if inserted.Err? {
        return Err(inserted.error);
      }
      return Ok(inserted.value.id);
    }

    /** `InsertOrUpdate` chooses by transience alone: a transient entity goes
        to `Insert`, which refuses it, and any other to `Update`, which
        refuses an absent one. So on this store it only ever replaces. */
    method InsertOrUpdate(entity: Option<Entity>) returns (r: Result<Entity, RepositoryError>)
      requires Valid()
      modifies this
      ensures Valid()
      ensures entity.None? ==> r == Err(NullReference)
      ensures entity.Some? && entity.value.IsTransient(keyType) ==> r == Err(TransientEntity)
      ensures entity.Some? && !entity.value.IsTransient(keyType) && entity.value.id !in old(memory) ==>
        r == Err(KeyNotFound(entity.value.id))
      ensures r.Err? ==> memory == old(memory)
      ensures r.Ok? <==> entity.Some? && !entity.value.IsTransient(keyType) && entity.value.id in old(memory)
      ensures r.Ok? ==> r.value == entity.value && memory == old(memory)[entity.value.id := entity.value]
      ensures memory.Keys == old(memory).Keys
    {
      if entity.None? {
        return Err(NullReference);
      }
      if entity.value.IsTransient(keyType) {
        r := Insert(entity);
      } else {
        r := Update(entity);
      }
    }

    /** `InsertOrUpdateAndGetId`. */
    method InsertOrUpdateAndGetId(entity: Option<Entity>) returns (r: Result<int, RepositoryError>)
      requires Valid()
      modifies this
      ensures Valid()
      ensures entity.None? ==> r == Err(NullReference)
      ensures entity.Some? && entity.value.IsTransient(keyType) ==> r == Err(TransientEntity)
      ensures entity.Some? && !entity.value.IsTransient(keyType) && entity.value.id !in old(memory) ==>
        r == Err(KeyNotFound(entity.value.id))
      ensures r.Ok? <==> entity.Some? && !entity.value.IsTransient(keyType) && entity.value.id in old(memory)
      ensures r.Ok? ==> r.value == entity.value.id && memory == old(memory)[r.value := entity.value]
      ensures r.Err? ==> memory == old(memory)
    {
      var stored := InsertOrUpdate(entity);
      if stored.Err? {
        return Err(stored.error);
      }
      return Ok(stored.value.id);
    }

    /** `FirstOrDefaultById`: a stored entity whose `Id` is `id`, or null. */
    function FirstOrDefaultById(id: int): (r: Option<Entity>)
      reads this
      requires Valid()
      ensures r.Some? ==> r.value in GetAll() && r.value.id == id
      ensures r.None? <==> forall e :: e in GetAll() ==> e.id != id
    {
      if id in memory then Some(memory[id]) else None
    }

    /** `GetById`: like `FirstOrDefaultById`, but an absent key throws. */
    function GetById(id: int): (r: Result<Entity, RepositoryError>)
      reads this
      requires Valid()
      ensures r.Ok? <==> exists e :: e in GetAll() && e.id == id
      ensures r.Ok? ==> r.value in GetAll() && r.value.id == id
      ensures r.Err? ==> r == Err(KeyNotFound(id))
    {
      match FirstOrDefaultById(id)
      case None => Err(KeyNotFound(id))
      case Some(e) => Ok(e)
    }

    /** `FirstOrDefault(predicate)`: some stored entity that matches, or null
        when none does. Which one is the dictionary's enumeration order,
        which is not modelled. */
    method FirstOrDefault(p: Entity -> bool) returns (r: Option<Entity>)
      requires Valid()
      ensures r.Some? ==> r.value in GetAll() && p(r.value)
      ensures r.None? <==> forall e :: e in GetAll() ==> !p(e)
    {
      if k :| k in memory && p(memory[k]) {
        return Some(memory[k]);
      }
      return None;
    }

    /** The keys whose entities match `p`: one per element of
        `GetAll().Where(p)`. */
    function MatchingKeys(p: Entity -> bool): (keys: set<int>)
      reads this
      ensures forall k :: k in keys <==> k in memory && p(memory[k])
    {
      set k | k in memory && p(memory[k])
    }

    /** `Count()` and `LongCount()`: one per dictionary entry. */
    function Count(): (n: nat)
      reads this
      requires Valid()
      ensures n == |memory.Keys| && n == |GetAll()|
    {
      EntitiesMatchKeys();
      |memory|
    }

    /** `Count(predicate)` and `LongCount(predicate)`: the number of stored
        entities that match. */
    function CountWhere(p: Entity -> bool): (n: nat)
      reads this
      requires Valid()
      ensures n == |set e | e in GetAll() && p(e)|
      ensures n <= |memory|
      ensures n == 0 <==> forall k :: k in memory ==> !p(memory[k])
    {
      MatchingBound(p);
      MatchingEntities(p);
      |MatchingKeys(p)|
    }

    /** `Any(predicate)`. */
    function Any(p: Entity -> bool): (b: bool)
      reads this
      requires Valid()
      ensures b <==> exists e :: e in GetAll() && p(e)
      ensures b <==> CountWhere(p) > 0
    {
      exists k :: k in memory && p(memory[k])
    }

    /** `Single(predicate)`: the one stored entity that matches; none or
        several throw. */
    method Single(p: Entity -> bool) returns (r: Result<Entity, RepositoryError>)
      requires Valid()
      ensures CountWhere(p) == 0 <==> r == Err(NoMatch)
      ensures CountWhere(p) > 1 <==> r == Err(MoreThanOneMatch)
      ensures CountWhere(p) == 1 <==> r.Ok?
      ensures r.Ok? ==>
        && r.value in GetAll() && p(r.value)
        && forall e :: e in GetAll() && p(e) ==> e == r.value
    {
      var keys := MatchingKeys(p);
      if |keys| == 0 {
        return Err(NoMatch);
      }
      if |keys| > 1 {
        return Err(MoreThanOneMatch);
      }
      ghost var w := Pick(keys);
      var k :| k in keys;
      SingletonSet(keys, k);
      return Ok(memory[k]);
    }

    /** `Delete(predicate)`: deletes, one by one, every entity in a snapshot
        of those that match. */
    method DeleteWhere(p: Entity -> bool)
      requires Valid()
      modifies this
      ensures Valid()
      ensures memory == map k | k in old(memory) && !p(old(memory)[k]) :: old(memory)[k]
    {
      var entities := set k | k in memory && p(memory[k]) :: memory[k];
      ghost var start := memory;
      var remaining := entities;
      KeptAll(start, p, entities);
      while remaining != {}
        invariant Valid()
        invariant remaining <= entities
        invariant forall e :: e in entities ==> e.id in start && start[e.id] == e && p(e)
        invariant memory == Kept(start, p, remaining)
        decreases |remaining|
      {
        var entity :| entity in remaining;
        var deleted := Delete(Some(entity));
        KeptStep(start, p, remaining, entity);
        remaining := remaining - {entity};
      }
    }

    /** `DeleteById`: nothing for an absent key, otherwise `Delete` of the
        stored entity. */
    method DeleteById(id: int)
      requires Valid()
      modifies this
      ensures Valid()
      ensures memory == old(memory) - {id}
    {
      var entity := FirstOrDefaultById(id);
      if entity.None? {
        return;
      }
      var deleted := Delete(entity);
    }

    // ---------------------------------------------------------- helpers

    /** Under `Valid`, an entity is stored exactly under its own `Id`. */
    lemma ValuesById()
      requires Valid()
      ensures forall e :: e in memory.Values <==> e.id in memory && memory[e.id] == e
    {
      forall e | e in memory.Values
        ensures e.id in memory && memory[e.id] == e
      {
        if forall k :: k in memory ==> memory[k] != e {
          assert false;
        }
      }
    }

    /** Under `Valid`, keys and stored entities are in one-to-one
        correspondence. */
    lemma EntitiesMatchKeys()
      requires Valid()
      ensures |memory.Values| == |memory.Keys|
    {
      KeysToValues(memory);
    }

    /** The matching entities are as many as the keys they are stored
        under. */
    lemma MatchingEntities(p: Entity -> bool)
      requires Valid()
      ensures |set e | e in GetAll() && p(e)| == |MatchingKeys(p)|
    {
      var matching := map k | k in memory && p(memory[k]) :: memory[k];
      KeysToValues(matching);
      assert matching.Keys == MatchingKeys(p);
      assert matching.Values == set e | e in GetAll() && p(e);
    }

    lemma MatchingBound(p: Entity -> bool)
      ensures |MatchingKeys(p)| <= |memory|
      ensures |MatchingKeys(p)| == 0 <==> forall k :: k in memory ==> !p(memory[k])
    {
      var keys := MatchingKeys(p);
      assert keys <= memory.Keys;
      SubsetSize(keys, memory.Keys);
      if keys != {} {
        var k := Pick(keys);
        assert k in memory && p(memory[k]);
      }
      if forall k :: k in memory ==> !p(memory[k]) {
        assert keys == {};
      }
    }
  }

  /** In a map that stores every entity under its own `Id`, there are as many
      entities as keys. */
  lemma {:induction false} KeysToValues(m: map<int, Entity>)
    requires forall k :: k in m ==> m[k].id == k
    ensures |m.Values| == |m.Keys|
    decreases |m|
  {
    if |m| > 0 {
      var k := Pick(m.Keys);
      var rest := m - {k};
      KeysToValues(rest);
      assert m.Keys == rest.Keys + {k};
      assert m.Values == rest.Values + {m[k]};
      assert m[k] !in rest.Values;
    }
  }

  lemma {:induction false} SubsetSize<T>(a: set<T>, b: set<T>)
    requires a <= b
    ensures |a| <= |b|
    decreases |b|
  {
    if a != {} {
      var x :| x in a;
      SubsetSize(a - {x}, b - {x});
    }
  }

  /** The entries of `start` that a deletion of the matching entities
      leaves, while the entities in `remaining` are still to be deleted. */
  function Kept(start: map<int, Entity>, p: Entity -> bool, remaining: set<Entity>): map<int, Entity> {
    map k | k in start && !(p(start[k]) && start[k] !in remaining) :: start[k]
  }

  lemma KeptAll(start: map<int, Entity>, p: Entity -> bool, entities: set<Entity>)
    requires forall k :: k in start && p(start[k]) ==> start[k] in entities
    ensures Kept(start, p, entities) == start
  {
    var kept := Kept(start, p, entities);
    forall k | k in start
      ensures k in kept
    {
      if p(start[k]) {
        assert start[k] in entities;
      }
    }
    assert kept.Keys == start.Keys;
    assert forall k :: k in kept ==> kept[k] == start[k];
  }

  lemma KeptStep(start: map<int, Entity>, p: Entity -> bool, remaining: set<Entity>, e: Entity)
    requires forall k :: k in start ==> start[k].id == k
    requires e in remaining && e.id in start && start[e.id] == e && p(e)
    ensures Kept(start, p, remaining) - {e.id} == Kept(start, p, remaining - {e})
  {
    var before, after := Kept(start, p, remaining), Kept(start, p, remaining - {e});
    assert forall k :: k in start && start[k] == e ==> k == e.id;
    assert (before - {e.id}).Keys == after.Keys;
    assert forall k :: k in after ==> after[k] == start[k] == (before - {e.id})[k];
  }

  /** Some element of a set that is not empty. */
  lemma Pick<T>(s: set<T>) returns (x: T)
    requires s != {}
    ensures x in s
  {
    if forall y :: y !in s {
      assert false;
    }
    x :| x in s;
  }

  lemma SingletonSet<T>(s: set<T>, x: T)
    requires |s| == 1 && x in s
    ensures s == {x}
  {
    assert |s - {x}| == 0;
  }
}
