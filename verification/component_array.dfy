/**
 * ComponentArray<T>: the packed store of one component type.
 *
 * Values sit in the slots `[0, size)` of a dense array; two maps translate
 * between an entity and the slot that holds its value. Removal copies the
 * last slot into the freed one, so the occupied slots stay contiguous.
 * The backing `std::array` is a map from slot to value: slots beyond `size`
 * keep whatever was last written there, as they do in the source.
 */
module ComponentArrays {
  import opened Results
  import opened Entities
  import opened Cardinality

  datatype ComponentArray<T> = ComponentArray(
    slots: map<nat, T>,
    entityToIndex: map<Entity, nat>,
    indexToEntity: map<nat, Entity>,
    size: nat)

  /** Exactly the slots `[0, size)` have an owner. */
  ghost predicate SlotsOwned<T>(a: ComponentArray<T>) {
    forall i: nat :: i in a.indexToEntity <==> i < a.size
  }

  /** Every owned slot holds a value. */
  ghost predicate SlotsFilled<T>(a: ComponentArray<T>) {
    forall i :: i in a.indexToEntity ==> i in a.slots
  }

  /** Each slot's owner maps back to that slot. */
  ghost predicate OwnersMapBack<T>(a: ComponentArray<T>) {
    forall i :: i in a.indexToEntity ==>
      a.indexToEntity[i] in a.entityToIndex && a.entityToIndex[a.indexToEntity[i]] == i
  }

  /** Each present entity's slot is owned by that entity. */
  ghost predicate EntitiesMapBack<T>(a: ComponentArray<T>) {
    forall e :: e in a.entityToIndex ==>
      a.entityToIndex[e] in a.indexToEntity && a.indexToEntity[a.entityToIndex[e]] == e
  }

  /**
   * The store's invariant: the two maps are mutual inverses between the
   * entities present and exactly the slots `[0, size)`, and each of those
   * slots holds a value.
   */
  ghost predicate Valid<T>(a: ComponentArray<T>) {
    && a.size <= MAX_ENTITIES
    && |a.entityToIndex| == a.size
    && SlotsOwned(a)
    && SlotsFilled(a)
    && OwnersMapBack(a)
    && EntitiesMapBack(a)
  }

  /** What the store means: the value each present entity gets back. */
  ghost function Contents<T>(a: ComponentArray<T>): map<Entity, T> {
    Compose(a.entityToIndex, a.slots)
  }

  /** The value each entity reaches through its slot. */
  ghost function Compose<T>(index: map<Entity, nat>, slots: map<nat, T>): map<Entity, T> {
    map e | e in index && index[e] in slots :: slots[index[e]]
  }

  /** Giving a new entity a fresh slot above all others adds exactly that entry. */
  lemma ComposeFresh<T>(index: map<Entity, nat>, slots: map<nat, T>, e: Entity, n: nat, v: T)
    requires e !in index
    requires forall x :: x in index ==> index[x] < n
    ensures Compose(index[e := n], slots[n := v]) == Compose(index, slots)[e := v]
  {
    var c, c' := Compose(index, slots)[e := v], Compose(index[e := n], slots[n := v]);
    assert c'.Keys == c.Keys;
  }

  /** In a valid store the entities with a value are exactly those with a slot. */
  lemma ContentsKeys<T>(a: ComponentArray<T>)
    requires Valid(a)
    ensures Contents(a).Keys == a.entityToIndex.Keys
  {
    forall x | x in a.entityToIndex ensures x in Contents(a) {
      assert a.entityToIndex[x] in a.indexToEntity;
    }
  }

  /** A freshly made store (`mSize`, left uninitialised in the source, is 0). */
  function Empty<T>(): (a: ComponentArray<T>)
    ensures Valid(a)
    ensures Contents(a) == map[]
  {
    ComponentArray(map[], map[], map[], 0)
  }

  /**
   * `attachComponent`: append the value at slot `size` and record both
   * mappings. Attaching is not an upsert: an entity already present aborts.
   * Writing past the end of the fixed array is undefined in the source, so
   * the store must have room whenever the check lets the write happen.
   */
  function Attach<T>(a: ComponentArray<T>, e: Entity, v: T): (r: Result<ComponentArray<T>>)
    requires Valid(a)
    requires a.size < MAX_ENTITIES || e in a.entityToIndex
    ensures r.Ok? <==> e !in Contents(a)
    ensures r.Err? ==> r.error == ComponentAlreadyPresent
    ensures r.Ok? ==>
      && Valid(r.value)
      && Contents(r.value) == Contents(a)[e := v]
      && r.value.size == a.size + 1
      && e in r.value.entityToIndex && r.value.entityToIndex[e] == a.size
  {
    if e in a.entityToIndex then
      Err(ComponentAlreadyPresent)
    else
      var r := Appended(a, e, v);
      AttachKeeps(a, e, v, r);
      Ok(r)
  }

  /** The store `Attach` builds when `e` is absent. */
  function Appended<T>(a: ComponentArray<T>, e: Entity, v: T): ComponentArray<T> {
    ComponentArray(
      a.slots[a.size := v], a.entityToIndex[e := a.size], a.indexToEntity[a.size := e], a.size + 1)
  }

  /** The proof obligations of `Attach`, on the store it builds. */
  lemma AttachKeeps<T>(a: ComponentArray<T>, e: Entity, v: T, r: ComponentArray<T>)
    requires Valid(a) && a.size < MAX_ENTITIES
    requires e !in a.entityToIndex
    requires r == Appended(a, e, v)
    ensures Valid(r)
    ensures Contents(r) == Contents(a)[e := v]
  {
    assert a.size !in a.indexToEntity;
    assert SlotsOwned(r);
    assert SlotsFilled(r);
    AttachEntitiesMapBack(a, e, v);
    AttachOwnersMapBack(a, e, v);
    AttachContents(a, e, v);
  }

  lemma AttachEntitiesMapBack<T>(a: ComponentArray<T>, e: Entity, v: T)
    requires Valid(a) && e !in a.entityToIndex
    ensures EntitiesMapBack(Appended(a, e, v))
  {
    var r := Appended(a, e, v);
    forall x | x in r.entityToIndex
      ensures r.entityToIndex[x] in r.indexToEntity && r.indexToEntity[r.entityToIndex[x]] == x
    {
      if x != e {
        assert a.entityToIndex[x] in a.indexToEntity;
      }
    }
  }

  lemma AttachOwnersMapBack<T>(a: ComponentArray<T>, e: Entity, v: T)
    requires Valid(a) && e !in a.entityToIndex
    ensures OwnersMapBack(Appended(a, e, v))
  {
    var r := Appended(a, e, v);
    forall i | i in r.indexToEntity
      ensures r.indexToEntity[i] in r.entityToIndex && r.entityToIndex[r.indexToEntity[i]] == i
    {
      if i != a.size {
        assert a.indexToEntity[i] != e;
      }
    }
  }

  lemma AttachContents<T>(a: ComponentArray<T>, e: Entity, v: T)
    requires Valid(a) && e !in a.entityToIndex
    ensures Contents(Appended(a, e, v)) == Contents(a)[e := v]
  {
    IndicesBelowSize(a);
    AppendedContents(a, e, v);
  }

  /** Every present entity's slot is below `size`. */
  lemma IndicesBelowSize<T>(a: ComponentArray<T>)
    requires Valid(a)
    ensures forall x :: x in a.entityToIndex ==> a.entityToIndex[x] < a.size
  {
    forall x | x in a.entityToIndex ensures a.entityToIndex[x] < a.size {
      assert a.entityToIndex[x] in a.indexToEntity;
    }
  }

  lemma AppendedContents<T>(a: ComponentArray<T>, e: Entity, v: T)
    requires e !in a.entityToIndex
    requires forall x :: x in a.entityToIndex ==> a.entityToIndex[x] < a.size
    ensures Contents(Appended(a, e, v)) == Contents(a)[e := v]
  {
    ComposeFresh(a.entityToIndex, a.slots, e, a.size, v);
  }

  /**
   * `detachComponent`: copy the last slot's value and owner into the freed
   * slot, then erase the entity's entry and the last slot's entry. When the
   * freed slot is the last one the copies are to itself and both erasures
   * remove that slot.
   */
  function Detach<T>(a: ComponentArray<T>, e: Entity): (r: Result<ComponentArray<T>>)
    requires Valid(a)
    ensures r.Ok? <==> e in Contents(a)
    ensures r.Err? ==> r.error == ComponentMissing
    ensures r.Ok? ==>
      && Valid(r.value)
      && Contents(r.value) == Contents(a) - {e}
      && r.value.size == a.size - 1
    ensures r.Ok? ==>
      // the last slot's owner and value move into the freed slot
      && a.size - 1 in a.indexToEntity
      && var last := a.indexToEntity[a.size - 1];
      && (forall x :: x in r.value.entityToIndex ==>
            x in a.entityToIndex &&
            r.value.entityToIndex[x] == (if x == last then a.entityToIndex[e] else a.entityToIndex[x]))
      && a.entityToIndex[e] in r.value.slots && a.size - 1 in a.slots
      && r.value.slots[a.entityToIndex[e]] == a.slots[a.size - 1]
  {
    if e !in a.entityToIndex then
      Err(ComponentMissing)
    else
      DetachKeeps(a, e);
      Ok(SwappedOut(a, e))
  }

  /** The store `Detach` builds when `e` is present, step by step as the source does. */
  function SwappedOut<T>(a: ComponentArray<T>, e: Entity): ComponentArray<T>
    requires Valid(a) && e in a.entityToIndex
  {
    assert a.entityToIndex[e] in a.indexToEntity;
    var deleted := a.entityToIndex[e];
    var last := a.size - 1;
    var slots := a.slots[deleted := a.slots[last]];
    var lastEntity := a.indexToEntity[last];
    var entityToIndex := a.entityToIndex[lastEntity := deleted];
    var indexToEntity := a.indexToEntity[deleted := lastEntity];
    ComponentArray(slots, entityToIndex - {e}, indexToEntity - {last}, last)
  }

  /** The proof obligations of `Detach`, on the store it builds. */
  lemma DetachKeeps<T>(a: ComponentArray<T>, e: Entity)
    requires Valid(a) && e in a.entityToIndex
    ensures Valid(SwappedOut(a, e))
    ensures Contents(SwappedOut(a, e)) == Contents(a) - {e}
  {
    var r := SwappedOut(a, e);
    assert a.entityToIndex[e] in a.indexToEntity;
    assert r.entityToIndex.Keys == a.entityToIndex.Keys - {e};
    assert SlotsOwned(r);
    assert SlotsFilled(r);
    DetachEntitiesMapBack(a, e);
    DetachOwnersMapBack(a, e);
    DetachContents(a, e);
  }

  lemma DetachEntitiesMapBack<T>(a: ComponentArray<T>, e: Entity)
    requires Valid(a) && e in a.entityToIndex
    ensures EntitiesMapBack(SwappedOut(a, e))
  {
    var r := SwappedOut(a, e);
    var lastEntity := a.indexToEntity[a.size - 1];
    forall x | x in r.entityToIndex
      ensures r.entityToIndex[x] in r.indexToEntity && r.indexToEntity[r.entityToIndex[x]] == x
    {
      assert a.entityToIndex[x] in a.indexToEntity;
      if x != lastEntity {
        assert a.entityToIndex[x] != a.size - 1;
        assert a.entityToIndex[x] != a.entityToIndex[e];
      }
    }
  }

  lemma DetachOwnersMapBack<T>(a: ComponentArray<T>, e: Entity)
    requires Valid(a) && e in a.entityToIndex
    ensures OwnersMapBack(SwappedOut(a, e))
  {
    var r := SwappedOut(a, e);
    var deleted := a.entityToIndex[e];
    assert deleted in a.indexToEntity;
    forall i | i in r.indexToEntity
      ensures r.indexToEntity[i] in r.entityToIndex && r.entityToIndex[r.indexToEntity[i]] == i
    {
      if i != deleted {
        assert a.indexToEntity[i] != e;
        assert a.indexToEntity[i] != a.indexToEntity[a.size - 1];
      }
    }
  }

  lemma DetachContents<T>(a: ComponentArray<T>, e: Entity)
    requires Valid(a) && e in a.entityToIndex
    requires Valid(SwappedOut(a, e))
    ensures Contents(SwappedOut(a, e)) == Contents(a) - {e}
  {
    var r := SwappedOut(a, e);
    var lastEntity := a.indexToEntity[a.size - 1];
    forall x | x in r.entityToIndex ensures r.slots[r.entityToIndex[x]] == a.slots[a.entityToIndex[x]] {
      assert a.entityToIndex[x] in a.indexToEntity;
      if x != lastEntity {
        assert a.entityToIndex[x] != a.entityToIndex[e];
      }
    }
  }

  /** `getComponent`: the value at the entity's slot; an absent entity aborts. */
  function Get<T>(a: ComponentArray<T>, e: Entity): (r: Result<T>)
    requires Valid(a)
    ensures r.Ok? <==> e in Contents(a)
    ensures r.Ok? ==> r.value == Contents(a)[e]
    ensures r.Err? ==> r.error == ComponentMissing
  {
    if e !in a.entityToIndex then Err(ComponentMissing)
    else Ok(a.slots[a.entityToIndex[e]])
  }

  /** `handleDestroyedEntity`: detach when present, otherwise leave the store alone. */
  function HandleDestroyed<T>(a: ComponentArray<T>, e: Entity): (r: ComponentArray<T>)
    requires Valid(a)
    ensures Valid(r)
    ensures Contents(r) == Contents(a) - {e}
    ensures e !in Contents(a) ==> r == a
  {
    if e in a.entityToIndex then Detach(a, e).value else a
  }

  /** Reading back right after attaching yields the attached value. */
  lemma GetAfterAttach<T>(a: ComponentArray<T>, e: Entity, v: T)
    requires Valid(a) && a.size < MAX_ENTITIES
    requires Attach(a, e, v).Ok?
    ensures Get(Attach(a, e, v).value, e) == Ok(v)
  {
  }

  /** Detaching one entity leaves every other entity's value where `Get` finds it. */
  lemma DetachKeepsOthers<T>(a: ComponentArray<T>, e: Entity, x: Entity)
    requires Valid(a)
    requires Detach(a, e).Ok?
    requires x != e
    ensures Get(Detach(a, e).value, x) == Get(a, x)
  {
  }

  /**
   * Detaching the entity in the last slot (the most recent attach, or the
   * only element) erases exactly that entity's entry and that slot's entry.
   */
  lemma DetachLastSlot<T>(a: ComponentArray<T>, e: Entity)
    requires Valid(a)
    requires e in a.entityToIndex && a.entityToIndex[e] == a.size - 1
    ensures Detach(a, e).value.entityToIndex == a.entityToIndex - {e}
    ensures Detach(a, e).value.indexToEntity == a.indexToEntity - {a.size - 1}
    ensures Detach(a, e).value.slots == a.slots
  {
    assert a.indexToEntity[a.size - 1] == e;
  }

  /** Handling a destroyed entity twice is the same as handling it once. */
  lemma HandleDestroyedIdempotent<T>(a: ComponentArray<T>, e: Entity)
    requires Valid(a)
    ensures HandleDestroyed(HandleDestroyed(a, e), e) == HandleDestroyed(a, e)
  {
  }

  /**
   * A store whose entities are all valid handles has room for one more
   * valid handle that it does not hold yet.
   */
  lemma RoomForValidHandle<T>(a: ComponentArray<T>, e: Entity)
    requires Valid(a)
    requires forall x :: x in a.entityToIndex ==> x < MAX_ENTITIES
    requires e < MAX_ENTITIES && e !in a.entityToIndex
    ensures a.size < MAX_ENTITIES
  {
    var held := set x: nat | x in a.entityToIndex;
    assert held == a.entityToIndex.Keys;
    MissingOneIsSmaller(MAX_ENTITIES, held, e);
  }
}
