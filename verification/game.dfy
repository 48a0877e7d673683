/**
 * Game: the facade that owns the three managers and keeps them in step.
 *
 * Every operation forwards to the managers in the source's order; an abort
 * in a later step still aborts the whole operation. Two invariants tie the
 * managers together:
 *  - an entity's signature has the bit of a registered type exactly when that
 *    type's store holds a value for it, and no bit above the positions handed
 *    out so far (`Valid`);
 *  - a system's entity set is the set of handles whose signature matches its
 *    requirement (`Synced`). `Synced` looks at every handle below
 *    MAX_ENTITIES, live or queued, so it is not kept by every operation: a
 *    system registered after entities exist starts with an empty set, and a
 *    destroyed handle leaves every system's set, as it should, even though
 *    its cleared signature still matches a system that requires nothing.
 */
module Games {
  import opened Results
  import opened Signatures
  import opened Entities
  import CA = ComponentArrays
  import CM = ComponentManagers
  import SM = Systems

  datatype Game<T> = Game(
    entities: EntityManager,
    components: CM.ComponentManager<T>,
    systems: SM.SystemManager)

  /** The signature held for a handle; handles past the array read as empty. */
  function SignatureOf<T>(g: Game<T>, e: nat): Signature {
    if e < |g.entities.signatures| then g.entities.signatures[e] else Empty
  }

  /** Every bit set in a signature belongs to a position already handed out. */
  ghost predicate BitsRegistered<T>(g: Game<T>) {
    forall e: nat, p :: e < MAX_ENTITIES && p in Bits(SignatureOf(g, e)) ==>
      p < g.components.nextPosition
  }

  /** A registered type's store holds a value for an entity exactly when its bit is set. */
  ghost predicate StoresAgree<T>(g: Game<T>) {
    forall t, e: Entity :: CM.Registered(g.components, t) ==>
      (e in CM.Holding(g.components, t) <==>
        e < MAX_ENTITIES && CM.Position(g.components, t) in Bits(SignatureOf(g, e)))
  }

  /** Signatures and stores tell the same story. */
  ghost predicate Agree<T>(g: Game<T>) {
    BitsRegistered(g) && StoresAgree(g)
  }

  /** The game's invariant: each manager's own, and their agreement. */
  ghost predicate Valid<T>(g: Game<T>) {
    && Entities.Valid(g.entities)
    && CM.Valid(g.components)
    && SM.Valid(g.systems)
    && Agree(g)
  }

  /** System `s` is registered and processes exactly the handles that match its requirement. */
  ghost predicate Synced<T>(g: Game<T>, s: SM.SystemId) {
    && s in g.systems.members
    && s in g.systems.requirements
    && forall e: Entity :: e in g.systems.members[s] <==>
         e < MAX_ENTITIES && Matches(SignatureOf(g, e), g.systems.requirements[s])
  }

  /** Agreement looks only at signatures and component stores. */
  lemma SameSignaturesAgree<T>(g: Game<T>, r: Game<T>)
    requires Agree(g)
    requires r.components == g.components
    requires forall x: nat :: SignatureOf(r, x) == SignatureOf(g, x)
    ensures Agree(r)
  {
  }

  /** A system whose set and requirement are unchanged stays synced while no signature changes. */
  lemma SameSignaturesSynced<T>(g: Game<T>, r: Game<T>)
    requires forall x: nat :: SignatureOf(r, x) == SignatureOf(g, x)
    requires forall s :: s in g.systems.members && s in g.systems.requirements ==>
      && s in r.systems.members && s in r.systems.requirements
      && r.systems.members[s] == g.systems.members[s]
      && r.systems.requirements[s] == g.systems.requirements[s]
    ensures forall s :: Synced(g, s) ==> Synced(r, s)
  {
  }

  /** `Game::init`: three fresh managers. */
  function Init<T>(): (g: Game<T>)
    ensures Valid(g)
    ensures forall t :: !CM.Registered(g.components, t)
    ensures forall s :: !SM.Registered(g.systems, s)
    ensures forall e: nat :: SignatureOf(g, e) == Empty
    ensures g.entities == Entities.Init()
    ensures |g.entities.available| == MAX_ENTITIES
    ensures forall i :: 0 <= i < MAX_ENTITIES ==> g.entities.available[i] == i
    ensures g.entities.livingCount == 0 && Live(g.entities) == {}
  {
    var g := Game(Entities.Init(), CM.Init(), SM.Init());
    BitsEmpty();
    g
  }

  /**
   * A fresh game issues handles from 0 upwards: the first creation succeeds,
   * returns handle 0, and leaves 1 at the front of the queue.
   */
  lemma FirstCreateAfterInit<T>()
    ensures CreateEntity(Init<T>()).Ok?
    ensures CreateEntity(Init<T>()).value.1 == 0
    ensures CreateEntity(Init<T>()).value.0.entities.available[0] == 1
  {
    var g := Init<T>();
    var r := CreateEntity(g);
    assert r.value.0.entities.available[0] == g.entities.available[1];
  }

  /** `CreateEntity`: take a handle; no signature, store or system changes. */
  function CreateEntity<T>(g: Game<T>): (r: Result<(Game<T>, Entity)>)
    requires Valid(g)
    ensures r.Ok? <==> g.entities.livingCount < MAX_ENTITIES
    ensures r.Err? ==> r.error == EntityLimitReached
    ensures r.Ok? ==>
      && Valid(r.value.0)
      && |g.entities.available| > 0 && r.value.1 == g.entities.available[0]
      && r.value.0.entities.available == g.entities.available[1..]
      && r.value.0.entities.livingCount == g.entities.livingCount + 1
      && r.value.1 !in Live(g.entities)
      && Live(r.value.0.entities) == Live(g.entities) + {r.value.1}
      && r.value.0.components == g.components
      && r.value.0.systems == g.systems
      && (forall x: nat :: SignatureOf(r.value.0, x) == SignatureOf(g, x))
      && (forall s :: Synced(g, s) ==> Synced(r.value.0, s))
  {
    var created :- Entities.Create(g.entities);
    var m := created.0;
    assert m.signatures == g.entities.signatures && Entities.Valid(m);
    var r := g.(entities := m);
    SameSignaturesAgree(g, r);
    SameSignaturesSynced(g, r);
    Ok((r, created.1))
  }

  /**
   * `DestroyEntity`: release the handle, then empty its stores and system
   * sets. The handle must be live, as the entity manager demands.
   */
  function DestroyEntity<T>(g: Game<T>, e: Entity): (r: Result<Game<T>>)
    requires Valid(g)
    requires e !in g.entities.available
    ensures r.Ok? <==> e < MAX_ENTITIES
    ensures r.Err? ==> r.error == EntityOutOfRange
    ensures r.Ok? ==>
      && Valid(r.value)
      && Live(r.value.entities) == Live(g.entities) - {e}
      && r.value.entities.available == g.entities.available + [e]
      && r.value.entities.livingCount == g.entities.livingCount
      && SignatureOf(r.value, e) == Empty
      && (forall x: nat :: x != e ==> SignatureOf(r.value, x) == SignatureOf(g, x))
      && r.value.components.types.Keys == g.components.types.Keys
      && r.value.components.nextPosition == g.components.nextPosition
      && (forall t :: CM.Registered(g.components, t) ==>
            && CM.Position(r.value.components, t) == CM.Position(g.components, t)
            && CM.Holding(r.value.components, t) == CM.Holding(g.components, t) - {e})
      && r.value.systems.requirements == g.systems.requirements
      && r.value.systems.members.Keys == g.systems.members.Keys
      && (forall s :: SM.Registered(g.systems, s) ==>
            r.value.systems.members[s] == g.systems.members[s] - {e})
      && (forall s :: Synced(g, s) && g.systems.requirements[s] != Empty ==> Synced(r.value, s))
  {
    var m :- Entities.Destroy(g.entities, e);
    var r := Game(m, CM.HandleDestroyed(g.components, e), SM.HandleDestroyed(g.systems, e));
    assert SignatureOf(r, e) == Empty;
    DestroyedAgree(g, e, r);
    DestroyedSynced(g, e, r);
    Ok(r)
  }

  lemma DestroyedAgree<T>(g: Game<T>, e: Entity, r: Game<T>)
    requires Agree(g) && e < MAX_ENTITIES
    requires SignatureOf(r, e) == Empty
    requires forall x: nat :: x != e ==> SignatureOf(r, x) == SignatureOf(g, x)
    requires r.components.types.Keys == g.components.types.Keys
    requires r.components.nextPosition == g.components.nextPosition
    requires forall t :: CM.Registered(r.components, t) ==>
      && CM.Position(r.components, t) == CM.Position(g.components, t)
      && CM.Holding(r.components, t) == CM.Holding(g.components, t) - {e}
    ensures Agree(r)
  {
    BitsEmpty();
  }

  lemma DestroyedSynced<T>(g: Game<T>, e: Entity, r: Game<T>)
    requires e < MAX_ENTITIES
    requires SignatureOf(r, e) == Empty
    requires forall x: nat :: x != e ==> SignatureOf(r, x) == SignatureOf(g, x)
    requires r.systems.requirements == g.systems.requirements
    requires r.systems.members.Keys == g.systems.members.Keys
    requires forall s :: SM.Registered(r.systems, s) ==> r.systems.members[s] == g.systems.members[s] - {e}
    ensures forall s :: Synced(g, s) && g.systems.requirements[s] != Empty ==> Synced(r, s)
  {
    forall s | Synced(g, s) && g.systems.requirements[s] != Empty
      ensures Synced(r, s)
    {
      EmptyMatchesOnlyEmpty(g.systems.requirements[s]);
    }
  }

  /**
   * Where `Synced` and destruction part ways. Because `Synced` counts every
   * handle in range, a synced system that requires nothing holds every
   * handle; destruction rightly removes the handle from its set, but the
   * handle's cleared signature still matches, so `Synced` no longer holds.
   */
  lemma DestroyUnsyncsEmptyRequirement<T>(g: Game<T>, e: Entity, s: SM.SystemId)
    requires Valid(g) && e !in g.entities.available && e < MAX_ENTITIES
    requires Synced(g, s) && g.systems.requirements[s] == Empty
    ensures e in g.systems.members[s]
    ensures DestroyEntity(g, e).Ok?
    ensures !Synced(DestroyEntity(g, e).value, s)
  {
    EmptyMatchesEverything(SignatureOf(g, e));
    var r := DestroyEntity(g, e).value;
    EmptyMatchesEverything(SignatureOf(r, e));
    assert e !in r.systems.members[s];
  }

  /**
   * `RegisterComponent`: a new type gets the next position and an empty store.
   * Entities and systems are untouched.
   */
  function RegisterComponent<T>(g: Game<T>, t: CM.TypeId): (r: Result<Game<T>>)
    requires Valid(g)
    requires g.components.nextPosition < MAX_COMPONENTS
    ensures r.Ok? <==> !CM.Registered(g.components, t)
    ensures r.Err? ==> r.error == ComponentTypeAlreadyRegistered
    ensures r.Ok? ==>
      && Valid(r.value)
      && r.value.entities == g.entities
      && r.value.systems == g.systems
      && r.value.components.types.Keys == g.components.types.Keys + {t}
      && CM.Position(r.value.components, t) == g.components.nextPosition
      && CM.Holding(r.value.components, t) == map[]
      && (forall u :: CM.Registered(g.components, u) ==> r.value.components.types[u] == g.components.types[u])
      && (forall s :: Synced(g, s) ==> Synced(r.value, s))
  {
    var c :- CM.Register(g.components, t);
    var r := g.(components := c);
    RegisteredAgree(g, t, r);
    Ok(r)
  }

  lemma RegisteredAgree<T>(g: Game<T>, t: CM.TypeId, r: Game<T>)
    requires Agree(g) && !CM.Registered(g.components, t)
    requires r.entities == g.entities
    requires r.components.types.Keys == g.components.types.Keys + {t}
    requires r.components.nextPosition == g.components.nextPosition + 1
    requires CM.Position(r.components, t) == g.components.nextPosition
    requires CM.Holding(r.components, t) == map[]
    requires forall u :: CM.Registered(g.components, u) ==> r.components.types[u] == g.components.types[u]
    ensures Agree(r)
  {
    forall x: nat, p | x < MAX_ENTITIES && p in Bits(SignatureOf(r, x))
      ensures p < r.components.nextPosition
    {
      assert SignatureOf(r, x) == SignatureOf(g, x);
    }
    forall u, x: Entity | CM.Registered(r.components, u)
      ensures x in CM.Holding(r.components, u) <==>
        x < MAX_ENTITIES && CM.Position(r.components, u) in Bits(SignatureOf(r, x))
    {
      assert SignatureOf(r, x) == SignatureOf(g, x);
      if u == t {
        if x < MAX_ENTITIES {
          assert g.components.nextPosition !in Bits(SignatureOf(g, x));
        }
      } else {
        assert r.components.types[u] == g.components.types[u];
        assert x in CM.Holding(g.components, u) <==>
          x < MAX_ENTITIES && CM.Position(g.components, u) in Bits(SignatureOf(g, x));
      }
    }
  }

  /** The values of a registered type are held by in-range handles with the type's bit. */
  lemma HoldersHaveBit<T>(g: Game<T>, t: CM.TypeId)
    requires StoresAgree(g) && CM.Registered(g.components, t)
    ensures forall x: Entity :: x in CM.Holding(g.components, t) <==>
      x < MAX_ENTITIES && CM.Position(g.components, t) in Bits(SignatureOf(g, x))
  {
  }

  /** A registered type's store has room for an in-range handle it does not hold. */
  lemma StoreHasRoom<T>(g: Game<T>, t: CM.TypeId, e: Entity)
    requires Valid(g) && CM.Registered(g.components, t)
    requires e !in CM.Holding(g.components, t) && e < MAX_ENTITIES
    ensures g.components.types[t].store.size < MAX_ENTITIES
  {
    var a := g.components.types[t].store;
    assert CA.Valid(a);
    CA.ContentsKeys(a);
    HoldersHaveBit(g, t);
    forall x | x in a.entityToIndex ensures x < MAX_ENTITIES {
      assert x in CM.Holding(g.components, t);
    }
    CA.RoomForValidHandle(a, e);
  }

  /**
   * `AttachComponent`: attach in the type's store, set the type's bit in the
   * entity's signature, and tell the systems. The source's checks fire in this
   * order: unregistered type, value already present, handle out of range (the
   * last only after the store has been written). An out-of-range handle must
   * not meet a full store, where the source writes past the array before the
   * range check.
   */
  function AttachComponent<T>(g: Game<T>, t: CM.TypeId, e: Entity, v: T): (r: Result<Game<T>>)
    requires Valid(g)
    requires CM.Registered(g.components, t) && e >= MAX_ENTITIES ==>
      g.components.types[t].store.size < MAX_ENTITIES
    ensures r.Ok? <==>
      CM.Registered(g.components, t) && e !in CM.Holding(g.components, t) && e < MAX_ENTITIES
    ensures r.Err? ==> (r.error ==
      if !CM.Registered(g.components, t) then ComponentTypeNotRegistered
      else if e in CM.Holding(g.components, t) then ComponentAlreadyPresent
      else EntityOutOfRange)
    ensures r.Ok? ==>
      && Valid(r.value)
      && r.value.entities.available == g.entities.available
      && r.value.components.types.Keys == g.components.types.Keys
      && r.value.components.nextPosition == g.components.nextPosition
      && CM.Position(r.value.components, t) == CM.Position(g.components, t)
      && CM.Holding(r.value.components, t) == CM.Holding(g.components, t)[e := v]
      && Bits(SignatureOf(r.value, e)) == Bits(SignatureOf(g, e)) + {CM.Position(g.components, t)}
      && (forall x: nat :: x != e ==> SignatureOf(r.value, x) == SignatureOf(g, x))
      && (forall u :: CM.Registered(g.components, u) && u != t ==>
            r.value.components.types[u] == g.components.types[u])
      && r.value.systems.requirements == g.systems.requirements
      && r.value.entities.livingCount == g.entities.livingCount
      && r.value.systems.members.Keys == g.systems.members.Keys
      && (forall s :: SM.Registered(g.systems, s) ==>
            (e in r.value.systems.members[s] <==> Matches(SignatureOf(r.value, e), g.systems.requirements[s])))
      && (forall s, x :: SM.Registered(g.systems, s) && x != e ==>
            (x in r.value.systems.members[s] <==> x in g.systems.members[s]))
      && (forall s :: Synced(g, s) ==> Synced(r.value, s))
  {
    if !CM.Registered(g.components, t) then Err(ComponentTypeNotRegistered)
    else
      CA.ContentsKeys(g.components.types[t].store);
      if e in g.components.types[t].store.entityToIndex then Err(ComponentAlreadyPresent)
      else if e >= MAX_ENTITIES then Err(EntityOutOfRange)
      else Ok(Attached(g, t, e, v))
  }

  /** The game `AttachComponent` leaves when none of its checks fires. */
  function Attached<T>(g: Game<T>, t: CM.TypeId, e: Entity, v: T): (r: Game<T>)
    requires Valid(g) && CM.Registered(g.components, t)
    requires e !in CM.Holding(g.components, t) && e < MAX_ENTITIES
    ensures Valid(r)
    ensures r.entities.available == g.entities.available
    ensures r.components.types.Keys == g.components.types.Keys
    ensures r.components.nextPosition == g.components.nextPosition
    ensures CM.Position(r.components, t) == CM.Position(g.components, t)
    ensures CM.Holding(r.components, t) == CM.Holding(g.components, t)[e := v]
    ensures Bits(SignatureOf(r, e)) == Bits(SignatureOf(g, e)) + {CM.Position(g.components, t)}
    ensures forall x: nat :: x != e ==> SignatureOf(r, x) == SignatureOf(g, x)
    ensures forall u :: CM.Registered(g.components, u) && u != t ==>
      r.components.types[u] == g.components.types[u]
    ensures r.systems.requirements == g.systems.requirements
    ensures r.entities.livingCount == g.entities.livingCount
    ensures r.systems.members.Keys == g.systems.members.Keys
    ensures forall s :: SM.Registered(g.systems, s) ==>
      (e in r.systems.members[s] <==> Matches(SignatureOf(r, e), g.systems.requirements[s]))
    ensures forall s, x :: SM.Registered(g.systems, s) && x != e ==>
      (x in r.systems.members[s] <==> x in g.systems.members[s])
    ensures forall s :: Synced(g, s) ==> Synced(r, s)
  {
    StoreHasRoom(g, t, e);
    var c := CM.Attach(g.components, t, e, v).value;
    var sig := g.entities.signatures[e];  // `GetSignature`, in range here
    var changed := SetBit(sig, CM.Position(g.components, t));
    var r := Recorded(g, e, changed, c);
    AttachedValid(g, t, e, v, r);
    r
  }

  /**
   * `DetachComponent`: detach from the type's store, clear the type's bit in
   * the entity's signature, and tell the systems. An unregistered type or an
   * absent value aborts; a held handle is always in range.
   */
  function DetachComponent<T>(g: Game<T>, t: CM.TypeId, e: Entity): (r: Result<Game<T>>)
    requires Valid(g)
    ensures r.Ok? <==> CM.Registered(g.components, t) && e in CM.Holding(g.components, t)
    ensures r.Err? ==> (r.error ==
      if !CM.Registered(g.components, t) then ComponentTypeNotRegistered else ComponentMissing)
    ensures r.Ok? ==>
      && Valid(r.value)
      && r.value.entities.available == g.entities.available
      && r.value.components.types.Keys == g.components.types.Keys
      && r.value.components.nextPosition == g.components.nextPosition
      && CM.Position(r.value.components, t) == CM.Position(g.components, t)
      && CM.Holding(r.value.components, t) == CM.Holding(g.components, t) - {e}
      && Bits(SignatureOf(r.value, e)) == Bits(SignatureOf(g, e)) - {CM.Position(g.components, t)}
      && (forall x: nat :: x != e ==> SignatureOf(r.value, x) == SignatureOf(g, x))
      && (forall u :: CM.Registered(g.components, u) && u != t ==>
            r.value.components.types[u] == g.components.types[u])
      && r.value.systems.requirements == g.systems.requirements
      && r.value.entities.livingCount == g.entities.livingCount
      && r.value.systems.members.Keys == g.systems.members.Keys
      && (forall s :: SM.Registered(g.systems, s) ==>
            (e in r.value.systems.members[s] <==> Matches(SignatureOf(r.value, e), g.systems.requirements[s])))
      && (forall s, x :: SM.Registered(g.systems, s) && x != e ==>
            (x in r.value.systems.members[s] <==> x in g.systems.members[s]))
      && (forall s :: Synced(g, s) ==> Synced(r.value, s))
  {
    var c :- CM.Detach(g.components, t, e);
    HoldersHaveBit(g, t);
    var sig := g.entities.signatures[e];  // `GetSignature`, in range here
    var changed := ClearBit(sig, CM.Position(g.components, t));
    var r := Recorded(g, e, changed, c);
    DetachedValid(g, t, e, r);
    Ok(r)
  }

  /**
   * Detaching right after attaching restores every signature, every store
   * and the entity set of every synced system.
   */
  lemma AttachThenDetach<T>(g: Game<T>, t: CM.TypeId, e: Entity, v: T)
    requires Valid(g) && CM.Registered(g.components, t)
    requires e !in CM.Holding(g.components, t) && e < MAX_ENTITIES
    ensures AttachComponent(g, t, e, v).Ok?
    ensures DetachComponent(AttachComponent(g, t, e, v).value, t, e).Ok?
    ensures var d := DetachComponent(AttachComponent(g, t, e, v).value, t, e).value;
      && (forall x: nat :: SignatureOf(d, x) == SignatureOf(g, x))
      && (forall u :: CM.Registered(g.components, u) ==> CM.Holding(d.components, u) == CM.Holding(g.components, u))
      && (forall s :: Synced(g, s) ==> Synced(d, s) && d.systems.members[s] == g.systems.members[s])
  {
    var a := AttachComponent(g, t, e, v).value;
    var d := DetachComponent(a, t, e).value;
    HoldersHaveBit(g, t);
    RestoredSignatures(g, e, CM.Position(g.components, t), a, d);
    RestoredStores(g, t, e, v, a, d);
    RestoredSystems(g, a, d);
  }

  /** Setting a clear bit of one entity and clearing it again restores every signature. */
  lemma RestoredSignatures<T>(g: Game<T>, e: Entity, p: BitPosition, a: Game<T>, d: Game<T>)
    requires p !in Bits(SignatureOf(g, e))
    requires Bits(SignatureOf(a, e)) == Bits(SignatureOf(g, e)) + {p}
    requires forall x: nat :: x != e ==> SignatureOf(a, x) == SignatureOf(g, x)
    requires Bits(SignatureOf(d, e)) == Bits(SignatureOf(a, e)) - {p}
    requires forall x: nat :: x != e ==> SignatureOf(d, x) == SignatureOf(a, x)
    ensures forall x: nat :: SignatureOf(d, x) == SignatureOf(g, x)
  {
    assert Bits(SignatureOf(d, e)) == Bits(SignatureOf(g, e));
    BitsInjective(SignatureOf(d, e), SignatureOf(g, e));
  }

  /** Attaching a fresh value to one store and detaching it again restores every store. */
  lemma RestoredStores<T>(g: Game<T>, t: CM.TypeId, e: Entity, v: T, a: Game<T>, d: Game<T>)
    requires CM.Registered(g.components, t) && e !in CM.Holding(g.components, t)
    requires a.components.types.Keys == g.components.types.Keys
    requires CM.Holding(a.components, t) == CM.Holding(g.components, t)[e := v]
    requires forall u :: CM.Registered(g.components, u) && u != t ==> a.components.types[u] == g.components.types[u]
    requires d.components.types.Keys == a.components.types.Keys
    requires CM.Holding(d.components, t) == CM.Holding(a.components, t) - {e}
    requires forall u :: CM.Registered(a.components, u) && u != t ==> d.components.types[u] == a.components.types[u]
    ensures forall u :: CM.Registered(g.components, u) ==> CM.Holding(d.components, u) == CM.Holding(g.components, u)
  {
    forall u | CM.Registered(g.components, u)
      ensures CM.Holding(d.components, u) == CM.Holding(g.components, u)
    {
      if u == t {
        UpdateThenRemove(CM.Holding(g.components, t), e, v);
      } else {
        assert d.components.types[u] == g.components.types[u];
      }
    }
  }

  /** A synced system whose requirement and whose entities' signatures are back where they were has its old set. */
  lemma RestoredSystems<T>(g: Game<T>, a: Game<T>, d: Game<T>)
    requires forall x: nat :: SignatureOf(d, x) == SignatureOf(g, x)
    requires a.systems.requirements == g.systems.requirements
    requires d.systems.requirements == a.systems.requirements
    requires forall s :: Synced(g, s) ==> Synced(a, s)
    requires forall s :: Synced(a, s) ==> Synced(d, s)
    ensures forall s :: Synced(g, s) ==> Synced(d, s) && d.systems.members[s] == g.systems.members[s]
  {
    forall s | Synced(g, s) ensures Synced(d, s) && d.systems.members[s] == g.systems.members[s] {
      assert Synced(a, s);
      forall x: Entity ensures x in d.systems.members[s] <==> x in g.systems.members[s] {
        assert SignatureOf(d, x) == SignatureOf(g, x);
      }
    }
  }

  /** Adding a fresh key and removing it again gives back the map. */
  lemma UpdateThenRemove<K, V>(m: map<K, V>, k: K, v: V)
    requires k !in m
    ensures m[k := v] - {k} == m
  {
  }

  /**
   * The common tail of attaching and detaching: store the entity's new
   * signature and report it to the systems, with the stores `c`.
   */
  function Recorded<T>(g: Game<T>, e: Entity, changed: Signature, c: CM.ComponentManager<T>): (r: Game<T>)
    requires Entities.Valid(g.entities) && SM.Valid(g.systems) && e < MAX_ENTITIES
    ensures Entities.Valid(r.entities) && SM.Valid(r.systems)
    ensures r.components == c
    ensures r.systems == SM.SignatureChanged(g.systems, e, changed)
    ensures r.systems.requirements == g.systems.requirements
    ensures r.entities.livingCount == g.entities.livingCount
    ensures r.entities.available == g.entities.available
    ensures SignatureOf(r, e) == changed
    ensures forall x: nat :: x != e ==> SignatureOf(r, x) == SignatureOf(g, x)
    ensures forall s :: Synced(g, s) ==> Synced(r, s)
  {
    var m := Entities.SetSignature(g.entities, e, changed).value;
    var r := Game(m, c, SM.SignatureChanged(g.systems, e, changed));
    ChangedSynced(g, e, r);
    r
  }

  lemma AttachedValid<T>(g: Game<T>, t: CM.TypeId, e: Entity, v: T, r: Game<T>)
    requires Agree(g) && CM.PositionsValid(g.components) && CM.Registered(g.components, t) && e < MAX_ENTITIES
    requires e !in CM.Holding(g.components, t)
    requires Entities.Valid(r.entities) && CM.Valid(r.components) && SM.Valid(r.systems)
    requires r.components.types.Keys == g.components.types.Keys
    requires r.components.nextPosition == g.components.nextPosition
    requires CM.Position(r.components, t) == CM.Position(g.components, t)
    requires CM.Holding(r.components, t) == CM.Holding(g.components, t)[e := v]
    requires forall u :: CM.Registered(g.components, u) && u != t ==> r.components.types[u] == g.components.types[u]
    requires forall x: nat :: x != e ==> SignatureOf(r, x) == SignatureOf(g, x)
    requires Bits(SignatureOf(r, e)) == Bits(SignatureOf(g, e)) + {CM.Position(g.components, t)}
    ensures Valid(r)
  {
    ChangedAgree(g, t, e, true, r);
  }

  lemma DetachedValid<T>(g: Game<T>, t: CM.TypeId, e: Entity, r: Game<T>)
    requires Agree(g) && CM.PositionsValid(g.components) && CM.Registered(g.components, t) && e < MAX_ENTITIES
    requires Entities.Valid(r.entities) && CM.Valid(r.components) && SM.Valid(r.systems)
    requires r.components.types.Keys == g.components.types.Keys
    requires r.components.nextPosition == g.components.nextPosition
    requires CM.Position(r.components, t) == CM.Position(g.components, t)
    requires CM.Holding(r.components, t) == CM.Holding(g.components, t) - {e}
    requires forall u :: CM.Registered(g.components, u) && u != t ==> r.components.types[u] == g.components.types[u]
    requires forall x: nat :: x != e ==> SignatureOf(r, x) == SignatureOf(g, x)
    requires Bits(SignatureOf(r, e)) == Bits(SignatureOf(g, e)) - {CM.Position(g.components, t)}
    ensures Valid(r)
  {
    ChangedAgree(g, t, e, false, r);
  }

  /**
   * After one entity's value for type `t` is attached (`attached`) or detached
   * and its signature bit follows, signatures and stores agree again.
   */
  lemma ChangedAgree<T>(g: Game<T>, t: CM.TypeId, e: Entity, attached: bool, r: Game<T>)
    requires Agree(g) && CM.Registered(g.components, t) && e < MAX_ENTITIES
    requires CM.Position(g.components, t) < g.components.nextPosition
    requires r.components.types.Keys == g.components.types.Keys
    requires r.components.nextPosition == g.components.nextPosition
    requires CM.Position(r.components, t) == CM.Position(g.components, t)
    requires forall u :: CM.Registered(g.components, u) && u != t ==> r.components.types[u] == g.components.types[u]
    requires forall u :: CM.Registered(g.components, u) && u != t ==>
      CM.Position(g.components, u) != CM.Position(g.components, t)
    requires forall x: Entity :: x != e ==>
      (x in CM.Holding(r.components, t) <==> x in CM.Holding(g.components, t))
    requires e in CM.Holding(r.components, t) <==> attached
    requires forall x: nat :: x != e ==> SignatureOf(r, x) == SignatureOf(g, x)
    requires Bits(SignatureOf(r, e)) ==
      if attached then Bits(SignatureOf(g, e)) + {CM.Position(g.components, t)}
      else Bits(SignatureOf(g, e)) - {CM.Position(g.components, t)}
    ensures Agree(r)
  {
    ChangedBitsRegistered(g, t, e, attached, r);
    ChangedStoresAgree(g, t, e, attached, r);
  }

  lemma ChangedBitsRegistered<T>(g: Game<T>, t: CM.TypeId, e: Entity, attached: bool, r: Game<T>)
    requires BitsRegistered(g) && CM.Registered(g.components, t) && e < MAX_ENTITIES
    requires CM.Position(g.components, t) < g.components.nextPosition
    requires r.components.nextPosition == g.components.nextPosition
    requires forall x: nat :: x != e ==> SignatureOf(r, x) == SignatureOf(g, x)
    requires Bits(SignatureOf(r, e)) ==
      if attached then Bits(SignatureOf(g, e)) + {CM.Position(g.components, t)}
      else Bits(SignatureOf(g, e)) - {CM.Position(g.components, t)}
    ensures BitsRegistered(r)
  {
    forall x: nat, p | x < MAX_ENTITIES && p in Bits(SignatureOf(r, x))
      ensures p < r.components.nextPosition
    {
      if x != e {
        assert SignatureOf(r, x) == SignatureOf(g, x);
      }
    }
  }

  lemma ChangedStoresAgree<T>(g: Game<T>, t: CM.TypeId, e: Entity, attached: bool, r: Game<T>)
    requires StoresAgree(g) && CM.Registered(g.components, t) && e < MAX_ENTITIES
    requires r.components.types.Keys == g.components.types.Keys
    requires CM.Position(r.components, t) == CM.Position(g.components, t)
    requires forall u :: CM.Registered(g.components, u) && u != t ==> r.components.types[u] == g.components.types[u]
    requires forall u :: CM.Registered(g.components, u) && u != t ==>
      CM.Position(g.components, u) != CM.Position(g.components, t)
    requires forall x: Entity :: x != e ==>
      (x in CM.Holding(r.components, t) <==> x in CM.Holding(g.components, t))
    requires e in CM.Holding(r.components, t) <==> attached
    requires forall x: nat :: x != e ==> SignatureOf(r, x) == SignatureOf(g, x)
    requires Bits(SignatureOf(r, e)) ==
      if attached then Bits(SignatureOf(g, e)) + {CM.Position(g.components, t)}
      else Bits(SignatureOf(g, e)) - {CM.Position(g.components, t)}
    ensures StoresAgree(r)
  {
    forall u, x: Entity | CM.Registered(r.components, u)
      ensures x in CM.Holding(r.components, u) <==>
        x < MAX_ENTITIES && CM.Position(r.components, u) in Bits(SignatureOf(r, x))
    {
      assert u in r.components.types.Keys;
      assert CM.Registered(g.components, u);
      assert x in CM.Holding(g.components, u) <==>
        x < MAX_ENTITIES && CM.Position(g.components, u) in Bits(SignatureOf(g, x));
      if u != t {
        assert r.components.types[u] == g.components.types[u];
      }
      if x != e {
        assert SignatureOf(r, x) == SignatureOf(g, x);
      }
    }
  }

  /** A signature change for `e`, reported to the systems, keeps every synced system synced. */
  lemma ChangedSynced<T>(g: Game<T>, e: Entity, r: Game<T>)
    requires SM.Valid(g.systems) && e < MAX_ENTITIES
    requires forall x: nat :: x != e ==> SignatureOf(r, x) == SignatureOf(g, x)
    requires r.systems == SM.SignatureChanged(g.systems, e, SignatureOf(r, e))
    ensures forall s :: Synced(g, s) ==> Synced(r, s)
  {
  }

  /** `GetComponent`: the type's store's value for the entity, whose bit is then set. */
  function GetComponent<T>(g: Game<T>, t: CM.TypeId, e: Entity): (r: Result<T>)
    requires Valid(g)
    ensures r.Ok? <==> CM.Registered(g.components, t) && e in CM.Holding(g.components, t)
    ensures r.Err? ==> (r.error ==
      if !CM.Registered(g.components, t) then ComponentTypeNotRegistered else ComponentMissing)
    ensures r.Ok? ==>
      && r.value == CM.Holding(g.components, t)[e]
      && e < MAX_ENTITIES
      && CM.Position(g.components, t) in Bits(SignatureOf(g, e))
  {
    var v :- CM.Get(g.components, t, e);
    HoldersHaveBit(g, t);
    Ok(v)
  }

  /** `GetComponentType`: the type's position, whose bit marks exactly the holders of its values. */
  function GetComponentType<T>(g: Game<T>, t: CM.TypeId): (r: Result<BitPosition>)
    requires Valid(g)
    ensures r.Ok? <==> CM.Registered(g.components, t)
    ensures r.Err? ==> r.error == ComponentTypeNotRegistered
    ensures r.Ok? ==> r.value == CM.Position(g.components, t)
    ensures r.Ok? ==> forall x: Entity ::
      x in CM.Holding(g.components, t) <==> x < MAX_ENTITIES && r.value in Bits(SignatureOf(g, x))
  {
    var p :- CM.GetComponentType(g.components, t);
    HoldersHaveBit(g, t);
    Ok(p)
  }

  /**
   * `RegisterSystem`: the new system starts with an empty set; every other
   * system keeps its set and requirement.
   */
  function RegisterSystem<T>(g: Game<T>, s: SM.SystemId, required: Signature): (r: Result<Game<T>>)
    requires Valid(g)
    ensures r.Ok? <==> !SM.Registered(g.systems, s)
    ensures r.Err? ==> r.error == SystemAlreadyRegistered
    ensures r.Ok? ==>
      && Valid(r.value)
      && r.value.entities == g.entities
      && r.value.components == g.components
      && r.value.systems.members.Keys == g.systems.members.Keys + {s}
      && r.value.systems.members[s] == {}
      && r.value.systems.requirements[s] == required
      && (forall u :: SM.Registered(g.systems, u) ==>
            && r.value.systems.requirements[u] == g.systems.requirements[u]
            && r.value.systems.members[u] == g.systems.members[u])
      && (forall u :: Synced(g, u) ==> Synced(r.value, u))
  {
    var sm :- SM.RegisterSystem(g.systems, s, required);
    var r := g.(systems := sm);
    SameSignaturesAgree(g, r);
    SameSignaturesSynced(g, r);
    Ok(r)
  }

  /** A system registered late is synced exactly when no handle matches its requirement yet. */
  lemma RegisterSystemSyncedIff<T>(g: Game<T>, s: SM.SystemId, required: Signature)
    requires Valid(g) && !SM.Registered(g.systems, s)
    ensures Synced(RegisterSystem(g, s, required).value, s) <==>
      forall x: nat :: x < MAX_ENTITIES ==> !Matches(SignatureOf(g, x), required)
  {
    var r := RegisterSystem(g, s, required).value;
    if Synced(r, s) {
      forall x: nat | x < MAX_ENTITIES ensures !Matches(SignatureOf(g, x), required) {
        var y: Entity := x;
        assert y !in r.systems.members[s];
        assert SignatureOf(r, y) == SignatureOf(g, y);
      }
    } else {
      var x: Entity :| !(x in r.systems.members[s] <==>
        x < MAX_ENTITIES && Matches(SignatureOf(r, x), required));
      assert SignatureOf(r, x) == SignatureOf(g, x);
      assert x < MAX_ENTITIES && Matches(SignatureOf(g, x), required);
    }
  }

  /** `SetSystemSignature`: aborts for an unregistered system, otherwise changes nothing. */
  function SetSystemSignature<T>(g: Game<T>, s: SM.SystemId, required: Signature): (r: Result<Game<T>>)
    requires Valid(g)
    ensures r.Ok? <==> SM.Registered(g.systems, s)
    ensures r.Err? ==> r.error == SystemNotRegistered
    ensures r.Ok? ==> r.value == g
  {
    var sm :- SM.SetSignature(g.systems, s, required);
    Ok(g.(systems := sm))
  }
}
