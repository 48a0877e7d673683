/**
 * ComponentManager: one packed store per registered component type, and the
 * bit position each type occupies in a signature.
 *
 * Component types are identified by a `TypeId`; all stores share one value
 * type `T` (the source keeps a differently typed store behind a common base
 * class per type). The source's two maps keyed by type (type to position,
 * type to store) always have the same keys, so they are kept here as one map
 * from type to its registration. Positions are handed out from a counter
 * that only grows.
 */
module ComponentManagers {
  import opened Results
  import opened Signatures
  import opened Entities
  import CA = ComponentArrays

  /** The identity of a component type (`std::type_index` in the source). */
  type TypeId = nat

  /** What registering a type leaves behind: its bit position and its store. */
  datatype Registration<T> = Registration(position: BitPosition, store: CA.ComponentArray<T>)

  datatype ComponentManager<T> = ComponentManager(
    types: map<TypeId, Registration<T>>,
    nextPosition: nat)

  /**
   * The manager's invariant: one position per registered type, each below
   * the counter, no two types sharing one, and every store keeping its own
   * invariant.
   */
  ghost predicate Valid<T>(cm: ComponentManager<T>) {
    PositionsValid(cm) && StoresValid(cm.types)
  }

  /** Positions are handed out from the counter, each to one type. */
  ghost predicate PositionsValid<T>(cm: ComponentManager<T>) {
    && cm.nextPosition == |cm.types| <= MAX_COMPONENTS
    && (forall t :: t in cm.types ==> cm.types[t].position < cm.nextPosition)
    && (forall t, u :: t in cm.types && u in cm.types && t != u ==>
          cm.types[t].position != cm.types[u].position)
  }

  /** Every store keeps its own invariant. */
  ghost predicate StoresValid<T>(types: map<TypeId, Registration<T>>) {
    forall t :: t in types ==> CA.Valid(types[t].store)
  }

  /** The position invariant does not look at the stores. */
  lemma SamePositions<T>(cm: ComponentManager<T>, r: ComponentManager<T>)
    requires PositionsValid(cm)
    requires r.types.Keys == cm.types.Keys && r.nextPosition == cm.nextPosition
    requires forall u :: u in r.types ==> r.types[u].position == cm.types[u].position
    ensures PositionsValid(r)
  {
  }

  /** A type has been registered. */
  predicate Registered<T>(cm: ComponentManager<T>, t: TypeId) {
    t in cm.types
  }

  /** The bit position of a registered type. */
  function Position<T>(cm: ComponentManager<T>, t: TypeId): BitPosition
    requires Registered(cm, t)
  {
    cm.types[t].position
  }

  /** What the store of a registered type holds. */
  ghost function Holding<T>(cm: ComponentManager<T>, t: TypeId): map<Entity, T>
    requires Registered(cm, t)
  {
    CA.Contents(cm.types[t].store)
  }

  /** The manager as constructed: nothing registered. */
  function Init<T>(): (cm: ComponentManager<T>)
    ensures Valid(cm)
    ensures forall t :: !Registered(cm, t)
  {
    ComponentManager(map[], 0)
  }

  /**
   * `registerComponentType`: give the type the next position and an empty
   * store. A type registered twice aborts. The source never checks the
   * MAX_COMPONENTS ceiling, so the caller must stay below it.
   */
  function Register<T>(cm: ComponentManager<T>, t: TypeId): (r: Result<ComponentManager<T>>)
    requires Valid(cm)
    requires cm.nextPosition < MAX_COMPONENTS
    ensures r.Ok? <==> !Registered(cm, t)
    ensures r.Err? ==> r.error == ComponentTypeAlreadyRegistered
    ensures r.Ok? ==>
      && Valid(r.value)
      && r.value.types.Keys == cm.types.Keys + {t}
      && Position(r.value, t) == |cm.types|
      && Holding(r.value, t) == map[]
      && (forall u :: Registered(cm, u) ==> r.value.types[u] == cm.types[u])
  {
    if t in cm.types then
      Err(ComponentTypeAlreadyRegistered)
    else
      var reg := Registration(cm.nextPosition, CA.Empty());
      var r := ComponentManager(cm.types[t := reg], cm.nextPosition + 1);
      UpdateOthers(cm.types, t, reg);
      RegisterPositions(cm, t, r);
      StoresValidUpdate(cm.types, t, reg);
      assert Holding(r, t) == CA.Contents(CA.Empty<T>());
      Ok(r)
  }

  lemma RegisterPositions<T>(cm: ComponentManager<T>, t: TypeId, r: ComponentManager<T>)
    requires PositionsValid(cm) && cm.nextPosition < MAX_COMPONENTS && t !in cm.types
    requires r.types.Keys == cm.types.Keys + {t} && r.nextPosition == cm.nextPosition + 1
    requires r.types[t].position == cm.nextPosition
    requires forall u :: u in cm.types ==> r.types[u].position == cm.types[u].position
    ensures PositionsValid(r)
  {
    assert |r.types.Keys| == |cm.types.Keys| + 1;
  }

  /** Updating one registration leaves the others in place. */
  lemma UpdateOthers<T>(types: map<TypeId, Registration<T>>, t: TypeId, reg: Registration<T>)
    ensures types[t := reg].Keys == types.Keys + {t}
    ensures forall u :: u in types && u != t ==> types[t := reg][u] == types[u]
  {
  }

  /** Storing a valid store keeps every store valid. */
  lemma StoresValidUpdate<T>(types: map<TypeId, Registration<T>>, t: TypeId, reg: Registration<T>)
    requires StoresValid(types) && CA.Valid(reg.store)
    ensures StoresValid(types[t := reg])
  {
  }

  /** `GetComponentType`: the type's bit position. */
  function GetComponentType<T>(cm: ComponentManager<T>, t: TypeId): (r: Result<BitPosition>)
    requires Valid(cm)
    ensures r.Ok? <==> Registered(cm, t)
    ensures r.Err? ==> r.error == ComponentTypeNotRegistered
    ensures r.Ok? ==> r.value < cm.nextPosition
    ensures r.Ok? ==> forall u :: Registered(cm, u) && u != t ==> Position(cm, u) != r.value
  {
    if t !in cm.types then Err(ComponentTypeNotRegistered)
    else Ok(cm.types[t].position)
  }

  /** `getSignature`: the signature with exactly the type's bit set. */
  function GetSignature<T>(cm: ComponentManager<T>, t: TypeId): (r: Result<Signature>)
    requires Valid(cm)
    ensures r.Ok? <==> Registered(cm, t)
    ensures r.Err? ==> r.error == ComponentTypeNotRegistered
    ensures r.Ok? ==> Bits(r.value) == {Position(cm, t)}
  {
    if t !in cm.types then Err(ComponentTypeNotRegistered)
    else Ok(Single(cm.types[t].position))
  }

  /** The manager with registered type `t`'s store replaced by `a`. */
  function Replaced<T>(cm: ComponentManager<T>, t: TypeId, a: CA.ComponentArray<T>): (r: ComponentManager<T>)
    requires Valid(cm) && Registered(cm, t) && CA.Valid(a)
    ensures Valid(r)
    ensures r.types.Keys == cm.types.Keys && r.nextPosition == cm.nextPosition
    ensures r.types[t] == Registration(Position(cm, t), a)
    ensures forall u :: Registered(cm, u) && u != t ==> r.types[u] == cm.types[u]
  {
    var reg := Registration(cm.types[t].position, a);
    var r := ComponentManager(cm.types[t := reg], cm.nextPosition);
    ReplacedOthers(cm, t, reg, r);
    SamePositions(cm, r);
    StoresValidUpdate(cm.types, t, reg);
    r
  }

  lemma ReplacedOthers<T>(cm: ComponentManager<T>, t: TypeId, reg: Registration<T>, r: ComponentManager<T>)
    requires Registered(cm, t) && reg.position == cm.types[t].position
    requires r == ComponentManager(cm.types[t := reg], cm.nextPosition)
    ensures r.types.Keys == cm.types.Keys && r.nextPosition == cm.nextPosition
    ensures forall u :: u in r.types ==> r.types[u].position == cm.types[u].position
    ensures forall u :: Registered(cm, u) && u != t ==> r.types[u] == cm.types[u]
  {
  }

  /** `AttachComponent`: attach in the type's own store; no other store changes. */
  function Attach<T>(cm: ComponentManager<T>, t: TypeId, e: Entity, v: T): (r: Result<ComponentManager<T>>)
    requires Valid(cm)
    requires Registered(cm, t) ==> cm.types[t].store.size < MAX_ENTITIES || e in cm.types[t].store.entityToIndex
    ensures r.Ok? <==> Registered(cm, t) && e !in Holding(cm, t)
    ensures r.Err? && !Registered(cm, t) ==> r.error == ComponentTypeNotRegistered
    ensures r.Err? && Registered(cm, t) ==> r.error == ComponentAlreadyPresent
    ensures r.Ok? ==>
      && Valid(r.value)
      && r.value.types.Keys == cm.types.Keys
      && r.value.nextPosition == cm.nextPosition
      && Position(r.value, t) == Position(cm, t)
      && Holding(r.value, t) == Holding(cm, t)[e := v]
      && (forall u :: Registered(cm, u) && u != t ==> r.value.types[u] == cm.types[u])
  {
    if t !in cm.types then
      Err(ComponentTypeNotRegistered)
    else
      var a :- CA.Attach(cm.types[t].store, e, v);
      Ok(Replaced(cm, t, a))
  }

  /** `DetachComponent`: detach from the type's own store; no other store changes. */
  function Detach<T>(cm: ComponentManager<T>, t: TypeId, e: Entity): (r: Result<ComponentManager<T>>)
    requires Valid(cm)
    ensures r.Ok? <==> Registered(cm, t) && e in Holding(cm, t)
    ensures r.Err? && !Registered(cm, t) ==> r.error == ComponentTypeNotRegistered
    ensures r.Err? && Registered(cm, t) ==> r.error == ComponentMissing
    ensures r.Ok? ==>
      && Valid(r.value)
      && r.value.types.Keys == cm.types.Keys
      && r.value.nextPosition == cm.nextPosition
      && Position(r.value, t) == Position(cm, t)
      && Holding(r.value, t) == Holding(cm, t) - {e}
      && (forall u :: Registered(cm, u) && u != t ==> r.value.types[u] == cm.types[u])
  {
    if t !in cm.types then
      Err(ComponentTypeNotRegistered)
    else
      var a :- CA.Detach(cm.types[t].store, e);
      Ok(Replaced(cm, t, a))
  }

  /** The type's store's `getComponent`. */
  function Get<T>(cm: ComponentManager<T>, t: TypeId, e: Entity): (r: Result<T>)
    requires Valid(cm)
    ensures r.Ok? <==> Registered(cm, t) && e in Holding(cm, t)
    ensures r.Err? && !Registered(cm, t) ==> r.error == ComponentTypeNotRegistered
    ensures r.Err? && Registered(cm, t) ==> r.error == ComponentMissing
    ensures r.Ok? ==> r.value == Holding(cm, t)[e]
  {
    if t !in cm.types then Err(ComponentTypeNotRegistered)
    else CA.Get(cm.types[t].store, e)
  }

  /**
   * `handleDestroyedEntity`: every store forgets `e`; stores that did not hold
   * it are left as they were.
   */
  function HandleDestroyed<T>(cm: ComponentManager<T>, e: Entity): (r: ComponentManager<T>)
    requires Valid(cm)
    ensures Valid(r)
    ensures r.types.Keys == cm.types.Keys
    ensures forall t :: Registered(r, t) ==>
      && Position(r, t) == Position(cm, t)
      && Holding(r, t) == Holding(cm, t) - {e}
      && (e !in Holding(cm, t) ==> r.types[t] == cm.types[t])
  {
    var r := ComponentManager(Forgotten(cm.types, e), cm.nextPosition);
    SamePositions(cm, r);
    ForgottenStores(cm.types, e);
    ForgottenHoldings(cm, e, r);
    r
  }

  /** Each registration with its store told that `e` is destroyed. */
  function Forgotten<T>(types: map<TypeId, Registration<T>>, e: Entity): (r: map<TypeId, Registration<T>>)
    requires StoresValid(types)
    ensures r.Keys == types.Keys
    ensures forall t :: t in r ==> r[t].position == types[t].position
  {
    map t | t in types :: Registration(types[t].position, CA.HandleDestroyed(types[t].store, e))
  }

  lemma ForgottenStores<T>(types: map<TypeId, Registration<T>>, e: Entity)
    requires StoresValid(types)
    ensures StoresValid(Forgotten(types, e))
  {
    var r := Forgotten(types, e);
    forall t | t in r
      ensures CA.Valid(r[t].store)
    {
      assert r[t].store == CA.HandleDestroyed(types[t].store, e);
    }
  }

  lemma ForgottenHoldings<T>(cm: ComponentManager<T>, e: Entity, r: ComponentManager<T>)
    requires Valid(cm)
    requires r == ComponentManager(Forgotten(cm.types, e), cm.nextPosition)
    ensures forall t :: Registered(r, t) ==>
      && Holding(r, t) == Holding(cm, t) - {e}
      && (e !in Holding(cm, t) ==> r.types[t] == cm.types[t])
  {
    forall t | Registered(r, t)
      ensures Holding(r, t) == Holding(cm, t) - {e}
      ensures e !in Holding(cm, t) ==> r.types[t] == cm.types[t]
    {
      assert r.types[t].store == CA.HandleDestroyed(cm.types[t].store, e);
    }
  }

  /** Positions are assigned in registration order, so no two types share one. */
  lemma RegisterAssignsNextPosition<T>(cm: ComponentManager<T>, t: TypeId)
    requires Valid(cm) && cm.nextPosition < MAX_COMPONENTS
    requires Register(cm, t).Ok?
    ensures GetComponentType(Register(cm, t).value, t) == Ok(|cm.types|)
    ensures forall u :: Registered(cm, u) ==>
      GetComponentType(Register(cm, t).value, u) == GetComponentType(cm, u)
  {
  }
}
