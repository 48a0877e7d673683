/**
 * SystemManager: the systems registered with the runtime, the component
 * signature each one requires, and the set of entities each one processes.
 *
 * A system is identified by a `SystemId` (the source keys systems by their
 * C++ type). Of a system object only its entity set matters here; its
 * `update` behaviour is user code.
 */
module Systems {
  import opened Results
  import opened Signatures
  import opened Entities

  /** The identity of a system type (`std::type_index` in the source). */
  type SystemId = nat

  datatype SystemManager = SystemManager(
    requirements: map<SystemId, Signature>,
    members: map<SystemId, set<Entity>>)

  /** Every registered system has a requirement, and only those do. */
  ghost predicate Valid(sm: SystemManager) {
    sm.requirements.Keys == sm.members.Keys
  }

  /** A system has been registered (`mSystems.count`). */
  predicate Registered(sm: SystemManager, s: SystemId) {
    s in sm.members
  }

  /** The manager as constructed: no systems. */
  function Init(): (sm: SystemManager)
    ensures Valid(sm)
    ensures forall s :: !Registered(sm, s)
  {
    SystemManager(map[], map[])
  }

  /** `std::unordered_map::insert`: an existing entry is kept, not replaced. */
  function Insert<K, V>(m: map<K, V>, k: K, v: V): (r: map<K, V>)
    ensures k in r && r.Keys == m.Keys + {k}
    ensures r[k] == if k in m then m[k] else v
    ensures forall j :: j in m && j != k ==> r[j] == m[j]
  {
    if k in m then m else m[k := v]
  }

  /**
   * `registerSystem`: record the requirement and an empty entity set. A system
   * registered twice aborts. The new set starts empty whatever entities
   * already exist.
   */
  function RegisterSystem(sm: SystemManager, s: SystemId, required: Signature): (r: Result<SystemManager>)
    requires Valid(sm)
    ensures r.Ok? <==> !Registered(sm, s)
    ensures r.Err? ==> r.error == SystemAlreadyRegistered
    ensures r.Ok? ==>
      && Valid(r.value)
      && r.value.members.Keys == sm.members.Keys + {s}
      && r.value.requirements[s] == required
      && r.value.members[s] == {}
      && (forall u :: Registered(sm, u) ==>
            r.value.requirements[u] == sm.requirements[u] && r.value.members[u] == sm.members[u])
  {
    if s in sm.members then
      Err(SystemAlreadyRegistered)
    else
      Ok(SystemManager(Insert(sm.requirements, s, required), Insert(sm.members, s, {})))
  }

  /**
   * `setSignature`: an unregistered system aborts. The source stores the new
   * requirement with `insert`, which leaves an existing entry alone, and every
   * registered system already has one: the call changes nothing.
   */
  function SetSignature(sm: SystemManager, s: SystemId, required: Signature): (r: Result<SystemManager>)
    requires Valid(sm)
    ensures r.Ok? <==> Registered(sm, s)
    ensures r.Err? ==> r.error == SystemNotRegistered
    ensures r.Ok? ==> r.value == sm
  {
    if s !in sm.members then
      Err(SystemNotRegistered)
    else
      Ok(sm.(requirements := Insert(sm.requirements, s, required)))
  }

  /**
   * `handleEntitySignatureChanged`: every system's set gains `e` when its
   * requirement is a subset of the new signature and loses it otherwise.
   */
  function SignatureChanged(sm: SystemManager, e: Entity, sig: Signature): (r: SystemManager)
    requires Valid(sm)
    ensures Valid(r)
    ensures r.requirements == sm.requirements && r.members.Keys == sm.members.Keys
    ensures forall s :: Registered(r, s) ==> (e in r.members[s] <==> Matches(sig, sm.requirements[s]))
    ensures forall s, x :: Registered(r, s) && x != e ==> (x in r.members[s] <==> x in sm.members[s])
  {
    SystemManager(
      sm.requirements,
      map s | s in sm.members :: Toggle(sm.members[s], e, Matches(sig, sm.requirements[s])))
  }

  /** `handleDestroyedEntity`: every system's set loses `e`; nothing else changes. */
  function HandleDestroyed(sm: SystemManager, e: Entity): (r: SystemManager)
    requires Valid(sm)
    ensures Valid(r)
    ensures r.requirements == sm.requirements && r.members.Keys == sm.members.Keys
    ensures forall s :: Registered(r, s) ==> r.members[s] == sm.members[s] - {e}
  {
    SystemManager(sm.requirements, map s | s in sm.members :: sm.members[s] - {e})
  }

  /** After a change, membership is exactly requirement-is-a-subset-of-signature. */
  lemma SignatureChangedBySubset(sm: SystemManager, e: Entity, sig: Signature, s: SystemId)
    requires Valid(sm) && Registered(sm, s)
    ensures e in SignatureChanged(sm, e, sig).members[s] <==> Bits(sm.requirements[s]) <= Bits(sig)
  {
    MatchesIffSubset(sig, sm.requirements[s]);
  }

  /** One system's set after a change: `e` added or removed, nothing else. */
  lemma SignatureChangedAt(sm: SystemManager, e: Entity, sig: Signature, s: SystemId)
    requires Valid(sm) && Registered(sm, s)
    ensures SignatureChanged(sm, e, sig).members[s] == Toggle(sm.members[s], e, Matches(sig, sm.requirements[s]))
  {
  }

  /** `xs` with `x` put in or taken out. */
  function Toggle<X>(xs: set<X>, x: X, present: bool): set<X> {
    if present then xs + {x} else xs - {x}
  }

  lemma ToggleLastWins<X>(xs: set<X>, x: X, first: bool, second: bool)
    ensures Toggle(Toggle(xs, x, first), x, second) == Toggle(xs, x, second)
  {
  }

  /** Reporting the same signature twice has the effect of reporting it once. */
  lemma SignatureChangedIdempotent(sm: SystemManager, e: Entity, sig: Signature)
    requires Valid(sm)
    ensures SignatureChanged(SignatureChanged(sm, e, sig), e, sig) == SignatureChanged(sm, e, sig)
  {
    SignatureChangedLastWins(sm, e, sig, sig);
  }

  /** Only the last reported signature of an entity matters. */
  lemma SignatureChangedLastWins(sm: SystemManager, e: Entity, first: Signature, second: Signature)
    requires Valid(sm)
    ensures SignatureChanged(SignatureChanged(sm, e, first), e, second) == SignatureChanged(sm, e, second)
  {
    var mid := SignatureChanged(sm, e, first);
    var a := SignatureChanged(mid, e, second);
    var b := SignatureChanged(sm, e, second);
    forall s | s in a.members ensures a.members[s] == b.members[s] {
      SignatureChangedAt(sm, e, first, s);
      SignatureChangedAt(mid, e, second, s);
      SignatureChangedAt(sm, e, second, s);
      ToggleLastWins(sm.members[s], e, Matches(first, sm.requirements[s]), Matches(second, sm.requirements[s]));
    }
  }

  /** A system with no requirement takes in every entity whose signature changes. */
  lemma SignatureChangedEmptyRequirement(sm: SystemManager, e: Entity, sig: Signature, s: SystemId)
    requires Valid(sm) && Registered(sm, s) && sm.requirements[s] == Empty
    ensures e in SignatureChanged(sm, e, sig).members[s]
  {
    EmptyMatchesEverything(sig);
  }

  /** A later `setSignature` never replaces the requirement given at registration. */
  lemma RegisteredRequirementIsFinal(sm: SystemManager, s: SystemId, first: Signature, second: Signature)
    requires Valid(sm) && !Registered(sm, s)
    ensures SetSignature(RegisterSystem(sm, s, first).value, s, second).Ok?
    ensures SetSignature(RegisterSystem(sm, s, first).value, s, second).value.requirements[s] == first
  {
  }

  /** Destroying twice has the effect of destroying once. */
  lemma HandleDestroyedIdempotent(sm: SystemManager, e: Entity)
    requires Valid(sm)
    ensures HandleDestroyed(HandleDestroyed(sm, e), e) == HandleDestroyed(sm, e)
  {
    var once := HandleDestroyed(sm, e);
    var twice := HandleDestroyed(once, e);
    forall s | s in twice.members ensures twice.members[s] == once.members[s] {
    }
  }
}
