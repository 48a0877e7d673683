/**
 * EntityManager: the pool of entity handles and the signature of each.
 *
 * Handles are issued from a FIFO queue seeded with `[0, MAX_ENTITIES)` in
 * ascending order and are appended to its back again on destruction. Each
 * handle owns one signature cell, cleared on destruction. `livingCount` is
 * the source's `mNumLivingEntity`: it is raised on every creation and never
 * lowered, so it counts creations rather than live entities.
 */
module Entities {
  import opened Results
  import opened Signatures
  import opened Cardinality

  /** The most entity handles that exist. */
  const MAX_ENTITIES: nat := 5000

  /** An entity handle (`std::uint32_t`). */
  type Entity = e: nat | e < 0x1_0000_0000

  datatype EntityManager = EntityManager(
    available: seq<Entity>,       // the free queue, front first
    signatures: seq<Signature>,   // one cell per handle in [0, MAX_ENTITIES)
    livingCount: nat)

  /**
   * The manager's invariant: a signature cell per handle, every queued handle
   * is in range and queued once, and the counter never runs ahead of the
   * handles taken from the queue.
   */
  ghost predicate Valid(m: EntityManager) {
    && |m.signatures| == MAX_ENTITIES
    && (forall i :: 0 <= i < |m.available| ==> m.available[i] < MAX_ENTITIES)
    && Distinct(m.available)
    && m.livingCount <= MAX_ENTITIES
    && |m.available| + m.livingCount >= MAX_ENTITIES
  }

  /** The live handles: those in range that are not waiting in the queue. */
  ghost function Live(m: EntityManager): set<nat> {
    set e: nat | e < MAX_ENTITIES && e !in m.available
  }

  /** The manager as the constructor leaves it. */
  function Init(): (m: EntityManager)
    ensures Valid(m)
    ensures |m.available| == MAX_ENTITIES
    ensures forall i :: 0 <= i < MAX_ENTITIES ==> m.available[i] == i
    ensures forall e :: 0 <= e < MAX_ENTITIES ==> m.signatures[e] == Empty
    ensures m.livingCount == 0
    ensures Live(m) == {}
  {
    var m := EntityManager(seq(MAX_ENTITIES, i => i), seq(MAX_ENTITIES, _ => Empty), 0);
    forall e: nat | e < MAX_ENTITIES ensures e in m.available {
      assert m.available[e] == e;
    }
    m
  }

  /** `createEntity`: hand out the front of the queue. */
  function Create(m: EntityManager): (r: Result<(EntityManager, Entity)>)
    requires Valid(m)
    ensures r.Ok? <==> m.livingCount < MAX_ENTITIES
    ensures r.Err? ==> r.error == EntityLimitReached
    ensures r.Ok? ==>
      var (m', e) := r.value;
      && Valid(m')
      && |m.available| > 0 && e == m.available[0]
      && m'.available == m.available[1..]
      && m'.signatures == m.signatures
      && m'.livingCount == m.livingCount + 1
      && e !in Live(m)
      && Live(m') == Live(m) + {e}
  {
    if m.livingCount >= MAX_ENTITIES then
      Err(EntityLimitReached)
    else
      var e := m.available[0];
      var m' := m.(available := m.available[1..], livingCount := m.livingCount + 1);
      assert e !in m'.available;
      assert forall x :: x in m.available <==> x == e || x in m'.available;
      Ok((m', e))
  }

  /**
   * `destroyEntity`: clear the handle's signature and queue it at the back.
   * The source does not check that the handle is live; destroying a handle
   * twice would queue it twice, so the caller must not.
   */
  function Destroy(m: EntityManager, e: Entity): (r: Result<EntityManager>)
    requires Valid(m)
    requires e !in m.available
    ensures r.Ok? <==> e < MAX_ENTITIES
    ensures r.Err? ==> r.error == EntityOutOfRange
    ensures r.Ok? ==>
      && Valid(r.value)
      && r.value.available == m.available + [e]
      && r.value.signatures[e] == Empty
      && (forall x :: 0 <= x < MAX_ENTITIES && x != e ==> r.value.signatures[x] == m.signatures[x])
      && r.value.livingCount == m.livingCount
      && Live(r.value) == Live(m) - {e}
  {
    if e >= MAX_ENTITIES then
      Err(EntityOutOfRange)
    else
      var m' := m.(signatures := m.signatures[e := Empty], available := m.available + [e]);
      assert forall x :: x in m'.available <==> x == e || x in m.available;
      Ok(m')
  }

  /** `SetSignature`: overwrite one handle's signature cell. */
  function SetSignature(m: EntityManager, e: Entity, s: Signature): (r: Result<EntityManager>)
    requires Valid(m)
    ensures r.Ok? <==> e < MAX_ENTITIES
    ensures r.Err? ==> r.error == EntityOutOfRange
    ensures r.Ok? ==>
      && Valid(r.value)
      && r.value.available == m.available
      && r.value.livingCount == m.livingCount
      && r.value.signatures[e] == s
      && (forall x :: 0 <= x < MAX_ENTITIES && x != e ==> r.value.signatures[x] == m.signatures[x])
  {
    if e >= MAX_ENTITIES then Err(EntityOutOfRange)
    else Ok(m.(signatures := m.signatures[e := s]))
  }

  /** `GetSignature`: read one handle's signature cell. */
  function GetSignature(m: EntityManager, e: Entity): (r: Result<Signature>)
    requires Valid(m)
    ensures r.Ok? <==> e < MAX_ENTITIES
    ensures r.Err? ==> r.error == EntityOutOfRange
    ensures r.Ok? ==> r.value == m.signatures[e]
  {
    if e >= MAX_ENTITIES then Err(EntityOutOfRange)
    else Ok(m.signatures[e])
  }

  /** Reading a signature back returns what was written; other cells keep theirs. */
  lemma GetAfterSet(m: EntityManager, e: Entity, s: Signature, x: Entity)
    requires Valid(m)
    requires SetSignature(m, e, s).Ok?
    ensures GetSignature(SetSignature(m, e, s).value, e) == Ok(s)
    ensures x != e ==> GetSignature(SetSignature(m, e, s).value, x) == GetSignature(m, x)
  {
  }

  /**
   * Live handles and queued handles partition `[0, MAX_ENTITIES)`, and the
   * queue holds no handle twice.
   */
  lemma LiveAndQueuedPartition(m: EntityManager)
    requires Valid(m)
    ensures forall e: nat :: e < MAX_ENTITIES <==> (e in Live(m) || e in m.available)
    ensures forall e :: e in Live(m) ==> e !in m.available
    ensures |Live(m)| + |m.available| == MAX_ENTITIES
  {
    var queued := set x: nat | x in m.available;
    DistinctSize<nat>(m.available);
    assert |queued| == |m.available|;
    ComplementSize(MAX_ENTITIES, queued, Live(m));
  }

  /** `n` successive `createEntity` calls; the handles in the order issued. */
  function CreateMany(m: EntityManager, n: nat): (r: Result<(EntityManager, seq<Entity>)>)
    requires Valid(m)
    ensures r.Ok? <==> m.livingCount + n <= MAX_ENTITIES
    ensures r.Ok? ==>
      && Valid(r.value.0)
      && n <= |m.available|
      && r.value.1 == m.available[..n]
      && r.value.0.available == m.available[n..]
      && r.value.0.livingCount == m.livingCount + n
      && r.value.0.signatures == m.signatures
    decreases n
  {
    if n == 0 then Ok((m, []))
    else
      var (m1, e) :- Create(m);
      var (m2, es) :- CreateMany(m1, n - 1);
      assert m.available[..n] == [e] + m1.available[..n - 1];
      Ok((m2, [e] + es))
  }

  /**
   * A handle returned by `destroyEntity` is never issued again: the counter
   * still counts it as created, so the creations left are too few to reach
   * the back of the queue, where the handle waits.
   */
  lemma DestroyedNeverReissued(m: EntityManager, e: Entity, n: nat)
    requires Valid(m)
    requires e !in m.available
    requires Destroy(m, e).Ok?
    requires CreateMany(Destroy(m, e).value, n).Ok?
    ensures e !in CreateMany(Destroy(m, e).value, n).value.1
  {
    var m' := Destroy(m, e).value;
    assert m'.available[..n] == m.available[..n];
  }

  /**
   * Handle `x` waits in the queue behind every handle the counter still lets
   * `createEntity` hand out, so no creation can reach it.
   */
  ghost predicate Retired(m: EntityManager, x: Entity) {
    exists i :: 0 <= i < |m.available| && i >= MAX_ENTITIES - m.livingCount && m.available[i] == x
  }

  /** A destroyed handle is retired at once. */
  lemma DestroyRetires(m: EntityManager, e: Entity)
    requires Valid(m) && e !in m.available
    requires Destroy(m, e).Ok?
    ensures Retired(Destroy(m, e).value, e)
  {
    var r := Destroy(m, e).value;
    assert r.available[|m.available|] == e;
  }

  /** Destroying another handle keeps a retired handle retired. */
  lemma DestroyKeepsRetired(m: EntityManager, e: Entity, x: Entity)
    requires Valid(m) && e !in m.available
    requires Destroy(m, e).Ok? && Retired(m, x)
    ensures Retired(Destroy(m, e).value, x)
  {
    var r := Destroy(m, e).value;
    var i :| 0 <= i < |m.available| && i >= MAX_ENTITIES - m.livingCount && m.available[i] == x;
    assert r.available[i] == x;
  }

  /** Writing a signature keeps a retired handle retired. */
  lemma SetSignatureKeepsRetired(m: EntityManager, e: Entity, s: Signature, x: Entity)
    requires Valid(m) && SetSignature(m, e, s).Ok? && Retired(m, x)
    ensures Retired(SetSignature(m, e, s).value, x)
  {
    var i :| 0 <= i < |m.available| && i >= MAX_ENTITIES - m.livingCount && m.available[i] == x;
    assert SetSignature(m, e, s).value.available[i] == x;
  }

  /**
   * A creation never issues a retired handle, and the handle stays retired:
   * whatever creations and other destructions follow, a destroyed handle is
   * never handed out again.
   */
  lemma CreateSkipsRetired(m: EntityManager, x: Entity)
    requires Valid(m) && Create(m).Ok? && Retired(m, x)
    ensures Create(m).value.1 != x
    ensures Retired(Create(m).value.0, x)
  {
    var (m', e) := Create(m).value;
    var i :| 0 <= i < |m.available| && i >= MAX_ENTITIES - m.livingCount && m.available[i] == x;
    assert i > 0;
    assert m'.available[i - 1] == x;
    assert m.available[0] != m.available[i];
  }

  /**
   * After MAX_ENTITIES creations in all, `createEntity` aborts even though
   * destroyed handles wait in the queue.
   */
  lemma CreateExhaustedWithFreeHandles()
    ensures var (m1, e) := Create(Init()).value;
            var m2 := Destroy(m1, e).value;
            && |m2.available| == MAX_ENTITIES
            && CreateMany(m2, MAX_ENTITIES).Err?
  {
    var (m1, e) := Create(Init()).value;
    var m2 := Destroy(m1, e).value;
    assert m2.livingCount == 1;
  }
}
