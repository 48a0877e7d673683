# A verified model of a small Entity-Component-System runtime

This project models the bookkeeping core of a C++ Entity-Component-System
(ECS) runtime in Dafny. It then proves that the runtime's parts stay
consistent with one another. The runtime has four parts, and the model has one
module for each:

- **`Entities`** (`entity.dfy`) is the entity manager. It owns a FIFO queue of
  free handles in `[0, MAX_ENTITIES)` with `MAX_ENTITIES = 5000`, one 32-bit
  signature per handle, and the counter `mNumLivingEntity`.
- **`ComponentArrays`** (`component_array.dfy`) is the packed store of one
  component type. It holds a dense array of values and two maps that must stay
  inverses of each other: entity to slot, and slot to entity. Removal copies
  the last slot into the freed one.
- **`ComponentManagers`** (`component_manager.dfy`) registers component types.
  Each type gets the next bit position from a counter that only grows, and an
  empty store. The manager forwards attach and detach to that store, and fans
  an entity's destruction out to every store.
- **`Systems`** (`system.dfy`) is the system manager. It keeps each system's
  required signature and entity set. When an entity's signature changes, the
  entity joins every system whose requirement is a subset of that signature
  and leaves every other system.
- **`Games`** (`game.dfy`) is the facade. It calls the managers in the order
  the source uses. It proves two invariants:
  - a registered type's bit is set in an entity's signature exactly when the
    type's store holds a value for that entity (`Games.Valid`);
  - a system's set holds exactly the handles whose signature matches its
    requirement (`Games.Synced`).

Support modules:

- `Signatures` (`signature.dfy`) models `std::bitset<32>` as a `bv32`. Its
  contracts are stated over `Bits(s)`, the set of positions that are set. It
  proves that the system test `(s & required) == required` holds exactly when
  `Bits(required) <= Bits(s)`.
- `Results` (`results.dfy`) is the `Result` type. Every `assert` in the source
  becomes an `Err` carrying the reason.
- `Cardinality` (`cardinality.dfy`) holds counting lemmas about finite sets.

### How the model represents the source

- Every operation is a pure function over immutable records. An operation
  takes a manager and returns the new manager.
- A fan-out loop over an `unordered_map` becomes a map comprehension over all
  keys.
- Component types and system types are identified by `nat` keys.
- All stores share one value type `T`.
- `Valid` is the invariant of each manager and of the facade. Every operation
  promises to keep it.

### Where the model follows the code rather than its description

Each of these quirks is reproduced as the code behaves, and a lemma states its
consequence.

- **`mNumLivingEntity` is raised on every creation and never lowered.**
  - It therefore counts creations, not live entities.
  - `Entities.CreateExhaustedWithFreeHandles` shows that `createEntity`
    aborts after 5000 creations in total, even while destroyed handles wait in
    the queue.
  - A destroyed handle is therefore never issued again. `Entities.Retired`
    names the state of such a handle: it waits in the queue behind every
    handle the counter still allows. `Entities.DestroyRetires` shows that
    destruction makes a handle retired. `Entities.CreateSkipsRetired`,
    `Entities.DestroyKeepsRetired` and `Entities.SetSignatureKeepsRetired`
    show that creation never issues a retired handle, and that no later
    creation, destruction or signature write un-retires it.
  - `Entities.DestroyedNeverReissued` states the special case of a run of
    creations that directly follows the destruction.
- **`SystemManager::setSignature` stores with `insert`.** `insert` never
  replaces an existing entry, and `registerSystem` has already stored one. So
  `setSignature` changes nothing. `Systems.RegisteredRequirementIsFinal`
  proves it.
- **`mSize` is never initialised.** The model starts a store at size 0.
- **`Game.cpp` calls names that the managers do not declare:**
  - `RegisterComponent`, where the declared name is `registerComponentType`;
  - `ComponentManager::GetComponent`, which does not exist; the model reads
    through the store's `getComponent`;
  - a no-argument `RegisterSystem<T>()`, where the declared method is
    `registerSystem(signature)`.

  The model uses the evident delegation. `Games.RegisterSystem` therefore
  takes the required signature as a parameter.
- **`AttachComponent` checks the range late.** The source runs its checks in
  this order: the type is unregistered, then the value is already present,
  then the handle is out of range. The range check fires only after the store
  has been written. `Games.AttachComponent` reports the first check that fails.

### Where the system invariant stops

`Games.Synced` says that a system's set holds exactly the handles in
`[0, MAX_ENTITIES)` whose signature matches the system's requirement. It
ranges over every handle in range, live or queued. Attach and detach keep it
for every system. Two cases fall outside it. Both come from this all-handles
reading; the code behaves as described in both.

- **Destruction and an empty requirement.** A destroyed entity leaves every
  system's set, as intended. Its signature is cleared to all-zero, and an
  all-zero signature still matches a system that requires nothing. So
  `Synced` fails afterwards for such a system;
  `Games.DestroyUnsyncsEmptyRequirement` exhibits it. Every synced system with
  a non-empty requirement stays synced.
- **A late-registered system starts empty.** `Games.RegisterSystemSyncedIff`
  shows that such a system is synced only when no handle matches its
  requirement yet.

Every system's set, synced or not, is updated on attach and detach exactly as
`handleEntitySignatureChanged` does: `e` is in the set exactly when its new
signature matches, and no other entity's membership changes.

## Model

| member | source | states |
|---|---|---|
| Signatures.SetBit | src/Game.cpp:41 | `signature.set(p, true)` leaves exactly the old bits plus `p` |
| Signatures.ClearBit | src/Game.cpp:53 | `signature.set(p, false)` leaves exactly the old bits minus `p` |
| Signatures.BitsEmpty | src/Entity.cpp:26 | a reset signature has no bit set |
| Signatures.BitsAnd | src/System.cpp:50 | the bits of `a & b` are the bits common to `a` and `b` |
| Signatures.BitsInjective | src/headers/Entity.hpp:17 | a 32-bit signature is determined by the set of its bits |
| Signatures.MatchesIffSubset | src/System.cpp:50 | `(s & required) == required` holds exactly when the required bits are a subset of the bits of `s` |
| Signatures.EmptyMatchesEverything | src/System.cpp:50 | an all-zero requirement matches every signature |
| Signatures.EmptyMatchesOnlyEmpty | src/System.cpp:50 | a cleared signature matches a requirement exactly when that requirement is all-zero |
| Entities.Init | src/Entity.cpp:3-9 | the queue holds handles 0 to 4999 in ascending order; every signature is empty; nothing is live; the counter is 0 |
| Entities.Create | src/Entity.cpp:11-20 | aborts exactly when the counter has reached MAX_ENTITIES; otherwise returns the front of the queue, removes it, raises the counter, and makes exactly that handle live |
| Entities.Destroy | src/Entity.cpp:22-28 | aborts exactly for an out-of-range handle; otherwise clears that handle's signature only, appends the handle to the queue, and leaves the counter alone; the handle stops being live |
| Entities.SetSignature | src/Entity.cpp:30-36 | aborts exactly for an out-of-range handle; otherwise changes that handle's cell and no other |
| Entities.GetSignature | src/Entity.cpp:38-44 | aborts exactly for an out-of-range handle; otherwise returns the handle's cell |
| Entities.GetAfterSet | src/Entity.cpp:30-44 | reading a signature back returns what was written; other handles read as before |
| Entities.LiveAndQueuedPartition | src/Entity.cpp:5-27 | live handles and queued handles partition `[0, MAX_ENTITIES)`, and their counts add up to MAX_ENTITIES |
| Entities.CreateMany | src/Entity.cpp:11-20 | `n` creations succeed exactly when the counter has room for `n`; they issue the first `n` queued handles in queue order |
| Entities.DestroyedNeverReissued | src/Entity.cpp:13-27 | a destroyed handle is not among the handles issued by a run of creations that directly follows the destruction |
| Entities.DestroyRetires | src/Entity.cpp:22-28 | destroying a live handle leaves it queued behind every handle the counter still allows |
| Entities.DestroyKeepsRetired | src/Entity.cpp:22-28 | destroying another handle keeps a retired handle retired |
| Entities.SetSignatureKeepsRetired | src/Entity.cpp:30-36 | writing a signature keeps a retired handle retired |
| Entities.CreateSkipsRetired | src/Entity.cpp:11-20 | a creation never issues a retired handle, and the handle stays retired, so a destroyed handle is never issued again |
| Entities.CreateExhaustedWithFreeHandles | src/Entity.cpp:13-27 | after one creation and one destruction, all 5000 handles are queued, yet 5000 further creations abort |
| ComponentArrays.Empty | src/headers/Component.hpp:86-96 | a new store (size 0) is valid and holds nothing |
| ComponentArrays.Attach | src/headers/Component.hpp:35-46 | aborts exactly when the entity already has a value; otherwise the maps stay inverse over `[0, size)`, the contents gain exactly `e := v`, the entity takes slot `size`, and the size grows by one |
| ComponentArrays.AttachKeeps | src/headers/Component.hpp:38-45 | appending at slot `size` keeps the store valid and adds exactly the new entry |
| ComponentArrays.AttachEntitiesMapBack | src/headers/Component.hpp:40-41 | after an append, every entity's slot is owned by that entity |
| ComponentArrays.AttachOwnersMapBack | src/headers/Component.hpp:40-41 | after an append, every slot's owner maps back to that slot |
| ComponentArrays.AttachContents | src/headers/Component.hpp:40-43 | after an append, the value each entity reaches is as before, plus the new one |
| ComponentArrays.ComposeFresh | src/headers/Component.hpp:38-43 | giving an entity a slot above every used slot adds exactly that entity's value |
| ComponentArrays.Detach | src/headers/Component.hpp:48-68 | aborts exactly when the entity has no value; otherwise the store stays valid, the contents lose exactly `e`, the size drops by one, and the last slot's owner and value move into the freed slot while every other entity keeps its slot |
| ComponentArrays.DetachKeeps | src/headers/Component.hpp:53-67 | the swap-with-last removal keeps the store valid and removes exactly `e`'s entry |
| ComponentArrays.DetachEntitiesMapBack | src/headers/Component.hpp:60-64 | after removal, every remaining entity's slot is owned by that entity |
| ComponentArrays.DetachOwnersMapBack | src/headers/Component.hpp:60-65 | after removal, every remaining slot's owner maps back to that slot |
| ComponentArrays.DetachContents | src/headers/Component.hpp:53-62 | after removal, every remaining entity reaches the same value as before |
| ComponentArrays.ContentsKeys | src/headers/Component.hpp:90-94 | in a valid store, the entities with a value are exactly the keys of the entity-to-slot map |
| ComponentArrays.Get | src/headers/Component.hpp:70-75 | aborts exactly when the entity has no value; otherwise returns the value stored for it |
| ComponentArrays.HandleDestroyed | src/headers/Component.hpp:77-84 | the contents lose `e`; a store without `e` is returned unchanged |
| ComponentArrays.GetAfterAttach | src/headers/Component.hpp:35-46 | reading right after attaching `v` returns `v` |
| ComponentArrays.DetachKeepsOthers | src/headers/Component.hpp:53-62 | after detaching `e`, every other entity reads as before |
| ComponentArrays.DetachLastSlot | src/headers/Component.hpp:55-65 | detaching the entity in the last slot erases exactly its entry and that slot's entry, and leaves the values alone |
| ComponentArrays.HandleDestroyedIdempotent | src/headers/Component.hpp:78-84 | handling a destruction twice is the same as handling it once |
| ComponentArrays.RoomForValidHandle | src/headers/Component.hpp:88 | a store that holds only valid handles has a free slot for any valid handle it does not hold |
| ComponentManagers.Init | src/headers/Component.hpp:168-177 | a new manager has no types registered |
| ComponentManagers.Register | src/Component.cpp:58-69 | aborts exactly for a registered type; otherwise the type gets position `|types|` and an empty store, and no other registration changes |
| ComponentManagers.RegisterPositions | src/Component.cpp:65-68 | taking the position from the counter and raising the counter keeps positions distinct and below the counter |
| ComponentManagers.RegisterAssignsNextPosition | src/Component.cpp:63-79 | after registration, `GetComponentType` returns the count of earlier types for the new type and the old positions for all others |
| ComponentManagers.GetComponentType | src/Component.cpp:71-80 | aborts exactly for an unregistered type; otherwise returns a position below the counter that no other type has |
| ComponentManagers.GetSignature | src/Component.cpp:107-118 | aborts exactly for an unregistered type; otherwise returns the signature whose only bit is the type's position |
| ComponentManagers.Replaced | src/headers/Component.hpp:180-188 | replacing one type's store keeps the manager valid, keeps every position, and changes no other registration |
| ComponentManagers.Attach | src/Component.cpp:82-86 | aborts for an unregistered type or a value already present; otherwise only that type's store changes, gaining exactly `e := v` |
| ComponentManagers.Detach | src/Component.cpp:88-92 | aborts for an unregistered type or a missing value; otherwise only that type's store changes, losing exactly `e` |
| ComponentManagers.Get | src/Game.cpp:59-63 | aborts for an unregistered type or a missing value; otherwise returns the value the type's store holds for `e` |
| ComponentManagers.HandleDestroyed | src/Component.cpp:94-105 | every store loses `e`; positions are kept; a store that did not hold `e` is unchanged |
| ComponentManagers.Forgotten | src/Component.cpp:99-104 | the fan-out keeps every type and its position |
| ComponentManagers.ForgottenStores | src/Component.cpp:99-104 | the fan-out leaves every store valid |
| ComponentManagers.ForgottenHoldings | src/Component.cpp:99-104 | after the fan-out each store holds what it held minus `e`; a store without `e` is unchanged |
| Systems.Init | src/headers/System.hpp:44-49 | a new manager has no systems |
| Systems.Insert | src/System.cpp:10-11 | `insert` adds the key, keeps an existing entry for it, and changes no other key |
| Systems.RegisterSystem | src/System.cpp:3-14 | aborts exactly for a registered system; otherwise records the requirement and an empty set, and changes no other system |
| Systems.SetSignature | src/System.cpp:16-24 | aborts exactly for an unregistered system; otherwise the manager is unchanged |
| Systems.SignatureChanged | src/System.cpp:39-57 | every system contains `e` exactly when the new signature matches its requirement; no other entity's membership changes |
| Systems.HandleDestroyed | src/System.cpp:26-37 | every system's set loses `e` and nothing else |
| Systems.SignatureChangedBySubset | src/System.cpp:49-55 | after a change, `e` is in a system's set exactly when the system's required bits are a subset of the signature's bits |
| Systems.SignatureChangedAt | src/System.cpp:50-55 | one system's set after a change is the old set with `e` inserted or erased |
| Systems.SignatureChangedIdempotent | src/System.cpp:40-57 | reporting the same signature twice has the effect of reporting it once |
| Systems.SignatureChangedLastWins | src/System.cpp:40-57 | of two reports for the same entity, only the later one matters |
| Systems.SignatureChangedEmptyRequirement | src/System.cpp:50-53 | a system that requires nothing takes in every entity whose signature changes |
| Systems.RegisteredRequirementIsFinal | src/System.cpp:11-23 | a later `setSignature` never replaces the requirement given at registration |
| Systems.HandleDestroyedIdempotent | src/System.cpp:31-36 | handling a destruction twice is the same as handling it once |
| Games.Init | src/Game.cpp:10-15 | three fresh managers satisfy the game invariant; no types, no systems, every signature empty; the entity manager is the freshly seeded one, with the queue 0 to 4999 in order, a counter of 0 and nothing live |
| Games.FirstCreateAfterInit | src/Game.cpp:10-20 | the first creation in a fresh game succeeds and issues handle 0, leaving handle 1 at the front of the queue |
| Games.CreateEntity | src/Game.cpp:17-20 | aborts exactly when the entity manager does; otherwise issues the front of the free queue, drops it from the queue, raises the counter by one, leaves stores and systems unchanged, and keeps the invariant and every synced system |
| Games.DestroyEntity | src/Game.cpp:22-27 | aborts exactly for an out-of-range handle; otherwise the handle's signature is cleared, the handle is appended to the queue, the counter is unchanged, every store loses it and keeps its type position, every system set loses it and every requirement is unchanged, and the invariant is kept; a synced system with a non-empty requirement stays synced |
| Games.DestroyedAgree | src/Game.cpp:24-25 | clearing one signature while every store loses that entity keeps signatures and stores in agreement |
| Games.DestroyedSynced | src/Game.cpp:24-26 | a synced system with a non-empty requirement stays synced when an entity is cleared and removed from every set |
| Games.DestroyUnsyncsEmptyRequirement | src/Game.cpp:22-27 | a synced system that requires nothing is no longer synced after a live entity is destroyed |
| Games.RegisterComponent | src/Game.cpp:29-33 | aborts exactly for a registered type; otherwise the type gets the next position and an empty store; entities, systems, the invariant and every synced system are kept |
| Games.RegisteredAgree | src/Game.cpp:29-33 | a new type with an empty store and a fresh position keeps signatures and stores in agreement |
| Games.HoldersHaveBit | src/Game.cpp:38-42 | under the invariant, a type's store holds `x` exactly when `x` is in range and has the type's bit |
| Games.StoreHasRoom | src/headers/Component.hpp:38-43 | under the invariant, a store has a free slot for any in-range handle it does not hold |
| Games.AttachComponent | src/Game.cpp:35-45 | aborts for an unregistered type, a value already present, or an out-of-range handle, in that order; otherwise the store gains `e := v`, the type's bit is set in `e`'s signature and no other, every registered system holds `e` exactly when its new signature matches, no other membership or counter changes, and the invariant and every synced system are kept |
| Games.Attached | src/Game.cpp:38-44 | the successful attach keeps the invariant, sets exactly the type's bit, puts `e` in exactly the registered systems its new signature matches, changes no other membership, and keeps every synced system synced |
| Games.DetachComponent | src/Game.cpp:47-57 | aborts for an unregistered type or a missing value; otherwise the store loses `e`, the type's bit is cleared in `e`'s signature and no other, every registered system holds `e` exactly when its new signature matches, no other membership or counter changes, and the invariant and every synced system are kept |
| Games.Recorded | src/Game.cpp:42-44 | storing a new signature for `e` and reporting it changes no other handle's signature, leaves the counter alone, updates the systems exactly as the system manager's signature-change handler does, and keeps every synced system synced |
| Games.AttachedValid | src/Game.cpp:38-42 | a store gaining `e` while `e`'s signature gains the type's bit keeps the game invariant |
| Games.DetachedValid | src/Game.cpp:50-54 | a store losing `e` while `e`'s signature loses the type's bit keeps the game invariant |
| Games.ChangedAgree | src/Game.cpp:38-54 | a store gaining or losing `e`, with `e`'s bit for that type following, keeps signatures and stores in agreement |
| Games.ChangedBitsRegistered | src/Game.cpp:40-42 | setting or clearing a registered type's bit keeps every set bit at a handed-out position |
| Games.ChangedStoresAgree | src/Game.cpp:38-54 | setting or clearing the bit of the one store that changed keeps every store agreeing with the signatures |
| Games.ChangedSynced | src/Game.cpp:42-44 | reporting one entity's new signature to the systems keeps every synced system synced |
| Games.AttachThenDetach | src/Game.cpp:35-57 | detaching right after attaching restores every signature, every store's contents and every synced system's set |
| Games.RestoredSignatures | src/Game.cpp:40-54 | setting a clear bit and clearing it again restores every signature |
| Games.RestoredStores | src/Game.cpp:38-50 | attaching a fresh value and detaching it again restores every store's contents |
| Games.RestoredSystems | src/Game.cpp:44-56 | a synced system whose requirement and signatures are restored has its old set |
| Games.GetComponent | src/Game.cpp:59-63 | aborts for an unregistered type or a missing value; otherwise returns the stored value, and the entity is in range with the type's bit set |
| Games.GetComponentType | src/Game.cpp:65-69 | aborts for an unregistered type; otherwise returns the type's registered position, whose bit marks exactly the holders of the type's values |
| Games.RegisterSystem | src/Game.cpp:71-75 | aborts for a registered system; otherwise adds exactly that system with an empty set, leaves every other system's requirement and set unchanged, and keeps entities, stores, the invariant and every synced system |
| Games.RegisterSystemSyncedIff | src/Game.cpp:71-75 | a system registered late is synced exactly when no handle matches its requirement yet |
| Games.SetSystemSignature | src/Game.cpp:77-81 | aborts for an unregistered system; otherwise the game is unchanged |

## Left out

- Type erasure is not modelled: `std::type_index`, `typeid`, the virtual base `IComponentArray` and `static_pointer_cast`. Types are `nat` keys, and all stores share one value type `T`.
- The `shared_ptr` that `registerSystem` returns is left out. A system object matters only through its entity set.
- `System::update` is left out. It is user code with no body in the repository.
- The mutable `T&` that `getComponent` returns is modelled as a read only. Writes through the reference are not modelled.
- The order of fan-out over `unordered_map` is not modelled. Each fan-out becomes a map comprehension over all keys; no step depends on another key, so the order does not matter.
- Concurrency: the runtime has none.
- Heap allocation in `Game::init` and the `Game` constructor is modelled as the construction of three empty managers.
- `src/Component.hpp` and `src/headers/Game.hpp` only declare things. `src/Component.cpp` repeats the bodies in `src/headers/Component.hpp`; both are covered by the same model.
- ComponentManagers.Register: the source never checks the 32-type ceiling. Past it, the `uint8_t` counter keeps climbing and `bitset::set` throws. The model makes "fewer than 32 types registered" a precondition instead of modelling that failure. The same holds for Games.RegisterComponent.
- Entities.Destroy: the source does not check that the handle is live. Destroying twice would queue the handle twice, so liveness is a precondition. The same holds for Games.DestroyEntity.
- Games.AttachComponent: with an out-of-range handle and a full store, the source writes past the end of the fixed array before its range check fires. That undefined write is excluded by a precondition. With room in the store, the write happens and the range check then aborts. The model reports that abort as an error and keeps no state from it.
- Abort is modelled as an `Err` result. The model does not say what state the aborted program would leave behind.
- Integer widths: `mNumLivingEntity` never exceeds 5000 and `mSize` never exceeds 5000, so neither wraps. `mSize - 1` is evaluated only when the store holds the entity, so the store holds at least one value.
