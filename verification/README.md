# Object pool, modelled in Dafny

A model of the prefab-keyed component pool `ObjectPool` of the ObjectPool
Unity package. The pool keeps two dictionaries:

- `objectLookup` maps each registered prefab to the list of its pooled,
  switched-off clones. Spawning takes from the head of the list and
  recycling appends at the tail.
- `prefabLookup` maps each instance currently lent out to the prefab it
  came from.

The model has three modules:

- `Engine` (`engine.dfy`): the parts of the game engine the pool touches.
  - A `Component` is an object whose identity is reference identity. Its
    `tag` stands for its runtime type (`GetType()`).
  - A `Scene` records which components are destroyed, switched off
    (`SetActive(false)`) or parented under the pool's root, and the pose
    each clone was given.
  - `Instantiate` allocates a fresh component of the prefab's type, and
    the clone copies the prefab's active flag. `Destroy` adds a component
    to the destroyed set.
- `PoolTables` (`pool_tables.dfy`): the two dictionaries as a value,
  `Tables`, plus the order in which `objectLookup` enumerates its keys.
  - `Inv` is the invariant every operation keeps. `order` lists each key
    once. An instance is in at most one list, and at most once there. No
    instance is both pooled and lent. Every lent instance's prefab has a
    list. Pooled and lent instances have their prefab's type.
  - Each operation's effect on the tables is a function:
    `Register`, `AddInactive`, `Prewarmed`, `SpawnStep`, `Recycled`,
    `RecycledAll`, `AllOfType` and `PooledCount`.
  - The lemmas prove that the operations keep `Inv`, that spawning is
    FIFO reuse with dead-entry skipping, that recycling round-trips, and
    what the bulk operations return.
- `Pooling` (`object_pool.dfy`): the class `ObjectPool`, with the two
  dictionaries (and the key order) as fields that its methods update in
  place.
  - Every public operation's postcondition ties the new fields to the
    `PoolTables` step function applied to the old ones, and states what
    it does to the `Scene`. The helper methods that carry one loop or one
    branch of an operation state their field updates directly.
  - `Valid()` is `Inv` on the fields. Every public operation that changes
    the pool ends with `Valid()`, and every one except `Clear` requires it.
  - `WarmSpawnRecycle` puts the operations together in the cycle the
    pool exists for: pre-warm, spawn, recycle.

A few details of how the source is represented:

- The `list[0] as T` test in `Spawn` reads as null for a destroyed
  component. The model writes it as membership of the scene's
  `destroyed` set. Clones always have their prefab's runtime type, so the
  cast itself never fails.
- Every `Dictionary.Add` on `prefabLookup` is preceded by a proof that the
  key is absent, so the `Add` never throws. The `Spawn` reuse path proves
  this from `Inv`; the clone path proves it from freshness.
- The indexing `objectLookup[prefabLookup[obj]]` in `Recycle` is proved
  never to miss.
- The generic type parameter `T` of `RecycleAll<T>` and
  `GetAllOfType<T>` is passed as a `TypeTag`.
- The engine throws when the pool touches the transform or game object of
  a destroyed component. `Recycle` reports that exception as its `aborted`
  result. For a lent instance the exception comes after both tables were
  updated, so the tables change as usual and the scene does not.
  `RecycleAll` stops at the first destroyed snapshot entry, as the
  exception leaves its loop. The entries before that one are recycled.
  That entry has its table entries moved. The entries after it stay lent.

Three behaviours of the code worth noting:

- `GetAllOfType` returns only the pooled entries (the lists of
  `objectLookup`), not the lent-out ones.
- `CreatePool(p, n)` leaves `Count(p)` at its old value plus `max(n, 0)`.
  It equals `n` only when `p` had no pooled entries.
- A fresh clone made by `Spawn` keeps the prefab's active flag rather than
  being switched on.

## Model

| member | source | states |
|---|---|---|
| PoolTables.Inv | Assets/ObjectPool/Scripts/ObjectPool.cs:24-99 | the invariant every operation keeps: the key order lists each key once; an instance is in at most one list, at most once; no instance is both pooled and lent; every lent instance's prefab has a list; instances have their prefab's type |
| Pooling.ObjectPool.constructor | Assets/ObjectPool/Scripts/ObjectPool.cs:10-11 | a new pool has empty `objectLookup` and `prefabLookup` and satisfies the invariant |
| Pooling.ObjectPool.Clear | Assets/ObjectPool/Scripts/ObjectPool.cs:13-17 | both tables become empty and the invariant holds; the scene is not touched, so nothing is destroyed |
| PoolTables.EmptyInv | Assets/ObjectPool/Scripts/ObjectPool.cs:13-17 | the empty tables satisfy the pool invariant |
| Pooling.ObjectPool.CreateEmptyPool | Assets/ObjectPool/Scripts/ObjectPool.cs:19-22 | `CreatePool(prefab)` registers the prefab, keeps any existing list, leaves `Count` and the scene unchanged |
| Pooling.ObjectPool.CreatePool | Assets/ObjectPool/Scripts/ObjectPool.cs:24-32 | makes `max(n, 0)` clones; the tables become `Prewarmed(old, prefab, clones)`; `Count(prefab)` grows by the number of clones; `prefabLookup` is unchanged; the clones are live (not destroyed), switched off and parented under the pool at the origin |
| Pooling.ObjectPool.Prewarm | Assets/ObjectPool/Scripts/ObjectPool.cs:29-31 | the pre-warming loop: `amount` calls of `SpawnInactive` take the registered tables to `Prewarmed` with exactly `amount` clones, each live, switched off under the pool and at the origin |
| Pooling.ObjectPool.PrewarmNext | Assets/ObjectPool/Scripts/ObjectPool.cs:31 | one `SpawnInactive` call extends the pre-warmed tables and scene state by exactly one fresh clone of the prefab's type, and all the clones so far stay live |
| PoolTables.Register | Assets/ObjectPool/Scripts/ObjectPool.cs:26-27 | adds `p` to the keys with an empty list, and to the end of the key order, only when absent; existing lists and `prefabLookup` are kept |
| PoolTables.Prewarmed | Assets/ObjectPool/Scripts/ObjectPool.cs:24-32 | the tables after registering `p` and appending each clone in turn with `AddInactive`; its properties are stated by `PrewarmAppends`, `PrewarmKeepsOthers` and `PrewarmedClonesWereNew` |
| PoolTables.PrewarmAppends | Assets/ObjectPool/Scripts/ObjectPool.cs:24-32 | after pre-warming, `p`'s list is its old list followed by the clones in order: it is never reset, so `Count(p)` grows by the number of clones |
| PoolTables.PlacedAllPoses | Assets/ObjectPool/Scripts/ObjectPool.cs:29-31 | after placing the clones of a pre-warming loop, each clone has the given pose and every other component keeps its pose, or still has none |
| PoolTables.PrewarmSnoc | Assets/ObjectPool/Scripts/ObjectPool.cs:29-31 | one more clone registered by `AddInactive`, and added to the engine's sets and poses, extends the pre-warmed tables, sets and poses by exactly that clone |
| PoolTables.PrewarmKeepsOthers | Assets/ObjectPool/Scripts/ObjectPool.cs:24-32 | pre-warming adds only `p` to the keys, leaves every other list and `prefabLookup` unchanged |
| PoolTables.PrewarmedClonesWereNew | Assets/ObjectPool/Scripts/ObjectPool.cs:29-31 | when pre-warming keeps the invariant, each clone is distinct from the others, was neither pooled nor lent before, and has the prefab's type |
| Pooling.ObjectPool.SpawnInactive | Assets/ObjectPool/Scripts/ObjectPool.cs:74-86 | registers the prefab if absent and appends exactly one fresh clone of its type to the tail of its list; `prefabLookup` is untouched; the clone is switched off, under the pool, at the origin |
| PoolTables.AddInactive | Assets/ObjectPool/Scripts/ObjectPool.cs:76-83 | the prefab becomes a key (at the end of the key order when it is new), its list gets `x` at the tail, other lists and `prefabLookup` are unchanged |
| PoolTables.AddInactiveMembers | Assets/ObjectPool/Scripts/ObjectPool.cs:83 | after appending `x`, every list holds what it held before, plus `x` in the prefab's list only |
| PoolTables.AddInactiveKeepsInv | Assets/ObjectPool/Scripts/ObjectPool.cs:74-86 | appending a new instance of the prefab's type keeps the pool invariant |
| Pooling.ObjectPool.Spawned | Assets/ObjectPool/Scripts/ObjectPool.cs:34-64 | the whole effect of a spawn: the tables change as `SpawnStep` says, the instance handed out is `SpawnStep`'s (a fresh clone of the prefab's type when nothing is reused), and it ends up unparented, at the pose, switched on unless it is a clone of an inactive prefab; nothing is destroyed |
| Pooling.ObjectPool.Spawn | Assets/ObjectPool/Scripts/ObjectPool.cs:34-64 | the tables change as `SpawnStep` says; the instance handed out is the first live pooled entry or a fresh clone of the prefab's type; it ends up unparented and at the requested pose; a reused entry is switched on; the invariant is kept |
| Pooling.ObjectPool.SpawnPooled | Assets/ObjectPool/Scripts/ObjectPool.cs:36-60 | for a registered prefab, the same as `Spawn`: reuse the first live entry, else lend out a fresh clone |
| Pooling.ObjectPool.TakeFirstLive | Assets/ObjectPool/Scripts/ObjectPool.cs:42-46 | the scan pops the leading destroyed entries and then the first live one, which it returns; it returns null with the list emptied when every entry was destroyed; nothing else changes |
| Pooling.ObjectPool.HandOut | Assets/ObjectPool/Scripts/ObjectPool.cs:49-53 | the reused instance is unparented, moved to the pose, switched on and recorded as lent from the prefab |
| Pooling.ObjectPool.LendClone | Assets/ObjectPool/Scripts/ObjectPool.cs:58-59 | a fresh clone of the prefab's type at the pose is recorded as lent; the lists are unchanged |
| Pooling.ObjectPool.SpawnAt | Assets/ObjectPool/Scripts/ObjectPool.cs:65-68 | `Spawn` with the identity rotation |
| Pooling.ObjectPool.SpawnAtOrigin | Assets/ObjectPool/Scripts/ObjectPool.cs:69-72 | `Spawn` at the origin with the identity rotation |
| PoolTables.LeadingDead | Assets/ObjectPool/Scripts/ObjectPool.cs:42-46 | the number of entries the scan discards: all of them are destroyed, and the entry after them, if any, is live |
| PoolTables.LeadingDeadIsFirstLive | Assets/ObjectPool/Scripts/ObjectPool.cs:42-46 | if entry `i` is live and all before it are destroyed, the scan stops at `i` |
| PoolTables.LeadingDeadWhenAllDead | Assets/ObjectPool/Scripts/ObjectPool.cs:42-46 | with every entry destroyed, the scan runs through the whole list |
| PoolTables.SpawnStep | Assets/ObjectPool/Scripts/ObjectPool.cs:34-64 | an unregistered prefab leaves the tables alone and yields the clone; a registered one records the handed-out instance as lent from it, reuses only a live entry of its own list, and changes no other list |
| PoolTables.SpawnReusesFirstLive | Assets/ObjectPool/Scripts/ObjectPool.cs:39-55 | FIFO reuse: with a live entry at `i` after dead ones, spawn hands out entry `i`, the list becomes its suffix after `i` (shrinking by exactly the entries popped), and `prefabLookup[obj] == p` |
| PoolTables.SpawnClonesWhenNoneLive | Assets/ObjectPool/Scripts/ObjectPool.cs:39-60 | with an empty or all-destroyed list, spawn lends out the fresh clone, records it under `p` and leaves the list empty |
| PoolTables.LendKeepsInv | Assets/ObjectPool/Scripts/ObjectPool.cs:42-59 | lending an instance that was in no other list and not lent, while the prefab's list shrinks to a suffix without it, keeps the invariant and leaves the instance in no list |
| PoolTables.SpawnKeepsInv | Assets/ObjectPool/Scripts/ObjectPool.cs:53-59 | spawning keeps the invariant, so the `Add` calls never meet an existing key; the instance handed out is lent exactly when the prefab is registered, and is in no list |
| Pooling.ObjectPool.Recycle | Assets/ObjectPool/Scripts/ObjectPool.cs:88-99 | the tables become `Recycled(old, obj)`; it aborts exactly when `obj` was already destroyed, and then changes nothing in the scene; otherwise a lent instance is switched off and parented under the pool, and any other instance is destroyed; poses are kept; the invariant is kept |
| PoolTables.Recycled | Assets/ObjectPool/Scripts/ObjectPool.cs:90-93 | a lent `x` goes to the tail of its prefab's list and leaves `prefabLookup`; every other list is unchanged; an instance that is not lent leaves the tables unchanged |
| PoolTables.RecycleKeepsInv | Assets/ObjectPool/Scripts/ObjectPool.cs:88-99 | recycling keeps the invariant, and afterwards `x` is not lent |
| PoolTables.RecycleTwice | Assets/ObjectPool/Scripts/ObjectPool.cs:88-99 | recycling a lent instance twice pools it once: the second call changes no table, and the list stays free of duplicates |
| PoolTables.RecycleThenSpawn | Assets/ObjectPool/Scripts/ObjectPool.cs:88-99 | round trip: recycling a live lent instance into an empty list and spawning its prefab hands the same instance back and restores the tables |
| PoolTables.SpawnThenRecycleCount | Assets/ObjectPool/Scripts/ObjectPool.cs:126-132 | reusing the live head entry lowers `Count(p)` by one, and recycling the instance handed out raises it back |
| PoolTables.RecycleOrderIsSpawnOrder | Assets/ObjectPool/Scripts/ObjectPool.cs:92 | FIFO: two live instances recycled one after the other into an empty list are spawned back in that order |
| Pooling.ObjectPool.LentOfType | Assets/ObjectPool/Scripts/ObjectPool.cs:103 | the snapshot holds each lent instance of the type exactly once, and nothing else |
| Pooling.ObjectPool.RecycleAll | Assets/ObjectPool/Scripts/ObjectPool.cs:101-108 | the snapshot is exactly the lent instances of the type, without duplicates; it aborts exactly when a snapshot entry was destroyed; the tables become `RecycledAll` of the entries it reached; exactly the live entries before the first destroyed one are switched off and parented under the pool; nothing is destroyed; the invariant is kept |
| Pooling.ObjectPool.RecycleEach | Assets/ObjectPool/Scripts/ObjectPool.cs:105-107 | recycling the snapshot entries in turn, stopping at the first destroyed one, yields `RecycledAll` of the `Reached` prefix and switches exactly the `LiveRun` prefix off under the pool; it aborts exactly when some entry is destroyed |
| Pooling.ObjectPool.RecycleNext | Assets/ObjectPool/Scripts/ObjectPool.cs:107 | one loop turn: the next snapshot entry is still lent, its recycling extends `RecycledAll` by one, and it aborts exactly when that entry was destroyed, in which case the scene is unchanged |
| PoolTables.LiveRun | Assets/ObjectPool/Scripts/ObjectPool.cs:105-107 | the live snapshot entries before the first destroyed one: all of them are live, and the next one, if any, is destroyed |
| PoolTables.Reached | Assets/ObjectPool/Scripts/ObjectPool.cs:105-107 | the loop reaches at least the live run and at most the whole snapshot |
| PoolTables.LiveRunAt | Assets/ObjectPool/Scripts/ObjectPool.cs:105-107 | the live run is exactly `k` when the first `k` entries are live and entry `k` is destroyed or past the end; the loop then reaches one more entry when there is one |
| PoolTables.RecycledAll | Assets/ObjectPool/Scripts/ObjectPool.cs:105-107 | recycling a sequence keeps the key order and the key set, and every lent prefab keeps a list |
| PoolTables.ReturnedTo | Assets/ObjectPool/Scripts/ObjectPool.cs:105-107 | the snapshot members lent from `q` are exactly those of `xs` whose prefab is `q`, in snapshot order |
| PoolTables.RecycleAllKeepsInv | Assets/ObjectPool/Scripts/ObjectPool.cs:101-108 | recycling any sequence keeps the invariant |
| PoolTables.RecycleAllReturnsSnapshot | Assets/ObjectPool/Scripts/ObjectPool.cs:101-108 | exactly the snapshot stops being lent; lent instances of other types keep their entry |
| PoolTables.RecycleAllStep | Assets/ObjectPool/Scripts/ObjectPool.cs:105-107 | recycling an earlier snapshot entry never un-lends a later one, so each turn of the loop finds its entry lent |
| PoolTables.RecycleAllAppends | Assets/ObjectPool/Scripts/ObjectPool.cs:101-108 | each list gets exactly the snapshot members lent from its prefab, appended at the tail in snapshot order |
| Pooling.ObjectPool.GetAllOfType | Assets/ObjectPool/Scripts/ObjectPool.cs:110-124 | returns `AllOfType`: the lists of the keys of the type, in key registration order, then list order; nothing changes |
| PoolTables.OfType | Assets/ObjectPool/Scripts/ObjectPool.cs:112 | the filtered keys are exactly the given keys of the type |
| PoolTables.OfTypeNoDup | Assets/ObjectPool/Scripts/ObjectPool.cs:112 | filtering keeps a key list free of duplicates |
| PoolTables.ConcatMembers | Assets/ObjectPool/Scripts/ObjectPool.cs:116-120 | an instance is in the concatenated lists exactly when it is in the list of one of the keys |
| PoolTables.ConcatNoDup | Assets/ObjectPool/Scripts/ObjectPool.cs:116-120 | distinct keys whose lists are free of duplicates and pairwise disjoint concatenate without duplicates |
| PoolTables.AllOfType | Assets/ObjectPool/Scripts/ObjectPool.cs:110-124 | the concatenated lists of the keys of the type in key order; its properties are stated by `AllOfTypeMembers` and `AllOfTypeNoDup` |
| PoolTables.AllOfTypeMembers | Assets/ObjectPool/Scripts/ObjectPool.cs:110-124 | an instance is returned exactly when it is pooled under a prefab of the type, and every returned instance has the type |
| PoolTables.AllOfTypeNoDup | Assets/ObjectPool/Scripts/ObjectPool.cs:110-124 | each pooled instance is returned at most once |
| Pooling.ObjectPool.Count | Assets/ObjectPool/Scripts/ObjectPool.cs:126-132 | returns `PooledCount`, the length of the prefab's list or 0 when it is unregistered; nothing changes |
| PoolTables.PooledCount | Assets/ObjectPool/Scripts/ObjectPool.cs:126-132 | the count is the length of the prefab's list, and 0 for an unregistered prefab |
| Pooling.ObjectPool.WarmSpawnRecycle | Assets/ObjectPool/Scripts/ObjectPool.cs:24-132 | on a prefab with no pooled entries: after pre-warming `n` clones, spawning hands back the first clone and `Count` is `n - 1`; recycling it makes `Count` `n` again, with the instance switched off under the pool at the tail of the list |
| Pooling.ObjectPool.WarmUp | Assets/ObjectPool/Scripts/ObjectPool.cs:24-32 | pre-warming a prefab with no pooled entries leaves its list exactly the `n` clones, all live |
| Pooling.ObjectPool.SpawnHead | Assets/ObjectPool/Scripts/ObjectPool.cs:39-55 | when the list starts with a live entry, spawning hands out that entry, drops it from the list and records it as lent from the prefab |
| Engine.Scene.Instantiate | Assets/ObjectPool/Scripts/ObjectPool.cs:58 | a fresh component of the original's type at the given pose, inactive exactly when the original is |
| Engine.Scene.Destroy | Assets/ObjectPool/Scripts/ObjectPool.cs:98 | the component joins the destroyed set; nothing else changes |
| Engine.Scene.SetActive | Assets/ObjectPool/Scripts/ObjectPool.cs:95 | switches the component on or off; nothing else changes |
| Engine.Scene.SetPoolParent | Assets/ObjectPool/Scripts/ObjectPool.cs:94 | parents the component under the pool's root or unparents it; nothing else changes |
| Engine.Scene.SetPose | Assets/ObjectPool/Scripts/ObjectPool.cs:50-51 | sets the component's pose; nothing else changes |

## Left out

- `Assets/ObjectPool/Demo/Scripts/Turret.cs` (the demo turret) is not part of this model. It holds float vector and quaternion maths, mouse input and the per-frame update callback.
- The lazily created static singleton `instance` (ObjectPool.cs:134-145) is replaced by one explicitly constructed `ObjectPool` over a `Scene`. The `_ObjectPool` game object it creates is not modelled.
- `ObjectPoolExtensions` (ObjectPool.cs:148-197) is not modelled. It only forwards to the static methods.
- Positions and rotations are opaque `real` records that are stored on instances, with no arithmetic. Unity's world/local transform semantics on reparenting are not modelled.
- The engine (cloning, destruction, activation, parenting) is reduced to the `Scene` state above. Child objects, components other than the one pooled, and deferred destruction at the end of a frame are not modelled.
- The order in which `prefabLookup` enumerates its keys is unspecified, and the model does not fix it. `RecycleAll` takes its snapshot in an arbitrary order and reports that order as a ghost result.
- `objectLookup`'s key enumeration order is modelled as insertion order (`keyOrder`). Keys are only ever added, except by `Clear`.
- Pooling.ObjectPool.CreatePool: does not state that the clones are freshly allocated, because tracking freshness through the loop is too costly for the verifier. It does state that they are live. `PrewarmNext` states freshness for each clone, and `PoolTables.PrewarmedClonesWereNew` proves that no clone was pooled or lent before.
- Pooling.ObjectPool.Prewarm: does not state that the clones are freshly allocated, for the same reason as `CreatePool`. It does state that they are live.
- Pooling.ObjectPool.Spawn: a destroyed prefab is cloned like a live one. In the engine, `Instantiate` throws for it. The entries popped by then stay popped, and no instance is lent.
- Pooling.ObjectPool.SpawnInactive: a destroyed prefab is cloned like a live one. In the engine, `Instantiate` throws after the prefab has been registered. `CreatePool` stops at that point.
- Engine.Scene.Instantiate: accepts a destroyed original. The engine throws for it. Only `Recycle` and `RecycleAll` model the exception for a destroyed component.
- Concurrency is not modelled; the pool is used from one thread.
