/**
 * The prefab-keyed object pool: a class whose two dictionaries are updated in
 * place by its operations. Each public operation's postcondition ties the new
 * tables to the step function of module PoolTables applied to the old ones,
 * and says what it does to the engine's per-instance state.
 */
module Pooling {
  import opened Engine
  import opened PoolTables

  /**
   * One explicitly constructed pool stands for the lazily created singleton;
   * `scene` is the engine state its instances live in.
   */
  class ObjectPool {
    const scene: Scene
    var objectLookup: map<Component, seq<Component>>  // prefab -> pooled instances, head first
    var keyOrder: seq<Component>                      // the order objectLookup enumerates its keys
    var prefabLookup: map<Component, Component>       // lent instance -> its prefab

    /** The two dictionaries and the key order, as a value. */
    function Abs(): Tables
      reads this
    {
      Tables(objectLookup, keyOrder, prefabLookup)
    }

    ghost predicate Valid()
      reads this
    {
      Inv(Abs())
    }

    constructor (scene: Scene)
      ensures Valid() && Abs() == Empty && this.scene == scene
    {
      this.scene := scene;
      objectLookup, keyOrder, prefabLookup := map[], [], map[];
      new;
      EmptyInv();
    }

    /** Forgets both tables; no instance is destroyed. */
    method Clear()
      modifies this
      ensures Valid() && Abs() == Empty
    {
      objectLookup, keyOrder, prefabLookup := map[], [], map[];
      EmptyInv();
    }

    /** `CreatePool(prefab)`: registers `prefab` with no pre-warmed clones. */
    method CreateEmptyPool(prefab: Component)
      requires Valid()
      modifies this, scene
      ensures Valid()
      ensures Abs() == Register(old(Abs()), prefab)
      ensures PooledCount(Abs(), prefab) == PooledCount(old(Abs()), prefab)
      ensures scene.inactive == old(scene.inactive) && scene.underPool == old(scene.underPool)
      ensures scene.destroyed == old(scene.destroyed) && scene.pose == old(scene.pose)
    {
      ghost var created := CreatePool(prefab, 0);
    }

    /**
     * Registers `prefab` if it has no list (an existing list is kept) and then
     * pre-warms it with `initialAmount` inactive clones, appended at the tail.
     * `created` names those clones, in order.
     */
    method CreatePool(prefab: Component, initialAmount: int) returns (ghost created: seq<Component>)
      requires Valid()
      modifies this, scene
      ensures Valid()
      ensures |created| == if initialAmount > 0 then initialAmount else 0
      ensures Abs() == Prewarmed(old(Abs()), prefab, created)
      ensures PooledCount(Abs(), prefab) == PooledCount(old(Abs()), prefab) + |created|
      ensures prefabLookup == old(prefabLookup)
      ensures scene.inactive == old(scene.inactive) + Elems(created)
      ensures scene.underPool == old(scene.underPool) + Elems(created)
      ensures scene.destroyed == old(scene.destroyed)
      ensures scene.pose == PlacedAll(old(scene.pose), created, Origin)
      ensures forall x :: x in created ==> x !in scene.destroyed
    {
      if prefab !in objectLookup {
        objectLookup := objectLookup[prefab := []];
        keyOrder := keyOrder + [prefab];
      }
      created := [];
      if initialAmount > 0 {
        created := Prewarm(old(Abs()), prefab, initialAmount);
      }
      PrewarmAppends(old(Abs()), prefab, created);
      PrewarmKeepsOthers(old(Abs()), prefab, created);
    }

    /** `CreatePool`'s loop: `amount` calls of `SpawnInactive(prefab)` on a pool where `prefab` is registered. */
    method Prewarm(ghost t: Tables, prefab: Component, amount: nat) returns (ghost created: seq<Component>)
      requires Valid() && Abs() == Register(t, prefab)
      modifies this, scene
      ensures Valid()
      ensures |created| == amount
      ensures Abs() == Prewarmed(t, prefab, created)
      ensures scene.inactive == old(scene.inactive) + Elems(created)
      ensures scene.underPool == old(scene.underPool) + Elems(created)
      ensures scene.destroyed == old(scene.destroyed)
      ensures scene.pose == PlacedAll(old(scene.pose), created, Origin)
      ensures forall x :: x in created ==> x !in scene.destroyed
    {
      created := [];
      for i := 0 to amount
        invariant Valid()
        invariant |created| == i
        invariant Abs() == Prewarmed(t, prefab, created)
        invariant scene.inactive == old(scene.inactive) + Elems(created)
        invariant scene.underPool == old(scene.underPool) + Elems(created)
        invariant scene.destroyed == old(scene.destroyed)
        invariant scene.pose == PlacedAll(old(scene.pose), created, Origin)
        invariant forall x :: x in created ==> x !in scene.destroyed
      {
        var obj := PrewarmNext(t, prefab, created, old(scene.inactive), old(scene.underPool), old(scene.pose));
        created := created + [obj];
      }
    }

    /**
     * One turn of `CreatePool`'s loop: `SpawnInactive(prefab)` extends the
     * pre-warmed clones by one; `inactive0`, `underPool0` and `poses0` are the
     * engine state before the first clone.
     */
    method PrewarmNext(ghost t: Tables, prefab: Component, ghost created: seq<Component>,
                       ghost inactive0: set<Component>, ghost underPool0: set<Component>,
                       ghost poses0: map<Component, Pose>) returns (obj: Component)
      requires Valid() && Abs() == Prewarmed(t, prefab, created)
      requires scene.inactive == inactive0 + Elems(created)
      requires scene.underPool == underPool0 + Elems(created)
      requires scene.pose == PlacedAll(poses0, created, Origin)
      requires forall x :: x in created ==> x !in scene.destroyed
      modifies this, scene
      ensures Valid() && Abs() == Prewarmed(t, prefab, created + [obj])
      ensures scene.inactive == inactive0 + Elems(created + [obj])
      ensures scene.underPool == underPool0 + Elems(created + [obj])
      ensures scene.destroyed == old(scene.destroyed)
      ensures scene.pose == PlacedAll(poses0, created + [obj], Origin)
      ensures fresh(obj) && obj.tag == prefab.tag
      ensures forall x :: x in created + [obj] ==> x !in scene.destroyed
    {
      obj := SpawnInactive(prefab);
      PrewarmSnoc(t, prefab, created, obj, Abs(), inactive0, scene.inactive, poses0, scene.pose, Origin);
      PrewarmSnoc(t, prefab, created, obj, Abs(), underPool0, scene.underPool, poses0, scene.pose, Origin);
    }

    /**
     * Clones `prefab` (registering it if needed), switches the clone off,
     * parents it under the pool and appends it to the tail of the list.
     */
    method SpawnInactive(prefab: Component) returns (obj: Component)
      requires Valid()
      modifies this, scene
      ensures Valid()
      ensures fresh(obj) && obj.tag == prefab.tag
      ensures Abs() == AddInactive(old(Abs()), prefab, obj)
      ensures scene.inactive == old(scene.inactive) + {obj}
      ensures scene.underPool == old(scene.underPool) + {obj}
      ensures scene.destroyed == old(scene.destroyed)
      ensures scene.pose == old(scene.pose)[obj := Origin]
    {
      if prefab !in objectLookup {
        objectLookup := objectLookup[prefab := []];
        keyOrder := keyOrder + [prefab];
      }
      obj := scene.Instantiate(prefab, Origin);
      scene.SetPoolParent(obj, true);
      scene.SetActive(obj, false);
      objectLookup := objectLookup[prefab := objectLookup[prefab] + [obj]];
      AddInactiveKeepsInv(old(Abs()), prefab, obj);
    }

    /**
     * What `Spawn(prefab, ...)` does, `at` being the requested pose: the tables
     * change as SpawnStep says, the instance handed out is the reused entry or
     * a fresh clone, and it ends up unparented, at `at`, and switched on (a
     * fresh clone copies the prefab's active flag).
     */
    twostate predicate Spawned(prefab: Component, at: Pose, new obj: Component)
      reads this, scene
    {
      var s := SpawnStep(old(Abs()), prefab, old(scene.destroyed), obj);
      && Abs() == s.tables
      && obj == s.obj
      && (!s.reused ==> fresh(obj) && obj.tag == prefab.tag)
      && scene.destroyed == old(scene.destroyed)
      && scene.underPool == old(scene.underPool) - {obj}
      && scene.pose == old(scene.pose)[obj := at]
      && scene.inactive == if !s.reused && prefab in old(scene.inactive)
                           then old(scene.inactive) + {obj}
                           else old(scene.inactive) - {obj}
    }

    /**
     * Hands out the first live pooled instance of `prefab` (discarding the
     * destroyed entries before it), or a fresh clone when there is none; the
     * instance is recorded as lent exactly when `prefab` is registered.
     */
    method Spawn(prefab: Component, position: Vector3, rotation: Quaternion) returns (obj: Component)
      requires Valid()
      modifies this, scene
      ensures Valid()
      ensures Spawned(prefab, Pose(position, rotation), obj)
    {
      var at := Pose(position, rotation);
      if prefab in objectLookup {
        obj := SpawnPooled(prefab, at);
      } else {
        obj := scene.Instantiate(prefab, at);
      }
    }

    /** `Spawn` for a registered prefab: reuse the first live pooled entry, or lend out a fresh clone. */
    method SpawnPooled(prefab: Component, at: Pose) returns (obj: Component)
      requires Valid() && prefab in objectLookup
      modifies this, scene
      ensures Valid()
      ensures Spawned(prefab, at, obj)
    {
      ghost var list0 := objectLookup[prefab];
      ghost var dead := scene.destroyed;
      var found: Component? := null;
      if |objectLookup[prefab]| > 0 {
        found := TakeFirstLive(prefab);
      }
      if found != null {
        // Dictionary.Add cannot meet an existing key: a pooled entry is never lent
        assert found !in prefabLookup;
        HandOut(prefab, found, at);
        assert SpawnStep(old(Abs()), prefab, dead, found) == Lent(Abs(), found, true);
        SpawnKeepsInv(old(Abs()), prefab, dead, found);
        obj := found;
      } else {
        LeadingDeadWhenAllDead(list0, dead);
        obj := LendClone(prefab, at);
        assert SpawnStep(old(Abs()), prefab, dead, obj) == Lent(Abs(), obj, false);
        SpawnKeepsInv(old(Abs()), prefab, dead, obj);
      }
    }

    /**
     * `Spawn`'s loop: pops entries off the head of `prefab`'s list until one
     * that is not destroyed comes off (`found`) or the list runs out (null).
     */
    method TakeFirstLive(prefab: Component) returns (found: Component?)
      requires prefab in objectLookup
      modifies this
      ensures prefab in objectLookup && keyOrder == old(keyOrder) && prefabLookup == old(prefabLookup)
      ensures found == null ==>
                && (forall j :: 0 <= j < |old(objectLookup[prefab])| ==> old(objectLookup[prefab])[j] in scene.destroyed)
                && objectLookup == old(objectLookup)[prefab := []]
      ensures found != null ==>
                && LeadingDead(old(objectLookup[prefab]), scene.destroyed) < |old(objectLookup[prefab])|
                && found == old(objectLookup[prefab])[LeadingDead(old(objectLookup[prefab]), scene.destroyed)]
                && objectLookup == old(objectLookup)[prefab := old(objectLookup[prefab])[LeadingDead(old(objectLookup[prefab]), scene.destroyed) + 1..]]
    {
      ghost var list0 := objectLookup[prefab];
      ghost var n := 0;
      found := null;
      while found == null && |objectLookup[prefab]| > 0
        invariant prefab in objectLookup
        invariant n <= |list0| && objectLookup == old(objectLookup)[prefab := list0[n..]]
        invariant keyOrder == old(keyOrder) && prefabLookup == old(prefabLookup)
        invariant found == null ==> forall j :: 0 <= j < n ==> list0[j] in scene.destroyed
        invariant found != null ==> 0 < n && found == list0[n - 1] && found !in scene.destroyed
        invariant found != null ==> forall j :: 0 <= j < n - 1 ==> list0[j] in scene.destroyed
        decreases |list0| - n
      {
        var head := objectLookup[prefab][0];
        // `list[0] as T` reads as null for a destroyed component
        found := if head in scene.destroyed then null else head;
        objectLookup := objectLookup[prefab := objectLookup[prefab][1..]];
        n := n + 1;
      }
      if found != null {
        LeadingDeadIsFirstLive(list0, scene.destroyed, n - 1);
      }
    }

    /** `Spawn`'s reuse path: unparents `found`, moves it to `at`, switches it on and records it as lent. */
    method HandOut(prefab: Component, found: Component, at: Pose)
      modifies this, scene
      ensures objectLookup == old(objectLookup) && keyOrder == old(keyOrder)
      ensures prefabLookup == old(prefabLookup)[found := prefab]
      ensures scene.destroyed == old(scene.destroyed)
      ensures scene.underPool == old(scene.underPool) - {found}
      ensures scene.pose == old(scene.pose)[found := at]
      ensures scene.inactive == old(scene.inactive) - {found}
    {
      scene.SetPoolParent(found, false);
      scene.SetPose(found, at);
      scene.SetActive(found, true);
      prefabLookup := prefabLookup[found := prefab];
    }

    /** `Spawn`'s clone path: a fresh clone of `prefab` at `at`, recorded as lent. */
    method LendClone(prefab: Component, at: Pose) returns (obj: Component)
      modifies this, scene
      ensures fresh(obj) && obj.tag == prefab.tag
      ensures objectLookup == old(objectLookup) && keyOrder == old(keyOrder)
      ensures prefabLookup == old(prefabLookup)[obj := prefab]
      ensures scene.inactive == if prefab in old(scene.inactive) then old(scene.inactive) + {obj} else old(scene.inactive)
      ensures scene.destroyed == old(scene.destroyed) && scene.underPool == old(scene.underPool)
      ensures scene.pose == old(scene.pose)[obj := at]
    {
      obj := scene.Instantiate(prefab, at);
      // Dictionary.Add cannot meet an existing key: the clone is new
      assert obj !in prefabLookup;
      prefabLookup := prefabLookup[obj := prefab];
    }

    /** `Spawn(prefab, position)`: the identity rotation. */
    method SpawnAt(prefab: Component, position: Vector3) returns (obj: Component)
      requires Valid()
      modifies this, scene
      ensures Valid()
      ensures Spawned(prefab, Pose(position, Identity), obj)
    {
      obj := Spawn(prefab, position, Identity);
    }

    /** `Spawn(prefab)`: the origin and the identity rotation. */
    method SpawnAtOrigin(prefab: Component) returns (obj: Component)
      requires Valid()
      modifies this, scene
      ensures Valid()
      ensures Spawned(prefab, Origin, obj)
    {
      obj := Spawn(prefab, Zero, Identity);
    }

    /**
     * Returns a lent instance to the tail of its prefab's list, switched off
     * and parented under the pool; destroys any instance that is not lent.
     * The engine throws at the first touch of a destroyed instance's transform
     * or game object: `aborted` reports that exception, after which nothing
     * more happens, although a lent instance's table entries have already
     * moved by then.
     */
    method Recycle(obj: Component) returns (aborted: bool)
      requires Valid()
      modifies this, scene
      ensures Valid()
      ensures aborted == (obj in old(scene.destroyed))
      ensures Abs() == Recycled(old(Abs()), obj)
      ensures scene.inactive == if !aborted && obj in old(prefabLookup) then old(scene.inactive) + {obj} else old(scene.inactive)
      ensures scene.underPool == if !aborted && obj in old(prefabLookup) then old(scene.underPool) + {obj} else old(scene.underPool)
      ensures scene.destroyed == if obj in old(prefabLookup) then old(scene.destroyed) else old(scene.destroyed) + {obj}
      ensures scene.pose == old(scene.pose)
    {
      aborted := obj in scene.destroyed;
      if obj in prefabLookup {
        var prefab := prefabLookup[obj];
        objectLookup := objectLookup[prefab := objectLookup[prefab] + [obj]];
        prefabLookup := prefabLookup - {obj};
        if !aborted {
          scene.SetPoolParent(obj, true);
          scene.SetActive(obj, false);
        }
      } else if !aborted {
        scene.Destroy(obj);
      }
      RecycleKeepsInv(old(Abs()), obj);
    }

    /**
     * The snapshot `RecycleAll` works from: each lent instance whose runtime
     * type is `tag`, once, in an order the dictionary does not specify.
     */
    method LentOfType(tag: TypeTag) returns (active: seq<Component>)
      ensures NoDup(active)
      ensures forall k :: k in active ==> k in prefabLookup && k.tag == tag
      ensures forall k :: k in prefabLookup && k.tag == tag ==> k in active
    {
      var pending := set k | k in prefabLookup && k.tag == tag;
      active := [];
      while pending != {}
        invariant NoDup(active)
        invariant forall k :: k in active ==> k in prefabLookup && k.tag == tag && k !in pending
        invariant forall k :: k in pending ==> k in prefabLookup && k.tag == tag
        invariant forall k :: k in prefabLookup && k.tag == tag ==> k in active || k in pending
        decreases pending
      {
        var k :| k in pending;
        active := active + [k];
        pending := pending - {k};
      }
    }

    /**
     * One turn of `RecycleAll`'s loop: the `i`th snapshot entry is still lent
     * and goes back, extending the recycled prefix; `aborted` when it was
     * destroyed. `inactive0` and `underPool0` are the engine state before the
     * loop.
     */
    method RecycleNext(ghost t: Tables, active: seq<Component>, i: nat,
                       ghost inactive0: set<Component>, ghost underPool0: set<Component>) returns (aborted: bool)
      requires Inv(t) && NoDup(active) && i < |active|
      requires forall k :: k in active ==> k in t.prefabs
      requires Valid() && Abs() == RecycledAll(t, active[..i])
      requires scene.inactive == inactive0 + Elems(active[..i])
      requires scene.underPool == underPool0 + Elems(active[..i])
      modifies this, scene
      ensures Valid() && Abs() == RecycledAll(t, active[..i + 1])
      ensures aborted == (active[i] in old(scene.destroyed))
      ensures scene.inactive == if aborted then old(scene.inactive) else inactive0 + Elems(active[..i + 1])
      ensures scene.underPool == if aborted then old(scene.underPool) else underPool0 + Elems(active[..i + 1])
      ensures scene.destroyed == old(scene.destroyed) && scene.pose == old(scene.pose)
    {
      RecycleAllStep(t, active, i);
      aborted := Recycle(active[i]);
      if !aborted {
        AddedNext(inactive0, scene.inactive, active, i);
        AddedNext(underPool0, scene.underPool, active, i);
      }
    }

    /**
     * Recycles every lent instance whose runtime type is `tag`, working from a
     * snapshot of them taken first; `snapshot` is that snapshot, in the
     * (unspecified) order the dictionary enumerated it. A destroyed entry
     * ends the loop with the exception its `Recycle` raises (`aborted`): the
     * entries up to it are recycled, those after it stay lent.
     */
    method RecycleAll(tag: TypeTag) returns (ghost snapshot: seq<Component>, aborted: bool)
      requires Valid()
      modifies this, scene
      ensures Valid()
      ensures NoDup(snapshot)
      ensures forall k :: k in snapshot ==> k in old(prefabLookup) && k.tag == tag
      ensures forall k :: k in old(prefabLookup) && k.tag == tag ==> k in snapshot
      ensures aborted <==> exists k :: k in snapshot && k in old(scene.destroyed)
      ensures Abs() == RecycledAll(old(Abs()), snapshot[..Reached(snapshot, old(scene.destroyed))])
      ensures scene.inactive == old(scene.inactive) + Elems(snapshot[..LiveRun(snapshot, old(scene.destroyed))])
      ensures scene.underPool == old(scene.underPool) + Elems(snapshot[..LiveRun(snapshot, old(scene.destroyed))])
      ensures scene.destroyed == old(scene.destroyed) && scene.pose == old(scene.pose)
    {
      var active := LentOfType(tag);
      snapshot := active;
      aborted := false;
      if |active| > 0 {
        aborted := RecycleEach(active);
      }
    }

    /**
     * `RecycleAll`'s loop: recycles the distinct lent instances `active`,
     * front to back, until one of them turns out to be destroyed.
     */
    method RecycleEach(active: seq<Component>) returns (aborted: bool)
      requires Valid() && NoDup(active)
      requires forall k :: k in active ==> k in prefabLookup
      modifies this, scene
      ensures Valid()
      ensures aborted <==> LiveRun(active, old(scene.destroyed)) < |active|
      ensures Abs() == RecycledAll(old(Abs()), active[..Reached(active, old(scene.destroyed))])
      ensures scene.inactive == old(scene.inactive) + Elems(active[..LiveRun(active, old(scene.destroyed))])
      ensures scene.underPool == old(scene.underPool) + Elems(active[..LiveRun(active, old(scene.destroyed))])
      ensures scene.destroyed == old(scene.destroyed) && scene.pose == old(scene.pose)
    {
      ghost var t := Abs();
      ghost var dead := scene.destroyed;
      aborted := false;
      assert active[..0] == [];
      for i := 0 to |active|
        invariant !aborted
        invariant Valid() && Abs() == RecycledAll(t, active[..i])
        invariant forall j :: 0 <= j < i ==> active[j] !in dead
        invariant scene.inactive == old(scene.inactive) + Elems(active[..i])
        invariant scene.underPool == old(scene.underPool) + Elems(active[..i])
        invariant scene.destroyed == dead && scene.pose == old(scene.pose)
      {
        aborted := RecycleNext(t, active, i, old(scene.inactive), old(scene.underPool));
        if aborted {
          // the exception leaves the loop
          LiveRunAt(active, dead, i);
          return;
        }
      }
      LiveRunAt(active, dead, |active|);
      assert active[..|active|] == active;
    }

    /**
     * The pooled instances of every prefab whose runtime type is `tag`, prefab
     * by prefab in registration order, each list head first.
     */
    method GetAllOfType(tag: TypeTag) returns (objects: seq<Component>)
      requires Valid()
      ensures objects == AllOfType(Abs(), tag)
    {
      // the key filter is a query expression over objectLookup's keys
      var keys := OfType(keyOrder, tag);
      objects := [];
      if |keys| > 0 {
        for i := 0 to |keys|
          invariant objects == Concat(keys[..i], objectLookup)
        {
          assert keys[..i + 1][..i] == keys[..i];
          var key := keys[i];
          if |objectLookup[key]| > 0 {
            var list := objectLookup[key];
            for j := 0 to |list|
              invariant objects == Concat(keys[..i], objectLookup) + list[..j]
            {
              assert list[..j + 1] == list[..j] + [list[j]];
              objects := objects + [list[j]];
            }
            assert list[..|list|] == list;
          }
        }
        assert keys[..|keys|] == keys;
      }
    }

    /** The number of pooled entries of `prefab` (live or not); 0 when it has no list. */
    method Count(prefab: Component) returns (n: int)
      ensures n == PooledCount(Abs(), prefab)
    {
      if prefab in objectLookup {
        n := |objectLookup[prefab]|;
      } else {
        n := 0;
      }
    }

    /**
     * The cycle the pool exists for, on a prefab with no pooled entries:
     * pre-warming `n` clones, spawning hands back the first of them and
     * `Count` drops to `n - 1`; recycling it brings `Count` back to `n`, with
     * the instance switched off at the tail of the list.
     */
    method WarmSpawnRecycle(prefab: Component, n: int, at: Pose)
      returns (ghost created: seq<Component>, obj: Component, during: int, after: int)
      requires Valid() && PooledCount(Abs(), prefab) == 0 && n > 0
      modifies this, scene
      ensures Valid()
      ensures |created| == n && obj == created[0]
      ensures during == n - 1 && after == n
      ensures ListOf(Abs(), prefab) == created[1..] + [obj]
      ensures obj in scene.inactive && obj in scene.underPool
    {
      created := WarmUp(prefab, n);
      obj := SpawnHead(prefab, at, created);
      during := Count(prefab);
      var aborted := Recycle(obj);
      after := Count(prefab);
    }

    /** `CreatePool(prefab, n)` on a prefab with no pooled entries: its list is then exactly the live clones. */
    method WarmUp(prefab: Component, n: int) returns (ghost created: seq<Component>)
      requires Valid() && PooledCount(Abs(), prefab) == 0 && n > 0
      modifies this, scene
      ensures Valid() && |created| == n
      ensures prefab in objectLookup && objectLookup[prefab] == created
      ensures forall x :: x in created ==> x !in scene.destroyed
    {
      created := CreatePool(prefab, n);
      PrewarmAppends(old(Abs()), prefab, created);
      PrewarmKeepsOthers(old(Abs()), prefab, created);
    }

    /** `Spawn` on a prefab whose list starts with a live entry hands that entry out and lends it. */
    method SpawnHead(prefab: Component, at: Pose, ghost list: seq<Component>) returns (obj: Component)
      requires Valid() && prefab in objectLookup && objectLookup[prefab] == list
      requires |list| > 0 && list[0] !in scene.destroyed
      modifies this, scene
      ensures Valid() && obj == list[0] && obj !in scene.destroyed
      ensures prefab in objectLookup && objectLookup[prefab] == list[1..]
      ensures obj in prefabLookup && prefabLookup[obj] == prefab
    {
      ghost var t := Abs();
      ghost var dead := scene.destroyed;
      obj := Spawn(prefab, at.position, at.rotation);
      SpawnReusesFirstLive(t, prefab, dead, obj, 0);
    }
  }
}
