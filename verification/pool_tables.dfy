/**
 * The pool's bookkeeping as a value: the two dictionaries `objectLookup`
 * (prefab -> pooled, switched-off instances, spawned from the head and
 * refilled at the tail) and `prefabLookup` (lent instance -> the prefab it
 * came from), plus the order in which `objectLookup` enumerates its keys.
 * Each pool operation's effect on the tables is a function here, and the
 * lemmas state what the operations promise about them.
 */
module PoolTables {
  import opened Engine

  datatype Tables = Tables(
    objects: map<Component, seq<Component>>,  // objectLookup
    order: seq<Component>,                    // objectLookup's keys, in the order they were added
    prefabs: map<Component, Component>)       // prefabLookup

  const Empty := Tables(map[], [], map[])

  ghost predicate NoDup(s: seq<Component>) {
    forall i, j :: 0 <= i < j < |s| ==> s[i] != s[j]
  }

  // ---------------------------------------------------------------------
  // The invariant kept by every operation
  // ---------------------------------------------------------------------

  /** `order` lists each key of `objectLookup` exactly once. */
  ghost predicate KeysInOrder(t: Tables) {
    && NoDup(t.order)
    && (forall p :: p in t.objects ==> p in t.order)
    && (forall p :: p in t.order ==> p in t.objects)
  }

  /** An instance is in at most one pool list, and at most once there. */
  ghost predicate ListsDisjoint(t: Tables) {
    && (forall p :: p in t.objects ==> NoDup(t.objects[p]))
    && (forall p, q, x :: p in t.objects && q in t.objects && x in t.objects[p] && x in t.objects[q] ==> p == q)
  }

  /** No instance is both pooled and lent out. */
  ghost predicate PooledNotLent(t: Tables) {
    forall p, x :: p in t.objects && x in t.objects[p] ==> x !in t.prefabs
  }

  /** Every lent instance's prefab has a list, so recycling it never misses. */
  ghost predicate LentFromRegistered(t: Tables) {
    forall k :: k in t.prefabs ==> t.prefabs[k] in t.objects
  }

  /** Pooled and lent instances have the runtime type of their prefab. */
  ghost predicate TagsAgree(t: Tables) {
    && (forall p, x :: p in t.objects && x in t.objects[p] ==> x.tag == p.tag)
    && (forall k :: k in t.prefabs ==> k.tag == t.prefabs[k].tag)
  }

  ghost predicate Inv(t: Tables) {
    KeysInOrder(t) && ListsDisjoint(t) && PooledNotLent(t) && LentFromRegistered(t) && TagsAgree(t)
  }

  /** `x` is neither pooled nor lent: what a fresh clone satisfies. */
  ghost predicate IsNew(t: Tables, x: Component) {
    x !in t.prefabs && forall p :: p in t.objects ==> x !in t.objects[p]
  }

  /** The components listed in `xs`. */
  function Elems(xs: seq<Component>): set<Component>
    decreases |xs|
  {
    if xs == [] then {} else Elems(xs[..|xs| - 1]) + {xs[|xs| - 1]}
  }

  lemma {:induction false} ElemsMembers(xs: seq<Component>, x: Component)
    ensures x in Elems(xs) <==> x in xs
    decreases |xs|
  {
    if xs != [] {
      ElemsMembers(xs[..|xs| - 1], x);
      assert x in xs <==> x in xs[..|xs| - 1] || x == xs[|xs| - 1];
    }
  }

  /** `poses` with every component of `xs` placed at `at`. */
  function PlacedAll(poses: map<Component, Pose>, xs: seq<Component>, at: Pose): map<Component, Pose>
    decreases |xs|
  {
    if xs == [] then poses else PlacedAll(poses, xs[..|xs| - 1], at)[xs[|xs| - 1] := at]
  }

  /** Every component of `xs` is placed at `at`; every other keeps its pose, or still has none. */
  lemma {:induction false} PlacedAllPoses(poses: map<Component, Pose>, xs: seq<Component>, at: Pose, x: Component)
    ensures x in xs ==> x in PlacedAll(poses, xs, at) && PlacedAll(poses, xs, at)[x] == at
    ensures x !in xs ==> (x in PlacedAll(poses, xs, at) <==> x in poses)
    ensures x !in xs && x in poses ==> PlacedAll(poses, xs, at)[x] == poses[x]
    decreases |xs|
  {
    if xs != [] {
      PlacedAllPoses(poses, xs[..|xs| - 1], at, x);
      assert x in xs <==> x in xs[..|xs| - 1] || x == xs[|xs| - 1];
    }
  }

  lemma EmptyInv()
    ensures Inv(Empty)
  {
  }

  // ---------------------------------------------------------------------
  // Queries
  // ---------------------------------------------------------------------

  /** The pool list of `p`, empty when `p` has none. */
  function ListOf(t: Tables, p: Component): seq<Component> {
    if p in t.objects then t.objects[p] else []
  }

  /** What `Count(prefab)` answers. */
  function PooledCount(t: Tables, p: Component): (n: nat)
    ensures n == |ListOf(t, p)|
    ensures p !in t.objects ==> n == 0
  {
    if p in t.objects then |t.objects[p]| else 0
  }

  // ---------------------------------------------------------------------
  // Registration and pre-warming (CreatePool, SpawnInactive)
  // ---------------------------------------------------------------------

  /** Gives `p` an empty list unless it already has one. */
  function Register(t: Tables, p: Component): (r: Tables)
    ensures r.objects.Keys == t.objects.Keys + {p}
    ensures forall q :: q in t.objects ==> r.objects[q] == t.objects[q]
    ensures ListOf(r, p) == ListOf(t, p)
    ensures r.order == if p in t.objects then t.order else t.order + [p]
    ensures r.prefabs == t.prefabs
  {
    if p in t.objects then t else Tables(t.objects[p := []], t.order + [p], t.prefabs)
  }

  /** The bookkeeping of `SpawnInactive(p)` with `x` the new clone. */
  function AddInactive(t: Tables, p: Component, x: Component): (r: Tables)
    ensures r.objects.Keys == t.objects.Keys + {p}
    ensures ListOf(r, p) == ListOf(t, p) + [x]
    ensures r.order == if p in t.objects then t.order else t.order + [p]
    ensures forall q :: q in t.objects && q != p ==> r.objects[q] == t.objects[q]
    ensures r.prefabs == t.prefabs
  {
    var u := Register(t, p);
    u.(objects := u.objects[p := u.objects[p] + [x]])
  }

  /** After `AddInactive(t, p, x)` a list holds what it held before, plus `x` in `p`'s. */
  lemma AddInactiveMembers(t: Tables, p: Component, x: Component)
    ensures forall q, y :: q in AddInactive(t, p, x).objects && y in AddInactive(t, p, x).objects[q] ==>
              (q in t.objects && y in t.objects[q]) || (q == p && y == x)
  {
    var r := AddInactive(t, p, x);
    forall q, y | q in r.objects && y in r.objects[q]
      ensures (q in t.objects && y in t.objects[q]) || (q == p && y == x)
    {
      if q == p {
        assert y in ListOf(t, p) + [x];
      }
    }
  }

  lemma AddInactiveKeepsInv(t: Tables, p: Component, x: Component)
    requires Inv(t) && IsNew(t, x) && x.tag == p.tag
    ensures Inv(AddInactive(t, p, x))
  {
    var r := AddInactive(t, p, x);
    AddInactiveMembers(t, p, x);
    assert KeysInOrder(r) by {
      if p !in t.objects {
        assert r.order == t.order + [p];
      }
    }
    forall q | q in r.objects
      ensures NoDup(r.objects[q])
    {
      if q == p {
        assert r.objects[p] == ListOf(t, p) + [x];
      }
    }
  }

  /** The bookkeeping of `CreatePool(p, n)`, `xs` being the n clones made, in order. */
  function Prewarmed(t: Tables, p: Component, xs: seq<Component>): Tables
    decreases |xs|
  {
    if xs == [] then Register(t, p)
    else AddInactive(Prewarmed(t, p, xs[..|xs| - 1]), p, xs[|xs| - 1])
  }

  /**
   * Pre-warming appends the clones to the tail of `p`'s list and never resets
   * it (so `Count(p)` grows by the number of clones).
   */
  lemma {:induction false} PrewarmAppends(t: Tables, p: Component, xs: seq<Component>)
    ensures ListOf(Prewarmed(t, p, xs), p) == ListOf(t, p) + xs
    decreases |xs|
  {
    if xs != [] {
      var init := xs[..|xs| - 1];
      PrewarmAppends(t, p, init);
      AppendLast(ListOf(t, p), xs);
    }
  }

  /** Appending all but the last element of `xs` and then the last one appends `xs`. */
  lemma AppendLast(a: seq<Component>, xs: seq<Component>)
    requires xs != []
    ensures a + xs[..|xs| - 1] + [xs[|xs| - 1]] == a + xs
  {
    assert xs[..|xs| - 1] + [xs[|xs| - 1]] == xs;
  }

  /**
   * One more pre-warmed clone `x`: the tables gain `x` as `AddInactive` says
   * and the engine's sets and poses gain it too, so the folds over the
   * clones so far extend by `x`.
   */
  lemma PrewarmSnoc(t: Tables, p: Component, xs: seq<Component>, x: Component,
                    b: Tables, s0: set<Component>, s: set<Component>,
                    poses0: map<Component, Pose>, poses: map<Component, Pose>, at: Pose)
    requires b == AddInactive(Prewarmed(t, p, xs), p, x)
    requires s == s0 + Elems(xs) + {x}
    requires poses == PlacedAll(poses0, xs, at)[x := at]
    ensures b == Prewarmed(t, p, xs + [x])
    ensures s == s0 + Elems(xs + [x])
    ensures poses == PlacedAll(poses0, xs + [x], at)
  {
  }

  /** Pre-warming `p` registers `p` and touches no other list and no lent entry. */
  lemma {:induction false} PrewarmKeepsOthers(t: Tables, p: Component, xs: seq<Component>)
    ensures Prewarmed(t, p, xs).objects.Keys == t.objects.Keys + {p}
    ensures forall q :: q in t.objects && q != p ==> Prewarmed(t, p, xs).objects[q] == t.objects[q]
    ensures Prewarmed(t, p, xs).prefabs == t.prefabs
    decreases |xs|
  {
    if xs != [] {
      PrewarmKeepsOthers(t, p, xs[..|xs| - 1]);
    }
  }

  /** In a duplicate-free `a + b`, an entry of `b` is not in `a` and occurs once in `b`. */
  lemma NoDupSplit(a: seq<Component>, b: seq<Component>, i: nat)
    requires NoDup(a + b) && i < |b|
    ensures b[i] !in a
    ensures forall j :: 0 <= j < |b| && j != i ==> b[j] != b[i]
  {
    assert (a + b)[|a| + i] == b[i];
    forall j | 0 <= j < |a|
      ensures a[j] != b[i]
    {
      assert (a + b)[j] == a[j];
    }
    forall j | 0 <= j < |b| && j != i
      ensures b[j] != b[i]
    {
      assert (a + b)[|a| + j] == b[j];
    }
  }

  /**
   * When pre-warming leaves the invariant intact, the clones were distinct,
   * neither pooled nor lent before, and of the prefab's runtime type.
   */
  lemma PrewarmedClonesWereNew(t: Tables, p: Component, xs: seq<Component>, i: nat)
    requires Inv(Prewarmed(t, p, xs)) && i < |xs|
    ensures IsNew(t, xs[i]) && xs[i].tag == p.tag
    ensures forall j :: 0 <= j < |xs| && j != i ==> xs[j] != xs[i]
  {
    var r := Prewarmed(t, p, xs);
    var x := xs[i];
    PrewarmAppends(t, p, xs);
    PrewarmKeepsOthers(t, p, xs);
    var before := ListOf(t, p);
    assert r.objects[p] == before + xs;
    NoDupSplit(before, xs, i);
    assert x in r.objects[p] by {
      assert r.objects[p][|before| + i] == x;
    }
    forall q | q in t.objects
      ensures x !in t.objects[q]
    {
      if q != p {
        assert r.objects[q] == t.objects[q];
      }
    }
  }

  // ---------------------------------------------------------------------
  // Spawn
  // ---------------------------------------------------------------------

  /** How many entries at the head of `list` are dead before the first live one. */
  function LeadingDead(list: seq<Component>, dead: set<Component>): (k: nat)
    ensures k <= |list|
    ensures forall i :: 0 <= i < k ==> list[i] in dead
    ensures k < |list| ==> list[k] !in dead
  {
    if list == [] || list[0] !in dead then 0 else 1 + LeadingDead(list[1..], dead)
  }

  /** The scan stops at the first live entry. */
  lemma LeadingDeadIsFirstLive(list: seq<Component>, dead: set<Component>, i: nat)
    requires i < |list| && list[i] !in dead
    requires forall j :: 0 <= j < i ==> list[j] in dead
    ensures LeadingDead(list, dead) == i
  {
  }

  /** With every entry dead the scan runs through the whole list. */
  lemma LeadingDeadWhenAllDead(list: seq<Component>, dead: set<Component>)
    requires forall j :: 0 <= j < |list| ==> list[j] in dead
    ensures LeadingDead(list, dead) == |list|
  {
  }

  /** What `Spawn` leaves behind and hands out. */
  datatype Lent = Lent(tables: Tables, obj: Component, reused: bool)

  /**
   * The bookkeeping of `Spawn(p, ...)`, `dead` being the destroyed components
   * and `clone` the component a fresh `Instantiate` would return.
   */
  function SpawnStep(t: Tables, p: Component, dead: set<Component>, clone: Component): (r: Lent)
    ensures !r.reused ==> r.obj == clone
    ensures r.reused ==> p in t.objects && r.obj in t.objects[p] && r.obj !in dead
    ensures p !in t.objects ==> r.tables == t && !r.reused
    ensures p in t.objects ==> r.tables.prefabs == t.prefabs[r.obj := p]
    ensures r.tables.order == t.order && r.tables.objects.Keys == t.objects.Keys
    ensures forall q :: q in t.objects && q != p ==> r.tables.objects[q] == t.objects[q]
  {
    if p !in t.objects then Lent(t, clone, false)
    else
      var list := t.objects[p];
      var k := LeadingDead(list, dead);
      if k < |list| then
        Lent(t.(objects := t.objects[p := list[k + 1..]], prefabs := t.prefabs[list[k] := p]), list[k], true)
      else
        Lent(t.(objects := t.objects[p := []], prefabs := t.prefabs[clone := p]), clone, false)
  }

  /**
   * FIFO reuse: when `p`'s list has a live entry, `Spawn` pops the dead ones
   * before it and then that first live entry, hands out that entry and records
   * it as lent from `p`; the list shrinks by exactly the number of entries
   * popped.
   */
  lemma SpawnReusesFirstLive(t: Tables, p: Component, dead: set<Component>, clone: Component, i: nat)
    requires p in t.objects && i < |t.objects[p]|
    requires t.objects[p][i] !in dead
    requires forall j :: 0 <= j < i ==> t.objects[p][j] in dead
    ensures SpawnStep(t, p, dead, clone).reused
    ensures SpawnStep(t, p, dead, clone).obj == t.objects[p][i]
    ensures SpawnStep(t, p, dead, clone).tables.objects[p] == t.objects[p][i + 1..]
    ensures |SpawnStep(t, p, dead, clone).tables.objects[p]| == |t.objects[p]| - (i + 1)
    ensures SpawnStep(t, p, dead, clone).tables.prefabs == t.prefabs[t.objects[p][i] := p]
  {
  }

  /**
   * With no live entry (empty or all destroyed), `Spawn` on a registered
   * prefab empties its list and lends out the fresh clone.
   */
  lemma SpawnClonesWhenNoneLive(t: Tables, p: Component, dead: set<Component>, clone: Component)
    requires p in t.objects
    requires forall j :: 0 <= j < |t.objects[p]| ==> t.objects[p][j] in dead
    ensures !SpawnStep(t, p, dead, clone).reused
    ensures SpawnStep(t, p, dead, clone).obj == clone
    ensures SpawnStep(t, p, dead, clone).tables.objects[p] == []
    ensures SpawnStep(t, p, dead, clone).tables.prefabs == t.prefabs[clone := p]
  {
  }

  /**
   * Lending `x` from `p` while `p`'s list shrinks to a suffix `list[m..]` that
   * does not hold `x` keeps the invariant, provided `x` was not lent, sits in
   * no other list and has `p`'s runtime type.
   */
  lemma LendKeepsInv(t: Tables, p: Component, m: nat, x: Component)
    requires Inv(t) && p in t.objects && m <= |t.objects[p]|
    requires x !in t.objects[p][m..] && x !in t.prefabs && x.tag == p.tag
    requires forall q :: q in t.objects && q != p ==> x !in t.objects[q]
    ensures var r := t.(objects := t.objects[p := t.objects[p][m..]], prefabs := t.prefabs[x := p]);
            Inv(r) && forall q :: q in r.objects ==> x !in r.objects[q]
  {
    var list := t.objects[p];
    var r := t.(objects := t.objects[p := list[m..]], prefabs := t.prefabs[x := p]);
    assert forall y :: y in list[m..] ==> y in list;
    assert NoDup(list[m..]) by {
      forall i, j | 0 <= i < j < |list| - m
        ensures list[m..][i] != list[m..][j]
      {
        assert list[m..][i] == list[m + i] && list[m..][j] == list[m + j];
      }
    }
    assert ListsDisjoint(r) by {
      forall q, y | q in r.objects && y in r.objects[q]
        ensures y in t.objects[q]
      {
      }
    }
  }

  /**
   * Spawning keeps the invariant (the clone, when one is needed, being new);
   * the handed-out instance is then lent, not pooled.
   */
  lemma SpawnKeepsInv(t: Tables, p: Component, dead: set<Component>, clone: Component)
    requires Inv(t)
    requires !SpawnStep(t, p, dead, clone).reused ==> IsNew(t, clone) && clone.tag == p.tag
    ensures Inv(SpawnStep(t, p, dead, clone).tables)
    ensures p in t.objects <==> SpawnStep(t, p, dead, clone).obj in SpawnStep(t, p, dead, clone).tables.prefabs
    ensures forall q :: q in SpawnStep(t, p, dead, clone).tables.objects ==>
              SpawnStep(t, p, dead, clone).obj !in SpawnStep(t, p, dead, clone).tables.objects[q]
  {
    if p in t.objects {
      var list := t.objects[p];
      var k := LeadingDead(list, dead);
      var r := SpawnStep(t, p, dead, clone);
      if k < |list| {
        var x := list[k];
        assert x !in list[k + 1..] by {
          forall j | k + 1 <= j < |list|
            ensures list[j] != x
          {
          }
        }
        assert r == Lent(t.(objects := t.objects[p := list[k + 1..]], prefabs := t.prefabs[x := p]), x, true);
        LendKeepsInv(t, p, k + 1, x);
      } else {
        assert list[|list|..] == [];
        assert r == Lent(t.(objects := t.objects[p := list[|list|..]], prefabs := t.prefabs[clone := p]), clone, false);
        LendKeepsInv(t, p, |list|, clone);
      }
    }
  }

  // ---------------------------------------------------------------------
  // Recycle and RecycleAll
  // ---------------------------------------------------------------------

  /**
   * The bookkeeping of `Recycle(x)`: a lent `x` goes to the tail of its
   * prefab's list and stops being lent; any other `x` leaves the tables alone
   * (the engine destroys it instead).
   */
  function Recycled(t: Tables, x: Component): (r: Tables)
    requires LentFromRegistered(t)
    ensures r.order == t.order && r.objects.Keys == t.objects.Keys
    ensures LentFromRegistered(r)
    ensures x in t.prefabs ==> r.objects[t.prefabs[x]] == t.objects[t.prefabs[x]] + [x]
    ensures x in t.prefabs ==> r.prefabs == t.prefabs - {x}
    ensures x !in t.prefabs ==> r == t
    ensures forall q :: q in t.objects && (x !in t.prefabs || q != t.prefabs[x]) ==> r.objects[q] == t.objects[q]
  {
    if x in t.prefabs then
      var p := t.prefabs[x];
      t.(objects := t.objects[p := t.objects[p] + [x]], prefabs := t.prefabs - {x})
    else t
  }

  lemma RecycleKeepsInv(t: Tables, x: Component)
    requires Inv(t)
    ensures Inv(Recycled(t, x))
    ensures x !in Recycled(t, x).prefabs
  {
    if x in t.prefabs {
      var p := t.prefabs[x];
      var r := Recycled(t, x);
      assert ListsDisjoint(r) by {
        forall q | q in r.objects
          ensures NoDup(r.objects[q])
        {
          if q == p {
            assert r.objects[p] == t.objects[p] + [x];
          }
        }
        forall q1, q2, y | q1 in r.objects && q2 in r.objects && y in r.objects[q1] && y in r.objects[q2]
          ensures q1 == q2
        {
          assert forall q :: q in r.objects && y in r.objects[q] ==> y in t.objects[q] || (q == p && y == x);
        }
      }
      assert PooledNotLent(r) by {
        forall q, y | q in r.objects && y in r.objects[q]
          ensures y !in r.prefabs
        {
          assert y in t.objects[q] || y == x;
        }
      }
    }
  }

  /**
   * Recycling twice never pools an instance twice: the second call finds no
   * lent entry and changes no table (the engine destroys the instance).
   */
  lemma RecycleTwice(t: Tables, x: Component)
    requires Inv(t) && x in t.prefabs
    ensures x !in Recycled(t, x).prefabs
    ensures Recycled(Recycled(t, x), x) == Recycled(t, x)
    ensures x in Recycled(t, x).objects[t.prefabs[x]]
    ensures forall i, j :: 0 <= i < j < |Recycled(t, x).objects[t.prefabs[x]]| ==>
              Recycled(t, x).objects[t.prefabs[x]][i] != Recycled(t, x).objects[t.prefabs[x]][j]
  {
  }

  /**
   * Round trip: recycling a live lent instance into an empty list and then
   * spawning its prefab hands the same instance back and restores the tables.
   */
  lemma RecycleThenSpawn(t: Tables, x: Component, dead: set<Component>, clone: Component)
    requires LentFromRegistered(t) && x in t.prefabs && x !in dead
    requires t.objects[t.prefabs[x]] == []
    ensures SpawnStep(Recycled(t, x), t.prefabs[x], dead, clone) == Lent(t, x, true)
  {
  }

  /**
   * `Count` across a spawn and the recycle of what it handed out: reusing the
   * live head entry lowers `Count(p)` by one, and recycling that instance
   * raises it back.
   */
  lemma SpawnThenRecycleCount(t: Tables, p: Component, dead: set<Component>, clone: Component)
    requires LentFromRegistered(t) && p in t.objects && |t.objects[p]| > 0 && t.objects[p][0] !in dead
    ensures PooledCount(SpawnStep(t, p, dead, clone).tables, p) == PooledCount(t, p) - 1
    ensures PooledCount(Recycled(SpawnStep(t, p, dead, clone).tables, SpawnStep(t, p, dead, clone).obj), p) == PooledCount(t, p)
  {
  }

  /**
   * FIFO order: two live instances recycled one after the other into an empty
   * list come back out in the order they were recycled.
   */
  lemma RecycleOrderIsSpawnOrder(t: Tables, x: Component, y: Component, dead: set<Component>, c1: Component, c2: Component)
    requires LentFromRegistered(t) && x in t.prefabs && y in t.prefabs && x != y
    requires t.prefabs[x] == t.prefabs[y] && t.objects[t.prefabs[x]] == []
    requires x !in dead && y !in dead
    ensures SpawnStep(Recycled(Recycled(t, x), y), t.prefabs[x], dead, c1).obj == x
    ensures SpawnStep(SpawnStep(Recycled(Recycled(t, x), y), t.prefabs[x], dead, c1).tables, t.prefabs[x], dead, c2).obj == y
  {
  }

  /** How many entries at the head of `xs` are live before the first destroyed one. */
  function LiveRun(xs: seq<Component>, dead: set<Component>): (k: nat)
    ensures k <= |xs|
    ensures forall i :: 0 <= i < k ==> xs[i] !in dead
    ensures k < |xs| ==> xs[k] in dead
  {
    if xs == [] || xs[0] in dead then 0 else 1 + LiveRun(xs[1..], dead)
  }

  /**
   * How many snapshot entries `RecycleAll` reaches: all of them, or, when one
   * is destroyed, those up to and including the first destroyed one (its
   * `Recycle` throws after updating the tables, which ends the loop).
   */
  function Reached(xs: seq<Component>, dead: set<Component>): (n: nat)
    ensures LiveRun(xs, dead) <= n <= |xs|
  {
    var k := LiveRun(xs, dead);
    if k < |xs| then k + 1 else k
  }

  /** Adding the next entry of `xs` to a set that holds a prefix of it extends the prefix. */
  lemma AddedNext(s0: set<Component>, s: set<Component>, xs: seq<Component>, i: nat)
    requires i < |xs| && s == s0 + Elems(xs[..i]) + {xs[i]}
    ensures s == s0 + Elems(xs[..i + 1])
  {
    assert xs[..i + 1][..i] == xs[..i];
  }

  /** The live run is exactly the live entries before the first destroyed one. */
  lemma LiveRunAt(xs: seq<Component>, dead: set<Component>, k: nat)
    requires k <= |xs|
    requires forall j :: 0 <= j < k ==> xs[j] !in dead
    requires k < |xs| ==> xs[k] in dead
    ensures LiveRun(xs, dead) == k
    ensures Reached(xs, dead) == if k < |xs| then k + 1 else k
  {
  }

  /** The bookkeeping of `RecycleAll`: `Recycled` applied to each of `xs`, front to back. */
  function RecycledAll(t: Tables, xs: seq<Component>): (r: Tables)
    requires LentFromRegistered(t)
    ensures LentFromRegistered(r)
    ensures r.order == t.order && r.objects.Keys == t.objects.Keys
    decreases |xs|
  {
    if xs == [] then t
    else
      var u := RecycledAll(t, xs[..|xs| - 1]);
      Recycled(u, xs[|xs| - 1])
  }

  /** The members of `xs` lent from prefab `q`, in the order of `xs`. */
  function ReturnedTo(xs: seq<Component>, lent: map<Component, Component>, q: Component): (r: seq<Component>)
    ensures forall y :: y in r ==> y in xs && y in lent && lent[y] == q
    ensures forall y :: y in xs && y in lent && lent[y] == q ==> y in r
    decreases |xs|
  {
    if xs == [] then []
    else
      var init := ReturnedTo(xs[..|xs| - 1], lent, q);
      var x := xs[|xs| - 1];
      assert forall y :: y in xs ==> y in xs[..|xs| - 1] || y == x;
      if x in lent && lent[x] == q then init + [x] else init
  }

  /** Recycling any sequence of instances keeps the invariant. */
  lemma {:induction false} RecycleAllKeepsInv(t: Tables, xs: seq<Component>)
    requires Inv(t)
    ensures Inv(RecycledAll(t, xs))
    decreases |xs|
  {
    if xs != [] {
      RecycleAllKeepsInv(t, xs[..|xs| - 1]);
      RecycleKeepsInv(RecycledAll(t, xs[..|xs| - 1]), xs[|xs| - 1]);
    }
  }

  /**
   * `RecycleAll` over a snapshot of distinct lent instances: exactly the
   * snapshot stops being lent; lent instances outside it keep their entry.
   */
  lemma {:induction false} RecycleAllReturnsSnapshot(t: Tables, xs: seq<Component>)
    requires LentFromRegistered(t) && NoDup(xs)
    requires forall x :: x in xs ==> x in t.prefabs
    ensures RecycledAll(t, xs).prefabs == t.prefabs - Elems(xs)
    decreases |xs|
  {
    if xs != [] {
      var init := xs[..|xs| - 1];
      var x := xs[|xs| - 1];
      assert forall y :: y in init ==> y in xs;
      RecycleAllReturnsSnapshot(t, init);
      assert x !in init;
      ElemsMembers(init, x);
    }
  }

  /** One step of `RecycleAll`'s loop: the next snapshot entry is still lent. */
  lemma RecycleAllStep(t: Tables, xs: seq<Component>, i: nat)
    requires Inv(t) && NoDup(xs) && i < |xs|
    requires forall x :: x in xs ==> x in t.prefabs
    ensures Inv(RecycledAll(t, xs[..i]))
    ensures xs[i] in RecycledAll(t, xs[..i]).prefabs
    ensures RecycledAll(t, xs[..i + 1]) == Recycled(RecycledAll(t, xs[..i]), xs[i])
  {
    var done := xs[..i];
    assert xs[..i + 1][..i] == done;
    assert NoDup(done) && forall k :: k in done ==> k in xs;
    RecycleAllKeepsInv(t, done);
    RecycleAllReturnsSnapshot(t, done);
    assert xs[i] !in done;
    ElemsMembers(done, xs[i]);
  }

  /**
   * `RecycleAll` over a snapshot of distinct lent instances appends each one
   * to the tail of its own prefab's list, in snapshot order; a list gets
   * nothing else.
   */
  lemma {:induction false} RecycleAllAppends(t: Tables, xs: seq<Component>)
    requires LentFromRegistered(t) && NoDup(xs)
    requires forall x :: x in xs ==> x in t.prefabs
    ensures forall q :: q in t.objects ==> RecycledAll(t, xs).objects[q] == t.objects[q] + ReturnedTo(xs, t.prefabs, q)
    decreases |xs|
  {
    if xs != [] {
      var init := xs[..|xs| - 1];
      var x := xs[|xs| - 1];
      assert forall y :: y in init ==> y in xs;
      RecycleAllAppends(t, init);
      RecycleAllReturnsSnapshot(t, init);
      assert x !in init;
      ElemsMembers(init, x);
      var u := RecycledAll(t, init);
      assert x in u.prefabs && u.prefabs[x] == t.prefabs[x];
      forall q | q in t.objects
        ensures RecycledAll(t, xs).objects[q] == t.objects[q] + ReturnedTo(xs, t.prefabs, q)
      {
        if q == t.prefabs[x] {
          assert t.objects[q] + ReturnedTo(init, t.prefabs, q) + [x] == t.objects[q] + (ReturnedTo(init, t.prefabs, q) + [x]);
        }
      }
    }
  }

  // ---------------------------------------------------------------------
  // GetAllOfType
  // ---------------------------------------------------------------------

  /** The keys whose runtime type is `tag`, in the order given. */
  function OfType(keys: seq<Component>, tag: TypeTag): (r: seq<Component>)
    ensures forall k :: k in r ==> k in keys && k.tag == tag
    ensures forall k :: k in keys && k.tag == tag ==> k in r
    decreases |keys|
  {
    if keys == [] then []
    else
      var init := OfType(keys[..|keys| - 1], tag);
      var k := keys[|keys| - 1];
      assert forall y :: y in keys ==> y in keys[..|keys| - 1] || y == k;
      if k.tag == tag then init + [k] else init
  }

  /** The pool lists of `keys`, one after another. */
  function Concat(keys: seq<Component>, objects: map<Component, seq<Component>>): seq<Component>
    requires forall k :: k in keys ==> k in objects
    decreases |keys|
  {
    if keys == [] then []
    else Concat(keys[..|keys| - 1], objects) + objects[keys[|keys| - 1]]
  }

  /** An instance is in the concatenation exactly when it is in the list of one of the keys. */
  lemma {:induction false} ConcatMembers(keys: seq<Component>, objects: map<Component, seq<Component>>, x: Component)
    requires forall k :: k in keys ==> k in objects
    ensures x in Concat(keys, objects) <==> exists k :: k in keys && x in objects[k]
    decreases |keys|
  {
    if keys != [] {
      var init := keys[..|keys| - 1];
      var last := keys[|keys| - 1];
      assert forall k :: k in init ==> k in keys;
      ConcatMembers(init, objects, x);
      assert forall k :: k in keys <==> k in init || k == last;
    }
  }

  /** Joining two duplicate-free sequences with no common member gives a duplicate-free one. */
  lemma NoDupAppend(a: seq<Component>, b: seq<Component>)
    requires NoDup(a) && NoDup(b)
    requires forall x :: x in a ==> x !in b
    ensures NoDup(a + b)
  {
    forall i, j | 0 <= i < j < |a + b|
      ensures (a + b)[i] != (a + b)[j]
    {
      if i < |a| && |a| <= j {
        assert (a + b)[i] in a && (a + b)[j] == b[j - |a|];
      }
    }
  }

  /** Filtering keeps a key list free of duplicates. */
  lemma {:induction false} OfTypeNoDup(keys: seq<Component>, tag: TypeTag)
    requires NoDup(keys)
    ensures NoDup(OfType(keys, tag))
    decreases |keys|
  {
    if keys != [] {
      var init := keys[..|keys| - 1];
      var k := keys[|keys| - 1];
      OfTypeNoDup(init, tag);
      assert k !in init;
      if k.tag == tag {
        NoDupAppend(OfType(init, tag), [k]);
      }
    }
  }

  /** Distinct keys whose lists are duplicate-free and pairwise disjoint concatenate without duplicates. */
  lemma {:induction false} ConcatNoDup(keys: seq<Component>, objects: map<Component, seq<Component>>)
    requires NoDup(keys)
    requires forall k :: k in keys ==> k in objects && NoDup(objects[k])
    requires forall p, q, x :: p in keys && q in keys && x in objects[p] && x in objects[q] ==> p == q
    ensures NoDup(Concat(keys, objects))
    decreases |keys|
  {
    if keys != [] {
      var init := keys[..|keys| - 1];
      var last := keys[|keys| - 1];
      assert forall k :: k in init ==> k in keys;
      assert last !in init;
      ConcatNoDup(init, objects);
      forall x | x in Concat(init, objects)
        ensures x !in objects[last]
      {
        ConcatMembers(init, objects, x);
      }
      NoDupAppend(Concat(init, objects), objects[last]);
    }
  }

  /** What `GetAllOfType<T>()` returns. */
  function AllOfType(t: Tables, tag: TypeTag): seq<Component>
    requires KeysInOrder(t)
  {
    Concat(OfType(t.order, tag), t.objects)
  }

  /**
   * `GetAllOfType` returns exactly the pooled instances of prefabs whose type
   * is the asked one, and all of them have that type.
   */
  lemma AllOfTypeMembers(t: Tables, tag: TypeTag, x: Component)
    requires Inv(t)
    ensures x in AllOfType(t, tag) <==> exists p :: p in t.objects && p.tag == tag && x in t.objects[p]
    ensures x in AllOfType(t, tag) ==> x.tag == tag
  {
    ConcatMembers(OfType(t.order, tag), t.objects, x);
  }

  /** `GetAllOfType` lists each pooled instance at most once. */
  lemma AllOfTypeNoDup(t: Tables, tag: TypeTag)
    requires Inv(t)
    ensures NoDup(AllOfType(t, tag))
  {
    OfTypeNoDup(t.order, tag);
    ConcatNoDup(OfType(t.order, tag), t.objects);
  }
}
