/**
  The `ECS` coordinator of seecs: entity id allocation and recycling, one component
  mask per live entity (kept in a sparse set of its own), a per-instance registry
  from component type to slot, one sparse set ("pool") per slot, and the grouping
  table from exact mask to the entities carrying it.

  seecs aborts the process on every failed `SEECS_ASSERT`; here each such
  detection point returns `Fail` with the kind of error it reports.
 */
module Ecs {
  import opened Seqs
  import opened SparseSets

  /** The reserved null id: the largest 64-bit value. */
  const NULL_ENTITY: nat := 0xFFFF_FFFF_FFFF_FFFF

  /** The bound on the id high-water mark; set to the null id, i.e. no practical limit. */
  const MAX_ENTITIES: nat := NULL_ENTITY

  /** Width of a component mask, hence the number of component types one instance can register. */
  const MAX_COMPONENTS: nat := 64

  /** A component mask: the set of slots whose bit is 1. */
  type Mask = set<nat>

  /** Identity of a component type (its `typeid` name in seecs). */
  type ComponentKey = string

  /** Grouping table: exact mask to the entities carrying that mask. */
  type Groups = map<Mask, set<EntityID>>

  datatype Error =
    | InvalidEntity          // the null id, or an id at or above the high-water mark
    | DeadEntity             // an id in range that has no mask
    | UnregisteredComponent  // a component type with no slot, where one is required
    | DuplicateRegistration  // registering a type that already has a slot
    | MissingComponent       // reading a component a live entity does not hold
    | CapacityExceeded       // out of entity ids or of mask bits
    | EmptyView              // a view over no component types

  datatype Result<T> = Ok(value: T) | Fail(error: Error)

  datatype ECS<V> = ECS(
    free: seq<EntityID>,           // deleted ids, most recently freed last
    masks: SparseSet<Mask>,        // mask of every live entity
    groups: Groups,
    pools: seq<SparseSet<V>>,      // one pool per registered slot
    slots: map<ComponentKey, nat>, // component type to slot
    maxEntityID: nat)              // ids below it have been handed out

  /** A coordinator together with an entity handle. */
  datatype Handle<V> = Handle(ecs: ECS<V>, id: EntityID)

  ghost predicate StoresValid<V>(e: ECS<V>) {
    && Valid(e.masks)
    && (forall k :: 0 <= k < |e.pools| ==> Valid(e.pools[k]))
  }

  /** The live entities and their masks. */
  ghost function Masks<V>(e: ECS<V>): map<EntityID, Mask>
    requires StoresValid(e)
  {
    Contents(e.masks)
  }

  /** The components held in each slot. */
  ghost function Pools<V>(e: ECS<V>): (r: seq<map<EntityID, V>>)
    requires StoresValid(e)
    ensures |r| == |e.pools|
  {
    seq(|e.pools|, k requires 0 <= k < |e.pools| => Contents(e.pools[k]))
  }

  lemma PoolAt<V>(e: ECS<V>, k: nat)
    requires StoresValid(e) && k < |e.pools|
    ensures Pools(e)[k] == Contents(e.pools[k])
  {
  }

  /** Slots are the first |pools| naturals, one per registered type, at most 64 of them. */
  ghost predicate RegistryOk<V>(e: ECS<V>) {
    && |e.pools| <= MAX_COMPONENTS
    && (forall key :: key in e.slots ==> e.slots[key] < |e.pools|)
    && (forall a, b :: a in e.slots && b in e.slots && a != b ==> e.slots[a] != e.slots[b])
  }

  /**
    Free-list discipline: every id below the high-water mark is either live or on
    the free list (once), never both.
   */
  ghost predicate IdsOk(masks: map<EntityID, Mask>, free: seq<EntityID>, maxEntityID: nat) {
    && maxEntityID <= MAX_ENTITIES
    && (forall id :: id in masks ==> id < maxEntityID)
    && NoDup(free)
    && (forall i :: 0 <= i < |free| ==> free[i] < maxEntityID && free[i] !in masks)
    && |masks| + |free| == maxEntityID
  }

  /** Mask/pool agreement: bit k of a live entity is set exactly when pool k holds the entity. */
  ghost predicate Agreement<V>(masks: map<EntityID, Mask>, pools: seq<map<EntityID, V>>) {
    && (forall id, b :: id in masks && b in masks[id] ==> b < |pools|)
    && (forall k, id :: 0 <= k < |pools| ==> (id in pools[k] <==> id in masks && k in masks[id]))
  }

  /** Every live entity with a non-empty mask sits in the group of its mask, and nowhere else. */
  ghost predicate GroupsOk(masks: map<EntityID, Mask>, groups: Groups) {
    && (forall m :: m in groups ==> m != {} && groups[m] != {})
    && (forall m, id :: m in groups && id in groups[m] ==> id in masks && masks[id] == m)
    && (forall id :: id in masks && masks[id] != {} ==> masks[id] in groups && id in groups[masks[id]])
  }

  ghost predicate Inv<V>(e: ECS<V>) {
    && StoresValid(e)
    && RegistryOk(e)
    && IdsOk(Masks(e), e.free, e.maxEntityID)
    && Agreement(Masks(e), Pools(e))
    && GroupsOk(Masks(e), e.groups)
  }

  /** The error an entity check reports for an id that has no mask. */
  function EntityError<V>(e: ECS<V>, id: EntityID): Error {
    if id == NULL_ENTITY || id >= e.maxEntityID then InvalidEntity else DeadEntity
  }

  /** A live id always passes the validity check, so a failed liveness check is about that id alone. */
  lemma LiveIsValid<V>(e: ECS<V>, id: EntityID)
    requires Inv(e) && id in Masks(e)
    ensures id != NULL_ENTITY && id < e.maxEntityID
  {
  }

  /** A coordinator with no entities and no registered components. */
  function New<V>(): (r: ECS<V>)
    ensures Inv(r)
    ensures Masks(r) == map[] && r.slots == map[] && |r.pools| == 0 && r.free == []
  {
    ECS([], Empty(), map[], [], map[], 0)
  }

  /** Number of live entities. */
  function GetEntityCount<V>(e: ECS<V>): (n: nat)
    requires Inv(e)
    ensures n == |Masks(e)|
    ensures n + |e.free| == e.maxEntityID
  {
    Size(e.masks)
  }

  // ---------------------------------------------------------------------------
  // Groups

  /** Takes `id` out of the group of `mask`, dropping the group once it is empty. */
  function RemoveFromGroup(groups: Groups, mask: Mask, id: EntityID): (r: Groups)
    requires mask == {} || mask in groups
    ensures forall m, x :: (m in r && x in r[m]) <==> (m in groups && x in groups[m] && (mask == {} || m != mask || x != id))
    ensures forall m :: m in r ==> m in groups && (r[m] == {} ==> groups[m] == {})
  {
    if mask == {} then groups
    else
      var rest := groups[mask] - {id};
      assert forall x :: x in groups[mask] && x != id ==> x in rest;
      if rest == {} then groups - {mask} else groups[mask := rest]
  }

  /** Puts `id` into the group of `mask`, creating the group if needed; an empty mask has no group. */
  function AssignToGroup(groups: Groups, mask: Mask, id: EntityID): (r: Groups)
    ensures forall m, x :: (m in r && x in r[m]) <==> (m in groups && x in groups[m]) || (mask != {} && m == mask && x == id)
    ensures forall m :: m in r <==> m in groups || (mask != {} && m == mask)
  {
    if mask == {} then groups
    else groups[mask := (if mask in groups then groups[mask] else {}) + {id}]
  }

  /** Moving a live entity from its mask to `m'` keeps every group exact. */
  lemma RegroupKeepsGroups(masks: map<EntityID, Mask>, groups: Groups, id: EntityID, m': Mask)
    requires GroupsOk(masks, groups) && id in masks
    ensures masks[id] == {} || masks[id] in groups
    ensures GroupsOk(masks[id := m'], AssignToGroup(RemoveFromGroup(groups, masks[id], id), m', id))
  {
    var m := masks[id];
    var masks' := masks[id := m'];
    var g1 := RemoveFromGroup(groups, m, id);
    var g2 := AssignToGroup(g1, m', id);
    forall g, x | g in g2 && x in g2[g]
      ensures x in masks' && masks'[x] == g
    {
      if x != id {
        assert g in groups && x in groups[g];
      }
    }
    forall x | x in masks' && masks'[x] != {}
      ensures masks'[x] in g2 && x in g2[masks'[x]]
    {
      if x != id {
        assert x in g1[masks[x]];
      }
    }
    forall g | g in g2
      ensures g != {} && g2[g] != {}
    {
      if g in g1 {
        assert g in groups;
        var x :| x in groups[g];
        if x == id {
          assert m == g;
        }
      }
    }
  }

  // ---------------------------------------------------------------------------
  // Entities

  /**
    Creates an entity: the most recently freed id when the free list is not
    empty, otherwise the high-water mark, which then grows by one. The new
    entity starts with an empty mask.
   */
  function CreateEntity<V>(e: ECS<V>): (r: Result<Handle<V>>)
    requires Inv(e)
    ensures r.Fail? <==> GetEntityCount(e) >= MAX_ENTITIES
    ensures r.Fail? ==> r.error == CapacityExceeded
    ensures r.Ok? ==> Inv(r.value.ecs)
    ensures r.Ok? && |e.free| > 0 ==>
      r.value.id == e.free[|e.free| - 1] && r.value.ecs.free == e.free[..|e.free| - 1] && r.value.ecs.maxEntityID == e.maxEntityID
    ensures r.Ok? && |e.free| == 0 ==>
      r.value.id == e.maxEntityID && r.value.ecs.free == [] && r.value.ecs.maxEntityID == e.maxEntityID + 1
    ensures r.Ok? ==> r.value.id != NULL_ENTITY && r.value.id !in Masks(e)
    ensures r.Ok? ==> Masks(r.value.ecs) == Masks(e)[r.value.id := {}]
    ensures r.Ok? ==> GetEntityCount(r.value.ecs) == GetEntityCount(e) + 1
    ensures r.Ok? ==> r.value.ecs.pools == e.pools && r.value.ecs.slots == e.slots
  {
    if |e.free| == 0 then
      if e.maxEntityID >= MAX_ENTITIES then Fail(CapacityExceeded)
      else
        var id := e.maxEntityID;
        var e' := e.(maxEntityID := e.maxEntityID + 1, masks := Set(e.masks, id, {}));
        CreateKeepsInv(e, id, e');
        Ok(Handle(e', id))
    else
      var id := e.free[|e.free| - 1];
      var e' := e.(free := e.free[..|e.free| - 1], masks := Set(e.masks, id, {}));
      CreateKeepsInv(e, id, e');
      Ok(Handle(e', id))
  }

  /** Giving an unused id an empty mask keeps agreement and groups. */
  lemma CreateKeepsModel<V>(masks: map<EntityID, Mask>, pools: seq<map<EntityID, V>>, groups: Groups, id: EntityID)
    requires Agreement(masks, pools) && GroupsOk(masks, groups) && id !in masks
    ensures Agreement(masks[id := {}], pools) && GroupsOk(masks[id := {}], groups)
  {
    forall m, x | m in groups && x in groups[m]
      ensures x in masks[id := {}] && masks[id := {}][x] == m
    {
      assert x in masks;
    }
  }

  lemma CreateKeepsInv<V>(e: ECS<V>, id: EntityID, e': ECS<V>)
    requires Inv(e)
    requires || (|e.free| == 0 && id == e.maxEntityID < MAX_ENTITIES
                 && e' == e.(maxEntityID := e.maxEntityID + 1, masks := Set(e.masks, id, {})))
             || (|e.free| > 0 && id == e.free[|e.free| - 1]
                 && e' == e.(free := e.free[..|e.free| - 1], masks := Set(e.masks, id, {})))
    ensures Inv(e') && id !in Masks(e) && id != NULL_ENTITY
    ensures Masks(e') == Masks(e)[id := {}] && |Masks(e')| == |Masks(e)| + 1
  {
    var masks := Masks(e);
    assert id !in masks;
    assert Masks(e') == masks[id := {}];
    assert Pools(e') == Pools(e);
    assert |Masks(e')| == |masks| + 1 by {
      assert Masks(e').Keys == masks.Keys + {id};
    }
    if |e.free| > 0 {
      var last := |e.free| - 1;
      forall i | 0 <= i < |e'.free|
        ensures e'.free[i] < e'.maxEntityID && e'.free[i] !in Masks(e')
      {
        assert e'.free[i] == e.free[i] && e.free[i] != e.free[last];
      }
    }
    assert IdsOk(Masks(e'), e'.free, e'.maxEntityID);
    CreateKeepsModel(masks, Pools(e), e.groups, id);
  }

  /**
    Deletes a live entity: its components leave every pool whose bit is set, its
    mask is dropped, its id goes on top of the free list, and the caller's handle
    becomes the null id.
   */
  function DeleteEntity<V>(e: ECS<V>, id: EntityID): (r: Result<Handle<V>>)
    requires Inv(e)
    ensures r.Fail? <==> id !in Masks(e)
    ensures r.Fail? ==> r.error == EntityError(e, id)
    ensures r.Ok? ==> Inv(r.value.ecs) && r.value.id == NULL_ENTITY
    ensures r.Ok? ==> Masks(r.value.ecs) == Masks(e) - {id}
    ensures r.Ok? ==> r.value.ecs.free == e.free + [id] && r.value.ecs.maxEntityID == e.maxEntityID
    ensures r.Ok? ==> |r.value.ecs.pools| == |e.pools| && r.value.ecs.slots == e.slots
    ensures r.Ok? ==> forall k :: 0 <= k < |e.pools| ==> Pools(r.value.ecs)[k] == Pools(e)[k] - {id}
    ensures r.Ok? ==> GetEntityCount(r.value.ecs) == GetEntityCount(e) - 1
  {
    if id == NULL_ENTITY || id >= e.maxEntityID then Fail(InvalidEntity)
    else if !ContainsEntity(e.masks, id) then Fail(DeadEntity)
    else
      var mask := GetRef(e.masks, id);
      var pools := seq(|e.pools|, k requires 0 <= k < |e.pools| =>
        if k in mask then SparseSets.Delete(e.pools[k], id) else e.pools[k]);
      var e' := e.(free := e.free + [id], masks := SparseSets.Delete(e.masks, id),
                   groups := RemoveFromGroup(e.groups, mask, id), pools := pools);
      DeleteKeepsInv(e, id, e');
      Ok(Handle(e', NULL_ENTITY))
  }

  /** Dropping a live entity everywhere keeps agreement and groups. */
  lemma DeleteKeepsModel<V>(masks: map<EntityID, Mask>, pools: seq<map<EntityID, V>>, pools': seq<map<EntityID, V>>,
                            groups: Groups, id: EntityID)
    requires Agreement(masks, pools) && GroupsOk(masks, groups) && id in masks
    requires |pools'| == |pools| && forall k :: 0 <= k < |pools| ==> pools'[k] == pools[k] - {id}
    ensures masks[id] == {} || masks[id] in groups
    ensures Agreement(masks - {id}, pools')
    ensures GroupsOk(masks - {id}, RemoveFromGroup(groups, masks[id], id))
  {
    var g := RemoveFromGroup(groups, masks[id], id);
    var masks' := masks - {id};
    forall m, x | m in g && x in g[m]
      ensures x in masks' && masks'[x] == m
    {
      assert m in groups && x in groups[m];
    }
    forall x | x in masks' && masks'[x] != {}
      ensures masks'[x] in g && x in g[masks'[x]]
    {
      assert x in groups[masks[x]];
    }
    forall m | m in g
      ensures m != {} && g[m] != {}
    {
      assert m in groups;
    }
  }

  /** Freeing a live id keeps the free-list discipline. */
  lemma DeleteKeepsIds(masks: map<EntityID, Mask>, free: seq<EntityID>, maxEntityID: nat, id: EntityID)
    requires IdsOk(masks, free, maxEntityID) && id in masks
    ensures IdsOk(masks - {id}, free + [id], maxEntityID)
  {
    assert (masks - {id}).Keys == masks.Keys - {id};
    assert id !in free;
    forall i, j | 0 <= i < j < |free + [id]|
      ensures (free + [id])[i] != (free + [id])[j]
    {
      if j == |free| {
        assert (free + [id])[i] == free[i];
      }
    }
  }

  /** Deleting the entity from exactly the pools its mask names empties every pool of it. */
  lemma DeletePools<V>(e: ECS<V>, id: EntityID, e': ECS<V>)
    requires StoresValid(e) && Agreement(Masks(e), Pools(e)) && id in Masks(e)
    requires Valid(e'.masks) && |e'.pools| == |e.pools|
    requires forall k :: 0 <= k < |e.pools| ==>
      e'.pools[k] == if k in Masks(e)[id] then SparseSets.Delete(e.pools[k], id) else e.pools[k]
    ensures StoresValid(e')
    ensures forall k :: 0 <= k < |e.pools| ==> Pools(e')[k] == Pools(e)[k] - {id}
  {
    forall k | 0 <= k < |e.pools|
      ensures Valid(e'.pools[k]) && Contents(e'.pools[k]) == Pools(e)[k] - {id}
    {
      PoolAt(e, k);
      if k !in Masks(e)[id] {
        assert id !in Pools(e)[k];
      }
    }
    forall k | 0 <= k < |e.pools|
      ensures Pools(e')[k] == Pools(e)[k] - {id}
    {
      PoolAt(e', k);
    }
  }

  lemma DeleteKeepsInv<V>(e: ECS<V>, id: EntityID, e': ECS<V>)
    requires Inv(e) && id in Masks(e)
    requires e'.free == e.free + [id] && e'.masks == SparseSets.Delete(e.masks, id)
    requires e'.groups == RemoveFromGroup(e.groups, Masks(e)[id], id)
    requires e'.slots == e.slots && e'.maxEntityID == e.maxEntityID
    requires |e'.pools| == |e.pools|
    requires forall k :: 0 <= k < |e.pools| ==>
      e'.pools[k] == if k in Masks(e)[id] then SparseSets.Delete(e.pools[k], id) else e.pools[k]
    ensures Inv(e')
    ensures forall k :: 0 <= k < |e.pools| ==> Pools(e')[k] == Pools(e)[k] - {id}
    ensures Masks(e') == Masks(e) - {id} && |Masks(e')| == |Masks(e)| - 1
  {
    var masks := Masks(e);
    DeletePools(e, id, e');
    assert Masks(e') == masks - {id};
    assert |Masks(e')| == |masks| - 1 by {
      assert Masks(e').Keys == masks.Keys - {id};
    }
    DeleteKeepsIds(masks, e.free, e.maxEntityID, id);
    DeleteKeepsModel(masks, Pools(e), Pools(e'), e.groups, id);
  }

  // ---------------------------------------------------------------------------
  // Component registry

  /** Gives a new component type the next slot and an empty pool. */
  function RegisterComponent<V>(e: ECS<V>, key: ComponentKey): (r: Result<ECS<V>>)
    requires Inv(e)
    ensures r.Fail? <==> key in e.slots || |e.pools| >= MAX_COMPONENTS
    ensures r.Fail? ==> r.error == if key in e.slots then DuplicateRegistration else CapacityExceeded
    ensures r.Ok? ==> Inv(r.value)
    ensures r.Ok? ==> r.value.slots == e.slots[key := |e.pools|]
    ensures r.Ok? ==> |r.value.pools| == |e.pools| + 1 && r.value.pools[..|e.pools|] == e.pools
    ensures r.Ok? ==> Pools(r.value) == Pools(e) + [map[]]
    ensures r.Ok? ==> Masks(r.value) == Masks(e) && r.value.free == e.free && r.value.groups == e.groups
  {
    if key in e.slots then Fail(DuplicateRegistration)
    else if |e.pools| >= MAX_COMPONENTS then Fail(CapacityExceeded)
    else
      var e' := e.(slots := e.slots[key := |e.pools|], pools := e.pools + [Empty()]);
      RegisterKeepsInv(e, key, e');
      Ok(e')
  }

  lemma RegisterKeepsInv<V>(e: ECS<V>, key: ComponentKey, e': ECS<V>)
    requires Inv(e) && key !in e.slots && |e.pools| < MAX_COMPONENTS
    requires e' == e.(slots := e.slots[key := |e.pools|], pools := e.pools + [Empty()])
    ensures Inv(e') && Pools(e') == Pools(e) + [map[]]
  {
    assert StoresValid(e');
    assert Pools(e') == Pools(e) + [map[]] by {
      forall k | 0 <= k < |e.pools|
        ensures Pools(e')[k] == Pools(e)[k]
      {
        PoolAt(e, k);
        PoolAt(e', k);
      }
      PoolAt(e', |e.pools|);
    }
  }

  // ---------------------------------------------------------------------------
  // Components

  /** Setting bit k of a live entity while pool k gains it keeps agreement. */
  lemma AttachKeepsAgreement<V>(masks: map<EntityID, Mask>, pools: seq<map<EntityID, V>>, id: EntityID, k: nat, v: V)
    requires Agreement(masks, pools) && id in masks && k < |pools|
    ensures var p: map<EntityID, V> := pools[k][id := v]; Agreement(masks[id := masks[id] + {k}], pools[k := p])
  {
  }

  /** Clearing bit k of a live entity while pool k loses it keeps agreement. */
  lemma DetachKeepsAgreement<V>(masks: map<EntityID, Mask>, pools: seq<map<EntityID, V>>, id: EntityID, k: nat)
    requires Agreement(masks, pools) && id in masks && k < |pools|
    ensures Agreement(masks[id := masks[id] - {k}], pools[k := pools[k] - {id}])
  {
  }

  /** Replacing pool k by p changes exactly the k-th abstract pool. */
  lemma PoolsUpdate<V>(e: ECS<V>, r: ECS<V>, k: nat, p: SparseSet<V>)
    requires StoresValid(e) && k < |e.pools| && Valid(p) && Valid(r.masks)
    requires r.pools == e.pools[k := p]
    ensures StoresValid(r)
    ensures Pools(r) == Pools(e)[k := Contents(p)]
  {
    forall j | 0 <= j < |e.pools|
      ensures Pools(r)[j] == Pools(e)[k := Contents(p)][j]
    {
      PoolAt(e, j);
      PoolAt(r, j);
    }
  }

  /** Keeping the live ids while changing masks keeps the free-list discipline. */
  lemma IdsOkSameKeys(masks: map<EntityID, Mask>, masks': map<EntityID, Mask>, free: seq<EntityID>, maxEntityID: nat)
    requires IdsOk(masks, free, maxEntityID) && masks'.Keys == masks.Keys
    ensures IdsOk(masks', free, maxEntityID)
  {
    assert |masks'| == |masks'.Keys| == |masks.Keys| == |masks|;
  }

  /**
    The common step of attaching and detaching: pool k becomes p, the masks and
    groups change to values that agree with it, and nothing else moves.
   */
  lemma UpdateKeepsInv<V>(e: ECS<V>, r: ECS<V>, masks': map<EntityID, Mask>, k: nat, p: SparseSet<V>)
    requires Inv(e) && k < |e.pools| && Valid(p) && Valid(r.masks)
    requires r.pools == e.pools[k := p] && r.slots == e.slots && r.free == e.free && r.maxEntityID == e.maxEntityID
    requires Contents(r.masks) == masks' && masks'.Keys == Masks(e).Keys
    requires Agreement(masks', Pools(e)[k := Contents(p)]) && GroupsOk(masks', r.groups)
    ensures Inv(r) && Pools(r) == Pools(e)[k := Contents(p)] && Masks(r) == masks'
  {
    PoolsUpdate(e, r, k, p);
    IdsOkSameKeys(Masks(e), masks', e.free, e.maxEntityID);
  }

  /** Overwriting a component the entity holds changes only that pool entry. */
  lemma OverwriteKeepsInv<V>(e: ECS<V>, id: EntityID, k: nat, v: V, r: ECS<V>)
    requires Inv(e) && k < |e.pools| && id in Pools(e)[k]
    requires r == e.(pools := e.pools[k := Set(e.pools[k], id, v)])
    ensures Inv(r) && id in Masks(e) && k in Masks(e)[id]
    ensures Masks(r) == Masks(e)[id := Masks(e)[id] + {k}]
    ensures var p: map<EntityID, V> := Pools(e)[k][id := v]; Pools(r) == Pools(e)[k := p]
  {
    var masks := Masks(e);
    PoolAt(e, k);
    AttachKeepsAgreement(masks, Pools(e), id, k, v);
    assert masks[id] + {k} == masks[id];
    UpdateKeepsInv(e, r, masks, k, Set(e.pools[k], id, v));
  }

  /** Giving an entity a component it lacks sets its bit, regroups it and extends the pool. */
  lemma InsertKeepsInv<V>(e: ECS<V>, id: EntityID, k: nat, v: V, r: ECS<V>)
    requires Inv(e) && id in Masks(e) && k < |e.pools| && id !in Pools(e)[k]
    requires var mask := Masks(e)[id];
      r == e.(masks := Set(e.masks, id, mask + {k}),
              groups := AssignToGroup(RemoveFromGroup(e.groups, mask, id), mask + {k}, id),
              pools := e.pools[k := Set(e.pools[k], id, v)])
    ensures Inv(r) && k !in Masks(e)[id]
    ensures Masks(r) == Masks(e)[id := Masks(e)[id] + {k}]
    ensures var p: map<EntityID, V> := Pools(e)[k][id := v]; Pools(r) == Pools(e)[k := p]
  {
    var masks := Masks(e);
    PoolAt(e, k);
    AttachKeepsAgreement(masks, Pools(e), id, k, v);
    RegroupKeepsGroups(masks, e.groups, id, masks[id] + {k});
    UpdateKeepsInv(e, r, masks[id := masks[id] + {k}], k, Set(e.pools[k], id, v));
  }

  /**
    Stores `v` as entity `id`'s component in slot k. A component the entity
    already holds is overwritten and nothing else changes; otherwise bit k is set
    and the entity moves to the group of its new mask, together with the pool.
   */
  function Attach<V>(e: ECS<V>, id: EntityID, k: nat, v: V): (r: ECS<V>)
    requires Inv(e) && id in Masks(e) && k < |e.pools|
    ensures Inv(r)
    ensures Masks(r) == Masks(e)[id := Masks(e)[id] + {k}]
    ensures var p: map<EntityID, V> := Pools(e)[k][id := v]; Pools(r) == Pools(e)[k := p]
    ensures r.slots == e.slots && r.free == e.free && r.maxEntityID == e.maxEntityID
    ensures k in Masks(e)[id] ==> r.masks == e.masks && r.groups == e.groups
  {
    PoolAt(e, k);
    if ContainsEntity(e.pools[k], id) then
      var r := e.(pools := e.pools[k := Set(e.pools[k], id, v)]);
      OverwriteKeepsInv(e, id, k, v, r);
      r
    else
      var mask := GetRef(e.masks, id);
      var r := e.(masks := Set(e.masks, id, mask + {k}),
                  groups := AssignToGroup(RemoveFromGroup(e.groups, mask, id), mask + {k}, id),
                  pools := e.pools[k := Set(e.pools[k], id, v)]);
      InsertKeepsInv(e, id, k, v, r);
      r
  }

  /** Removes entity `id`'s component in slot k: bit k is cleared and the pool entry deleted. */
  function Detach<V>(e: ECS<V>, id: EntityID, k: nat): (r: ECS<V>)
    requires Inv(e) && k < |e.pools| && id in Pools(e)[k]
    ensures Inv(r)
    ensures Masks(r) == Masks(e)[id := Masks(e)[id] - {k}]
    ensures Pools(r) == Pools(e)[k := Pools(e)[k] - {id}]
    ensures r.slots == e.slots && r.free == e.free && r.maxEntityID == e.maxEntityID
  {
    var p := SparseSets.Delete(e.pools[k], id);
    var masks := Masks(e);
    var masks' := masks[id := masks[id] - {k}];
    PoolAt(e, k);
    DetachKeepsAgreement(masks, Pools(e), id, k);
    var mask := GetRef(e.masks, id);
    RegroupKeepsGroups(masks, e.groups, id, mask - {k});
    var r := e.(masks := Set(e.masks, id, mask - {k}),
                groups := AssignToGroup(RemoveFromGroup(e.groups, mask, id), mask - {k}, id),
                pools := e.pools[k := p]);
    UpdateKeepsInv(e, r, masks', k, p);
    r
  }

  /**
    `Add<T>`: attaches a component to a live entity, registering the type first
    when it has no slot yet.
   */
  function Add<V>(e: ECS<V>, id: EntityID, key: ComponentKey, v: V): (r: Result<ECS<V>>)
    requires Inv(e)
    ensures r.Fail? <==> id !in Masks(e) || (key !in e.slots && |e.pools| >= MAX_COMPONENTS)
    ensures r.Fail? ==> r.error == if id !in Masks(e) then EntityError(e, id) else CapacityExceeded
    ensures r.Ok? ==> Inv(r.value) && key in r.value.slots
    ensures r.Ok? ==> r.value.slots == if key in e.slots then e.slots else e.slots[key := |e.pools|]
    ensures r.Ok? ==> var k := r.value.slots[key];
      && Masks(r.value) == Masks(e)[id := Masks(e)[id] + {k}]
      && var pools := if k < |e.pools| then Pools(e) else Pools(e) + [map[]];
         var p: map<EntityID, V> := pools[k][id := v];
         Pools(r.value) == pools[k := p]
    ensures r.Ok? && key in e.slots && e.slots[key] in Masks(e)[id] ==> r.value.masks == e.masks
    ensures r.Ok? ==> r.value.free == e.free && r.value.maxEntityID == e.maxEntityID
  {
    if id == NULL_ENTITY || id >= e.maxEntityID then Fail(InvalidEntity)
    else if !ContainsEntity(e.masks, id) then Fail(DeadEntity)
    else if key in e.slots then
      Ok(Attach(e, id, e.slots[key], v))
    else
      match RegisterComponent(e, key)
      case Fail(err) => Fail(err)
      case Ok(e1) => Ok(Attach(e1, id, e1.slots[key], v))
  }

  /**
    What reading a component means in terms of the live masks and the pools: an
    id out of range, an unregistered type, a dead entity and a missing component
    are each reported, in that order.
   */
  ghost function Lookup<V>(masks: map<EntityID, Mask>, pools: seq<map<EntityID, V>>, slots: map<ComponentKey, nat>,
                           maxEntityID: nat, id: EntityID, key: ComponentKey): Result<V>
    requires forall key :: key in slots ==> slots[key] < |pools|
  {
    if id == NULL_ENTITY || id >= maxEntityID then Fail(InvalidEntity)
    else if key !in slots then Fail(UnregisteredComponent)
    else if id !in masks then Fail(DeadEntity)
    else if id !in pools[slots[key]] then Fail(MissingComponent)
    else Ok(pools[slots[key]][id])
  }

  /**
    `Get<T>`: the component a live entity holds. The pool is consulted first; the
    liveness check only runs to report a miss, so a dead entity is reported as
    dead rather than as missing a component.
   */
  function Get<V>(e: ECS<V>, id: EntityID, key: ComponentKey): (r: Result<V>)
    requires Inv(e)
    ensures r == Lookup(Masks(e), Pools(e), e.slots, e.maxEntityID, id, key)
  {
    if id == NULL_ENTITY || id >= e.maxEntityID then Fail(InvalidEntity)
    else if key !in e.slots then Fail(UnregisteredComponent)
    else
      PoolAt(e, e.slots[key]);
      match SparseSets.Get(e.pools[e.slots[key]], id)
      case Some(v) => Ok(v)
      case None => Fail(if ContainsEntity(e.masks, id) then MissingComponent else DeadEntity)
  }

  /** `Remove<T>`: detaches a component; removing one the entity does not hold changes nothing. */
  function Remove<V>(e: ECS<V>, id: EntityID, key: ComponentKey): (r: Result<ECS<V>>)
    requires Inv(e)
    ensures r.Fail? <==> id == NULL_ENTITY || id >= e.maxEntityID || key !in e.slots
    ensures r.Fail? ==> r.error == if id == NULL_ENTITY || id >= e.maxEntityID then InvalidEntity else UnregisteredComponent
    ensures r.Ok? ==> Inv(r.value)
    ensures r.Ok? && id !in Pools(e)[e.slots[key]] ==> r.value == e
    ensures r.Ok? && id in Pools(e)[e.slots[key]] ==> var k := e.slots[key];
      && Masks(r.value) == Masks(e)[id := Masks(e)[id] - {k}]
      && Pools(r.value) == Pools(e)[k := Pools(e)[k] - {id}]
    ensures r.Ok? ==> r.value.slots == e.slots && r.value.free == e.free && r.value.maxEntityID == e.maxEntityID
  {
    if id == NULL_ENTITY || id >= e.maxEntityID then Fail(InvalidEntity)
    else if key !in e.slots then Fail(UnregisteredComponent)
    else if !ContainsEntity(e.pools[e.slots[key]], id) then Ok(e)
    else Ok(Detach(e, id, e.slots[key]))
  }

  /** `Has<T>`: reads the mask bit, which by agreement says whether the pool holds the entity. */
  function Has<V>(e: ECS<V>, id: EntityID, key: ComponentKey): (r: Result<bool>)
    requires Inv(e)
    ensures r.Fail? <==> id !in Masks(e) || key !in e.slots
    ensures r.Fail? ==> r.error == if id !in Masks(e) then EntityError(e, id) else UnregisteredComponent
    ensures r.Ok? ==> (r.value <==> id in Pools(e)[e.slots[key]])
  {
    if !ContainsEntity(e.masks, id) then Fail(EntityError(e, id))
    else if key !in e.slots then Fail(UnregisteredComponent)
    else Ok(e.slots[key] in GetRef(e.masks, id))
  }

  /**
    `HasAll<Ts...>`: the short-circuiting conjunction of `Has` over the types in
    order; an empty list holds of every id. The result is that of the first
    `Has` that is not true, or true when there is none.
   */
  function HasAll<V>(e: ECS<V>, id: EntityID, keys: seq<ComponentKey>): (r: Result<bool>)
    requires Inv(e)
    ensures r == Ok(true) <==> forall i :: 0 <= i < |keys| ==> Has(e, id, keys[i]) == Ok(true)
    ensures r.Fail? ==> exists i :: 0 <= i < |keys| && Has(e, id, keys[i]).Fail?
    ensures (forall i :: 0 <= i < |keys| ==> Has(e, id, keys[i]).Ok?) ==> r.Ok?
    ensures r != Ok(true) ==>
      exists i :: 0 <= i < |keys| && r == Has(e, id, keys[i]) && (forall j :: 0 <= j < i ==> Has(e, id, keys[j]) == Ok(true))
  {
    HasAllFromFirst(e, id, keys, 0);
    HasAllFrom(e, id, keys, 0)
  }

  /** The fold of `HasAll` over the types from position n on. */
  function HasAllFrom<V>(e: ECS<V>, id: EntityID, keys: seq<ComponentKey>, n: nat): (r: Result<bool>)
    requires Inv(e) && n <= |keys|
    ensures r == Ok(true) <==> forall i :: n <= i < |keys| ==> Has(e, id, keys[i]) == Ok(true)
    decreases |keys| - n
  {
    if n == |keys| then Ok(true)
    else match Has(e, id, keys[n])
      case Fail(err) => Fail(err)
      case Ok(b) => if !b then Ok(false) else HasAllFrom(e, id, keys, n + 1)
  }

  /** The fold stops at the first type whose `Has` is not true and returns that result. */
  lemma {:induction false} HasAllFromFirst<V>(e: ECS<V>, id: EntityID, keys: seq<ComponentKey>, n: nat)
    requires Inv(e) && n <= |keys|
    ensures var r := HasAllFrom(e, id, keys, n);
      r != Ok(true) ==>
        exists i :: n <= i < |keys| && r == Has(e, id, keys[i]) && (forall j :: n <= j < i ==> Has(e, id, keys[j]) == Ok(true))
    decreases |keys| - n
  {
    if n < |keys| && Has(e, id, keys[n]) == Ok(true) {
      HasAllFromFirst(e, id, keys, n + 1);
    }
  }

  /** A live entity holds every listed type exactly when every listed pool holds it. */
  lemma {:induction false} HasAllIffInPools<V>(e: ECS<V>, id: EntityID, keys: seq<ComponentKey>)
    requires Inv(e) && id in Masks(e)
    ensures HasAll(e, id, keys) == Ok(true) <==>
      forall i :: 0 <= i < |keys| ==> keys[i] in e.slots && id in Pools(e)[e.slots[keys[i]]]
  {
  }

  /** `GetMask<Ts...>`: the mask with the bits of the listed types; every type must have a slot. */
  function GetMask<V>(e: ECS<V>, keys: seq<ComponentKey>): (r: Result<Mask>)
    ensures r.Fail? <==> exists i :: 0 <= i < |keys| && keys[i] !in e.slots
    ensures r.Fail? ==> r.error == UnregisteredComponent
    ensures r.Ok? ==> forall b :: b in r.value <==> exists i :: 0 <= i < |keys| && e.slots[keys[i]] == b
    decreases |keys|
  {
    if |keys| == 0 then Ok({})
    else if keys[0] !in e.slots then Fail(UnregisteredComponent)
    else match GetMask(e, keys[1..])
      case Fail(err) => Fail(err)
      case Ok(m) =>
        assert forall i :: 1 <= i < |keys| ==> keys[i] == keys[1..][i - 1];
        Ok(m + {e.slots[keys[0]]})
  }

  /** Every member of every group whose mask includes `target`, each once. */
  method CollectGroups(ghost masks: map<EntityID, Mask>, groups: Groups, target: Mask) returns (r: seq<EntityID>)
    requires GroupsOk(masks, groups)
    ensures NoDup(r)
    ensures forall id :: id in r <==> id in masks && masks[id] != {} && target <= masks[id]
  {
    r := [];
    var remaining := groups.Keys;
    while remaining != {}
      invariant remaining <= groups.Keys
      invariant NoDup(r)
      invariant forall id :: id in r <==> id in masks && masks[id] in groups.Keys - remaining && target <= masks[id]
      decreases remaining
    {
      var m :| m in remaining;
      if target <= m {
        var members := SeqOf(groups[m]);
        forall i, j | 0 <= i < |r| && 0 <= j < |members|
          ensures r[i] != members[j]
        {
          assert members[j] in groups[m] && masks[members[j]] == m;
          assert r[i] in r;
          assert masks[r[i]] !in remaining;
        }
        r := r + members;
      }
      remaining := remaining - {m};
    }
  }

  /**
    `ViewIDs<Ts...>`: concatenates every group whose mask contains all the listed
    bits. The groups and their members come in no particular order.
   */
  method ViewIDs<V>(e: ECS<V>, keys: seq<ComponentKey>) returns (r: Result<seq<EntityID>>)
    requires Inv(e)
    ensures r.Fail? <==> exists i :: 0 <= i < |keys| && keys[i] !in e.slots
    ensures r.Fail? ==> r.error == UnregisteredComponent
    ensures r.Ok? ==> NoDup(r.value)
    ensures r.Ok? ==> forall id :: id in r.value <==>
      && id in Masks(e) && Masks(e)[id] != {}
      && forall i :: 0 <= i < |keys| ==> e.slots[keys[i]] in Masks(e)[id]
  {
    var target := GetMask(e, keys);
    if target.Fail? {
      return Fail(target.error);
    }
    var ids := CollectGroups(Masks(e), e.groups, target.value);
    r := Ok(ids);
  }

  // ---------------------------------------------------------------------------
  // How the operations fit together

  /** After `Add`, `Get` returns the added component. */
  lemma AddThenGet<V>(e: ECS<V>, id: EntityID, key: ComponentKey, v: V)
    requires Inv(e) && id in Masks(e) && (key in e.slots || |e.pools| < MAX_COMPONENTS)
    ensures Add(e, id, key, v).Ok?
    ensures Get(Add(e, id, key, v).value, id, key) == Ok(v)
  {
    var r := Add(e, id, key, v).value;
    var k := r.slots[key];
    assert k in Masks(r)[id] && Pools(r)[k][id] == v;
  }

  /** Setting bit k of one entity's mask while pool k gains its component leaves every other lookup as it was. */
  lemma AttachKeepsOtherLookups<V>(masks: map<EntityID, Mask>, pools: seq<map<EntityID, V>>, slots: map<ComponentKey, nat>,
                                   slots': map<ComponentKey, nat>, maxEntityID: nat, id: EntityID, k: nat, v: V,
                                   id': EntityID, key': ComponentKey)
    requires forall key :: key in slots ==> slots[key] < |pools|
    requires id in masks && k < |pools|
    requires key' in slots && key' in slots' && slots'[key'] == slots[key'] && (id' != id || slots[key'] != k)
    requires forall key :: key in slots' ==> slots'[key] < |pools|
    ensures var p: map<EntityID, V> := pools[k][id := v];
      Lookup(masks[id := masks[id] + {k}], pools[k := p], slots', maxEntityID, id', key')
      == Lookup(masks, pools, slots, maxEntityID, id', key')
  {
    var p: map<EntityID, V> := pools[k][id := v];
    var j := slots[key'];
    assert id' in pools[k := p][j] <==> id' in pools[j];
    if id' in pools[j] {
      assert pools[k := p][j][id'] == pools[j][id'];
    }
  }

  /** `Add` leaves every other registered (entity, type) pair reading as before. */
  lemma AddKeepsOtherGets<V>(e: ECS<V>, id: EntityID, key: ComponentKey, v: V, id': EntityID, key': ComponentKey)
    requires Inv(e) && id in Masks(e) && (key in e.slots || |e.pools| < MAX_COMPONENTS)
    requires key' in e.slots && (id' != id || key' != key)
    ensures Add(e, id, key, v).Ok?
    ensures Get(Add(e, id, key, v).value, id', key') == Get(e, id', key')
  {
    var r := Add(e, id, key, v).value;
    AddKeepsOtherLookups(e, id, key, v, r, id', key');
  }

  lemma AddKeepsOtherLookups<V>(e: ECS<V>, id: EntityID, key: ComponentKey, v: V, r: ECS<V>, id': EntityID, key': ComponentKey)
    requires Inv(e) && Add(e, id, key, v) == Ok(r)
    requires key' in e.slots && (id' != id || key' != key)
    ensures Inv(r)
    ensures Lookup(Masks(r), Pools(r), r.slots, r.maxEntityID, id', key') == Lookup(Masks(e), Pools(e), e.slots, e.maxEntityID, id', key')
  {
    var k := r.slots[key];
    var masks, pools := Masks(e), Pools(e);
    if key in e.slots {
      AttachKeepsOtherLookups(masks, pools, e.slots, r.slots, e.maxEntityID, id, k, v, id', key');
    } else {
      AttachKeepsOtherLookups(masks, pools + [map[]], e.slots, r.slots, e.maxEntityID, id, k, v, id', key');
      LookupIgnoresNewPool(masks, pools, e.slots, e.maxEntityID, id', key');
    }
  }

  /** A pool no registered type refers to does not affect any lookup. */
  lemma LookupIgnoresNewPool<V>(masks: map<EntityID, Mask>, pools: seq<map<EntityID, V>>, slots: map<ComponentKey, nat>,
                                maxEntityID: nat, id: EntityID, key: ComponentKey)
    requires forall key :: key in slots ==> slots[key] < |pools|
    ensures Lookup(masks, pools + [map[]], slots, maxEntityID, id, key) == Lookup(masks, pools, slots, maxEntityID, id, key)
  {
    if key in slots {
      assert (pools + [map[]])[slots[key]] == pools[slots[key]];
    }
  }

  /** After removing a component it is gone: `Has` says false and `Get` reports it missing. */
  lemma RemoveThenHas<V>(e: ECS<V>, id: EntityID, key: ComponentKey)
    requires Inv(e) && id in Masks(e) && key in e.slots
    ensures Remove(e, id, key).Ok?
    ensures Has(Remove(e, id, key).value, id, key) == Ok(false)
    ensures Get(Remove(e, id, key).value, id, key) == Fail(MissingComponent)
  {
    LiveIsValid(e, id);
  }

  /** A deleted entity reads as dead. */
  lemma DeleteThenDead<V>(e: ECS<V>, id: EntityID, key: ComponentKey)
    requires Inv(e) && id in Masks(e)
    ensures DeleteEntity(e, id).Ok?
    ensures var d := DeleteEntity(e, id).value.ecs;
      && Has(d, id, key) == Fail(DeadEntity)
      && (key in e.slots ==> Get(d, id, key) == Fail(DeadEntity))
  {
    LiveIsValid(e, id);
  }

  /** The next entity created after a deletion reuses the deleted id, with an empty mask. */
  lemma DeleteThenCreate<V>(e: ECS<V>, id: EntityID)
    requires Inv(e) && id in Masks(e)
    ensures DeleteEntity(e, id).Ok?
    ensures var d := DeleteEntity(e, id).value.ecs;
      && CreateEntity(d).Ok? && CreateEntity(d).value.id == id
      && Masks(CreateEntity(d).value.ecs) == Masks(e)[id := {}]
  {
    var d := DeleteEntity(e, id).value.ecs;
    CreateReusesLastFreed(d);
    RestoreMasks(Masks(e), Masks(d), id);
  }

  /** With a non-empty free list, creation succeeds and hands out the most recently freed id. */
  lemma CreateReusesLastFreed<V>(e: ECS<V>)
    requires Inv(e) && |e.free| > 0
    ensures CreateEntity(e).Ok? && CreateEntity(e).value.id == e.free[|e.free| - 1]
  {
  }

  lemma RestoreMasks(masks: map<EntityID, Mask>, masks': map<EntityID, Mask>, id: EntityID)
    requires masks' == masks - {id}
    ensures masks'[id := {}] == masks[id := {}]
  {
  }
}
