# seecs core in Dafny

A model of the in-memory Entity-Component-System core of seecs (`seecs.h`):

- **`SparseSets`** (`sparse_set.dfy`) models the paged sparse set `SparseSet<T>`.
  It keeps a packed dense array of values, a parallel array naming the owner of
  each dense slot, and a paged sparse table from entity id to dense index. Pages
  hold 1000 cells. Removal is swap-and-pop. Every operation is stated against
  `Contents(s)`, the id-to-value map the arrays represent. `Valid(s)` is the
  sparse/dense invariant that makes that map well defined.
- **`Ecs`** (`ecs.dfy`) models the `ECS` coordinator:
  - entity ids: a high-water mark plus a LIFO free list of deleted ids;
  - one component mask per live entity, itself kept in a sparse set;
  - a per-instance registry from component type to slot (at most 64);
  - one pool per slot;
  - a grouping table from exact non-empty mask to the entities carrying it.

  `Inv(e)` combines the store invariants, the registry shape and the free-list
  discipline. It also holds mask/pool agreement (bit k of a live entity is set
  exactly when pool k holds it) and exact groups.
- **`Views`** (`views.dfy`) models `SimpleView` and `ECS::View`.
  - The view records the slots of its types, and the first pool of minimum size
    at construction time, as `std::min_element` picks it.
  - `ForEach` walks a copy of that pool's id list, taken when the walk starts.
  - For each id, it calls back only if every view pool holds the id at the
    moment the id is reached.
  - The callback receives the coordinator and returns the coordinator it
    leaves behind. It is a partial function: it may demand a consistent
    coordinator, so it can call any coordinator operation (add or remove a
    component, delete an entity). Edits made inside the callback are therefore
    seen by the rest of the walk.
  - `DeleteVisited` is such a callback: it deletes the entity it visits.
    Walking a view with it deletes exactly the entities the view matched when
    the walk started.
  - The walk returns its final state and a trace: one `Step` per snapshot id.
    A step records the state on arrival, whether the callback ran, and the
    state afterwards.
- **`Seqs`** (`seqs.dfy`) holds small shared facts about sequences.

Every `SEECS_ASSERT` that a consistent coordinator can fail at run time becomes
a `Fail` result naming the kind of error, at the same detection point and in
the same order as seecs.h. The other asserts are handled as follows:

- `SparseSet::GetRef` aborts on an absent id (seecs.h:171). Here that is a
  precondition of `SparseSets.GetRef`, and so of `Views.Fetch`. Every caller
  in the core reaches it only for a stored id.
- `GetGroupedEntities` aborts on a missing group (seecs.h:492). Here that is
  the precondition of `Ecs.RemoveFromGroup` that the mask is empty or has a
  group. The invariant guarantees it for the mask of every live entity.
- `CreateEntity`'s null-id check (seecs.h:520) has no counterpart. A new id is
  below `MAX_ENTITIES`, which equals `NULL_ENTITY`, so the check cannot fail;
  `Ecs.CreateEntity` ensures the new id is not `NULL_ENTITY`.
- The internal range check on a slot (seecs.h:416) has no counterpart. The
  invariant gives every registered slot a pool.
- The view's check that it has one pool per type (seecs.h:276) has no
  counterpart. A view records one slot per listed type by construction.
- The callback-shape check (seecs.h:318) is listed under "## Left out".
One subtlety follows the code. Several failure messages embed `ENTITY_INFO(id)`,
which calls `GetEntityName(id)`, and that function asserts the id is valid and
alive. So a failing mask lookup or a failing component read first fails as
`InvalidEntity` or `DeadEntity` when the id is not live. This is why `Get` on a
dead entity reports `DeadEntity`, not `MissingComponent`, and why `Has` reports
entity errors even though it runs no validity check of its own.

A few facts about seecs.h that the model keeps as they are:

- The slot registry belongs to each coordinator: `m_componentBitPosition` is a
  member of `ECS`.
- `Get` reads the pool before anything checks liveness.
- `Remove` returns silently when the pool lacks the id, even for a dead id.
- `Has` only looks up the mask, with no validity check of its own.
- seecs.h has no `HasAny`.

## Model

| member | source | states |
|---|---|---|
| SparseSets.SetDenseIndex | seecs.h:106-118 | after recording an entry for an id (growing pages, and padding a page with tombstones, as needed) that id reads back the entry and every other id reads what it read before |
| SparseSets.ValidNoDup | seecs.h:88-97 | under the sparse/dense invariant the dense-to-entity list names each id at most once |
| SparseSets.StoredIffIndexed | seecs.h:124-135 | GetDenseIndex finds a dense index for an id exactly when the id is stored, and then that index holds the id's value |
| SparseSets.Empty | seecs.h:139-142 | a new set satisfies the invariant and stores nothing |
| SparseSets.Set | seecs.h:144-161 | the stored map becomes the old map with the id bound to the value; an existing id is overwritten in place (owner list unchanged), a new id is appended at the back |
| SparseSets.Get | seecs.h:163-166 | yields a value exactly when the id is stored, and then the stored value |
| SparseSets.GetRef | seecs.h:168-173 | yields the stored value of a stored id |
| SparseSets.Delete | seecs.h:175-189 | the stored map loses exactly the id; deleting an absent id changes nothing; otherwise only the vacated slot changes, taking the former last slot, and the arrays shrink by one |
| SparseSets.DeleteContents | seecs.h:179-188 | swap-and-pop from a valid set keeps the invariant and removes exactly the deleted id's entry |
| SparseSets.PairsSwapPop | seecs.h:184-188 | swapping the last pair into position d and popping removes exactly the pair at d from the id-to-value map |
| SparseSets.Size | seecs.h:191-193 | the dense length is the number of stored ids |
| SparseSets.SizeIsCardinality | seecs.h:191-193 | the number of dense values equals the number of distinct stored ids |
| SparseSets.GetEntityList | seecs.h:195-197 | lists every stored id exactly once and nothing else, with as many entries as Size |
| SparseSets.ContainsEntity | seecs.h:199-201 | true exactly when the id is stored |
| SparseSets.Clear | seecs.h:203-207 | leaves a valid set that stores nothing and has no pages |
| SparseSets.IsEmpty | seecs.h:209-211 | true exactly when nothing is stored |
| SparseSets.Data | seecs.h:213-216 | the dense values, position by position the value of the id GetEntityList names there |
| SparseSets.SetThenGet | seecs.h:144-173 | after Set the id reads the new value, every other id reads as before, and Size grows by one exactly when the id was new |
| SparseSets.DeleteThenGet | seecs.h:163-201 | after Delete the id is gone, every other id reads as before, and Size shrinks by one exactly when the id was stored |
| Ecs.LiveIsValid | seecs.h:381-386 | a live entity always passes the validity check (not null, below the high-water mark) |
| Ecs.New | seecs.h:498 | a new coordinator satisfies the invariant, with no entities, no registered types and an empty free list |
| Ecs.GetEntityCount | seecs.h:705-707 | the number of live entities, which together with the free list accounts for every id below the high-water mark |
| Ecs.RemoveFromGroup | seecs.h:467-477 | an empty mask leaves the table alone; otherwise exactly the pair (mask, id) leaves the table and no group is left empty |
| Ecs.AssignToGroup | seecs.h:479-488 | an empty mask leaves the table alone; otherwise the id joins the group of its mask, which is created when missing, and nothing else changes |
| Ecs.RegroupKeepsGroups | seecs.h:608-616 | moving a live entity out of its old group and into the group of a new mask keeps every group exact and non-empty |
| Ecs.CreateEntity | seecs.h:508-529 | fails (capacity) exactly when the id space is exhausted; otherwise reuses the most recently freed id (LIFO) or hands out the high-water mark and raises it by one; the new entity is live with an empty mask, the count grows by one and the invariant holds |
| Ecs.CreateKeepsInv | seecs.h:508-522 | giving an unused id an empty mask, taken from the top of the free list or the high-water mark, keeps the invariant |
| Ecs.CreateReusesLastFreed | seecs.h:515-518 | with a non-empty free list, creation succeeds with the id freed last |
| Ecs.DeleteEntity | seecs.h:551-573 | fails exactly for a non-live id (invalid or dead, per the validity and liveness checks); otherwise the entity leaves the masks and every pool, its id goes on top of the free list, the count drops by one, the handle becomes the null id and the invariant holds |
| Ecs.DeleteKeepsInv | seecs.h:551-573 | deleting from exactly the pools whose bits are set, dropping the mask, ungrouping and pushing the id on the free list keeps the invariant |
| Ecs.RegisterComponent | seecs.h:579-590 | fails on a type already registered (checked first) or when 64 types exist; otherwise the type gets the next slot with an empty pool and nothing else changes |
| Ecs.AttachKeepsAgreement | seecs.h:613-619 | setting a live entity's bit k while pool k gains its component keeps mask/pool agreement |
| Ecs.DetachKeepsAgreement | seecs.h:657-662 | clearing a live entity's bit k while pool k loses it keeps mask/pool agreement |
| Ecs.Attach | seecs.h:602-619 | the entity's mask gains bit k and pool k binds it to the value; an overwrite touches neither masks nor groups; the invariant holds |
| Ecs.Add | seecs.h:597-620 | fails exactly for a non-live entity or when an unregistered type cannot get a slot; otherwise registers the type if needed, sets its bit and stores the value, keeping the invariant |
| Ecs.Get | seecs.h:627-637 | equals the reference lookup: invalid id, then unregistered type, then dead entity, then missing component, else the stored value |
| Ecs.Detach | seecs.h:650-662 | clears bit k of the entity and removes it from pool k, keeping the invariant |
| Ecs.Remove | seecs.h:644-664 | fails only for an invalid id or an unregistered type (in that order); a component the entity lacks leaves everything unchanged; otherwise the bit is cleared and the pool entry removed, and the registry, the free list and the high-water mark stay as they were |
| Ecs.HasAll | seecs.h:666-671 | true exactly when Has is true for every listed type; otherwise the result is that of the first listed type whose Has is not true, so a false Has stops the fold before any later failure |
| Ecs.HasAllIffInPools | seecs.h:666-676 | for a live entity, HasAll holds exactly when every listed type is registered and its pool holds the entity |
| Ecs.Has | seecs.h:673-676 | fails for a non-live entity, then for an unregistered type; otherwise true exactly when the type's pool holds the entity |
| Ecs.GetMask | seecs.h:460-465 | fails exactly when some listed type is unregistered; otherwise the mask is exactly the set of the listed types' slots |
| Ecs.CollectGroups | seecs.h:690-694 | collects, each once, exactly the live entities whose non-empty mask includes the target |
| Ecs.ViewIDs | seecs.h:686-697 | fails exactly on an unregistered type; otherwise lists, each once, exactly the live entities with a non-empty mask containing every listed bit |
| Ecs.AddThenGet | seecs.h:597-637 | for a live entity and a type that is registered or still has room for a slot, Add succeeds and Get then returns the added value |
| Ecs.AddKeepsOtherGets | seecs.h:597-637 | under the same conditions Add succeeds and leaves Get unchanged for every other (entity, registered type) pair |
| Ecs.RemoveThenHas | seecs.h:644-676 | after Remove on a live entity and a registered type, Has is false and Get reports the component missing |
| Ecs.DeleteThenDead | seecs.h:551-573 | after deleting an entity, Has and Get on it report it dead |
| Ecs.DeleteThenCreate | seecs.h:508-573 | the next creation after a deletion reuses the deleted id, with an empty mask |
| Views.FirstMin | seecs.h:278-280 | picks the first position of minimum size: no later size is smaller, every earlier one is larger |
| Views.SlotsOf | seecs.h:404-420 | fails exactly when some listed type is unregistered; otherwise the slots of the types in order |
| Views.NewView | seecs.h:273-285 | fails exactly over no pools; otherwise keeps the pools and drives from the first smallest |
| Views.View | seecs.h:699-703 | fails exactly when no types are listed or one is unregistered (the unregistered error first); otherwise a view over exactly the listed types' slots, driving from the first smallest pool |
| Views.AllContain | seecs.h:250-254 | true exactly when every pool of the view holds the id |
| Views.Fetch | seecs.h:266-269 | the entity's components, one per view type in order, each the value its pool holds |
| Views.Snapshot | seecs.h:301 | a copy of the driving pool's ids, each once |
| Views.Visit | seecs.h:301-321 | one well-formed step for any callback that accepts every consistent coordinator and keeps it consistent, coordinator operations included: the callback runs exactly when every view pool holds the id on arrival, and the state stays consistent |
| Views.ForEachWithId | seecs.h:296-323 | for any such callback, the final state is the end of a walk over the snapshot taken at the start, one well-formed step per id; the callback runs at most once per entity and the invariant holds |
| Views.ForEach | seecs.h:296-323 | the same walk, for a callback that takes only the components |
| Views.CalledFromSnapshot | seecs.h:301 | the walk has one step per snapshot id, and the callback only runs for entities in the driving pool at the start, never for ones added during the walk |
| Views.CalledIffMatching | seecs.h:296-323 | for a callback that only edits values, the callback runs exactly for the entities that hold every view type when the walk starts |
| Views.DeleteCalledIffMatching | seecs.h:296-323 | walking a view with a callback that deletes the visited entity calls back for exactly the entities the view matched at the start, and exactly those entities are dead at the end |
| Views.DeleteMatching | seecs.h:296-323 | ForEach with the deleting callback keeps the invariant and removes exactly the matched entities from the live set |
| Views.MatchingIffInAllPools | seecs.h:250-254 | the entities a view matches are those every one of its pools holds |
| Views.MatchingIffHasAll | seecs.h:666-671 | the entities a view over some types matches are exactly the live ones for which HasAll over those types holds |
| Views.MatchingIffViewIDs | seecs.h:686-697 | the entities a view over some types matches are exactly those ViewIDs reports for the same types |

## Left out

- Entity names (`m_entityNames`, `GetEntityName`), `SEECS_INFO` logging and every `Print*` function. They are debug output and hold no core state. Their only effect on behaviour, the asserts inside `GetEntityName`, is modelled as the error order above.
- Template machinery: one value type `V` stands for every component type. A component type is a string key, standing for its `typeid` name. The compile-time check of the callback's shape (the `ForEach` assert for a lambda of neither form) has no counterpart.
- Addresses of and references into pools, `reserve`, page allocation sizes and the bitset's storage. References a callback holds while the pool it came from reallocates are a memory-safety matter outside the model.
- `MAX_ENTITIES` and `NULL_ENTITY` keep their 64-bit values, but ids are unbounded naturals. No arithmetic on them can wrap, because creation stops at the bound.
- The sparse table's tombstone (the largest `size_t`) is a datatype constructor, not an index value.
- `benchmark.h` and `Example.cpp` are not part of this model.
- Ecs.ViewIDs: the order of the returned ids is not stated, only the set of ids and that none repeats. In seecs.h the groups come in `std::unordered_map` iteration order, and within a group the ids follow that group's dense order (`ids.Data()`, seecs.h:693). The model keeps a group as a `set<EntityID>`, not as a `SparseSet<EntityID>`, so it has no such order.
- Views.CalledIffMatching: stated only for callbacks that keep every pool's members. For other callbacks, which entities run is described step by step by the trace in `Views.ForEachWithId`.
- SparseSets.GetRef: the abort on an absent id is a precondition, because every caller in the core reaches it only for stored ids.
- The mutation of the caller's id variable by `DeleteEntity` is modelled as the returned handle.
- A callback is a function from the coordinator (and the id and components) to the coordinator it leaves. It may require a consistent coordinator, but it has no side effects of its own. Component values are not passed by reference; a callback that edits a component does so through the returned coordinator.
