/**
  `SimpleView`: iteration over the entities that hold every component type of a
  view. The view remembers the slots of its types and, among their pools, the
  one that was smallest when the view was built; `ForEach` walks a copy of that
  pool's id list and calls back for each id that every view pool still holds at
  the moment it is reached.

  A callback receives the coordinator and the entity's components and returns
  the coordinator it leaves behind. It is a partial function that may demand a
  consistent coordinator, so it can call the coordinator's own operations, and
  edits made from inside it (new components, removed components, deleted
  entities) are visible to the rest of the walk exactly as they are in seecs.
 */
module Views {
  import opened Seqs
  import opened SparseSets
  import opened Ecs

  /** The slots of the view's types, in the order listed, and the position of the driving pool. */
  datatype SimpleView = SimpleView(pools: seq<nat>, smallest: nat)

  /** The view's slots are registered and it drives from one of them. */
  ghost predicate ViewOk<V>(e: ECS<V>, v: SimpleView) {
    && |v.pools| > 0
    && v.smallest < |v.pools|
    && (forall i :: 0 <= i < |v.pools| ==> v.pools[i] < |e.pools|)
  }

  /**
    Position of the first smallest element, as `std::min_element` with a strict
    `<` comparison picks it: later ties never replace an earlier minimum.
   */
  function FirstMin(sizes: seq<nat>): (m: nat)
    requires |sizes| > 0
    ensures m < |sizes|
    ensures forall j :: 0 <= j < |sizes| ==> sizes[m] <= sizes[j]
    ensures forall j :: 0 <= j < m ==> sizes[m] < sizes[j]
  {
    if |sizes| == 1 then 0
    else
      var m := FirstMin(sizes[..|sizes| - 1]);
      if sizes[|sizes| - 1] < sizes[m] then |sizes| - 1 else m
  }

  /** Current number of components in each of the given slots. */
  function PoolSizes<V>(e: ECS<V>, slots: seq<nat>): (r: seq<nat>)
    requires Inv(e) && forall i :: 0 <= i < |slots| ==> slots[i] < |e.pools|
    ensures |r| == |slots|
    ensures forall i :: 0 <= i < |slots| ==> r[i] == |Pools(e)[slots[i]]|
  {
    seq(|slots|, i requires 0 <= i < |slots| => PoolAt(e, slots[i]); Size(e.pools[slots[i]]))
  }

  /** The slots of the listed types, failing at the first unregistered one. */
  function SlotsOf<V>(e: ECS<V>, keys: seq<ComponentKey>): (r: Result<seq<nat>>)
    ensures r.Fail? <==> exists i :: 0 <= i < |keys| && keys[i] !in e.slots
    ensures r.Fail? ==> r.error == UnregisteredComponent
    ensures r.Ok? ==> |r.value| == |keys| && forall i :: 0 <= i < |keys| ==> r.value[i] == e.slots[keys[i]]
    decreases |keys|
  {
    if |keys| == 0 then Ok([])
    else if keys[0] !in e.slots then Fail(UnregisteredComponent)
    else match SlotsOf(e, keys[1..])
      case Fail(err) => Fail(err)
      case Ok(rest) =>
        assert forall i :: 1 <= i < |keys| ==> keys[i] == keys[1..][i - 1];
        Ok([e.slots[keys[0]]] + rest)
  }

  /** The view drives from the first of its pools that has the fewest components. */
  ghost predicate SmallestFirst<V>(e: ECS<V>, v: SimpleView)
    requires Inv(e) && ViewOk(e, v)
  {
    && (forall i :: 0 <= i < |v.pools| ==> |Pools(e)[v.pools[v.smallest]]| <= |Pools(e)[v.pools[i]]|)
    && (forall i :: 0 <= i < v.smallest ==> |Pools(e)[v.pools[v.smallest]]| < |Pools(e)[v.pools[i]]|)
  }

  /**
    The `SimpleView` constructor: over no pools at all it fails; otherwise it
    drives from the first pool of minimum size.
   */
  function NewView<V>(e: ECS<V>, slots: seq<nat>): (r: Result<SimpleView>)
    requires Inv(e) && forall i :: 0 <= i < |slots| ==> slots[i] < |e.pools|
    ensures r.Fail? <==> |slots| == 0
    ensures r.Fail? ==> r.error == EmptyView
    ensures r.Ok? ==> ViewOk(e, r.value) && r.value.pools == slots && SmallestFirst(e, r.value)
  {
    if |slots| == 0 then Fail(EmptyView)
    else Ok(SimpleView(slots, FirstMin(PoolSizes(e, slots))))
  }

  /**
    `ECS::View<Ts...>`: looks up the pool of every listed type, failing on an
    unregistered one, then builds the view over those pools.
   */
  function View<V>(e: ECS<V>, keys: seq<ComponentKey>): (r: Result<SimpleView>)
    requires Inv(e)
    ensures r.Fail? <==> |keys| == 0 || exists i :: 0 <= i < |keys| && keys[i] !in e.slots
    ensures r.Fail? ==> r.error == if (exists i :: 0 <= i < |keys| && keys[i] !in e.slots) then UnregisteredComponent else EmptyView
    ensures r.Ok? ==> Over(e, r.value, keys) && SmallestFirst(e, r.value)
  {
    match SlotsOf(e, keys)
    case Fail(err) => Fail(err)
    case Ok(slots) =>
      assert forall i :: 0 <= i < |slots| ==> slots[i] < |e.pools|;
      NewView(e, slots)
  }

  /** `AllContain`: every pool of the view holds the entity. */
  function AllContain<V>(e: ECS<V>, v: SimpleView, id: EntityID): (r: bool)
    requires Inv(e) && ViewOk(e, v)
    ensures r <==> forall i :: 0 <= i < |v.pools| ==> id in Pools(e)[v.pools[i]]
  {
    forall i | 0 <= i < |v.pools| :: PoolAt(e, v.pools[i]); ContainsEntity(e.pools[v.pools[i]], id)
  }

  /** The entity's components in the order of the view's types. */
  function Fetch<V>(e: ECS<V>, v: SimpleView, id: EntityID): (r: seq<V>)
    requires Inv(e) && ViewOk(e, v) && AllContain(e, v, id)
    ensures |r| == |v.pools|
    ensures forall i :: 0 <= i < |v.pools| ==> r[i] == Pools(e)[v.pools[i]][id]
  {
    seq(|v.pools|, i requires 0 <= i < |v.pools| => PoolAt(e, v.pools[i]); GetRef(e.pools[v.pools[i]], id))
  }

  /** The ids `ForEach` walks: a copy of the driving pool's id list, taken when the walk starts. */
  function Snapshot<V>(e: ECS<V>, v: SimpleView): (r: seq<EntityID>)
    requires Inv(e) && ViewOk(e, v)
    ensures NoDup(r)
    ensures forall id :: id in r <==> id in Pools(e)[v.pools[v.smallest]]
  {
    PoolAt(e, v.pools[v.smallest]);
    GetEntityList(e.pools[v.pools[v.smallest]])
  }

  /** The entities of the coordinator that hold every type of the view. */
  ghost function Matching<V>(e: ECS<V>, v: SimpleView): set<EntityID>
    requires Inv(e) && ViewOk(e, v)
  {
    set id | id in Pools(e)[v.pools[v.smallest]] && forall i :: 0 <= i < |v.pools| ==> id in Pools(e)[v.pools[i]]
  }

  /**
    A callback: given the coordinator, the visited id and its components, it
    returns the coordinator it leaves behind. It is a partial function so that
    it may call coordinator operations, which all need a consistent coordinator.
   */
  type Callback<!V> = (ECS<V>, EntityID, seq<V>) --> ECS<V>

  /** A callback that accepts every consistent coordinator, may change anything, keeps it consistent and unregisters nothing. */
  ghost predicate PreservesInv<V(!new)>(f: Callback<V>) {
    forall s, id, vals :: Inv(s) ==> f.requires(s, id, vals) && Inv(f(s, id, vals)) && |f(s, id, vals).pools| >= |s.pools|
  }

  /** Two consistent coordinators with the same slots, each slot holding the same entities. */
  ghost predicate SameMembership<V>(a: ECS<V>, b: ECS<V>)
    requires StoresValid(a) && StoresValid(b)
  {
    |b.pools| == |a.pools| && forall k :: 0 <= k < |a.pools| ==> Pools(b)[k].Keys == Pools(a)[k].Keys
  }

  /** A callback that only edits component values: no component is added or removed, no entity created or deleted. */
  ghost predicate KeepsMembership<V(!new)>(f: Callback<V>) {
    && PreservesInv(f)
    && forall s, id, vals :: Inv(s) ==> SameMembership(s, f(s, id, vals))
  }

  /** One visited id: the state found on arrival, whether the callback ran, and the state left behind. */
  datatype Step<V> = Step(id: EntityID, before: ECS<V>, called: bool, after: ECS<V>)

  /**
    One step of a walk: it starts from a consistent state that still fits the
    view, calls back exactly when every view pool holds the id on arrival, and
    then passes the id's current components.
   */
  ghost predicate StepOk<V>(s: Step<V>, v: SimpleView, f: Callback<V>) {
    && Inv(s.before) && ViewOk(s.before, v)
    && (s.called <==> AllContain(s.before, v, s.id))
    && (s.called ==> f.requires(s.before, s.id, Fetch(s.before, v, s.id)) && s.after == f(s.before, s.id, Fetch(s.before, v, s.id)))
    && (!s.called ==> s.after == s.before)
  }

  /** The state a walk from `e` has reached. */
  function Final<V>(e: ECS<V>, steps: seq<Step<V>>): ECS<V> {
    if |steps| == 0 then e else steps[|steps| - 1].after
  }

  /** Steps from `e` over `ids`: one per id, in order, each starting where the previous one ended. */
  ghost predicate Chain<V>(e: ECS<V>, ids: seq<EntityID>, steps: seq<Step<V>>)
    decreases |steps|
  {
    && |steps| == |ids|
    && (|steps| > 0 ==>
         var n := |steps| - 1;
         && Chain(e, ids[..n], steps[..n])
         && steps[n].before == Final(e, steps[..n])
         && steps[n].id == ids[n])
  }

  /** A walk from `e` over `ids`: a chain of well-formed steps. */
  ghost predicate Walk<V>(e: ECS<V>, v: SimpleView, f: Callback<V>, ids: seq<EntityID>, steps: seq<Step<V>>) {
    Chain(e, ids, steps) && forall i :: 0 <= i < |steps| ==> StepOk(steps[i], v, f)
  }

  /** The walk `ForEach` performs: over the snapshot taken at the start. */
  ghost predicate Trace<V>(e: ECS<V>, v: SimpleView, f: Callback<V>, steps: seq<Step<V>>)
    requires Inv(e) && ViewOk(e, v)
  {
    Walk(e, v, f, Snapshot(e, v), steps)
  }

  /** A chain over a prefix of `list` extends by a step for the next id. */
  lemma ChainSnoc<V>(e: ECS<V>, list: seq<EntityID>, n: nat, steps: seq<Step<V>>, s: Step<V>)
    requires n < |list| && s.id == list[n]
    requires Chain(e, list[..n], steps) && s.before == Final(e, steps)
    ensures Chain(e, list[..n + 1], steps + [s]) && Final(e, steps + [s]) == s.after
  {
    assert (steps + [s])[..|steps|] == steps;
    assert list[..n + 1][..n] == list[..n];
  }

  /** A walk over a prefix of `list` extends by a well-formed step for the next id. */
  lemma WalkSnoc<V>(e: ECS<V>, v: SimpleView, f: Callback<V>,
                    list: seq<EntityID>, n: nat, steps: seq<Step<V>>, s: Step<V>)
    requires n < |list| && s.id == list[n]
    requires Walk(e, v, f, list[..n], steps) && s.before == Final(e, steps) && StepOk(s, v, f)
    ensures Walk(e, v, f, list[..n + 1], steps + [s]) && Final(e, steps + [s]) == s.after
  {
    ChainSnoc(e, list, n, steps, s);
  }

  /** Every step of a chain visits its id and starts where the previous one ended. */
  lemma {:induction false} ChainAt<V>(e: ECS<V>, ids: seq<EntityID>, steps: seq<Step<V>>, i: nat)
    requires Chain(e, ids, steps) && i < |steps|
    ensures steps[i].id == ids[i]
    ensures steps[i].before == if i == 0 then e else steps[i - 1].after
    decreases |steps|
  {
    var n := |steps| - 1;
    if i < n {
      ChainAt(e, ids[..n], steps[..n], i);
    }
  }

  /** The ids the callback ran for, in visiting order. */
  function Called<V>(steps: seq<Step<V>>): (r: seq<EntityID>)
    ensures forall id :: id in r <==> exists i :: 0 <= i < |steps| && steps[i].called && steps[i].id == id
  {
    if |steps| == 0 then []
    else Called(steps[..|steps| - 1]) + (if steps[|steps| - 1].called then [steps[|steps| - 1].id] else [])
  }

  /** A step from a consistent state with a consistency-keeping callback ends consistent and still fits the view. */
  lemma StepKeepsInv<V(!new)>(s: Step<V>, v: SimpleView, f: Callback<V>)
    requires PreservesInv(f) && StepOk(s, v, f)
    ensures Inv(s.after) && ViewOk(s.after, v) && |s.after.pools| >= |s.before.pools|
  {
  }

  /** Visits one id: calls back when every view pool holds it. */
  method Visit<V(!new)>(e: ECS<V>, v: SimpleView, f: Callback<V>, id: EntityID)
    returns (step: Step<V>)
    requires Inv(e) && ViewOk(e, v) && PreservesInv(f)
    ensures step.id == id && step.before == e && StepOk(step, v, f)
    ensures Inv(step.after) && ViewOk(step.after, v)
  {
    var called := AllContain(e, v, id);
    var after := if called then f(e, id, Fetch(e, v, id)) else e;
    step := Step(id, e, called, after);
    StepKeepsInv(step, v, f);
  }

  /**
    `ForEach` with a callback that takes the id: visits the snapshot in order and
    returns the final coordinator with the trace of the walk.
   */
  method ForEachWithId<V(!new)>(e: ECS<V>, v: SimpleView, f: Callback<V>)
    returns (r: ECS<V>, steps: seq<Step<V>>)
    requires Inv(e) && ViewOk(e, v) && PreservesInv(f)
    ensures Inv(r) && Trace(e, v, f, steps) && r == Final(e, steps)
    ensures NoDup(Called(steps))
  {
    var list := Snapshot(e, v);
    r := e;
    steps := [];
    for n := 0 to |list|
      invariant Inv(r) && ViewOk(r, v)
      invariant Walk(e, v, f, list[..n], steps) && r == Final(e, steps)
      invariant NoDup(Called(steps)) && Elems(Called(steps)) <= Elems(list[..n])
    {
      var step := Visit(r, v, f, list[n]);
      WalkSnoc(e, v, f, list, n, steps, step);
      CalledSnoc(steps, step, list, n);
      steps := steps + [step];
      r := step.after;
    }
    assert list[..|list|] == list;
  }

  /** Appending a step for a fresh snapshot position keeps the called ids distinct and inside the visited prefix. */
  lemma CalledSnoc<V>(steps: seq<Step<V>>, s: Step<V>, list: seq<EntityID>, n: nat)
    requires n < |list| && NoDup(list) && s.id == list[n]
    requires NoDup(Called(steps)) && Elems(Called(steps)) <= Elems(list[..n])
    ensures Called(steps + [s]) == Called(steps) + (if s.called then [s.id] else [])
    ensures NoDup(Called(steps + [s])) && Elems(Called(steps + [s])) <= Elems(list[..n + 1])
  {
    assert (steps + [s])[..|steps|] == steps;
    assert list[..n + 1] == list[..n] + [list[n]];
    assert s.id !in list[..n];
    assert s.id !in Elems(Called(steps));
    if s.called {
      NoDupSnoc(Called(steps), s.id);
    }
    assert Elems(list[..n + 1]) == Elems(list[..n]) + {s.id};
    assert Elems(Called(steps + [s])) <= Elems(Called(steps)) + {s.id};
  }

  /** Turns a callback without the id into one that ignores it. */
  function IgnoreId<V(!new)>(g: (ECS<V>, seq<V>) --> ECS<V>): (f: Callback<V>)
    ensures forall s, id, vals :: g.requires(s, vals) ==> f.requires(s, id, vals) && f(s, id, vals) == g(s, vals)
  {
    (s, id, vals) requires g.requires(s, vals) => g(s, vals)
  }

  /** `ForEach` with a callback that takes only the components. */
  method ForEach<V(!new)>(e: ECS<V>, v: SimpleView, g: (ECS<V>, seq<V>) --> ECS<V>)
    returns (r: ECS<V>, steps: seq<Step<V>>)
    requires Inv(e) && ViewOk(e, v)
    requires forall s, vals :: Inv(s) ==> g.requires(s, vals) && Inv(g(s, vals)) && |g(s, vals).pools| >= |s.pools|
    ensures Inv(r) && Trace(e, v, IgnoreId(g), steps) && r == Final(e, steps)
    ensures NoDup(Called(steps))
  {
    r, steps := ForEachWithId(e, v, IgnoreId(g));
  }

  // ---------------------------------------------------------------------------
  // What a walk visits

  /** Pool membership is an equivalence on consistent coordinators. */
  lemma SameMembershipTrans<V>(a: ECS<V>, b: ECS<V>, c: ECS<V>)
    requires StoresValid(a) && StoresValid(b) && StoresValid(c) && SameMembership(a, b) && SameMembership(b, c)
    ensures SameMembership(a, c)
  {
  }

  /** A step with a value-editing callback keeps the pools' members. */
  lemma StepKeepsMembership<V(!new)>(s: Step<V>, v: SimpleView, f: Callback<V>)
    requires KeepsMembership(f) && StepOk(s, v, f)
    ensures Inv(s.after) && SameMembership(s.before, s.after)
  {
  }

  /** Every step leaves the pools with the members they had on arrival. */
  ghost predicate EditsOnly<V>(steps: seq<Step<V>>) {
    forall j :: 0 <= j < |steps| ==>
      StoresValid(steps[j].before) && StoresValid(steps[j].after) && SameMembership(steps[j].before, steps[j].after)
  }

  /** Along a chain of membership-keeping steps, every state has the members of the start. */
  lemma {:induction false} MembershipAlongChain<V>(e: ECS<V>, ids: seq<EntityID>, steps: seq<Step<V>>, i: nat)
    requires StoresValid(e) && Chain(e, ids, steps) && EditsOnly(steps) && i < |steps|
    ensures StoresValid(steps[i].before) && SameMembership(e, steps[i].before)
  {
    ChainAt(e, ids, steps, i);
    if i > 0 {
      var p := steps[i - 1];
      MembershipAlongChain(e, ids, steps, i - 1);
      SameMembershipTrans(e, p.before, p.after);
    }
  }

  /** The walk of a value-editing callback consists of membership-keeping steps. */
  lemma WalkEditsOnly<V(!new)>(e: ECS<V>, v: SimpleView, f: Callback<V>,
                                ids: seq<EntityID>, steps: seq<Step<V>>)
    requires KeepsMembership(f) && Walk(e, v, f, ids, steps)
    ensures EditsOnly(steps)
  {
    forall j | 0 <= j < |steps|
      ensures StoresValid(steps[j].before) && StoresValid(steps[j].after) && SameMembership(steps[j].before, steps[j].after)
    {
      StepKeepsMembership(steps[j], v, f);
    }
  }

  /** In a state with the start's members, a step calls back exactly for the ids the view matches at the start. */
  lemma CalledAt<V>(e: ECS<V>, v: SimpleView, s: Step<V>, f: Callback<V>)
    requires Inv(e) && ViewOk(e, v) && StepOk(s, v, f) && SameMembership(e, s.before)
    requires s.id in Pools(e)[v.pools[v.smallest]]
    ensures s.called <==> s.id in Matching(e, v)
  {
    assert forall k :: 0 <= k < |v.pools| ==> (s.id in Pools(s.before)[v.pools[k]] <==> s.id in Pools(e)[v.pools[k]]);
  }

  /**
    With a callback that only edits component values, `ForEach` calls back for
    exactly the entities holding every type of the view when it starts.
   */
  lemma CalledIffMatching<V(!new)>(e: ECS<V>, v: SimpleView, f: Callback<V>, steps: seq<Step<V>>)
    requires Inv(e) && ViewOk(e, v) && KeepsMembership(f) && Trace(e, v, f, steps)
    ensures forall id :: id in Called(steps) <==> id in Matching(e, v)
  {
    var list := Snapshot(e, v);
    WalkEditsOnly(e, v, f, list, steps);
    forall i | 0 <= i < |steps|
      ensures steps[i].id == list[i]
      ensures steps[i].called <==> list[i] in Matching(e, v)
    {
      ChainAt(e, list, steps, i);
      MembershipAlongChain(e, list, steps, i);
      assert list[i] in list;
      CalledAt(e, v, steps[i], f);
    }
    forall id | id in Matching(e, v)
      ensures id in Called(steps)
    {
      assert id in list;
      var i :| 0 <= i < |list| && list[i] == id;
      assert steps[i].called;
    }
  }

  /**
    The walk visits the snapshot one id per step, so the callback only ever runs
    for entities that were in the driving pool when `ForEach` started: entities
    that join the pool during the walk are not visited.
   */
  lemma CalledFromSnapshot<V>(e: ECS<V>, v: SimpleView, f: Callback<V>, steps: seq<Step<V>>)
    requires Inv(e) && ViewOk(e, v) && Trace(e, v, f, steps)
    ensures |steps| == |Snapshot(e, v)|
    ensures forall id :: id in Called(steps) ==> id in Pools(e)[v.pools[v.smallest]]
  {
    var list := Snapshot(e, v);
    forall id | id in Called(steps)
      ensures id in Pools(e)[v.pools[v.smallest]]
    {
      var i :| 0 <= i < |steps| && steps[i].called && steps[i].id == id;
      ChainAt(e, list, steps, i);
      assert list[i] in list;
    }
  }

  /** A view matches the entities every pool of its types holds. */
  lemma MatchingIffInAllPools<V>(e: ECS<V>, v: SimpleView, id: EntityID)
    requires Inv(e) && ViewOk(e, v)
    ensures id in Matching(e, v) <==> forall i :: 0 <= i < |v.pools| ==> id in Pools(e)[v.pools[i]]
  {
    if forall i :: 0 <= i < |v.pools| ==> id in Pools(e)[v.pools[i]] {
      assert id in Pools(e)[v.pools[v.smallest]];
    }
  }

  /** `v` is a view over the listed types: one registered slot per type, in order. */
  ghost predicate Over<V>(e: ECS<V>, v: SimpleView, keys: seq<ComponentKey>) {
    && ViewOk(e, v) && |v.pools| == |keys|
    && forall i :: 0 <= i < |keys| ==> keys[i] in e.slots && v.pools[i] == e.slots[keys[i]]
  }

  /** The entities a view matches are the live entities for which `HasAll` over the view's types holds. */
  lemma MatchingIffHasAll<V>(e: ECS<V>, v: SimpleView, keys: seq<ComponentKey>, id: EntityID)
    requires Inv(e) && Over(e, v, keys)
    ensures id in Matching(e, v) <==> id in Masks(e) && HasAll(e, id, keys) == Ok(true)
  {
    MatchingIffInAllPools(e, v, id);
    if id in Masks(e) {
      assert forall i :: 0 <= i < |keys| ==> (Has(e, id, keys[i]) == Ok(true) <==> id in Pools(e)[v.pools[i]]);
    } else {
      assert id !in Pools(e)[v.pools[0]];
    }
  }

  /**
    The entities a view matches are exactly those `ViewIDs` reports for the same
    types: live, with every listed bit set, and (since a view has at least one
    type) with a non-empty mask.
   */
  lemma MatchingIffViewIDs<V>(e: ECS<V>, v: SimpleView, keys: seq<ComponentKey>, id: EntityID)
    requires Inv(e) && Over(e, v, keys)
    ensures id in Matching(e, v) <==>
      && id in Masks(e) && Masks(e)[id] != {}
      && forall i :: 0 <= i < |keys| ==> e.slots[keys[i]] in Masks(e)[id]
  {
    MatchingIffInAllPools(e, v, id);
    if id in Masks(e) && forall i :: 0 <= i < |keys| ==> e.slots[keys[i]] in Masks(e)[id] {
      assert v.pools[0] in Masks(e)[id];
    }
  }

  // ---------------------------------------------------------------------------
  // Deleting from inside a walk

  /** A callback that deletes the entity it visits, through the coordinator's own `DeleteEntity`. */
  function DeleteVisited<V(!new)>(): (f: Callback<V>)
    ensures forall s, id, vals :: Inv(s) ==> f.requires(s, id, vals)
  {
    (s: ECS<V>, id: EntityID, vals: seq<V>) requires Inv(s) => match DeleteEntity(s, id) case Ok(h) => h.ecs case Fail(_) => s
  }

  /** Deleting the visited entity keeps every consistent coordinator consistent and unregisters nothing. */
  lemma DeleteVisitedKeepsInv<V(!new)>()
    ensures PreservesInv(DeleteVisited<V>())
  {
  }

  /** The entity a step deletes: the visited one when the callback ran, none otherwise. */
  function Gone<V>(s: Step<V>): set<EntityID> {
    if s.called then {s.id} else {}
  }

  /** A step that deletes exactly `Gone(s)` and nothing else. */
  ghost predicate Deletes<V>(s: Step<V>) {
    && StoresValid(s.before) && StoresValid(s.after) && |s.after.pools| == |s.before.pools|
    && Masks(s.after) == Masks(s.before) - Gone(s)
    && forall k :: 0 <= k < |s.before.pools| ==> Pools(s.after)[k] == Pools(s.before)[k] - Gone(s)
  }

  /** A deleting step of a walk over `v`: it calls back exactly when every view pool holds its id on arrival. */
  ghost predicate DeletesInView<V>(s: Step<V>, v: SimpleView) {
    && Deletes(s) && ViewOk(s.before, v)
    && (s.called <==> forall k :: 0 <= k < |v.pools| ==> s.id in Pools(s.before)[v.pools[k]])
  }

  /** One step of a walk with `DeleteVisited` deletes the visited entity exactly when the callback runs. */
  lemma DeleteStep<V(!new)>(s: Step<V>, v: SimpleView, f: Callback<V>)
    requires f == DeleteVisited() && StepOk(s, v, f)
    ensures DeletesInView(s, v)
  {
    if s.called {
      assert s.id in Pools(s.before)[v.pools[0]];
      var r := DeleteEntity(s.before, s.id);
      assert r.Ok? && s.after == r.value.ecs;
    }
  }

  /**
    Along a chain of deleting steps, the state reached is the start with the
    entities the callback ran for deleted: gone from the masks and from every pool.
   */
  lemma {:induction false} DeleteChain<V>(e: ECS<V>, ids: seq<EntityID>, steps: seq<Step<V>>)
    requires StoresValid(e) && Chain(e, ids, steps) && forall i :: 0 <= i < |steps| ==> Deletes(steps[i])
    ensures StoresValid(Final(e, steps)) && |Final(e, steps).pools| == |e.pools|
    ensures Masks(Final(e, steps)) == Masks(e) - Elems(Called(steps))
    ensures forall k :: 0 <= k < |e.pools| ==> Pools(Final(e, steps))[k] == Pools(e)[k] - Elems(Called(steps))
    decreases |steps|
  {
    if |steps| > 0 {
      var n := |steps| - 1;
      var p := steps[..n];
      assert forall i :: 0 <= i < n ==> p[i] == steps[i];
      DeleteChain(e, ids[..n], p);
      CalledPop(steps);
      assert Deletes(steps[n]) && steps[n].before == Final(e, p);
      MinusMinus(Masks(e), Masks(Final(e, p)), Masks(steps[n].after), Elems(Called(p)), Gone(steps[n]));
      forall k | 0 <= k < |e.pools|
        ensures Pools(steps[n].after)[k] == Pools(e)[k] - Elems(Called(steps))
      {
        MinusMinus(Pools(e)[k], Pools(Final(e, p))[k], Pools(steps[n].after)[k], Elems(Called(p)), Gone(steps[n]));
      }
    }
  }

  /** Removing two sets of keys in turn removes their union. */
  lemma MinusMinus<K, W>(m0: map<K, W>, m1: map<K, W>, m2: map<K, W>, c: set<K>, x: set<K>)
    requires m1 == m0 - c && m2 == m1 - x
    ensures m2 == m0 - (c + x)
  {
  }

  /** The ids called back in a non-empty walk: those of all but the last step, and the last one's id if it ran. */
  lemma CalledPop<V>(steps: seq<Step<V>>)
    requires |steps| > 0
    ensures Elems(Called(steps)) == Elems(Called(steps[..|steps| - 1])) + Gone(steps[|steps| - 1])
  {
  }

  /** A prefix of a chain is a chain over the same prefix of ids. */
  lemma {:induction false} ChainPrefix<V>(e: ECS<V>, ids: seq<EntityID>, steps: seq<Step<V>>, i: nat)
    requires Chain(e, ids, steps) && i <= |steps|
    ensures Chain(e, ids[..i], steps[..i])
    decreases |steps|
  {
    var n := |steps| - 1;
    if i <= n {
      ChainPrefix(e, ids[..n], steps[..n], i);
      assert ids[..n][..i] == ids[..i];
      assert steps[..n][..i] == steps[..i];
    } else {
      assert ids[..i] == ids;
      assert steps[..i] == steps;
    }
  }

  /** A chain calls back only for ids it visits. */
  lemma {:induction false} CalledWithin<V>(e: ECS<V>, ids: seq<EntityID>, steps: seq<Step<V>>)
    requires Chain(e, ids, steps)
    ensures Elems(Called(steps)) <= Elems(ids)
    decreases |steps|
  {
    if |steps| > 0 {
      var n := |steps| - 1;
      CalledWithin(e, ids[..n], steps[..n]);
      assert steps[n].id == ids[n];
      assert Called(steps) == Called(steps[..n]) + (if steps[n].called then [steps[n].id] else []);
      assert Elems(ids) == Elems(ids[..n]) + {ids[n]} by {
        assert ids == ids[..n] + [ids[n]];
      }
    }
  }

  /**
    In a chain of deleting steps over distinct ids, each step calls back
    exactly when every view pool held its id at the start: the earlier steps
    deleted only other entities.
   */
  lemma DeleteChainCalls<V>(e: ECS<V>, v: SimpleView, ids: seq<EntityID>, steps: seq<Step<V>>)
    requires StoresValid(e) && ViewOk(e, v) && Chain(e, ids, steps) && NoDup(ids)
    requires forall i :: 0 <= i < |steps| ==> DeletesInView(steps[i], v)
    ensures forall i :: 0 <= i < |steps| ==> (steps[i].called <==> forall k :: 0 <= k < |v.pools| ==> ids[i] in Pools(e)[v.pools[k]])
  {
    forall i | 0 <= i < |steps|
      ensures steps[i].called <==> forall k :: 0 <= k < |v.pools| ==> ids[i] in Pools(e)[v.pools[k]]
    {
      DeleteChainCallAt(e, v, ids, steps, i);
    }
  }

  /** The step at `i` of a chain of deleting steps finds its id in every pool it held at the start. */
  lemma DeleteChainCallAt<V>(e: ECS<V>, v: SimpleView, ids: seq<EntityID>, steps: seq<Step<V>>, i: nat)
    requires StoresValid(e) && ViewOk(e, v) && Chain(e, ids, steps) && NoDup(ids) && i < |steps|
    requires forall i :: 0 <= i < |steps| ==> DeletesInView(steps[i], v)
    ensures steps[i].called <==> forall k :: 0 <= k < |v.pools| ==> ids[i] in Pools(e)[v.pools[k]]
  {
    var b := steps[i].before;
    DeletePrefix(e, ids, steps, i);
    assert ids[i] !in Elems(Called(steps[..i])) by {
      assert ids[i] !in Elems(ids[..i]);
    }
    assert DeletesInView(steps[i], v);
    assert forall k :: 0 <= k < |v.pools| ==> (ids[i] in Pools(b)[v.pools[k]] <==> ids[i] in Pools(e)[v.pools[k]]);
  }

  /** The step at `i` of a chain of deleting steps starts from the start state less the entities called back for before it. */
  lemma DeletePrefix<V>(e: ECS<V>, ids: seq<EntityID>, steps: seq<Step<V>>, i: nat)
    requires StoresValid(e) && Chain(e, ids, steps) && i < |steps|
    requires forall i :: 0 <= i < |steps| ==> Deletes(steps[i])
    ensures steps[i].id == ids[i] && Elems(Called(steps[..i])) <= Elems(ids[..i])
    ensures StoresValid(steps[i].before) && |steps[i].before.pools| == |e.pools|
    ensures forall k :: 0 <= k < |e.pools| ==> Pools(steps[i].before)[k] == Pools(e)[k] - Elems(Called(steps[..i]))
  {
    var p := steps[..i];
    ChainAt(e, ids, steps, i);
    ChainPrefix(e, ids, steps, i);
    assert forall j :: 0 <= j < i ==> p[j] == steps[j];
    DeleteChain(e, ids[..i], p);
    CalledWithin(e, ids[..i], p);
    assert steps[i].before == Final(e, p);
  }

  /** Every step of a walk with `DeleteVisited` deletes exactly the entity it calls back for. */
  lemma TraceDeletes<V(!new)>(e: ECS<V>, v: SimpleView, steps: seq<Step<V>>)
    requires Inv(e) && ViewOk(e, v) && Trace(e, v, DeleteVisited(), steps)
    ensures Chain(e, Snapshot(e, v), steps) && forall i :: 0 <= i < |steps| ==> DeletesInView(steps[i], v)
  {
    var f := DeleteVisited<V>();
    forall i | 0 <= i < |steps|
      ensures DeletesInView(steps[i], v)
    {
      assert StepOk(steps[i], v, f);
      DeleteStep(steps[i], v, f);
    }
  }

  /**
    Deleting every visited entity during the walk still calls back for exactly
    the entities the view matched when the walk started: the snapshot keeps
    the walk going past the removed entries, and deleting one entity never
    changes whether another one matches. Those entities, and no others, are
    gone at the end.
   */
  lemma DeleteCalledIffMatching<V(!new)>(e: ECS<V>, v: SimpleView, steps: seq<Step<V>>)
    requires Inv(e) && ViewOk(e, v) && Trace(e, v, DeleteVisited(), steps)
    ensures Elems(Called(steps)) == Matching(e, v)
    ensures StoresValid(Final(e, steps)) && Masks(Final(e, steps)) == Masks(e) - Matching(e, v)
  {
    TraceDeletes(e, v, steps);
    DeleteChainMatching(e, v, Snapshot(e, v), steps);
  }

  /** A chain of deleting steps over the driving pool's ids calls back for, and deletes, exactly the matched entities. */
  lemma DeleteChainMatching<V>(e: ECS<V>, v: SimpleView, list: seq<EntityID>, steps: seq<Step<V>>)
    requires Inv(e) && ViewOk(e, v) && NoDup(list) && Chain(e, list, steps)
    requires forall id :: id in list <==> id in Pools(e)[v.pools[v.smallest]]
    requires forall i :: 0 <= i < |steps| ==> DeletesInView(steps[i], v)
    ensures Elems(Called(steps)) == Matching(e, v)
    ensures StoresValid(Final(e, steps)) && Masks(Final(e, steps)) == Masks(e) - Matching(e, v)
  {
    DeleteChainCalls(e, v, list, steps);
    assert forall id :: id in Matching(e, v) ==> id in list;
    forall i | 0 <= i < |steps|
      ensures steps[i].id == list[i]
      ensures steps[i].called <==> list[i] in Matching(e, v)
    {
      ChainAt(e, list, steps, i);
      assert list[i] in list;
    }
    CalledExactly(steps, list, Matching(e, v));
    assert forall i :: 0 <= i < |steps| ==> Deletes(steps[i]);
    DeleteChain(e, list, steps);
  }

  /** Steps over `list` that call back exactly for the members of `m` in it, where `m` lies in `list`, call back for exactly `m`. */
  lemma CalledExactly<V>(steps: seq<Step<V>>, list: seq<EntityID>, m: set<EntityID>)
    requires |steps| == |list| && forall id :: id in m ==> id in list
    requires forall i :: 0 <= i < |steps| ==> steps[i].id == list[i] && (steps[i].called <==> list[i] in m)
    ensures Elems(Called(steps)) == m
  {
    forall id | id in m
      ensures id in Called(steps)
    {
      var i :| 0 <= i < |list| && list[i] == id;
      assert steps[i].called;
    }
  }

  /** Deletes every entity the view matches, by walking it with a callback that deletes the visited entity. */
  method DeleteMatching<V(!new)>(e: ECS<V>, v: SimpleView) returns (r: ECS<V>)
    requires Inv(e) && ViewOk(e, v)
    ensures Inv(r) && Masks(r) == Masks(e) - Matching(e, v)
  {
    DeleteVisitedKeepsInv<V>();
    var steps;
    r, steps := ForEachWithId(e, v, DeleteVisited());
    DeleteCalledIffMatching(e, v, steps);
  }
}
