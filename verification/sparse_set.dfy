/**
  The paged sparse set `SparseSet<T>` of seecs: a map from entity ids to values of
  one type, kept as a packed `dense` array of values, a parallel `ids` array naming
  the owner of each dense slot, and a paged sparse table translating an id into its
  dense index.
 */
module SparseSets {
  import opened Seqs

  /** Entity ids are unsigned 64-bit integers; the coordinator keeps them below the null id. */
  type EntityID = nat

  /** Number of ids covered by one page of the sparse table. */
  const PAGE_SIZE: nat := 1000

  /** One cell of the sparse table: absent, or the dense index of the id. */
  datatype Entry = Tombstone | At(index: nat)

  type Page = seq<Entry>

  datatype Option<T> = None | Some(value: T)

  datatype SparseSet<T> = SparseSet(pages: seq<Page>, dense: seq<T>, ids: seq<EntityID>)

  /** The cell an id translates to; ids beyond the allocated pages read as absent. */
  function GetDenseIndex(pages: seq<Page>, id: EntityID): Entry {
    var page := id / PAGE_SIZE;
    var offset := id % PAGE_SIZE;
    if page < |pages| && offset < |pages[page]| then pages[page][offset] else Tombstone
  }

  /** Two different ids never share a (page, offset) cell. */
  lemma CellsDistinct(a: EntityID, b: EntityID)
    requires a != b
    ensures a / PAGE_SIZE != b / PAGE_SIZE || a % PAGE_SIZE != b % PAGE_SIZE
  {
  }

  /**
    Records `e` for `id`, first growing the page list with empty pages and the page
    with tombstones when the cell is not allocated yet.
   */
  function SetDenseIndex(pages: seq<Page>, id: EntityID, e: Entry): (r: seq<Page>)
    ensures GetDenseIndex(r, id) == e
    ensures forall other :: other != id ==> GetDenseIndex(r, other) == GetDenseIndex(pages, other)
  {
    var page := id / PAGE_SIZE;
    var offset := id % PAGE_SIZE;
    var grown := if page < |pages| then pages else pages + seq(page + 1 - |pages|, _ => []);
    var cells := grown[page];
    var widened := if offset < |cells| then cells else cells + seq(offset + 1 - |cells|, _ => Tombstone);
    var r := grown[page := widened[offset := e]];
    assert forall other :: other != id ==> GetDenseIndex(r, other) == GetDenseIndex(pages, other) by {
      forall other | other != id
        ensures GetDenseIndex(r, other) == GetDenseIndex(pages, other)
      {
        CellsDistinct(id, other);
      }
    }
    r
  }

  /**
    The sparse/dense invariant: both arrays have one slot per stored id, every
    stored id translates to its own slot, and every cell that is not a tombstone
    points at a slot owned by the id that translates to it.
   */
  ghost predicate Valid<T>(s: SparseSet<T>) {
    && |s.dense| == |s.ids|
    && (forall i :: 0 <= i < |s.ids| ==> GetDenseIndex(s.pages, s.ids[i]) == At(i))
    && (forall id :: GetDenseIndex(s.pages, id).At? ==>
          GetDenseIndex(s.pages, id).index < |s.ids| && s.ids[GetDenseIndex(s.pages, id).index] == id)
  }

  /** A valid sparse set stores each id at most once. */
  lemma ValidNoDup<T>(s: SparseSet<T>)
    requires Valid(s)
    ensures NoDup(s.ids)
  {
    forall i, j | 0 <= i < j < |s.ids|
      ensures s.ids[i] != s.ids[j]
    {
      assert GetDenseIndex(s.pages, s.ids[i]) == At(i);
      assert GetDenseIndex(s.pages, s.ids[j]) == At(j);
    }
  }

  /** The map pairing each id with the value at the same position, later positions winning. */
  ghost function Pairs<T>(ids: seq<EntityID>, vals: seq<T>): map<EntityID, T>
    requires |ids| == |vals|
  {
    if |ids| == 0 then map[]
    else Pairs(ids[..|ids| - 1], vals[..|ids| - 1])[ids[|ids| - 1] := vals[|ids| - 1]]
  }

  lemma {:induction false} PairsKeys<T>(ids: seq<EntityID>, vals: seq<T>)
    requires |ids| == |vals|
    ensures Pairs(ids, vals).Keys == Elems(ids)
  {
    if |ids| > 0 {
      var n := |ids| - 1;
      PairsKeys(ids[..n], vals[..n]);
      assert Elems(ids) == Elems(ids[..n]) + {ids[n]} by {
        assert ids == ids[..n] + [ids[n]];
      }
    }
  }

  lemma {:induction false} PairsAt<T>(ids: seq<EntityID>, vals: seq<T>, i: nat)
    requires |ids| == |vals| && NoDup(ids) && i < |ids|
    ensures ids[i] in Pairs(ids, vals) && Pairs(ids, vals)[ids[i]] == vals[i]
  {
    var n := |ids| - 1;
    if i < n {
      assert NoDup(ids[..n]);
      PairsAt(ids[..n], vals[..n], i);
      assert ids[i] != ids[n];
    }
  }

  /** The abstract map a sparse set represents: each stored id to its value. */
  ghost function Contents<T>(s: SparseSet<T>): map<EntityID, T>
    requires Valid(s)
  {
    Pairs(s.ids, s.dense)
  }

  /** The value stored in dense slot i is what the abstract map holds for its owner. */
  lemma ContentsAt<T>(s: SparseSet<T>, i: nat)
    requires Valid(s) && i < |s.ids|
    ensures s.ids[i] in Contents(s) && Contents(s)[s.ids[i]] == s.dense[i]
  {
    ValidNoDup(s);
    PairsAt(s.ids, s.dense, i);
  }

  /** The keys of the abstract map are exactly the ids listed in the dense order. */
  lemma ContentsKeys<T>(s: SparseSet<T>)
    requires Valid(s)
    ensures Contents(s).Keys == Elems(s.ids)
  {
    PairsKeys(s.ids, s.dense);
  }

  /** An id is stored exactly when its cell holds a dense index. */
  lemma StoredIffIndexed<T>(s: SparseSet<T>, id: EntityID)
    requires Valid(s)
    ensures id in Contents(s) <==> GetDenseIndex(s.pages, id).At?
    ensures GetDenseIndex(s.pages, id).At? ==> Contents(s)[id] == s.dense[GetDenseIndex(s.pages, id).index]
  {
    ContentsKeys(s);
    if GetDenseIndex(s.pages, id).At? {
      ContentsAt(s, GetDenseIndex(s.pages, id).index);
    }
  }

  /** The number of stored values equals the number of ids in the abstract map. */
  lemma SizeIsCardinality<T>(s: SparseSet<T>)
    requires Valid(s)
    ensures |Contents(s)| == |s.dense|
  {
    ContentsKeys(s);
    ValidNoDup(s);
    DistinctCardinality(s.ids);
    assert |Contents(s)| == |Contents(s).Keys|;
  }

  /** A freshly constructed sparse set: no pages, no values. */
  function Empty<T>(): (r: SparseSet<T>)
    ensures Valid(r) && Contents(r) == map[]
  {
    SparseSet([], [], [])
  }

  /**
    Inserts or overwrites the value of `id`. An existing value is overwritten in
    its own dense slot; a new one is appended at the back.
   */
  function Set<T>(s: SparseSet<T>, id: EntityID, v: T): (r: SparseSet<T>)
    requires Valid(s)
    ensures Valid(r)
    ensures Contents(r) == Contents(s)[id := v]
    ensures id in Contents(s) ==> r.ids == s.ids && |r.dense| == |s.dense|
    ensures id !in Contents(s) ==> r.ids == s.ids + [id] && |r.dense| == |s.dense| + 1
  {
    StoredIffIndexed(s, id);
    match GetDenseIndex(s.pages, id)
    case At(i) =>
      var r := s.(dense := s.dense[i := v], ids := s.ids[i := id]);
      assert r.ids == s.ids;
      SetOverwriteContents(s, id, v, i, r);
      r
    case Tombstone =>
      var r := SparseSet(SetDenseIndex(s.pages, id, At(|s.dense|)), s.dense + [v], s.ids + [id]);
      SetAppendContents(s, id, v, r);
      r
  }

  lemma SetOverwriteContents<T>(s: SparseSet<T>, id: EntityID, v: T, i: nat, r: SparseSet<T>)
    requires Valid(s) && i < |s.ids| && s.ids[i] == id
    requires r == s.(dense := s.dense[i := v])
    ensures Valid(r) && Contents(r) == Contents(s)[id := v]
  {
    ContentsKeys(s);
    ContentsKeys(r);
    forall k | k in Contents(r)
      ensures Contents(r)[k] == Contents(s)[id := v][k]
    {
      var j :| 0 <= j < |r.ids| && r.ids[j] == k;
      ContentsAt(r, j);
      ContentsAt(s, j);
    }
  }

  lemma SetAppendContents<T>(s: SparseSet<T>, id: EntityID, v: T, r: SparseSet<T>)
    requires Valid(s) && GetDenseIndex(s.pages, id).Tombstone?
    requires r == SparseSet(SetDenseIndex(s.pages, id, At(|s.dense|)), s.dense + [v], s.ids + [id])
    ensures Valid(r) && Contents(r) == Contents(s)[id := v]
  {
    assert forall i :: 0 <= i < |s.ids| ==> s.ids[i] != id by {
      forall i | 0 <= i < |s.ids| ensures s.ids[i] != id {
        assert GetDenseIndex(s.pages, s.ids[i]) == At(i);
      }
    }
    assert Valid(r);
    ContentsKeys(s);
    ContentsKeys(r);
    assert Elems(r.ids) == Elems(s.ids) + {id};
    forall k | k in Contents(r)
      ensures Contents(r)[k] == Contents(s)[id := v][k]
    {
      var j :| 0 <= j < |r.ids| && r.ids[j] == k;
      ContentsAt(r, j);
      if j < |s.ids| {
        ContentsAt(s, j);
      }
    }
  }

  /** The value of `id`, or nothing when the id is not stored. */
  function Get<T>(s: SparseSet<T>, id: EntityID): (r: Option<T>)
    requires Valid(s)
    ensures r.Some? <==> id in Contents(s)
    ensures r.Some? ==> r.value == Contents(s)[id]
  {
    StoredIffIndexed(s, id);
    match GetDenseIndex(s.pages, id)
    case At(i) => Some(s.dense[i])
    case Tombstone => None
  }

  /** The value of a stored id; asking for an absent id is a fatal error in seecs. */
  function GetRef<T>(s: SparseSet<T>, id: EntityID): (r: T)
    requires Valid(s) && id in Contents(s)
    ensures r == Contents(s)[id]
  {
    StoredIffIndexed(s, id);
    s.dense[GetDenseIndex(s.pages, id).index]
  }

  /** Whether the id is stored. */
  function ContainsEntity<T>(s: SparseSet<T>, id: EntityID): (r: bool)
    requires Valid(s)
    ensures r <==> id in Contents(s)
  {
    StoredIffIndexed(s, id);
    GetDenseIndex(s.pages, id) != Tombstone
  }

  /** The number of stored values. */
  function Size<T>(s: SparseSet<T>): (r: nat)
    requires Valid(s)
    ensures r == |Contents(s)|
  {
    SizeIsCardinality(s);
    |s.dense|
  }

  function IsEmpty<T>(s: SparseSet<T>): (r: bool)
    requires Valid(s)
    ensures r <==> Contents(s) == map[]
  {
    SizeIsCardinality(s);
    |s.dense| == 0
  }

  /** A copy of the stored ids in dense order: each stored id exactly once. */
  function GetEntityList<T>(s: SparseSet<T>): (r: seq<EntityID>)
    requires Valid(s)
    ensures NoDup(r) && |r| == Size(s)
    ensures forall id :: id in r <==> id in Contents(s)
  {
    ValidNoDup(s);
    ContentsKeys(s);
    s.ids
  }

  /** The dense values, parallel to `GetEntityList`. */
  function Data<T>(s: SparseSet<T>): (r: seq<T>)
    requires Valid(s)
    ensures |r| == |GetEntityList(s)|
    ensures forall i :: 0 <= i < |r| ==> r[i] == Contents(s)[GetEntityList(s)[i]]
  {
    forall i | 0 <= i < |s.dense| ensures s.ids[i] in Contents(s) && s.dense[i] == Contents(s)[s.ids[i]] {
      ContentsAt(s, i);
    }
    s.dense
  }

  /** Drops every value and every page. */
  function Clear<T>(s: SparseSet<T>): (r: SparseSet<T>)
    ensures Valid(r) && Contents(r) == map[] && r.pages == []
  {
    SparseSet([], [], [])
  }

  /**
    Removes `id` by swap-and-pop: the last dense slot moves into the vacated one
    and the arrays shrink by one. Deleting an absent id changes nothing.
   */
  function Delete<T>(s: SparseSet<T>, id: EntityID): (r: SparseSet<T>)
    requires Valid(s)
    ensures Valid(r)
    ensures Contents(r) == Contents(s) - {id}
    ensures id !in Contents(s) ==> r == s
    ensures id in Contents(s) ==> |r.dense| == |s.dense| - 1
    ensures id in Contents(s) ==>
      GetDenseIndex(s.pages, id).At? && SwapRemoved(s, r, GetDenseIndex(s.pages, id).index)
  {
    StoredIffIndexed(s, id);
    var d := GetDenseIndex(s.pages, id);
    if |s.dense| == 0 || d.Tombstone? then s
    else
      var r := SwapPop(s, id, d.index);
      DeleteContents(s, id, d.index, r);
      r
  }

  /**
    Only slot d changed: it now holds what was the last slot, every other
    surviving slot keeps its owner and value, and the arrays lost one slot.
   */
  ghost predicate SwapRemoved<T>(s: SparseSet<T>, r: SparseSet<T>, d: nat) {
    && |s.ids| == |s.dense| && |r.ids| == |r.dense| == |s.ids| - 1 && d < |s.ids|
    && (forall i :: 0 <= i < |r.ids| && i != d ==> r.ids[i] == s.ids[i] && r.dense[i] == s.dense[i])
    && (d < |r.ids| ==> r.ids[d] == s.ids[|s.ids| - 1] && r.dense[d] == s.dense[|s.dense| - 1])
  }

  /** The arrays and table Delete produces from a valid set whose slot d holds `id`. */
  function SwapPop<T>(s: SparseSet<T>, id: EntityID, d: nat): SparseSet<T>
    requires |s.dense| == |s.ids| && d < |s.ids|
  {
    var last := |s.ids| - 1;
    SparseSet(
      SetDenseIndex(SetDenseIndex(s.pages, s.ids[last], At(d)), id, Tombstone),
      s.dense[d := s.dense[last]][..last],
      s.ids[d := s.ids[last]][..last])
  }

  lemma SwapPopShape<T>(s: SparseSet<T>, id: EntityID, d: nat)
    requires |s.dense| == |s.ids| && d < |s.ids|
    ensures SwapRemoved(s, SwapPop(s, id, d), d)
  {
  }

  lemma SwapPopValid<T>(s: SparseSet<T>, id: EntityID, d: nat)
    requires Valid(s) && d < |s.ids| && s.ids[d] == id
    ensures Valid(SwapPop(s, id, d))
  {
    var r := SwapPop(s, id, d);
    var last := |s.ids| - 1;
    ValidNoDup(s);
    SwapPopShape(s, id, d);
    forall i | 0 <= i < |r.ids|
      ensures GetDenseIndex(r.pages, r.ids[i]) == At(i)
    {
      if i != d {
        assert GetDenseIndex(s.pages, s.ids[i]) == At(i);
      }
    }
    forall x | GetDenseIndex(r.pages, x).At?
      ensures GetDenseIndex(r.pages, x).index < |r.ids| && r.ids[GetDenseIndex(r.pages, x).index] == x
    {
      if x != s.ids[last] {
        var j := GetDenseIndex(s.pages, x).index;
        assert j != last && j != d;
      }
    }
  }

  /** Moving the last element into position d and dropping the tail removes exactly ids[d]. */
  lemma SwapPopIds(ids: seq<EntityID>, d: nat)
    requires NoDup(ids) && d < |ids|
    ensures Elems(ids[d := ids[|ids| - 1]][..|ids| - 1]) == Elems(ids) - {ids[d]}
  {
    var last := |ids| - 1;
    var t := ids[d := ids[last]][..last];
    forall x | x in Elems(ids) && x != ids[d]
      ensures x in Elems(t)
    {
      var j :| 0 <= j < |ids| && ids[j] == x;
      if j == last {
        assert t[d] == x;
      } else {
        assert t[j] == x;
      }
    }
    forall x | x in Elems(t)
      ensures x in Elems(ids) - {ids[d]}
    {
      var j :| 0 <= j < |t| && t[j] == x;
      if j == d {
        assert x == ids[last];
      } else {
        assert x == ids[j];
      }
    }
  }

  lemma SwapPopElems<T>(s: SparseSet<T>, id: EntityID, d: nat)
    requires Valid(s) && d < |s.ids| && s.ids[d] == id
    ensures Elems(SwapPop(s, id, d).ids) == Elems(s.ids) - {id}
  {
    ValidNoDup(s);
    SwapPopIds(s.ids, d);
  }

  /** Swap-and-pop on the parallel arrays removes exactly the pair at position d from their map. */
  lemma PairsSwapPop<T>(ids: seq<EntityID>, vals: seq<T>, d: nat)
    requires |ids| == |vals| && NoDup(ids) && d < |ids|
    ensures var last := |ids| - 1;
      Pairs(ids[d := ids[last]][..last], vals[d := vals[last]][..last]) == Pairs(ids, vals) - {ids[d]}
  {
    var last := |ids| - 1;
    var ids', vals' := ids[d := ids[last]][..last], vals[d := vals[last]][..last];
    SwapPopIds(ids, d);
    PairsKeys(ids, vals);
    PairsKeys(ids', vals');
    assert NoDup(ids') by {
      forall i, j | 0 <= i < j < |ids'|
        ensures ids'[i] != ids'[j]
      {
        if i == d {
          assert ids'[i] == ids[last] && ids'[j] == ids[j];
        } else if j == d {
          assert ids'[i] == ids[i] && ids'[j] == ids[last];
        }
      }
    }
    forall j | 0 <= j < |ids'|
      ensures Pairs(ids', vals')[ids'[j]] == Pairs(ids, vals)[ids'[j]]
    {
      PairsAt(ids', vals', j);
      if j == d {
        PairsAt(ids, vals, last);
      } else {
        PairsAt(ids, vals, j);
      }
    }
  }

  lemma DeleteContents<T>(s: SparseSet<T>, id: EntityID, d: nat, r: SparseSet<T>)
    requires Valid(s) && d < |s.ids| && s.ids[d] == id
    requires r == SwapPop(s, id, d)
    ensures Valid(r) && Contents(r) == Contents(s) - {id}
    ensures SwapRemoved(s, r, d)
  {
    SwapPopShape(s, id, d);
    SwapPopValid(s, id, d);
    ValidNoDup(s);
    PairsSwapPop(s.ids, s.dense, d);
  }

  /** After Set, Get yields the value just stored, and no other id is disturbed. */
  lemma SetThenGet<T>(s: SparseSet<T>, id: EntityID, v: T, other: EntityID)
    requires Valid(s)
    ensures Get(Set(s, id, v), id) == Some(v)
    ensures other != id ==> Get(Set(s, id, v), other) == Get(s, other)
    ensures Size(Set(s, id, v)) == if ContainsEntity(s, id) then Size(s) else Size(s) + 1
  {
    SizeIsCardinality(s);
    SizeIsCardinality(Set(s, id, v));
  }

  /** After Delete, the id is gone, the size shrank by one if it was there, and nobody else moved. */
  lemma DeleteThenGet<T>(s: SparseSet<T>, id: EntityID, other: EntityID)
    requires Valid(s)
    ensures !ContainsEntity(Delete(s, id), id)
    ensures other != id ==> Get(Delete(s, id), other) == Get(s, other)
    ensures Size(Delete(s, id)) == if ContainsEntity(s, id) then Size(s) - 1 else Size(s)
  {
    SizeIsCardinality(s);
    SizeIsCardinality(Delete(s, id));
  }
}
