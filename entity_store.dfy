/** The entity set (EntitySet.cs) as a value: the identity allocator and the
    registry of one column store per property tag, with every facade operation
    as a function (or, where the source leaves a choice open, a relation) from
    the old value to the new one. The `EntitySet` class is proved to follow
    these definitions; the lemmas below state what they guarantee. */
module EntityStore {
  import opened Paging
  import opened Columns

  /** The allocator's high-water mark, the released ids, and the table of every
      registered property tag. */
  datatype Store<Tag(==, !new), V> = Store(lastEntityId: nat, cleared: set<nat>, tables: map<Tag, Table<V>>)

  /** Every registered table has the entity set's geometry. */
  predicate Good<Tag(==, !new), V>(c: Config<V>, s: Store<Tag, V>) {
    && c.capacityStep > 0
    && forall tag :: tag in s.tables ==> WellFormed(c, s.tables[tag])
  }

  /** A new entity set: nothing reserved, nothing released, no table. */
  function Init<Tag(==, !new), V>(): Store<Tag, V> {
    Store(0, {}, map[])
  }

  /** EntitySet.Count: the high-water mark less the released ids. */
  function Count<Tag(==, !new), V>(s: Store<Tag, V>): int {
    s.lastEntityId - |s.cleared|
  }

  /** An id is live when it was issued and is not released. */
  predicate Defined<Tag(==, !new), V>(s: Store<Tag, V>, id: nat) {
    id < s.lastEntityId && id !in s.cleared
  }

  /** The allocator invariant: only issued ids are ever released. */
  predicate Issued<Tag(==, !new), V>(s: Store<Tag, V>) {
    forall x :: x in s.cleared ==> x < s.lastEntityId
  }

  /** The table a tag's operations work on: its registered table, or the empty
      table a new layer would have. */
  function Tab<Tag(==, !new), V>(c: Config<V>, s: Store<Tag, V>, tag: Tag): (t: Table<V>)
    requires Good(c, s)
    ensures WellFormed(c, t)
  {
    if tag in s.tables then s.tables[tag] else Empty(c)
  }

  /** What an id reads for a tag: the slot of the tag's table, unset when the
      tag has no table. */
  function View<Tag(==, !new), V>(c: Config<V>, s: Store<Tag, V>, tag: Tag, id: nat): Property<V>
    requires Good(c, s)
  {
    Slot(c, Tab(c, s, tag), id)
  }

  function Put<Tag(==, !new), V>(s: Store<Tag, V>, tag: Tag, t: Table<V>): Store<Tag, V> {
    s.(tables := s.tables[tag := t])
  }

  /** A second update of a key overrides the first. */
  lemma MapPutTwice<K, X>(m: map<K, X>, k: K, a: X, b: X)
    ensures m[k := a][k := b] == m[k := b]
  {
  }

  function Min(a: int, b: int): int {
    if a <= b then a else b
  }

  /** While only issued ids are released, the count is the number of live
      ids, as EntitySet.Count promises. */
  lemma CountIsLive<Tag(!new), V>(s: Store<Tag, V>)
    requires Issued(s)
    ensures Count(s) == |set x: nat | x < s.lastEntityId && Defined(s, x)|
  {
    var all := Range(0, s.lastEntityId);
    var live := set x: nat | x < s.lastEntityId && Defined(s, x);
    assert live == all - s.cleared;
    assert s.cleared <= all;
    assert all == live + s.cleared && live * s.cleared == {};
  }

  /** The ids from `lo` up to but not including `hi`. */
  function Range(lo: nat, hi: nat): (r: set<nat>)
    ensures forall x :: x in r <==> lo <= x < hi
    ensures lo <= hi ==> |r| == hi - lo
    decreases hi - lo
  {
    if hi <= lo then {} else Range(lo, hi - 1) + {hi - 1}
  }

  // ---- the allocator ----

  /** EntitySet.ReserveEntityId: with no released id, the high-water mark is
      issued and advanced; otherwise some released id (the source takes
      whichever the hash set enumerates last) is taken back out of the set. */
  ghost predicate Reserved<Tag(!new), V>(s: Store<Tag, V>, s': Store<Tag, V>, id: nat) {
    && s'.tables == s.tables
    && if s.cleared == {} then
         id == s.lastEntityId && s'.lastEntityId == s.lastEntityId + 1 && s'.cleared == {}
       else
         id in s.cleared && s'.cleared == s.cleared - {id} && s'.lastEntityId == s.lastEntityId
  }

  /** A reserved id was not live and is live afterwards; every other id keeps
      its status, the count grows by one and the allocator invariant is kept. */
  lemma ReserveIssuesFresh<Tag(!new), V>(s: Store<Tag, V>, s': Store<Tag, V>, id: nat)
    requires Issued(s) && Reserved(s, s', id)
    ensures !Defined(s, id) && Defined(s', id)
    ensures forall x :: x != id ==> (Defined(s', x) <==> Defined(s, x))
    ensures Count(s') == Count(s) + 1
    ensures Issued(s')
  {
    if s.cleared != {} {
      assert s.cleared == s'.cleared + {id};
    }
  }

  /** The first id a new entity set issues is 0. */
  lemma FirstIdIsZero<Tag(!new), V>(s': Store<Tag, V>, id: nat)
    requires Reserved(Init<Tag, V>(), s', id)
    ensures id == 0 && Count(s') == 1
  {
  }

  /** EntitySet.ReserveEntityIds: `count` distinct ids (none for a negative
      count). The first loop takes released ids until either runs out; the
      second issues the high-water mark, advancing it, until `count` ids are
      held. An issued mark that is already held (a released id that was never
      issued) is skipped, so the mark stops just past the last id it added. */
  ghost predicate ReservedMany<Tag(!new), V>(s: Store<Tag, V>, s': Store<Tag, V>, count: int, ids: set<nat>) {
    var n := if count < 0 then 0 else count;
    var taken := s.cleared - s'.cleared;
    && s'.tables == s.tables
    && s'.cleared <= s.cleared
    && |taken| == Min(n, |s.cleared|)
    && |ids| == n
    && taken <= ids
    && ids * s.cleared == taken
    && s.lastEntityId <= s'.lastEntityId
    && (forall x :: x in ids - taken ==> s.lastEntityId <= x < s'.lastEntityId)
    && (forall x :: s.lastEntityId <= x < s'.lastEntityId ==> x in ids)
    && (s'.lastEntityId > s.lastEntityId ==> s'.lastEntityId - 1 !in s.cleared)
  }

  /** Under the allocator invariant, a batch reservation takes
      `min(count, |cleared|)` released ids and issues the rest as the
      contiguous run starting at the old high-water mark; none of the ids was
      live before, all are live after, and the count grows by `count`. */
  lemma ReservedManyContiguous<Tag(!new), V>(s: Store<Tag, V>, s': Store<Tag, V>, count: nat, ids: set<nat>)
    requires Issued(s) && ReservedMany(s, s', count, ids)
    ensures ids - (s.cleared - s'.cleared) == Range(s.lastEntityId, s'.lastEntityId)
    ensures s'.lastEntityId == s.lastEntityId + count - Min(count, |s.cleared|)
    ensures forall x :: x in ids ==> !Defined(s, x) && Defined(s', x)
    ensures forall x :: x !in ids ==> (Defined(s', x) <==> Defined(s, x))
    ensures Count(s') == Count(s) + count
    ensures Issued(s')
  {
    ReservedManyCounts(s, s', count, ids);
    ReservedManyLiveness(s, s', count, ids);
  }

  /** The sizes in a batch reservation under the allocator invariant: the
      minted ids are the run from the old mark to the new one, and the count
      grows by `count`. */
  lemma ReservedManyCounts<Tag(!new), V>(s: Store<Tag, V>, s': Store<Tag, V>, count: nat, ids: set<nat>)
    requires Issued(s) && ReservedMany(s, s', count, ids)
    ensures ids - (s.cleared - s'.cleared) == Range(s.lastEntityId, s'.lastEntityId)
    ensures s'.lastEntityId == s.lastEntityId + count - Min(count, |s.cleared|)
    ensures Count(s') == Count(s) + count
  {
    var taken := s.cleared - s'.cleared;
    var minted := ids - taken;
    assert minted == Range(s.lastEntityId, s'.lastEntityId);
    assert ids == taken + minted && taken !! minted;
    assert |ids| == |taken| + |minted|;
    assert s.cleared == s'.cleared + taken && s'.cleared !! taken;
    assert |s.cleared| == |s'.cleared| + |taken|;
  }

  /** Liveness in a batch reservation under the allocator invariant: exactly
      the reserved ids change status, from not live to live. */
  lemma ReservedManyLiveness<Tag(!new), V>(s: Store<Tag, V>, s': Store<Tag, V>, count: nat, ids: set<nat>)
    requires Issued(s) && ReservedMany(s, s', count, ids)
    ensures forall x :: x in ids ==> !Defined(s, x) && Defined(s', x)
    ensures forall x :: x !in ids ==> (Defined(s', x) <==> Defined(s, x))
    ensures Issued(s')
  {
    var taken := s.cleared - s'.cleared;
    forall x | x in ids ensures !Defined(s, x) && Defined(s', x) {
      if x !in taken {
        assert x in ids - taken;
        assert x !in s'.cleared;
      }
    }
  }

  // ---- the facade ----

  /** EntitySet.Get: fails with EntityUndefined for an id that is not live;
      otherwise registers the tag's layer if it is absent and reads the slot
      through the layer (which may still fail for an id past the capacity). */
  function Get<Tag(==, !new), V>(c: Config<V>, s: Store<Tag, V>, tag: Tag, id: nat): (r: (Store<Tag, V>, Result<V>))
    requires Good(c, s)
    ensures Good(c, r.0)
    ensures r.1 == Err(EntityUndefined) <==> !Defined(s, id)
    ensures r.1.Ok? <==> Defined(s, id) && id < Capacity(c)
    ensures r.1.Ok? ==> r.1.value == View(c, s, tag, id).value
    ensures r.0.lastEntityId == s.lastEntityId && r.0.cleared == s.cleared
    ensures forall tg, x: nat :: View(c, r.0, tg, x) == View(c, s, tg, x)
    ensures !Defined(s, id) ==> r.0 == s
    ensures Defined(s, id) ==> r.0.tables.Keys == s.tables.Keys + {tag}
  {
    if !Defined(s, id) then (s, Err(EntityUndefined))
    else
      var (t, v) := Columns.Get(c, Tab(c, s, tag), id);
      (Put(s, tag, t), v)
  }

  /** EntitySet.Has: the id's flag for the tag; false when the tag has no layer.
      The source forwards to Layer.IsSet, which fails for an id past the
      capacity. */
  function Has<Tag(==, !new), V>(c: Config<V>, s: Store<Tag, V>, tag: Tag, id: nat): (r: Result<bool>)
    requires Good(c, s)
    ensures tag !in s.tables ==> r == Ok(false)
    ensures r.Err? <==> tag in s.tables && id >= Capacity(c)
    ensures r.Ok? ==> r.value == View(c, s, tag, id).isSet
  {
    if tag in s.tables then Columns.IsSet(c, s.tables[tag], id) else Ok(false)
  }

  /** EntitySet.Mutate: registers the layer if absent and updates the slot. It
      does not check that the id is live. */
  function Mutate<Tag(==, !new), V>(c: Config<V>, s: Store<Tag, V>, tag: Tag, id: nat, f: Option<UpdateRef<V>>): (r: (Store<Tag, V>, Outcome))
    requires Good(c, s)
    ensures Good(c, r.0)
    ensures r.0.tables.Keys == s.tables.Keys + {tag}
    ensures r.1.Done? <==> id < Capacity(c)
    ensures r.1.Done? ==> View(c, r.0, tag, id) == Property(true, Apply(f, id, View(c, s, tag, id).value))
    ensures forall tg, x: nat :: tg != tag || x != id ==> View(c, r.0, tg, x) == View(c, s, tg, x)
    ensures r.0.lastEntityId == s.lastEntityId && r.0.cleared == s.cleared
  {
    var (t, o) := Columns.Update(c, Tab(c, s, tag), id, f);
    (Put(s, tag, t), o)
  }

  /** EntitySet.MutateAllSet: UpdateSet on the tag's layer; nothing at all when
      the tag has no layer. */
  function MutateAllSet<Tag(==, !new), V>(c: Config<V>, s: Store<Tag, V>, tag: Tag, f: UpdateRef<V>): (r: Store<Tag, V>)
    requires Good(c, s)
    ensures Good(c, r)
    ensures tag !in s.tables ==> r == s
    ensures r.tables.Keys == s.tables.Keys
    ensures r.lastEntityId == s.lastEntityId && r.cleared == s.cleared
  {
    if tag in s.tables then Put(s, tag, UpdateAllSet(c, s.tables[tag], f)) else s
  }

  /** EntitySet.QueryEntitiesWith: the set ids of the tag, ascending; none
      when the tag has no layer. MutateAllSetWith also visits the ids this
      query gives for its `with` tag. */
  function QueryEntitiesWith<Tag(==, !new), V>(c: Config<V>, s: Store<Tag, V>, tag: Tag): (ids: seq<nat>)
    requires Good(c, s)
    ensures forall x: nat :: x in ids <==> View(c, s, tag, x).isSet
    ensures forall i, j :: 0 <= i < j < |ids| ==> ids[i] < ids[j]
  {
    if tag in s.tables then
      QuerySetExact(c, s.tables[tag]);
      QuerySet(c, s.tables[tag])
    else
      EmptyHasNothingSet(c);
      []
  }

  /** EntitySet.MutateAllSetWith: UpdateIfSet on the tag's layer (registered if
      absent) for each set id of the `with` tag, in ascending order. */
  function MutateAllSetWith<Tag(==, !new), V>(c: Config<V>, s: Store<Tag, V>, tag: Tag, with: Tag, f: Option<UpdateRef<V>>): (r: (Store<Tag, V>, Outcome))
    requires Good(c, s)
    ensures Good(c, r.0)
    ensures r.0.tables.Keys == s.tables.Keys + {tag}
    ensures r.0.lastEntityId == s.lastEntityId && r.0.cleared == s.cleared
  {
    var (t, o) := UpdateIfSetEach(c, Tab(c, s, tag), QueryEntitiesWith(c, s, with), f);
    (Put(s, tag, t), o)
  }

  /** EntitySet.MutateSet: UpdateIfSet on the tag's layer (registered if absent)
      for each listed id in turn; an id past the capacity stops the pass. */
  function MutateSet<Tag(==, !new), V>(c: Config<V>, s: Store<Tag, V>, tag: Tag, ids: seq<nat>, f: Option<UpdateRef<V>>): (r: (Store<Tag, V>, Outcome))
    requires Good(c, s)
    ensures Good(c, r.0)
    ensures r.0.tables.Keys == s.tables.Keys + {tag}
    ensures r.0.lastEntityId == s.lastEntityId && r.0.cleared == s.cleared
  {
    var (t, o) := UpdateIfSetEach(c, Tab(c, s, tag), ids, f);
    (Put(s, tag, t), o)
  }

  /** EntitySet.Mutate over a list: Update on the tag's layer (registered if
      absent) for each listed id in turn; an id past the capacity stops it. */
  function MutateEach<Tag(==, !new), V>(c: Config<V>, s: Store<Tag, V>, tag: Tag, ids: seq<nat>, f: Option<UpdateRef<V>>): (r: (Store<Tag, V>, Outcome))
    requires Good(c, s)
    ensures Good(c, r.0)
    ensures r.0.tables.Keys == s.tables.Keys + {tag}
    ensures r.0.lastEntityId == s.lastEntityId && r.0.cleared == s.cleared
  {
    var (t, o) := UpdateEach(c, Tab(c, s, tag), ids, f);
    (Put(s, tag, t), o)
  }

  /** EntitySet.Clear(id): release the id, then MarkUnset it in every layer.
      Every layer has the same geometry, so an id past the capacity fails in
      the first layer visited, before any layer changed. */
  function ClearEntity<Tag(==, !new), V>(c: Config<V>, s: Store<Tag, V>, id: nat): (r: (Store<Tag, V>, Outcome))
    requires Good(c, s)
    ensures Good(c, r.0)
    ensures r.0.cleared == s.cleared + {id} && r.0.lastEntityId == s.lastEntityId
    ensures r.0.tables.Keys == s.tables.Keys
    ensures r.1.Failed? <==> s.tables != map[] && id >= Capacity(c)
    ensures id >= Capacity(c) ==> r.0.tables == s.tables
    ensures Count(r.0) == Count(s) - (if id in s.cleared then 0 else 1)
    ensures forall tg, x: nat :: View(c, r.0, tg, x) ==
              if x == id then View(c, s, tg, x).(isSet := false) else View(c, s, tg, x)
  {
    var tables := map tg | tg in s.tables :: MarkUnset(c, s.tables[tg], id).0;
    var o := if s.tables == map[] || id < Capacity(c) then Done
             else Failed(Locate(c.layerCount, c.capacityStep, id).fault);
    assert id !in s.cleared ==> |s.cleared + {id}| == |s.cleared| + 1;
    assert id in s.cleared ==> s.cleared + {id} == s.cleared;
    assert id >= Capacity(c) ==> tables == s.tables;
    (Store(s.lastEntityId, s.cleared + {id}, tables), o)
  }

  /** ClearEntity spelled out: the released set grows by the id and every
      table is MarkUnset at it. */
  lemma ClearEntityUnfold<Tag(!new), V>(c: Config<V>, s: Store<Tag, V>, id: nat, tables: map<Tag, Table<V>>, o: Outcome)
    requires Good(c, s)
    requires tables == Swept(c, s.tables, {}, id)
    requires o == if s.tables == map[] || id < Capacity(c) then Done
                  else Failed(Locate(c.layerCount, c.capacityStep, id).fault)
    ensures ClearEntity(c, s, id) == (Store(s.lastEntityId, s.cleared + {id}, tables), o)
  {
    assert tables == map tg | tg in s.tables :: MarkUnset(c, s.tables[tg], id).0;
  }

  /** The tables part-way through the loop of EntitySet.Clear(id): the layers
      still `pending` untouched, the others MarkUnset at the id. */
  ghost function Swept<Tag(!new), V>(c: Config<V>, t: map<Tag, Table<V>>, pending: set<Tag>, id: nat): map<Tag, Table<V>>
    requires forall tg :: tg in t ==> WellFormed(c, t[tg])
  {
    map tg | tg in t :: if tg in pending then t[tg] else MarkUnset(c, t[tg], id).0
  }

  /** Before the loop nothing is swept; visiting one more layer sweeps it. */
  lemma SweptStart<Tag(!new), V>(c: Config<V>, t: map<Tag, Table<V>>, id: nat)
    requires forall tg :: tg in t ==> WellFormed(c, t[tg])
    ensures Swept(c, t, t.Keys, id) == t
  {
  }

  lemma SweptStep<Tag(!new), V>(c: Config<V>, t: map<Tag, Table<V>>, pending: set<Tag>, tag: Tag, id: nat)
    requires forall tg :: tg in t ==> WellFormed(c, t[tg])
    requires tag in pending && tag in t
    ensures Swept(c, t, pending, id)[tag := MarkUnset(c, t[tag], id).0] == Swept(c, t, pending - {tag}, id)
  {
  }

  /** An id past the capacity sweeps nothing, whatever is left pending. */
  lemma SweptOutOfRange<Tag(!new), V>(c: Config<V>, t: map<Tag, Table<V>>, pending: set<Tag>, id: nat)
    requires forall tg :: tg in t ==> WellFormed(c, t[tg])
    requires id >= Capacity(c)
    ensures Swept(c, t, pending, id) == Swept(c, t, {}, id) == t
  {
  }

  /** The tables part-way through the loop of EntitySet.Clear(ids), while no
      layer has failed: the layers still `pending` untouched, the others
      with the ids unset one by one. */
  ghost function SweptEach<Tag(!new), V>(c: Config<V>, t: map<Tag, Table<V>>, pending: set<Tag>, ids: seq<nat>): map<Tag, Table<V>>
    requires forall tg :: tg in t ==> WellFormed(c, t[tg])
  {
    map tg | tg in t :: if tg in pending then t[tg] else MarkUnsetEach(c, t[tg], ids).0
  }

  lemma SweptEachStart<Tag(!new), V>(c: Config<V>, t: map<Tag, Table<V>>, ids: seq<nat>)
    requires forall tg :: tg in t ==> WellFormed(c, t[tg])
    ensures SweptEach(c, t, t.Keys, ids) == t
  {
  }

  lemma SweptEachStep<Tag(!new), V>(c: Config<V>, t: map<Tag, Table<V>>, pending: set<Tag>, tag: Tag, ids: seq<nat>)
    requires forall tg :: tg in t ==> WellFormed(c, t[tg])
    requires tag in pending && tag in t
    ensures SweptEach(c, t, pending, ids)[tag := MarkUnsetEach(c, t[tag], ids).0] == SweptEach(c, t, pending - {tag}, ids)
  {
  }

  lemma SweptEachEnd<Tag(!new), V>(c: Config<V>, t: map<Tag, Table<V>>, ids: seq<nat>)
    requires forall tg :: tg in t ==> WellFormed(c, t[tg])
    ensures SweptEach(c, t, {}, ids) == map tg | tg in t :: MarkUnsetEach(c, t[tg], ids).0
  {
  }

  /** EntitySet.Clear(ids) with the bulk MarkUnset as evidently intended: the
      ids are all released, then each layer in turn unsets them one by one. An
      id past the capacity stops the first layer visited (whichever the
      dictionary enumerates first) part-way and leaves the others untouched. */
  ghost predicate ClearedMany<Tag(!new), V>(c: Config<V>, s: Store<Tag, V>, ids: seq<nat>, s': Store<Tag, V>, o: Outcome)
    requires Good(c, s)
  {
    && s'.lastEntityId == s.lastEntityId
    && s'.cleared == s.cleared + (set x | x in ids)
    && (o.Done? ==> && s'.tables == (map tg | tg in s.tables :: MarkUnsetEach(c, s.tables[tg], ids).0)
                    && forall tg :: tg in s.tables ==> MarkUnsetEach(c, s.tables[tg], ids).1 == Done)
    && (o.Failed? ==>
          exists tg :: (tg in s.tables &&
                        s'.tables == s.tables[tg := MarkUnsetEach(c, s.tables[tg], ids).0] &&
                        o == MarkUnsetEach(c, s.tables[tg], ids).1))
  }

  /** EntitySet.Clear<T>(id): MarkUnset in the tag's layer only; nothing when
      the tag has no layer. The id stays reserved. */
  function ClearProperty<Tag(==, !new), V>(c: Config<V>, s: Store<Tag, V>, tag: Tag, id: nat): (r: (Store<Tag, V>, Outcome))
    requires Good(c, s)
    ensures Good(c, r.0)
    ensures r.0.lastEntityId == s.lastEntityId && r.0.cleared == s.cleared
    ensures r.0.tables.Keys == s.tables.Keys
    ensures r.1.Failed? <==> tag in s.tables && id >= Capacity(c)
    ensures !View(c, r.0, tag, id).isSet
    ensures forall tg, x: nat :: View(c, r.0, tg, x) ==
              if tg == tag && x == id then View(c, s, tg, x).(isSet := false) else View(c, s, tg, x)
  {
    if tag in s.tables then
      var (t, o) := MarkUnset(c, s.tables[tag], id);
      (Put(s, tag, t), o)
    else
      EmptyHasNothingSet(c);
      (s, Done)
  }
}
