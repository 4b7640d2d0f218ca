/** What the entity set guarantees across operations: the laws its facade
    keeps, and the scenarios of its test suite (EntityTests.cs) stated for
    every geometry rather than for one. */
module EntityLaws {
  import opened Paging
  import opened Columns
  import opened EntityStore

  /** An id whose flag is set for some tag lies inside the page table. */
  lemma SetIsAddressable<V>(c: Config<V>, t: Table<V>, x: nat)
    requires WellFormed(c, t) && Slot(c, t, x).isSet
    ensures x < Capacity(c)
  {
  }

  // ---- counting ----

  /** A new entity set counts no entity and has no live id. */
  lemma InitIsEmpty<Tag(!new), V>()
    ensures Count(Init<Tag, V>()) == 0 && Issued(Init<Tag, V>())
    ensures forall x: nat :: !Defined(Init<Tag, V>(), x)
  {
  }

  /** The Count test: two reservations count 2; clearing them one after the
      other counts 1, then 0. */
  lemma CountScenario<Tag(!new), V>(c: Config<V>, s1: Store<Tag, V>, a: nat, s2: Store<Tag, V>, b: nat)
    requires c.capacityStep > 0
    requires Reserved(Init(), s1, a) && Reserved(s1, s2, b)
    ensures Count(s2) == 2
    ensures Count(ClearEntity(c, s2, a).0) == 1
    ensures Count(ClearEntity(c, ClearEntity(c, s2, a).0, b).0) == 0
  {
    ReserveIssuesFresh(Init<Tag, V>(), s1, a);
    ReserveIssuesFresh(s1, s2, b);
    assert a == 0 && b == 1;
  }

  // ---- reading ----

  /** The DefaultOnGet test: a live id read for a tag that has no layer yet
      reads the default value, and the tag's layer is registered. */
  lemma GetUnwrittenIsDefault<Tag(!new), V>(c: Config<V>, s: Store<Tag, V>, tag: Tag, id: nat)
    requires Good(c, s) && Defined(s, id) && id < Capacity(c)
    requires tag !in s.tables
    ensures EntityStore.Get(c, s, tag, id).1 == Ok(c.zero)
    ensures tag in EntityStore.Get(c, s, tag, id).0.tables
  {
    EmptyHasNothingSet(c);
  }

  /** Has and QueryEntitiesWith agree: an id is reported set for a tag
      exactly when the tag's query lists it. */
  lemma HasAgreesWithQuery<Tag(!new), V>(c: Config<V>, s: Store<Tag, V>, tag: Tag, x: nat)
    requires Good(c, s)
    ensures Has(c, s, tag, x) == Ok(true) <==> x in QueryEntitiesWith(c, s, tag)
  {
    if View(c, s, tag, x).isSet {
      SetIsAddressable(c, Tab(c, s, tag), x);
    }
  }

  // ---- Mutate ----

  /** The Has and Value tests: after Mutate the id is set for the tag and
      reads the callback's result (or the old value without a callback);
      the id's flags for the other tags and the count do not change. */
  lemma MutateThenRead<Tag(!new), V>(c: Config<V>, s: Store<Tag, V>, tag: Tag, id: nat, f: Option<UpdateRef<V>>)
    requires Good(c, s) && id < Capacity(c)
    ensures Has(c, Mutate(c, s, tag, id, f).0, tag, id) == Ok(true)
    ensures Defined(s, id) ==>
              EntityStore.Get(c, Mutate(c, s, tag, id, f).0, tag, id).1 == Ok(Apply(f, id, View(c, s, tag, id).value))
    ensures forall tg :: tg != tag ==> Has(c, Mutate(c, s, tag, id, f).0, tg, id) == Has(c, s, tg, id)
    ensures Count(Mutate(c, s, tag, id, f).0) == Count(s)
  {
    var s' := Mutate(c, s, tag, id, f).0;
    forall tg | tg != tag
      ensures Has(c, s', tg, id) == Has(c, s, tg, id)
    {
      assert tg in s'.tables <==> tg in s.tables;
      if tg in s.tables {
        assert s'.tables[tg] == s.tables[tg];
      }
    }
  }

  /** Mutate over a list of distinct addressable ids marks each of them set
      and applies the callback to each once; no other id and no other tag
      changes. */
  lemma MutateEachEffect<Tag(!new), V>(c: Config<V>, s: Store<Tag, V>, tag: Tag, ids: seq<nat>, f: Option<UpdateRef<V>>)
    requires Good(c, s)
    requires forall i :: 0 <= i < |ids| ==> ids[i] < Capacity(c)
    requires forall i, j :: 0 <= i < j < |ids| ==> ids[i] != ids[j]
    ensures MutateEach(c, s, tag, ids, f).1 == Done
    ensures forall x: nat :: View(c, MutateEach(c, s, tag, ids, f).0, tag, x) ==
              if x in ids then Property(true, Apply(f, x, View(c, s, tag, x).value)) else View(c, s, tag, x)
    ensures forall tg, x: nat :: tg != tag ==> View(c, MutateEach(c, s, tag, ids, f).0, tg, x) == View(c, s, tg, x)
  {
    UpdateEachEffect(c, Tab(c, s, tag), ids, f);
  }

  /** Mutate over any list fails exactly when some listed id is past the
      capacity; whatever the list, no other tag and no unlisted id changes,
      and no flag of the tag is cleared. */
  lemma MutateEachFrame<Tag(!new), V>(c: Config<V>, s: Store<Tag, V>, tag: Tag, ids: seq<nat>, f: Option<UpdateRef<V>>)
    requires Good(c, s)
    ensures MutateEach(c, s, tag, ids, f).1.Failed? <==> exists i :: 0 <= i < |ids| && ids[i] >= Capacity(c)
    ensures forall x: nat :: x !in ids ==> View(c, MutateEach(c, s, tag, ids, f).0, tag, x) == View(c, s, tag, x)
    ensures forall x: nat :: View(c, s, tag, x).isSet ==> View(c, MutateEach(c, s, tag, ids, f).0, tag, x).isSet
    ensures forall tg, x: nat :: tg != tag ==> View(c, MutateEach(c, s, tag, ids, f).0, tg, x) == View(c, s, tg, x)
  {
    UpdateEachFailure(c, Tab(c, s, tag), ids, f);
    UpdateEachFrame(c, Tab(c, s, tag), ids, f);
  }

  // ---- MutateAllSet ----

  /** MutateAllSet applies the callback once to each id set for the tag and
      leaves unset ids, flags and every other tag as they were; a tag without
      a layer is left alone. */
  lemma MutateAllSetEffect<Tag(!new), V>(c: Config<V>, s: Store<Tag, V>, tag: Tag, f: UpdateRef<V>)
    requires Good(c, s)
    ensures forall x: nat :: View(c, MutateAllSet(c, s, tag, f), tag, x) ==
              if View(c, s, tag, x).isSet then Property(true, f(x, View(c, s, tag, x).value))
              else View(c, s, tag, x)
    ensures forall tg, x: nat :: tg != tag ==> View(c, MutateAllSet(c, s, tag, f), tg, x) == View(c, s, tg, x)
  {
    if tag in s.tables {
      forall x: nat
        ensures View(c, MutateAllSet(c, s, tag, f), tag, x) ==
                if View(c, s, tag, x).isSet then Property(true, f(x, View(c, s, tag, x).value))
                else View(c, s, tag, x)
      {
        UpdateAllSetSlot(c, s.tables[tag], f, x);
      }
    } else {
      EmptyHasNothingSet(c);
    }
  }

  /** `n` MutateAllSet passes with the same callback. */
  function MutateAllSetTimes<Tag(==, !new), V>(c: Config<V>, s: Store<Tag, V>, tag: Tag, f: UpdateRef<V>, n: nat): (r: Store<Tag, V>)
    requires Good(c, s)
    ensures Good(c, r)
    ensures r.lastEntityId == s.lastEntityId && r.cleared == s.cleared
    decreases n
  {
    if n == 0 then s else MutateAllSetTimes(c, MutateAllSet(c, s, tag, f), tag, f, n - 1)
  }

  /** The callback of the MutateAll test: add one. */
  function Increment(id: nat, v: int): int {
    v + 1
  }

  /** `n` increment passes add `n` to every set id and keep it set. */
  lemma {:induction false} RepeatedIncrement<Tag(!new)>(c: Config<int>, s: Store<Tag, int>, tag: Tag, x: nat, n: nat)
    requires Good(c, s) && View(c, s, tag, x).isSet
    ensures View(c, MutateAllSetTimes(c, s, tag, Increment, n), tag, x) ==
              Property(true, View(c, s, tag, x).value + n)
    decreases n
  {
    if n > 0 {
      MutateAllSetEffect(c, s, tag, Increment);
      RepeatedIncrement(c, MutateAllSet(c, s, tag, Increment), tag, x, n - 1);
    }
  }

  /** The MutateAll test: the first id, written with `write`, then five
      increment passes, reads the written value plus five. */
  lemma FiveIncrementPasses<Tag(!new)>(c: Config<int>, tag: Tag, s1: Store<Tag, int>, id: nat, write: UpdateRef<int>)
    requires c.capacityStep > 0 && c.layerCount > 0
    requires Reserved(Init(), s1, id)
    ensures EntityStore.Get(c, MutateAllSetTimes(c, Mutate(c, s1, tag, id, Some(write)).0, tag, Increment, 5), tag, id).1 ==
              Ok(write(id, c.zero) + 5)
  {
    MulAtLeast(c.layerCount, c.capacityStep);
    assert id == 0 && id < Capacity(c);
    EmptyHasNothingSet(c);
    var s2 := Mutate(c, s1, tag, id, Some(write)).0;
    RepeatedIncrement(c, s2, tag, id, 5);
  }

  // ---- MutateSet and MutateAllSetWith ----

  /** MutateSet never marks an id present, never touches an id outside the
      list or one not set for the tag, and changes no other tag; it fails
      exactly when some listed id is past the capacity. */
  lemma MutateSetFrame<Tag(!new), V>(c: Config<V>, s: Store<Tag, V>, tag: Tag, ids: seq<nat>, f: Option<UpdateRef<V>>)
    requires Good(c, s)
    ensures forall x: nat :: View(c, MutateSet(c, s, tag, ids, f).0, tag, x).isSet == View(c, s, tag, x).isSet
    ensures forall x: nat :: x !in ids || !View(c, s, tag, x).isSet ==>
              View(c, MutateSet(c, s, tag, ids, f).0, tag, x) == View(c, s, tag, x)
    ensures forall tg, x: nat :: tg != tag ==> View(c, MutateSet(c, s, tag, ids, f).0, tg, x) == View(c, s, tg, x)
    ensures MutateSet(c, s, tag, ids, f).1.Failed? <==> exists i :: 0 <= i < |ids| && ids[i] >= Capacity(c)
  {
    UpdateIfSetEachFrame(c, Tab(c, s, tag), ids, f);
    UpdateIfSetEachFailure(c, Tab(c, s, tag), ids, f);
  }

  /** MutateSet over distinct addressable ids completes and applies the
      callback once to each listed id that is set for the tag. */
  lemma MutateSetEffect<Tag(!new), V>(c: Config<V>, s: Store<Tag, V>, tag: Tag, ids: seq<nat>, f: Option<UpdateRef<V>>)
    requires Good(c, s)
    requires forall i :: 0 <= i < |ids| ==> ids[i] < Capacity(c)
    requires forall i, j :: 0 <= i < j < |ids| ==> ids[i] != ids[j]
    ensures MutateSet(c, s, tag, ids, f).1 == Done
    ensures forall x: nat :: View(c, MutateSet(c, s, tag, ids, f).0, tag, x) ==
              if x in ids && View(c, s, tag, x).isSet then Property(true, Apply(f, x, View(c, s, tag, x).value))
              else View(c, s, tag, x)
  {
    UpdateIfSetEachEffect(c, Tab(c, s, tag), ids, f);
  }

  /** MutateAllSetWith always completes, and updates the tag exactly at the
      ids set both for the `with` tag and for the tag itself, once each. */
  lemma MutateAllSetWithEffect<Tag(!new), V>(c: Config<V>, s: Store<Tag, V>, tag: Tag, with: Tag, f: Option<UpdateRef<V>>)
    requires Good(c, s)
    ensures MutateAllSetWith(c, s, tag, with, f).1 == Done
    ensures forall x: nat :: View(c, MutateAllSetWith(c, s, tag, with, f).0, tag, x) ==
              if View(c, s, with, x).isSet && View(c, s, tag, x).isSet
              then Property(true, Apply(f, x, View(c, s, tag, x).value))
              else View(c, s, tag, x)
    ensures forall tg, x: nat :: tg != tag ==>
              View(c, MutateAllSetWith(c, s, tag, with, f).0, tg, x) == View(c, s, tg, x)
  {
    var ids := QueryEntitiesWith(c, s, with);
    forall i | 0 <= i < |ids| ensures ids[i] < Capacity(c) {
      assert ids[i] in ids;
      SetIsAddressable(c, Tab(c, s, with), ids[i]);
    }
    UpdateIfSetEachEffect(c, Tab(c, s, tag), ids, f);
    UpdateIfSetEachFrame(c, Tab(c, s, tag), ids, f);
  }

  /** The MarkerProperty and MarkerPropertyQuery tests: an id marked with a
      marker tag and given a health value, then one MutateAllSetWith pass of
      health over the marker (or, the same thing, one MutateSet pass of health
      over the marker's query), reads the health value plus one. */
  lemma MarkerPropertyScenario<Tag(!new)>(c: Config<int>, marker: Tag, health: Tag, s1: Store<Tag, int>,
                                         id: nat, setHealth: UpdateRef<int>)
    requires c.capacityStep > 0 && c.layerCount > 0 && marker != health
    requires Reserved(Init(), s1, id)
    ensures var s3 := Mutate(c, Mutate(c, s1, marker, id, None).0, health, id, Some(setHealth)).0;
            && MutateSet(c, s3, health, QueryEntitiesWith(c, s3, marker), Some(Increment)) ==
               MutateAllSetWith(c, s3, health, marker, Some(Increment))
            && EntityStore.Get(c, MutateAllSetWith(c, s3, health, marker, Some(Increment)).0, health, id).1 ==
               Ok(setHealth(id, c.zero) + 1)
  {
    MulAtLeast(c.layerCount, c.capacityStep);
    assert id == 0 && id < Capacity(c);
    EmptyHasNothingSet(c);
    var s3 := Mutate(c, Mutate(c, s1, marker, id, None).0, health, id, Some(setHealth)).0;
    MutateAllSetWithEffect(c, s3, health, marker, Some(Increment));
  }

  // ---- Clear ----

  /** Clear(id) of an addressable id: Get then fails with EntityUndefined,
      no tag reports the id set, the stored values stay, and the count drops
      by one unless the id was already released. */
  lemma ClearEntityEffect<Tag(!new), V>(c: Config<V>, s: Store<Tag, V>, id: nat, tag: Tag)
    requires Good(c, s) && id < Capacity(c)
    ensures ClearEntity(c, s, id).1 == Done
    ensures EntityStore.Get(c, ClearEntity(c, s, id).0, tag, id).1 == Err(EntityUndefined)
    ensures Has(c, ClearEntity(c, s, id).0, tag, id) == Ok(false)
    ensures View(c, ClearEntity(c, s, id).0, tag, id).value == View(c, s, tag, id).value
    ensures Issued(s) && id < s.lastEntityId ==>
              Issued(ClearEntity(c, s, id).0) &&
              Count(ClearEntity(c, s, id).0) == Count(s) - (if Defined(s, id) then 1 else 0)
  {
  }

  /** The UndefineEntity test: with nothing released before, the next
      reservation after Clear(id) hands the same id back, and the count is
      as it was before the clear. */
  lemma ClearThenReserveRecycles<Tag(!new), V>(c: Config<V>, s: Store<Tag, V>, id: nat, s': Store<Tag, V>, r: nat)
    requires Good(c, s) && s.cleared == {}
    requires Reserved(ClearEntity(c, s, id).0, s', r)
    ensures r == id && Defined(s', id) == (id < s.lastEntityId)
    ensures Count(s') == Count(s)
  {
  }

  /** Get checks only the allocator: a recycled id reads the value its
      previous holder left, although no tag reports it set. */
  lemma RecycledIdReadsStaleValue<Tag(!new), V>(c: Config<V>, s: Store<Tag, V>, tag: Tag, id: nat,
                                                f: Option<UpdateRef<V>>, s': Store<Tag, V>, r: nat)
    requires Good(c, s) && Defined(s, id) && id < Capacity(c) && s.cleared == {}
    requires Reserved(ClearEntity(c, Mutate(c, s, tag, id, f).0, id).0, s', r)
    ensures r == id && Defined(s', id)
    ensures Has(c, s', tag, id) == Ok(false)
    ensures EntityStore.Get(c, s', tag, id).1 == Ok(Apply(f, id, View(c, s, tag, id).value))
  {
    var s1 := Mutate(c, s, tag, id, f).0;
    assert View(c, s1, tag, id).value == Apply(f, id, View(c, s, tag, id).value);
  }

  /** Clear(id) does not check that the id was ever issued: on a new entity
      set, clearing id 0 makes the count -1, and the next two reservations
      both hand out id 0. */
  lemma ClearOfUnissuedId<Tag(!new), V>(c: Config<V>, s1: Store<Tag, V>, a: nat, s2: Store<Tag, V>, b: nat)
    requires c.capacityStep > 0
    requires Reserved(ClearEntity(c, Init(), 0).0, s1, a) && Reserved(s1, s2, b)
    ensures Count(ClearEntity(c, Init<Tag, V>(), 0).0) == -1
    ensures a == 0 && b == 0 && Defined(s2, 0)
  {
  }

  /** After a Clear of the never-issued id 1 in a new entity set, reserving
      two ids takes 1 back and issues 0, skips the held mark 1 and stops there:
      the mark ends at 1 and the count reads 1 with two ids reserved. */
  lemma ReserveManyAfterUnissuedClear<Tag(!new), V>(s': Store<Tag, V>, ids: set<nat>)
    requires ReservedMany(Store(0, {1}, map[]), s', 2, ids)
    ensures ids == {0, 1} && s'.lastEntityId == 1 && s'.cleared == {}
    ensures Count(s') == 1
  {
    var taken := {1} - s'.cleared;
    assert taken == {1};
    assert ids == taken + (ids - taken);
    var x :| x in ids - taken;
    assert 0 <= x < s'.lastEntityId;
    assert 0 in ids;
    if s'.lastEntityId > 2 {
      assert 2 in ids;
      SubsetSize({0, 1, 2}, ids);
      assert false;
    }
    assert ids <= {0, 1} by {
      forall y | y in ids ensures y in {0, 1} {
        if y !in taken {
          assert y in ids - taken;
        }
      }
    }
  }

  /** A subset is no larger than its superset. */
  lemma SubsetSize(a: set<nat>, b: set<nat>)
    requires a <= b
    ensures |a| <= |b|
  {
    assert b == a + (b - a);
  }

  /** Clear<T>(id) unsets the id for that tag only; the allocator and the
      count are unchanged, and the tag's query no longer lists the id. */
  lemma ClearPropertyEffect<Tag(!new), V>(c: Config<V>, s: Store<Tag, V>, tag: Tag, id: nat)
    requires Good(c, s)
    ensures Count(ClearProperty(c, s, tag, id).0) == Count(s)
    ensures forall x: nat :: Defined(ClearProperty(c, s, tag, id).0, x) == Defined(s, x)
    ensures Has(c, ClearProperty(c, s, tag, id).0, tag, id) != Ok(true)
    ensures id !in QueryEntitiesWith(c, ClearProperty(c, s, tag, id).0, tag)
    ensures forall tg :: tg != tag ==> Has(c, ClearProperty(c, s, tag, id).0, tg, id) == Has(c, s, tg, id)
  {
    var s' := ClearProperty(c, s, tag, id).0;
    forall tg | tg != tag
      ensures Has(c, s', tg, id) == Has(c, s, tg, id)
    {
      assert tg in s'.tables <==> tg in s.tables;
      if tg in s.tables {
        assert s'.tables[tg] == s.tables[tg];
      }
    }
  }

  /** Clear<T>(id) twice is Clear<T>(id) once. */
  lemma ClearPropertyIdempotent<Tag(!new), V>(c: Config<V>, s: Store<Tag, V>, tag: Tag, id: nat)
    requires Good(c, s)
    ensures ClearProperty(c, ClearProperty(c, s, tag, id).0, tag, id) == ClearProperty(c, s, tag, id)
  {
    if tag in s.tables {
      MarkUnsetIdempotent(c, s.tables[tag], id);
      MapPutTwice(s.tables, tag, MarkUnset(c, s.tables[tag], id).0,
                  MarkUnset(c, MarkUnset(c, s.tables[tag], id).0, id).0);
    }
  }

  /** The ClearMarkerProperty test: after Clear<T>(id) of the only id marked
      with the marker, the marker's query is empty. */
  lemma ClearMarkerScenario<Tag(!new)>(c: Config<int>, marker: Tag, health: Tag, s1: Store<Tag, int>,
                                      id: nat, setHealth: UpdateRef<int>)
    requires c.capacityStep > 0 && c.layerCount > 0 && marker != health
    requires Reserved(Init(), s1, id)
    ensures var s3 := Mutate(c, Mutate(c, s1, marker, id, None).0, health, id, Some(setHealth)).0;
            QueryEntitiesWith(c, ClearProperty(c, s3, marker, id).0, marker) == []
  {
    EmptyHasNothingSet(c);
    var s2 := Mutate(c, s1, marker, id, None).0;
    var s3 := Mutate(c, s2, health, id, Some(setHealth)).0;
    var s4 := ClearProperty(c, s3, marker, id).0;
    assert forall x: nat :: View(c, s3, marker, x).isSet == (x == id && id < Capacity(c));
    NothingSetQueriesNothing(c, s4, marker);
  }

  /** A tag with no id set has an empty query. */
  lemma NothingSetQueriesNothing<Tag(!new), V>(c: Config<V>, s: Store<Tag, V>, tag: Tag)
    requires Good(c, s) && forall x: nat :: !View(c, s, tag, x).isSet
    ensures QueryEntitiesWith(c, s, tag) == []
  {
    HasNoMember(QueryEntitiesWith(c, s, tag));
  }

  /** A sequence with no member is empty. */
  lemma HasNoMember(q: seq<nat>)
    ensures (forall x: nat :: x !in q) ==> q == []
  {
    if q != [] {
      assert q[0] in q;
    }
  }

  /** Clear(ids) with every id addressable completes: all the ids are
      released, no tag reports any of them set, and nothing else changes. */
  lemma ClearedManyInRange<Tag(!new), V>(c: Config<V>, s: Store<Tag, V>, ids: seq<nat>, s': Store<Tag, V>, o: Outcome)
    requires Good(c, s) && ClearedMany(c, s, ids, s', o)
    requires forall i :: 0 <= i < |ids| ==> ids[i] < Capacity(c)
    ensures o == Done
    ensures s'.cleared == s.cleared + (set x | x in ids) && s'.lastEntityId == s.lastEntityId
    ensures s'.tables.Keys == s.tables.Keys
    ensures forall tg, x: nat :: tg in s.tables ==>
              Slot(c, s'.tables[tg], x) ==
                if x in ids then Slot(c, s.tables[tg], x).(isSet := false) else Slot(c, s.tables[tg], x)
  {
    forall tg | tg in s.tables
      ensures MarkUnsetEach(c, s.tables[tg], ids).1 == Done
      ensures forall x: nat :: Slot(c, MarkUnsetEach(c, s.tables[tg], ids).0, x) ==
                if x in ids then Slot(c, s.tables[tg], x).(isSet := false) else Slot(c, s.tables[tg], x)
    {
      MarkUnsetEachEffect(c, s.tables[tg], ids);
    }
  }

  /** Clear(ids) with an id past the capacity, in an entity set that has a
      layer, fails; exactly one layer (the first visited) changed. */
  lemma ClearedManyOutOfRange<Tag(!new), V>(c: Config<V>, s: Store<Tag, V>, ids: seq<nat>, s': Store<Tag, V>, o: Outcome)
    requires Good(c, s) && ClearedMany(c, s, ids, s', o)
    requires s.tables != map[] && exists i :: 0 <= i < |ids| && ids[i] >= Capacity(c)
    ensures o.Failed?
    ensures exists tg :: tg in s.tables && forall other :: other in s.tables && other != tg ==>
              other in s'.tables && s'.tables[other] == s.tables[other]
  {
    var tg :| tg in s.tables;
    MarkUnsetEachFailure(c, s.tables[tg], ids);
  }
}
