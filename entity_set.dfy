/** The entity set (EntitySet.cs): the identity allocator and a registry of one
    column store per property tag, updated in place. Every method is proved to
    change the entity set as the matching definition of `EntityStore` says. */
module Entities {
  import opened Paging
  import opened Columns
  import opened Layers
  import opened EntityStore

  /** The loop of EntitySet.Mutate over a list of ids: Layer.Update for each
      id in turn; a failure (the exception of the source) ends the loop. */
  method UpdateEachOn<V>(layer: Layer<V>, ids: seq<nat>, f: Option<UpdateRef<V>>) returns (r: Outcome)
    requires layer.Valid()
    modifies layer.Repr
    ensures layer.Valid() && fresh(layer.Repr - old(layer.Repr))
    ensures (layer.Contents, r) == UpdateEach(layer.Shape(), old(layer.Contents), ids, f)
  {
    r := Done;
    var i := 0;
    while i < |ids| && r.Done?
      invariant 0 <= i <= |ids|
      invariant layer.Valid() && fresh(layer.Repr - old(layer.Repr))
      invariant (if r.Done? then UpdateEach(layer.Shape(), layer.Contents, ids[i..], f) else (layer.Contents, r)) ==
                UpdateEach(layer.Shape(), old(layer.Contents), ids, f)
    {
      assert ids[i..][1..] == ids[i + 1..];
      r := layer.Update(ids[i], f);
      i := i + 1;
    }
  }

  /** The loop of EntitySet.MutateSet and MutateAllSetWith: UpdateIfSet for
      each id in turn; a failure ends the loop. */
  method UpdateIfSetEachOn<V>(layer: Layer<V>, ids: seq<nat>, f: Option<UpdateRef<V>>) returns (r: Outcome)
    requires layer.Valid()
    modifies layer.Repr
    ensures layer.Valid() && fresh(layer.Repr - old(layer.Repr))
    ensures (layer.Contents, r) == UpdateIfSetEach(layer.Shape(), old(layer.Contents), ids, f)
  {
    r := Done;
    var i := 0;
    while i < |ids| && r.Done?
      invariant 0 <= i <= |ids|
      invariant layer.Valid() && fresh(layer.Repr - old(layer.Repr))
      invariant (if r.Done? then UpdateIfSetEach(layer.Shape(), layer.Contents, ids[i..], f) else (layer.Contents, r)) ==
                UpdateIfSetEach(layer.Shape(), old(layer.Contents), ids, f)
    {
      assert ids[i..][1..] == ids[i + 1..];
      r := layer.UpdateIfSet(ids[i], f);
      i := i + 1;
    }
  }

  /** The parallel path of EntitySet.MutateAllSet, run sequentially: Update for
      every id QuerySet yields. It ends in the same state as UpdateSet. */
  method UpdateSetByQuery<V>(layer: Layer<V>, f: UpdateRef<V>)
    requires layer.Valid()
    modifies layer.Repr
    ensures layer.Valid() && fresh(layer.Repr - old(layer.Repr))
    ensures layer.Contents == UpdateAllSet(layer.Shape(), old(layer.Contents), f)
  {
    var ids := layer.QuerySet();
    QuerySetFanOut(layer.Shape(), layer.Contents, f);
    var _ := UpdateEachOn(layer, ids, Some(f));
  }

  /** The first loop of EntitySet.ReserveEntityIds: move released ids, in
      the set's order, to the reserved set while both some remain and fewer
      than `count` are held. */
  method TakeReleased(cleared: set<nat>, count: int) returns (taken: set<nat>, rest: set<nat>)
    ensures rest <= cleared && taken == cleared - rest
    ensures |taken| == Min(if count < 0 then 0 else count, |cleared|)
  {
    taken, rest := {}, cleared;
    while |rest| > 0 && |taken| < count
      invariant rest <= cleared && taken == cleared - rest
      invariant |cleared| == |taken| + |rest|
      invariant |taken| <= (if count < 0 then 0 else count)
      decreases |rest|
    {
      var id :| id in rest;
      taken := taken + {id};
      rest := rest - {id};
    }
  }

  /** What the mint loop keeps: the ids held are the ids it started with plus
      every mark from `last` up to `next`, no more than `count` of them, and
      the last mark issued was not already held unless the loop goes on. */
  ghost predicate Minting(held: set<nat>, last: nat, count: int, ids: set<nat>, next: nat) {
    && held <= ids && last <= next
    && |ids| <= (if |held| < count then count else |held|)
    && (forall x :: x in ids - held ==> last <= x < next)
    && (forall x :: last <= x < next ==> x in ids)
    && (|held| >= count ==> ids == held && next == last)
    && (next > last && next - 1 in held ==> |ids| < count)
  }

  /** One turn of the mint loop keeps `Minting`. */
  lemma MintStep(held: set<nat>, last: nat, count: int, ids: set<nat>, next: nat)
    requires Minting(held, last, count, ids, next) && |ids| < count
    ensures Minting(held, last, count, ids + {next}, next + 1)
  {
    var ids' := ids + {next};
    assert next in held ==> ids' == ids;
    assert next !in ids ==> |ids'| == |ids| + 1;
    assert forall x :: x in ids' - held ==> x in ids - held || x == next;
  }

  /** The second loop of EntitySet.ReserveEntityIds: add the high-water mark
      to the reserved set and advance it, until `count` ids are held. A mark
      already held leaves the set as it was and the loop goes on, so the last
      mark issued is never one that was already held. */
  method MintFresh(held: set<nat>, last: nat, count: int) returns (ids: set<nat>, next: nat)
    ensures held <= ids && last <= next
    ensures |ids| == if |held| < count then count else |held|
    ensures forall x :: x in ids - held ==> last <= x < next
    ensures forall x :: last <= x < next ==> x in ids
    ensures |held| >= count ==> ids == held && next == last
    ensures next > last ==> next - 1 !in held
  {
    ids, next := held, last;
    while |ids| < count
      invariant Minting(held, last, count, ids, next)
      decreases count - |ids|, |set x | x in ids && x >= next|
    {
      ghost var above := set x | x in ids && x >= next;
      ghost var above' := set x | x in ids && x >= next + 1;
      assert above == above' + (if next in ids then {next} else {});
      assert next !in above';
      MintStep(held, last, count, ids, next);
      ghost var before := ids;
      ids := ids + {next};
      next := next + 1;
      assert next - 1 in before ==> ids == before;
      assert next - 1 in before ==> (set x | x in ids && x >= next) == above';
    }
  }

  /** The first loop of EntitySet.Clear(ids): add every id to the released set. */
  method ReleaseAll(cleared: set<nat>, ids: seq<nat>) returns (r: set<nat>)
    ensures r == cleared + set x | x in ids
  {
    r := cleared;
    var i := 0;
    while i < |ids|
      invariant 0 <= i <= |ids|
      invariant r == cleared + set x | x in ids[..i]
    {
      assert ids[..i + 1] == ids[..i] + [ids[i]];
      r := r + {ids[i]};
      i := i + 1;
    }
    assert ids[..i] == ids;
  }

  class EntitySet<Tag(==, !new), V> {
    const layerCapacity: nat
    const capacityStep: nat
    /** The default value of the property type. */
    const zero: V
    /** The registry: the layer of each property tag used so far. */
    var layers: map<Tag, Layer<V>>
    /** The released ids. */
    var clearedEntities: set<nat>
    /** The high-water mark: every id below it was issued once. */
    var lastEntityId: nat

    /** The objects the entity set owns: itself and every layer's objects. */
    ghost var Repr: set<object>

    ghost function Shape(): Config<V> {
      Config(layerCapacity, capacityStep, zero)
    }

    ghost predicate Valid()
      reads this, Repr
      ensures Valid() ==> Good(Shape(), Model())
    {
      && this in Repr
      && capacityStep > 0
      && (forall tag :: tag in layers ==>
            && layers[tag] in Repr && layers[tag].Repr <= Repr && this !in layers[tag].Repr
            && layers[tag].Valid()
            && layers[tag].Shape() == Shape())
      && (forall t1, t2 :: t1 in layers && t2 in layers && t1 != t2 ==>
            layers[t1].Repr !! layers[t2].Repr)
    }

    /** The contents of every registered layer. */
    ghost function Tables(): map<Tag, Table<V>>
      reads this, layers.Values
    {
      map tag | tag in layers :: layers[tag].Contents
    }

    /** The entity set as a value. */
    ghost function Model(): Store<Tag, V>
      reads this, layers.Values
    {
      Store(lastEntityId, clearedEntities, Tables())
    }

    /** A new entity set: nothing reserved, nothing released, no layer. */
    constructor (zero: V, layerCapacity: nat := 2048, capacityStep: nat := 512)
      requires capacityStep > 0
      ensures Valid() && fresh(Repr)
      ensures Shape() == Config(layerCapacity, capacityStep, zero)
      ensures Model() == Init()
    {
      this.layerCapacity := layerCapacity;
      this.capacityStep := capacityStep;
      this.zero := zero;
      layers := map[];
      clearedEntities := {};
      lastEntityId := 0;
      Repr := {this};
    }

    /** EntitySet.Count. */
    function Count(): (r: int)
      reads this, layers.Values
      ensures r == EntityStore.Count(Model())
    {
      lastEntityId - |clearedEntities|
    }

    /** EntitySet.Capacity. */
    function Capacity(): (r: nat)
      reads this
      ensures r == Columns.Capacity(Shape())
    {
      layerCapacity * capacityStep
    }

    /** EntitySet.ReserveEntityId: a released id when there is one (any of
        them: the source takes the last the hash set enumerates), otherwise
        the high-water mark, which then advances. */
    method ReserveEntityId() returns (id: nat)
      requires Valid()
      modifies this
      ensures Valid() && Repr == old(Repr) && layers == old(layers)
      ensures Reserved(old(Model()), Model(), id)
    {
      if |clearedEntities| == 0 {
        id := lastEntityId;
        lastEntityId := lastEntityId + 1;
      } else {
        id :| id in clearedEntities;
        clearedEntities := clearedEntities - {id};
      }
    }

    /** EntitySet.ReserveEntityIds: released ids first, while both remain, then
        the high-water mark, advanced one step at a time, until `count` ids
        are held. */
    method ReserveEntityIds(count: int) returns (reservedIds: set<nat>)
      requires Valid()
      modifies this
      ensures Valid() && Repr == old(Repr) && layers == old(layers)
      ensures ReservedMany(old(Model()), Model(), count, reservedIds)
    {
      var taken, rest := TakeReleased(clearedEntities, count);
      var next;
      reservedIds, next := MintFresh(taken, lastEntityId, count);
      SetAllocator(rest, next);
      assert old(clearedEntities) - clearedEntities == taken;
    }

    /** The allocator's two fields written back; nothing else changes. */
    method SetAllocator(cleared: set<nat>, last: nat)
      requires Valid()
      modifies this
      ensures Valid() && Repr == old(Repr) && layers == old(layers) && Tables() == old(Tables())
      ensures clearedEntities == cleared && lastEntityId == last
    {
      clearedEntities, lastEntityId := cleared, last;
    }

    /** EntitySet.Clear(id): release the id and MarkUnset it in every layer. */
    method ClearEntity(id: nat) returns (r: Outcome)
      requires Valid()
      modifies Repr
      ensures Valid() && Repr == old(Repr)
      ensures (Model(), r) == EntityStore.ClearEntity(Shape(), old(Model()), id)
    {
      clearedEntities := clearedEntities + {id};
      assert Tables() == old(Tables());
      r := MarkUnsetEveryLayer(id);
      ClearEntityUnfold(Shape(), old(Model()), id, Tables(), r);
    }

    /** The loop of EntitySet.Clear(id): MarkUnset in every layer, in the
        dictionary's order; a failing layer ends the loop. Every layer has the
        same geometry, so the first one visited fails or none does. */
    method MarkUnsetEveryLayer(id: nat) returns (r: Outcome)
      requires Valid()
      modifies Repr
      ensures Valid() && Repr == old(Repr) && layers == old(layers)
      ensures lastEntityId == old(lastEntityId) && clearedEntities == old(clearedEntities)
      ensures Tables() == Swept(Shape(), old(Tables()), {}, id)
      ensures r == if old(Tables()) == map[] || id < Columns.Capacity(Shape()) then Done
                   else Failed(Locate(layerCapacity, capacityStep, id).fault)
    {
      var remaining := layers.Keys;
      ghost var t := Tables();
      assert t.Keys == layers.Keys;
      SweptStart(Shape(), t, id);
      r := Done;
      while remaining != {} && r.Done?
        invariant remaining <= layers.Keys
        invariant Valid() && Repr == old(Repr) && layers == old(layers)
        invariant lastEntityId == old(lastEntityId) && clearedEntities == old(clearedEntities)
        invariant Tables() == Swept(Shape(), t, remaining, id)
        invariant r.Failed? ==> id >= Columns.Capacity(Shape()) && layers.Keys != {} &&
                                r == Failed(Locate(layerCapacity, capacityStep, id).fault)
        invariant r.Done? && remaining != layers.Keys ==> id < Columns.Capacity(Shape())
        decreases remaining
      {
        var tag :| tag in remaining;
        assert Tables()[tag] == t[tag];
        r := MarkUnsetIn(tag, id);
        SweptStep(Shape(), t, remaining, tag, id);
        remaining := remaining - {tag};
      }
      if r.Failed? {
        SweptOutOfRange(Shape(), t, remaining, id);
      }
      assert t == map[] <==> t.Keys == {};
    }

    /** EntitySet.Clear(ids), with the bulk MarkUnset of each layer as
        evidently intended (one id at a time): release every id, then unset
        them in every layer, in the dictionary's order; a failing layer ends
        the loop. */
    method ClearEntities(ids: seq<nat>) returns (r: Outcome)
      requires Valid()
      modifies Repr
      ensures Valid() && Repr == old(Repr)
      ensures ClearedMany(Shape(), old(Model()), ids, Model(), r)
    {
      var released := ReleaseAll(clearedEntities, ids);
      SetAllocator(released, lastEntityId);
      r := MarkUnsetEachEveryLayer(ids);
    }

    /** The loop over the layers of EntitySet.Clear(ids). Every layer has the
        same geometry, so the first layer visited fails or none does. */
    method MarkUnsetEachEveryLayer(ids: seq<nat>) returns (r: Outcome)
      requires Valid()
      modifies Repr
      ensures Valid() && Repr == old(Repr) && layers == old(layers)
      ensures lastEntityId == old(lastEntityId) && clearedEntities == old(clearedEntities)
      ensures r.Done? ==> Tables() == map tg | tg in old(Tables()) :: MarkUnsetEach(Shape(), old(Tables())[tg], ids).0
      ensures r.Done? ==> forall tg :: tg in old(Tables()) ==> MarkUnsetEach(Shape(), old(Tables())[tg], ids).1 == Done
      ensures r.Failed? ==>
                exists tg :: (tg in old(Tables()) &&
                              Tables() == old(Tables())[tg := MarkUnsetEach(Shape(), old(Tables())[tg], ids).0] &&
                              r == MarkUnsetEach(Shape(), old(Tables())[tg], ids).1)
    {
      var remaining := layers.Keys;
      ghost var t := Tables();
      assert t.Keys == layers.Keys;
      SweptEachStart(Shape(), t, ids);
      ghost var failedAt: Option<Tag> := None;
      r := Done;
      while remaining != {} && r.Done?
        invariant remaining <= layers.Keys
        invariant Valid() && Repr == old(Repr) && layers == old(layers)
        invariant lastEntityId == old(lastEntityId) && clearedEntities == old(clearedEntities)
        invariant r.Done? ==> Tables() == SweptEach(Shape(), t, remaining, ids)
        invariant r.Failed? ==> failedAt.Some? && failedAt.value in t &&
                                Tables() == t[failedAt.value := MarkUnsetEach(Shape(), t[failedAt.value], ids).0] &&
                                r == MarkUnsetEach(Shape(), t[failedAt.value], ids).1
        invariant r.Done? && remaining != layers.Keys ==> forall i :: 0 <= i < |ids| ==> ids[i] < Columns.Capacity(Shape())
        decreases remaining
      {
        var tag :| tag in remaining;
        assert Tables()[tag] == t[tag];
        ghost var before := Tables();
        r := MarkUnsetEachIn(tag, ids);
        MarkUnsetEachFailure(Shape(), t[tag], ids);
        if r.Failed? {
          assert before == t;
          failedAt := Some(tag);
        } else {
          SweptEachStep(Shape(), t, remaining, tag, ids);
        }
        remaining := remaining - {tag};
      }
      if r.Done? {
        SweptEachEnd(Shape(), t, ids);
        forall tg | tg in t ensures MarkUnsetEach(Shape(), t[tg], ids).1 == Done {
          MarkUnsetEachFailure(Shape(), t[tg], ids);
        }
      } else {
        assert failedAt.value in old(Tables());
      }
    }

    /** Layer.MarkUnset(ids), as evidently intended, on the layer of a registered tag. */
    method MarkUnsetEachIn(tag: Tag, ids: seq<nat>) returns (r: Outcome)
      requires Valid() && tag in layers
      modifies Repr
      ensures Valid() && Repr == old(Repr) && layers == old(layers)
      ensures lastEntityId == old(lastEntityId) && clearedEntities == old(clearedEntities)
      ensures Tables() == old(Tables())[tag := MarkUnsetEach(Shape(), old(Tables())[tag], ids).0]
      ensures r == MarkUnsetEach(Shape(), old(Tables())[tag], ids).1
    {
      r := layers[tag].MarkUnsetEach(ids);
      Commit(tag);
    }

    /** Layer.MarkUnset on the layer of a registered tag. */
    method MarkUnsetIn(tag: Tag, id: nat) returns (r: Outcome)
      requires Valid() && tag in layers
      modifies Repr
      ensures Valid() && Repr == old(Repr) && layers == old(layers)
      ensures lastEntityId == old(lastEntityId) && clearedEntities == old(clearedEntities)
      ensures Tables() == old(Tables())[tag := MarkUnset(Shape(), old(Tables())[tag], id).0]
      ensures r == MarkUnset(Shape(), old(Tables())[tag], id).1
    {
      r := layers[tag].MarkUnset(id);
      Commit(tag);
    }

    /** The layer of a tag, created empty and registered when absent. */
    method LayerFor(tag: Tag) returns (layer: Layer<V>)
      requires Valid()
      modifies this
      ensures Valid() && fresh(Repr - old(Repr)) && old(Repr) <= Repr
      ensures tag in layers && layer == layers[tag]
      ensures layers.Keys == old(layers.Keys) + {tag}
      ensures forall tg :: tg in old(layers) ==> layers[tg] == old(layers[tg])
      ensures tag !in old(layers) ==> fresh(layer.Repr)
      ensures lastEntityId == old(lastEntityId) && clearedEntities == old(clearedEntities)
      ensures layer.Contents == Tab(Shape(), old(Model()), tag)
      ensures Tables() == old(Tables())[tag := layer.Contents]
    {
      if tag in layers {
        layer := layers[tag];
        assert Tables() == old(Tables())[tag := layer.Contents];
      } else {
        layer := new Layer(layerCapacity, capacityStep, zero);
        layers := layers[tag := layer];
        Repr := Repr + layer.Repr;
        assert Tables() == old(Tables())[tag := layer.Contents];
      }
    }

    /** After work confined to the layer of `tag`, which kept that layer valid
        and allocated only fresh objects, the entity set is valid again once
        its footprint takes in the layer's new objects, and only that tag's
        table has changed. */
    twostate lemma Commit(tag: Tag)
      requires old(Valid()) && tag in old(layers)
      requires layers == old(layers) && lastEntityId == old(lastEntityId)
      requires clearedEntities == old(clearedEntities)
      requires Repr == old(Repr) + layers[tag].Repr
      requires layers[tag].Valid() && layers[tag].Shape() == Shape()
      requires fresh(layers[tag].Repr - old(layers[tag].Repr))
      requires forall tg :: tg in layers && tg != tag ==>
                 unchanged(layers[tg]) && unchanged(old(layers[tg].Repr))
      ensures Valid()
      ensures Tables() == old(Tables())[tag := layers[tag].Contents]
    {
      forall tg | tg in layers && tg != tag
        ensures layers[tg].Valid() && layers[tg].Repr !! layers[tag].Repr
      {
        assert layers[tg].Repr == old(layers[tg].Repr);
      }
    }

    /** EntitySet.Get. */
    method Get(tag: Tag, id: nat) returns (r: Result<V>)
      requires Valid()
      modifies Repr
      ensures Valid() && fresh(Repr - old(Repr))
      ensures (Model(), r) == EntityStore.Get(Shape(), old(Model()), tag, id)
    {
      if id >= lastEntityId || id in clearedEntities {
        return Err(EntityUndefined);
      }
      r := GetIn(tag, id);
    }

    /** Layer.Get on the layer of the tag, registered first when absent. */
    method GetIn(tag: Tag, id: nat) returns (r: Result<V>)
      requires Valid()
      modifies Repr
      ensures Valid() && fresh(Repr - old(Repr))
      ensures lastEntityId == old(lastEntityId) && clearedEntities == old(clearedEntities)
      ensures Tables() == old(Tables())[tag := Columns.Get(Shape(), Tab(Shape(), old(Model()), tag), id).0]
      ensures r == Columns.Get(Shape(), Tab(Shape(), old(Model()), tag), id).1
    {
      var layer := LayerFor(tag);
      label mid:
      r := layer.Get(id);
      Repr := Repr + layer.Repr;
      Commit@mid(tag);
      MapPutTwice(old(Tables()), tag, old@mid(layer.Contents), layer.Contents);
    }

    /** EntitySet.Mutate: no check that the id is reserved. */
    method Mutate(tag: Tag, id: nat, f: Option<UpdateRef<V>> := None) returns (r: Outcome)
      requires Valid()
      modifies Repr
      ensures Valid() && fresh(Repr - old(Repr))
      ensures (Model(), r) == EntityStore.Mutate(Shape(), old(Model()), tag, id, f)
    {
      var layer := LayerFor(tag);
      label mid:
      r := layer.Update(id, f);
      Repr := Repr + layer.Repr;
      Commit@mid(tag);
      MapPutTwice(old(Tables()), tag, old@mid(layer.Contents), layer.Contents);
    }

    /** EntitySet.MutateAllSet: UpdateSet, or with `parallel` the QuerySet
        fan-out of Update; nothing when the tag has no layer. */
    method MutateAllSet(tag: Tag, f: UpdateRef<V>, parallel: bool := false)
      requires Valid()
      modifies Repr
      ensures Valid() && fresh(Repr - old(Repr))
      ensures Model() == EntityStore.MutateAllSet(Shape(), old(Model()), tag, f)
    {
      if tag in layers {
        var layer := layers[tag];
        if parallel {
          UpdateSetByQuery(layer, f);
        } else {
          layer.UpdateSet(f);
        }
        Repr := Repr + layer.Repr;
        Commit(tag);
      }
    }

    /** EntitySet.MutateAllSetWith: UpdateIfSet on the tag's layer, registered
        if absent, for every set id of the `with` tag. */
    method MutateAllSetWith(tag: Tag, with: Tag, f: Option<UpdateRef<V>> := None) returns (r: Outcome)
      requires Valid()
      modifies Repr
      ensures Valid() && fresh(Repr - old(Repr))
      ensures (Model(), r) == EntityStore.MutateAllSetWith(Shape(), old(Model()), tag, with, f)
    {
      var ids := QueryEntitiesWith(with);
      r := MutateSet(tag, ids, f);
    }

    /** EntitySet.MutateSet: UpdateIfSet on the tag's layer, registered if
        absent, for each listed id. */
    method MutateSet(tag: Tag, ids: seq<nat>, f: Option<UpdateRef<V>> := None) returns (r: Outcome)
      requires Valid()
      modifies Repr
      ensures Valid() && fresh(Repr - old(Repr))
      ensures (Model(), r) == EntityStore.MutateSet(Shape(), old(Model()), tag, ids, f)
    {
      var layer := LayerFor(tag);
      label mid:
      r := UpdateIfSetEachOn(layer, ids, f);
      Repr := Repr + layer.Repr;
      Commit@mid(tag);
      MapPutTwice(old(Tables()), tag, old@mid(layer.Contents), layer.Contents);
    }

    /** EntitySet.Mutate over a list: Update on the tag's layer, registered if
        absent, for each listed id. */
    method MutateEach(tag: Tag, ids: seq<nat>, f: Option<UpdateRef<V>> := None) returns (r: Outcome)
      requires Valid()
      modifies Repr
      ensures Valid() && fresh(Repr - old(Repr))
      ensures (Model(), r) == EntityStore.MutateEach(Shape(), old(Model()), tag, ids, f)
    {
      var layer := LayerFor(tag);
      label mid:
      r := UpdateEachOn(layer, ids, f);
      Repr := Repr + layer.Repr;
      Commit@mid(tag);
      MapPutTwice(old(Tables()), tag, old@mid(layer.Contents), layer.Contents);
    }

    /** EntitySet.Clear<T>(id): MarkUnset in the tag's layer only. */
    method ClearProperty(tag: Tag, id: nat) returns (r: Outcome)
      requires Valid()
      modifies Repr
      ensures Valid() && Repr == old(Repr)
      ensures (Model(), r) == EntityStore.ClearProperty(Shape(), old(Model()), tag, id)
    {
      r := Done;
      if tag in layers {
        r := MarkUnsetIn(tag, id);
      }
    }

    /** EntitySet.QueryEntitiesWith: the set ids of the tag, ascending. */
    method QueryEntitiesWith(tag: Tag) returns (ids: seq<nat>)
      requires Valid()
      ensures ids == EntityStore.QueryEntitiesWith(Shape(), Model(), tag)
    {
      ids := [];
      if tag in layers {
        ids := layers[tag].QuerySet();
      }
    }

    /** EntitySet.Has. */
    function Has(tag: Tag, id: nat): (r: Result<bool>)
      reads this, Repr
      requires Valid()
      ensures r == EntityStore.Has(Shape(), Model(), tag, id)
    {
      if tag in layers then layers[tag].IsSet(id) else Ok(false)
    }
  }
}
