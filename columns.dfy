/** The state of one column store (a `Layer`) as a value, and every column-store
    operation as a function from the old state to the new one.

    A table is the jagged page array of the source: `layerCount` entries, each
    either an unallocated page or a page of `capacityStep` properties. The
    logical view `Slot` gives the property every id reads, an unallocated page
    reading as all `(false, zero)`. The `Layer` class is proved to follow these
    functions; the lemmas below state what the functions guarantee. */
module Columns {
  import opened Paging

  /** One slot of a page: the inline presence flag and the stored value. */
  datatype Property<V> = Property(isSet: bool, value: V)

  /** The fixed geometry of a column store and the default value of its type. */
  datatype Config<V> = Config(layerCount: nat, capacityStep: nat, zero: V)

  type Page<V> = seq<Property<V>>
  type Table<V> = seq<Option<Page<V>>>

  /** The update callback: it receives the id and the old value and yields the new value. */
  type UpdateRef<!V> = (nat, V) -> V

  /** The number of addressable ids. */
  function Capacity<V>(c: Config<V>): nat {
    c.layerCount * c.capacityStep
  }

  predicate WellFormed<V>(c: Config<V>, t: Table<V>) {
    && c.capacityStep > 0
    && |t| == c.layerCount
    && forall p :: 0 <= p < |t| && t[p].Some? ==> |t[p].value| == c.capacityStep
  }

  /** A slot that was never written. */
  function Unset<V>(c: Config<V>): Property<V> {
    Property(false, c.zero)
  }

  /** A freshly allocated page. */
  function BlankPage<V>(c: Config<V>): (pg: Page<V>)
    ensures |pg| == c.capacityStep
    ensures forall s :: 0 <= s < |pg| ==> pg[s] == Unset(c)
  {
    seq(c.capacityStep, _ => Unset(c))
  }

  /** The page table of a new layer. */
  function Empty<V>(c: Config<V>): (t: Table<V>)
    requires c.capacityStep > 0
    ensures WellFormed(c, t)
    ensures forall p :: 0 <= p < |t| ==> t[p] == None
  {
    seq(c.layerCount, _ => None)
  }

  /** The property stored at an address of the page table. */
  function Cell<V>(c: Config<V>, t: Table<V>, a: Address): Property<V>
    requires WellFormed(c, t) && a.page < |t| && a.slot < c.capacityStep
  {
    match t[a.page]
    case None => Unset(c)
    case Some(pg) => pg[a.slot]
  }

  /** The property an id reads; an id outside the page table reads as unset. */
  function Slot<V>(c: Config<V>, t: Table<V>, id: nat): Property<V>
    requires WellFormed(c, t)
  {
    match Locate(c.layerCount, c.capacityStep, id)
    case Err(_) => Unset(c)
    case Ok(a) => Cell(c, t, a)
  }

  function Apply<V>(f: Option<UpdateRef<V>>, id: nat, v: V): V {
    match f
    case None => v
    case Some(g) => g(id, v)
  }

  /** The slot of an address is the slot of the id that address stands for. */
  lemma SlotOfAddress<V>(c: Config<V>, t: Table<V>, a: Address)
    requires WellFormed(c, t) && a.page < |t| && a.slot < c.capacityStep
    ensures Slot(c, t, IdOf(c.capacityStep, a)) == Cell(c, t, a)
  {
    LocateIdOf(c.layerCount, c.capacityStep, a);
  }

  /** Two tables that allocate the same pages and agree on every id are equal:
      the logical view loses nothing but the contents of unallocated pages. */
  lemma SlotsDetermineTable<V>(c: Config<V>, t1: Table<V>, t2: Table<V>)
    requires WellFormed(c, t1) && WellFormed(c, t2)
    requires forall p :: 0 <= p < |t1| ==> (t1[p].None? <==> t2[p].None?)
    requires forall x: nat :: Slot(c, t1, x) == Slot(c, t2, x)
    ensures t1 == t2
  {
    forall p | 0 <= p < |t1|
      ensures t1[p] == t2[p]
    {
      if t1[p].Some? {
        var pg1, pg2 := t1[p].value, t2[p].value;
        forall s | 0 <= s < c.capacityStep
          ensures pg1[s] == pg2[s]
        {
          var a := Address(p, s);
          SlotOfAddress(c, t1, a);
          SlotOfAddress(c, t2, a);
          assert Slot(c, t1, IdOf(c.capacityStep, a)) == Slot(c, t2, IdOf(c.capacityStep, a));
        }
        assert pg1 == pg2;
      }
    }
  }

  /** Allocate page `p` if it is absent; allocation changes no id's slot. */
  function Allocate<V>(c: Config<V>, t: Table<V>, p: nat): (t': Table<V>)
    requires WellFormed(c, t) && p < |t|
    ensures WellFormed(c, t') && t'[p].Some?
    ensures forall q :: 0 <= q < |t| && q != p ==> t'[q] == t[q]
    ensures t[p].Some? ==> t' == t
    ensures forall x: nat :: Slot(c, t', x) == Slot(c, t, x)
  {
    if t[p].None? then t[p := Some(BlankPage(c))] else t
  }

  /** Layer.Get: allocate the id's page if it is absent and return the value. */
  function Get<V>(c: Config<V>, t: Table<V>, id: nat): (r: (Table<V>, Result<V>))
    requires WellFormed(c, t)
    ensures WellFormed(c, r.0)
    ensures r.1.Ok? <==> id < Capacity(c)
    ensures r.1.Ok? ==> r.1.value == Slot(c, t, id).value
    ensures r.1.Ok? ==> r.0[Locate(c.layerCount, c.capacityStep, id).value.page].Some?
    ensures r.1.Err? ==> r.0 == t && r.1.fault == Locate(c.layerCount, c.capacityStep, id).fault
    ensures forall x: nat :: Slot(c, r.0, x) == Slot(c, t, x)
  {
    match Locate(c.layerCount, c.capacityStep, id)
    case Err(e) => (t, Err(e))
    case Ok(a) => (Allocate(c, t, a.page), Ok(Cell(c, t, a).value))
  }

  /** Layer.Update: allocate the page, set the flag and apply the callback. */
  function Update<V>(c: Config<V>, t: Table<V>, id: nat, f: Option<UpdateRef<V>>): (r: (Table<V>, Outcome))
    requires WellFormed(c, t)
    ensures WellFormed(c, r.0)
    ensures r.1.Done? <==> id < Capacity(c)
    ensures r.1.Failed? ==> r.0 == t && r.1.fault == Locate(c.layerCount, c.capacityStep, id).fault
    ensures r.1.Done? ==> Slot(c, r.0, id) == Property(true, Apply(f, id, Slot(c, t, id).value))
    ensures r.1.Done? ==> r.0[Locate(c.layerCount, c.capacityStep, id).value.page].Some?
    ensures forall p :: 0 <= p < |t| && t[p].Some? ==> r.0[p].Some?
    ensures forall x: nat :: x != id ==> Slot(c, r.0, x) == Slot(c, t, x)
  {
    match Locate(c.layerCount, c.capacityStep, id)
    case Err(e) => (t, Failed(e))
    case Ok(a) =>
      var t1 := Allocate(c, t, a.page);
      var pg := t1[a.page].value;
      var prev := pg[a.slot];
      var t2 := t1[a.page := Some(pg[a.slot := Property(true, Apply(f, id, prev.value))])];
      assert forall x: nat :: x != id ==> Slot(c, t2, x) == Slot(c, t1, x) by {
        forall x | x != id
          ensures Slot(c, t2, x) == Slot(c, t1, x)
        {
          var b := Locate(c.layerCount, c.capacityStep, x);
          if b.Ok? {
            assert b.value != a;
          }
        }
      }
      (t2, Done)
  }

  /** Layer.IsSet: the flag of the id's slot; an unallocated page reads false. */
  function IsSet<V>(c: Config<V>, t: Table<V>, id: nat): (r: Result<bool>)
    requires WellFormed(c, t)
    ensures r.Ok? <==> id < Capacity(c)
    ensures r.Ok? ==> r.value == Slot(c, t, id).isSet
    ensures r.Ok? && t[Locate(c.layerCount, c.capacityStep, id).value.page].None? ==> !r.value
    ensures r.Err? ==> r.fault == Locate(c.layerCount, c.capacityStep, id).fault
  {
    match Locate(c.layerCount, c.capacityStep, id)
    case Err(e) => Err(e)
    case Ok(a) => if t[a.page].None? then Ok(false) else Ok(t[a.page].value[a.slot].isSet)
  }

  /** Layer.MarkUnset: clear the flag of an allocated slot, keep its value. */
  function MarkUnset<V>(c: Config<V>, t: Table<V>, id: nat): (r: (Table<V>, Outcome))
    requires WellFormed(c, t)
    ensures WellFormed(c, r.0)
    ensures r.1.Done? <==> id < Capacity(c)
    ensures r.1.Failed? ==> r.0 == t && r.1.fault == Locate(c.layerCount, c.capacityStep, id).fault
    ensures Slot(c, r.0, id) == Slot(c, t, id).(isSet := false)
    ensures forall x: nat :: x != id ==> Slot(c, r.0, x) == Slot(c, t, x)
    ensures forall p :: 0 <= p < |t| ==> (r.0[p].None? <==> t[p].None?)
  {
    match Locate(c.layerCount, c.capacityStep, id)
    case Err(e) => (t, Failed(e))
    case Ok(a) =>
      match t[a.page]
      case None => (t, Done)
      case Some(pg) =>
        var t1 := t[a.page := Some(pg[a.slot := pg[a.slot].(isSet := false)])];
        assert forall x: nat :: x != id ==> Slot(c, t1, x) == Slot(c, t, x) by {
          forall x | x != id
            ensures Slot(c, t1, x) == Slot(c, t, x)
          {
            var b := Locate(c.layerCount, c.capacityStep, x);
            if b.Ok? {
              assert b.value != a;
            }
          }
        }
        (t1, Done)
  }

  /** The update that the entity set's "existing only" paths apply: the callers
      name it UpdateIfSet; it updates the id only when its flag is set. */
  function UpdateIfSet<V>(c: Config<V>, t: Table<V>, id: nat, f: Option<UpdateRef<V>>): (r: (Table<V>, Outcome))
    requires WellFormed(c, t)
    ensures WellFormed(c, r.0)
    ensures r.1.Done? <==> id < Capacity(c)
    ensures r.1.Failed? ==> r.1.fault == Locate(c.layerCount, c.capacityStep, id).fault
    ensures !Slot(c, t, id).isSet ==> r.0 == t
    ensures forall x: nat :: Slot(c, r.0, x).isSet == Slot(c, t, x).isSet
    ensures Slot(c, r.0, id).value ==
              if Slot(c, t, id).isSet then Apply(f, id, Slot(c, t, id).value) else Slot(c, t, id).value
    ensures forall x: nat :: x != id ==> Slot(c, r.0, x) == Slot(c, t, x)
    ensures forall p :: 0 <= p < |t| ==> (r.0[p].None? <==> t[p].None?)
  {
    match IsSet(c, t, id)
    case Err(e) => (t, Failed(e))
    case Ok(present) =>
      if present then
        var a := Locate(c.layerCount, c.capacityStep, id).value;
        assert t[a.page].Some?;
        Update(c, t, id, f)
      else (t, Done)
  }

  /** The page `p` after UpdateSet: the callback applied to every set slot. */
  function UpdatePage<V>(c: Config<V>, pg: Page<V>, p: nat, f: UpdateRef<V>): Page<V> {
    seq(|pg|, s requires 0 <= s < |pg| =>
      if pg[s].isSet then Property(true, f(IdOf(c.capacityStep, Address(p, s)), pg[s].value)) else pg[s])
  }

  /** Layer.UpdateSet: the callback applied to every set slot of every allocated page. */
  function UpdateAllSet<V>(c: Config<V>, t: Table<V>, f: UpdateRef<V>): (r: Table<V>)
    requires WellFormed(c, t)
    ensures WellFormed(c, r)
    ensures forall p :: 0 <= p < |t| ==> (r[p].None? <==> t[p].None?)
  {
    seq(|t|, p requires 0 <= p < |t| =>
      match t[p]
      case None => None
      case Some(pg) => Some(UpdatePage(c, pg, p, f)))
  }

  /** UpdateSet applies the callback once to each set id and leaves every
      other slot and every flag as it was. */
  lemma UpdateAllSetSlot<V>(c: Config<V>, t: Table<V>, f: UpdateRef<V>, x: nat)
    requires WellFormed(c, t)
    ensures Slot(c, UpdateAllSet(c, t, f), x) ==
              if Slot(c, t, x).isSet then Property(true, f(x, Slot(c, t, x).value)) else Slot(c, t, x)
  {
    var l := Locate(c.layerCount, c.capacityStep, x);
    if l.Ok? {
      var a := l.value;
      assert IdOf(c.capacityStep, Address(a.page, a.slot)) == x;
    }
  }

  /** The set ids below `n`, in ascending order. */
  function SetIdsBelow<V>(c: Config<V>, t: Table<V>, n: nat): seq<nat>
    requires WellFormed(c, t)
  {
    if n == 0 then []
    else SetIdsBelow(c, t, n - 1) + (if Slot(c, t, n - 1).isSet then [n - 1] else [])
  }

  /** The scan below `n` lists the set ids below `n`, each once, ascending. */
  lemma {:induction false} SetIdsBelowExact<V>(c: Config<V>, t: Table<V>, n: nat)
    requires WellFormed(c, t)
    ensures forall i :: 0 <= i < |SetIdsBelow(c, t, n)| ==>
              SetIdsBelow(c, t, n)[i] < n && Slot(c, t, SetIdsBelow(c, t, n)[i]).isSet
    ensures forall i, j :: 0 <= i < j < |SetIdsBelow(c, t, n)| ==> SetIdsBelow(c, t, n)[i] < SetIdsBelow(c, t, n)[j]
    ensures forall x: nat :: x < n && Slot(c, t, x).isSet ==> x in SetIdsBelow(c, t, n)
  {
    if n > 0 {
      SetIdsBelowExact(c, t, n - 1);
      var prev := SetIdsBelow(c, t, n - 1);
      var ids := SetIdsBelow(c, t, n);
      assert ids == prev + (if Slot(c, t, n - 1).isSet then [n - 1] else []);
      assert forall i :: 0 <= i < |prev| ==> ids[i] == prev[i];
    }
  }

  /** One slot further, the collected ids grow by that slot's id when its flag is set. */
  lemma SetIdsStep<V>(c: Config<V>, t: Table<V>, a: Address)
    requires WellFormed(c, t) && a.page < |t| && a.slot < c.capacityStep
    ensures SetIdsBelow(c, t, IdOf(c.capacityStep, a) + 1) ==
            SetIdsBelow(c, t, IdOf(c.capacityStep, a)) +
            (if Cell(c, t, a).isSet then [IdOf(c.capacityStep, a)] else [])
  {
    SlotOfAddress(c, t, a);
  }

  /** Layer.QuerySet: every set id, ascending. */
  function QuerySet<V>(c: Config<V>, t: Table<V>): (r: seq<nat>)
    requires WellFormed(c, t)
    ensures forall i :: 0 <= i < |r| ==> r[i] < Capacity(c) && Slot(c, t, r[i]).isSet
  {
    SetIdsBelowExact(c, t, Capacity(c));
    SetIdsBelow(c, t, Capacity(c))
  }

  /** QuerySet yields exactly the ids whose flag is set, strictly ascending
      (so each once). */
  lemma QuerySetExact<V>(c: Config<V>, t: Table<V>)
    requires WellFormed(c, t)
    ensures forall x: nat :: x in QuerySet(c, t) <==> Slot(c, t, x).isSet
    ensures forall i, j :: 0 <= i < j < |QuerySet(c, t)| ==> QuerySet(c, t)[i] < QuerySet(c, t)[j]
  {
    SetIdsBelowExact(c, t, Capacity(c));
    forall x: nat | Slot(c, t, x).isSet
      ensures x < Capacity(c)
    {
    }
  }

  /** An unallocated page contributes no id to a scan. */
  lemma {:induction false} SkipUnallocatedPage<V>(c: Config<V>, t: Table<V>, p: nat, k: nat)
    requires WellFormed(c, t) && p < |t| && t[p].None? && k <= c.capacityStep
    ensures SetIdsBelow(c, t, p * c.capacityStep + k) == SetIdsBelow(c, t, p * c.capacityStep)
  {
    if k > 0 {
      SkipUnallocatedPage(c, t, p, k - 1);
      SlotOfAddress(c, t, Address(p, k - 1));
    }
  }

  /** A new layer has nothing set. */
  lemma EmptyHasNothingSet<V>(c: Config<V>)
    requires c.capacityStep > 0
    ensures forall x: nat :: Slot(c, Empty(c), x) == Unset(c)
    ensures QuerySet(c, Empty(c)) == []
  {
    NothingSetBelow(c, Empty(c), Capacity(c));
  }

  lemma {:induction false} NothingSetBelow<V>(c: Config<V>, t: Table<V>, n: nat)
    requires WellFormed(c, t)
    requires forall x: nat :: !Slot(c, t, x).isSet
    ensures SetIdsBelow(c, t, n) == []
  {
    if n > 0 {
      NothingSetBelow(c, t, n - 1);
    }
  }

  /** Marking an id unset twice is marking it unset once. */
  lemma MarkUnsetIdempotent<V>(c: Config<V>, t: Table<V>, id: nat)
    requires WellFormed(c, t)
    ensures MarkUnset(c, MarkUnset(c, t, id).0, id) == MarkUnset(c, t, id)
  {
    var l := Locate(c.layerCount, c.capacityStep, id);
    if l.Ok? && t[l.value.page].Some? {
      var a, pg := l.value, t[l.value.page].value;
      var pg1 := pg[a.slot := pg[a.slot].(isSet := false)];
      var t1 := t[a.page := Some(pg1)];
      assert MarkUnset(c, t, id) == (t1, Done);
      assert pg1[a.slot := pg1[a.slot].(isSet := false)] == pg1;
      assert t1[a.page := Some(pg1)] == t1;
      assert MarkUnset(c, t1, id) == (t1, Done);
    }
  }

  // ---- the per-element loops over a list of ids ----

  /** Update applied to each id in turn (Mutate over a list, and the parallel
      fan-out of MutateAllSet, run in list order); the first failure stops it. */
  function UpdateEach<V>(c: Config<V>, t: Table<V>, ids: seq<nat>, f: Option<UpdateRef<V>>): (r: (Table<V>, Outcome))
    requires WellFormed(c, t)
    ensures WellFormed(c, r.0)
    decreases |ids|
  {
    if ids == [] then (t, Done)
    else
      var (t1, o) := Update(c, t, ids[0], f);
      if o.Failed? then (t1, o) else UpdateEach(c, t1, ids[1..], f)
  }

  /** UpdateIfSet applied to each id in turn; the first failure stops it. */
  function UpdateIfSetEach<V>(c: Config<V>, t: Table<V>, ids: seq<nat>, f: Option<UpdateRef<V>>): (r: (Table<V>, Outcome))
    requires WellFormed(c, t)
    ensures WellFormed(c, r.0)
    decreases |ids|
  {
    if ids == [] then (t, Done)
    else
      var (t1, o) := UpdateIfSet(c, t, ids[0], f);
      if o.Failed? then (t1, o) else UpdateIfSetEach(c, t1, ids[1..], f)
  }

  /** The bulk MarkUnset as evidently intended: MarkUnset applied to each id in
      turn; the first failure stops it. */
  function MarkUnsetEach<V>(c: Config<V>, t: Table<V>, ids: seq<nat>): (r: (Table<V>, Outcome))
    requires WellFormed(c, t)
    ensures WellFormed(c, r.0)
    decreases |ids|
  {
    if ids == [] then (t, Done)
    else
      var (t1, o) := MarkUnset(c, t, ids[0]);
      if o.Failed? then (t1, o) else MarkUnsetEach(c, t1, ids[1..])
  }

  /** The bulk MarkUnset as written (Layer.cs:131-137): each iteration of the
      loop calls the bulk form again on the whole collection and never reaches
      the single-id MarkUnset. `fuel` bounds the nesting depth explored;
      None means the bound was reached without the call returning. */
  function MarkUnsetAllAsWritten<V>(c: Config<V>, t: Table<V>, ids: seq<nat>, fuel: nat): (r: Option<Table<V>>)
    ensures r.Some? ==> ids == [] && r.value == t
    decreases fuel
  {
    if ids == [] then Some(t)
    else if fuel == 0 then None
    else MarkUnsetAllAsWritten(c, t, ids, fuel - 1)
  }

  /** The bulk MarkUnset as written never returns for a non-empty collection,
      however deep the nesting is allowed to go. */
  lemma {:induction false} MarkUnsetAllAsWrittenDiverges<V>(c: Config<V>, t: Table<V>, ids: seq<nat>, fuel: nat)
    requires ids != []
    ensures MarkUnsetAllAsWritten(c, t, ids, fuel) == None
    decreases fuel
  {
    if fuel > 0 {
      MarkUnsetAllAsWrittenDiverges(c, t, ids, fuel - 1);
    }
  }

  /** The per-element bulk MarkUnset, for ids that are all addressable, clears
      exactly the listed flags, keeps every value and allocates nothing. */
  lemma {:induction false} MarkUnsetEachEffect<V>(c: Config<V>, t: Table<V>, ids: seq<nat>)
    requires WellFormed(c, t)
    requires forall i :: 0 <= i < |ids| ==> ids[i] < Capacity(c)
    ensures MarkUnsetEach(c, t, ids).1 == Done
    ensures forall x: nat :: Slot(c, MarkUnsetEach(c, t, ids).0, x) ==
              if x in ids then Slot(c, t, x).(isSet := false) else Slot(c, t, x)
    ensures forall p :: 0 <= p < |t| ==> (MarkUnsetEach(c, t, ids).0[p].None? <==> t[p].None?)
    decreases |ids|
  {
    if ids != [] {
      var t1 := MarkUnset(c, t, ids[0]).0;
      MarkUnsetEachEffect(c, t1, ids[1..]);
      assert forall x: nat :: x in ids <==> x == ids[0] || x in ids[1..];
    }
  }

  /** The per-element bulk MarkUnset fails exactly when some listed id lies
      outside the page table. */
  lemma {:induction false} MarkUnsetEachFailure<V>(c: Config<V>, t: Table<V>, ids: seq<nat>)
    requires WellFormed(c, t)
    ensures MarkUnsetEach(c, t, ids).1.Failed? <==> exists i :: 0 <= i < |ids| && ids[i] >= Capacity(c)
    decreases |ids|
  {
    if ids != [] {
      if ids[0] < Capacity(c) {
        MarkUnsetEachFailure(c, MarkUnset(c, t, ids[0]).0, ids[1..]);
        if exists i :: 0 <= i < |ids| && ids[i] >= Capacity(c) {
          var i :| 0 <= i < |ids| && ids[i] >= Capacity(c);
          assert ids[1..][i - 1] == ids[i];
        }
      }
    }
  }

  /** Update over a list fails exactly when some listed id lies outside the
      page table. */
  lemma {:induction false} UpdateEachFailure<V>(c: Config<V>, t: Table<V>, ids: seq<nat>, f: Option<UpdateRef<V>>)
    requires WellFormed(c, t)
    ensures UpdateEach(c, t, ids, f).1.Failed? <==> exists i :: 0 <= i < |ids| && ids[i] >= Capacity(c)
    decreases |ids|
  {
    if ids != [] {
      if ids[0] < Capacity(c) {
        UpdateEachFailure(c, Update(c, t, ids[0], f).0, ids[1..], f);
        if exists i :: 0 <= i < |ids| && ids[i] >= Capacity(c) {
          var i :| 0 <= i < |ids| && ids[i] >= Capacity(c);
          assert ids[1..][i - 1] == ids[i];
        }
      }
    }
  }

  /** Update over any list, repeated or unaddressable ids included, changes no
      id outside the list, never clears a flag and never drops a page. */
  lemma {:induction false} UpdateEachFrame<V>(c: Config<V>, t: Table<V>, ids: seq<nat>, f: Option<UpdateRef<V>>)
    requires WellFormed(c, t)
    ensures forall x: nat :: x !in ids ==> Slot(c, UpdateEach(c, t, ids, f).0, x) == Slot(c, t, x)
    ensures forall x: nat :: Slot(c, t, x).isSet ==> Slot(c, UpdateEach(c, t, ids, f).0, x).isSet
    ensures forall p :: 0 <= p < |t| && t[p].Some? ==> UpdateEach(c, t, ids, f).0[p].Some?
    decreases |ids|
  {
    if ids != [] {
      var (t1, o) := Update(c, t, ids[0], f);
      if o.Done? {
        UpdateEachFrame(c, t1, ids[1..], f);
        assert forall x: nat :: x in ids <==> x == ids[0] || x in ids[1..];
      }
    }
  }

  /** UpdateIfSet over a list fails exactly when some listed id lies outside
      the page table. */
  lemma {:induction false} UpdateIfSetEachFailure<V>(c: Config<V>, t: Table<V>, ids: seq<nat>, f: Option<UpdateRef<V>>)
    requires WellFormed(c, t)
    ensures UpdateIfSetEach(c, t, ids, f).1.Failed? <==> exists i :: 0 <= i < |ids| && ids[i] >= Capacity(c)
    decreases |ids|
  {
    if ids != [] {
      if ids[0] < Capacity(c) {
        UpdateIfSetEachFailure(c, UpdateIfSet(c, t, ids[0], f).0, ids[1..], f);
        if exists i :: 0 <= i < |ids| && ids[i] >= Capacity(c) {
          var i :| 0 <= i < |ids| && ids[i] >= Capacity(c);
          assert ids[1..][i - 1] == ids[i];
        }
      }
    }
  }

  /** UpdateIfSet over a list never changes a flag, never allocates, and changes
      no id outside the list. */
  lemma {:induction false} UpdateIfSetEachFrame<V>(c: Config<V>, t: Table<V>, ids: seq<nat>, f: Option<UpdateRef<V>>)
    requires WellFormed(c, t)
    ensures forall x: nat :: Slot(c, UpdateIfSetEach(c, t, ids, f).0, x).isSet == Slot(c, t, x).isSet
    ensures forall x: nat :: x !in ids ==> Slot(c, UpdateIfSetEach(c, t, ids, f).0, x) == Slot(c, t, x)
    ensures forall p :: 0 <= p < |t| ==> (UpdateIfSetEach(c, t, ids, f).0[p].None? <==> t[p].None?)
    ensures forall x: nat :: x in ids && !Slot(c, t, x).isSet ==> Slot(c, UpdateIfSetEach(c, t, ids, f).0, x) == Slot(c, t, x)
    decreases |ids|
  {
    if ids != [] {
      var (t1, o) := UpdateIfSet(c, t, ids[0], f);
      if o.Done? {
        UpdateIfSetEachFrame(c, t1, ids[1..], f);
        assert forall x: nat :: x in ids <==> x == ids[0] || x in ids[1..];
      }
    }
  }

  /** UpdateIfSet over ids that are all addressable completes, and over a list
      without repetitions applies the callback exactly once to each listed id
      whose flag is set. */
  lemma {:induction false} UpdateIfSetEachEffect<V>(c: Config<V>, t: Table<V>, ids: seq<nat>, f: Option<UpdateRef<V>>)
    requires WellFormed(c, t)
    requires forall i :: 0 <= i < |ids| ==> ids[i] < Capacity(c)
    requires forall i, j :: 0 <= i < j < |ids| ==> ids[i] != ids[j]
    ensures UpdateIfSetEach(c, t, ids, f).1 == Done
    ensures forall x: nat :: Slot(c, UpdateIfSetEach(c, t, ids, f).0, x) ==
              if x in ids && Slot(c, t, x).isSet then Property(true, Apply(f, x, Slot(c, t, x).value))
              else Slot(c, t, x)
    decreases |ids|
  {
    if ids != [] {
      var t1 := UpdateIfSet(c, t, ids[0], f).0;
      UpdateIfSetEachEffect(c, t1, ids[1..], f);
      assert forall x: nat :: x in ids <==> x == ids[0] || x in ids[1..];
      assert ids[0] !in ids[1..] by {
        forall j | 0 <= j < |ids[1..]| ensures ids[1..][j] != ids[0] {
          assert ids[1..][j] == ids[j + 1];
        }
      }
    }
  }

  /** Update over a list of distinct addressable ids marks each of them set
      and applies the callback to each exactly once; every other id keeps its
      slot. */
  lemma {:induction false} UpdateEachEffect<V>(c: Config<V>, t: Table<V>, ids: seq<nat>, f: Option<UpdateRef<V>>)
    requires WellFormed(c, t)
    requires forall i :: 0 <= i < |ids| ==> ids[i] < Capacity(c)
    requires forall i, j :: 0 <= i < j < |ids| ==> ids[i] != ids[j]
    ensures UpdateEach(c, t, ids, f).1 == Done
    ensures forall x: nat :: Slot(c, UpdateEach(c, t, ids, f).0, x) ==
              if x in ids then Property(true, Apply(f, x, Slot(c, t, x).value)) else Slot(c, t, x)
    decreases |ids|
  {
    if ids != [] {
      var t1 := Update(c, t, ids[0], f).0;
      UpdateEachEffect(c, t1, ids[1..], f);
      assert forall x: nat :: x in ids <==> x == ids[0] || x in ids[1..];
      assert ids[0] !in ids[1..] by {
        forall j | 0 <= j < |ids[1..]| ensures ids[1..][j] != ids[0] {
          assert ids[1..][j] == ids[j + 1];
        }
      }
    }
  }

  /** Update over a list of distinct ids whose flags are all set applies the
      callback once to each of them and allocates nothing. */
  lemma {:induction false} UpdateEachOverSetIds<V>(c: Config<V>, t: Table<V>, ids: seq<nat>, f: UpdateRef<V>)
    requires WellFormed(c, t)
    requires forall i :: 0 <= i < |ids| ==> Slot(c, t, ids[i]).isSet
    requires forall i, j :: 0 <= i < j < |ids| ==> ids[i] != ids[j]
    ensures UpdateEach(c, t, ids, Some(f)).1 == Done
    ensures forall x: nat :: Slot(c, UpdateEach(c, t, ids, Some(f)).0, x) ==
              if x in ids then Property(true, f(x, Slot(c, t, x).value)) else Slot(c, t, x)
    ensures forall p :: 0 <= p < |t| ==> (UpdateEach(c, t, ids, Some(f)).0[p].None? <==> t[p].None?)
    decreases |ids|
  {
    if ids != [] {
      var id := ids[0];
      assert id < Capacity(c);
      var a := Locate(c.layerCount, c.capacityStep, id).value;
      assert t[a.page].Some?;
      var t1 := Update(c, t, id, Some(f)).0;
      assert forall p :: 0 <= p < |t| ==> (t1[p].None? <==> t[p].None?);
      assert ids[0] !in ids[1..] by {
        forall j | 0 <= j < |ids[1..]| ensures ids[1..][j] != ids[0] {
          assert ids[1..][j] == ids[j + 1];
        }
      }
      forall i | 0 <= i < |ids[1..]| ensures Slot(c, t1, ids[1..][i]).isSet {
        assert ids[1..][i] == ids[i + 1];
      }
      UpdateEachOverSetIds(c, t1, ids[1..], f);
      assert forall x: nat :: x in ids <==> x == id || x in ids[1..];
    }
  }

  /** The parallel fan-out of MutateAllSet (QuerySet, then Update per id) ends
      in the same page table as the sequential UpdateSet, whatever order a
      duplicate-free enumeration of the set ids takes. */
  lemma FanOutMatchesUpdateAllSet<V>(c: Config<V>, t: Table<V>, ids: seq<nat>, f: UpdateRef<V>)
    requires WellFormed(c, t)
    requires forall x: nat :: x in ids <==> Slot(c, t, x).isSet
    requires forall i, j :: 0 <= i < j < |ids| ==> ids[i] != ids[j]
    ensures UpdateEach(c, t, ids, Some(f)) == (UpdateAllSet(c, t, f), Done)
  {
    UpdateEachOverSetIds(c, t, ids, f);
    var par, seqr := UpdateEach(c, t, ids, Some(f)).0, UpdateAllSet(c, t, f);
    forall x ensures Slot(c, par, x) == Slot(c, seqr, x) {
      UpdateAllSetSlot(c, t, f, x);
    }
    SlotsDetermineTable(c, par, seqr);
  }

  /** In particular, the ascending scan QuerySet is such an enumeration. */
  lemma QuerySetFanOut<V>(c: Config<V>, t: Table<V>, f: UpdateRef<V>)
    requires WellFormed(c, t)
    ensures UpdateEach(c, t, QuerySet(c, t), Some(f)) == (UpdateAllSet(c, t, f), Done)
  {
    QuerySetExact(c, t);
    var q := QuerySet(c, t);
    forall i, j | 0 <= i < j < |q| ensures q[i] != q[j] {
    }
    FanOutMatchesUpdateAllSet(c, t, q, f);
  }
}
