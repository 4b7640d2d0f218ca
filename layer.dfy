/** The paged column store of one property type (Layer.cs): a jagged array of
    lazily allocated pages of `(IsSet, Value)` slots, updated in place. Every
    method is proved to change the ghost `Contents` exactly as the matching
    function of `Columns` says. */
module Layers {
  import opened Paging
  import opened Columns

  class Layer<V> {
    const layerCount: nat
    const capacityStep: nat
    /** The default value of the property type. */
    const zero: V
    /** The page table; a null entry is a page not allocated yet. */
    const pages: array<array?<Property<V>>>

    /** The page table as a value. */
    ghost var Contents: Table<V>
    /** The objects this layer owns: itself, the page table and every allocated page. */
    ghost var Repr: set<object>

    ghost function Shape(): Config<V> {
      Config(layerCount, capacityStep, zero)
    }

    ghost predicate Valid()
      reads this, Repr
      ensures Valid() ==> this in Repr && WellFormed(Shape(), Contents)
    {
      && this in Repr && pages in Repr
      && capacityStep > 0
      && pages.Length == layerCount
      && |Contents| == layerCount
      && (forall p :: 0 <= p < layerCount ==>
            if pages[p] == null then Contents[p] == None
            else pages[p] in Repr && pages[p].Length == capacityStep && Contents[p] == Some(pages[p][..]))
      && (forall p, q :: 0 <= p < q < layerCount && pages[p] != null ==> pages[p] != pages[q])
    }

    /** A layer of `layerCount` pages of `capacityStep` slots, none allocated. */
    constructor (layerCount: nat, capacityStep: nat, zero: V)
      requires capacityStep > 0
      ensures Valid() && fresh(Repr)
      ensures this.layerCount == layerCount && this.capacityStep == capacityStep && this.zero == zero
      ensures Contents == Empty(Shape())
    {
      this.layerCount := layerCount;
      this.capacityStep := capacityStep;
      this.zero := zero;
      pages := new array?<Property<V>>[layerCount](_ => null);
      Contents := Empty(Config(layerCount, capacityStep, zero));
      Repr := {this, pages};
    }

    /** The page `p`, allocated filled with `(false, zero)` if it was absent. */
    method EnsurePage(p: nat) returns (page: array<Property<V>>)
      requires Valid() && p < layerCount
      modifies Repr
      ensures Valid() && fresh(Repr - old(Repr))
      ensures page == pages[p] && page in Repr && page.Length == capacityStep
      ensures Contents == Allocate(Shape(), old(Contents), p)
    {
      var current := pages[p];
      if current == null {
        page := new Property<V>[capacityStep](_ => Property(false, zero));
        assert page[..] == BlankPage(Shape());
        pages[p] := page;
        Repr := Repr + {page};
        Contents := Contents[p := Some(page[..])];
      } else {
        page := current;
      }
    }

    /** Layer.Get: the value of the id's slot, allocating its page on the way. */
    method Get(id: nat) returns (r: Result<V>)
      requires Valid()
      modifies Repr
      ensures Valid() && fresh(Repr - old(Repr))
      ensures (Contents, r) == Columns.Get(Shape(), old(Contents), id)
    {
      var ix := Locate(layerCount, capacityStep, id);
      if ix.Err? {
        return Err(ix.fault);
      }
      var page := EnsurePage(ix.value.page);
      r := Ok(page[ix.value.slot].value);
    }

    /** Layer.Update: set the id's flag and apply the callback to its value. */
    method Update(id: nat, f: Option<UpdateRef<V>>) returns (r: Outcome)
      requires Valid()
      modifies Repr
      ensures Valid() && fresh(Repr - old(Repr))
      ensures (Contents, r) == Columns.Update(Shape(), old(Contents), id, f)
    {
      var ix := Locate(layerCount, capacityStep, id);
      if ix.Err? {
        return Failed(ix.fault);
      }
      var a := ix.value;
      var page := EnsurePage(a.page);
      ghost var pg := page[..];
      if !page[a.slot].isSet {
        page[a.slot] := Property(true, page[a.slot].value);
      }
      if f.Some? {
        page[a.slot] := Property(page[a.slot].isSet, f.value(id, page[a.slot].value));
      }
      assert page[..] == pg[a.slot := Property(true, Apply(f, id, pg[a.slot].value))];
      Contents := Contents[a.page := Some(page[..])];
      r := Done;
    }

    /** Layer.IsSet: the id's flag; an unallocated page reads false and stays unallocated. */
    function IsSet(id: nat): (r: Result<bool>)
      reads this, Repr
      requires Valid()
      ensures r == Columns.IsSet(Shape(), Contents, id)
    {
      var ix := Locate(layerCount, capacityStep, id);
      if ix.Err? then Err(ix.fault)
      else if pages[ix.value.page] != null then Ok(pages[ix.value.page][ix.value.slot].isSet)
      else Ok(false)
    }

    /** UpdateIfSet, which the entity set calls: Update, only when the flag is set. */
    method UpdateIfSet(id: nat, f: Option<UpdateRef<V>>) returns (r: Outcome)
      requires Valid()
      modifies Repr
      ensures Valid() && fresh(Repr - old(Repr))
      ensures (Contents, r) == Columns.UpdateIfSet(Shape(), old(Contents), id, f)
    {
      var present := IsSet(id);
      match present
      case Err(e) =>
        r := Failed(e);
      case Ok(isSet) =>
        if isSet {
          r := Update(id, f);
        } else {
          r := Done;
        }
    }

    /** Layer.UpdateSet: the callback applied to every set slot, page by page
        and slot by slot, that is in ascending id order. */
    method UpdateSet(f: UpdateRef<V>)
      requires Valid()
      modifies Repr
      ensures Valid() && Repr == old(Repr)
      ensures Contents == UpdateAllSet(Shape(), old(Contents), f)
    {
      ghost var goal := UpdateAllSet(Shape(), old(Contents), f);
      var layerIndex := 0;
      var base := 0;
      while layerIndex < pages.Length
        invariant 0 <= layerIndex <= pages.Length
        invariant base == layerIndex * capacityStep
        invariant Valid() && Repr == old(Repr)
        invariant pages[..] == old(pages[..])
        invariant forall p :: 0 <= p < layerIndex ==> Contents[p] == goal[p]
        invariant forall p :: layerIndex <= p < layerCount ==> Contents[p] == old(Contents)[p]
      {
        var page := pages[layerIndex];
        if page != null {
          ghost var pg := page[..];
          assert old(Contents)[layerIndex] == Some(pg);
          var layerLength := page.Length;
          var propertyIndex := 0;
          label before:
          while propertyIndex < layerLength
            invariant 0 <= propertyIndex <= layerLength
            invariant forall s :: 0 <= s < propertyIndex ==>
                        page[s] == UpdatePage(Shape(), pg, layerIndex, f)[s]
            invariant forall s :: propertyIndex <= s < layerLength ==> page[s] == pg[s]
            modifies page
          {
            ghost var want := UpdatePage(Shape(), pg, layerIndex, f);
            assert |want| == |pg| == layerLength;
            assert IdOf(Shape().capacityStep, Address(layerIndex, propertyIndex)) == base + propertyIndex;
            assert want[propertyIndex] == if pg[propertyIndex].isSet
              then Property(true, f(base + propertyIndex, pg[propertyIndex].value)) else pg[propertyIndex];
            if page[propertyIndex].isSet {
              page[propertyIndex] :=
                Property(true, f(base + propertyIndex, page[propertyIndex].value));
            }
            propertyIndex := propertyIndex + 1;
          }
          assert page[..] == UpdatePage(Shape(), pg, layerIndex, f);
          assert forall p :: 0 <= p < layerCount && p != layerIndex && pages[p] != null ==>
                   pages[p] != page && pages[p][..] == old@before(pages[p][..]);
          Contents := Contents[layerIndex := Some(page[..])];
        }
        assert (layerIndex + 1) * capacityStep == base + capacityStep;
        base := base + capacityStep;
        layerIndex := layerIndex + 1;
      }
    }

    /** Layer.QuerySet: the set ids, collected page by page and slot by slot. */
    method QuerySet() returns (ids: seq<nat>)
      requires Valid()
      ensures ids == Columns.QuerySet(Shape(), Contents)
    {
      ids := [];
      var layerIndex := 0;
      var base := 0;
      while layerIndex < pages.Length
        invariant 0 <= layerIndex <= pages.Length
        invariant base == layerIndex * capacityStep
        invariant ids == SetIdsBelow(Shape(), Contents, base)
      {
        if pages[layerIndex] != null {
          ids := ScanPage(layerIndex, base, ids);
        } else {
          assert Contents[layerIndex] == None;
          SkipUnallocatedPage(Shape(), Contents, layerIndex, capacityStep);
        }
        assert ids == SetIdsBelow(Shape(), Contents, base + capacityStep);
        assert (layerIndex + 1) * capacityStep == base + capacityStep;
        base := base + capacityStep;
        layerIndex := layerIndex + 1;
      }
    }

    /** The inner loop of QuerySet: the set ids of one allocated page appended. */
    method ScanPage(layerIndex: nat, base: nat, ids: seq<nat>) returns (ids': seq<nat>)
      requires Valid() && layerIndex < layerCount && pages[layerIndex] != null
      requires base == layerIndex * capacityStep
      requires ids == SetIdsBelow(Shape(), Contents, base)
      ensures ids' == SetIdsBelow(Shape(), Contents, base + capacityStep)
    {
      var page := pages[layerIndex];
      assert Contents[layerIndex] == Some(page[..]);
      ids' := ids;
      var layerLength := page.Length;
      var propertyIndex := 0;
      while propertyIndex < layerLength
        invariant 0 <= propertyIndex <= layerLength
        invariant ids' == SetIdsBelow(Shape(), Contents, base + propertyIndex)
      {
        SetIdsStep(Shape(), Contents, Address(layerIndex, propertyIndex));
        if page[propertyIndex].isSet {
          ids' := ids' + [base + propertyIndex];
        }
        propertyIndex := propertyIndex + 1;
      }
    }

    /** Layer.MarkUnset: clear the id's flag if its page is allocated. */
    method MarkUnset(id: nat) returns (r: Outcome)
      requires Valid()
      modifies Repr
      ensures Valid() && Repr == old(Repr)
      ensures (Contents, r) == Columns.MarkUnset(Shape(), old(Contents), id)
    {
      var ix := Locate(layerCount, capacityStep, id);
      if ix.Err? {
        return Failed(ix.fault);
      }
      var a := ix.value;
      var page := pages[a.page];
      if page != null {
        page[a.slot] := Property(false, page[a.slot].value);
        Contents := Contents[a.page := Some(page[..])];
      }
      r := Done;
    }

    /** The bulk MarkUnset as evidently intended: the single-id form for each
        id in turn, stopping at the first failure. */
    method MarkUnsetEach(ids: seq<nat>) returns (r: Outcome)
      requires Valid()
      modifies Repr
      ensures Valid() && Repr == old(Repr)
      ensures (Contents, r) == Columns.MarkUnsetEach(Shape(), old(Contents), ids)
    {
      var i := 0;
      while i < |ids|
        invariant 0 <= i <= |ids|
        invariant Valid() && Repr == old(Repr)
        invariant Columns.MarkUnsetEach(Shape(), Contents, ids[i..]) ==
                  Columns.MarkUnsetEach(Shape(), old(Contents), ids)
      {
        assert ids[i..][1..] == ids[i + 1..];
        var o := MarkUnset(ids[i]);
        if o.Failed? {
          return o;
        }
        i := i + 1;
      }
      r := Done;
    }
  }
}
