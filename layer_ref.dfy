/** The set-based occupancy index (LayerRef.cs): a column store paired with a
    set of the ids marked present. The entity set does not use it; it stands
    on its own here. */
module LayerRefs {
  import opened Columns
  import opened Layers

  /** `s` with `id` added when `present` holds and removed otherwise. */
  function Mark(s: set<nat>, id: nat, present: bool): (r: set<nat>)
    ensures id in r <==> present
    ensures forall x :: x != id ==> (x in r <==> x in s)
  {
    if present then s + {id} else s - {id}
  }

  /** Marking the same id with the same flag twice is marking it once. */
  lemma MarkIdempotent(s: set<nat>, id: nat, present: bool)
    ensures Mark(Mark(s, id, present), id, present) == Mark(s, id, present)
  {
    var once := Mark(s, id, present);
    var twice := Mark(once, id, present);
    forall x ensures x in twice <==> x in once {
      if x == id {
        assert (x in twice) == present == (x in once);
      }
    }
  }

  /** A later mark of an id overrides an earlier one. */
  lemma MarkOverrides(s: set<nat>, id: nat, first: bool, second: bool)
    ensures Mark(Mark(s, id, first), id, second) == Mark(s, id, second)
  {
    var r1 := Mark(Mark(s, id, first), id, second);
    var r2 := Mark(s, id, second);
    forall x ensures x in r1 <==> x in r2 {
      if x == id {
        assert (x in r1) == second == (x in r2);
      }
    }
  }

  /** A non-empty set of naturals has a least element: descend from any
      member to a smaller one until none is left. */
  lemma {:induction false} LeastExists(s: set<nat>)
    requires s != {}
    ensures exists m :: m in s && forall y :: y in s ==> m <= y
  {
    var x :| x in s;
    LeastBelow(s, x);
  }

  lemma {:induction false} LeastBelow(s: set<nat>, x: nat)
    requires x in s
    ensures exists m :: m in s && forall y :: y in s ==> m <= y
    decreases x
  {
    if y :| y in s && y < x {
      LeastBelow(s, y);
    } else {
      assert forall y :: y in s ==> x <= y;
    }
  }

  /** The least element of a non-empty set of naturals. */
  function Least(s: set<nat>): (m: nat)
    requires s != {}
    ensures m in s && forall y :: y in s ==> m <= y
  {
    LeastExists(s);
    var m :| m in s && forall y :: y in s ==> m <= y;
    m
  }

  /** The elements of a set, each once, in ascending order. */
  function Elements(s: set<nat>): (r: seq<nat>)
    ensures |r| == |s|
    ensures forall x :: x in r <==> x in s
    ensures forall i, j :: 0 <= i < j < |r| ==> r[i] < r[j]
    decreases |s|
  {
    if s == {} then []
    else
      var m := Least(s);
      var rest := Elements(s - {m});
      assert forall i :: 0 <= i < |rest| ==> m < rest[i] by {
        forall i | 0 <= i < |rest| ensures m < rest[i] {
          assert rest[i] in s - {m};
        }
      }
      [m] + rest
  }

  class LayerRef<V> {
    const capacityStep: nat
    /** The column store this index accompanies. */
    const layer: Layer<V>
    /** The ids marked present. */
    var setEntities: set<nat>

    ghost var Repr: set<object>

    ghost predicate Valid()
      reads this, Repr
    {
      && this in Repr && layer in Repr
      && layer.Repr <= Repr && this !in layer.Repr
      && layer.Valid()
      && layer.capacityStep == capacityStep
    }

    /** An index with nothing present, over a new layer of the given geometry. */
    constructor (layerCapacity: nat, capacityStep: nat, zero: V)
      requires capacityStep > 0
      ensures Valid() && fresh(Repr)
      ensures this.capacityStep == capacityStep
      ensures layer.layerCount == layerCapacity && layer.capacityStep == capacityStep
      ensures layer.Contents == Empty(layer.Shape())
      ensures setEntities == {}
      ensures SetEntities() == []
    {
      this.capacityStep := capacityStep;
      var l := new Layer(layerCapacity, capacityStep, zero);
      layer := l;
      setEntities := {};
      Repr := {this} + l.Repr;
    }

    /** LayerRef.SetEntities: the present ids, each once (ascending). */
    function SetEntities(): (ids: seq<nat>)
      reads this
      ensures |ids| == |setEntities|
      ensures forall x :: x in ids <==> x in setEntities
      ensures forall i, j :: 0 <= i < j < |ids| ==> ids[i] != ids[j]
    {
      Elements(setEntities)
    }

    /** LayerRef.IsSet: whether the id is marked present; the ids it holds
        are exactly the ones SetEntities enumerates. */
    function IsSet(id: nat): (r: bool)
      reads this
      ensures r <==> id in SetEntities()
    {
      id in setEntities
    }

    /** LayerRef.MarkSet: add the id when `present`, remove it otherwise;
        the membership of every other id and the layer are unchanged. */
    method MarkSet(id: nat, present: bool := true)
      requires Valid()
      modifies this
      ensures Valid() && Repr == old(Repr)
      ensures setEntities == Mark(old(setEntities), id, present)
      ensures IsSet(id) == present
      ensures forall x: nat :: x != id ==> IsSet(x) == old(IsSet(x))
      ensures layer.Contents == old(layer.Contents)
    {
      if present {
        setEntities := setEntities + {id};
      } else {
        setEntities := setEntities - {id};
      }
    }
  }
}
