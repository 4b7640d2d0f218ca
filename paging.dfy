/** Identity-to-address arithmetic of a paged column store.

    An identity selects page `id / capacityStep` and slot `id % capacityStep`
    of a page table that holds `layerCount` pages of `capacityStep` slots. */
module Paging {

  /** The failures the column stores and the entity set report. */
  datatype Fault =
    | EntityUndefined    // EntityUndefinedException: the id is not a live reserved id
    | CapacityExceeded   // CapacityException: the page index lies past the page table
    | IndexOutOfRange    // the page table's own bounds check: page index == layerCount

  datatype Result<T> = Ok(value: T) | Err(fault: Fault)

  /** The completion of an operation that returns nothing. */
  datatype Outcome = Done | Failed(fault: Fault)

  datatype Option<T> = None | Some(value: T)

  datatype Address = Address(page: nat, slot: nat)

  /** The id an address stands for. */
  function IdOf(capacityStep: nat, a: Address): nat {
    a.page * capacityStep + a.slot
  }

  /** A positive multiple of a natural number is at least that number. */
  lemma MulAtLeast(k: int, n: nat)
    requires k >= 1
    ensures k * n >= n
  {
    assert k * n == (k - 1) * n + n;
    assert (k - 1) * n >= 0;
  }

  /** Euclidean division by a positive divisor has a unique quotient and remainder. */
  lemma DivModUnique(id: nat, capacityStep: nat, page: nat, slot: nat)
    requires capacityStep > 0 && slot < capacityStep
    requires id == page * capacityStep + slot
    ensures id / capacityStep == page && id % capacityStep == slot
  {
    var q, r := id / capacityStep, id % capacityStep;
    assert q * capacityStep + r == page * capacityStep + slot;
    if q > page {
      assert (q - page) * capacityStep == q * capacityStep - page * capacityStep;
      MulAtLeast(q - page, capacityStep);
      assert false;
    } else if q < page {
      assert (page - q) * capacityStep == page * capacityStep - q * capacityStep;
      MulAtLeast(page - q, capacityStep);
      assert false;
    }
  }

  /** The quotient is below `layerCount` exactly when the id is below the capacity. */
  lemma QuotientBound(id: nat, capacityStep: nat, layerCount: nat)
    requires capacityStep > 0
    ensures id / capacityStep < layerCount <==> id < layerCount * capacityStep
    ensures id / capacityStep == layerCount ==> id >= layerCount * capacityStep
  {
    var q, r := id / capacityStep, id % capacityStep;
    assert id == q * capacityStep + r;
    if q < layerCount {
      assert (layerCount - q) * capacityStep == layerCount * capacityStep - q * capacityStep;
      MulAtLeast(layerCount - q, capacityStep);
    } else {
      assert (q - layerCount) * capacityStep == q * capacityStep - layerCount * capacityStep;
      if q > layerCount {
        MulAtLeast(q - layerCount, capacityStep);
      }
    }
  }

  /** GetIndex as the source writes it (Layer.cs:42-49): the check refuses only
      a quotient strictly greater than `layerCount`. */
  function GetIndex(layerCount: nat, capacityStep: nat, id: nat): (r: Result<Address>)
    requires capacityStep > 0
    ensures r.Ok? ==> r.value.slot < capacityStep && IdOf(capacityStep, r.value) == id
    ensures r.Ok? <==> id < (layerCount + 1) * capacityStep
    ensures r.Ok? ==> r.value.page <= layerCount
    ensures r.Err? ==> r.fault == CapacityExceeded && id >= layerCount * capacityStep
  {
    GetIndexBounds(layerCount, capacityStep, id);
    var q := id / capacityStep;
    if q > layerCount then Err(CapacityExceeded) else Ok(Address(q, id % capacityStep))
  }

  /** The facts GetIndex's check rests on, stated on the quotient. */
  lemma GetIndexBounds(layerCount: nat, capacityStep: nat, id: nat)
    requires capacityStep > 0
    ensures id / capacityStep <= layerCount <==> id < (layerCount + 1) * capacityStep
    ensures id / capacityStep > layerCount ==> id >= layerCount * capacityStep
    ensures IdOf(capacityStep, Address(id / capacityStep, id % capacityStep)) == id
  {
    QuotientBound(id, capacityStep, layerCount);
    QuotientBound(id, capacityStep, layerCount + 1);
  }

  /** The address check every column-store operation performs: GetIndex's own
      check, followed by the bounds check of the page table, which the source
      leaves to the array access and which fails for a quotient equal to
      `layerCount`. Only addresses inside the page table are ever returned. */
  function Locate(layerCount: nat, capacityStep: nat, id: nat): (r: Result<Address>)
    requires capacityStep > 0
    ensures r.Ok? <==> id < layerCount * capacityStep
    ensures r.Ok? ==> r.value.page < layerCount && r.value.slot < capacityStep
    ensures r.Ok? ==> IdOf(capacityStep, r.value) == id
    ensures r.Err? ==> (r.fault == IndexOutOfRange <==> id / capacityStep == layerCount)
    ensures r.Err? ==> r.fault != EntityUndefined
  {
    QuotientBound(id, capacityStep, layerCount);
    var q := id / capacityStep;
    if q > layerCount then Err(CapacityExceeded)
    else if q == layerCount then Err(IndexOutOfRange)
    else Ok(Address(q, id % capacityStep))
  }

  /** Every address inside the page table is the address of exactly one id:
      Locate and IdOf are inverse to each other. */
  lemma LocateIdOf(layerCount: nat, capacityStep: nat, a: Address)
    requires capacityStep > 0 && a.page < layerCount && a.slot < capacityStep
    ensures Locate(layerCount, capacityStep, IdOf(capacityStep, a)) == Ok(a)
  {
    DivModUnique(IdOf(capacityStep, a), capacityStep, a.page, a.slot);
  }

  /** Distinct ids are stored at distinct addresses. */
  lemma LocateInjective(layerCount: nat, capacityStep: nat, x: nat, y: nat)
    requires capacityStep > 0
    requires Locate(layerCount, capacityStep, x).Ok? && Locate(layerCount, capacityStep, y).Ok?
    requires x != y
    ensures Locate(layerCount, capacityStep, x) != Locate(layerCount, capacityStep, y)
  {
  }

  /** Wherever Locate succeeds, it agrees with GetIndex; wherever GetIndex fails,
      Locate fails with the same fault. */
  lemma LocateRefinesGetIndex(layerCount: nat, capacityStep: nat, id: nat)
    requires capacityStep > 0
    ensures Locate(layerCount, capacityStep, id).Ok? ==>
              GetIndex(layerCount, capacityStep, id) == Locate(layerCount, capacityStep, id)
    ensures GetIndex(layerCount, capacityStep, id).Err? ==>
              Locate(layerCount, capacityStep, id) == Err(CapacityExceeded)
  {
  }

  /** The off-by-one in GetIndex: the first id past the capacity passes the
      check and yields page `layerCount`, one past the last page of the table,
      while Locate refuses it. */
  lemma GetIndexAdmitsPageTableEnd(layerCount: nat, capacityStep: nat)
    requires capacityStep > 0
    ensures GetIndex(layerCount, capacityStep, layerCount * capacityStep) == Ok(Address(layerCount, 0))
    ensures Locate(layerCount, capacityStep, layerCount * capacityStep) == Err(IndexOutOfRange)
  {
    DivModUnique(layerCount * capacityStep, capacityStep, layerCount, 0);
  }
}
