# Outrage.Entities — a verified model of the entity set

Outrage.Entities is an entity–component store. An `EntitySet` hands out
integer entity ids and keeps one column store (`Layer<T>`) per property
type. A column store is a page table of `layerCount` pages with
`capacityStep` slots each. Pages are allocated lazily. Each slot holds an
`IsSet` flag and the property value. An id `x` lives at page
`x / capacityStep`, slot `x % capacityStep`. Operations read, write or scan
those slots. `LayerRef<T>` is a separate presence index that keeps a hash
set of the ids marked present next to a layer.

The model is imperative where the source is:

- `Layers.Layer` is a class over an `array` of nullable page `array`s,
  updated in place.
- `Entities.EntitySet` is a class holding the allocator fields and a map
  from property tag to layer.
- `LayerRefs.LayerRef` is a class with a `set` field.

Every method is proved against a pure definition:

- `Columns` defines the state of one layer as a value (`Table`) and every
  layer operation as a function on it.
- `EntityStore` does the same for the whole entity set (`Store`). Where the
  source leaves a choice to hash-set or dictionary order, it uses a relation
  (`Reserved`, `ReservedMany`, `ClearedMany`).
- The lemmas in `Columns`, `EntityStore` and `EntityLaws` state what those
  definitions guarantee. Among them are the scenarios of the repository's
  entity tests.

Property types become a type parameter `Tag` (one tag per C# struct type)
and a shared value type `V`. The update callback `UpdateRef<T>` becomes a
pure function `(id, old value) -> new value`. Exceptions become `Fault`
values:

- `EntityUndefined` for `EntityUndefinedException`;
- `CapacityExceeded` for `CapacityException`;
- `IndexOutOfRange` for the array-bounds exception the page table throws.

An operation returns the first fault it meets. A loop stops at that point,
as the exception would stop it.

Behaviours of the code worth knowing, all proved:

- `Get` checks only the allocator. An id that was released and reserved
  again reads the value it had before it was released
  (`EntityLaws.RecycledIdReadsStaleValue`).
- `Clear(id)` does not check that the id was ever issued. Clearing id 0 in
  a new entity set gives a count of -1. The next two reservations then
  both hand out id 0 (`EntityLaws.ClearOfUnissuedId`).
- `Mutate` does not check that the id is reserved.
- `Has` fails for an id past the capacity when the tag has a layer. Its doc
  comment promises a boolean; the model follows the code.
- The first pass of `ReserveEntityIds` takes released ids. The second
  issues the high-water mark, and skips a mark already held (a released id
  that was never issued).

Files:

- `paging.dfy` (`Paging`): ids to page/slot addresses. `GetIndex` is the
  check as written. `Locate` is the address the layer operations reach: it
  refuses the ids the intended check would refuse, but reports the quotient
  `layerCount` as IndexOutOfRange, as the page-table access does.
- `columns.dfy` (`Columns`): one layer as a value.
- `layer.dfy` (`Layers`): the `Layer` class.
- `layer_ref.dfy` (`LayerRefs`): the `LayerRef` class.
- `entity_store.dfy` (`EntityStore`): the entity set as a value.
- `entity_set.dfy` (`Entities`): the `EntitySet` class.
- `entity_laws.dfy` (`EntityLaws`): laws across operations and the test
  scenarios.

## Model

| member | source | states |
|---|---|---|
| Paging.GetIndex | src/Outrage.Entities/Layer.cs:42-49 | the address check as written: it accepts exactly the ids below `(layerCount + 1) * capacityStep`, splitting each into quotient and remainder with `id == page * capacityStep + slot`, so the page may equal `layerCount`; every other id fails with CapacityExceeded |
| Paging.Locate | src/Outrage.Entities/Layer.cs:42-49 | the address every layer operation reaches: it succeeds exactly for ids below `layerCount * capacityStep`, on a page inside the table; quotient `layerCount` fails as the array bound does (IndexOutOfRange), larger quotients with CapacityExceeded |
| Paging.LocateIdOf | src/Outrage.Entities/Layer.cs:99 | every page/slot address inside the table is where the id `page * capacityStep + slot` is stored, the id the scans report for it |
| Paging.LocateInjective | src/Outrage.Entities/Layer.cs:42-49 | two distinct addressable ids never share a slot |
| Paging.LocateRefinesGetIndex | src/Outrage.Entities/Layer.cs:42-49 | where Locate succeeds GetIndex gives the same address, and where GetIndex fails Locate fails with the same fault |
| Paging.GetIndexAdmitsPageTableEnd | src/Outrage.Entities/Layer.cs:45 | the id `layerCount * capacityStep` passes GetIndex's check with page `layerCount`, one past the table, where Locate refuses it |
| Columns.BlankPage | src/Outrage.Entities/Layer.cs:4-14 | a new page has `capacityStep` slots, each unset and holding the default value |
| Columns.Empty | src/Outrage.Entities/Layer.cs:29-34 | a new layer has `layerCount` page entries, none allocated |
| Columns.SlotOfAddress | src/Outrage.Entities/Layer.cs:42-49 | the slot an id reads is the cell at the id's address |
| Columns.SlotsDetermineTable | src/Outrage.Entities/Layer.cs:20 | two tables that allocate the same pages and agree on every id's slot are equal |
| Columns.Allocate | src/Outrage.Entities/Layer.cs:59-63 | allocating an absent page leaves every other page alone, leaves an allocated page as it was, and changes what no id reads |
| Columns.Get | src/Outrage.Entities/Layer.cs:56-66 | succeeds exactly for ids below the capacity, yielding the slot's value and leaving the id's page allocated; it never changes a slot; a failure leaves the table untouched |
| Columns.Update | src/Outrage.Entities/Layer.cs:73-86 | succeeds exactly below the capacity; the id's slot becomes set with the callback applied to its old value (the value unchanged without a callback); no other id's slot changes; allocated pages stay allocated |
| Columns.IsSet | src/Outrage.Entities/Layer.cs:122-129 | succeeds exactly below the capacity, yielding the slot's flag, which is false on an unallocated page; it fails with the address fault otherwise |
| Columns.MarkUnset | src/Outrage.Entities/Layer.cs:139-144 | succeeds exactly below the capacity; afterwards the id's flag is clear and its value kept; no other id changes and no page is allocated or dropped |
| Columns.UpdateIfSet | src/Outrage.Entities/EntitySet.cs:184 | Update only where the flag is already set; it succeeds exactly below the capacity and otherwise fails with the address fault: no flag ever changes, an unset id leaves the table as it was, and only the id's own value changes |
| Columns.UpdateAllSet | src/Outrage.Entities/Layer.cs:88-104 | UpdateSet keeps the table well formed and allocates or drops no page |
| Columns.UpdateAllSetSlot | src/Outrage.Entities/Layer.cs:88-104 | after UpdateSet every set id holds the callback applied, with its own id, to its old value, and every other slot is unchanged |
| Columns.QuerySet | src/Outrage.Entities/Layer.cs:106-120 | every id the scan yields is below the capacity and has its flag set |
| Columns.SetIdsBelowExact | src/Outrage.Entities/Layer.cs:106-120 | the scan of the ids below `n` lists exactly the set ids below `n`, strictly ascending |
| Columns.SetIdsStep | src/Outrage.Entities/Layer.cs:113-116 | one slot further, the scan grows by that slot's id exactly when its flag is set |
| Columns.QuerySetExact | src/Outrage.Entities/Layer.cs:106-120 | QuerySet yields exactly the ids whose flag is set, each once, in ascending order |
| Columns.SkipUnallocatedPage | src/Outrage.Entities/Layer.cs:110 | an unallocated page adds no id to the scan |
| Columns.EmptyHasNothingSet | src/Outrage.Entities/Layer.cs:29-34 | a new layer reads unset with the default value everywhere, and its query is empty |
| Columns.NothingSetBelow | src/Outrage.Entities/Layer.cs:106-120 | a table with no set id scans to nothing |
| Columns.MarkUnsetIdempotent | src/Outrage.Entities/Layer.cs:139-144 | MarkUnset twice is MarkUnset once, outcome included |
| Columns.MarkUnsetAllAsWritten | src/Outrage.Entities/Layer.cs:131-137 | the bulk MarkUnset as written returns only for an empty collection, and then with the table unchanged |
| Columns.MarkUnsetAllAsWrittenDiverges | src/Outrage.Entities/Layer.cs:131-137 | the bulk MarkUnset as written calls itself on the same collection, so for a non-empty collection it never returns, whatever the depth bound |
| Columns.MarkUnsetEach | src/Outrage.Entities/Layer.cs:131-144 | the bulk MarkUnset as intended, one id at a time in list order, stopping at the first fault, keeps the table well formed |
| Columns.MarkUnsetEachEffect | src/Outrage.Entities/Layer.cs:131-144 | the per-element bulk MarkUnset over addressable ids completes, clears exactly the listed ids' flags, keeps every value and allocates nothing |
| Columns.MarkUnsetEachFailure | src/Outrage.Entities/Layer.cs:131-144 | the per-element bulk MarkUnset fails exactly when some listed id is past the capacity |
| Columns.UpdateIfSetEach | src/Outrage.Entities/EntitySet.cs:245-248 | UpdateIfSet for each listed id in order, stopping at the first fault, keeps the table well formed |
| Columns.UpdateIfSetEachFailure | src/Outrage.Entities/EntitySet.cs:245-248 | UpdateIfSet over a list fails exactly when some listed id is past the capacity |
| Columns.UpdateIfSetEachFrame | src/Outrage.Entities/EntitySet.cs:245-248 | UpdateIfSet over a list changes no flag, allocates nothing, and changes no id that is unlisted or unset |
| Columns.UpdateIfSetEachEffect | src/Outrage.Entities/EntitySet.cs:245-248 | over distinct addressable ids it completes, and each listed set id holds the callback applied once to its old value |
| Columns.UpdateEach | src/Outrage.Entities/EntitySet.cs:301-304 | Update for each listed id in order, stopping at the first fault, keeps the table well formed |
| Columns.UpdateEachFailure | src/Outrage.Entities/EntitySet.cs:301-304 | Update over a list fails exactly when some listed id is past the capacity |
| Columns.UpdateEachFrame | src/Outrage.Entities/EntitySet.cs:301-304 | Update over any list, repeated or past-capacity ids included, changes no unlisted id, clears no flag and drops no page |
| Columns.UpdateEachEffect | src/Outrage.Entities/EntitySet.cs:301-304 | Update over distinct addressable ids completes; each listed id is set and holds the callback applied once; every other id is unchanged |
| Columns.UpdateEachOverSetIds | src/Outrage.Entities/EntitySet.cs:151 | Update over distinct ids that are all set completes, applies the callback once to each of them and allocates nothing |
| Columns.FanOutMatchesUpdateAllSet | src/Outrage.Entities/EntitySet.cs:150-153 | running Update over any enumeration of the set ids, each once, gives the same table as UpdateSet |
| Columns.QuerySetFanOut | src/Outrage.Entities/EntitySet.cs:151 | the parallel path of MutateAllSet, QuerySet followed by Update per id, ends in the same table as the sequential UpdateSet |
| Layers.Layer.EnsurePage | src/Outrage.Entities/Layer.cs:59-63 | the page is allocated in place, blank, if absent, and the layer's contents become `Columns.Allocate` of the old contents |
| Layers.Layer.Get | src/Outrage.Entities/Layer.cs:56-66 | the in-place read ends in the state and result `Columns.Get` gives for the old state |
| Layers.Layer.Update | src/Outrage.Entities/Layer.cs:73-86 | the in-place update ends in the state and outcome of `Columns.Update` |
| Layers.Layer.IsSet | src/Outrage.Entities/Layer.cs:122-129 | reads the flag from the page arrays, agreeing with `Columns.IsSet` on the contents |
| Layers.Layer.UpdateIfSet | src/Outrage.Entities/EntitySet.cs:184 | ends in the state and outcome of `Columns.UpdateIfSet` |
| Layers.Layer.UpdateSet | src/Outrage.Entities/Layer.cs:88-104 | the nested loop over pages and slots ends in `Columns.UpdateAllSet` of the old contents, with no new object |
| Layers.Layer.QuerySet | src/Outrage.Entities/Layer.cs:106-120 | the nested scan yields `Columns.QuerySet` of the contents (the set ids, ascending) and changes nothing |
| Layers.Layer.ScanPage | src/Outrage.Entities/Layer.cs:110-118 | scanning one allocated page extends the ids collected so far to the scan up to that page's end |
| Layers.Layer.MarkUnset | src/Outrage.Entities/Layer.cs:139-144 | ends in the state and outcome of `Columns.MarkUnset`, allocating nothing |
| Layers.Layer.MarkUnsetEach | src/Outrage.Entities/Layer.cs:131-137 | the bulk MarkUnset as intended, one id at a time: ends in `Columns.MarkUnsetEach` of the old contents |
| LayerRefs.Mark | src/Outrage.Entities/LayerRef.cs:19-29 | the id is a member afterwards exactly when `set` is true; every other id keeps its membership |
| LayerRefs.MarkIdempotent | src/Outrage.Entities/LayerRef.cs:19-29 | marking an id with the same flag twice is marking it once |
| LayerRefs.MarkOverrides | src/Outrage.Entities/LayerRef.cs:19-29 | a later mark of an id overrides an earlier one |
| LayerRefs.Elements | src/Outrage.Entities/LayerRef.cs:17 | the enumeration of a set holds each member once and nothing else |
| LayerRefs.LayerRef.constructor | src/Outrage.Entities/LayerRef.cs:10-15 | a new index over a new, empty layer of the given geometry, with nothing present |
| LayerRefs.LayerRef.SetEntities | src/Outrage.Entities/LayerRef.cs:17 | enumerates exactly the present ids, each once |
| LayerRefs.LayerRef.IsSet | src/Outrage.Entities/LayerRef.cs:31-34 | an id is reported present exactly when SetEntities enumerates it |
| LayerRefs.LayerRef.MarkSet | src/Outrage.Entities/LayerRef.cs:19-29 | adds or removes the id as `Mark` says; the flag reads back as written, every other id and the layer are unchanged |
| Layers.Layer.constructor | src/Outrage.Entities/Layer.cs:29-34 | a new layer of the given geometry with no page allocated |
| EntityStore.Init | src/Outrage.Entities/EntitySet.cs:18-24 | the state of a new entity set: high-water mark 0, nothing released, no layer registered |
| EntityStore.Count | src/Outrage.Entities/EntitySet.cs:29 | the high-water mark less the number of released ids; it equals the number of live ids only while every released id was issued (`CountIsLive`), and `ClearOfUnissuedId` shows it reaching -1 otherwise |
| EntityStore.CountIsLive | src/Outrage.Entities/EntitySet.cs:26-29 | under the allocator invariant (only issued ids released), the count is exactly the number of live ids, the "total number of active entities" the property promises |
| EntityStore.Defined | src/Outrage.Entities/EntitySet.cs:86 | an id is live exactly when it is below the high-water mark and not released, the test Get makes before reading |
| EntityStore.Range | src/Outrage.Entities/EntitySet.cs:68-71 | the ids from `lo` up to `hi`, `hi - lo` of them |
| EntityStore.Reserved | src/Outrage.Entities/EntitySet.cs:40-51 | the relation of one reservation: with nothing released the id is the high-water mark, which advances by one; otherwise the id is one of the released ids, which leaves the released set while the mark stays; layers untouched |
| EntityStore.ReserveIssuesFresh | src/Outrage.Entities/EntitySet.cs:40-51 | a reserved id was not live and is live afterwards; every other id keeps its status; the count grows by one; only issued ids stay released |
| EntityStore.FirstIdIsZero | src/Outrage.Entities/EntitySet.cs:40-51 | the GetFirstEntity test: the first id of a new entity set is 0, and the count is then 1 |
| EntityStore.ReservedMany | src/Outrage.Entities/EntitySet.cs:58-74 | the relation of a batch reservation: `max(count, 0)` ids reserved; `min` of that and the released count taken from the released set; the rest are the marks from the old high-water mark to the new one; the last mark issued was not held; layers untouched |
| EntityStore.ReservedManyCounts | src/Outrage.Entities/EntitySet.cs:58-74 | under the allocator invariant, the issued ids are exactly the run of marks, the mark advances by `count - min(count, released)` and the count grows by `count` |
| EntityStore.ReservedManyLiveness | src/Outrage.Entities/EntitySet.cs:58-74 | under the allocator invariant, every reserved id was not live and is live afterwards, every other id keeps its status, and the invariant holds again |
| EntityStore.ReservedManyContiguous | src/Outrage.Entities/EntitySet.cs:58-74 | a batch reservation takes `min(count, released)` released ids and issues the rest as the contiguous run from the old high-water mark; none was live before, all are live after; the count grows by `count` |
| EntityStore.Get | src/Outrage.Entities/EntitySet.cs:84-104 | fails with EntityUndefined exactly for an id that is not live; succeeds exactly for a live id below the capacity, with the slot's value; for a live id the tag is registered (and only it), even when the read then fails on capacity; an id that is not live leaves the store as it was; no slot changes |
| EntityStore.Has | src/Outrage.Entities/EntitySet.cs:408-417 | false when the tag has no layer; fails exactly when the tag has a layer and the id is past the capacity; otherwise the slot's flag |
| EntityStore.Mutate | src/Outrage.Entities/EntitySet.cs:113-134 | registers the tag and no other; succeeds exactly below the capacity; the id becomes set with the callback applied; no other tag or id and not the allocator changes |
| EntityStore.MutateAllSet | src/Outrage.Entities/EntitySet.cs:142-157 | nothing at all when the tag has no layer; otherwise the same tags and the same allocator |
| EntityStore.MutateAllSetWith | src/Outrage.Entities/EntitySet.cs:166-219 | UpdateIfSet of the tag's table over the `with` tag's query; it registers exactly the tag, if absent, and leaves the allocator alone |
| EntityStore.MutateSet | src/Outrage.Entities/EntitySet.cs:228-275 | UpdateIfSet of the tag's table over the listed ids; it registers exactly the tag, if absent, and leaves the allocator alone |
| EntityStore.MutateEach | src/Outrage.Entities/EntitySet.cs:284-331 | Update of the tag's table over the listed ids; it registers exactly the tag, if absent, and leaves the allocator alone |
| EntityStore.QueryEntitiesWith | src/Outrage.Entities/EntitySet.cs:391-400 | exactly the ids set for the tag, strictly ascending; none when the tag has no layer |
| EntityStore.ClearEntity | src/Outrage.Entities/EntitySet.cs:362-370 | the id is released; every layer's flag for it is cleared, values kept; the count drops by one unless the id was already released; it fails exactly when some layer exists and the id is past the capacity, and then no table changes |
| EntityStore.ClearEntityUnfold | src/Outrage.Entities/EntitySet.cs:362-370 | ClearEntity is the release followed by MarkUnset of the id in every table |
| EntityStore.ClearedMany | src/Outrage.Entities/EntitySet.cs:337-355 | the relation of Clear(ids): every listed id released, the mark kept; on completion every table is bulk-unset at the ids; on failure exactly one table, the one visited first, holds its failed bulk-unset and the fault is its fault |
| EntityStore.SweptStep | src/Outrage.Entities/EntitySet.cs:366-369 | marking one more layer of the dictionary loop moves it from pending to done |
| EntityStore.SweptOutOfRange | src/Outrage.Entities/EntitySet.cs:366-369 | for an id past the capacity no layer changes, however far the loop got |
| EntityStore.SweptEachStep | src/Outrage.Entities/EntitySet.cs:350-353 | one more layer of the bulk Clear loop moves from pending to done |
| EntityStore.SweptEachEnd | src/Outrage.Entities/EntitySet.cs:350-353 | with no layer pending, every table has been bulk-unset |
| EntityStore.ClearProperty | src/Outrage.Entities/EntitySet.cs:377-384 | only the tag's flag for the id is cleared, its value kept; the allocator and the other tags are untouched; it fails exactly when the tag has a layer and the id is past the capacity |
| Entities.UpdateEachOn | src/Outrage.Entities/EntitySet.cs:301-304 | the sequential loop of Update over a list ends in `Columns.UpdateEach` |
| Entities.UpdateIfSetEachOn | src/Outrage.Entities/EntitySet.cs:245-248 | the loop of UpdateIfSet over a list ends in `Columns.UpdateIfSetEach` |
| Entities.UpdateSetByQuery | src/Outrage.Entities/EntitySet.cs:150-151 | the QuerySet fan-out of Update, run in order, ends in `Columns.UpdateAllSet` of the old contents |
| Entities.TakeReleased | src/Outrage.Entities/EntitySet.cs:61-66 | moves `min(count, released)` released ids (none for a negative count) out of the released set and into the reserved set |
| Entities.MintFresh | src/Outrage.Entities/EntitySet.cs:68-71 | keeps the ids already held, adds the run of marks from the old high-water mark to the new one, and stops at `count` ids, so the last mark issued is one that was not held; nothing changes when enough are held |
| Entities.ReleaseAll | src/Outrage.Entities/EntitySet.cs:339-340 | the released set grows by exactly the listed ids |
| Entities.EntitySet.constructor | src/Outrage.Entities/EntitySet.cs:18-24 | a new entity set has the given geometry, nothing reserved, nothing released and no layer |
| Entities.EntitySet.Count | src/Outrage.Entities/EntitySet.cs:29 | the count of the model: the high-water mark less the released ids |
| Entities.EntitySet.Capacity | src/Outrage.Entities/EntitySet.cs:34 | `layerCapacity * capacityStep`, the number of addressable ids |
| Entities.EntitySet.ReserveEntityId | src/Outrage.Entities/EntitySet.cs:40-51 | takes a released id if there is one, otherwise issues and advances the high-water mark; layers untouched |
| Entities.EntitySet.ReserveEntityIds | src/Outrage.Entities/EntitySet.cs:58-74 | ends in a state related to the old one by `ReservedMany`, with the reserved set as result: released ids first, then the run of marks, stopping just past the last mark added |
| Entities.EntitySet.Get | src/Outrage.Entities/EntitySet.cs:84-104 | ends in the state and result `EntityStore.Get` gives for the old state |
| Entities.EntitySet.GetIn | src/Outrage.Entities/EntitySet.cs:89-103 | reads through the tag's layer, registering it if absent, as `Columns.Get` on that tag's table says |
| Entities.EntitySet.Mutate | src/Outrage.Entities/EntitySet.cs:113-134 | ends in the state and outcome of `EntityStore.Mutate` |
| Entities.EntitySet.MutateAllSet | src/Outrage.Entities/EntitySet.cs:142-157 | both the sequential and the parallel path end in `EntityStore.MutateAllSet` of the old state |
| Entities.EntitySet.MutateAllSetWith | src/Outrage.Entities/EntitySet.cs:166-219 | ends in the state and outcome of `EntityStore.MutateAllSetWith` |
| Entities.EntitySet.MutateSet | src/Outrage.Entities/EntitySet.cs:228-275 | ends in the state and outcome of `EntityStore.MutateSet` |
| Entities.EntitySet.MutateEach | src/Outrage.Entities/EntitySet.cs:284-331 | ends in the state and outcome of `EntityStore.MutateEach` |
| Entities.EntitySet.ClearEntity | src/Outrage.Entities/EntitySet.cs:362-370 | ends in the state and outcome of `EntityStore.ClearEntity` |
| Entities.EntitySet.MarkUnsetEveryLayer | src/Outrage.Entities/EntitySet.cs:366-369 | every layer is MarkUnset at the id; it fails exactly when some layer exists and the id is past the capacity |
| Entities.EntitySet.ClearEntities | src/Outrage.Entities/EntitySet.cs:337-355 | ends in a state related to the old one by `ClearedMany` |
| Entities.EntitySet.MarkUnsetEachEveryLayer | src/Outrage.Entities/EntitySet.cs:350-353 | on completion every layer holds its bulk-unset table; on failure only the layer visited first changed, as the failed bulk MarkUnset left it |
| Entities.EntitySet.LayerFor | src/Outrage.Entities/EntitySet.cs:99-101 | the lazy layer lookup of Get, Mutate (lines 125-127) and the list forms: the tag's layer, created empty with the set's geometry and registered when absent; the registered tags grow by exactly this tag, no other layer or the allocator changes, and the contents are the tag's table as the pure model sees it |
| Entities.EntitySet.MarkUnsetIn | src/Outrage.Entities/EntitySet.cs:368 | MarkUnset of one id on a registered tag's layer, as Clear(id) does for each layer and Clear<T>(id) (line 382) for one: that tag's table becomes `Columns.MarkUnset` of the old one, with its outcome; the allocator and the other tables are unchanged |
| Entities.EntitySet.MarkUnsetEachIn | src/Outrage.Entities/EntitySet.cs:352 | the bulk MarkUnset of Clear(ids) on one registered tag's layer, as intended: that tag's table becomes `Columns.MarkUnsetEach` of the old one, with its outcome; the allocator and the other tables are unchanged |
| Entities.EntitySet.SetAllocator | src/Outrage.Entities/EntitySet.cs:58-74 | writes back the released set and the high-water mark that ReserveEntityIds (and Clear(ids), lines 339-340) compute; the layers and their contents are unchanged |
| Entities.EntitySet.ClearProperty | src/Outrage.Entities/EntitySet.cs:377-384 | ends in the state and outcome of `EntityStore.ClearProperty` |
| Entities.EntitySet.QueryEntitiesWith | src/Outrage.Entities/EntitySet.cs:391-400 | yields `EntityStore.QueryEntitiesWith` of the current state and changes nothing |
| Entities.EntitySet.Has | src/Outrage.Entities/EntitySet.cs:408-417 | agrees with `EntityStore.Has` on the current state |
| EntityLaws.SetIsAddressable | src/Outrage.Entities/Layer.cs:122-129 | an id whose flag is set lies below the capacity |
| EntityLaws.InitIsEmpty | src/Outrage.Entities/EntitySet.cs:18-29 | a new entity set counts 0 and has no live id |
| EntityLaws.CountScenario | tests/Outrage.Entities.Tests/EntityTests.cs:242-259 | two reservations count 2; clearing the first gives 1, clearing the second gives 0 |
| EntityLaws.GetUnwrittenIsDefault | tests/Outrage.Entities.Tests/EntityTests.cs:37-44 | a live id read for a tag with no layer yields the default value and registers the layer |
| EntityLaws.HasAgreesWithQuery | src/Outrage.Entities/EntitySet.cs:391-417 | Has answers true for an id exactly when QueryEntitiesWith lists it |
| EntityLaws.MutateThenRead | tests/Outrage.Entities.Tests/EntityTests.cs:63-83 | after Mutate the id is set for that tag, a live id reads the callback's value, other tags' flags and the count are unchanged |
| EntityLaws.MutateEachEffect | src/Outrage.Entities/EntitySet.cs:284-331 | Mutate over distinct addressable ids completes, marks each set with the callback applied once, and leaves the other tags alone |
| EntityLaws.MutateEachFrame | src/Outrage.Entities/EntitySet.cs:284-331 | Mutate(ids) over any list fails exactly when some listed id is past the capacity; whatever the list, unlisted ids of the tag and every other tag are unchanged, and no flag of the tag is cleared |
| EntityLaws.MutateAllSetEffect | src/Outrage.Entities/EntitySet.cs:142-157 | MutateAllSet applies the callback once to each id set for the tag and leaves every other slot and tag unchanged |
| EntityLaws.MutateAllSetTimes | tests/Outrage.Entities.Tests/EntityTests.cs:146-150 | repeated MutateAllSet passes keep the store well formed and leave the allocator alone |
| EntityLaws.RepeatedIncrement | tests/Outrage.Entities.Tests/EntityTests.cs:146-150 | `n` increment passes add `n` to every set id and keep it set |
| EntityLaws.FiveIncrementPasses | tests/Outrage.Entities.Tests/EntityTests.cs:136-155 | the MutateAll test: the first id, written once, reads its written value plus 5 after five increment passes |
| EntityLaws.MutateSetFrame | src/Outrage.Entities/EntitySet.cs:228-275 | MutateSet changes no flag and does not change an id that is unlisted or unset, nor any other tag; it fails exactly when some listed id is past the capacity |
| EntityLaws.MutateSetEffect | src/Outrage.Entities/EntitySet.cs:228-275 | MutateSet over distinct addressable ids completes and applies the callback once to each listed set id |
| EntityLaws.MutateAllSetWithEffect | src/Outrage.Entities/EntitySet.cs:166-219 | MutateAllSetWith always completes and updates the tag exactly at the ids set for both the `with` tag and the tag itself, once each; other tags are unchanged |
| EntityLaws.MarkerPropertyScenario | tests/Outrage.Entities.Tests/EntityTests.cs:189-223 | the MarkerProperty and MarkerPropertyQuery tests: MutateSet over the marker's query equals MutateAllSetWith, and the health value reads one more than written |
| EntityLaws.ClearEntityEffect | tests/Outrage.Entities.Tests/EntityTests.cs:47-60 | after Clear(id) Get fails with EntityUndefined and Has is false for every tag, while the stored value stays; an issued id then drops the count by one |
| EntityLaws.ClearThenReserveRecycles | tests/Outrage.Entities.Tests/EntityTests.cs:47-60 | the UndefineEntity test: after Clear(id) with nothing released before, the next reservation returns that id, and the count is back where it was |
| EntityLaws.RecycledIdReadsStaleValue | src/Outrage.Entities/EntitySet.cs:84-104 | a written, cleared and re-reserved id is live and unset, and Get still yields the value written before the clear |
| EntityLaws.ClearOfUnissuedId | src/Outrage.Entities/EntitySet.cs:362-370 | Clear of id 0 on a new entity set leaves the count at -1, and the next two reservations both return id 0 |
| EntityLaws.ReserveManyAfterUnissuedClear | src/Outrage.Entities/EntitySet.cs:58-74 | after Clear of the never-issued id 1 in a new entity set, reserving two ids yields `{0, 1}`, leaves the mark at 1 (skipping the held mark) and the count at 1 |
| EntityLaws.ClearPropertyEffect | src/Outrage.Entities/EntitySet.cs:377-384 | Clear<T>(id) keeps the count and liveness of every id; the id is no longer set or queried for the tag; other tags keep their flags |
| EntityLaws.ClearPropertyIdempotent | src/Outrage.Entities/EntitySet.cs:377-384 | Clear<T>(id) twice is Clear<T>(id) once |
| EntityLaws.ClearMarkerScenario | tests/Outrage.Entities.Tests/EntityTests.cs:226-239 | the ClearMarkerProperty test: after Clear<T>(id) of the only marked id the marker's query is empty |
| EntityLaws.NothingSetQueriesNothing | tests/Outrage.Entities.Tests/EntityTests.cs:105-110 | a tag with no set id has an empty query |
| EntityLaws.ClearedManyInRange | src/Outrage.Entities/EntitySet.cs:337-355 | Clear(ids) with every id addressable completes; every id is released and unset in every layer, values kept |
| EntityLaws.ClearedManyOutOfRange | src/Outrage.Entities/EntitySet.cs:337-355 | Clear(ids) with an id past the capacity in an entity set with a layer fails, and every layer but the one visited first is untouched |

## Left out

- Concurrency: the `parallel` paths of `MutateAllSetWith`, `MutateSet`, `Mutate(ids)` and `Clear(ids)` run their loop in list order. The `ConcurrentDictionary` and the races between parallel callbacks are not modelled. For `MutateAllSet` the parallel path is modelled in order and proved to match the sequential one (`Columns.QuerySetFanOut`).
- Reflection: the `typeof(TProperty)` keys become a `Tag` type parameter. The downcast `layer as Layer<TProperty>` cannot fail in the model, so its `throw new Exception(...)` branches are left out.
- The exception classes (`EntityUndefinedException.cs`, `CapacityException.cs`) become `Fault` values.
- `UpdateRef<T>` callbacks are pure functions of the id and the old value. A callback with other side effects, or one that reads other ids, is not modelled.
- `ILayer` and `ILayerRef` are interfaces with no behaviour of their own and are not part of this model.
- `Layer.SetEntities` throws `NotImplementedException` and is left out.
- The performance tests (`PerformanceTests.cs`) and the `Pressure` / `PressureCheck` tests measure time and memory; they are left out.
- Queries return a sequence snapshot. The lazy `IEnumerable` (`yield return`) of `QuerySet` is not modelled. A caller that mutates the layer while enumerating is out.
- Ids are unbounded naturals: `long` overflow of `lastEntityId`, negative ids, the `int * int` overflow in `Capacity`, and the `int` overflow of `(layerIndex * capacityStep) + propertyIndex` in the ids that `UpdateSet` passes to the callback (Layer.cs:99) and that `QuerySet` yields (Layer.cs:116) once the capacity exceeds `int.MaxValue` are not modelled.
- The constructors require `capacityStep > 0`; the source would divide by zero later.
- Hash-set and dictionary enumeration order is left open. `ReserveEntityId` may take any released id, and the layer loops of `Clear` visit the layers in an unspecified order. Ascending order is used where an order is needed (`LayerRef.SetEntities`).
- Entities.EntitySet.ReserveEntityIds: a negative `count` makes the source's `new HashSet<long>(count)` throw; the model reserves nothing instead.
- `LayerRef` is modelled on its own; the entity set does not use it, as in the source.
- The memory that `new Property<TProperty>[capacityStep]` allocates, and the garbage left behind, are not modelled.
- EntityStore.ClearEntity: `Clear(id)` with an id past the capacity stops at the first layer's exception, and the remaining layers are not visited. The model returns the fault with no table changed, because every layer has the same geometry.
- EntityStore.MutateAllSetWith, EntityStore.MutateSet, EntityStore.MutateEach: their own contracts state only the frame (the tag registered, the allocator unchanged). What they do to the slots, and when they fail, is stated by the lemmas `EntityLaws.MutateAllSetWithEffect`, `EntityLaws.MutateSetEffect` / `MutateSetFrame` and `EntityLaws.MutateEachEffect` / `MutateEachFrame`.
- EntityLaws.MutateEachEffect, EntityLaws.MutateSetEffect: the per-id effect (the callback applied once) is proved only for lists of distinct addressable ids. For a list with a repeated id the callback is applied once per occurrence; for a list with an id past the capacity, the ids before it are updated and the rest are not. Neither is stated; the frame and failure lemmas cover every list.

## Findings

| source | as written | input that shows it | evidently intended | confidence | as-written member | corrected member |
|---|---|---|---|---|---|---|
| src/Outrage.Entities/Layer.cs:45 | `GetIndex` throws `CapacityException` only when the quotient exceeds `layerCount` | id `layerCount * capacityStep` (1000000 for the default layer geometry) passes the check with page `layerCount` and then indexes one past the page table | refuse every quotient of `layerCount` or more | not executed | Paging.GetIndex, Paging.GetIndexAdmitsPageTableEnd | Paging.Locate |
| src/Outrage.Entities/Layer.cs:131-137 | the bulk `MarkUnset(IEnumerable<long>)` calls itself with the whole collection on every iteration instead of the single-id overload | any non-empty id list, so `Clear(ids)` on an entity set with a layer never returns (stack overflow) | call `MarkUnset(entityId)` for each id | not executed | Columns.MarkUnsetAllAsWritten, Columns.MarkUnsetAllAsWrittenDiverges | Columns.MarkUnsetEach, Layers.Layer.MarkUnsetEach, Entities.EntitySet.ClearEntities |
