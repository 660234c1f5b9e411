# Slot maps, modelled and verified in Dafny

This project models the two slot-map containers of the repository and proves
their bookkeeping correct. A slot map stores values in a dense array and hands
out generational keys that find them again. A key is a slot index plus a
version (or generation). Each slot-table entry holds the slot's current
version and one link word. For an occupied slot the link is the value's dense
position. For a free slot it is the next free slot. Erasing swaps the last
entry into the hole, bumps the freed slot's version and pushes the slot on a
free list. A key whose version is no longer the slot's is stale and is not
found.

- `include/Attractadore/SlotMap.hpp` is the main variant. Its state is:
  - `m_keys`, the dense owner keys;
  - `m_values`, the dense values;
  - `m_slots`, the slot table;
  - `m_free_head`, the free-list head.

  Keys are two `uint32_t` fields, and the free list ends at `NULL_SLOT` = 2^32−1.
  Modules: `Keys`, `ZipIterators`, `SlotTable` (the invariant and its
  preservation lemmas) and `SlotMaps` (the class `SlotMap`).
- `include/SlotMap/SlotMap.hpp` is the older variant. Its keys are bit-packed
  into `IdxBits`/`GenBits` fields, so generations wrap modulo 2^GenBits. The
  dense `keys` array stores only slot indices, and the free list ends at
  `max_idx`. Modules: `LegacyKeys`, `LegacyTable` and `LegacySlotMaps` (the
  class `LegacySlotMap`).
- `DenseArrays` holds what both variants share: swap-remove, three-way
  comparison and `std::is_permutation` as counting.
- `Scenarios` drives both classes through the situations of
  `test/TestSlotMap.cpp` and a few of the older map's own. Each method's
  postcondition is what the test expects to observe.

Each class keeps its real fields plus ghost state:
- the free list as a sequence;
- the live-key → value map `contents`;
- in the main variant, the set `issued` of every key ever handed out.

`Valid()` is a module-level invariant over these fields. It says:
- the dense arrays have equal length;
- `slots[keys[p].slot]` holds position p and `keys[p]`'s version;
- the free list is a duplicate-free chain through the link words;
- the free list covers exactly the unoccupied slots;
- `contents` is exactly the dense keys with their values;
- (main variant) no issued key is newer than its slot, and a key carrying its slot's current version is live.

Every public mutating method proves that it keeps `Valid()` and states its
whole new state in terms of the old fields:
- insertions name the appended entry and the slot they took or added;
- erasures go through `SwapRemove` and `EraseSlots`/`EraseIndices`; for
  `try_erase` and `try_pop` that holds when the key was live, and otherwise
  nothing changes;
- the main map's `clear` goes through `Released`, which gives every slot's
  new version and the new free list and head.

`SlotMaps.SlotMap.EraseOnlyKey` is the exception. It is the key-and-slot half
of the main map's erase, and states only that half. The invariant holds
again once `EraseAt` or `Pop` has removed the value as well.

Where the code and its written description disagree, the model follows the code:
- Main `operator==` compares the key and value arrays position by position. It is not a comparison of contents up to order.
- Main `find` asserts that the key's slot index is in range; it does not return end for an out-of-range slot. `Find` requires it.
- The older map's `clear` resets the slot table without advancing generations. A key handed out before `clear` can therefore find a value inserted after it (`Scenarios.LegacyKeyAliasesAfterClear`).
- The older map's `==` is `std::is_permutation` over the objects alone. The keys play no part.
- Main `==` being positional means two maps with the same live keys and values can compare unequal (`Scenarios.PositionalEquality`).

## Model

| member | source | states |
|---|---|---|
| DenseArrays.CompareNat | include/SlotMap/SlotMap.hpp:42 | the three results of `std::strong_order` on indices, each exactly when its relation holds |
| DenseArrays.SwapRemove | include/Attractadore/SlotMap.hpp:686-697 | swap-remove drops the length by one, keeps every position other than i, and moves the last element into i |
| DenseArrays.SwapRemoveMultiset | include/SlotMap/SlotMap.hpp:313-314 | swap-remove takes exactly one copy of the erased element out of the sequence's elements |
| DenseArrays.PermutationIsMultisetEquality | include/SlotMap/SlotMap.hpp:365-367 | `is_permutation` (same length, every element equally often) holds exactly when the two multisets are equal |
| DenseArrays.CountIsMultiplicity | include/SlotMap/SlotMap.hpp:365-367 | the occurrence count `is_permutation` compares is the element's multiplicity |
| DenseArrays.Min3 | include/Attractadore/SlotMap.hpp:524-528 | `std::min` of three numbers is one of them and no larger than any |
| Keys.Compare | include/Attractadore/SlotMap.hpp:267-275 | the defaulted `<=>` orders by slot index, then version; equivalent exactly for equal keys |
| Keys.CompareIsStrictTotalOrder | include/Attractadore/SlotMap.hpp:275 | key order is antisymmetric, transitive and total |
| Keys.DefaultKeyIsNull | include/Attractadore/SlotMap.hpp:267-279 | a default-constructed key has slot index 2^32−1 and version 0, and `is_null` holds |
| ZipIterators.Next | include/Attractadore/SlotMap.hpp:150-154 | `++` moves both halves together, and `--` undoes it |
| ZipIterators.Prev | include/Attractadore/SlotMap.hpp:173-177 | `--` keeps both halves in step |
| ZipIterators.Equal | include/Attractadore/SlotMap.hpp:164-169 | under the source's assert that both halves agree, `==` holds exactly for equal iterators |
| ZipIterators.Compare | include/Attractadore/SlotMap.hpp:187-192 | under the source's assert, `<=>` is Less exactly when both halves are behind, and equivalent exactly for equal iterators |
| ZipIterators.Distance | include/Attractadore/SlotMap.hpp:194-198 | under the source's assert, `a - b` is the d with `b + d == a` |
| ZipIterators.AdvanceIsAdditive | include/Attractadore/SlotMap.hpp:150-214 | `it + 0` is `it`, `(it + a) + b` is `it + (a + b)`, and `++(it + a)` is `it + (a + 1)` |
| ZipIterators.Retreat | include/Attractadore/SlotMap.hpp:205-220 | `it - d` is undone by `+ d` and keeps the halves in step |
| ZipIterators.MovesAreInverse | include/Attractadore/SlotMap.hpp:150-220 | `++`/`--` and `+ d`/`- d` are mutually inverse, and `(it + d) - it == d` |
| SlotTable.EraseSlots | include/Attractadore/SlotMap.hpp:698-705 | after `erase_only_key` the erased key's slot links to the old free head with its version bumped, also when the erased key is the back key |
| SlotTable.ContentsSize | include/Attractadore/SlotMap.hpp:477-479 | under the invariant, the number of live keys equals the length of both dense arrays |
| SlotTable.IssuedKeyNotNull | include/Attractadore/SlotMap.hpp:475 | a key the map handed out names an existing slot and is never null |
| SlotTable.CurrentVersionIsLive | include/Attractadore/SlotMap.hpp:635-642 | stale-key detection: an issued key whose version is its slot's current version is live, and its slot names the dense position that holds it |
| SlotTable.EmptyFreeList | include/Attractadore/SlotMap.hpp:572-573 | the free head is NULL_SLOT exactly when the free list is empty; then as many keys as slots exist, as the source asserts; otherwise the head's link is the next free slot |
| SlotTable.AppendSlotKeepsInv | include/Attractadore/SlotMap.hpp:572-576 | appending a version-0 slot for a new last position keeps the invariant, and the new key was never issued |
| SlotTable.ReuseSlotKeepsInv | include/Attractadore/SlotMap.hpp:577-586 | popping the free head, keeping its version, and pointing it at the new last position keeps the invariant; the new key was never issued |
| SlotTable.EraseKeepsInv | include/Attractadore/SlotMap.hpp:686-706 | the swap-remove erase of any position keeps the invariant with the erased slot pushed on the free list and its key removed from the live map |
| SlotTable.ClearReleased | include/Attractadore/SlotMap.hpp:545-550 | once the loop has visited every dense key, the free list is the dense slots, last first, in front of the old free list, the head is the last dense key's slot (the old head when there were none), the visited slots have version + 1 and already-free slots are unchanged |
| SlotTable.ClearedInv | include/Attractadore/SlotMap.hpp:543-553 | after the `clear` loop, the empty map with the rewritten slot table satisfies the invariant and every issued key is older than its slot |
| SlotMaps.SlotMap.constructor | include/Attractadore/SlotMap.hpp:397-418 | a new map is empty with free head NULL_SLOT and satisfies the invariant |
| SlotMaps.SlotMap.Size | include/Attractadore/SlotMap.hpp:477-479 | `size()` is the number of live keys |
| SlotMaps.SlotMap.Empty | include/Attractadore/SlotMap.hpp:473 | `empty()` holds exactly when no key is live |
| SlotMaps.SlotMap.Begin | include/Attractadore/SlotMap.hpp:459-469 | `begin()` is the in-step iterator at offset 0 |
| SlotMaps.SlotMap.End | include/Attractadore/SlotMap.hpp:463-471 | `end()` is the in-step iterator at the number of live keys |
| SlotMaps.SlotMap.Find | include/Attractadore/SlotMap.hpp:635-650 | `find` lands on a live key's own position and value; for an issued key that is no longer live it answers end |
| SlotMaps.SlotMap.FoundIteratorDereferences | include/Attractadore/SlotMap.hpp:140 | `*find(k)` of a live key is the pair of k and its value |
| SlotMaps.SlotMap.BeginSubscriptFindsKey | include/Attractadore/SlotMap.hpp:222-224 | `begin()[find(k) - begin()]` of a live key is the pair of k and its value |
| SlotMaps.SlotMap.Contains | include/Attractadore/SlotMap.hpp:670-672 | `contains` holds for live keys, and for an issued key exactly when it is live |
| SlotMaps.SlotMap.Get | include/Attractadore/SlotMap.hpp:652-660 | `get` of an issued key is its value when live and nothing otherwise |
| SlotMaps.SlotMap.Index | include/Attractadore/SlotMap.hpp:679-684 | `index` is an in-range position, the live key's own when the key is live |
| SlotMaps.SlotMap.At | include/Attractadore/SlotMap.hpp:662-668 | `operator[]` of a live key is its value |
| SlotMaps.SlotMap.Equal | include/Attractadore/SlotMap.hpp:674-676 | maps that `==` holds for have the same live keys with the same values |
| SlotMaps.SlotMap.SameDenseSameContents | include/Attractadore/SlotMap.hpp:674-676 | equal key and value arrays imply equal live-key maps |
| SlotMaps.SlotMap.Emplace | include/Attractadore/SlotMap.hpp:567-588 | appends the key and value at position `old size`; with an empty free list a version-0 slot is appended, otherwise the free head is reused with its version; the key is new, not null, and finds the value |
| SlotMaps.SlotMap.EraseOnlyKey | include/Attractadore/SlotMap.hpp:694-706 | the keys are swap-removed at i, and the slot table becomes `EraseSlots`, with the erased slot as the new free head |
| SlotMaps.SlotMap.EraseAt | include/Attractadore/SlotMap.hpp:686-692 | both arrays are swap-removed at i, exactly the key at i leaves the live map, it is not found afterwards, and the invariant holds |
| SlotMaps.SlotMap.EraseIter | include/Attractadore/SlotMap.hpp:590-594 | `erase(it)` swap-removes the entry at the iterator, frees its slot as `EraseSlots` describes with that slot as the new free head, exactly that key leaves the live map, and the iterator at the same offset is returned |
| SlotMaps.SlotMap.EraseKey | include/Attractadore/SlotMap.hpp:596 | `erase(k)` swap-removes the position k's slot names and frees the slot of the key there as `EraseSlots` describes; for a live key exactly k leaves and is not found afterwards |
| SlotMaps.SlotMap.TryErase | include/Attractadore/SlotMap.hpp:598-605 | `try_erase` answers true exactly when the key was live; then both arrays are swap-removed at its position, its slot is freed as `EraseSlots` describes and becomes the free head, and only it leaves the live map; otherwise nothing changes |
| SlotMaps.SlotMap.Pop | include/Attractadore/SlotMap.hpp:607-613 | `pop` returns the value at the erased position, which is the key's value when the key is live; the arrays and slot table change as in `erase(k)`, and the key is not found afterwards |
| SlotMaps.SlotMap.TryPop | include/Attractadore/SlotMap.hpp:615-626 | `try_pop` returns the live key's value and erases it, with the arrays and slot table changed as in `try_erase`; or nothing, with the map unchanged |
| SlotMaps.SlotMap.ReleaseAll | include/Attractadore/SlotMap.hpp:545-550 | the `clear` loop pushes every dense key's slot on the free list in dense order, so the new free list is those slots, last key first, in front of the old one, and the new head is the last key's slot; each such slot's version is bumped by one, already-free slots are untouched, the table keeps its length, every slot ends up free and every issued key is older than its slot |
| SlotMaps.SlotMap.Clear | include/Attractadore/SlotMap.hpp:543-553 | `clear` empties both arrays and leaves the slot table, free head and free list exactly as `ReleaseAll` describes (bumped versions, old free slots untouched, old dense slots pushed in front of the old free list); no key handed out before is found afterwards |
| SlotMaps.SlotMap.Swap | include/Attractadore/SlotMap.hpp:628-633 | the two maps exchange all four fields and both stay valid |
| SlotMaps.SlotMap.NullSlotNeverNamesASlot | include/Attractadore/SlotMap.hpp:475 | under the invariant both the slot table and the dense arrays stay within `max_size()`, the free head is NULL_SLOT or a slot below `max_size()`, and every issued key names a slot below `max_size()` and is not null |
| SlotMaps.Capacity | include/Attractadore/SlotMap.hpp:517-529 | `capacity()` is the least of the three backing capacities |
| LegacyKeys.MinWideType | include/SlotMap/SlotMap.hpp:10-24 | the chosen width is 8, 16, 32 or 64, holds the bits, and no smaller width does |
| LegacySlotMaps.LegacySlotMap.NullIndexNeverNamesASlot | include/SlotMap/SlotMap.hpp:35-36 | under the invariant the slot table and the objects stay within `max_size()`, the free head is `max_idx` or an existing slot, and every live key fits `max_idx`/`max_gen` without being the null index `max_idx` |
| LegacyKeys.Compare | include/SlotMap/SlotMap.hpp:41-48 | `<=>` orders by slot index, then generation; equivalent exactly for equal keys |
| LegacyKeys.CompareIsStrictTotalOrder | include/SlotMap/SlotMap.hpp:41-48 | key order is antisymmetric, transitive and total |
| LegacyKeys.NextGen | include/SlotMap/SlotMap.hpp:325 | `gen + 1` stored in the GenBits-wide field stays below 2^GenBits |
| LegacyKeys.NextGenChanges | include/SlotMap/SlotMap.hpp:325-329 | one erasure always changes a slot's generation |
| LegacyKeys.GenAfterWraps | include/SlotMap/SlotMap.hpp:325-329 | after n ≤ 2^GenBits erasures the generation has advanced by n modulo 2^GenBits |
| LegacyKeys.GenerationRepeats | include/SlotMap/SlotMap.hpp:325-329 | after n erasures, with 0 < n ≤ 2^GenBits, the generation is back to where it started exactly when n = 2^GenBits, so a stale key is live again only then |
| LegacyTable.EraseIndices | include/SlotMap/SlotMap.hpp:321-329 | after `erase_impl` the erased slot holds the next generation and links to the old free head, also when it is the back slot |
| LegacyTable.ContentsSize | include/SlotMap/SlotMap.hpp:175 | under the invariant, the number of live keys is the number of objects |
| LegacyTable.CurrentGenIsLive | include/SlotMap/SlotMap.hpp:340-349 | for a key whose generation is its slot's, the key is live exactly when the slot is occupied, with the object the slot names as its value |
| LegacyTable.GrowKeepsInv | include/SlotMap/SlotMap.hpp:271-275 | with an empty free list, appending a generation-0 slot with a null link as the new free head keeps the invariant |
| LegacyTable.PopFreeKeepsInv | include/SlotMap/SlotMap.hpp:278-290 | popping the free head, pointing it at the new last position and recording it in `keys` keeps the invariant; the new key was not live |
| LegacyTable.EraseKeepsInv | include/SlotMap/SlotMap.hpp:308-330 | the swap-remove erase of any position keeps the invariant, with the erased slot pushed on the free list and its key removed from the live map |
| LegacySlotMaps.LegacySlotMap.constructor | include/SlotMap/SlotMap.hpp:150-155 | a new map is empty with free head `max_idx` and satisfies the invariant |
| LegacySlotMaps.LegacySlotMap.Size | include/SlotMap/SlotMap.hpp:175 | `size()` is the number of live keys and never exceeds `max_size()` |
| LegacySlotMaps.LegacySlotMap.Empty | include/SlotMap/SlotMap.hpp:174 | `empty()` holds exactly when no key is live |
| LegacySlotMaps.LegacySlotMap.Capacity | include/SlotMap/SlotMap.hpp:229-246 | `capacity()` is the least of `max_size()` and the three backing capacities |
| LegacySlotMaps.LegacySlotMap.Find | include/SlotMap/SlotMap.hpp:340-360 | `find` answers end for an out-of-range index or a different generation; a key is live exactly when `find` lands on a position owned by its slot, whose object is its value |
| LegacySlotMaps.LegacySlotMap.Contains | include/SlotMap/SlotMap.hpp:201 | `contains` holds exactly for live keys and for keys whose generation matches a free slot |
| LegacySlotMaps.LegacySlotMap.FindChecked | include/SlotMap/SlotMap.hpp:340-349 | `find` with the link checked before it is followed: needs no precondition, lands on a position exactly when the key is live, and then on its own object |
| LegacySlotMaps.LegacySlotMap.Index | include/SlotMap/SlotMap.hpp:213-218 | `index` is an in-range position, the live key's own when the key is live |
| LegacySlotMaps.LegacySlotMap.At | include/SlotMap/SlotMap.hpp:199-200 | `operator[]` of a live key is its object |
| LegacySlotMaps.LegacySlotMap.Equal | include/SlotMap/SlotMap.hpp:363-368 | `==` holds exactly when the objects are a permutation of the other map's |
| LegacySlotMaps.LegacySlotMap.NotEqual | include/SlotMap/SlotMap.hpp:208 | `!=` holds exactly when the objects are not a permutation of the other map's |
| LegacySlotMaps.LegacySlotMap.ReserveSlot | include/SlotMap/SlotMap.hpp:271-275 | with an empty free list, a generation-0 slot with a null link is appended and becomes the free head |
| LegacySlotMaps.LegacySlotMap.Emplace | include/SlotMap/SlotMap.hpp:264-299 | appends the object and its slot index; the key is `{gen of the popped slot, popped index}`, fits the bit-fields, is not the null index, was not live, and finds the object |
| LegacySlotMaps.LegacySlotMap.EraseImpl | include/SlotMap/SlotMap.hpp:308-330 | objects and `keys` are swap-removed at i, the erased slot gets the next generation and becomes the free head, exactly the key owning i leaves and is not found, and one copy of its object leaves the objects |
| LegacySlotMaps.LegacySlotMap.EraseIter | include/SlotMap/SlotMap.hpp:301-306 | `erase(it)` swap-removes the object and index at the iterator, frees the slot as `EraseIndices` describes with it as the new free head, and returns the same offset |
| LegacySlotMaps.LegacySlotMap.EraseKey | include/SlotMap/SlotMap.hpp:194 | `erase(k)` erases the position k's slot names; for a live key exactly k leaves, its slot's generation changes, and it is not found afterwards |
| LegacySlotMaps.LegacySlotMap.Clear | include/SlotMap/SlotMap.hpp:256-262 | `clear` empties all three arrays and resets the free head to `max_idx` |
| LegacySlotMaps.LegacySlotMap.Swap | include/SlotMap/SlotMap.hpp:332-338 | the two maps exchange all four fields and both stay valid |
| Scenarios.InsertAfterErase | test/TestSlotMap.cpp:137-157 | after erasing a key and inserting again, the new key differs from both earlier keys, the erased key finds nothing, and the others find their values |
| Scenarios.TryEraseTwice | test/TestSlotMap.cpp:234-241 | `try_erase` on the same key answers true, then false |
| Scenarios.TryPopTwice | test/TestSlotMap.cpp:414-422 | `try_pop` on the same key yields the value, then nothing |
| Scenarios.PopOnly | test/TestSlotMap.cpp:383-392 | `pop` returns the value, leaves the map empty, and the key is not found |
| Scenarios.FindAfterClear | test/TestSlotMap.cpp:289-296 | a key handed out before `clear` is not found after it |
| Scenarios.DrainFromBegin | test/TestSlotMap.cpp:200-210 | erasing at `begin()` until it reaches `end()` empties any valid map whose live versions are below 2^32−1 |
| Scenarios.DrainFromEnd | test/TestSlotMap.cpp:212-222 | erasing at `end() - 1` until the map is empty terminates with an empty, valid map, for any map whose live versions are below 2^32−1 |
| Scenarios.TwoEntries | test/TestSlotMap.cpp:243-256 | two insertions into a new map produce keys `{0,0}` and `{1,0}` holding the two values |
| Scenarios.SwapMaps | test/TestSlotMap.cpp:243-269 | after `swap` the keys of each two-entry map find their own values in the other map |
| Scenarios.SameInsertsCompareEqual | test/TestSlotMap.cpp:370-381 | maps filled with the same values in the same order compare equal |
| Scenarios.PositionalEquality | include/Attractadore/SlotMap.hpp:674-676 | two maps whose keys {1, 0} and {2, 0} find the same values, in different dense orders, compare unequal under `==` |
| Scenarios.LegacyKeyAliasesAfterClear | include/SlotMap/SlotMap.hpp:256-299 | in the older map the first key after `clear` equals the first key before it, so the old key finds the new value |
| Scenarios.LegacyStaleKeyBreaksFind | include/SlotMap/SlotMap.hpp:256-346 | after emplace, erase, emplace (holding {1, 0}), `clear`, emplace, erase, slot 0 is free with the held key's generation and the null link `max_idx`, beyond the empty map's end, so `find`'s assert fails for the held key; the checked find answers end |
| Scenarios.LegacyInsertAfterErase | include/SlotMap/SlotMap.hpp:264-330 | in the older map an erased key is not found, even after its slot is reused by a key with the same index |
| Scenarios.LegacyTwoEntries | include/SlotMap/SlotMap.hpp:264-299 | two insertions into a new older map leave the objects in insertion order |
| Scenarios.LegacyEqualityIgnoresOrder | include/SlotMap/SlotMap.hpp:363-368 | the same values inserted in either order compare equal in the older map |

## Left out

- Physical storage (`reserve`, `shrink_to_fit` and the backing vectors' real capacities) is not modelled: `Capacity` takes the three capacities as parameters.
- `Cpp23Pair`, the `std::basic_common_reference` specialisation, `operator->`/`ProxyPointer`, `iter_move`/`iter_swap`, `data()`/`cdata()`, `keys()`/`values()` views and the `ContainerView` accessors are left out: they are C++ reference and raw-memory plumbing with no bookkeeping of their own.
- `Swap` in both classes returns at once when a map is swapped with itself. In that case the four `std::ranges::swap` calls leave the fields as they were.
- Iterator and reference invalidation on reallocation, allocation failure, the `EmplaceResult` reference and the constructed value's exceptions are left out: the model has no allocator.
- Concepts, `static_assert`s, the key-defining macro's friend injection and the `FreeHead` copy/steal overloads are not modelled: the free head is a plain index.
- `insert` is `emplace` followed by taking the key; it is covered by `Emplace` and has no member of its own.
- SlotMaps.SlotMap.Emplace: requires fewer than `max_size()` live entries, because the 32-bit dense index and slot index would otherwise overflow; the source does not check this.
- SlotMaps.SlotMap.EraseAt: requires the erased key's version below 2^32−1, because `version + 1` would wrap to 0 and could revive a stale key; the 32-bit wrap is not modelled.
- SlotMaps.SlotMap.EraseIter: the same version bound as `EraseAt`.
- SlotMaps.SlotMap.EraseKey: the same version bound, on the key at the position k's slot names.
- SlotMaps.SlotMap.Pop: the same version bound as `EraseKey`.
- SlotMaps.SlotMap.TryErase: requires the key to be one this map handed out, with a version below 2^32−1. For any other key, `find` may read a free slot's next-free link as a position.
- SlotMaps.SlotMap.TryPop: the same requirements as `TryErase`.
- SlotMaps.SlotMap.Get: requires a key this map handed out, for the same reason as `TryErase`.
- SlotMaps.SlotMap.Clear: requires every live version below 2^32−1, the bound of `EraseAt`.
- SlotMaps.SlotMap.ReleaseAll: the same bound as `Clear`. The loop builds the new slot table and free head in locals, and `Clear` stores them back in one step; the source writes `m_slots` and `m_free_head` in place on each iteration.
- SlotMaps.SlotMap.Find: requires the key's slot index to be in range, which the source asserts. It does not return end for an out-of-range slot.
- LegacySlotMaps.LegacySlotMap.Emplace: requires fewer than `max_size()` objects. Otherwise a newly appended slot index could equal `max_idx`, the free-list null; the source does not check this. The reserve step is split out as `ReserveSlot`.
- LegacySlotMaps.LegacySlotMap.Find: requires that a key with its slot's current generation names an in-range position, which is the source's `assert(it < end())`. That assert can fail (see "## Findings"); `FindChecked` is the version without the precondition.
- LegacySlotMaps.LegacySlotMap.Contains: the same requirement as `Find`.
- LegacyKeys.NextGen: the bit-field truncation of `gen + 1` is written as "0 past `max_gen`", which equals `(gen + 1) mod 2^GenBits` for every generation below 2^GenBits.
- The older map's `size_type` is the index type `MinWideType<IdxBits>`, an unsigned integer of 8, 16, 32 or 64 bits, so `size()` and positions are stored in that width; the model uses unbounded naturals with the invariant keeping them below `max_idx`, which fits every one of those widths.
- The older map's `insert` and `swap` free function, and the main map's `swap` free function, are thin forwards to members that are modelled.
- `test/TestDenseSlotMap.cpp` tests a header, `Attractadore/DenseSlotMap.hpp`, that is not part of this model.

## Findings

| source | as written | input that shows it | evidently intended | confidence | as-written member | corrected member |
|---|---|---|---|---|---|---|
| include/SlotMap/SlotMap.hpp:346 | `find` follows any slot whose generation matches the key and asserts the position it names is below end | in a new map: emplace, erase that key, emplace (key {1, 0}), `clear`, emplace, erase; then `find({1, 0})` follows free slot 0's null link `max_idx` | `find` answers end for every key that is not live | not executed | Scenarios.LegacyStaleKeyBreaksFind | LegacySlotMaps.LegacySlotMap.FindChecked |
