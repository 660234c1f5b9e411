/**
 * The older slot map: objects in a dense array, the owning slot index of each
 * object in a parallel dense array, and a key-index map whose entries hold a
 * generation and either the object's dense position or the next free slot.
 * Keys are bit-packed, so generations wrap around modulo 2^GenBits.
 */
module LegacySlotMaps {
  import opened DenseArrays
  import opened LegacyKeys
  import opened LegacyTable

  /** `max_size()`: one below `max_idx`, which is reserved as the free-list null. */
  function MaxSize(idxBits: nat): (r: nat)
    requires idxBits > 0
    ensures r < MaxIdx(idxBits)
    ensures r + 2 == Pow2(idxBits)
  {
    MaxIdx(idxBits) - 1
  }

  class LegacySlotMap<T(==)> {
    /** The `IdxBits` template parameter. */
    const idxBits: nat
    /** The `GenBits` template parameter. */
    const genBits: nat

    /** `objects`: the live values, densely packed. */
    var objects: seq<T>
    /** `indices`: the key-index map, one entry per slot ever allocated. */
    var indices: seq<LKey>
    /** `keys`: the index-key map, the slot owning each dense position. */
    var keys: seq<nat>
    /** `free_list_head`: the first free slot, `max_idx` when there is none. */
    var freeListHead: nat

    /** The free list read from `freeListHead`. */
    ghost var freeList: seq<nat>
    /** The live keys and their objects. */
    ghost var contents: map<LKey, T>

    ghost predicate Valid()
      reads this
    {
      && KeyBits(idxBits, genBits)
      && Inv(objects, indices, keys, freeListHead, freeList, contents, idxBits, genBits)
    }

    /** A default-constructed, empty slot map; the free-list head is `free_list_null`. */
    constructor (idxBits: nat, genBits: nat)
      requires KeyBits(idxBits, genBits)
      ensures this.idxBits == idxBits && this.genBits == genBits
      ensures objects == [] && indices == [] && keys == [] && freeListHead == MaxIdx(idxBits)
      ensures contents == map[]
      ensures Valid()
    {
      this.idxBits, this.genBits := idxBits, genBits;
      objects, indices, keys, freeListHead := [], [], [], MaxIdx(idxBits);
      freeList, contents := [], map[];
    }

    /** `size()`: the number of live entries. */
    function Size(): (r: nat)
      reads this
      requires Valid()
      ensures r == |contents| && r == |objects|
      ensures r <= MaxSize(idxBits)
    {
      ContentsSize(objects, indices, keys, freeListHead, freeList, contents, idxBits, genBits);
      |objects|
    }

    /** `empty()`: `begin() == end()`. */
    function Empty(): (r: bool)
      reads this
      requires Valid()
      ensures r <==> contents == map[]
    {
      Size() == 0
    }

    /**
     * `max_size()` is one below `max_idx`, so no slot index is ever the
     * free-list null `max_idx`: every live key fits the bit-fields and is not
     * null, and a non-null free head names an existing slot.
     */
    lemma NullIndexNeverNamesASlot()
      requires Valid()
      ensures |indices| <= MaxSize(idxBits) && |objects| <= MaxSize(idxBits)
      ensures freeListHead == MaxIdx(idxBits) || freeListHead < |indices|
      ensures forall k | k in contents :: Fits(k, idxBits, genBits) && k.idx != MaxIdx(idxBits)
    {
      ContentsSize(objects, indices, keys, freeListHead, freeList, contents, idxBits, genBits);
    }

    /**
     * `capacity()`: starts from `max_size()` and lowers it to each of the
     * three backing capacities that is smaller.
     */
    method Capacity(objectsCapacity: nat, indicesCapacity: nat, keysCapacity: nat) returns (cap: nat)
      requires Valid()
      ensures cap <= MaxSize(idxBits)
      ensures cap <= objectsCapacity && cap <= indicesCapacity && cap <= keysCapacity
      ensures cap == MaxSize(idxBits) || cap == objectsCapacity || cap == indicesCapacity || cap == keysCapacity
    {
      cap := MaxSize(idxBits);
      if objectsCapacity < cap {
        cap := objectsCapacity;
      }
      if indicesCapacity < cap {
        cap := indicesCapacity;
      }
      if keysCapacity < cap {
        cap := keysCapacity;
      }
    }

    /**
     * `find(k)`: end (`|objects|`) when `k` names no slot or the slot's
     * generation differs, otherwise the position the slot holds, which the
     * source asserts is in range. A live key is found at its object; a key
     * whose generation matches a free slot cannot be told apart from a live
     * one, and names some position that does not own it.
     */
    function Find(k: LKey): (pos: nat)
      reads this
      requires Valid()
      requires k.idx < |indices| && indices[k.idx].gen == k.gen ==> indices[k.idx].idx < |objects|
      ensures pos <= |objects|
      ensures k in contents <==> pos < |objects| && keys[pos] == k.idx
      ensures k in contents ==> objects[pos] == contents[k]
      ensures k.idx >= |indices| || indices[k.idx].gen != k.gen ==> pos == |objects|
    {
      if k.idx < |indices| then
        var slot := indices[k.idx];
        if k.gen == slot.gen then
          CurrentGenIsLive(objects, indices, keys, freeListHead, freeList, contents, idxBits, genBits, k);
          slot.idx
        else
          |objects|
      else
        |objects|
    }

    /**
     * `contains(k)`: `find(k) != end()`. True for every live key, and
     * otherwise only for a key whose generation matches a free slot.
     */
    function Contains(k: LKey): (r: bool)
      reads this
      requires Valid()
      requires k.idx < |indices| && indices[k.idx].gen == k.gen ==> indices[k.idx].idx < |objects|
      ensures r <==> k in contents
                     || (k.idx < |indices| && indices[k.idx].gen == k.gen && !Occupied(keys, indices, k.idx))
    {
      var found := Find(k) != |objects|;
      if k.idx < |indices| && indices[k.idx].gen == k.gen then
        CurrentGenIsLive(objects, indices, keys, freeListHead, freeList, contents, idxBits, genBits, k);
        found
      else
        found
    }

    /**
     * `find(k)` as its own assert says it is meant to behave: a key whose
     * generation matches its slot is followed only when the slot names an
     * in-range position owned by that slot, and end is returned otherwise.
     * It needs no precondition and answers end exactly for the keys that are
     * not live, including keys whose generation a free slot happens to carry.
     */
    function FindChecked(k: LKey): (pos: nat)
      reads this
      requires Valid()
      ensures pos <= |objects|
      ensures k in contents <==> pos < |objects|
      ensures k in contents ==> keys[pos] == k.idx && objects[pos] == contents[k]
    {
      if k.idx < |indices| && indices[k.idx].gen == k.gen then
        var p := indices[k.idx].idx;
        CurrentGenIsLive(objects, indices, keys, freeListHead, freeList, contents, idxBits, genBits, k);
        if p < |objects| && keys[p] == k.idx then p else |objects|
      else
        |objects|
    }

    /**
     * `index(k)`: the dense position `k`'s slot names, with no generation
     * check; the source asserts the slot exists and the position is in range.
     */
    function Index(k: LKey): (pos: nat)
      reads this
      requires Valid()
      requires k.idx < |indices| && indices[k.idx].idx < |objects|
      ensures pos < |objects|
      ensures k in contents ==> keys[pos] == k.idx && objects[pos] == contents[k]
    {
      var pos := indices[k.idx].idx;
      if indices[k.idx].gen == k.gen then
        CurrentGenIsLive(objects, indices, keys, freeListHead, freeList, contents, idxBits, genBits, k);
        pos
      else
        pos
    }

    /** `operator[](k)`: the unchecked lookup. */
    function At(k: LKey): (v: T)
      reads this
      requires Valid()
      requires k.idx < |indices| && indices[k.idx].idx < |objects|
      ensures k in contents ==> v == contents[k]
    {
      objects[Index(k)]
    }

    /** `operator==`: `std::is_permutation` of the objects alone; keys play no part. */
    function Equal(other: LegacySlotMap<T>): (r: bool)
      reads this, other
      ensures r <==> IsPermutation(objects, other.objects)
    {
      PermutationIsMultisetEquality(objects, other.objects);
      multiset(objects) == multiset(other.objects)
    }

    /** `operator!=`: the negation of `==`. */
    function NotEqual(other: LegacySlotMap<T>): (r: bool)
      reads this, other
      ensures r <==> !IsPermutation(objects, other.objects)
    {
      !Equal(other)
    }

    /**
     * The first half of `emplace` when the free list is empty: a slot with
     * generation 0 and a null link is appended to the key-index map and made
     * the free-list head.
     */
    method ReserveSlot()
      requires Valid()
      requires freeListHead == MaxIdx(idxBits) && |objects| < MaxSize(idxBits)
      modifies this
      ensures old(|indices|) == |keys|
      ensures indices == old(indices) + [LKey(0, MaxIdx(idxBits))] && freeListHead == old(|indices|)
      ensures objects == old(objects) && keys == old(keys) && contents == old(contents)
      ensures Valid()
    {
      GrowKeepsInv(objects, indices, keys, freeList, contents, idxBits, genBits);
      var freeListNext := |indices|;
      indices := indices + [LKey(0, freeListHead)];
      freeListHead := freeListNext;
      freeList := [freeListNext];
    }

    /**
     * `emplace(v)` / `insert(v)`: with an empty free list a slot is reserved
     * first; then the free-list head is popped, keeps its generation, and
     * names the new last dense position. The returned key fits the
     * bit-fields, is not the null index, was not live before, and finds `v`.
     */
    method Emplace(v: T) returns (k: LKey, pos: nat)
      requires Valid()
      requires |objects| < MaxSize(idxBits)
      modifies this
      ensures pos == old(|objects|)
      ensures objects == old(objects) + [v] && keys == old(keys) + [k.idx]
      ensures old(freeListHead) == MaxIdx(idxBits) ==>
                k == LKey(0, old(|indices|)) && indices == old(indices) + [LKey(0, pos)]
                && freeListHead == MaxIdx(idxBits)
      ensures old(freeListHead) != MaxIdx(idxBits) ==>
                old(freeListHead) < old(|indices|)
                && k == LKey(old(indices[freeListHead].gen), old(freeListHead))
                && indices == old(indices[freeListHead := indices[freeListHead].(idx := pos)])
                && freeListHead == old(indices[freeListHead].idx)
      ensures Fits(k, idxBits, genBits) && k.idx != MaxIdx(idxBits)
      ensures k !in old(contents) && contents == old(contents)[k := v]
      ensures Valid()
      ensures Find(k) == pos
    {
      var objIdx := |objects|;
      if freeListHead == MaxIdx(idxBits) {
        ReserveSlot();
      }
      PopFreeKeepsInv(objects, indices, keys, freeListHead, freeList, contents, idxBits, genBits, v);
      ghost var keys0 := keys;
      keys := keys + [0];
      var idxIdx := freeListHead;
      var slot := indices[idxIdx];
      objects := objects + [v];
      keys := keys[objIdx := idxIdx];
      assert keys == keys0 + [idxIdx];
      indices := indices[idxIdx := slot.(idx := objIdx)];
      freeListHead := slot.idx;
      k := LKey(slot.gen, idxIdx);
      freeList := freeList[1..];
      contents := contents[k := v];
      pos := objIdx;
      assert k in contents && indices[k.idx] == LKey(k.gen, pos);
    }

    /**
     * `erase_impl(i)`: swap-remove of position i from the objects and the
     * index-key map, the moved object's slot re-pointed at i, then the erased
     * slot's generation bumped (wrapping) and the slot pushed on the free
     * list. Exactly the key owning i leaves the map, it is not found
     * afterwards, and one copy of its object leaves the objects.
     */
    method EraseImpl(i: nat)
      requires Valid()
      requires i < |objects|
      modifies this
      ensures old(LiveKey(keys, indices, i)) in old(contents)
      ensures objects == SwapRemove(old(objects), i) && keys == SwapRemove(old(keys), i)
      ensures indices == EraseIndices(old(keys), old(indices), old(freeListHead), i, genBits)
      ensures freeListHead == old(keys[i]) && freeList == [freeListHead] + old(freeList)
      ensures contents == old(contents) - {old(LiveKey(keys, indices, i))}
      ensures multiset(objects) + multiset{old(objects[i])} == old(multiset(objects))
      ensures Valid()
      ensures Find(old(LiveKey(keys, indices, i))) == |objects|
    {
      EraseKeepsInv(objects, indices, keys, freeListHead, freeList, contents, idxBits, genBits, i);
      SwapRemoveMultiset(objects, i);
      ghost var erased := LiveKey(keys, indices, i);
      NextGenChanges(erased.gen, genBits);
      var backIdxIdx := keys[|keys| - 1];
      // Erase the object from the object array.
      var last := |objects| - 1;
      var back := objects[last];
      objects := objects[last := objects[i]][i := back];
      objects := objects[..last];
      // Erase it from the index-key map.
      var eraseIdxIdx := keys[i];
      keys := keys[i := backIdxIdx];
      keys := keys[..|keys| - 1];
      // Re-point the back object's slot, then free the erased slot.
      indices := indices[backIdxIdx := indices[backIdxIdx].(idx := i)];
      var gen := NextGen(indices[eraseIdxIdx].gen, genBits);
      indices := indices[eraseIdxIdx := LKey(gen, freeListHead)];
      freeListHead := eraseIdxIdx;
      freeList := [eraseIdxIdx] + freeList;
      contents := contents - {erased};
    }

    /**
     * `erase(it)`: erases the object at the iterator and returns the iterator
     * at the same offset, which now holds the former last object or is end.
     */
    method EraseIter(it: nat) returns (next: nat)
      requires Valid()
      requires it < |objects|
      modifies this
      ensures next == it
      ensures objects == SwapRemove(old(objects), it) && keys == SwapRemove(old(keys), it)
      ensures indices == EraseIndices(old(keys), old(indices), old(freeListHead), it, genBits)
      ensures freeListHead == old(keys[it]) && freeList == [freeListHead] + old(freeList)
      ensures contents == old(contents) - {old(LiveKey(keys, indices, it))}
      ensures Valid()
    {
      var eraseObjIdx := it;
      EraseImpl(eraseObjIdx);
      next := eraseObjIdx;
    }

    /**
     * `erase(k)`: `erase_impl(index(k))`. No generation check is made; only
     * the asserts of `index` are required. For a live key it is that key
     * which leaves the map, and it is not found afterwards.
     */
    method EraseKey(k: LKey)
      requires Valid()
      requires k.idx < |indices| && indices[k.idx].idx < |objects|
      modifies this
      ensures var i := old(indices[k.idx].idx);
              objects == SwapRemove(old(objects), i) && keys == SwapRemove(old(keys), i)
              && indices == EraseIndices(old(keys), old(indices), old(freeListHead), i, genBits)
              && freeListHead == old(keys)[i]
              && contents == old(contents) - {old(LiveKey(keys, indices, i))}
      ensures k in old(contents) ==> contents == old(contents) - {k}
      ensures k in old(contents) ==> k.idx < |indices| && indices[k.idx].gen != k.gen
      ensures Valid()
      ensures k in old(contents) ==> Find(k) == |objects|
    {
      EraseImpl(Index(k));
    }

    /**
     * `clear()`: the three arrays are emptied and the free list reset to
     * null. Generations are not advanced: the slot table starts over, so the
     * next key handed out is `{gen 0, idx 0}` again.
     */
    method Clear()
      requires Valid()
      modifies this
      ensures objects == [] && indices == [] && keys == [] && freeListHead == MaxIdx(idxBits)
      ensures contents == map[]
      ensures Valid()
    {
      objects := [];
      indices := [];
      keys := [];
      freeListHead := MaxIdx(idxBits);
      freeList, contents := [], map[];
    }

    /** `swap(other)`: the two maps exchange all four fields. */
    method Swap(other: LegacySlotMap<T>)
      requires Valid() && other.Valid()
      requires other.idxBits == idxBits && other.genBits == genBits
      modifies this, other
      ensures objects == old(other.objects) && indices == old(other.indices)
      ensures keys == old(other.keys) && freeListHead == old(other.freeListHead)
      ensures other.objects == old(objects) && other.indices == old(indices)
      ensures other.keys == old(keys) && other.freeListHead == old(freeListHead)
      ensures contents == old(other.contents) && other.contents == old(contents)
      ensures Valid() && other.Valid()
    {
      if other == this {
        // Swapping each field with itself leaves the map as it was.
        return;
      }
      var o, ix, ks, h := objects, indices, keys, freeListHead;
      ghost var fl, c := freeList, contents;
      objects, indices, keys, freeListHead := other.objects, other.indices, other.keys, other.freeListHead;
      freeList, contents := other.freeList, other.contents;
      other.objects, other.indices, other.keys, other.freeListHead := o, ix, ks, h;
      other.freeList, other.contents := fl, c;
    }
  }
}
