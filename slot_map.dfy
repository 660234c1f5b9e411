/**
 * The main slot map: values in a dense array, their owner keys in a parallel
 * dense array, a slot table giving each slot's dense position and version,
 * and a free list of unused slots threaded through the slot table.
 */
module SlotMaps {
  import opened Wrappers
  import opened DenseArrays
  import opened Keys
  import opened SlotTable
  import opened ZipIterators

  class SlotMap<T(==)> {
    /** `m_keys`: the key that owns each dense position. */
    var keys: seq<Key>
    /** `m_values`: the live values, densely packed. */
    var values: seq<T>
    /** `m_slots`: one entry per slot ever allocated. */
    var slots: seq<Slot>
    /** `m_free_head`: the first free slot, NULL_SLOT when there is none. */
    var freeHead: nat

    /** The free list read from `freeHead`. */
    ghost var freeList: seq<nat>
    /** Every key this map has handed out. */
    ghost var issued: set<Key>
    /** The live keys and their values. */
    ghost var contents: map<Key, T>

    ghost predicate Valid()
      reads this
    {
      Inv(keys, values, slots, freeHead, freeList, issued, contents)
    }

    /** A default-constructed, empty slot map. */
    constructor ()
      ensures keys == [] && values == [] && slots == [] && freeHead == NULL_SLOT
      ensures issued == {} && contents == map[]
      ensures Valid()
    {
      keys, values, slots, freeHead := [], [], [], NULL_SLOT;
      freeList, issued, contents := [], {}, map[];
    }

    /** `size()`: the number of live entries. */
    function Size(): (r: nat)
      reads this
      requires Valid()
      ensures r == |contents| && r == |values|
    {
      ContentsSize(keys, values, slots, freeHead, freeList, issued, contents);
      |keys|
    }

    /** `empty()`: `begin() == end()`. */
    function Empty(): (r: bool)
      reads this
      requires Valid()
      ensures r <==> contents == map[]
    {
      ZipIterators.Equal(Begin(), End())
    }

    /** `begin()` */
    function Begin(): (it: Zip)
      reads this
      requires Valid()
      ensures InSync(it) && it.it1 == 0
    {
      Zip(0, 0)
    }

    /** `end()`: one past the last dense position of both arrays. */
    function End(): (it: Zip)
      reads this
      requires Valid()
      ensures InSync(it) && it.it1 == |contents|
    {
      ContentsSize(keys, values, slots, freeHead, freeList, issued, contents);
      Zip(|keys|, |values|)
    }

    /**
     * `find(k)`: the dense position of `k`'s slot when the slot's version is
     * `k`'s, otherwise end (`|keys|`). The source asserts that `k` names an
     * existing slot. A live key is found at the position holding it and its
     * value; a key this map handed out that is no longer live is not found.
     */
    function Find(k: Key): (pos: nat)
      reads this
      requires Valid()
      requires k.slot < |slots|
      ensures k in contents ==> pos < |keys| && keys[pos] == k && values[pos] == contents[k]
      ensures k in issued && k !in contents ==> pos == |keys|
    {
      var slot := slots[k.slot];
      CurrentVersionIsLive(keys, values, slots, freeHead, freeList, issued, contents, k);
      if slot.version == k.version then slot.link else |keys|
    }

    /** `contains(k)`: `find(k) != end()`. */
    function Contains(k: Key): (r: bool)
      reads this
      requires Valid()
      requires k.slot < |slots|
      ensures k in contents ==> r
      ensures k in issued ==> (r <==> k in contents)
    {
      Find(k) != |keys|
    }

    /**
     * `get(k)`: the value of a live key, nothing for a stale one. Only keys
     * this map handed out are looked up, since for any other key `find` may
     * name a position past the end.
     */
    function Get(k: Key): (r: Option<T>)
      reads this
      requires Valid()
      requires k in issued
      ensures r == if k in contents then Some(contents[k]) else None
    {
      var pos := Find(k);
      if pos != |keys| then Some(values[pos]) else None
    }

    /**
     * `index(k)`: the dense position `k`'s slot names, with no version check;
     * the source asserts the slot exists and the position is in range.
     */
    function Index(k: Key): (pos: nat)
      reads this
      requires Valid()
      requires k.slot < |slots| && slots[k.slot].link < |values|
      ensures pos < |keys|
      ensures k in contents ==> keys[pos] == k
    {
      slots[k.slot].link
    }

    /** `operator[](k)`: the unchecked lookup. */
    function At(k: Key): (v: T)
      reads this
      requires Valid()
      requires k.slot < |slots| && slots[k.slot].link < |values|
      ensures k in contents ==> v == contents[k]
    {
      values[Index(k)]
    }

    /**
     * `operator==`: the key arrays and the value arrays are equal position by
     * position. Equal maps hold the same live keys with the same values.
     */
    function Equal(other: SlotMap<T>): (r: bool)
      reads this, other
      requires Valid() && other.Valid()
      ensures r ==> contents == other.contents
    {
      if keys == other.keys && values == other.values then
        SameDenseSameContents(other);
        true
      else
        false
    }

    lemma SameDenseSameContents(other: SlotMap<T>)
      requires Valid() && other.Valid()
      requires keys == other.keys && values == other.values
      ensures contents == other.contents
    {
      forall k | k in contents
        ensures k in other.contents && other.contents[k] == contents[k]
      {
        var p := slots[k.slot].link;
        assert keys[p] == k;
      }
      forall k | k in other.contents
        ensures k in contents
      {
        var p := other.slots[k.slot].link;
        assert other.keys[p] == k;
      }
    }

    /**
     * Dereferencing the iterator `find` returns for a live key, `*find(k)`,
     * yields that key and its value.
     */
    lemma FoundIteratorDereferences(k: Key)
      requires Valid()
      requires k.slot < |slots| && k in contents
      ensures Deref(ZipIterators.At(Find(k)), keys, values) == (k, contents[k])
    {
    }

    /** Subscripting `begin()` by the position `find` names, `begin()[pos]`, yields the live key and its value. */
    lemma BeginSubscriptFindsKey(k: Key)
      requires Valid()
      requires k.slot < |slots| && k in contents
      ensures Subscript(Begin(), Find(k), keys, values) == (k, contents[k])
    {
    }

    /**
     * `max_size()` is one below NULL_SLOT, so no slot index, no issued key
     * and no non-null free head can ever be NULL_SLOT: the sentinel is
     * unambiguous.
     */
    lemma NullSlotNeverNamesASlot()
      requires Valid()
      ensures |slots| <= MaxSize() && |keys| <= MaxSize()
      ensures freeHead == NULL_SLOT || freeHead < MaxSize()
      ensures forall k | k in issued :: k.slot < MaxSize() && !IsNull(k)
    {
      EmptyFreeList(keys, values, slots, freeHead, freeList, issued, contents);
    }

    /**
     * `emplace(v)` / `insert(v)`: the new key and value go to dense position
     * `old size`. With an empty free list a new slot with version 0 is
     * appended; otherwise the free-list head is reused with its version
     * unchanged. The returned key is non-null, was never handed out before,
     * and finds `v`.
     */
    method Emplace(v: T) returns (k: Key, pos: nat)
      requires Valid()
      requires |keys| < MAX_SIZE
      modifies this
      ensures pos == old(|keys|)
      ensures keys == old(keys) + [k] && values == old(values) + [v]
      ensures old(freeHead) == NULL_SLOT ==>
                k == Key(old(|slots|), 0) && slots == old(slots) + [Slot(pos, 0)] && freeHead == NULL_SLOT
      ensures old(freeHead) != NULL_SLOT ==>
                old(freeHead) < old(|slots|)
                && k == Key(old(freeHead), old(slots[freeHead].version))
                && slots == old(slots[freeHead := slots[freeHead].(link := pos)])
                && freeHead == old(slots[freeHead].link)
      ensures !IsNull(k) && k !in old(issued) && issued == old(issued) + {k}
      ensures contents == old(contents)[k := v]
      ensures Valid()
      ensures k.slot < |slots| && Find(k) == pos
    {
      var index := |keys|;
      if freeHead == NULL_SLOT {
        AppendSlotKeepsInv(keys, values, slots, freeList, issued, contents, v);
        slots := slots + [Slot(index, 0)];
        k := Key(index, 0);
      } else {
        ReuseSlotKeepsInv(keys, values, slots, freeHead, freeList, issued, contents, v);
        var slotIndex := freeHead;
        var slot := slots[slotIndex];
        freeHead := slot.link;
        slots := slots[slotIndex := slot.(link := index)];
        k := Key(slotIndex, slot.version);
        freeList := freeList[1..];
      }
      keys := keys + [k];
      values := values + [v];
      issued := issued + {k};
      contents := contents[k := v];
      pos := index;
    }

    /**
     * `erase_only_key(i)`: swap-remove of the key at dense position i, the
     * moved key's slot re-pointed at i, then the erased slot pushed on the
     * free list with its version bumped. The values are the caller's part.
     */
    method EraseOnlyKey(i: nat)
      requires i < |keys| && keys[i].slot < |slots| && keys[|keys| - 1].slot < |slots|
      modifies this
      ensures keys == SwapRemove(old(keys), i)
      ensures slots == EraseSlots(old(keys), old(slots), old(freeHead), i)
      ensures freeHead == old(keys)[i].slot
      ensures values == old(values)
      ensures freeList == old(freeList) && issued == old(issued) && contents == old(contents)
    {
      var backKey := keys[|keys| - 1];
      var eraseKey := keys[i];
      keys := keys[i := backKey];
      keys := keys[..|keys| - 1];
      slots := slots[backKey.slot := slots[backKey.slot].(link := i)];
      slots := slots[eraseKey.slot := Slot(freeHead, eraseKey.version + 1)];
      freeHead := eraseKey.slot;
    }

    /**
     * The private `erase(index)`: swap-remove of dense position i from both
     * arrays. Exactly the key at i leaves the map; every other live key still
     * finds its value. The erased version must not be the largest uint32.
     */
    method EraseAt(i: nat)
      requires Valid()
      requires i < |keys| && keys[i].version < U32_MAX
      modifies this
      ensures old(keys)[i] in old(contents)
      ensures keys == SwapRemove(old(keys), i) && values == SwapRemove(old(values), i)
      ensures slots == EraseSlots(old(keys), old(slots), old(freeHead), i)
      ensures freeHead == old(keys)[i].slot && freeList == [freeHead] + old(freeList)
      ensures issued == old(issued) && contents == old(contents) - {old(keys)[i]}
      ensures Valid()
      ensures old(keys)[i].slot < |slots| && Find(old(keys)[i]) == |keys|
    {
      EraseKeepsInv(keys, values, slots, freeHead, freeList, issued, contents, i);
      ghost var erased := keys[i];
      values := values[i := values[|values| - 1]];
      values := values[..|values| - 1];
      EraseOnlyKey(i);
      freeList := [erased.slot] + freeList;
      contents := contents - {erased};
    }

    /**
     * `erase(it)`: erases the entry at the iterator and returns the iterator
     * at the same offset, which now holds the former last entry or is end.
     */
    method EraseIter(it: Zip) returns (next: Zip)
      requires Valid()
      requires InSync(it) && 0 <= it.it1 < |keys| && keys[it.it1].version < U32_MAX
      modifies this
      ensures next == it
      ensures keys == SwapRemove(old(keys), it.it1) && values == SwapRemove(old(values), it.it1)
      ensures slots == EraseSlots(old(keys), old(slots), old(freeHead), it.it1)
      ensures freeHead == old(keys)[it.it1].slot && freeList == [freeHead] + old(freeList)
      ensures issued == old(issued) && contents == old(contents) - {old(keys)[it.it1]}
      ensures Valid()
    {
      var index := Distance(it, Begin());
      EraseAt(index);
      next := Advance(Begin(), index);
    }

    /**
     * `erase(k)`: `erase(index(k))`. No version check is made; only the
     * asserts of `index` are required. For a live key it is that key which
     * leaves the map, and it is not found afterwards.
     */
    method EraseKey(k: Key)
      requires Valid()
      requires k.slot < |slots| && slots[k.slot].link < |values|
      requires keys[slots[k.slot].link].version < U32_MAX
      modifies this
      ensures var i := old(slots[k.slot].link);
              keys == SwapRemove(old(keys), i) && values == SwapRemove(old(values), i)
              && contents == old(contents) - {old(keys)[i]}
      ensures var i := old(slots[k.slot].link);
              slots == EraseSlots(old(keys), old(slots), old(freeHead), i) && freeHead == old(keys)[i].slot
      ensures issued == old(issued)
      ensures k in old(contents) ==> contents == old(contents) - {k}
      ensures Valid()
      ensures k in old(contents) ==> Find(k) == |keys|
    {
      EraseAt(Index(k));
    }

    /**
     * `try_erase(k)`: erases and answers true when `k` is found, answers false
     * and changes nothing otherwise.
     */
    method TryErase(k: Key) returns (erased: bool)
      requires Valid()
      requires k in issued && k.version < U32_MAX
      modifies this
      ensures erased <==> k in old(contents)
      ensures contents == old(contents) - {k} && issued == old(issued)
      ensures erased ==> k.slot < |old(slots)| && old(slots[k.slot].link) < |old(keys)|
      ensures erased ==> var i := old(slots[k.slot].link);
              keys == SwapRemove(old(keys), i) && values == SwapRemove(old(values), i)
              && slots == EraseSlots(old(keys), old(slots), old(freeHead), i) && freeHead == k.slot
      ensures !erased ==> keys == old(keys) && values == old(values) && slots == old(slots) && freeHead == old(freeHead)
      ensures Valid()
      ensures Find(k) == |keys|
    {
      var pos := Find(k);
      if pos != |keys| {
        var next := EraseIter(ZipIterators.At(pos));
        erased := true;
      } else {
        erased := false;
      }
    }

    /**
     * `pop(k)`: like `erase(k)`, and returns the value that was at the erased
     * position; for a live key that is the key's value.
     */
    method Pop(k: Key) returns (v: T)
      requires Valid()
      requires k.slot < |slots| && slots[k.slot].link < |values|
      requires keys[slots[k.slot].link].version < U32_MAX
      modifies this
      ensures var i := old(slots[k.slot].link);
              v == old(values)[i]
              && keys == SwapRemove(old(keys), i) && values == SwapRemove(old(values), i)
              && contents == old(contents) - {old(keys)[i]}
      ensures var i := old(slots[k.slot].link);
              slots == EraseSlots(old(keys), old(slots), old(freeHead), i) && freeHead == old(keys)[i].slot
      ensures issued == old(issued)
      ensures k in old(contents) ==> v == old(contents)[k] && contents == old(contents) - {k}
      ensures Valid()
      ensures k in old(contents) ==> Find(k) == |keys|
    {
      var eraseIndex := Index(k);
      EraseKeepsInv(keys, values, slots, freeHead, freeList, issued, contents, eraseIndex);
      ghost var erased := keys[eraseIndex];
      v := values[eraseIndex];
      values := values[eraseIndex := values[|values| - 1]];
      values := values[..|values| - 1];
      EraseOnlyKey(eraseIndex);
      freeList := [erased.slot] + freeList;
      contents := contents - {erased};
    }

    /**
     * `try_pop(k)`: the value of `k` if it is found, which is then erased;
     * nothing, with the map unchanged, otherwise.
     */
    method TryPop(k: Key) returns (r: Option<T>)
      requires Valid()
      requires k in issued && k.version < U32_MAX
      modifies this
      ensures r == if k in old(contents) then Some(old(contents)[k]) else None
      ensures contents == old(contents) - {k} && issued == old(issued)
      ensures r.Some? ==> k.slot < |old(slots)| && old(slots[k.slot].link) < |old(keys)|
      ensures r.Some? ==> var i := old(slots[k.slot].link);
              keys == SwapRemove(old(keys), i) && values == SwapRemove(old(values), i)
              && slots == EraseSlots(old(keys), old(slots), old(freeHead), i) && freeHead == k.slot
      ensures r.None? ==> keys == old(keys) && values == old(values) && slots == old(slots) && freeHead == old(freeHead)
      ensures Valid()
      ensures Find(k) == |keys|
    {
      var pos := Find(k);
      if pos != |keys| {
        var eraseIndex := Distance(ZipIterators.At(pos), Begin());
        assert eraseIndex == slots[k.slot].link && keys[eraseIndex] == k;
        EraseKeepsInv(keys, values, slots, freeHead, freeList, issued, contents, eraseIndex);
        ghost var erased := keys[eraseIndex];
        var v := values[eraseIndex];
        values := values[eraseIndex := values[|values| - 1]];
        values := values[..|values| - 1];
        EraseOnlyKey(eraseIndex);
        freeList := [erased.slot] + freeList;
        contents := contents - {erased};
        r := Some(v);
      } else {
        r := None;
      }
    }

    /**
     * The loop of `clear()`: every dense key's slot gets its version bumped
     * and is pushed onto the free list, last key first. The new slot table
     * and free-list head are returned; nothing is stored yet.
     */
    method ReleaseAll() returns (table: seq<Slot>, head: nat, ghost fl: seq<nat>)
      requires Valid()
      requires forall p | 0 <= p < |keys| :: keys[p].version < U32_MAX
      ensures |table| == |slots|
      ensures forall k | k in issued :: k.slot < |table| && k.version < table[k.slot].version
      ensures Released(keys, slots, freeHead, freeList, table, head, fl)
      ensures Inv<T>([], [], table, head, fl, issued, map[])
    {
      table, head, fl := slots, freeHead, freeList;
      ghost var slots0, fl0 := slots, freeList;
      ClearStart(keys, values, slots, freeHead, freeList, issued, contents);
      for i := 0 to |keys|
        invariant ClearProgress(keys, slots0, fl0, table, head, fl, i)
      {
        var key := keys[i];
        ClearLoopStep(keys, slots0, fl0, table, head, fl, i);
        table := table[key.slot := Slot(head, key.version + 1)];
        head := key.slot;
        fl := [key.slot] + fl;
      }
      ClearReleased(keys, values, slots, freeHead, freeList, issued, contents, table, head, fl);
      ClearedInv(keys, values, slots, freeHead, freeList, issued, contents, table, head, fl);
    }

    /**
     * `clear()`: every live slot is pushed on the free list with its version
     * bumped, as if each entry were erased, then both dense arrays are
     * emptied. The slot table keeps its length, and no key handed out before
     * is found afterwards.
     */
    method Clear()
      requires Valid()
      requires forall p | 0 <= p < |keys| :: keys[p].version < U32_MAX
      modifies this
      ensures keys == [] && values == [] && contents == map[]
      ensures |slots| == old(|slots|) && issued == old(issued)
      ensures forall k | k in issued :: k.slot < |slots| && k.version < slots[k.slot].version
      ensures Released(old(keys), old(slots), old(freeHead), old(freeList), slots, freeHead, freeList)
      ensures Valid()
      ensures forall k | k in issued :: !Contains(k)
    {
      ghost var keys0, slots0, head0, fl0 := keys, slots, freeHead, freeList;
      var table, head, fl := ReleaseAll();
      assert Released(keys0, slots0, head0, fl0, table, head, fl);
      keys, values, slots, freeHead, freeList, contents := [], [], table, head, fl, map[];
    }

    /** `swap(other)`: the two maps exchange all four fields. */
    method Swap(other: SlotMap<T>)
      requires Valid() && other.Valid()
      modifies this, other
      ensures keys == old(other.keys) && values == old(other.values)
      ensures slots == old(other.slots) && freeHead == old(other.freeHead)
      ensures other.keys == old(keys) && other.values == old(values)
      ensures other.slots == old(slots) && other.freeHead == old(freeHead)
      ensures contents == old(other.contents) && other.contents == old(contents)
      ensures issued == old(other.issued) && other.issued == old(issued)
      ensures Valid() && other.Valid()
    {
      if other == this {
        // Swapping each field with itself leaves the map as it was.
        return;
      }
      var k, v, s, h := keys, values, slots, freeHead;
      ghost var fl, iss, c := freeList, issued, contents;
      keys, values, slots, freeHead := other.keys, other.values, other.slots, other.freeHead;
      freeList, issued, contents := other.freeList, other.issued, other.contents;
      other.keys, other.values, other.slots, other.freeHead := k, v, s, h;
      other.freeList, other.issued, other.contents := fl, iss, c;
    }
  }

  /** `max_size()` */
  function MaxSize(): (r: nat)
    ensures r < NULL_SLOT
    ensures r + 1 == NULL_SLOT
  {
    MAX_SIZE
  }

  /** `capacity()`: the least of the three backing capacities. */
  function Capacity(keysCapacity: nat, valuesCapacity: nat, slotsCapacity: nat): (r: nat)
    ensures r <= keysCapacity && r <= valuesCapacity && r <= slotsCapacity
    ensures r == keysCapacity || r == valuesCapacity || r == slotsCapacity
  {
    Min3(keysCapacity, valuesCapacity, slotsCapacity)
  }
}
