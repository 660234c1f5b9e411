/**
 * The slot table of the main slot map and the invariant that ties it to the
 * dense key and value arrays and to the free list threaded through it.
 *
 * Everything here is stated over the raw state of a slot map, so the class in
 * slot_map.dfy can state its object invariant as `Inv` of its own fields and
 * discharge each operation by one of the preservation lemmas below.
 */
module SlotTable {
  import opened Keys
  import opened DenseArrays

  /**
   * One entry of the slot table. In the source `link` is a union of the slot's
   * dense position (while the slot is occupied) and the next free slot (while
   * it is free, NULL_SLOT at the end of the free list); the model keeps that
   * single word because lookups read it without knowing which of the two it is.
   */
  datatype Slot = Slot(link: nat, version: nat)

  /** `max_size()`: one below NULL_SLOT, so that no slot index is ever NULL_SLOT. */
  const MAX_SIZE: nat := NULL_SLOT - 1

  /** Slot `s` names a dense position whose owner key names `s` back. */
  predicate Occupied(keys: seq<Key>, slots: seq<Slot>, s: nat)
    requires s < |slots|
  {
    slots[s].link < |keys| && keys[slots[s].link].slot == s
  }

  /** For every dense position p, the slot of `keys[p]` holds p and the key's version. */
  ghost predicate DenseLinked(keys: seq<Key>, slots: seq<Slot>) {
    forall p | 0 <= p < |keys| :: keys[p].slot < |slots| && slots[keys[p].slot] == Slot(p, keys[p].version)
  }

  /** The link the i-th free slot must hold: the next free slot, or NULL_SLOT for the last. */
  function NextFree(fl: seq<nat>, i: nat): nat
    requires i < |fl|
  {
    if i + 1 < |fl| then fl[i + 1] else NULL_SLOT
  }

  /**
   * `fl` is the free list read from `head`: distinct slots, each linking to
   * the next, the last to NULL_SLOT, and `head` is NULL_SLOT exactly when the
   * list is empty.
   */
  ghost predicate FreeChain(slots: seq<Slot>, head: nat, fl: seq<nat>) {
    && (forall i | 0 <= i < |fl| :: fl[i] < |slots| && slots[fl[i]].link == NextFree(fl, i))
    && (forall i, j | 0 <= i < j < |fl| :: fl[i] != fl[j])
    && head == (if fl == [] then NULL_SLOT else fl[0])
  }

  /** The free list holds exactly the slots that are not occupied. */
  ghost predicate FreeIsUnoccupied(keys: seq<Key>, slots: seq<Slot>, fl: seq<nat>) {
    forall s | 0 <= s < |slots| :: s in fl <==> !Occupied(keys, slots, s)
  }

  /**
   * Every key the map has handed out names an existing slot and has a version
   * no newer than the slot's; a key with the slot's current version names an
   * occupied slot. This is what makes stale keys detectable.
   */
  ghost predicate IssuedKeys(keys: seq<Key>, slots: seq<Slot>, fl: seq<nat>, issued: set<Key>) {
    && (forall p | 0 <= p < |keys| :: keys[p] in issued)
    && (forall k | k in issued ::
          k.slot < |slots| && k.version <= slots[k.slot].version
          && (k.version == slots[k.slot].version ==> k.slot !in fl))
  }

  /**
   * The abstract map from live keys to values agrees with the dense arrays:
   * its keys are exactly the dense keys, each mapped to the value at the same
   * position. (That it has as many entries as the arrays is `ContentsSize`.)
   */
  ghost predicate LiveContents<T>(keys: seq<Key>, values: seq<T>, slots: seq<Slot>, contents: map<Key, T>) {
    && |keys| == |values|
    && (forall p | 0 <= p < |keys| :: keys[p] in contents && contents[keys[p]] == values[p])
    && (forall k | k in contents ::
          k.slot < |slots| && slots[k.slot].link < |keys| && keys[slots[k.slot].link] == k)
  }

  /** The slot table fits the 32-bit fields: no more than MAX_SIZE slots, versions are uint32. */
  ghost predicate Bounded(slots: seq<Slot>) {
    |slots| <= MAX_SIZE && forall s | 0 <= s < |slots| :: slots[s].version <= U32_MAX
  }

  /** The invariant of a main slot map. */
  ghost predicate Inv<T>(keys: seq<Key>, values: seq<T>, slots: seq<Slot>, head: nat,
                         fl: seq<nat>, issued: set<Key>, contents: map<Key, T>) {
    && Bounded(slots)
    && DenseLinked(keys, slots)
    && FreeChain(slots, head, fl)
    && FreeIsUnoccupied(keys, slots, fl)
    && |fl| + |keys| == |slots|
    && IssuedKeys(keys, slots, fl, issued)
    && LiveContents(keys, values, slots, contents)
  }

  /**
   * The slot table after `erase_only_key(i)`: the back key's slot is pointed
   * at i first, then the erased key's slot becomes the free-list head with its
   * version bumped. When i is the last position both keys are the same, and
   * the second write is the one that stays.
   */
  function EraseSlots(keys: seq<Key>, slots: seq<Slot>, head: nat, i: nat): (r: seq<Slot>)
    requires i < |keys|
    requires keys[i].slot < |slots| && keys[|keys| - 1].slot < |slots|
    ensures |r| == |slots|
    ensures r[keys[i].slot] == Slot(head, keys[i].version + 1)
  {
    var back := keys[|keys| - 1];
    var erased := keys[i];
    slots[back.slot := slots[back.slot].(link := i)][erased.slot := Slot(head, erased.version + 1)]
  }

  /** Distinct dense positions belong to distinct slots. */
  lemma DenseSlotsDistinct(keys: seq<Key>, slots: seq<Slot>, p: nat, q: nat)
    requires DenseLinked(keys, slots)
    requires p < |keys| && q < |keys|
    ensures keys[p].slot == keys[q].slot ==> p == q
  {
    assert slots[keys[p].slot].link == p;
  }

  /** The first n dense keys are n distinct keys. */
  lemma {:induction false} DenseKeysDistinct(keys: seq<Key>, slots: seq<Slot>, n: nat)
    requires DenseLinked(keys, slots) && n <= |keys|
    ensures |set p | 0 <= p < n :: keys[p]| == n
  {
    if n > 0 {
      DenseKeysDistinct(keys, slots, n - 1);
      var earlier := set p | 0 <= p < n - 1 :: keys[p];
      assert (set p | 0 <= p < n :: keys[p]) == earlier + {keys[n - 1]};
      forall p | 0 <= p < n - 1
        ensures keys[p] != keys[n - 1]
      {
        DenseSlotsDistinct(keys, slots, p, n - 1);
      }
    }
  }

  /** `size()`: the map has exactly one entry per dense position. */
  lemma ContentsSize<T>(keys: seq<Key>, values: seq<T>, slots: seq<Slot>, head: nat,
                        fl: seq<nat>, issued: set<Key>, contents: map<Key, T>)
    requires Inv(keys, values, slots, head, fl, issued, contents)
    ensures |contents| == |keys| == |values|
  {
    DenseKeysDistinct(keys, slots, |keys|);
    assert contents.Keys == set p | 0 <= p < |keys| :: keys[p] by {
      forall k | k in contents
        ensures exists p | 0 <= p < |keys| :: keys[p] == k
      {
        assert keys[slots[k.slot].link] == k;
      }
    }
  }

  /** Every key a valid map holds names a slot below MAX_SIZE, so it is never null. */
  lemma IssuedKeyNotNull<T>(keys: seq<Key>, values: seq<T>, slots: seq<Slot>, head: nat,
                            fl: seq<nat>, issued: set<Key>, contents: map<Key, T>, k: Key)
    requires Inv(keys, values, slots, head, fl, issued, contents)
    requires k in issued
    ensures k.slot < |slots| && !IsNull(k)
  {
  }

  /**
   * Stale-key detection: a key the map handed out whose version equals its
   * slot's current version is live, and its slot names its dense position.
   */
  lemma CurrentVersionIsLive<T>(keys: seq<Key>, values: seq<T>, slots: seq<Slot>, head: nat,
                                fl: seq<nat>, issued: set<Key>, contents: map<Key, T>, k: Key)
    requires Inv(keys, values, slots, head, fl, issued, contents)
    requires k.slot < |slots|
    ensures k in issued && slots[k.slot].version == k.version ==>
              slots[k.slot].link < |keys| && keys[slots[k.slot].link] == k && k in contents
  {
    if k in issued && slots[k.slot].version == k.version {
      assert !Occupied(keys, slots, k.slot) ==> k.slot in fl;
      var p := slots[k.slot].link;
      assert slots[keys[p].slot] == Slot(p, keys[p].version);
    }
  }

  /** The free list is empty exactly when its head is NULL_SLOT; then every slot is occupied. */
  lemma EmptyFreeList<T>(keys: seq<Key>, values: seq<T>, slots: seq<Slot>, head: nat,
                         fl: seq<nat>, issued: set<Key>, contents: map<Key, T>)
    requires Inv(keys, values, slots, head, fl, issued, contents)
    ensures head == NULL_SLOT <==> fl == []
    ensures head == NULL_SLOT ==> |keys| == |slots|
    ensures head != NULL_SLOT ==> head < |slots| && slots[head].link == NextFree(fl, 0)
  {
  }

  /** Pushing a slot that is not on the free list onto its front keeps a well-formed chain. */
  lemma PushFree(slots: seq<Slot>, head: nat, fl: seq<nat>, s: nat, version: nat)
    requires FreeChain(slots, head, fl)
    requires s < |slots| && s !in fl
    ensures FreeChain(slots[s := Slot(head, version)], s, [s] + fl)
  {
    var slots' := slots[s := Slot(head, version)];
    var fl' := [s] + fl;
    assert fl'[0] == s && fl'[1..] == fl;
    forall i | 0 <= i < |fl'|
      ensures fl'[i] < |slots'| && slots'[fl'[i]].link == NextFree(fl', i)
    {
      if i > 0 {
        assert fl'[i] == fl[i - 1];
        assert NextFree(fl', i) == NextFree(fl, i - 1);
      }
    }
    forall i, j | 0 <= i < j < |fl'|
      ensures fl'[i] != fl'[j]
    {
      assert fl'[j] == fl[j - 1];
      if i > 0 {
        assert fl'[i] == fl[i - 1];
      }
    }
  }

  /** Rewriting a slot that is not on the free list leaves the chain as it was. */
  lemma ChainFrame(slots: seq<Slot>, head: nat, fl: seq<nat>, s: nat, slot: Slot)
    requires FreeChain(slots, head, fl)
    requires s < |slots| && s !in fl
    ensures FreeChain(slots[s := slot], head, fl)
  {
  }

  /**
   * `emplace` with an empty free list: a new slot with version 0 is appended,
   * it names the new last dense position, and the key it yields was never
   * handed out before.
   */
  lemma AppendSlotKeepsInv<T>(keys: seq<Key>, values: seq<T>, slots: seq<Slot>,
                              fl: seq<nat>, issued: set<Key>, contents: map<Key, T>, v: T)
    requires Inv(keys, values, slots, NULL_SLOT, fl, issued, contents)
    requires |keys| < MAX_SIZE
    ensures |keys| == |slots| && fl == []
    ensures Key(|slots|, 0) !in issued
    ensures Inv(keys + [Key(|slots|, 0)], values + [v], slots + [Slot(|keys|, 0)], NULL_SLOT,
                [], issued + {Key(|slots|, 0)}, contents[Key(|slots|, 0) := v])
  {
    EmptyFreeList(keys, values, slots, NULL_SLOT, fl, issued, contents);
    var n := |keys|;
    var k := Key(n, 0);
    var keys', values', slots' := keys + [k], values + [v], slots + [Slot(n, 0)];
    var issued', contents' := issued + {k}, contents[k := v];
    assert k !in contents;
    forall s | 0 <= s < |slots'|
      ensures Occupied(keys', slots', s)
    {
      if s < n {
        assert !(s in fl);
        assert Occupied(keys, slots, s);
      }
    }
    forall k' | k' in issued'
      ensures k'.slot < |slots'| && k'.version <= slots'[k'.slot].version
    {
      if k' != k {
        assert slots'[k'.slot] == slots[k'.slot];
      }
    }
    assert LiveContents(keys', values', slots', contents') by {
      forall k' | k' in contents'
        ensures k'.slot < |slots'| && slots'[k'.slot].link < |keys'| && keys'[slots'[k'.slot].link] == k'
      {
        if k' != k {
          assert slots'[k'.slot] == slots[k'.slot];
        }
      }
    }
  }

  /**
   * `emplace` with a non-empty free list: the head slot is popped, keeps its
   * version, names the new last dense position, and the key it yields was
   * never handed out before (every earlier key for a free slot is older).
   */
  lemma ReuseSlotKeepsInv<T>(keys: seq<Key>, values: seq<T>, slots: seq<Slot>, head: nat,
                             fl: seq<nat>, issued: set<Key>, contents: map<Key, T>, v: T)
    requires Inv(keys, values, slots, head, fl, issued, contents)
    requires head != NULL_SLOT && |keys| < MAX_SIZE
    ensures fl != [] && head == fl[0] && head < |slots|
    ensures Key(head, slots[head].version) !in issued
    ensures Inv(keys + [Key(head, slots[head].version)], values + [v],
                slots[head := slots[head].(link := |keys|)], slots[head].link,
                fl[1..], issued + {Key(head, slots[head].version)},
                contents[Key(head, slots[head].version) := v])
  {
    EmptyFreeList(keys, values, slots, head, fl, issued, contents);
    var n := |keys|;
    var k := Key(head, slots[head].version);
    var keys', values' := keys + [k], values + [v];
    var slots' := slots[head := slots[head].(link := n)];
    var fl' := fl[1..];
    var issued', contents' := issued + {k}, contents[k := v];
    assert head in fl;
    assert !Occupied(keys, slots, head);
    assert k !in issued;
    assert k !in contents;
    assert DenseLinked(keys', slots') by {
      forall p | 0 <= p < |keys'|
        ensures keys'[p].slot < |slots'| && slots'[keys'[p].slot] == Slot(p, keys'[p].version)
      {
        if p < n {
          assert slots[keys[p].slot].link == p;
          assert keys[p].slot != head;
        }
      }
    }
    assert FreeChain(slots', slots[head].link, fl') by {
      forall i | 0 <= i < |fl'|
        ensures fl'[i] < |slots'| && slots'[fl'[i]].link == NextFree(fl', i)
      {
        assert fl'[i] == fl[i + 1];
        assert NextFree(fl', i) == NextFree(fl, i + 1);
      }
      forall i, j | 0 <= i < j < |fl'|
        ensures fl'[i] != fl'[j]
      {
        assert fl'[i] == fl[i + 1] && fl'[j] == fl[j + 1];
      }
    }
    assert FreeIsUnoccupied(keys', slots', fl') by {
      forall s | 0 <= s < |slots'|
        ensures s in fl' <==> !Occupied(keys', slots', s)
      {
        if s == head {
          assert fl[0] == head;
          assert forall j | 1 <= j < |fl| :: fl[j] != fl[0];
          assert s !in fl';
        } else {
          assert s in fl <==> s in fl' by {
            if s in fl {
              var j :| 0 <= j < |fl| && fl[j] == s;
              assert j > 0;
              assert fl'[j - 1] == s;
            }
          }
          assert slots'[s] == slots[s];
          if slots[s].link == n {
            assert keys'[n].slot == head;
          }
        }
      }
    }
    assert IssuedKeys(keys', slots', fl', issued') by {
      forall k' | k' in issued'
        ensures k'.slot < |slots'| && k'.version <= slots'[k'.slot].version
                && (k'.version == slots'[k'.slot].version ==> k'.slot !in fl')
      {
        if k'.slot != head {
          assert slots'[k'.slot] == slots[k'.slot];
          assert k'.slot in fl' ==> k'.slot in fl;
        } else {
          assert head !in fl' by {
            assert forall j | 1 <= j < |fl| :: fl[j] != fl[0];
          }
        }
      }
    }
    assert LiveContents(keys', values', slots', contents') by {
      forall k' | k' in contents'
        ensures k'.slot < |slots'| && slots'[k'.slot].link < |keys'| && keys'[slots'[k'.slot].link] == k'
      {
        if k' != k {
          assert Occupied(keys, slots, k'.slot);
        }
      }
    }
  }

  /** Facts about the two slots `erase_only_key(i)` writes, used by the lemmas below. */
  ghost predicate EraseSetting(keys: seq<Key>, slots: seq<Slot>, i: nat) {
    && DenseLinked(keys, slots)
    && i < |keys|
  }

  /** Every dense position other than i still names the slot it named. */
  lemma EraseTouchesTwoSlots(keys: seq<Key>, slots: seq<Slot>, head: nat, i: nat, s: nat)
    requires EraseSetting(keys, slots, i)
    requires s < |slots| && s != keys[i].slot && s != keys[|keys| - 1].slot
    ensures EraseSlots(keys, slots, head, i)[s] == slots[s]
  {
  }

  /** After the swap-remove, each remaining dense key's slot holds its new position. */
  lemma EraseKeepsDenseLinked(keys: seq<Key>, slots: seq<Slot>, head: nat, i: nat)
    requires EraseSetting(keys, slots, i)
    ensures DenseLinked(SwapRemove(keys, i), EraseSlots(keys, slots, head, i))
    ensures forall p | 0 <= p < |keys| - 1 :: SwapRemove(keys, i)[p].slot != keys[i].slot
  {
    var n := |keys|;
    var keys' := SwapRemove(keys, i);
    var slots' := EraseSlots(keys, slots, head, i);
    forall p | 0 <= p < |keys'|
      ensures keys'[p].slot < |slots'| && slots'[keys'[p].slot] == Slot(p, keys'[p].version)
      ensures keys'[p].slot != keys[i].slot
    {
      if p == i {
        assert keys'[p] == keys[n - 1];
        DenseSlotsDistinct(keys, slots, i, n - 1);
      } else {
        assert keys'[p] == keys[p];
        DenseSlotsDistinct(keys, slots, p, i);
        DenseSlotsDistinct(keys, slots, p, n - 1);
        EraseTouchesTwoSlots(keys, slots, head, i, keys[p].slot);
      }
    }
  }

  /** The erased slot is pushed on the free list; the chain stays well formed. */
  lemma EraseKeepsFreeChain(keys: seq<Key>, slots: seq<Slot>, head: nat, fl: seq<nat>, i: nat)
    requires i < |keys| && keys[i].slot < |slots| && keys[|keys| - 1].slot < |slots|
    requires FreeChain(slots, head, fl)
    requires keys[i].slot !in fl && keys[|keys| - 1].slot !in fl
    ensures FreeChain(EraseSlots(keys, slots, head, i), keys[i].slot, [keys[i].slot] + fl)
  {
    var bk := keys[|keys| - 1];
    var patched := slots[bk.slot := slots[bk.slot].(link := i)];
    ChainFrame(slots, head, fl, bk.slot, slots[bk.slot].(link := i));
    PushFree(patched, head, fl, keys[i].slot, keys[i].version + 1);
    assert EraseSlots(keys, slots, head, i) == patched[keys[i].slot := Slot(head, keys[i].version + 1)];
  }

  /** After the erase the free list still holds exactly the unoccupied slots. */
  lemma EraseKeepsFreeIsUnoccupied(keys: seq<Key>, slots: seq<Slot>, head: nat, fl: seq<nat>, i: nat)
    requires EraseSetting(keys, slots, i)
    requires FreeIsUnoccupied(keys, slots, fl)
    requires |fl| + |keys| == |slots| && |slots| <= MAX_SIZE
    requires head == NULL_SLOT || head in fl
    ensures FreeIsUnoccupied(SwapRemove(keys, i), EraseSlots(keys, slots, head, i), [keys[i].slot] + fl)
  {
    var n := |keys|;
    var ek, bk := keys[i], keys[n - 1];
    var keys' := SwapRemove(keys, i);
    var slots' := EraseSlots(keys, slots, head, i);
    var fl' := [ek.slot] + fl;
    EraseKeepsDenseLinked(keys, slots, head, i);
    forall s | 0 <= s < |slots'|
      ensures s in fl' <==> !Occupied(keys', slots', s)
    {
      if s == ek.slot {
        assert s in fl';
      } else if s == bk.slot {
        assert Occupied(keys, slots, s);
        assert s !in fl';
        assert slots'[s].link == i && keys'[i] == bk;
      } else {
        EraseTouchesTwoSlots(keys, slots, head, i, s);
        assert s in fl' <==> s in fl;
        var l := slots[s].link;
        if s in fl {
          if l < n - 1 {
            if l == i {
              assert keys'[l] == bk;
            } else {
              assert keys'[l] == keys[l];
            }
          }
        } else {
          assert l != i && l != n - 1;
          assert keys'[l] == keys[l];
        }
      }
    }
  }

  /** The erased slot's version moves past every key handed out for it. */
  lemma EraseKeepsIssuedKeys(keys: seq<Key>, slots: seq<Slot>, head: nat, fl: seq<nat>,
                             issued: set<Key>, i: nat)
    requires EraseSetting(keys, slots, i)
    requires IssuedKeys(keys, slots, fl, issued)
    ensures IssuedKeys(SwapRemove(keys, i), EraseSlots(keys, slots, head, i), [keys[i].slot] + fl, issued)
  {
    var n := |keys|;
    var ek, bk := keys[i], keys[n - 1];
    var keys' := SwapRemove(keys, i);
    var slots' := EraseSlots(keys, slots, head, i);
    var fl' := [ek.slot] + fl;
    forall p | 0 <= p < |keys'|
      ensures keys'[p] in issued
    {
      if p == i { assert keys'[p] == keys[n - 1]; } else { assert keys'[p] == keys[p]; }
    }
    forall k | k in issued
      ensures k.slot < |slots'| && k.version <= slots'[k.slot].version
              && (k.version == slots'[k.slot].version ==> k.slot !in fl')
    {
      if k.slot == ek.slot {
      } else if k.slot == bk.slot {
        assert slots'[k.slot].version == slots[k.slot].version;
        assert k.slot !in fl';
      } else {
        EraseTouchesTwoSlots(keys, slots, head, i, k.slot);
      }
    }
  }

  /** The erased key leaves the map; every other live key still finds its value. */
  lemma EraseKeepsLiveContents<T>(keys: seq<Key>, values: seq<T>, slots: seq<Slot>, head: nat,
                                  contents: map<Key, T>, i: nat)
    requires EraseSetting(keys, slots, i)
    requires LiveContents(keys, values, slots, contents)
    ensures keys[i] in contents && contents[keys[i]] == values[i]
    ensures LiveContents(SwapRemove(keys, i), SwapRemove(values, i), EraseSlots(keys, slots, head, i),
                         contents - {keys[i]})
  {
    var n := |keys|;
    var ek, bk := keys[i], keys[n - 1];
    var keys', values' := SwapRemove(keys, i), SwapRemove(values, i);
    var slots' := EraseSlots(keys, slots, head, i);
    var contents' := contents - {ek};
    EraseKeepsDenseLinked(keys, slots, head, i);
    forall p | 0 <= p < |keys'|
      ensures keys'[p] in contents' && contents'[keys'[p]] == values'[p]
    {
      assert keys'[p].slot != ek.slot;
    }
    forall k | k in contents'
      ensures k.slot < |slots'| && slots'[k.slot].link < |keys'| && keys'[slots'[k.slot].link] == k
    {
      var l := slots[k.slot].link;
      assert keys[l] == k;
      assert l != i;
      if l == n - 1 {
        assert k == bk;
        assert slots'[k.slot].link == i && keys'[i] == bk;
      } else {
        DenseSlotsDistinct(keys, slots, l, n - 1);
        DenseSlotsDistinct(keys, slots, l, i);
        EraseTouchesTwoSlots(keys, slots, head, i, k.slot);
        assert keys'[l] == keys[l];
      }
    }
  }

  /**
   * `erase(i)` / `erase_only_key(i)`: swap-remove of position i from both
   * dense arrays, the moved key's slot patched to i, the erased slot pushed
   * on the free list with its version bumped, and the erased key gone from
   * the map while every other live key keeps its value.
   */
  lemma EraseKeepsInv<T>(keys: seq<Key>, values: seq<T>, slots: seq<Slot>, head: nat,
                         fl: seq<nat>, issued: set<Key>, contents: map<Key, T>, i: nat)
    requires Inv(keys, values, slots, head, fl, issued, contents)
    requires i < |keys| && keys[i].version < U32_MAX
    ensures keys[i] in contents && contents[keys[i]] == values[i]
    ensures Inv(SwapRemove(keys, i), SwapRemove(values, i), EraseSlots(keys, slots, head, i),
                keys[i].slot, [keys[i].slot] + fl, issued, contents - {keys[i]})
  {
    var slots' := EraseSlots(keys, slots, head, i);
    assert Occupied(keys, slots, keys[i].slot);
    assert Occupied(keys, slots, keys[|keys| - 1].slot);
    EraseKeepsDenseLinked(keys, slots, head, i);
    EraseKeepsFreeChain(keys, slots, head, fl, i);
    EraseKeepsFreeIsUnoccupied(keys, slots, head, fl, i);
    EraseKeepsIssuedKeys(keys, slots, head, fl, issued, i);
    EraseKeepsLiveContents(keys, values, slots, head, contents, i);
    assert Bounded(slots') by {
      forall s | 0 <= s < |slots'|
        ensures slots'[s].version <= U32_MAX
      {
        if s != keys[i].slot && s != keys[|keys| - 1].slot {
          EraseTouchesTwoSlots(keys, slots, head, i, s);
        }
      }
    }
  }

  /**
   * The free list `clear` has built after visiting the first i dense keys:
   * their slots, most recent first, in front of the free list it started from.
   */
  function ReleasedOnto(keys: seq<Key>, i: nat, fl0: seq<nat>): (r: seq<nat>)
    requires i <= |keys|
    ensures |r| == i + |fl0|
  {
    if i == 0 then fl0 else [keys[i - 1].slot] + ReleasedOnto(keys, i - 1, fl0)
  }

  /** A slot is on that list exactly when it was free already or one of the first i keys names it. */
  lemma {:induction false} ReleasedMembers(keys: seq<Key>, i: nat, fl0: seq<nat>, s: nat)
    requires i <= |keys|
    ensures s in ReleasedOnto(keys, i, fl0) <==> s in fl0 || exists q | 0 <= q < i :: keys[q].slot == s
  {
    if i > 0 {
      ReleasedMembers(keys, i - 1, fl0, s);
    }
  }

  /**
   * One step of `clear`: the slot of dense key i is pushed on the free list
   * with version + 1. It is not on the list yet, because it is occupied and no
   * earlier dense key names it.
   */
  lemma ClearStep(keys: seq<Key>, slots0: seq<Slot>, fl0: seq<nat>, slots: seq<Slot>, head: nat,
                  fl: seq<nat>, i: nat)
    requires DenseLinked(keys, slots0) && FreeIsUnoccupied(keys, slots0, fl0)
    requires i < |keys| && |slots| == |slots0|
    requires fl == ReleasedOnto(keys, i, fl0) && FreeChain(slots, head, fl)
    ensures keys[i].slot < |slots| && keys[i].slot !in fl0
    ensures [keys[i].slot] + fl == ReleasedOnto(keys, i + 1, fl0)
    ensures FreeChain(slots[keys[i].slot := Slot(head, keys[i].version + 1)], keys[i].slot, [keys[i].slot] + fl)
  {
    var s := keys[i].slot;
    assert Occupied(keys, slots0, s) by {
      assert slots0[s] == Slot(i, keys[i].version);
    }
    assert s !in fl by {
      ReleasedMembers(keys, i, fl0, s);
      forall q | 0 <= q < i
        ensures keys[q].slot != s
      {
        DenseSlotsDistinct(keys, slots0, q, i);
      }
    }
    PushFree(slots, head, fl, s, keys[i].version + 1);
  }

  /**
   * Where `clear` stands after visiting the first i dense keys: those keys'
   * slots are on the free list in front of the old one, with their versions
   * bumped; the slots of the keys not yet visited and of the old free list
   * are as they were.
   */
  ghost predicate ClearProgress(keys: seq<Key>, slots0: seq<Slot>, fl0: seq<nat>,
                                slots: seq<Slot>, head: nat, fl: seq<nat>, i: nat) {
    && i <= |keys|
    && |slots| == |slots0|
    && fl == ReleasedOnto(keys, i, fl0)
    && FreeChain(slots, head, fl)
    && (forall p | i <= p < |keys| :: keys[p].slot < |slots| && slots[keys[p].slot] == slots0[keys[p].slot])
    && (forall p | 0 <= p < i :: keys[p].slot < |slots| && slots[keys[p].slot].version == keys[p].version + 1)
    && (forall s | 0 <= s < |slots| && s in fl0 :: slots[s] == slots0[s])
  }

  /**
   * What `clear` does to the slot table and the free list, given the dense
   * keys, the table, head and free list it started from: the slot table keeps
   * its length; the free list is every dense key's slot, the last key's
   * first, in front of the old free list, and the head is the last key's
   * slot (the old head when there were no keys); each dense key's slot has
   * its version bumped by one; the slots that were already free are
   * untouched.
   */
  ghost predicate Released(keys: seq<Key>, slots0: seq<Slot>, head0: nat, fl0: seq<nat>,
                           slots: seq<Slot>, head: nat, fl: seq<nat>) {
    && |slots| == |slots0|
    && fl == ReleasedOnto(keys, |keys|, fl0)
    && head == (if keys == [] then head0 else keys[|keys| - 1].slot)
    && FreeChain(slots, head, fl)
    && (forall p | 0 <= p < |keys| :: keys[p].slot < |slots| && slots[keys[p].slot].version == keys[p].version + 1)
    && (forall s | 0 <= s < |slots| && s in fl0 :: slots[s] == slots0[s])
  }

  /** Before the first step nothing has been released. */
  lemma ClearStart<T>(keys: seq<Key>, values: seq<T>, slots0: seq<Slot>, head0: nat, fl0: seq<nat>,
                      issued: set<Key>, contents: map<Key, T>)
    requires Inv(keys, values, slots0, head0, fl0, issued, contents)
    ensures ClearProgress(keys, slots0, fl0, slots0, head0, fl0, 0)
  {
  }

  /** One iteration of the `clear` loop keeps `ClearProgress`. */
  lemma ClearLoopStep(keys: seq<Key>, slots0: seq<Slot>, fl0: seq<nat>, slots: seq<Slot>, head: nat,
                      fl: seq<nat>, i: nat)
    requires DenseLinked(keys, slots0) && FreeIsUnoccupied(keys, slots0, fl0)
    requires i < |keys|
    requires ClearProgress(keys, slots0, fl0, slots, head, fl, i)
    ensures keys[i].slot < |slots|
    ensures ClearProgress(keys, slots0, fl0, slots[keys[i].slot := Slot(head, keys[i].version + 1)],
                          keys[i].slot, [keys[i].slot] + fl, i + 1)
  {
    var key := keys[i];
    ClearStep(keys, slots0, fl0, slots, head, fl, i);
    var slots' := slots[key.slot := Slot(head, key.version + 1)];
    forall p | 0 <= p < |keys| && p != i
      ensures keys[p].slot != key.slot
    {
      DenseSlotsDistinct(keys, slots0, p, i);
    }
    assert forall p | i + 1 <= p < |keys| :: slots'[keys[p].slot] == slots0[keys[p].slot];
    assert forall p | 0 <= p < i + 1 :: slots'[keys[p].slot].version == keys[p].version + 1;
    assert forall s | 0 <= s < |slots'| && s in fl0 :: slots'[s] == slots0[s];
  }

  /** Once the loop has visited every dense key, the table, head and free list are `Released`. */
  lemma ClearReleased<T>(keys: seq<Key>, values: seq<T>, slots0: seq<Slot>, head0: nat, fl0: seq<nat>,
                         issued: set<Key>, contents: map<Key, T>, slots: seq<Slot>, head: nat, fl: seq<nat>)
    requires Inv(keys, values, slots0, head0, fl0, issued, contents)
    requires ClearProgress(keys, slots0, fl0, slots, head, fl, |keys|)
    ensures Released(keys, slots0, head0, fl0, slots, head, fl)
  {
    if keys != [] {
      assert fl[0] == keys[|keys| - 1].slot;
    }
  }

  /**
   * The state `clear` leaves: once every dense key's slot has been pushed with
   * its version bumped, the empty map is valid, the slot table has its old
   * length, every slot is free, and every key ever handed out is stale.
   */
  lemma ClearedInv<T>(keys: seq<Key>, values: seq<T>, slots0: seq<Slot>, head0: nat, fl0: seq<nat>,
                      issued: set<Key>, contents: map<Key, T>, slots: seq<Slot>, head: nat, fl: seq<nat>)
    requires Inv(keys, values, slots0, head0, fl0, issued, contents)
    requires forall p | 0 <= p < |keys| :: keys[p].version < U32_MAX
    requires ClearProgress(keys, slots0, fl0, slots, head, fl, |keys|)
    ensures Inv<T>([], [], slots, head, fl, issued, map[])
    ensures forall k | k in issued :: k.slot < |slots| && k.version < slots[k.slot].version
  {
    var n := |keys|;
    forall s | 0 <= s < |slots|
      ensures s in fl
      ensures s !in fl0 ==> exists p | 0 <= p < n :: keys[p].slot == s
    {
      ReleasedMembers(keys, n, fl0, s);
      if s !in fl0 {
        assert Occupied(keys, slots0, s);
        var p := slots0[s].link;
        assert keys[p].slot == s;
      }
    }
    assert Bounded(slots) by {
      forall s | 0 <= s < |slots|
        ensures slots[s].version <= U32_MAX
      {
        if s !in fl0 {
          var p :| 0 <= p < n && keys[p].slot == s;
        }
      }
    }
    forall k | k in issued
      ensures k.slot < |slots| && k.version < slots[k.slot].version
    {
      if k.slot in fl0 {
        assert slots[k.slot] == slots0[k.slot];
      } else {
        var p :| 0 <= p < n && keys[p].slot == k.slot;
        assert slots0[keys[p].slot] == Slot(p, keys[p].version);
      }
    }
  }
}
