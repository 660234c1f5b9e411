/**
 * The key-index map of the older slot map (`indices`), the index-key map
 * (`keys`, the slot index owning each dense position) and the invariant that
 * ties them to the objects and to the free list threaded through `indices`.
 *
 * The free list ends at `max_idx` (`free_list_null`). Generations wrap, so
 * unlike the main slot map nothing here remembers the keys handed out before.
 */
module LegacyTable {
  import opened DenseArrays
  import opened LegacyKeys

  /** Slot s names a dense position whose owner names s back. */
  predicate Occupied(keys: seq<nat>, indices: seq<LKey>, s: nat)
    requires s < |indices|
  {
    indices[s].idx < |keys| && keys[indices[s].idx] == s
  }

  /** For every dense position p, the slot `keys[p]` holds p. */
  ghost predicate DenseLinked(keys: seq<nat>, indices: seq<LKey>) {
    forall p | 0 <= p < |keys| :: keys[p] < |indices| && indices[keys[p]].idx == p
  }

  /** The link the i-th free slot must hold: the next free slot, or the null index for the last. */
  function NextFree(fl: seq<nat>, i: nat, nullIdx: nat): nat
    requires i < |fl|
  {
    if i + 1 < |fl| then fl[i + 1] else nullIdx
  }

  /**
   * `fl` is the free list read from `head`: distinct slots, each linking to
   * the next, the last to `nullIdx`, and `head` is `nullIdx` exactly when the list
   * is empty.
   */
  ghost predicate FreeChain(indices: seq<LKey>, head: nat, fl: seq<nat>, nullIdx: nat) {
    && (forall i | 0 <= i < |fl| :: fl[i] < |indices| && indices[fl[i]].idx == NextFree(fl, i, nullIdx))
    && (forall i, j | 0 <= i < j < |fl| :: fl[i] != fl[j])
    && head == (if fl == [] then nullIdx else fl[0])
  }

  /** The free list holds exactly the slots that are not occupied. */
  ghost predicate FreeIsUnoccupied(keys: seq<nat>, indices: seq<LKey>, fl: seq<nat>) {
    forall s | 0 <= s < |indices| :: s in fl <==> !Occupied(keys, indices, s)
  }

  /** The key that owns dense position p: its slot's generation and the slot index. */
  function LiveKey(keys: seq<nat>, indices: seq<LKey>, p: nat): (k: LKey)
    requires p < |keys| && keys[p] < |indices|
    ensures k.idx == keys[p]
  {
    LKey(indices[keys[p]].gen, keys[p])
  }

  /**
   * The abstract map from live keys to objects agrees with the dense arrays:
   * its keys are exactly the owners of the dense positions, each mapped to
   * the object at that position.
   */
  ghost predicate LiveContents<T>(objects: seq<T>, keys: seq<nat>, indices: seq<LKey>, contents: map<LKey, T>) {
    && |keys| == |objects|
    && (forall p | 0 <= p < |keys| ::
          keys[p] < |indices| && LiveKey(keys, indices, p) in contents
          && contents[LiveKey(keys, indices, p)] == objects[p])
    && (forall k | k in contents ::
          k.idx < |indices| && indices[k.idx].gen == k.gen && Occupied(keys, indices, k.idx))
  }

  /** The invariant of an older slot map with `IdxBits`/`GenBits` = idxBits/genBits. */
  ghost predicate Inv<T>(objects: seq<T>, indices: seq<LKey>, keys: seq<nat>, head: nat,
                         fl: seq<nat>, contents: map<LKey, T>, idxBits: nat, genBits: nat) {
    && |indices| < MaxIdx(idxBits)
    && (forall s | 0 <= s < |indices| :: indices[s].gen < Pow2(genBits))
    && DenseLinked(keys, indices)
    && FreeChain(indices, head, fl, MaxIdx(idxBits))
    && FreeIsUnoccupied(keys, indices, fl)
    && |fl| + |keys| == |indices|
    && LiveContents(objects, keys, indices, contents)
  }

  /**
   * `indices` after `erase_impl(i)`: the back object's slot is pointed at i
   * first, then the erased slot gets the next generation and becomes the
   * free-list head. When i is the last position both slots are the same and
   * the second write is the one that stays.
   */
  function EraseIndices(keys: seq<nat>, indices: seq<LKey>, head: nat, i: nat, genBits: nat): (r: seq<LKey>)
    requires i < |keys|
    requires keys[i] < |indices| && keys[|keys| - 1] < |indices|
    requires indices[keys[i]].gen < Pow2(genBits)
    ensures |r| == |indices|
    ensures r[keys[i]] == LKey(NextGen(indices[keys[i]].gen, genBits), head)
  {
    var back := keys[|keys| - 1];
    var erased := keys[i];
    indices[back := indices[back].(idx := i)][erased := LKey(NextGen(indices[erased].gen, genBits), head)]
  }

  /** Distinct dense positions belong to distinct slots. */
  lemma DenseSlotsDistinct(keys: seq<nat>, indices: seq<LKey>, p: nat, q: nat)
    requires DenseLinked(keys, indices)
    requires p < |keys| && q < |keys|
    ensures keys[p] == keys[q] ==> p == q
  {
    assert indices[keys[p]].idx == p;
  }

  /** The first n dense positions hold n distinct live keys. */
  lemma {:induction false} LiveKeysDistinct(keys: seq<nat>, indices: seq<LKey>, n: nat)
    requires DenseLinked(keys, indices) && n <= |keys|
    ensures |set p | 0 <= p < n :: LiveKey(keys, indices, p)| == n
  {
    if n > 0 {
      LiveKeysDistinct(keys, indices, n - 1);
      var earlier := set p | 0 <= p < n - 1 :: LiveKey(keys, indices, p);
      assert (set p | 0 <= p < n :: LiveKey(keys, indices, p)) == earlier + {LiveKey(keys, indices, n - 1)};
      forall p | 0 <= p < n - 1
        ensures LiveKey(keys, indices, p) != LiveKey(keys, indices, n - 1)
      {
        DenseSlotsDistinct(keys, indices, p, n - 1);
      }
    }
  }

  /** `size()`: the map has exactly one entry per object. */
  lemma ContentsSize<T>(objects: seq<T>, indices: seq<LKey>, keys: seq<nat>, head: nat,
                        fl: seq<nat>, contents: map<LKey, T>, idxBits: nat, genBits: nat)
    requires Inv(objects, indices, keys, head, fl, contents, idxBits, genBits)
    ensures |contents| == |objects|
  {
    LiveKeysDistinct(keys, indices, |keys|);
    assert contents.Keys == set p | 0 <= p < |keys| :: LiveKey(keys, indices, p) by {
      forall k | k in contents
        ensures exists p | 0 <= p < |keys| :: LiveKey(keys, indices, p) == k
      {
        assert LiveKey(keys, indices, indices[k.idx].idx) == k;
      }
    }
  }

  /**
   * What `find` relies on: a key whose generation is its slot's current one
   * is live exactly when the slot is occupied, and then the slot names the
   * dense position holding the key's object.
   */
  lemma CurrentGenIsLive<T>(objects: seq<T>, indices: seq<LKey>, keys: seq<nat>, head: nat,
                            fl: seq<nat>, contents: map<LKey, T>, idxBits: nat, genBits: nat, k: LKey)
    requires Inv(objects, indices, keys, head, fl, contents, idxBits, genBits)
    requires k.idx < |indices| && indices[k.idx].gen == k.gen
    ensures k in contents <==> Occupied(keys, indices, k.idx)
    ensures k in contents ==> contents[k] == objects[indices[k.idx].idx]
  {
    if Occupied(keys, indices, k.idx) {
      assert LiveKey(keys, indices, indices[k.idx].idx) == k;
    }
  }

  /** Pushing a slot that is not on the free list onto its front keeps a well-formed chain. */
  lemma PushFree(indices: seq<LKey>, head: nat, fl: seq<nat>, nullIdx: nat, s: nat, gen: nat)
    requires FreeChain(indices, head, fl, nullIdx)
    requires s < |indices| && s !in fl
    ensures FreeChain(indices[s := LKey(gen, head)], s, [s] + fl, nullIdx)
  {
    var indices' := indices[s := LKey(gen, head)];
    var fl' := [s] + fl;
    assert fl'[0] == s && fl'[1..] == fl;
    forall i | 0 <= i < |fl'|
      ensures fl'[i] < |indices'| && indices'[fl'[i]].idx == NextFree(fl', i, nullIdx)
    {
      if i > 0 {
        assert fl'[i] == fl[i - 1];
        assert NextFree(fl', i, nullIdx) == NextFree(fl, i - 1, nullIdx);
      }
    }
    forall i, j | 0 <= i < j < |fl'|
      ensures fl'[i] != fl'[j]
    {
      assert fl'[j] == fl[j - 1];
      if i > 0 {
        assert fl'[i] == fl[i - 1];
      }
    }
  }

  /** Rewriting a slot that is not on the free list leaves the chain as it was. */
  lemma ChainFrame(indices: seq<LKey>, head: nat, fl: seq<nat>, nullIdx: nat, s: nat, slot: LKey)
    requires FreeChain(indices, head, fl, nullIdx)
    requires s < |indices| && s !in fl
    ensures FreeChain(indices[s := slot], head, fl, nullIdx)
  {
  }

  /**
   * The first half of `emplace` when the free list is empty: a new slot with
   * generation 0 and a null link is appended and becomes the free-list head,
   * and the map is valid again with that one free slot.
   */
  lemma GrowKeepsInv<T>(objects: seq<T>, indices: seq<LKey>, keys: seq<nat>,
                        fl: seq<nat>, contents: map<LKey, T>, idxBits: nat, genBits: nat)
    requires Inv(objects, indices, keys, MaxIdx(idxBits), fl, contents, idxBits, genBits)
    requires |objects| + 1 < MaxIdx(idxBits)
    ensures fl == [] && |indices| == |keys|
    ensures Inv(objects, indices + [LKey(0, MaxIdx(idxBits))], keys, |indices|, [|indices|],
                contents, idxBits, genBits)
  {
    var n := |indices|;
    var indices' := indices + [LKey(0, MaxIdx(idxBits))];
    assert DenseLinked(keys, indices');
    assert FreeIsUnoccupied(keys, indices', [n]) by {
      forall s | 0 <= s < |indices'|
        ensures s in [n] <==> !Occupied(keys, indices', s)
      {
        if s < n {
          assert s !in fl;
          assert Occupied(keys, indices, s);
        }
      }
    }
    assert LiveContents(objects, keys, indices', contents) by {
      forall p | 0 <= p < |keys|
        ensures LiveKey(keys, indices', p) == LiveKey(keys, indices, p)
      {
      }
    }
  }

  /**
   * The second half of `emplace`: the free-list head is popped, keeps its
   * generation, and names the new last dense position; the key it yields was
   * not live before.
   */
  lemma PopFreeKeepsInv<T>(objects: seq<T>, indices: seq<LKey>, keys: seq<nat>, head: nat,
                           fl: seq<nat>, contents: map<LKey, T>, idxBits: nat, genBits: nat, v: T)
    requires Inv(objects, indices, keys, head, fl, contents, idxBits, genBits)
    requires head != MaxIdx(idxBits)
    ensures fl != [] && head == fl[0] && head < |indices|
    ensures LKey(indices[head].gen, head) !in contents
    ensures Inv(objects + [v], indices[head := indices[head].(idx := |objects|)], keys + [head],
                indices[head].idx, fl[1..], contents[LKey(indices[head].gen, head) := v], idxBits, genBits)
  {
    var n := |keys|;
    var k := LKey(indices[head].gen, head);
    var objects', keys' := objects + [v], keys + [head];
    var indices' := indices[head := indices[head].(idx := n)];
    var fl' := fl[1..];
    var contents' := contents[k := v];
    assert head in fl;
    assert !Occupied(keys, indices, head);
    assert k !in contents;
    assert DenseLinked(keys', indices') by {
      forall p | 0 <= p < |keys'|
        ensures keys'[p] < |indices'| && indices'[keys'[p]].idx == p
      {
        if p < n {
          assert indices[keys[p]].idx == p;
          assert keys[p] != head;
        }
      }
    }
    assert FreeChain(indices', indices[head].idx, fl', MaxIdx(idxBits)) by {
      forall i | 0 <= i < |fl'|
        ensures fl'[i] < |indices'| && indices'[fl'[i]].idx == NextFree(fl', i, MaxIdx(idxBits))
      {
        assert fl'[i] == fl[i + 1];
        assert NextFree(fl', i, MaxIdx(idxBits)) == NextFree(fl, i + 1, MaxIdx(idxBits));
      }
      forall i, j | 0 <= i < j < |fl'|
        ensures fl'[i] != fl'[j]
      {
        assert fl'[i] == fl[i + 1] && fl'[j] == fl[j + 1];
      }
    }
    assert FreeIsUnoccupied(keys', indices', fl') by {
      forall s | 0 <= s < |indices'|
        ensures s in fl' <==> !Occupied(keys', indices', s)
      {
        if s == head {
          assert fl[0] == head;
          assert forall j | 1 <= j < |fl| :: fl[j] != fl[0];
          assert s !in fl';
        } else {
          assert s in fl <==> s in fl' by {
            if s in fl {
              var j :| 0 <= j < |fl| && fl[j] == s;
              assert j > 0;
              assert fl'[j - 1] == s;
            }
          }
          assert indices'[s] == indices[s];
          if indices[s].idx == n {
            assert keys'[n] == head;
          }
        }
      }
    }
    assert LiveContents(objects', keys', indices', contents') by {
      forall p | 0 <= p < |keys'|
        ensures keys'[p] < |indices'| && LiveKey(keys', indices', p) in contents'
                && contents'[LiveKey(keys', indices', p)] == objects'[p]
      {
        if p < n {
          assert keys[p] != head;
          assert LiveKey(keys', indices', p) == LiveKey(keys, indices, p);
        }
      }
      forall k' | k' in contents'
        ensures k'.idx < |indices'| && indices'[k'.idx].gen == k'.gen && Occupied(keys', indices', k'.idx)
      {
        if k' != k {
          assert Occupied(keys, indices, k'.idx);
        }
      }
    }
  }

  /** Facts about the two slots `erase_impl(i)` writes, used by the lemmas below. */
  ghost predicate EraseSetting(keys: seq<nat>, indices: seq<LKey>, i: nat, genBits: nat) {
    && DenseLinked(keys, indices)
    && i < |keys|
    && indices[keys[i]].gen < Pow2(genBits)
  }

  /** Every dense position other than i still names the slot it named. */
  lemma EraseTouchesTwoSlots(keys: seq<nat>, indices: seq<LKey>, head: nat, i: nat, genBits: nat, s: nat)
    requires EraseSetting(keys, indices, i, genBits)
    requires s < |indices| && s != keys[i] && s != keys[|keys| - 1]
    ensures EraseIndices(keys, indices, head, i, genBits)[s] == indices[s]
  {
  }

  /** After the swap-remove, each remaining dense position's slot holds its new position. */
  lemma EraseKeepsDenseLinked(keys: seq<nat>, indices: seq<LKey>, head: nat, i: nat, genBits: nat)
    requires EraseSetting(keys, indices, i, genBits)
    ensures DenseLinked(SwapRemove(keys, i), EraseIndices(keys, indices, head, i, genBits))
    ensures forall p | 0 <= p < |keys| - 1 :: SwapRemove(keys, i)[p] != keys[i]
  {
    var n := |keys|;
    var keys' := SwapRemove(keys, i);
    var indices' := EraseIndices(keys, indices, head, i, genBits);
    forall p | 0 <= p < |keys'|
      ensures keys'[p] < |indices'| && indices'[keys'[p]].idx == p
      ensures keys'[p] != keys[i]
    {
      if p == i {
        assert keys'[p] == keys[n - 1];
        DenseSlotsDistinct(keys, indices, i, n - 1);
      } else {
        assert keys'[p] == keys[p];
        DenseSlotsDistinct(keys, indices, p, i);
        DenseSlotsDistinct(keys, indices, p, n - 1);
        EraseTouchesTwoSlots(keys, indices, head, i, genBits, keys[p]);
      }
    }
  }

  /** The erased slot is pushed on the free list; the chain stays well formed. */
  lemma EraseKeepsFreeChain(keys: seq<nat>, indices: seq<LKey>, head: nat, fl: seq<nat>, nullIdx: nat,
                            i: nat, genBits: nat)
    requires i < |keys| && keys[i] < |indices| && keys[|keys| - 1] < |indices|
    requires indices[keys[i]].gen < Pow2(genBits)
    requires FreeChain(indices, head, fl, nullIdx)
    requires keys[i] !in fl && keys[|keys| - 1] !in fl
    ensures FreeChain(EraseIndices(keys, indices, head, i, genBits), keys[i], [keys[i]] + fl, nullIdx)
  {
    var bk := keys[|keys| - 1];
    var patched := indices[bk := indices[bk].(idx := i)];
    ChainFrame(indices, head, fl, nullIdx, bk, indices[bk].(idx := i));
    PushFree(patched, head, fl, nullIdx, keys[i], NextGen(indices[keys[i]].gen, genBits));
    assert EraseIndices(keys, indices, head, i, genBits)
        == patched[keys[i] := LKey(NextGen(indices[keys[i]].gen, genBits), head)];
  }

  /** After the erase the free list still holds exactly the unoccupied slots. */
  lemma EraseKeepsFreeIsUnoccupied(keys: seq<nat>, indices: seq<LKey>, head: nat, fl: seq<nat>,
                                   i: nat, genBits: nat)
    requires EraseSetting(keys, indices, i, genBits)
    requires FreeIsUnoccupied(keys, indices, fl)
    requires head >= |indices| || head in fl
    ensures FreeIsUnoccupied(SwapRemove(keys, i), EraseIndices(keys, indices, head, i, genBits), [keys[i]] + fl)
  {
    var n := |keys|;
    var ek, bk := keys[i], keys[n - 1];
    var keys' := SwapRemove(keys, i);
    var indices' := EraseIndices(keys, indices, head, i, genBits);
    var fl' := [ek] + fl;
    EraseKeepsDenseLinked(keys, indices, head, i, genBits);
    forall s | 0 <= s < |indices'|
      ensures s in fl' <==> !Occupied(keys', indices', s)
    {
      if s == ek {
        assert s in fl';
        if head < n - 1 {
          assert Occupied(keys, indices, keys[head]);
        }
      } else if s == bk {
        assert Occupied(keys, indices, s);
        assert s !in fl';
        assert indices'[s].idx == i && keys'[i] == bk;
      } else {
        EraseTouchesTwoSlots(keys, indices, head, i, genBits, s);
        assert s in fl' <==> s in fl;
        var l := indices[s].idx;
        if s in fl {
          if l < n - 1 {
            if l == i {
              assert keys'[l] == bk;
            } else {
              assert keys'[l] == keys[l];
            }
          }
        } else {
          assert l != i && l != n - 1;
          assert keys'[l] == keys[l];
        }
      }
    }
  }

  /** The erased key leaves the map; every other live key still finds its object. */
  lemma EraseKeepsLiveContents<T>(objects: seq<T>, keys: seq<nat>, indices: seq<LKey>, head: nat,
                                  contents: map<LKey, T>, i: nat, genBits: nat)
    requires EraseSetting(keys, indices, i, genBits)
    requires LiveContents(objects, keys, indices, contents)
    ensures LiveKey(keys, indices, i) in contents && contents[LiveKey(keys, indices, i)] == objects[i]
    ensures LiveContents(SwapRemove(objects, i), SwapRemove(keys, i), EraseIndices(keys, indices, head, i, genBits),
                         contents - {LiveKey(keys, indices, i)})
  {
    var n := |keys|;
    var ek, bk := keys[i], keys[n - 1];
    var erased := LiveKey(keys, indices, i);
    var objects', keys' := SwapRemove(objects, i), SwapRemove(keys, i);
    var indices' := EraseIndices(keys, indices, head, i, genBits);
    var contents' := contents - {erased};
    EraseKeepsDenseLinked(keys, indices, head, i, genBits);
    forall p | 0 <= p < |keys'|
      ensures keys'[p] < |indices'| && LiveKey(keys', indices', p) in contents'
              && contents'[LiveKey(keys', indices', p)] == objects'[p]
    {
      var q := if p == i then n - 1 else p;
      assert keys'[p] == keys[q] && objects'[p] == objects[q];
      assert keys[q] != ek;
      if keys[q] != bk {
        EraseTouchesTwoSlots(keys, indices, head, i, genBits, keys[q]);
      }
      assert LiveKey(keys', indices', p) == LiveKey(keys, indices, q);
    }
    forall k | k in contents'
      ensures k.idx < |indices'| && indices'[k.idx].gen == k.gen && Occupied(keys', indices', k.idx)
    {
      var l := indices[k.idx].idx;
      assert keys[l] == k.idx;
      if l == n - 1 {
        assert indices'[k.idx].idx == i && keys'[i] == bk;
      } else {
        DenseSlotsDistinct(keys, indices, l, n - 1);
        DenseSlotsDistinct(keys, indices, l, i);
        EraseTouchesTwoSlots(keys, indices, head, i, genBits, k.idx);
        assert keys'[l] == keys[l];
      }
    }
  }

  /**
   * `erase_impl(i)`: swap-remove of position i from the objects and the
   * index-key map, the moved object's slot patched to i, the erased slot
   * pushed on the free list with the next generation, and the erased key gone
   * from the map while every other live key keeps its object.
   */
  lemma EraseKeepsInv<T>(objects: seq<T>, indices: seq<LKey>, keys: seq<nat>, head: nat,
                         fl: seq<nat>, contents: map<LKey, T>, idxBits: nat, genBits: nat, i: nat)
    requires Inv(objects, indices, keys, head, fl, contents, idxBits, genBits)
    requires i < |objects|
    ensures keys[i] < |indices| && LiveKey(keys, indices, i) in contents
    ensures contents[LiveKey(keys, indices, i)] == objects[i]
    ensures Inv(SwapRemove(objects, i), EraseIndices(keys, indices, head, i, genBits), SwapRemove(keys, i),
                keys[i], [keys[i]] + fl, contents - {LiveKey(keys, indices, i)}, idxBits, genBits)
  {
    var indices' := EraseIndices(keys, indices, head, i, genBits);
    assert Occupied(keys, indices, keys[i]);
    assert Occupied(keys, indices, keys[|keys| - 1]);
    EraseKeepsDenseLinked(keys, indices, head, i, genBits);
    EraseKeepsFreeChain(keys, indices, head, fl, MaxIdx(idxBits), i, genBits);
    EraseKeepsFreeIsUnoccupied(keys, indices, head, fl, i, genBits);
    EraseKeepsLiveContents(objects, keys, indices, head, contents, i, genBits);
    forall s | 0 <= s < |indices'|
      ensures indices'[s].gen < Pow2(genBits)
    {
      if s != keys[i] && s != keys[|keys| - 1] {
        EraseTouchesTwoSlots(keys, indices, head, i, genBits, s);
      }
    }
  }
}
