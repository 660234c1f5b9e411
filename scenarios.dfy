/**
 * Client code driving both slot maps through the situations their test
 * suite describes; each method's postcondition is what the tests expect to
 * observe.
 */
module Scenarios {
  import opened Wrappers
  import opened Keys
  import opened ZipIterators
  import opened SlotTable
  import opened SlotMaps
  import opened LegacyKeys
  import opened LegacySlotMaps

  /**
   * Insert two values, erase the second, insert a third: the new key differs
   * from both earlier ones, the erased key is not found, and the other two
   * keys find their values.
   */
  method InsertAfterErase() returns (baseKey: Key, oldKey: Key, newKey: Key,
                                     baseValue: Option<int>, oldValue: Option<int>, newValue: Option<int>)
    ensures newKey != baseKey && newKey != oldKey
    ensures baseValue == Some(0) && oldValue == None && newValue == Some(2)
  {
    var s := new SlotMap<int>();
    var pos;
    baseKey, pos := s.Emplace(0);
    oldKey, pos := s.Emplace(1);
    s.EraseKey(oldKey);
    newKey, pos := s.Emplace(2);
    baseValue := s.Get(baseKey);
    oldValue := s.Get(oldKey);
    newValue := s.Get(newKey);
  }

  /** `try_erase` on the same key answers true, then false. */
  method TryEraseTwice() returns (first: bool, second: bool)
    ensures first && !second
  {
    var s := new SlotMap<int>();
    var k, pos := s.Emplace(0);
    first := s.TryErase(k);
    second := s.TryErase(k);
  }

  /** `try_pop` on the same key yields the value, then nothing. */
  method TryPopTwice(v: int) returns (first: Option<int>, second: Option<int>)
    ensures first == Some(v) && second == None
  {
    var s := new SlotMap<int>();
    var k, pos := s.Emplace(v);
    first := s.TryPop(k);
    second := s.TryPop(k);
  }

  /** `pop` returns the stored value, leaves the map empty, and the key is no longer found. */
  method PopOnly(v: int) returns (popped: int, size: nat, found: bool)
    ensures popped == v && size == 0 && !found
  {
    var s := new SlotMap<int>();
    var k, pos := s.Emplace(v);
    popped := s.Pop(k);
    size := s.Size();
    found := s.Contains(k);
  }

  /** A key handed out before `clear` is not found afterwards. */
  method FindAfterClear(v: int) returns (found: bool, empty: bool)
    ensures !found && empty
  {
    var s := new SlotMap<int>();
    var k, pos := s.Emplace(v);
    s.Clear();
    found := s.Contains(k);
    empty := s.Empty();
  }

  /** Repeatedly erasing at `begin()` empties any map whose versions can still be bumped. */
  method DrainFromBegin<T(==)>(s: SlotMap<T>)
    requires s.Valid()
    requires forall p | 0 <= p < |s.keys| :: s.keys[p].version < U32_MAX
    modifies s
    ensures s.Valid() && s.contents == map[]
  {
    var it := s.Begin();
    while !ZipIterators.Equal(it, s.End())
      invariant s.Valid() && it == Zip(0, 0)
      invariant forall p | 0 <= p < |s.keys| :: s.keys[p].version < U32_MAX
      decreases |s.keys|
    {
      it := s.EraseIter(it);
    }
    assert s.Empty();
  }

  /** Repeatedly erasing at `end() - 1` empties any map whose versions can still be bumped. */
  method DrainFromEnd<T(==)>(s: SlotMap<T>)
    requires s.Valid()
    requires forall p | 0 <= p < |s.keys| :: s.keys[p].version < U32_MAX
    modifies s
    ensures s.Valid() && s.contents == map[]
  {
    while !s.Empty()
      invariant s.Valid()
      invariant forall p | 0 <= p < |s.keys| :: s.keys[p].version < U32_MAX
      decreases |s.keys|
    {
      var last := Retreat(s.End(), 1);
      var next := s.EraseIter(last);
    }
  }

  /** A new map into which `a` and then `b` were emplaced. */
  method TwoEntries(a: int, b: int) returns (s: SlotMap<int>)
    ensures fresh(s) && s.Valid()
    ensures s.keys == [Key(0, 0), Key(1, 0)] && s.values == [a, b]
    ensures s.slots == [Slot(0, 0), Slot(1, 0)]
    ensures s.contents == map[Key(0, 0) := a, Key(1, 0) := b]
  {
    s := new SlotMap<int>();
    var k, pos := s.Emplace(a);
    k, pos := s.Emplace(b);
  }

  /** After `swap` each map's keys find their values in the other map. */
  method SwapMaps(a0: int, a1: int, b0: int, b1: int) returns (fromFirst: seq<int>, fromSecond: seq<int>)
    ensures fromFirst == [a0, a1] && fromSecond == [b0, b1]
  {
    var s1 := TwoEntries(a0, a1);
    var s2 := TwoEntries(b0, b1);
    s1.Swap(s2);
    fromFirst := [s2.At(Key(0, 0)), s2.At(Key(1, 0))];
    fromSecond := [s1.At(Key(0, 0)), s1.At(Key(1, 0))];
  }

  /** Maps filled with the same values in the same order compare equal. */
  method SameInsertsCompareEqual(a: int, b: int) returns (equal: bool)
    ensures equal
  {
    var s1 := TwoEntries(a, b);
    var s2 := TwoEntries(a, b);
    equal := s1.Equal(s2);
  }

  /** `TwoEntries(a, b)` with `c` emplaced as {2, 0}. */
  method ThreeEntries(a: int, b: int, c: int) returns (s: SlotMap<int>)
    ensures fresh(s) && s.Valid()
    ensures s.keys == [Key(0, 0), Key(1, 0), Key(2, 0)] && s.values == [a, b, c]
    ensures s.slots == [Slot(0, 0), Slot(1, 0), Slot(2, 0)]
    ensures s.contents == map[Key(0, 0) := a, Key(1, 0) := b, Key(2, 0) := c]
  {
    s := TwoEntries(a, b);
    var k, pos := s.Emplace(c);
  }

  /** `ThreeEntries(a, b, c)` with the key {0, 0} erased: the last entry moves to the front. */
  method ThreeEraseFirst(a: int, b: int, c: int) returns (s: SlotMap<int>)
    ensures fresh(s) && s.Valid()
    ensures s.keys == [Key(2, 0), Key(1, 0)] && s.values == [c, b]
    ensures s.contents == map[Key(1, 0) := b, Key(2, 0) := c]
  {
    s := ThreeEntries(a, b, c);
    s.EraseKey(Key(0, 0));
  }

  /** `TwoEntries(a, b)` with the key {0, 0} erased: slot 0 is free with version 1. */
  method TwoEraseFirst(a: int, b: int) returns (s: SlotMap<int>)
    ensures fresh(s) && s.Valid()
    ensures s.keys == [Key(1, 0)] && s.values == [b]
    ensures s.slots == [Slot(NULL_SLOT, 1), Slot(0, 0)] && s.freeHead == 0
    ensures s.contents == map[Key(1, 0) := b]
  {
    s := TwoEntries(a, b);
    s.EraseKey(Key(0, 0));
  }

  /** `TwoEraseFirst(a, b)` with `d` emplaced into the freed slot as {0, 1}. */
  method ReuseFreed(a: int, b: int, d: int) returns (s: SlotMap<int>)
    ensures fresh(s) && s.Valid()
    ensures s.keys == [Key(1, 0), Key(0, 1)] && s.values == [b, d]
    ensures s.slots == [Slot(1, 1), Slot(0, 0)] && s.freeHead == NULL_SLOT
    ensures s.contents == map[Key(1, 0) := b, Key(0, 1) := d]
  {
    s := TwoEraseFirst(a, b);
    var k, pos := s.Emplace(d);
  }

  /** `ReuseFreed(a, b, d)` with `c` emplaced into a new slot as {2, 0}. */
  method ReuseThenGrow(a: int, b: int, c: int, d: int) returns (s: SlotMap<int>)
    ensures fresh(s) && s.Valid()
    ensures s.keys == [Key(1, 0), Key(0, 1), Key(2, 0)] && s.values == [b, d, c]
    ensures s.slots == [Slot(1, 1), Slot(0, 0), Slot(2, 0)]
    ensures s.contents == map[Key(1, 0) := b, Key(0, 1) := d, Key(2, 0) := c]
  {
    s := ReuseFreed(a, b, d);
    var k, pos := s.Emplace(c);
  }

  /** `ReuseThenGrow(a, b, c, d)` with the key {0, 1} erased again. */
  method ReuseEraseMiddle(a: int, b: int, c: int, d: int) returns (s: SlotMap<int>)
    ensures fresh(s) && s.Valid()
    ensures s.keys == [Key(1, 0), Key(2, 0)] && s.values == [b, c]
    ensures s.contents == map[Key(1, 0) := b, Key(2, 0) := c]
  {
    s := ReuseThenGrow(a, b, c, d);
    s.EraseKey(Key(0, 1));
  }

  /**
   * The main map's `==` compares the dense arrays position by position: two
   * maps in which the keys {1, 0} and {2, 0} find `b` and `c` compare unequal
   * when their dense order differs.
   */
  method PositionalEquality(a: int, b: int, c: int, d: int)
    returns (fromFirst: seq<int>, fromSecond: seq<int>, equal: bool)
    ensures fromFirst == fromSecond == [b, c]
    ensures !equal
  {
    var s1 := ThreeEraseFirst(a, b, c);
    var s2 := ReuseEraseMiddle(a, b, c, d);
    fromFirst := [s1.At(Key(1, 0)), s1.At(Key(2, 0))];
    fromSecond := [s2.At(Key(1, 0)), s2.At(Key(2, 0))];
    equal := s1.Equal(s2);
  }

  /**
   * The older map's `clear` starts the slot table over without advancing
   * generations: the first key handed out after it equals the first key
   * handed out before it, so the old key now finds the new value.
   */
  method LegacyKeyAliasesAfterClear(idxBits: nat, genBits: nat, a: int, b: int)
    returns (before: LKey, after: LKey, found: int)
    requires KeyBits(idxBits, genBits) && idxBits >= 2
    ensures before == after && found == b
  {
    var s := new LegacySlotMap<int>(idxBits, genBits);
    var pos;
    before, pos := s.Emplace(a);
    s.Clear();
    after, pos := s.Emplace(b);
    found := s.At(before);
  }

  /**
   * A reachable state in which the older map's `find` trips its own assert.
   * Emplace and erase a value, so slot 0 has generation 1; emplace again and
   * hold the key {1, 0}. `clear` resets the table without advancing
   * generations, so emplacing and erasing once more leaves slot 0 free with
   * generation 1 and the null link `max_idx`, in an empty map. The held key's
   * generation matches the free slot, so `find` follows the link to
   * `max_idx`, past end: `Find`'s precondition (the source's
   * `assert(it < end())`) is false. The checked find answers end.
   */
  method LegacyStaleKeyBreaksFind(idxBits: nat, genBits: nat)
    returns (held: LKey, slotGen: nat, slotLink: nat, size: nat, checked: nat)
    requires KeyBits(idxBits, genBits) && idxBits >= 2
    ensures held == LKey(1, 0) && slotGen == held.gen
    ensures slotLink == MaxIdx(idxBits) && size == 0 && slotLink > size
    ensures checked == size
  {
    var s := new LegacySlotMap<int>(idxBits, genBits);
    var k, pos := s.Emplace(1);
    assert k == LKey(0, 0) && k in s.contents;
    s.EraseKey(k);
    assert s.freeListHead == 0 && s.indices[0] == LKey(1, MaxIdx(idxBits));
    held, pos := s.Emplace(2);
    s.Clear();
    k, pos := s.Emplace(3);
    assert k == LKey(0, 0) && k in s.contents;
    s.EraseKey(k);
    slotGen, slotLink, size := s.indices[0].gen, s.indices[0].idx, s.Size();
    checked := s.FindChecked(held);
  }

  /** In the older map an erased key is not found, even once its slot is reused. */
  method LegacyInsertAfterErase(idxBits: nat, genBits: nat) returns (oldFound: bool, newKey: LKey, oldKey: LKey)
    requires KeyBits(idxBits, genBits) && idxBits >= 2
    ensures !oldFound && newKey.idx == oldKey.idx && newKey != oldKey
  {
    var s := new LegacySlotMap<int>(idxBits, genBits);
    var pos;
    oldKey, pos := s.Emplace(1);
    assert oldKey == LKey(0, 0) && oldKey in s.contents;
    s.EraseKey(oldKey);
    assert s.freeListHead == 0 && s.indices[0].gen != 0;
    newKey, pos := s.Emplace(2);
    oldFound := s.Contains(oldKey);
  }

  /** A new older-style map into which `a` and then `b` were emplaced. */
  method LegacyTwoEntries(idxBits: nat, genBits: nat, a: int, b: int) returns (s: LegacySlotMap<int>)
    requires KeyBits(idxBits, genBits) && idxBits >= 3
    ensures fresh(s) && s.Valid() && s.idxBits == idxBits && s.genBits == genBits
    ensures s.objects == [a, b]
  {
    s := new LegacySlotMap<int>(idxBits, genBits);
    var k, pos := s.Emplace(a);
    k, pos := s.Emplace(b);
  }

  /** The older map's `==` ignores order: the same values inserted in either order compare equal. */
  method LegacyEqualityIgnoresOrder(idxBits: nat, genBits: nat, a: int, b: int) returns (equal: bool)
    requires KeyBits(idxBits, genBits) && idxBits >= 3
    ensures equal
  {
    var s1 := LegacyTwoEntries(idxBits, genBits, a, b);
    var s2 := LegacyTwoEntries(idxBits, genBits, b, a);
    assert multiset(s1.objects) == multiset(s2.objects);
    equal := s1.Equal(s2);
  }
}
