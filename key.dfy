/**
 * The key of the main slot map: a slot index and a version, both 32-bit
 * unsigned in the source. A default-constructed key has the reserved slot
 * index NULL_SLOT and is the null key.
 */
module Keys {
  import opened DenseArrays

  /** The largest 32-bit unsigned value, `std::numeric_limits<uint32_t>::max()`. */
  const U32_MAX: nat := 0xFFFF_FFFF

  /** The slot index of the null key, and the end marker of the free list. */
  const NULL_SLOT: nat := U32_MAX

  datatype Key = Key(slot: nat, version: nat)

  /** `NewKey()`: a default-constructed key. */
  const DefaultKey: Key := Key(NULL_SLOT, 0)

  predicate IsNull(k: Key) {
    k.slot == NULL_SLOT
  }

  /**
   * The defaulted `<=>`: members are compared in declaration order, slot
   * index first, then version.
   */
  function Compare(a: Key, b: Key): (r: Ordering)
    ensures r == Equivalent <==> a == b
    ensures r == Less <==> a.slot < b.slot || (a.slot == b.slot && a.version < b.version)
    ensures r == Greater <==> a.slot > b.slot || (a.slot == b.slot && a.version > b.version)
  {
    var bySlot := CompareNat(a.slot, b.slot);
    if bySlot != Equivalent then bySlot else CompareNat(a.version, b.version)
  }

  /** A default-constructed key is null. */
  lemma DefaultKeyIsNull()
    ensures IsNull(DefaultKey) && DefaultKey.version == 0
  {
  }

  /** The key order is a strict total order. */
  lemma CompareIsStrictTotalOrder(a: Key, b: Key, c: Key)
    ensures Compare(a, b) == Less <==> Compare(b, a) == Greater
    ensures Compare(a, b) == Less && Compare(b, c) == Less ==> Compare(a, c) == Less
    ensures Compare(a, b) == Less || Compare(a, b) == Equivalent || Compare(a, b) == Greater
  {
  }
}
