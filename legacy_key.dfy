/**
 * The bit-packed key of the older slot map: a generation of `GenBits` bits
 * and a slot index of `IdxBits` bits, stored in the smallest unsigned type
 * wide enough for both. The generation field is `GenBits` wide, so bumping it
 * wraps around modulo 2^GenBits.
 */
module LegacyKeys {
  import opened DenseArrays

  function Pow2(n: nat): (r: nat)
    ensures r >= 1
    ensures n > 0 ==> r >= 2
  {
    if n == 0 then 1 else 2 * Pow2(n - 1)
  }

  /**
   * `MinWideType<Bits>`: the width of the smallest of `uint8_t`, `uint16_t`,
   * `uint32_t` and `uint64_t` that holds `Bits` bits.
   */
  function MinWideType(bits: nat): (width: nat)
    requires bits <= 64
    ensures width == 8 || width == 16 || width == 32 || width == 64
    ensures bits <= width
    ensures width == 8 || bits > width / 2
  {
    if bits <= 8 then 8
    else if bits <= 16 then 16
    else if bits <= 32 then 32
    else 64
  }

  /** The template parameters a key type can be instantiated with. */
  predicate KeyBits(idxBits: nat, genBits: nat) {
    idxBits + genBits <= 64 && idxBits > 0 && genBits > 0
  }

  /** `Key<IdxBits, GenBits>`: the two bit-fields, generation first. */
  datatype LKey = LKey(gen: nat, idx: nat)

  /** `max_idx`: the largest slot index the field holds; the slot map uses it as its null. */
  function MaxIdx(idxBits: nat): (r: nat)
    ensures r + 1 == Pow2(idxBits)
  {
    Pow2(idxBits) - 1
  }

  /** `max_gen`: the largest generation the field holds. */
  function MaxGen(genBits: nat): (r: nat)
    ensures r + 1 == Pow2(genBits)
  {
    Pow2(genBits) - 1
  }

  /** Both fields of a key fit their bit widths. */
  predicate Fits(k: LKey, idxBits: nat, genBits: nat) {
    k.idx <= MaxIdx(idxBits) && k.gen <= MaxGen(genBits)
  }

  /** `operator<=>`: the slot index decides, the generation breaks ties. */
  function Compare(a: LKey, b: LKey): (r: Ordering)
    ensures r == Equivalent <==> a == b
    ensures r == Less <==> a.idx < b.idx || (a.idx == b.idx && a.gen < b.gen)
    ensures r == Greater <==> a.idx > b.idx || (a.idx == b.idx && a.gen > b.gen)
  {
    var byIdx := CompareNat(a.idx, b.idx);
    if byIdx != Equivalent then byIdx else CompareNat(a.gen, b.gen)
  }

  /** The key order is a strict total order. */
  lemma CompareIsStrictTotalOrder(a: LKey, b: LKey, c: LKey)
    ensures Compare(a, b) == Less <==> Compare(b, a) == Greater
    ensures Compare(a, b) == Less && Compare(b, c) == Less ==> Compare(a, c) == Less
    ensures Compare(a, b) == Less || Compare(a, b) == Equivalent || Compare(a, b) == Greater
  {
  }

  /**
   * `gen + 1` stored back into the `GenBits`-wide field: past `max_gen` it
   * wraps to 0.
   */
  function NextGen(g: nat, genBits: nat): (r: nat)
    requires g < Pow2(genBits)
    ensures r < Pow2(genBits)
  {
    if g + 1 < Pow2(genBits) then g + 1 else 0
  }

  /** The generation a slot has after `n` erasures. */
  function GenAfter(g: nat, genBits: nat, n: nat): (r: nat)
    requires g < Pow2(genBits)
    ensures r < Pow2(genBits)
  {
    if n == 0 then g else NextGen(GenAfter(g, genBits, n - 1), genBits)
  }

  /** One erasure always changes the generation. */
  lemma NextGenChanges(g: nat, genBits: nat)
    requires genBits > 0 && g < Pow2(genBits)
    ensures NextGen(g, genBits) != g
  {
  }

  /** Up to 2^GenBits erasures, the generation has advanced by n, modulo 2^GenBits. */
  lemma {:induction false} GenAfterWraps(g: nat, genBits: nat, n: nat)
    requires g < Pow2(genBits) && n <= Pow2(genBits)
    ensures GenAfter(g, genBits, n) == if g + n < Pow2(genBits) then g + n else g + n - Pow2(genBits)
  {
    if n > 0 {
      GenAfterWraps(g, genBits, n - 1);
    }
  }

  /**
   * A key stays stale for fewer than 2^GenBits erasures of its slot, and
   * after exactly 2^GenBits its generation is current again.
   */
  lemma GenerationRepeats(g: nat, genBits: nat, n: nat)
    requires g < Pow2(genBits) && 0 < n <= Pow2(genBits)
    ensures GenAfter(g, genBits, n) == g <==> n == Pow2(genBits)
  {
    GenAfterWraps(g, genBits, n);
  }
}
