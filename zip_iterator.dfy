/**
 * The lockstep iterator of the main slot map. It pairs an iterator into the
 * dense key array with one into the dense value array; each iterator is
 * modelled as its offset from the beginning of its own array, and every move
 * applies to both offsets. The source asserts that the two offsets agree
 * whenever two zip iterators are compared or subtracted: those asserts are
 * the requires clauses below.
 */
module ZipIterators {
  import opened DenseArrays

  datatype Zip = Zip(it1: int, it2: int)

  /** Both halves stand at the same offset, as for every iterator a slot map hands out. */
  predicate InSync(z: Zip) {
    z.it1 == z.it2
  }

  /** The iterator `begin() + p` of a slot map. */
  function At(p: int): (z: Zip)
    ensures InSync(z) && z.it1 == p
  {
    Zip(p, p)
  }

  /** `*it`: the (key, value) pair at the iterator. */
  function Deref<K, V>(z: Zip, keys: seq<K>, values: seq<V>): (r: (K, V))
    requires 0 <= z.it1 < |keys| && 0 <= z.it2 < |values|
    ensures r.0 == keys[z.it1] && r.1 == values[z.it2]
  {
    (keys[z.it1], values[z.it2])
  }

  /** `++it` */
  function Next(z: Zip): (r: Zip)
    ensures InSync(z) ==> InSync(r)
    ensures Prev(r) == z
  {
    Zip(z.it1 + 1, z.it2 + 1)
  }

  /** `--it` */
  function Prev(z: Zip): (r: Zip)
    ensures InSync(z) ==> InSync(r)
  {
    Zip(z.it1 - 1, z.it2 - 1)
  }

  /** `a == b`; the source asserts that both halves agree on the answer. */
  function Equal(a: Zip, b: Zip): (r: bool)
    requires (a.it1 == b.it1) == (a.it2 == b.it2)
    ensures r <==> a == b
  {
    a.it1 == b.it1
  }

  /** `a <=> b`; the source asserts that both halves agree on the order. */
  function Compare(a: Zip, b: Zip): (r: Ordering)
    requires a.it1 >= 0 && b.it1 >= 0 && a.it2 >= 0 && b.it2 >= 0
    requires CompareNat(a.it1, b.it1) == CompareNat(a.it2, b.it2)
    ensures r == Less <==> a.it1 < b.it1 && a.it2 < b.it2
    ensures r == Equivalent <==> a == b
  {
    CompareNat(a.it1, b.it1)
  }

  /** `a - b`; the source asserts that both halves are the same distance apart. */
  function Distance(a: Zip, b: Zip): (d: int)
    requires a.it1 - b.it1 == a.it2 - b.it2
    ensures Advance(b, d) == a
  {
    a.it1 - b.it1
  }

  /** `it + d` and `it += d` */
  function Advance(z: Zip, d: int): (r: Zip)
    ensures InSync(z) ==> InSync(r)
    ensures r.it1 - z.it1 == d && r.it2 - z.it2 == d
  {
    Zip(z.it1 + d, z.it2 + d)
  }

  /** `it - d` and `it -= d` */
  function Retreat(z: Zip, d: int): (r: Zip)
    ensures InSync(z) ==> InSync(r)
    ensures Advance(r, d) == z
  {
    Zip(z.it1 - d, z.it2 - d)
  }

  /** `it[d]`: the pair `d` positions further on, without moving the iterator. */
  function Subscript<K, V>(z: Zip, d: int, keys: seq<K>, values: seq<V>): (r: (K, V))
    requires 0 <= z.it1 + d < |keys| && 0 <= z.it2 + d < |values|
    ensures r == (keys[z.it1 + d], values[z.it2 + d])
  {
    Deref(Advance(z, d), keys, values)
  }

  /** Advancing is additive: by 0 stays put, by a then b is by a + b, and so is `++` after `+ a`. */
  lemma AdvanceIsAdditive(z: Zip, a: int, b: int)
    ensures Advance(z, 0) == z
    ensures Advance(Advance(z, a), b) == Advance(z, a + b)
    ensures Next(Advance(z, a)) == Advance(z, a + 1)
  {
  }

  /** Moving forward then back, or by d then by -d, returns to the start. */
  lemma MovesAreInverse(z: Zip, d: int)
    ensures Prev(Next(z)) == z && Next(Prev(z)) == z
    ensures Retreat(Advance(z, d), d) == z
    ensures Distance(Advance(z, d), z) == d
  {
  }
}
