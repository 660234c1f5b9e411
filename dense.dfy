/**
 * Dense storage shared by both slot map variants: the contiguous arrays of
 * live values and of their owners, and the swap-remove that keeps them dense.
 */
module DenseArrays {

  /** Three-way comparison, the result of C++'s `<=>`. */
  datatype Ordering = Less | Equivalent | Greater

  function CompareNat(a: nat, b: nat): (r: Ordering)
    ensures r == Less <==> a < b
    ensures r == Equivalent <==> a == b
    ensures r == Greater <==> a > b
  {
    if a < b then Less else if a == b then Equivalent else Greater
  }

  /**
   * Swap-remove of position `i`: the last element is moved into `i` and the
   * last position is dropped (`swap(s[i], s.back()); s.pop_back()`).
   */
  function SwapRemove<X>(s: seq<X>, i: nat): (r: seq<X>)
    requires i < |s|
    ensures |r| == |s| - 1
    ensures forall p | 0 <= p < |r| && p != i :: r[p] == s[p]
    ensures i < |r| ==> r[i] == s[|s| - 1]
  {
    s[i := s[|s| - 1]][..|s| - 1]
  }

  /** Swap-remove takes exactly one copy of `s[i]` out of the elements. */
  lemma SwapRemoveMultiset<X>(s: seq<X>, i: nat)
    requires i < |s|
    ensures multiset(SwapRemove(s, i)) + multiset{s[i]} == multiset(s)
  {
    var n := |s|;
    var last := s[n - 1];
    if i == n - 1 {
      assert s == SwapRemove(s, i) + [s[i]];
    } else {
      var r := SwapRemove(s, i);
      assert s == s[..i] + [s[i]] + s[i + 1..n - 1] + [last];
      assert r == s[..i] + [last] + s[i + 1..n - 1];
      calc {
        multiset(r) + multiset{s[i]};
        multiset(s[..i]) + multiset{last} + multiset(s[i + 1..n - 1]) + multiset{s[i]};
        multiset(s[..i]) + multiset{s[i]} + multiset(s[i + 1..n - 1]) + multiset{last};
        multiset(s);
      }
    }
  }

  /** How many elements of `s` equal `x`. */
  function Count<X(==)>(s: seq<X>, x: X): (n: nat)
    ensures n <= |s|
  {
    if s == [] then 0 else (if s[0] == x then 1 else 0) + Count(s[1..], x)
  }

  /**
   * `std::is_permutation(a, b)`: both ranges have the same length and hold
   * every value equally often.
   */
  ghost predicate IsPermutation<X>(a: seq<X>, b: seq<X>) {
    && |a| == |b|
    && (forall i | 0 <= i < |a| :: Count(a, a[i]) == Count(b, a[i]))
    && (forall i | 0 <= i < |b| :: Count(a, b[i]) == Count(b, b[i]))
  }

  /** Counting agrees with the multiplicities of the sequence's multiset. */
  lemma {:induction false} CountIsMultiplicity<X>(s: seq<X>, x: X)
    ensures Count(s, x) == multiset(s)[x]
  {
    if s != [] {
      CountIsMultiplicity(s[1..], x);
      assert s == [s[0]] + s[1..];
    }
  }

  /** Two sequences are permutations of each other exactly when their multisets agree. */
  lemma PermutationIsMultisetEquality<X>(a: seq<X>, b: seq<X>)
    ensures IsPermutation(a, b) <==> multiset(a) == multiset(b)
  {
    forall x | x in a || x in b
      ensures Count(a, x) == multiset(a)[x] && Count(b, x) == multiset(b)[x]
    {
      CountIsMultiplicity(a, x);
      CountIsMultiplicity(b, x);
    }
    if multiset(a) == multiset(b) {
      assert |a| == |multiset(a)| == |multiset(b)| == |b|;
    }
    if IsPermutation(a, b) {
      forall x
        ensures multiset(a)[x] == multiset(b)[x]
      {
        if x in a {
          var i :| 0 <= i < |a| && a[i] == x;
        } else if x in b {
          var i :| 0 <= i < |b| && b[i] == x;
        }
      }
    }
  }

  /** `std::min` over three capacities. */
  function Min3(a: nat, b: nat, c: nat): (r: nat)
    ensures r <= a && r <= b && r <= c
    ensures r == a || r == b || r == c
  {
    if a <= b && a <= c then a else if b <= c then b else c
  }
}
