/**
 * Associativity and exchange of `+` on sequences and maps. Each law is stated
 * on its own, with nothing else in scope, so that a proof using it does not
 * have the solver compare sequences or maps element by element among all of
 * that proof's other facts.
 */
module Algebra {

  /** Concatenation is associative. */
  lemma ConcatAssoc<T>(a: seq<T>, b: seq<T>, c: seq<T>)
    ensures (a + b) + c == a + (b + c)
  {
  }

  /** Map union is associative. */
  lemma UnionAssoc<K, V>(a: map<K, V>, b: map<K, V>, c: map<K, V>)
    ensures (a + b) + c == a + (b + c)
  {
  }

  /** Two maps with disjoint keys can be added in either order. */
  lemma UnionSwap<K, V>(a: map<K, V>, b: map<K, V>, c: map<K, V>)
    requires a.Keys !! b.Keys
    ensures a + (b + c) == b + (a + c)
  {
    assert (a + (b + c)).Keys == (b + (a + c)).Keys;
    forall k | k in (a + (b + c)).Keys
      ensures (a + (b + c))[k] == (b + (a + c))[k]
    {
    }
  }
}
