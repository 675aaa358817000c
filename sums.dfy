/** Finite sums over a set of keys, used to state weight and length totals. */
module Sums {

  /** The sum of `f(k)` over all `k` in `keys`. */
  ghost function SumOver<K>(keys: set<K>, f: K -> int): int
    decreases keys
  {
    if keys == {} then 0 else var k :| k in keys; f(k) + SumOver(keys - {k}, f)
  }

  /** Any element may be split off first, whichever one the definition picks. */
  lemma {:induction false} SumRemove<K>(keys: set<K>, f: K -> int, x: K)
    requires x in keys
    ensures SumOver(keys, f) == f(x) + SumOver(keys - {x}, f)
    decreases keys
  {
    var y :| y in keys && SumOver(keys, f) == f(y) + SumOver(keys - {y}, f);
    if y != x {
      SumRemove(keys - {y}, f, x);
      SumRemove(keys - {x}, f, y);
      assert keys - {y} - {x} == keys - {x} - {y};
    }
  }

  /** Adding a new key adds its term. */
  lemma SumInsert<K>(keys: set<K>, f: K -> int, x: K)
    requires x !in keys
    ensures SumOver(keys + {x}, f) == f(x) + SumOver(keys, f)
  {
    SumRemove(keys + {x}, f, x);
    assert keys + {x} - {x} == keys;
  }

  /** Sums of functions that agree on the keys are equal. */
  lemma {:induction false} SumExt<K>(keys: set<K>, f: K -> int, g: K -> int)
    requires forall k :: k in keys ==> f(k) == g(k)
    ensures SumOver(keys, f) == SumOver(keys, g)
    decreases keys
  {
    if keys != {} {
      var x :| x in keys;
      SumRemove(keys, f, x);
      SumRemove(keys, g, x);
      SumExt(keys - {x}, f, g);
    }
  }

  /** The sum over a disjoint union is the sum of the two sums. */
  lemma {:induction false} SumUnion<K>(a: set<K>, b: set<K>, f: K -> int)
    requires a !! b
    ensures SumOver(a + b, f) == SumOver(a, f) + SumOver(b, f)
    decreases a
  {
    if a != {} {
      var x :| x in a;
      SumRemove(a, f, x);
      SumRemove(a + b, f, x);
      assert a + b - {x} == (a - {x}) + b;
      SumUnion(a - {x}, b, f);
    } else {
      assert a + b == b;
    }
  }

  /** The sum of a pointwise sum is the sum of the sums. */
  lemma {:induction false} SumAdd<K>(keys: set<K>, f: K -> int, g: K -> int, h: K -> int)
    requires forall k :: k in keys ==> h(k) == f(k) + g(k)
    ensures SumOver(keys, h) == SumOver(keys, f) + SumOver(keys, g)
    decreases keys
  {
    if keys != {} {
      var x :| x in keys;
      SumRemove(keys, f, x);
      SumRemove(keys, g, x);
      SumRemove(keys, h, x);
      SumAdd(keys - {x}, f, g, h);
    }
  }
}
