/**
 * The dictionary that `generate_huffman_codes` fills. The Python function
 * recurses over the tree and stores into one dict object passed down the
 * recursion; here that object is a `Codebook` whose `entries` the recursive
 * `Record` updates in place.
 */
module Codebooks {
  import opened HuffmanTree
  import opened Algebra
  import opened Codewords

  /** Prefixing twice is prefixing once with both prefixes. */
  lemma PrefixedTwice<S>(p: string, c: string, m: map<S, string>)
    ensures Prefixed(p, Prefixed(c, m)) == Prefixed(p + c, m)
  {
    forall k | k in m
      ensures Prefixed(p, Prefixed(c, m))[k] == Prefixed(p + c, m)[k]
    {
      assert p + (c + m[k]) == (p + c) + m[k];
    }
  }

  /** Prefixing the codebook of a node is prefixing its two halves one bit deeper. */
  lemma PrefixedNode<S>(p: string, t: Tree<S>)
    requires t.Node?
    ensures Prefixed(p, Paths(t)) == Prefixed(p + "0", Paths(t.left)) + Prefixed(p + "1", Paths(t.right))
  {
    var a, b := Paths(t.left), Paths(t.right);
    assert Paths(t) == Prefixed("0", a) + Prefixed("1", b);
    assert Prefixed(p, Prefixed("0", a) + Prefixed("1", b)) == Prefixed(p, Prefixed("0", a)) + Prefixed(p, Prefixed("1", b));
    PrefixedTwice(p, "0", a);
    PrefixedTwice(p, "1", b);
  }

  /** The empty prefix changes nothing. */
  lemma PrefixedEmpty<S>(m: map<S, string>)
    ensures Prefixed("", m) == m
  {
    forall k | k in m
      ensures Prefixed("", m)[k] == m[k]
    {
      assert "" + m[k] == m[k];
    }
  }

  class Codebook<S(==)> {
    /** The symbol-to-codeword entries stored so far. */
    var entries: map<S, string>

    /** A fresh, empty dict. */
    constructor ()
      ensures entries == map[]
    {
      entries := map[];
    }

    /**
     * `generate_huffman_codes(node, prefix, codebook)`: a leaf stores
     * `prefix` for its symbol; an internal node stores nothing and recurses
     * left with `prefix + "0"`, then right with `prefix + "1"`, so a later
     * store overwrites an earlier one for the same key. The recursion into
     * the `None` children of a leaf does nothing and is not spelled out.
     */
    method Record(node: Tree<S>, prefix: string)
      modifies this
      ensures entries == old(entries) + Prefixed(prefix, Paths(node))
      decreases node
    {
      if node.Leaf? {
        entries := entries[node.sym := prefix];
        assert prefix + "" == prefix;
        assert Prefixed(prefix, Paths(node)) == map[node.sym := prefix];
      } else {
        ghost var before := entries;
        Record(node.left, prefix + "0");
        Record(node.right, prefix + "1");
        PrefixedNode(prefix, node);
        UnionAssoc(before, Prefixed(prefix + "0", Paths(node.left)), Prefixed(prefix + "1", Paths(node.right)));
      }
    }
  }
}
