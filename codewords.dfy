/**
 * Codewords as the Python code writes them: strings of '0' (a step to the
 * left child) and '1' (a step to the right child). `Paths` is the reference
 * codebook of a tree: each leaf symbol mapped to its root-to-leaf path.
 */
module Codewords {
  import opened HuffmanTree

  predicate IsBits(s: string)
  {
    forall i :: 0 <= i < |s| ==> s[i] == '0' || s[i] == '1'
  }

  /** `p` is a prefix of `s`. */
  predicate IsPrefix(p: string, s: string)
  {
    |p| <= |s| && s[..|p|] == p
  }

  /** Every codeword of `m` with `p` put in front. */
  function Prefixed<S>(p: string, m: map<S, string>): (r: map<S, string>)
    ensures r.Keys == m.Keys
    ensures forall k :: k in r ==> r[k] == p + m[k]
  {
    map k | k in m :: p + m[k]
  }

  /**
   * The root-to-leaf path of every leaf symbol. Where a symbol sits at two
   * leaves the right one wins, as a later dictionary store overwrites an
   * earlier one; the trees the engine builds have distinct leaves.
   */
  function Paths<S>(t: Tree<S>): (m: map<S, string>)
    ensures m.Keys == Syms(t)
  {
    match t
    case Leaf(s, _) => map[s := ""]
    case Node(_, l, r) => Prefixed("0", Paths(l)) + Prefixed("1", Paths(r))
  }

  /** Every codeword is made of '0' and '1'. */
  lemma {:induction false} PathsAreBits<S>(t: Tree<S>)
    ensures forall k :: k in Paths(t) ==> IsBits(Paths(t)[k])
  {
    if t.Node? {
      PathsAreBits(t.left);
      PathsAreBits(t.right);
      forall k | k in Paths(t) ensures IsBits(Paths(t)[k]) {
        PathsOfNode(t, k);
      }
    }
  }

  /**
   * A leaf root gets the empty codeword; when the root is a node (two or
   * more leaves) every codeword is non-empty.
   */
  lemma CodewordLengths<S>(t: Tree<S>)
    ensures t.Leaf? ==> Paths(t) == map[t.sym := ""]
    ensures t.Node? ==> forall k :: k in Paths(t) ==> |Paths(t)[k]| >= 1
  {
    if t.Node? {
      forall k | k in Paths(t) ensures |Paths(t)[k]| >= 1 {
        PathsOfNode(t, k);
      }
    }
  }

  /** The path of a symbol in a node's left or right subtree. */
  lemma PathsOfNode<S>(t: Tree<S>, k: S)
    requires t.Node? && k in Syms(t)
    ensures k in Syms(t.right) ==> Paths(t)[k] == "1" + Paths(t.right)[k]
    ensures k !in Syms(t.right) ==> Paths(t)[k] == "0" + Paths(t.left)[k]
  {
  }

  lemma PrefixCons(c: char, x: string, y: string)
    ensures IsPrefix([c] + x, [c] + y) <==> IsPrefix(x, y)
  {
    if IsPrefix([c] + x, [c] + y) {
      assert ([c] + y)[..|x| + 1][1..] == y[..|x|];
    }
    if IsPrefix(x, y) {
      assert ([c] + y)[..|x| + 1] == [c] + y[..|x|];
    }
  }

  lemma PrefixHead(c: char, d: char, x: string, y: string)
    requires c != d
    ensures !IsPrefix([c] + x, [d] + y)
  {
    var u, v := [c] + x, [d] + y;
    if |u| <= |v| {
      assert v[..|u|][0] == d != c == u[0];
    }
  }

  /** No codeword of a tree's codebook is a prefix of another symbol's codeword. */
  lemma {:induction false} PrefixFree<S>(t: Tree<S>)
    ensures forall a, b :: a in Paths(t) && b in Paths(t) && a != b ==> !IsPrefix(Paths(t)[a], Paths(t)[b])
  {
    if t.Node? {
      PrefixFree(t.left);
      PrefixFree(t.right);
      forall a, b | a in Paths(t) && b in Paths(t) && a != b
        ensures !IsPrefix(Paths(t)[a], Paths(t)[b])
      {
        PathsOfNode(t, a);
        PathsOfNode(t, b);
        var ra, rb := a in Syms(t.right), b in Syms(t.right);
        if ra && rb {
          PrefixCons('1', Paths(t.right)[a], Paths(t.right)[b]);
        } else if !ra && !rb {
          PrefixCons('0', Paths(t.left)[a], Paths(t.left)[b]);
        } else if ra {
          PrefixHead('1', '0', Paths(t.right)[a], Paths(t.left)[b]);
        } else {
          PrefixHead('0', '1', Paths(t.left)[a], Paths(t.right)[b]);
        }
      }
    }
  }
}
