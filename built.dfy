/**
 * What the tree build, the codebook and the coder promise together about a
 * tree built from a sequence of symbols (a text or a flattened image): the
 * leaves are the distinct symbols, the codewords are prefix-free, the
 * encoding is as long as the weighted path length, and decoding the encoding
 * gives the sequence back as soon as it holds two distinct symbols.
 */
module BuiltTrees {
  import opened Wrappers
  import opened HuffmanTree
  import opened Frequency
  import opened TreeBuild
  import opened Codewords
  import opened Coding

  /**
   * What the build's contract promises about a tree built from `input`: the
   * leaves are distinct and carry the input's counts, and every internal node
   * weighs the sum of its children, the left one not heavier. Trees that
   * were not built greedily can have this shape too.
   */
  ghost predicate BuiltFrom<S>(root: Tree<S>, input: seq<S>)
  {
    Distinct(root) && Merged(root) && Table(root) == Frequencies(input)
  }

  /** `input` holds two different symbols. */
  ghost predicate TwoSymbols<S>(input: seq<S>)
  {
    exists i, j :: 0 <= i < |input| && 0 <= j < |input| && input[i] != input[j]
  }

  /** A queue of leaves is a queue of `Merged` trees. */
  lemma LeavesMerged<S>(q: seq<Tree<S>>)
    requires forall t :: t in q ==> t.Leaf?
    ensures AllMerged(q)
  {
  }

  lemma SymsNonEmpty<S>(t: Tree<S>)
    ensures Syms(t) != {}
  {
    if t.Node? {
      SymsNonEmpty(t.left);
    }
  }

  /** An element of a sequence sits at some index. */
  lemma IndexOf<S>(s: seq<S>, x: S) returns (i: nat)
    requires x in s
    ensures i < |s| && s[i] == x
  {
    i :| 0 <= i < |s| && s[i] == x;
  }

  /** The built tree is a single leaf exactly when the input holds only one distinct symbol. */
  lemma LeafRootIffOneSymbol<S>(root: Tree<S>, input: seq<S>)
    requires BuiltFrom(root, input)
    ensures root.Leaf? <==> !TwoSymbols(input)
  {
    assert Syms(root) == Frequencies(input).Keys;
    if root.Leaf? {
      forall i, j | 0 <= i < |input| && 0 <= j < |input|
        ensures input[i] == input[j]
      {
        assert input[i] in Syms(root) && input[j] in Syms(root);
      }
    } else {
      SymsNonEmpty(root.left);
      SymsNonEmpty(root.right);
      var a :| a in Syms(root.left);
      var b :| b in Syms(root.right);
      var i := IndexOf(input, a);
      var j := IndexOf(input, b);
      assert input[i] != input[j];
    }
  }

  /** Every symbol of the input is a leaf of the tree built from it. */
  lemma InputInTree<S>(root: Tree<S>, input: seq<S>)
    requires BuiltFrom(root, input)
    ensures forall i :: 0 <= i < |input| ==> input[i] in Syms(root)
  {
    assert Syms(root) == Frequencies(input).Keys;
  }

  /**
   * With two or more distinct symbols every codeword is a non-empty string
   * of '0' and '1', and none is a prefix of another.
   */
  lemma CodesOfTwoSymbols<S>(root: Tree<S>, input: seq<S>)
    requires BuiltFrom(root, input) && TwoSymbols(input)
    ensures forall x :: x in Paths(root) <==> x in input
    ensures forall x :: x in Paths(root) ==> |Paths(root)[x]| >= 1 && IsBits(Paths(root)[x])
    ensures forall a, b :: a in Paths(root) && b in Paths(root) && a != b ==> !IsPrefix(Paths(root)[a], Paths(root)[b])
  {
    assert Syms(root) == Frequencies(input).Keys;
    LeafRootIffOneSymbol(root, input);
    CodewordLengths(root);
    PathsAreBits(root);
    PrefixFree(root);
  }

  /** With one distinct symbol the tree is a leaf and its codeword is empty. */
  lemma CodesOfOneSymbol<S>(root: Tree<S>, input: seq<S>)
    requires BuiltFrom(root, input) && !TwoSymbols(input)
    ensures input != [] && root == Leaf(input[0], |input|)
    ensures Paths(root) == map[input[0] := ""]
  {
    LeafRootIffOneSymbol(root, input);
    SymsNonEmpty(root);
    assert Syms(root) == Frequencies(input).Keys;
    var i := IndexOf(input, root.sym);
    assert input[0] == input[i];
    WeightIsTotal(root);
    FrequenciesTotal(input);
    CodewordLengths(root);
  }

  /**
   * The encoding is as long as the tree's weighted path length, the sum
   * over the distinct symbols of count times codeword length.
   */
  lemma EncodedLength<S>(root: Tree<S>, input: seq<S>)
    requires BuiltFrom(root, input)
    ensures Encode(input, Paths(root)).Ok?
    ensures |Encode(input, Paths(root)).value| == Cost(Frequencies(input), Paths(root)) == PathCost(root)
  {
    InputInTree(root, input);
    EncodeLength(input, Paths(root));
    PathCostIdentity(root);
  }

  /** With two or more distinct symbols, decoding the encoding gives the input back. */
  lemma InputRoundTrip<S>(root: Tree<S>, input: seq<S>)
    requires BuiltFrom(root, input) && TwoSymbols(input)
    ensures Encode(input, Paths(root)).Ok?
    ensures Decode(root, Encode(input, Paths(root)).value) == Ok(input)
  {
    LeafRootIffOneSymbol(root, input);
    InputInTree(root, input);
    RoundTrip(root, input);
  }

  /**
   * With one distinct symbol the code is lossy: the input encodes to the
   * empty string, which decodes to the empty sequence.
   */
  lemma SingleSymbolCollapse<S>(root: Tree<S>, input: seq<S>)
    requires BuiltFrom(root, input) && !TwoSymbols(input)
    ensures Encode(input, Paths(root)) == Ok("")
    ensures Decode(root, "") == Ok([]) && Decode(root, "") != Ok(input)
  {
    CodesOfOneSymbol(root, input);
    EncodedLength(root, input);
  }
}
