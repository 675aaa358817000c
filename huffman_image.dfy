/**
 * The image front end on an already flattened sequence of pixel values:
 * `build_huffman_tree(freq_dict)` from a frequency table, with no guard for
 * an empty table; `generate_huffman_codes` with its `codebook={}` default,
 * a single dict created once and shared by every call that does not pass
 * its own; and the script's steps from frequency analysis to decoding.
 * `frequency_analysis` is `Frequencies`, `encode_image` is `Encode` and
 * `decode_image` is `DecodeBits` on the flat pixel sequence.
 */
module HuffmanImage {
  import opened Wrappers
  import opened HuffmanTree
  import opened Frequency
  import opened TreeBuild
  import opened Codewords
  import opened Coding
  import opened Codebooks
  import opened Decoder
  import opened BuiltTrees

  /**
   * `build_huffman_tree(freq_dict)`: one leaf per table entry, merged
   * pairwise into one tree whose leaves carry exactly the table and whose
   * root weighs the sum of all frequencies. As in the text front end, the
   * contract gives the `Merged` shape, not that each merge joined the two
   * lightest trees then queued. An empty table leaves the queue empty and
   * `priority_queue[0]` raises IndexError.
   */
  method BuildHuffmanTree<S(==)>(freqDict: map<S, nat>) returns (r: Result<Tree<S>, Fault<S>>)
    ensures r.Err? <==> freqDict == map[]
    ensures r.Err? ==> r.error == IndexError
    ensures r.Ok? ==> Distinct(r.value) && Merged(r.value) && Table(r.value) == freqDict
    ensures r.Ok? ==> r.value.w == Total(freqDict)
    ensures r.Ok? ==> Internal(r.value) == |freqDict| - 1
  {
    var priorityQueue := LeafQueue(freqDict);
    LeavesMerged(priorityQueue);
    if freqDict != map[] {
      var k :| k in freqDict;
      assert k in freqDict.Keys;
    }
    r := GreedyMerge(priorityQueue);
    if r.Ok? {
      WeightIsTotal(r.value);
    }
  }

  /**
   * The `generate_huffman_codes` of this file, with the dict its default
   * argument holds: Python evaluates `codebook={}` once, when the function
   * is defined, so every call that passes no codebook stores into that one
   * dict and returns it.
   */
  class CodeGenerator<S(==)> {
    /** The dict behind `codebook={}`. */
    const defaultCodebook: Codebook<S>

    /** Defining the function: the default dict starts empty. */
    constructor ()
      ensures fresh(defaultCodebook) && defaultCodebook.entries == map[]
    {
      defaultCodebook := new Codebook();
    }

    /**
     * `generate_huffman_codes(node)`: the paths of this tree stored into the
     * default dict on top of what earlier calls left there; the dict itself
     * is returned.
     */
    method GenerateHuffmanCodes(node: Tree<S>) returns (codebook: Codebook<S>)
      modifies defaultCodebook
      ensures codebook == defaultCodebook
      ensures codebook.entries == old(defaultCodebook.entries) + Paths(node)
    {
      defaultCodebook.Record(node, "");
      PrefixedEmpty(Paths(node));
      codebook := defaultCodebook;
    }
  }

  /**
   * Two calls without a codebook: the second returns the first tree's codes
   * as well, with the second tree's codes winning for shared symbols.
   */
  method SecondCallCodes<S(==)>(first: Tree<S>, second: Tree<S>) returns (codes: map<S, string>)
    ensures codes == Paths(first) + Paths(second)
    ensures codes.Keys == Syms(first) + Syms(second)
  {
    var generator := new CodeGenerator();
    var earlier := generator.GenerateHuffmanCodes(first);
    assert earlier.entries == Paths(first);
    var later := generator.GenerateHuffmanCodes(second);
    codes := later.entries;
  }

  /**
   * The consequence: a pixel value that only the first tree has gets an
   * encoding from the stale entry instead of the KeyError the second
   * tree's own codebook raises.
   */
  lemma StaleCodeHidesKeyError()
    ensures var first := Node(2, Leaf(0, 1), Leaf(1, 1));
      var second := Node(2, Leaf(2, 1), Leaf(3, 1));
      && Encode([0], Paths(second)) == Err(KeyError(0))
      && Encode([0], Paths(first) + Paths(second)) == Ok("0")
  {
    var first := Node(2, Leaf(0, 1), Leaf(1, 1));
    var second := Node(2, Leaf(2, 1), Leaf(3, 1));
    var stale := Paths(first) + Paths(second);
    assert Paths(first)[0] == "0" + "";
    assert 0 !in Paths(second);
    assert stale[0] == "0";
    assert [0][1..] == [];
    assert Encode([0], stale) == Ok(stale[0] + "");
  }

  /**
   * The script's steps on a flat pixel sequence: frequency analysis, tree
   * build, code generation into the fresh default dict, encoding, decoding.
   * An empty image stops at the tree build with IndexError.
   */
  method RoundTripImage<S(==)>(pixels: seq<S>) returns (encoded: Result<string, Fault<S>>, decoded: Result<seq<S>, Fault<S>>)
    ensures pixels == [] ==> encoded == Err(IndexError) && decoded == Err(IndexError)
    ensures pixels != [] ==> encoded.Ok? && IsBits(encoded.value)
    ensures TwoSymbols(pixels) ==> decoded == Ok(pixels)
    ensures pixels != [] && !TwoSymbols(pixels) ==> encoded == Ok("") && decoded == Ok([])
  {
    var freqDict := Frequencies(pixels);
    var tree := BuildHuffmanTree(freqDict);
    FrequenciesEmpty(pixels);
    if tree.Err? {
      return Err(IndexError), Err(IndexError);
    }
    var huffmanTree := tree.value;
    assert BuiltFrom(huffmanTree, pixels);
    ImageFacts(huffmanTree, pixels);
    var generator := new CodeGenerator();
    var huffmanCodes := generator.GenerateHuffmanCodes(huffmanTree);
    assert huffmanCodes.entries == Paths(huffmanTree);
    encoded := Encode(pixels, huffmanCodes.entries);
    decoded := DecodeBits(huffmanTree, encoded.value);
  }

  /** What the round trip promises for any tree built from the pixels. */
  lemma ImageFacts<S>(tree: Tree<S>, pixels: seq<S>)
    requires BuiltFrom(tree, pixels)
    ensures pixels != []
    ensures Encode(pixels, Paths(tree)).Ok?
    ensures var encoded := Encode(pixels, Paths(tree)).value;
      && IsBits(encoded)
      && (TwoSymbols(pixels) ==> Decode(tree, encoded) == Ok(pixels))
      && (!TwoSymbols(pixels) ==> encoded == "" && Decode(tree, encoded) == Ok([]))
  {
    SymsNonEmpty(tree);
    EncodedLength(tree, pixels);
    PathsAreBits(tree);
    if TwoSymbols(pixels) {
      InputRoundTrip(tree, pixels);
    } else {
      SingleSymbolCollapse(tree, pixels);
    }
  }
}
