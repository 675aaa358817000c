/**
 * The text front end: `build_huffman_tree(text)`, `generate_huffman_codes`,
 * `huffman_encode` and `huffman_decode`, and the round trip the
 * demonstration runs on "abracadabra". Symbols are generic; Python's
 * characters are one instance.
 */
module HuffmanText {
  import opened Wrappers
  import opened HuffmanTree
  import opened Frequency
  import opened TreeBuild
  import opened Codewords
  import opened Coding
  import opened Codebooks
  import opened Decoder
  import opened BuiltTrees

  /**
   * `build_huffman_tree(text)`: `None` for the empty text; otherwise one leaf
   * per distinct symbol carrying its count, merged pairwise into one tree
   * whose root weight is the length of the text. Every pop takes a lightest
   * tree (`HeapPop`), but the contract keeps of that only the `Merged` shape:
   * it does not say that each merge joined the two lightest trees then queued.
   */
  method BuildHuffmanTree<S(==)>(text: seq<S>) returns (root: Option<Tree<S>>)
    ensures root.None? <==> text == []
    ensures root.Some? ==> BuiltFrom(root.value, text)
    ensures root.Some? ==> forall x :: x in Syms(root.value) <==> x in text
    ensures root.Some? ==> forall x :: x in Syms(root.value) ==> Table(root.value)[x] == multiset(text)[x]
    ensures root.Some? ==> root.value.w == |text|
    ensures root.Some? ==> Internal(root.value) == |Frequencies(text)| - 1
  {
    if text == [] {
      return None;
    }
    var frequency := Frequencies(text);
    var heap := LeafQueue(frequency);
    assert text[0] in frequency.Keys;
    LeavesMerged(heap);
    var r := GreedyMerge(heap);
    WeightIsTotal(r.value);
    FrequenciesTotal(text);
    root := Some(r.value);
  }

  /**
   * `generate_huffman_codes(root)`: a fresh dict on every call, filled with
   * the root-to-leaf path of every leaf; nothing for `None`.
   */
  method GenerateHuffmanCodes<S(==)>(node: Option<Tree<S>>) returns (codebook: map<S, string>)
    ensures node.None? ==> codebook == map[]
    ensures node.Some? ==> codebook == Paths(node.value)
  {
    var book := new Codebook();
    if node.Some? {
      book.Record(node.value, "");
      PrefixedEmpty(Paths(node.value));
    }
    codebook := book.entries;
  }

  /**
   * `huffman_decode(encoded_text, root)`. A missing tree (the empty text's)
   * makes the first bit dereference `None`, which raises AttributeError.
   */
  method HuffmanDecode<S>(encodedText: string, root: Option<Tree<S>>) returns (r: Result<seq<S>, Fault<S>>)
    ensures root.None? && encodedText == [] ==> r == Ok([])
    ensures root.None? && encodedText != [] ==> r == Err(AttributeError)
    ensures root.Some? ==> r == Decode(root.value, encodedText)
  {
    if root.None? {
      r := if encodedText == [] then Ok([]) else Err(AttributeError);
    } else {
      r := DecodeBits(root.value, encodedText);
    }
  }

  // ---------------------------------------------------------------------------
  // The round trip, and the same round trip with a one-bit code for a leaf root.

  /** The codebook `generate_huffman_codes` derives from the optional tree. */
  function CodesOf<S>(root: Option<Tree<S>>): (m: map<S, string>)
    ensures root.None? ==> m == map[]
    ensures root.Some? ==> m.Keys == Syms(root.value)
    ensures forall x :: x in m ==> IsBits(m[x])
    ensures forall a, b :: a in m && b in m && a != b ==> !IsPrefix(m[a], m[b])
  {
    if root.None? then map[]
    else
      PathsAreBits(root.value);
      PrefixFree(root.value);
      Paths(root.value)
  }

  /** What the round trip promises, for any tree `build_huffman_tree` may return. */
  lemma RoundTripFacts<S>(root: Option<Tree<S>>, text: seq<S>)
    requires root.None? <==> text == []
    requires root.Some? ==> BuiltFrom(root.value, text)
    ensures Encode(text, CodesOf(root)).Ok?
    ensures var encoded := Encode(text, CodesOf(root)).value;
      && IsBits(encoded)
      && (root.Some? ==> |encoded| == PathCost(root.value))
      && (TwoSymbols(text) ==> root.Some? && Decode(root.value, encoded) == Ok(text))
      && (!TwoSymbols(text) ==> encoded == "" && (root.Some? ==> Decode(root.value, encoded) == Ok([])))
  {
    if root.Some? {
      EncodedLength(root.value, text);
      PathsAreBits(root.value);
      if TwoSymbols(text) {
        InputRoundTrip(root.value, text);
      } else {
        SingleSymbolCollapse(root.value, text);
      }
    }
  }

  /**
   * The demonstration's steps on any text: build the tree, derive the
   * codebook, encode, decode.
   */
  method RoundTripText<S(==)>(text: seq<S>) returns (root: Option<Tree<S>>, encoded: string, decoded: Result<seq<S>, Fault<S>>)
    ensures root.None? <==> text == []
    ensures IsBits(encoded)
    ensures root.Some? ==> |encoded| == PathCost(root.value)
    ensures TwoSymbols(text) ==> decoded == Ok(text)
    ensures !TwoSymbols(text) ==> encoded == "" && decoded == Ok([])
  {
    root := BuildHuffmanTree(text);
    var codebook := GenerateHuffmanCodes(root);
    RoundTripFacts(root, text);
    assert codebook == CodesOf(root);
    var e := Encode(text, codebook);
    encoded := e.value;
    decoded := HuffmanDecode(encoded, root);
  }

  /** The demonstration: "abracadabra" survives the round trip. */
  method Abracadabra() returns (encoded: string, decoded: Result<string, Fault<char>>)
    ensures IsBits(encoded)
    ensures decoded == Ok("abracadabra")
  {
    var text := "abracadabra";
    assert text[0] != text[1];
    var root;
    root, encoded, decoded := RoundTripText(text);
  }

  /** "aaaa" holds a single distinct symbol. */
  lemma AaaaOneSymbol()
    ensures !TwoSymbols("aaaa")
  {
    var text := "aaaa";
    forall i, j | 0 <= i < |text| && 0 <= j < |text|
      ensures text[i] == text[j]
    {
      assert i in {0, 1, 2, 3} && j in {0, 1, 2, 3};
    }
  }

  /** The same steps on "aaaa": it encodes to the empty string and comes back empty. */
  method AaaaIsLost() returns (encoded: string, decoded: Result<string, Fault<char>>)
    ensures encoded == "" && decoded == Ok([])
  {
    AaaaOneSymbol();
    var root;
    root, encoded, decoded := RoundTripText("aaaa");
  }

  /** A leaf root gets the one-bit codeword "0"; otherwise the paths as before. */
  function OneBitCodes<S>(root: Tree<S>): (m: map<S, string>)
    ensures m.Keys == Syms(root)
  {
    if root.Leaf? then map[root.sym := "0"] else Paths(root)
  }

  /** With a leaf root every bit stands for one occurrence of its symbol; otherwise the walk as before. */
  function OneBitDecode<S>(root: Tree<S>, bits: string): (r: Result<seq<S>, Fault<S>>)
    ensures r.Ok?
  {
    if root.Leaf? then Ok(seq(|bits|, _ => root.sym)) else Decode(root, bits)
  }

  /** The one-bit code keeps every codeword non-empty, binary and prefix-free. */
  lemma OneBitCodesPrefixFree<S>(root: Tree<S>)
    ensures forall x :: x in OneBitCodes(root) ==> |OneBitCodes(root)[x]| >= 1 && IsBits(OneBitCodes(root)[x])
    ensures forall a, b :: a in OneBitCodes(root) && b in OneBitCodes(root) && a != b ==>
      !IsPrefix(OneBitCodes(root)[a], OneBitCodes(root)[b])
  {
    if root.Node? {
      CodewordLengths(root);
      PathsAreBits(root);
      PrefixFree(root);
    }
  }

  /** Codewords of length one make the encoding exactly as long as the text. */
  lemma {:induction false} UnitCodeLength<S>(text: seq<S>, book: map<S, string>)
    requires forall i :: 0 <= i < |text| ==> text[i] in book && |book[text[i]]| == 1
    ensures Encode(text, book).Ok? && |Encode(text, book).value| == |text|
  {
    if text != [] {
      assert forall i :: 1 <= i < |text| ==> text[i] == text[1..][i - 1];
      UnitCodeLength(text[1..], book);
    }
  }

  /** With the one-bit code, every text over the tree's symbols survives the round trip. */
  lemma OneBitRoundTrip<S>(root: Tree<S>, text: seq<S>)
    requires forall i :: 0 <= i < |text| ==> text[i] in Syms(root)
    ensures Encode(text, OneBitCodes(root)).Ok?
    ensures OneBitDecode(root, Encode(text, OneBitCodes(root)).value) == Ok(text)
  {
    if root.Leaf? {
      UnitCodeLength(text, OneBitCodes(root));
      var bits := Encode(text, OneBitCodes(root)).value;
      assert seq(|bits|, _ => root.sym) == text;
    } else {
      RoundTrip(root, text);
    }
  }

  /** The round trip with the one-bit code: lossless for every text, "aaaa" included. */
  method RoundTripOneBit<S(==)>(text: seq<S>) returns (encoded: string, decoded: Result<seq<S>, Fault<S>>)
    ensures IsBits(encoded)
    ensures decoded == Ok(text)
  {
    var root := BuildHuffmanTree(text);
    if root.None? {
      return "", Ok([]);
    }
    var codebook := OneBitCodes(root.value);
    InputInTree(root.value, text);
    OneBitRoundTrip(root.value, text);
    OneBitCodesPrefixFree(root.value);
    var e := Encode(text, codebook);
    encoded := e.value;
    decoded := OneBitDecode(root.value, encoded);
  }
}
