# Huffman coding, modelled and proved in Dafny

This project models the Huffman coding engine of `huffman_code/`. The engine
has two front ends that share one algorithm:

- `huffman.py` codes text. `build_huffman_tree(text)`, `generate_huffman_codes`,
  `huffman_encode` and `huffman_decode` are run on "abracadabra".
- `huffman_encode_decode.py` codes the flattened pixels of a grey-level image.
  `frequency_analysis`, `build_huffman_tree(freq_dict)`,
  `generate_huffman_codes`, `encode_image` and `decode_image` are chained by a
  script.

Both front ends do the same four things:

1. Count the occurrences of each symbol.
2. Put one leaf per distinct symbol into a min-heap ordered by weight. While
   more than one tree is left, pop two and push their merge. The first tree
   popped becomes the left child.
3. Walk the tree and give every leaf its path as its codeword, `0` for left
   and `1` for right.
4. Encode by concatenating codewords. Decode by walking a cursor from the
   root: `'0'` goes left, any other character goes right, and at a leaf the
   symbol is emitted and the cursor goes back to the root.

Symbols are generic (`S`): characters in the text front end, pixel values in
the image front end.

## Module layout

| Module | File | Contents |
|---|---|---|
| `Wrappers` | `wrappers.dfy` | `Option`, `Result`, and the Python exceptions the code can raise (`KeyError`, `IndexError`, `AttributeError`) |
| `Sums` | `sums.dfy` | Finite sums over a set of keys |
| `Algebra` | `algebra.dfy` | Associativity and exchange of `+` on sequences and maps |
| `HuffmanTree` | `trees.dfy` | The `Tree` datatype, its leaf table and weight invariants, and forests (the heap's contents) |
| `Frequency` | `frequency.dfy` | `Counter` over a flat sequence |
| `TreeBuild` | `build.dfy` | The shared greedy build: leaf queue, heap pop, merge loop |
| `Codewords` | `codewords.dfy` | The reference codebook `Paths` (root-to-leaf paths) and its prefix-freeness |
| `Codebooks` | `codebook.dfy` | The dict that `generate_huffman_codes` fills, as a class with a recursive `Record` |
| `Coding` | `coding.dfy` | `Encode`, the decoding walk `Decode`, the encoded length, and the round trip |
| `Decoder` | `decoder.dfy` | The decoding `for` loop as a method, proved equal to `Decode` |
| `BuiltTrees` | `built.dfy` | What holds for a tree built from a given sequence |
| `HuffmanText` | `huffman_text.dfy` | The text front end and its demonstration |
| `HuffmanImage` | `huffman_image.dfy` | The image front end, including the shared default dict |

## How parts of the source are represented

- **Tree.** `HuffmanNode` becomes `Tree<S> = Leaf(sym, w) | Node(w, left, right)`.
  The test `node.char is not None` (or `node.value is not None`) becomes `Leaf?`.
- **Heap.** The heap is a sequence of trees. `TreeBuild.HeapPop` removes some
  tree of least weight. `heapq` compares nodes by `freq` alone, so which of
  several equal-weight trees comes out is left open, and nothing proved depends
  on that choice. A push adds the merged tree to the sequence.
- **Codewords and bit strings.** These are `string`s, as in the source. The
  decoder reads `'0'` as left and every other character as right
  (`Coding.Step`). `Coding.DecodeNormalize` shows that only the `'0'`/not-`'0'`
  distinction matters.
- **Errors.** Python exceptions become `Err` values:
  - a symbol missing from the codebook raises `KeyError`;
  - an empty frequency table in the image build raises `IndexError` at
    `priority_queue[0]`;
  - a leaf root given a non-empty bit string raises `AttributeError`, because
    the cursor moves to a `None` child.
- **The shared default dict.** In the image file, `codebook={}` is a single dict
  created when the function is defined. It is modelled as the
  `defaultCodebook` field of `HuffmanImage.CodeGenerator`. Every call that
  passes no codebook stores into it.

## Where a lossless Huffman engine and this code differ

A lossless Huffman engine would reject a bit string that stops in the middle
of a codeword, give a lone symbol a one-bit codeword, and report empty input
as invalid. The code does none of these, and in each case the model follows
the code:

- **Trailing bits.** The code drops a trailing partial codeword without an
  error (`Coding.TrailingBitsDropped`).
- **A single distinct symbol.** The code gives it the empty codeword, so its
  text encodes to `""`. The model proves the consequence and adds the one-bit
  variant (see Findings).
- **Empty input.** The text front end returns `None`. The image front end
  raises `IndexError`.

## Model

| member | source | states |
|---|---|---|
| `HuffmanTree.Table` | huffman_code/huffman.py:22 | The leaf table of a tree has exactly the tree's leaf symbols as keys |
| `HuffmanTree.MergedWeight` | huffman_code/huffman.py:29 | In a tree where every node weighs the sum of its children, the root weight is the sum of the leaf weights |
| `HuffmanTree.LeafTotalIsTotal` | huffman_code/huffman.py:22 | With distinct leaves, the leaf weights add up to the total of the leaf table |
| `HuffmanTree.WeightIsTotal` | huffman_code/huffman_encode_decode.py:26-34 | The root of a merged tree with distinct leaves weighs the sum of all the frequencies in its table |
| `HuffmanTree.RemoveAt` | huffman_code/huffman.py:27-28 | Taking one tree out of the heap leaves a forest with distinct leaves. The removed tree accounts exactly for the symbols, table entries and internal nodes the rest lost |
| `Frequency.Frequencies` | huffman_code/huffman.py:19 | `Counter`: every symbol of the sequence is a key, every key occurs in the sequence, and each key maps to its number of occurrences |
| `Frequency.FrequenciesEmpty` | huffman_code/huffman_encode_decode.py:17-20 | Only the empty sequence has an empty table |
| `Frequency.FrequenciesTotal` | huffman_code/huffman_encode_decode.py:17-20 | The counts add up to the length of the sequence |
| `TreeBuild.HeapPop` | huffman_code/huffman.py:27-28 | `heappop` returns an element of least weight and leaves exactly the other elements |
| `TreeBuild.LeafQueue` | huffman_code/huffman_encode_decode.py:23 | The comprehension creates one leaf per table entry, and the leaves together carry exactly the table |
| `TreeBuild.Join` | huffman_code/huffman.py:29 | The merged node weighs the sum of its two children and holds exactly their symbols, their leaf tables and one more internal node than both together. It has distinct leaves exactly when both children do and share no symbol, and has the merged shape exactly when both children do and the first one popped is not heavier |
| `TreeBuild.MergeTables` | huffman_code/huffman_encode_decode.py:27-32 | Popping two trees and pushing their merge keeps the leaves distinct and the symbol table unchanged, and adds exactly one internal node |
| `TreeBuild.MergeShapes` | huffman_code/huffman.py:27-30 | When the first tree popped is a lightest one, the merged node weighs the sum of its children and its left child is not heavier than its right child |
| `TreeBuild.MergeStep` | huffman_code/huffman.py:26-30 | One iteration keeps the loop invariant. The heap shrinks by one and the merge count grows by one |
| `TreeBuild.MergeDone` | huffman_code/huffman.py:32 | When one tree is left, it carries the whole table and has one internal node per merge |
| `TreeBuild.GreedyMerge` | huffman_code/huffman_encode_decode.py:26-34 | The loop ends with one tree exactly when the queue was non-empty, and otherwise raises IndexError. The tree has distinct leaves, carries the queue's table, has one more internal node per merge, and keeps the merged-weight shape |
| `Codewords.Paths` | huffman_code/huffman.py:38-41 | The codebook derived from a tree has exactly the tree's leaf symbols as keys |
| `Codewords.PathsAreBits` | huffman_code/huffman.py:40-41 | Every codeword consists of `'0'` and `'1'` only |
| `Codewords.CodewordLengths` | huffman_code/huffman.py:32 | A leaf root gets the empty codeword. Under an internal root every codeword has at least one bit |
| `Codewords.PathsOfNode` | huffman_code/huffman.py:40-41 | Below an internal node, a right-subtree symbol's codeword is `1` followed by its codeword there, and any other symbol's is `0` followed by its left-subtree codeword |
| `Codewords.PrefixFree` | huffman_code/huffman.py:38-41 | No codeword is a prefix of the codeword of a different symbol |
| `Codebooks.PrefixedNode` | huffman_code/huffman_encode_decode.py:40-41 | Recording a node under a prefix is recording its left child under the prefix plus `0` and its right child under the prefix plus `1` |
| `Codebooks.Codebook.constructor` | huffman_code/huffman.py:35-36 | A new dict is empty |
| `Codebooks.Codebook.Record` | huffman_code/huffman.py:37-41 | After the recursive walk, the dict is its old entries overwritten by the prefixed path of every leaf. Internal nodes get no entry, and a later store wins |
| `Coding.Encode` | huffman_code/huffman.py:44-45 | The encoding succeeds exactly when every symbol has a codeword. Otherwise the first symbol without one raises KeyError. A codebook of bit strings gives a bit string |
| `Coding.EncodeLength` | huffman_code/huffman_encode_decode.py:44-47 | The encoding's length is the sum over the distinct symbols of count times codeword length |
| `Coding.PathCostIdentity` | huffman_code/huffman.py:38-41 | A tree's own codebook, weighted by its leaf table, costs exactly the tree's weighted path length |
| `Coding.Step` | huffman_code/huffman.py:51 | Bit `'0'` moves the cursor to the left child and any other character to the right child, so the cursor only ever moves to a subtree with a subset of the symbols |
| `Coding.Walk` | huffman_code/huffman.py:50-54 | The cursor loop emits at most one symbol per bit read, and every symbol it emits is a leaf under the root or under the starting cursor, so walking from the root emits only leaves of the tree. Its round trip with `Encode` is `Coding.WalkEncode` |
| `Coding.Decode` | huffman_code/huffman.py:47-55 | Decoding fails exactly when the root is a leaf and bits are given, and the failure is AttributeError. A leaf root with no bits decodes to nothing |
| `Coding.WalkPath` | huffman_code/huffman.py:50-54 | Reading a symbol's codeword from the root emits that symbol and returns the cursor to the root |
| `Coding.PathsDecode` | huffman_code/huffman_encode_decode.py:52-60 | From the root, every codeword of the tree's own codebook decodes to its symbol, whatever bits follow |
| `Coding.WalkEncode` | huffman_code/huffman_encode_decode.py:44-60 | Walking an encoding followed by more bits emits the encoded sequence, then whatever the rest emits |
| `Coding.RoundTrip` | huffman_code/huffman.py:44-55 | For an internal root and a sequence of its leaf symbols, encoding succeeds and decoding the encoding gives the sequence back |
| `Coding.WalkPartial` | huffman_code/huffman.py:50-54 | A proper prefix of a codeword emits nothing |
| `Coding.TrailingBitsDropped` | huffman_code/huffman.py:50-55 | After a complete encoding, a trailing proper prefix of a codeword is dropped without an error |
| `Coding.Normalize` | huffman_code/huffman.py:51 | The normalized string keeps every `'0'`, turns every other character into `'1'`, and keeps the length |
| `Coding.DecodeNormalize` | huffman_code/huffman_encode_decode.py:53-56 | Decoding depends only on which characters are `'0'`: any other character is a right step |
| `Decoder.DecodeBits` | huffman_code/huffman_encode_decode.py:49-60 | The cursor loop computes exactly `Decode`: one symbol per completed root-to-leaf walk, in order. A leaf root given bits raises AttributeError |
| `BuiltTrees.LeafRootIffOneSymbol` | huffman_code/huffman.py:26-32 | The built tree is a single leaf exactly when the input holds only one distinct symbol |
| `BuiltTrees.InputInTree` | huffman_code/huffman.py:19-22 | Every symbol of the input is a leaf of the tree built from it |
| `BuiltTrees.CodesOfTwoSymbols` | huffman_code/huffman.py:38-41 | With two or more distinct symbols, the codebook's keys are the symbols of the input, and every codeword is a non-empty bit string. No codeword is a prefix of another |
| `BuiltTrees.CodesOfOneSymbol` | huffman_code/huffman.py:32 | With one distinct symbol, the tree is the leaf of that symbol weighing the input length, and its codeword is `""` |
| `BuiltTrees.EncodedLength` | huffman_code/huffman.py:44-45 | Encoding the input with its own tree's codebook succeeds, and its length is both count times codeword length summed over the symbols and the tree's weighted path length |
| `BuiltTrees.InputRoundTrip` | huffman_code/huffman.py:59-63 | With two or more distinct symbols, decoding the encoding gives the input back |
| `BuiltTrees.SingleSymbolCollapse` | huffman_code/huffman.py:38-39 | With one distinct symbol, the input encodes to `""` and decodes to the empty sequence, which is not the input |
| `HuffmanText.BuildHuffmanTree` | huffman_code/huffman.py:14-32 | Returns `None` exactly for the empty text. Otherwise the leaves are exactly the distinct characters, each carrying its count, and the root weighs `len(text)`. Each internal node weighs the sum of its children, with the left child not heavier, and there are one fewer internal nodes than distinct characters |
| `HuffmanText.GenerateHuffmanCodes` | huffman_code/huffman.py:34-42 | A fresh dict per call, holding exactly the root-to-leaf paths of the tree's leaves. `None` gives the empty dict |
| `HuffmanText.HuffmanDecode` | huffman_code/huffman.py:47-55 | Decoding with the tree is `Decode`. Without a tree, no bits decode to nothing and any bit raises AttributeError |
| `HuffmanText.CodesOf` | huffman_code/huffman.py:34-42 | The codebook derived from an optional tree: empty for `None`, and otherwise keyed by exactly the tree's leaf symbols, with bit-string codewords none of which is a prefix of another |
| `HuffmanText.RoundTripFacts` | huffman_code/huffman.py:59-63 | For any tree the build may return: the encoding succeeds and is a bit string as long as the weighted path length. It decodes to the text when two distinct characters occur, and otherwise it is `""` and decodes to nothing |
| `HuffmanText.RoundTripText` | huffman_code/huffman.py:59-63 | The demonstration's steps on any text: a bit string as long as the weighted path length. Decoding gives the text back when it has two distinct characters, and otherwise the encoding is `""` and decodes to nothing |
| `HuffmanText.Abracadabra` | huffman_code/huffman.py:59-63 | "abracadabra" encodes to a bit string and decodes back to "abracadabra" |
| `HuffmanText.AaaaIsLost` | huffman_code/huffman.py:38-39 | The same steps on "aaaa" encode it to `""` and decode it to the empty string |
| `HuffmanText.OneBitCodes` | huffman_code/huffman.py:38-39 | Corrected codebook: its keys are the tree's leaf symbols, and a leaf root gets `"0"` |
| `HuffmanText.OneBitDecode` | huffman_code/huffman.py:47-55 | Corrected decoder: never fails. On a leaf root it emits one symbol per bit |
| `HuffmanText.OneBitCodesPrefixFree` | huffman_code/huffman.py:38-41 | The corrected codebook's codewords are non-empty bit strings, and none is a prefix of another |
| `HuffmanText.UnitCodeLength` | huffman_code/huffman.py:44-45 | With one-character codewords, the encoding is exactly as long as the text |
| `HuffmanText.OneBitRoundTrip` | huffman_code/huffman.py:44-55 | With the corrected code, every sequence over the tree's symbols survives the round trip, a single-symbol one included |
| `HuffmanText.RoundTripOneBit` | huffman_code/huffman.py:59-63 | The corrected steps on any text give a bit string and decode back to the text |
| `HuffmanImage.BuildHuffmanTree` | huffman_code/huffman_encode_decode.py:22-34 | Raises IndexError exactly for an empty table. Otherwise the tree carries exactly the table with distinct leaves, and each merged node weighs the sum of its children with the left not heavier. The root weighs the sum of all frequencies, and there are one fewer merges than entries |
| `HuffmanImage.CodeGenerator.constructor` | huffman_code/huffman_encode_decode.py:36 | The default dict is created once, empty |
| `HuffmanImage.CodeGenerator.GenerateHuffmanCodes` | huffman_code/huffman_encode_decode.py:36-42 | A call without a codebook stores the tree's paths into the shared default dict, on top of what earlier calls left there, and returns that same dict |
| `HuffmanImage.SecondCallCodes` | huffman_code/huffman_encode_decode.py:36 | A second call returns the first tree's codes as well, with the second tree's codes winning for shared symbols |
| `HuffmanImage.StaleCodeHidesKeyError` | huffman_code/huffman_encode_decode.py:44-47 | A pixel only the first tree has raises KeyError with the second tree's own codes, but is encoded from the stale entry of the shared dict |
| `HuffmanImage.ImageFacts` | huffman_code/huffman_encode_decode.py:70-82 | For any tree built from the pixels: the encoding succeeds and is a bit string. It decodes to the pixels when two distinct values occur. With one value, the encoding is `""` and the flat decoded list is empty, the list that `reshape` then rejects |
| `HuffmanImage.RoundTripImage` | huffman_code/huffman_encode_decode.py:70-82 | The script's steps on a flat pixel sequence, up to the flat decoded list. An empty image raises IndexError at the tree build. Otherwise the encoding is a bit string that decodes back to the pixels whenever two distinct values occur. With one value, the encoding is `""` and the flat decoded list is empty |

## Findings

| source | as written | input that shows it | evidently intended | confidence | as-written member | corrected member |
|---|---|---|---|---|---|---|
| huffman_code/huffman.py:38-39 | A single distinct symbol makes the root a leaf, and the leaf gets the empty codeword. Every such text encodes to `""`, which decodes to the empty string. The image script, with the same code at huffman_code/huffman_encode_decode.py:38-39, also encodes a single-valued image to `""`, but then fails: its `reshape(shape)` at huffman_code/huffman_encode_decode.py:62 raises ValueError, because the decoded list is empty and the width×height from `image.size` is at least 1 | `"aaaa"` encodes to `""` and decodes to `""` | A one-bit codeword for the lone symbol, so the round trip is lossless for every text | high; not executed | `HuffmanText.AaaaIsLost` | `HuffmanText.RoundTripOneBit` |
| huffman_code/huffman_encode_decode.py:36 | `codebook={}` is one dict shared by every call without a codebook. A second tree's codebook keeps the first tree's entries | Trees over pixel values {0, 1}, then {2, 3}: encoding pixel 0 with the second codebook gives `"0"` instead of KeyError | A fresh dict per call, as `huffman.py` does | medium (the script calls it once); not executed | `HuffmanImage.SecondCallCodes` | `HuffmanText.GenerateHuffmanCodes` |

## Left out

- The image I/O is left out: loading with PIL, `convert('L')`, saving and
  showing (huffman_code/huffman_encode_decode.py:3, 65-67, 83-87). The input is
  an already flattened pixel sequence.
- numpy's `flatten`, `reshape(shape)` and `astype` are left out
  (huffman_code/huffman_encode_decode.py:19, 45, 62, 83). These are library
  calls. The decoded pixels are returned flat, so the width/height order of
  `image.size` does not arise.
- HuffmanImage.RoundTripImage: returns the decoded pixels flat. In the script,
  `reshape(shape)` at huffman_code/huffman_encode_decode.py:62 raises
  ValueError whenever the decoded count differs from width×height. That
  happens for a single-valued image, which decodes to nothing, so the script
  fails there instead of returning an empty result.
- The `print` lines of the text demonstration are left out
  (huffman_code/huffman.py:65-68). They are output only; the round trip they
  show is `HuffmanText.Abracadabra`.
- `heapq`'s array layout and `Counter`'s internals are not modelled. They are
  library code; they are specified by a least-weight pop and by occurrence
  counts.
- TreeBuild.HeapPop: which equal-weight tree is popped is left open, not
  `heapq`'s actual choice. Different choices give different but equally valid
  trees.
- TreeBuild.GreedyMerge: requires that no symbol sits in two queued trees. The
  loop itself does not check this. Its only inputs are the leaf queues built
  from a frequency table, which always satisfy it.
- Huffman optimality is not proved: nothing in the code claims it. The
  in-scope part, encoded length = sum of count times depth, is
  `BuiltTrees.EncodedLength`.
- HuffmanText.Abracadabra: does not state the codewords, which depend on the
  tie-break. It also does not state the encoded length of 23 bits: that length
  is the same for every tie-break, but proving so needs the optimality
  argument.
- HuffmanText.HuffmanDecode: returns the decoded symbols as a sequence. For
  characters that sequence is the string `''.join` builds.
- HuffmanImage.CodeGenerator.GenerateHuffmanCodes: takes a tree, never `None`.
  The image script never passes `None`, because the build raises first. The
  explicit `prefix` and `codebook` arguments are `Codebooks.Codebook.Record`.
- HuffmanText.BuildHuffmanTree: the contract does not say that each merge
  joined the two lightest trees queued at that moment. Each pop is proved to
  take a lightest tree (`TreeBuild.HeapPop`), but what reaches the result is
  only the merged shape: each node weighs the sum of its children, the left
  not heavier. Trees that were not built greedily can have that shape too.
  Stating the greedy choice on the result needs the merge history.
- HuffmanImage.BuildHuffmanTree: as for the text build, the greedy choice of
  the two lightest trees is not stated on the result, only the merged shape.
- HuffmanImage.BuildHuffmanTree: frequencies are natural numbers. A
  hand-written `freq_dict` with negative counts is not modelled.
- The `HuffmanNode` class and its `__lt__` are not modelled as objects. A
  node is a value of the `Tree` datatype: the code never changes a node after
  creating it, apart from setting `left`/`right` right after construction
  (huffman_code/huffman_encode_decode.py:29-31). `__lt__` is the weight
  comparison in `TreeBuild.HeapPop`.
