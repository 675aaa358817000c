/**
 * The decoding loop both front ends run (`huffman_decode`, `decode_image`):
 * a cursor starts at the root, each bit moves it to a child, and on landing
 * on a leaf the symbol is appended and the cursor goes back to the root.
 */
module Decoder {
  import opened Wrappers
  import opened HuffmanTree
  import opened Coding

  /** Reading one more bit from the cursor `cur`. */
  lemma WalkUnfold<S>(root: Tree<S>, cur: Tree<S>, bits: string, i: nat)
    requires root.Node? && cur.Node? && i < |bits|
    ensures var next := Step(cur, bits[i]);
      Walk(root, cur, bits[i..]) ==
        if next.Leaf? then [next.sym] + Walk(root, root, bits[i+1..])
        else Walk(root, next, bits[i+1..])
  {
    assert bits[i..][0] == bits[i];
    assert bits[i..][1..] == bits[i+1..];
  }

  /**
   * The loop, bit by bit. A leaf root has `None` children: the first bit
   * moves the cursor to `None` and reading its symbol raises AttributeError.
   */
  method DecodeBits<S>(root: Tree<S>, bits: string) returns (r: Result<seq<S>, Fault<S>>)
    ensures r == Decode(root, bits)
  {
    var out: seq<S> := [];
    var cur := root;
    var i := 0;
    while i < |bits|
      invariant 0 <= i <= |bits|
      invariant root.Leaf? ==> i == 0 && cur == root && out == []
      invariant root.Node? ==> cur.Node? && out + Walk(root, cur, bits[i..]) == Walk(root, root, bits)
      decreases |bits| - i
    {
      if cur.Leaf? {
        return Err(AttributeError);
      }
      WalkUnfold(root, cur, bits, i);
      cur := Step(cur, bits[i]);
      if cur.Leaf? {
        out := out + [cur.sym];
        cur := root;
      }
      i := i + 1;
    }
    if root.Node? {
      assert bits[i..] == [];
      assert out + [] == out;
    }
    r := Ok(out);
  }
}
