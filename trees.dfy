/**
 * The Huffman tree shared by both front ends: a leaf carries a symbol and its
 * weight (occurrence count), an internal node carries only a weight and two
 * children. The Python test `node.char is not None` / `node.value is not None`
 * is the `Leaf?` discriminator here.
 */
module HuffmanTree {
  import opened Sums
  import opened Algebra

  datatype Tree<S> = Leaf(sym: S, w: nat) | Node(w: nat, left: Tree<S>, right: Tree<S>)

  /** The symbols at the leaves. */
  function Syms<S>(t: Tree<S>): set<S>
  {
    match t
    case Leaf(s, _) => {s}
    case Node(_, l, r) => Syms(l) + Syms(r)
  }

  /** No symbol sits at two leaves. */
  ghost predicate Distinct<S>(t: Tree<S>)
  {
    match t
    case Leaf(_, _) => true
    case Node(_, l, r) => Distinct(l) && Distinct(r) && Syms(l) !! Syms(r)
  }

  /** Each leaf symbol mapped to the weight of its leaf. */
  function Table<S>(t: Tree<S>): (m: map<S, nat>)
    ensures m.Keys == Syms(t)
  {
    match t
    case Leaf(s, w) => map[s := w]
    case Node(_, l, r) => Table(l) + Table(r)
  }

  /**
   * A shape every tree of the merge loop has: every internal node weighs the
   * sum of its children, and its left child (the one popped first) is not
   * heavier than its right child. Trees that were not merged greedily can
   * have it as well.
   */
  ghost predicate Merged<S>(t: Tree<S>)
  {
    match t
    case Leaf(_, _) => true
    case Node(w, l, r) => w == l.w + r.w && l.w <= r.w && Merged(l) && Merged(r)
  }

  /** The sum of the leaf weights. */
  ghost function LeafTotal<S>(t: Tree<S>): nat
  {
    match t
    case Leaf(_, w) => w
    case Node(_, l, r) => LeafTotal(l) + LeafTotal(r)
  }

  /** The number of internal nodes, that is, the number of merges that built the tree. */
  ghost function Internal<S>(t: Tree<S>): nat
  {
    match t
    case Leaf(_, _) => 0
    case Node(_, l, r) => 1 + Internal(l) + Internal(r)
  }

  /** The value a table gives a key, 0 for a key it lacks. */
  function Val<S>(m: map<S, nat>, k: S): nat
  {
    if k in m then m[k] else 0
  }

  /** The sum of all weights in a table. */
  ghost function Total<S>(m: map<S, nat>): int
  {
    SumOver(m.Keys, k => Val(m, k))
  }

  /** In a merged tree the root weight is the sum of the leaf weights. */
  lemma {:induction false} MergedWeight<S>(t: Tree<S>)
    requires Merged(t)
    ensures t.w == LeafTotal(t)
  {
    if t.Node? {
      MergedWeight(t.left);
      MergedWeight(t.right);
    }
  }

  /** With distinct leaves, the leaf weights sum to the total of the leaf table. */
  lemma {:induction false} LeafTotalIsTotal<S>(t: Tree<S>)
    requires Distinct(t)
    ensures LeafTotal(t) == Total(Table(t))
  {
    match t
    case Leaf(s, w) =>
      SumRemove({s}, k => Val(Table(t), k), s);
      assert {s} - {s} == {};
    case Node(_, l, r) =>
      LeafTotalIsTotal(l);
      LeafTotalIsTotal(r);
      var m := Table(t);
      SumUnion(Syms(l), Syms(r), k => Val(m, k));
      SumExt(Syms(l), k => Val(m, k), k => Val(Table(l), k));
      SumExt(Syms(r), k => Val(m, k), k => Val(Table(r), k));
  }

  /** The root weight of a merged tree with distinct leaves is the total of its leaf table. */
  lemma WeightIsTotal<S>(t: Tree<S>)
    requires Merged(t) && Distinct(t)
    ensures t.w == Total(Table(t))
  {
    MergedWeight(t);
    LeafTotalIsTotal(t);
  }

  // ---------------------------------------------------------------------------
  // A forest: the contents of the priority queue while the tree is being built.

  function FSyms<S>(q: seq<Tree<S>>): set<S>
  {
    if q == [] then {} else Syms(q[0]) + FSyms(q[1..])
  }

  /** Every tree has distinct leaves and no symbol occurs in two trees. */
  ghost predicate FDistinct<S>(q: seq<Tree<S>>)
  {
    q == [] || (Distinct(q[0]) && Syms(q[0]) !! FSyms(q[1..]) && FDistinct(q[1..]))
  }

  /** The leaf tables of all trees, united. */
  function FTable<S>(q: seq<Tree<S>>): (m: map<S, nat>)
    ensures m.Keys == FSyms(q)
  {
    if q == [] then map[] else Table(q[0]) + FTable(q[1..])
  }

  ghost function FInternal<S>(q: seq<Tree<S>>): nat
  {
    if q == [] then 0 else Internal(q[0]) + FInternal(q[1..])
  }

  /** The forest functions on a queue with one more tree in front. */
  lemma ConsForest<S>(t: Tree<S>, q: seq<Tree<S>>)
    ensures FSyms([t] + q) == Syms(t) + FSyms(q)
    ensures FDistinct([t] + q) <==> Distinct(t) && Syms(t) !! FSyms(q) && FDistinct(q)
    ensures FTable([t] + q) == Table(t) + FTable(q)
    ensures FInternal([t] + q) == Internal(t) + FInternal(q)
  {
    assert ([t] + q)[1..] == q;
  }

  /**
   * Taking tree `i` out of a forest: the rest is still a forest with distinct
   * leaves, and the removed tree accounts exactly for what the rest lost.
   */
  lemma {:induction false} RemoveAt<S>(q: seq<Tree<S>>, i: nat)
    requires i < |q| && FDistinct(q)
    ensures Distinct(q[i])
    ensures FDistinct(q[..i] + q[i+1..])
    ensures Syms(q[i]) !! FSyms(q[..i] + q[i+1..])
    ensures FSyms(q) == Syms(q[i]) + FSyms(q[..i] + q[i+1..])
    ensures FTable(q) == Table(q[i]) + FTable(q[..i] + q[i+1..])
    ensures FInternal(q) == Internal(q[i]) + FInternal(q[..i] + q[i+1..])
  {
    if i == 0 {
      assert q[..i] + q[i+1..] == q[1..];
    } else {
      var t := q[1..];
      RemoveAt(t, i - 1);
      var restT := t[..i-1] + t[i..];
      assert q[..i] == [q[0]] + t[..i-1];
      assert q[i+1..] == t[i..];
      ConcatAssoc([q[0]], t[..i-1], t[i..]);
      ConsForest(q[0], restT);
      assert t[i-1] == q[i];
      UnionSwap(Table(q[0]), Table(q[i]), FTable(restT));
    }
  }
}
