/**
 * The greedy tree build shared by both front ends: one leaf per table entry,
 * then, while more than one tree is queued, pop the two lightest and push
 * their merge. The binary-heap layout of Python's `heapq` is not modelled:
 * the queue is a sequence, a pop takes out some element of least weight
 * (which one, among equal weights, is left open) and a push adds the new tree.
 */
module TreeBuild {
  import opened Wrappers
  import opened HuffmanTree
  import opened Algebra

  /** Every position holds a tree at least as heavy as the one at `i`. */
  predicate IsMin<S>(q: seq<Tree<S>>, i: nat)
  {
    i < |q| && forall j :: 0 <= j < |q| ==> q[i].w <= q[j].w
  }

  /** A position of least weight, the last such one: a witness that a minimum exists. */
  ghost function MinIndex<S>(q: seq<Tree<S>>): (i: nat)
    requires q != []
    ensures IsMin(q, i)
  {
    if |q| == 1 then 0
    else
      var k := MinIndex(q[1..]) + 1;
      assert forall j :: 1 <= j < |q| ==> q[j] == q[1..][j - 1];
      if q[0].w < q[k].w then 0 else k
  }

  /**
   * `heapq.heappop`: removes and returns a tree of least weight. `i` is the
   * position it was taken from.
   */
  method HeapPop<S>(q: seq<Tree<S>>) returns (m: Tree<S>, rest: seq<Tree<S>>, ghost i: nat)
    requires q != []
    ensures i < |q| && m == q[i] && rest == Without(q, i)
    ensures forall j :: 0 <= j < |q| ==> m.w <= q[j].w
  {
    // Not read below: `MinIndex` only shows that the `:|` has a solution.
    ghost var least := MinIndex(q);
    var k: nat :| IsMin(q, k);
    assert IsMin(q, k);
    m, rest, i := q[k], Without(q, k), k;
  }

  /** The invariant of the comprehension: the queue holds one leaf per table entry not in `rest`. */
  ghost predicate LeavesFor<S>(q: seq<Tree<S>>, freq: map<S, nat>, rest: set<S>)
  {
    && rest <= freq.Keys
    && (forall t :: t in q ==> t.Leaf?)
    && FDistinct(q) && FInternal(q) == 0
    && FTable(q) == freq - rest
    && |q| + |rest| == |freq.Keys|
  }

  /** Queuing the leaf of one more entry keeps the invariant. */
  lemma LeafStep<S>(q: seq<Tree<S>>, freq: map<S, nat>, rest: set<S>, k: S)
    requires LeavesFor(q, freq, rest) && k in rest
    ensures LeavesFor([Leaf(k, freq[k])] + q, freq, rest - {k})
  {
    var leaf := Leaf(k, freq[k]);
    ConsForest(leaf, q);
    assert FTable([leaf] + q) == (freq - rest)[k := freq[k]];
    assert (freq - rest)[k := freq[k]] == freq - (rest - {k});
    assert |rest - {k}| == |rest| - 1;
    assert forall t :: t in [leaf] + q ==> t == leaf || t in q;
  }

  lemma LeavesInit<S>(freq: map<S, nat>)
    ensures LeavesFor([], freq, freq.Keys)
  {
    assert freq - freq.Keys == map[];
  }

  lemma LeavesDone<S>(q: seq<Tree<S>>, freq: map<S, nat>)
    requires LeavesFor(q, freq, {})
    ensures forall t :: t in q ==> t.Leaf?
    ensures |q| == |freq|
    ensures FDistinct(q) && FTable(q) == freq && FInternal(q) == 0
  {
    assert freq - {} == freq;
  }

  /**
   * The list comprehension that turns a frequency table into one leaf per
   * entry (the order is immaterial: the queue is heapified next).
   */
  method LeafQueue<S>(freq: map<S, nat>) returns (q: seq<Tree<S>>)
    ensures forall t :: t in q ==> t.Leaf?
    ensures |q| == |freq|
    ensures FDistinct(q) && FTable(q) == freq && FInternal(q) == 0
  {
    q := [];
    var rest := freq.Keys;
    LeavesInit(freq);
    while rest != {}
      invariant LeavesFor(q, freq, rest)
      decreases rest
    {
      var k :| k in rest;
      LeafStep(q, freq, rest, k);
      q := [Leaf(k, freq[k])] + q;
      rest := rest - {k};
    }
    LeavesDone(q, freq);
  }

  /** `rest` lists some of the elements of `q`. */
  ghost predicate Within<S>(rest: seq<Tree<S>>, q: seq<Tree<S>>)
  {
    forall t :: t in rest ==> t in q
  }

  lemma RemoveWithin<S>(q: seq<Tree<S>>, i: nat)
    requires i < |q|
    ensures Within(q[..i] + q[i+1..], q)
  {
    forall t | t in q[..i] + q[i+1..] ensures t in q {
      if t in q[..i] { } else { assert t in q[i+1..]; }
    }
  }

  ghost predicate AllMerged<S>(q: seq<Tree<S>>)
  {
    forall t :: t in q ==> Merged(t)
  }

  /** The invariant of the merge loop, `merges` iterations after starting from `q0`. */
  ghost predicate MergeInv<S>(q: seq<Tree<S>>, q0: seq<Tree<S>>, merges: nat)
  {
    && FDistinct(q) && FTable(q) == FTable(q0)
    && (AllMerged(q0) ==> AllMerged(q))
    && (q0 != [] <==> q != [])
    && |q| + merges == |q0| && FInternal(q) == FInternal(q0) + merges
  }

  /** The queue after the element at `i` is popped. */
  function Without<S>(q: seq<Tree<S>>, i: nat): (r: seq<Tree<S>>)
    requires i < |q|
    ensures |r| == |q| - 1 && Within(r, q)
  {
    RemoveWithin(q, i);
    q[..i] + q[i+1..]
  }

  /** The tree pushed back after popping `a` and then `b`. */
  function Join<S>(a: Tree<S>, b: Tree<S>): (r: Tree<S>)
    ensures r.w == a.w + b.w
    ensures Syms(r) == Syms(a) + Syms(b) && Table(r) == Table(a) + Table(b)
    ensures Internal(r) == Internal(a) + Internal(b) + 1
    ensures Distinct(r) <==> Distinct(a) && Distinct(b) && Syms(a) !! Syms(b)
    ensures Merged(r) <==> Merged(a) && Merged(b) && a.w <= b.w
  {
    Node(a.w + b.w, a, b)
  }

  /** Popping two trees and pushing their merge keeps the symbol table and adds one internal node. */
  lemma MergeTables<S>(before: seq<Tree<S>>, i: nat, j: nat)
    requires FDistinct(before) && i < |before| && j < |before| - 1
    ensures var middle := Without(before, i);
      var after := [Join(before[i], middle[j])] + Without(middle, j);
      && FDistinct(after) && FTable(after) == FTable(before)
      && FInternal(after) == FInternal(before) + 1
  {
    var middle := Without(before, i);
    var rest := Without(middle, j);
    var a, b := before[i], middle[j];
    RemoveAt(before, i);
    RemoveAt(middle, j);
    ConsForest(Join(a, b), rest);
    assert Distinct(Join(a, b));
    calc {
      FTable([Join(a, b)] + rest);
      Table(Join(a, b)) + FTable(rest);
      (Table(a) + Table(b)) + FTable(rest);
      { UnionAssoc(Table(a), Table(b), FTable(rest)); }
      Table(a) + (Table(b) + FTable(rest));
      Table(a) + FTable(middle);
      FTable(before);
    }
  }

  /**
   * When `before[i]` is a lightest tree, the merge it heads is `Merged`, so a
   * queue of `Merged` trees stays one.
   */
  lemma MergeShapes<S>(before: seq<Tree<S>>, i: nat, j: nat)
    requires AllMerged(before) && i < |before| && j < |before| - 1
    requires forall k :: 0 <= k < |before| ==> before[i].w <= before[k].w
    ensures var middle := Without(before, i);
      AllMerged([Join(before[i], middle[j])] + Without(middle, j))
  {
    var middle := Without(before, i);
    var rest := Without(middle, j);
    var a, b := before[i], middle[j];
    assert b in before;
    var after := [Join(a, b)] + rest;
    assert Merged(Join(a, b));
    assert forall t :: t in after ==> t == Join(a, b) || t in rest;
  }

  /** One loop iteration keeps the invariant, with one more merge. */
  lemma MergeStep<S>(before: seq<Tree<S>>, q0: seq<Tree<S>>, merges: nat, i: nat, j: nat)
    requires MergeInv(before, q0, merges) && i < |before| && j < |before| - 1
    requires forall k :: 0 <= k < |before| ==> before[i].w <= before[k].w
    ensures var middle := Without(before, i);
      MergeInv([Join(before[i], middle[j])] + Without(middle, j), q0, merges + 1)
  {
    MergeTables(before, i, j);
    if AllMerged(q0) {
      MergeShapes(before, i, j);
    }
  }

  lemma MergeDone<S>(q: seq<Tree<S>>, q0: seq<Tree<S>>, merges: nat)
    requires MergeInv(q, q0, merges) && |q| == 1
    ensures Distinct(q[0]) && Table(q[0]) == FTable(q0)
    ensures Internal(q[0]) == FInternal(q0) + |q0| - 1
    ensures AllMerged(q0) ==> Merged(q[0])
  {
    var t := q[0];
    assert q == [t] + [];
    ConsForest(t, []);
    assert FInternal(q) == Internal(t);
    assert FTable(q) == Table(t) + map[] == Table(t);
    assert t in q;
  }

  /**
   * The `while len(heap) > 1` loop followed by `return heap[0]`. An empty
   * queue makes `heap[0]` raise IndexError.
   */
  method GreedyMerge<S>(q0: seq<Tree<S>>) returns (r: Result<Tree<S>, Fault<S>>)
    requires FDistinct(q0)
    ensures r.Ok? <==> q0 != []
    ensures r.Err? ==> r.error == IndexError
    ensures r.Ok? ==> Distinct(r.value) && Table(r.value) == FTable(q0)
    ensures r.Ok? ==> Internal(r.value) == FInternal(q0) + |q0| - 1
    ensures r.Ok? && AllMerged(q0) ==> Merged(r.value)
  {
    var q := q0;
    ghost var merges := 0;
    while |q| > 1
      invariant MergeInv(q, q0, merges)
      decreases |q|
    {
      ghost var before := q;
      var left, right;
      ghost var i, j;
      left, q, i := HeapPop(q);
      right, q, j := HeapPop(q);
      MergeStep(before, q0, merges, i, j);
      q := [Join(left, right)] + q;
      merges := merges + 1;
    }
    if |q| == 0 {
      return Err(IndexError);
    }
    MergeDone(q, q0, merges);
    r := Ok(q[0]);
  }
}
