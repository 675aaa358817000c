/**
 * Encoding (concatenate the codewords in input order) and decoding (walk a
 * cursor down from the root, emit at each leaf and go back to the root), with
 * what they promise: the encoded length is the weighted path length, and
 * decoding an encoding gives the input back.
 */
module Coding {
  import opened Wrappers
  import opened Sums
  import opened Algebra
  import opened HuffmanTree
  import opened Frequency
  import opened Codewords

  /**
   * `''.join(codebook[c] for c in text)`: the first symbol without a codeword
   * raises KeyError.
   */
  function Encode<S>(text: seq<S>, book: map<S, string>): (r: Result<string, Fault<S>>)
    ensures r.Ok? <==> forall i :: 0 <= i < |text| ==> text[i] in book
    ensures r.Err? ==> exists i :: 0 <= i < |text| && text[i] !in book && r.error == KeyError(text[i])
                                   && forall j :: 0 <= j < i ==> text[j] in book
    ensures r.Ok? && (forall i :: 0 <= i < |text| ==> IsBits(book[text[i]])) ==> IsBits(r.value)
  {
    if text == [] then Ok("")
    else if text[0] !in book then Err(KeyError(text[0]))
    else
      match Encode(text[1..], book)
      case Ok(rest) => Ok(book[text[0]] + rest)
      case Err(e) =>
        assert forall j :: 1 <= j < |text| ==> text[j] == text[1..][j - 1];
        Err(e)
  }

  /** The length of a codeword, 0 for a symbol without one. */
  function Len<S>(book: map<S, string>, k: S): nat
  {
    if k in book then |book[k]| else 0
  }

  function CostTerm<S>(freq: map<S, nat>, book: map<S, string>): S -> int
  {
    k => Val(freq, k) * Len(book, k)
  }

  /** The number of bits a code spends on a frequency table: the sum of count times codeword length. */
  ghost function Cost<S>(freq: map<S, nat>, book: map<S, string>): int
  {
    SumOver(freq.Keys, CostTerm(freq, book))
  }

  /** The weighted path length of a tree: the sum over its leaves of weight times depth. */
  ghost function PathCost<S>(t: Tree<S>): nat
  {
    match t
    case Leaf(_, _) => 0
    case Node(_, l, r) => PathCost(l) + PathCost(r) + LeafTotal(l) + LeafTotal(r)
  }

  /** One more occurrence of `c` costs one more codeword of `c`. */
  lemma CostStep<S>(m': map<S, nat>, c: S, book: map<S, string>)
    ensures Cost(m'[c := Val(m', c) + 1], book) == Cost(m', book) + Len(book, c)
  {
    var m := m'[c := Val(m', c) + 1];
    var f, f' := CostTerm(m, book), CostTerm(m', book);
    assert f(c) == f'(c) + Len(book, c) by {
      calc {
        f(c);
        (Val(m', c) + 1) * Len(book, c);
        Val(m', c) * Len(book, c) + Len(book, c);
      }
    }
    if c in m' {
      assert m.Keys == m'.Keys;
      SumRemove(m.Keys, f, c);
      SumRemove(m'.Keys, f', c);
      SumExt(m.Keys - {c}, f, f');
    } else {
      assert m.Keys == m'.Keys + {c};
      assert f'(c) == 0;
      SumInsert(m'.Keys, f, c);
      SumExt(m'.Keys, f, f');
    }
  }

  /** The encoding is as long as the counts of the input weighted by codeword length. */
  lemma {:induction false} EncodeLength<S>(text: seq<S>, book: map<S, string>)
    requires Encode(text, book).Ok?
    ensures |Encode(text, book).value| == Cost(Frequencies(text), book)
  {
    if text != [] {
      var c := text[0];
      EncodeLength(text[1..], book);
      assert Encode(text, book).value == book[c] + Encode(text[1..], book).value;
      FrequenciesCons(text);
      CostStep(Frequencies(text[1..]), c, book);
    }
  }

  lemma TermStep<S>(m: map<S, nat>, p: map<S, string>, m': map<S, nat>, p': map<S, string>, k: S)
    requires Val(m, k) == Val(m', k) && Len(p, k) == Len(p', k) + 1
    ensures CostTerm(m, p)(k) == CostTerm(m', p')(k) + Val(m', k)
  {
    var v, len := Val(m', k), Len(p', k);
    calc {
      CostTerm(m, p)(k);
      v * (len + 1);
      v * len + v;
    }
  }

  /**
   * The part of a node's cost spent on one subtree: that subtree's own cost
   * plus one bit per occurrence of each of its symbols.
   */
  lemma SubtreeCost<S>(t: Tree<S>, goRight: bool)
    requires t.Node? && Distinct(t)
    ensures var sub := if goRight then t.right else t.left;
      SumOver(Syms(sub), CostTerm(Table(t), Paths(t)))
      == Cost(Table(sub), Paths(sub)) + LeafTotal(sub)
  {
    var sub := if goRight then t.right else t.left;
    var m, p := Table(t), Paths(t);
    LeafTotalIsTotal(sub);
    forall k | k in Syms(sub)
      ensures CostTerm(m, p)(k) == CostTerm(Table(sub), Paths(sub))(k) + Val(Table(sub), k)
    {
      PathsOfNode(t, k);
      TermStep(m, p, Table(sub), Paths(sub), k);
    }
    SumAdd(Syms(sub), CostTerm(Table(sub), Paths(sub)), k => Val(Table(sub), k), CostTerm(m, p));
  }

  /** A tree's own codebook spends exactly its weighted path length on its leaf table. */
  lemma {:induction false} PathCostIdentity<S>(t: Tree<S>)
    requires Distinct(t)
    ensures Cost(Table(t), Paths(t)) == PathCost(t)
  {
    match t
    case Leaf(s, w) =>
      SumRemove({s}, CostTerm(Table(t), Paths(t)), s);
      assert {s} - {s} == {};
    case Node(_, l, r) =>
      PathCostIdentity(l);
      PathCostIdentity(r);
      SubtreeCost(t, false);
      SubtreeCost(t, true);
      SumUnion(Syms(l), Syms(r), CostTerm(Table(t), Paths(t)));
  }

  // ---------------------------------------------------------------------------
  // Decoding.

  /** The child a bit leads to: '0' goes left, every other character goes right. */
  function Step<S>(cur: Tree<S>, bit: char): (next: Tree<S>)
    requires cur.Node?
    ensures bit == '0' ==> next == cur.left
    ensures bit != '0' ==> next == cur.right
    ensures Syms(next) <= Syms(cur)
  {
    if bit == '0' then cur.left else cur.right
  }

  /**
   * The symbols emitted while `bits` is read with the cursor at `cur`: each
   * step that lands on a leaf emits its symbol and sends the cursor back to
   * `root`; steps after the last completed leaf emit nothing.
   */
  function Walk<S>(root: Tree<S>, cur: Tree<S>, bits: string): (out: seq<S>)
    requires root.Node? && cur.Node?
    ensures |out| <= |bits|
    ensures forall x :: x in out ==> x in Syms(root) || x in Syms(cur)
    decreases |bits|
  {
    if bits == [] then []
    else
      var next := Step(cur, bits[0]);
      if next.Leaf? then [next.sym] + Walk(root, root, bits[1..])
      else Walk(root, next, bits[1..])
  }

  /**
   * Decoding from the root. A leaf root has no children: the first bit
   * dereferences a missing child, which Python reports as AttributeError.
   */
  function Decode<S>(root: Tree<S>, bits: string): (r: Result<seq<S>, Fault<S>>)
    ensures r.Err? <==> root.Leaf? && bits != []
    ensures r.Err? ==> r.error == AttributeError
    ensures root.Leaf? && bits == [] ==> r == Ok([])
  {
    if root.Node? then Ok(Walk(root, root, bits))
    else if bits == [] then Ok([])
    else Err(AttributeError)
  }

  /** One step of the walk. */
  lemma WalkCons<S>(root: Tree<S>, cur: Tree<S>, c: char, tail: string)
    requires root.Node? && cur.Node?
    ensures Walk(root, cur, [c] + tail)
         == if Step(cur, c).Leaf? then [Step(cur, c).sym] + Walk(root, root, tail)
            else Walk(root, Step(cur, c), tail)
  {
    assert ([c] + tail)[1..] == tail;
  }

  /** The subtree a symbol's codeword enters first, and the bit that enters it. */
  lemma PathHead<S>(cur: Tree<S>, s: S) returns (c: char, sub: Tree<S>)
    requires cur.Node? && s in Syms(cur)
    ensures Step(cur, c) == sub && s in Syms(sub)
    ensures Paths(cur)[s] == [c] + Paths(sub)[s]
  {
    PathsOfNode(cur, s);
    if s in Syms(cur.right) {
      c, sub := '1', cur.right;
    } else {
      c, sub := '0', cur.left;
    }
  }

  /** Reading the codeword of `s` from `cur` emits `s` and returns the cursor to the root. */
  lemma {:induction false} WalkPath<S>(root: Tree<S>, cur: Tree<S>, s: S, rest: string)
    requires root.Node? && cur.Node? && s in Syms(cur)
    ensures Walk(root, cur, Paths(cur)[s] + rest) == [s] + Walk(root, root, rest)
    decreases cur
  {
    var c, sub := PathHead(cur, s);
    var tail := Paths(sub)[s] + rest;
    ConcatAssoc([c], Paths(sub)[s], rest);
    WalkCons(root, cur, c, tail);
    if sub.Node? {
      WalkPath(root, sub, s, rest);
      assert Walk(root, cur, [c] + tail) == Walk(root, sub, tail);
      assert Walk(root, sub, tail) == [s] + Walk(root, root, rest);
    } else {
      assert sub.sym == s;
      assert tail == rest;
      assert Walk(root, cur, [c] + tail) == [s] + Walk(root, root, rest);
    }
  }

  /** Every codeword of `book`, read from the root, emits its own symbol and returns to the root. */
  ghost predicate Decodes<S>(root: Tree<S>, book: map<S, string>)
    requires root.Node?
  {
    forall s, rest :: s in book ==> Walk(root, root, book[s] + rest) == [s] + Walk(root, root, rest)
  }

  lemma PathsDecode<S>(root: Tree<S>)
    requires root.Node?
    ensures Decodes(root, Paths(root))
  {
    forall s, rest | s in Paths(root)
      ensures Walk(root, root, Paths(root)[s] + rest) == [s] + Walk(root, root, rest)
    {
      WalkPath(root, root, s, rest);
    }
  }

  /** Reading an encoding from the root emits the encoded symbols, then whatever follows. */
  lemma {:induction false} WalkEncode<S>(root: Tree<S>, book: map<S, string>, text: seq<S>, rest: string)
    requires root.Node? && Decodes(root, book) && Encode(text, book).Ok?
    ensures Walk(root, root, Encode(text, book).value + rest) == text + Walk(root, root, rest)
  {
    if text == [] {
      assert Encode(text, book).value + rest == rest;
    } else {
      var s, tail := text[0], Encode(text[1..], book).value;
      WalkEncode(root, book, text[1..], rest);
      assert Encode(text, book).value == book[s] + tail;
      ConcatAssoc(book[s], tail, rest);
      assert Walk(root, root, book[s] + (tail + rest)) == [s] + (text[1..] + Walk(root, root, rest));
      ConcatAssoc([s], text[1..], Walk(root, root, rest));
      assert text == [s] + text[1..];
    }
  }

  /**
   * For a tree with at least two leaves, decoding the encoding of a text over
   * its symbols gives the text back.
   */
  lemma RoundTrip<S>(root: Tree<S>, text: seq<S>)
    requires root.Node? && forall i :: 0 <= i < |text| ==> text[i] in Syms(root)
    ensures Encode(text, Paths(root)).Ok?
    ensures Decode(root, Encode(text, Paths(root)).value) == Ok(text)
  {
    var book := Paths(root);
    PathsDecode(root);
    var e := Encode(text, book).value;
    WalkEncode(root, book, text, "");
    assert e + "" == e;
    assert Walk(root, root, "") == [];
    assert Walk(root, root, e) == text;
  }

  lemma PrefixTail(p: string, c: char, below: string)
    requires p != [] && IsPrefix(p, [c] + below)
    ensures p == [c] + p[1..] && IsPrefix(p[1..], below)
  {
    assert p[0] == ([c] + below)[..|p|][0];
    assert below[..|p| - 1] == ([c] + below)[..|p|][1..];
  }

  /** A proper prefix of a codeword read from `cur` stops at an internal node and emits nothing. */
  lemma {:induction false} WalkPartial<S>(root: Tree<S>, cur: Tree<S>, s: S, p: string)
    requires root.Node? && cur.Node? && s in Syms(cur)
    requires IsPrefix(p, Paths(cur)[s]) && |p| < |Paths(cur)[s]|
    ensures Walk(root, cur, p) == []
    decreases cur
  {
    if p != [] {
      var c, sub := PathHead(cur, s);
      PrefixTail(p, c, Paths(sub)[s]);
      WalkCons(root, cur, c, p[1..]);
      WalkPartial(root, sub, s, p[1..]);
    }
  }

  /**
   * Bits left over after the last complete codeword are dropped: they make
   * no symbol and raise no error.
   */
  lemma TrailingBitsDropped<S>(root: Tree<S>, text: seq<S>, s: S, p: string)
    requires root.Node? && forall i :: 0 <= i < |text| ==> text[i] in Syms(root)
    requires s in Syms(root) && IsPrefix(p, Paths(root)[s]) && |p| < |Paths(root)[s]|
    ensures Encode(text, Paths(root)).Ok?
    ensures Decode(root, Encode(text, Paths(root)).value + p) == Ok(text)
  {
    var book := Paths(root);
    PathsDecode(root);
    var e := Encode(text, book).value;
    WalkEncode(root, book, text, p);
    WalkPartial(root, root, s, p);
    assert Walk(root, root, e + p) == text;
  }

  /** `bits` with every character other than '0' replaced by '1'. */
  function Normalize(bits: string): (r: string)
    ensures |r| == |bits| && IsBits(r)
    ensures forall i :: 0 <= i < |bits| ==> (r[i] == '0' <==> bits[i] == '0')
  {
    if bits == [] then [] else [if bits[0] == '0' then '0' else '1'] + Normalize(bits[1..])
  }

  /** The decoder reads every character other than '0' as a step to the right. */
  lemma {:induction false} WalkNormalize<S>(root: Tree<S>, cur: Tree<S>, bits: string)
    requires root.Node? && cur.Node?
    ensures Walk(root, cur, bits) == Walk(root, cur, Normalize(bits))
    decreases |bits|
  {
    if bits != [] {
      var n := Normalize(bits);
      assert n[1..] == Normalize(bits[1..]);
      assert Step(cur, n[0]) == Step(cur, bits[0]);
      var next := Step(cur, bits[0]);
      if next.Leaf? {
        WalkNormalize(root, root, bits[1..]);
      } else {
        WalkNormalize(root, next, bits[1..]);
      }
    }
  }

  lemma DecodeNormalize<S>(root: Tree<S>, bits: string)
    ensures Decode(root, bits) == Decode(root, Normalize(bits))
  {
    if root.Node? {
      WalkNormalize(root, root, bits);
    }
  }
}
