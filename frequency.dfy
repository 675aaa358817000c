/** Occurrence counting (Python's `collections.Counter`) over a flat sequence of symbols. */
module Frequency {
  import opened Sums
  import opened HuffmanTree

  /**
   * The frequency table of `s`: its keys are exactly the symbols occurring in
   * `s`, and each is mapped to its number of occurrences.
   */
  function Frequencies<S>(s: seq<S>): (m: map<S, nat>)
    ensures forall i :: 0 <= i < |s| ==> s[i] in m
    ensures forall x :: x in m ==> x in s && m[x] == multiset(s)[x]
  {
    if s == [] then map[]
    else
      var m' := Frequencies(s[1..]);
      assert s == [s[0]] + s[1..];
      m'[s[0] := Val(m', s[0]) + 1]
  }

  /** The table of a non-empty sequence is its tail's, with one more count of its head. */
  lemma FrequenciesCons<S>(s: seq<S>)
    requires s != []
    ensures Frequencies(s) == Frequencies(s[1..])[s[0] := Val(Frequencies(s[1..]), s[0]) + 1]
  {
  }

  /** Only the empty sequence has the empty table. */
  lemma FrequenciesEmpty<S>(s: seq<S>)
    ensures Frequencies(s) == map[] <==> s == []
  {
    if s != [] {
      assert s[0] in Frequencies(s);
    }
  }

  /** The counts of a sequence add up to its length. */
  lemma {:induction false} FrequenciesTotal<S>(s: seq<S>)
    ensures Total(Frequencies(s)) == |s|
  {
    if s != [] {
      var c := s[0];
      var m' := Frequencies(s[1..]);
      var m := Frequencies(s);
      FrequenciesTotal(s[1..]);
      FrequenciesCons(s);
      if c in m' {
        assert m.Keys == m'.Keys;
        SumRemove(m.Keys, k => Val(m, k), c);
        SumRemove(m'.Keys, k => Val(m', k), c);
        SumExt(m.Keys - {c}, k => Val(m, k), k => Val(m', k));
      } else {
        assert m.Keys == m'.Keys + {c};
        SumInsert(m'.Keys, k => Val(m, k), c);
        SumExt(m'.Keys, k => Val(m, k), k => Val(m', k));
      }
    }
  }
}
