/** Generic facts about sequences: duplicate-free sequences, first occurrences,
    and the "distinct elements in first-seen order" that a JavaScript `Set`
    built from an array yields when it is spread back into an array. */
module Sequences {

  predicate NoDuplicates<T(==)>(s: seq<T>) {
    forall i, j :: 0 <= i < j < |s| ==> s[i] != s[j]
  }

  /** The index of the first occurrence of `x` in `s`. */
  function FirstIndex<T(==)>(s: seq<T>, x: T): (i: nat)
    requires x in s
    ensures i < |s| && s[i] == x
    ensures x !in s[..i]
  {
    var p := s[..|s| - 1];
    assert s == p + [s[|s| - 1]];
    if x in p then
      var i := FirstIndex(p, x);
      assert s[..i] == p[..i];
      i
    else
      |s| - 1
  }

  /** The elements of `s`, each once, in the order in which they are first
      seen: `[...new Set(s)]`. */
  function Distinct<T(==,!new)>(s: seq<T>): (d: seq<T>)
    ensures NoDuplicates(d)
    ensures forall x :: x in d <==> x in s
    ensures |d| <= |s|
  {
    if s == [] then []
    else
      var p := s[..|s| - 1];
      assert s == p + [s[|s| - 1]];
      var d' := Distinct(p);
      if s[|s| - 1] in d' then d' else d' + [s[|s| - 1]]
  }

  /** Distinct lists its elements in the order of their first occurrences. */
  lemma {:induction false} DistinctFirstSeenOrder<T(!new)>(s: seq<T>, i: nat, j: nat)
    requires i < j < |Distinct(s)|
    ensures FirstIndex(s, Distinct(s)[i]) < FirstIndex(s, Distinct(s)[j])
  {
    var p := s[..|s| - 1];
    var y := s[|s| - 1];
    var d := Distinct(s);
    var d' := Distinct(p);
    assert d[i] in p by {
      assert d[i] in d';
    }
    if j < |d'| {
      assert d[j] == d'[j] && d[j] in p;
      DistinctFirstSeenOrder(p, i, j);
    } else {
      assert y !in p && d[j] == y;
      assert FirstIndex(s, d[i]) == FirstIndex(p, d[i]) < |p|;
    }
  }
}
