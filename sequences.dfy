/** Facts about sequences without duplicates, shared by the container models. */
module Sequences {

  ghost predicate Distinct<T>(s: seq<T>)
  {
    forall i, j :: 0 <= i < j < |s| ==> s[i] != s[j]
  }

  /** The set of elements of a sequence without duplicates has as many members as the sequence. */
  lemma {:induction false} DistinctCardinality<T>(s: seq<T>)
    requires Distinct(s)
    ensures |set x | x in s| == |s|
  {
    if s != [] {
      var last := s[|s| - 1];
      var init := s[..|s| - 1];
      assert Distinct(init);
      DistinctCardinality(init);
      assert last !in init;
      assert (set x | x in s) == (set x | x in init) + {last} by {
        assert s == init + [last];
      }
    }
  }

  /** The indices below n, as a set. */
  function IndexSet(n: nat): (r: set<nat>)
    ensures forall x: nat :: x in r <==> x < n
  {
    if n == 0 then {} else IndexSet(n - 1) + {n - 1}
  }

  /** There are n indices below n. */
  lemma {:induction false} IndexSetCardinality(n: nat)
    ensures |IndexSet(n)| == n
  {
    if n > 0 {
      var smaller := IndexSet(n - 1);
      IndexSetCardinality(n - 1);
      assert IndexSet(n) == smaller + {n - 1};
      assert n - 1 !in smaller;
      assert |smaller + {n - 1}| == |smaller| + 1;
    }
  }
}
