/**
 * index_sort: writes the indices 0 .. n-1 of a key range into an output
 * range (`iota`) and then sorts them in place so that their keys ascend.
 * The order of indices with equal keys is left open, so the sort is
 * modelled by an in-place insertion sort over the output range.
 */
module IndexSorts {
  import opened Sequences

  /** 0, 1, ..., n-1. */
  function Iota(n: nat): (s: seq<nat>)
    ensures |s| == n && forall i :: 0 <= i < n ==> s[i] == i
  {
    seq(n, i => i)
  }

  /** Every entry indexes the key range and the keys of the entries ascend. */
  ghost predicate SortedByKey(keys: seq<int>, s: seq<nat>)
  {
    && (forall i :: 0 <= i < |s| ==> s[i] < |keys|)
    && (forall i, j :: 0 <= i < j < |s| ==> keys[s[i]] <= keys[s[j]])
  }

  ghost predicate StrictlyIncreasing(keys: seq<int>)
  {
    forall i, j :: 0 <= i < j < |keys| ==> keys[i] < keys[j]
  }

  ghost predicate StrictlyDecreasing(keys: seq<int>)
  {
    forall i, j :: 0 <= i < j < |keys| ==> keys[i] > keys[j]
  }

  /**
   * Writes the argsort of `keys` into index[start .. start + |keys|]: a
   * permutation of 0 .. |keys|-1 under which the keys ascend. Nothing else
   * in `index` changes, and the keys are not touched.
   */
  method IndexSort(keys: seq<int>, index: array<nat>, start: nat)
    requires start + |keys| <= index.Length
    modifies index
    ensures forall p :: 0 <= p < index.Length && !(start <= p < start + |keys|) ==> index[p] == old(index[p])
    ensures multiset(index[start..start + |keys|]) == multiset(Iota(|keys|))
    ensures Distinct(index[start..start + |keys|])
    ensures SortedByKey(keys, index[start..start + |keys|])
  {
    var n := |keys|;
    // std::iota
    var i := 0;
    while i < n
      invariant 0 <= i <= n
      invariant forall p :: 0 <= p < index.Length && !(start <= p < start + i) ==> index[p] == old(index[p])
      invariant forall p :: start <= p < start + i ==> index[p] == p - start
    {
      index[start + i] := i;
      i := i + 1;
    }
    assert index[start..start + n] == Iota(n);
    assert index[..start] == old(index[..start]) && index[start + n..] == old(index[start + n..]);
    // std::sort by key
    InsertionSort(keys, index, start);
    OutsideUnchanged(index[..], old(index[..]), start, n);
  }

  /** Equal prefixes and suffixes mean equal entries outside the middle range. */
  lemma OutsideUnchanged(now: seq<nat>, was: seq<nat>, start: nat, n: nat)
    requires |now| == |was| && start + n <= |now|
    requires now[..start] == was[..start] && now[start + n..] == was[start + n..]
    ensures forall p :: 0 <= p < |now| && !(start <= p < start + n) ==> now[p] == was[p]
  {
    forall p | 0 <= p < |now| && !(start <= p < start + n) ensures now[p] == was[p] {
      if p < start {
        assert now[p] == now[..start][p];
      } else {
        assert now[p] == now[start + n..][p - start - n];
      }
    }
  }

  /** Entries index the key range and are pairwise different. */
  ghost predicate Indices(keys: seq<int>, s: seq<nat>)
  {
    (forall p :: 0 <= p < |s| ==> s[p] < |keys|) && Distinct(s)
  }

  /** The first i entries are in key order. */
  ghost predicate SortedPrefix(keys: seq<int>, s: seq<nat>, i: nat)
    requires Indices(keys, s) && i <= |s|
  {
    forall a, b :: 0 <= a < b < i ==> keys[s[a]] <= keys[s[b]]
  }

  /**
   * Mid-insertion: entries 0..i except the one at j are in key order, and
   * the entry at j has a smaller key than every later one up to i.
   */
  ghost predicate Inserting(keys: seq<int>, s: seq<nat>, i: nat, j: nat)
    requires Indices(keys, s) && j <= i < |s|
  {
    && (forall a, b :: 0 <= a < b <= i && a != j && b != j ==> keys[s[a]] <= keys[s[b]])
    && (forall b :: j < b <= i ==> keys[s[j]] < keys[s[b]])
  }

  lemma StartInserting(keys: seq<int>, s: seq<nat>, i: nat)
    requires Indices(keys, s) && i < |s| && SortedPrefix(keys, s, i)
    ensures Inserting(keys, s, i, i)
  {
  }

  /** Swapping the entry at j down past a larger-keyed neighbour keeps the insertion going. */
  lemma SwapStep(keys: seq<int>, s: seq<nat>, i: nat, j: nat)
    requires Indices(keys, s) && 0 < j <= i < |s| && Inserting(keys, s, i, j)
    requires keys[s[j - 1]] > keys[s[j]]
    ensures Indices(keys, s[j - 1 := s[j]][j := s[j - 1]])
    ensures Inserting(keys, s[j - 1 := s[j]][j := s[j - 1]], i, j - 1)
  {
    SwapPermutes(s, j - 1, j);
  }

  /** The insertion ends once the entry at j has no larger-keyed left neighbour. */
  lemma FinishInserting(keys: seq<int>, s: seq<nat>, i: nat, j: nat)
    requires Indices(keys, s) && j <= i < |s| && Inserting(keys, s, i, j)
    requires j == 0 || keys[s[j - 1]] <= keys[s[j]]
    ensures SortedPrefix(keys, s, i + 1)
  {
  }

  /** The sorting pass: insertion sort by key, swapping neighbours. */
  method InsertionSort(keys: seq<int>, index: array<nat>, start: nat)
    requires start + |keys| <= index.Length
    requires Indices(keys, index[start..start + |keys|])
    modifies index
    ensures index[..start] == old(index[..start]) && index[start + |keys|..] == old(index[start + |keys|..])
    ensures multiset(index[start..start + |keys|]) == multiset(old(index[start..start + |keys|]))
    ensures Indices(keys, index[start..start + |keys|])
    ensures SortedPrefix(keys, index[start..start + |keys|], |keys|)
  {
    var n := |keys|;
    var i := 0;
    while i < n
      invariant 0 <= i <= n
      invariant index[..start] == old(index[..start]) && index[start + n..] == old(index[start + n..])
      invariant multiset(index[start..start + n]) == multiset(old(index[start..start + n]))
      invariant Indices(keys, index[start..start + n])
      invariant SortedPrefix(keys, index[start..start + n], i)
    {
      InsertOne(keys, index, start, i);
      i := i + 1;
    }
  }

  /** One insertion: moves entry i down to its place among the sorted entries before it. */
  method InsertOne(keys: seq<int>, index: array<nat>, start: nat, i: nat)
    requires start + |keys| <= index.Length && i < |keys|
    requires Indices(keys, index[start..start + |keys|])
    requires SortedPrefix(keys, index[start..start + |keys|], i)
    modifies index
    ensures index[..start] == old(index[..start]) && index[start + |keys|..] == old(index[start + |keys|..])
    ensures multiset(index[start..start + |keys|]) == multiset(old(index[start..start + |keys|]))
    ensures Indices(keys, index[start..start + |keys|])
    ensures SortedPrefix(keys, index[start..start + |keys|], i + 1)
  {
    var n := |keys|;
    StartInserting(keys, index[start..start + n], i);
    var j := i;
    while j > 0
      invariant 0 <= j <= i
      invariant index[..start] == old(index[..start]) && index[start + n..] == old(index[start + n..])
      invariant multiset(index[start..start + n]) == multiset(old(index[start..start + n]))
      invariant Indices(keys, index[start..start + n])
      invariant Inserting(keys, index[start..start + n], i, j)
    {
      ghost var seg := index[start..start + n];
      assert index[start + j - 1] == seg[j - 1] && index[start + j] == seg[j];
      if keys[index[start + j - 1]] <= keys[index[start + j]] {
        break;
      }
      SwapStep(keys, seg, i, j);
      SwapNeighbours(index, start, n, j);
      assert index[start..start + n] == seg[j - 1 := seg[j]][j := seg[j - 1]];
      j := j - 1;
    }
    FinishInserting(keys, index[start..start + n], i, j);
  }

  /** Swaps slots start+j-1 and start+j; the rest of the array stays. */
  method SwapNeighbours(index: array<nat>, start: nat, n: nat, j: nat)
    requires 0 < j < n && start + n <= index.Length
    modifies index
    ensures index[..start] == old(index[..start]) && index[start + n..] == old(index[start + n..])
    ensures index[start..start + n] == old(index[start..start + n])[j - 1 := old(index[start + j])][j := old(index[start + j - 1])]
    ensures multiset(index[start..start + n]) == multiset(old(index[start..start + n]))
  {
    ghost var was := index[..];
    var left, right := index[start + j - 1], index[start + j];
    index[start + j - 1] := right;
    ghost var mid := index[..];
    assert mid == was[start + j - 1 := right];
    index[start + j] := left;
    assert index[..] == mid[start + j := left];
    SwapSlices(was, index[..], start, n, j);
    ghost var seg := was[start..start + n];
    SwapPermutes(seg, j - 1, j);
    assert index[start..start + n] == seg[j - 1 := seg[j]][j := seg[j - 1]];
  }

  /** A swap of neighbours inside the segment, seen through slices of the whole array. */
  lemma SwapSlices(was: seq<nat>, now: seq<nat>, start: nat, n: nat, j: nat)
    requires 0 < j < n && start + n <= |was|
    requires now == was[start + j - 1 := was[start + j]][start + j := was[start + j - 1]]
    ensures now[..start] == was[..start] && now[start + n..] == was[start + n..]
    ensures now[start..start + n] == was[start..start + n][j - 1 := was[start + j]][j := was[start + j - 1]]
    ensures var seg := was[start..start + n]; now[start..start + n] == seg[j - 1 := seg[j]][j := seg[j - 1]]
  {
    var seg := was[start..start + n];
    var swapped := seg[j - 1 := was[start + j]][j := was[start + j - 1]];
    assert |now[start..start + n]| == |swapped|;
    forall k | 0 <= k < n ensures now[start..start + n][k] == swapped[k] {
      assert now[start..start + n][k] == now[start + k];
    }
  }

  /** Exchanging two entries keeps the multiset and distinctness. */
  lemma SwapPermutes<T>(s: seq<T>, i: nat, j: nat)
    requires i < j < |s|
    ensures multiset(s[i := s[j]][j := s[i]]) == multiset(s)
    ensures Distinct(s) ==> Distinct(s[i := s[j]][j := s[i]])
  {
    var u := s[i := s[j]];
    var t := u[j := s[i]];
    assert multiset(u) == multiset(s) - multiset{s[i]} + multiset{s[j]};
    assert multiset(t) == multiset(u) - multiset{s[j]} + multiset{s[i]};
    if Distinct(s) {
      forall a, b | 0 <= a < b < |t| ensures t[a] != t[b] {
        var a', b' := if a == i then j else if a == j then i else a, if b == i then j else if b == j then i else b;
        assert t[a] == s[a'] && t[b] == s[b'] && a' != b';
      }
    }
  }

  /** An argsort of distinct entries over strictly increasing keys is the identity. */
  lemma IncreasingKeysGiveIdentity(keys: seq<int>, s: seq<nat>)
    requires StrictlyIncreasing(keys) && |s| == |keys|
    requires Distinct(s) && SortedByKey(keys, s)
    ensures s == Iota(|keys|)
  {
    var n := |s|;
    // the entries ascend strictly
    forall a, b | 0 <= a < b < n ensures s[a] < s[b] {
      assert s[a] != s[b];
    }
    StrictlyAscendingBounded(s, n);
  }

  /** An argsort of distinct entries over strictly decreasing keys lists the indices backwards. */
  lemma DecreasingKeysGiveReverse(keys: seq<int>, s: seq<nat>)
    requires StrictlyDecreasing(keys) && |s| == |keys|
    requires Distinct(s) && SortedByKey(keys, s)
    ensures forall i :: 0 <= i < |s| ==> s[i] == |s| - 1 - i
  {
    var n := |s|;
    var r := seq(n, i requires 0 <= i < n => s[n - 1 - i]);
    forall a, b | 0 <= a < b < n ensures r[a] < r[b] {
      var x, y := n - 1 - b, n - 1 - a;
      assert s[x] != s[y];
    }
    forall i | 0 <= i < n ensures r[i] < n {
    }
    StrictlyAscendingBounded(r, n);
    forall i | 0 <= i < n ensures s[i] == n - 1 - i {
      assert r[n - 1 - i] == s[i];
    }
  }

  /** n strictly ascending values below n are exactly 0 .. n-1. */
  lemma StrictlyAscendingBounded(s: seq<nat>, n: nat)
    requires |s| == n
    requires forall i :: 0 <= i < n ==> s[i] < n
    requires forall a, b :: 0 <= a < b < n ==> s[a] < s[b]
    ensures s == Iota(n)
  {
    forall i | 0 <= i < n ensures s[i] == i {
      AtLeastPosition(s, i);
      AtMostPosition(s, n, i);
    }
  }

  lemma {:induction false} AtLeastPosition(s: seq<nat>, i: nat)
    requires i < |s|
    requires forall a, b :: 0 <= a < b < |s| ==> s[a] < s[b]
    ensures s[i] >= i
  {
    if i > 0 {
      AtLeastPosition(s, i - 1);
    }
  }

  lemma {:induction false} AtMostPosition(s: seq<nat>, n: nat, i: nat)
    requires i < |s| == n
    requires forall k :: 0 <= k < n ==> s[k] < n
    requires forall a, b :: 0 <= a < b < |s| ==> s[a] < s[b]
    ensures s[i] <= i
    decreases n - i
  {
    if i < n - 1 {
      AtMostPosition(s, n, i + 1);
    }
  }

  /** Already-sorted keys 1, 2, 3 give the indices 0, 1, 2. */
  method SortedInput() returns (index: array<nat>)
    ensures index.Length == 3 && index[..] == [0, 1, 2]
  {
    index := new nat[3];
    IndexSort([1, 2, 3], index, 0);
    assert index[..] == index[0..3];
    IncreasingKeysGiveIdentity([1, 2, 3], index[..]);
  }

  /** Reversed keys 3, 2, 1 give the indices 2, 1, 0. */
  method ReversedInput() returns (index: array<nat>)
    ensures index.Length == 3 && index[..] == [2, 1, 0]
  {
    index := new nat[3];
    IndexSort([3, 2, 1], index, 0);
    assert index[..] == index[0..3];
    DecreasingKeysGiveReverse([3, 2, 1], index[..]);
  }
}
