/**
 * type_list: compile-time lists of types. Over an abstract element type
 * (types compared for sameness by `==`) these are ordinary list functions;
 * a unary meta-predicate is a function to bool and a binary template a
 * function of two elements. Each recursive definition is tied to an
 * independent reference.
 */
module TypeLists {

  function Head<T>(l: seq<T>): (r: T)
    requires |l| > 0
    ensures r == l[0]
  {
    l[0]
  }

  function Tail<T>(l: seq<T>): (r: seq<T>)
    requires |l| > 0
    ensures [Head(l)] + r == l
  {
    l[1..]
  }

  /** prepend: the element goes in front. */
  function Prepend<T>(l: seq<T>, t: T): (r: seq<T>)
    ensures |r| == |l| + 1 && r[0] == t && r[1..] == l
  {
    [t] + l
  }

  /** append: the element goes at the back. */
  function Append<T>(l: seq<T>, t: T): (r: seq<T>)
    ensures |r| == |l| + 1 && r[|l|] == t && r[..|l|] == l
  {
    l + [t]
  }

  /** append_if: the element goes at the back exactly when it satisfies the predicate. */
  function AppendIf<T>(l: seq<T>, t: T, p: T -> bool): (r: seq<T>)
    ensures p(t) ==> r == Append(l, t)
    ensures !p(t) ==> r == l
  {
    if p(t) then Append(l, t) else l
  }

  /** concat: the first list followed by the second. */
  function Concat<T>(a: seq<T>, b: seq<T>): (r: seq<T>)
    ensures |r| == |a| + |b|
    ensures r[..|a|] == a && r[|a|..] == b
  {
    a + b
  }

  /** The reversal as a closed form: position i holds element |l|-1-i. */
  ghost function Reversed<T>(l: seq<T>): seq<T>
  {
    seq(|l|, i requires 0 <= i < |l| => l[|l| - 1 - i])
  }

  /** reverse<List, Out>: moves elements one by one onto the front of the accumulator. */
  function ReverseAcc<T>(l: seq<T>, out: seq<T>): (r: seq<T>)
    ensures r == Reversed(l) + out
  {
    if l == [] then out
    else
      var r := ReverseAcc(l[1..], Prepend(out, l[0]));
      assert Reversed(l[1..]) + [l[0]] == Reversed(l);
      r
  }

  /** reverse_t: reverse with an empty accumulator. */
  function Reverse<T>(l: seq<T>): (r: seq<T>)
    ensures |r| == |l| && forall i :: 0 <= i < |l| ==> r[i] == l[|l| - 1 - i]
  {
    assert Reversed(l) + [] == Reversed(l);
    ReverseAcc(l, [])
  }

  lemma ReverseTwice<T>(l: seq<T>)
    ensures Reverse(Reverse(l)) == l
  {
  }

  /** type_at_index: walks down the tail `index` times. */
  function TypeAtIndex<T>(l: seq<T>, index: nat): (r: T)
    requires index < |l|
    ensures r == l[index]
  {
    if index == 0 then Head(l) else TypeAtIndex(Tail(l), index - 1)
  }

  /**
   * index_of_type<List, T, Index>: `index` counts the elements skipped so far;
   * the result is that count plus the position of the first occurrence.
   * An absent element has no definition (it does not compile).
   */
  function IndexOfTypeFrom<T(==)>(l: seq<T>, t: T, index: nat): (r: nat)
    requires t in l
    ensures index <= r < index + |l| && l[r - index] == t
    ensures forall k :: 0 <= k < r - index ==> l[k] != t
  {
    if l[0] == t then index else IndexOfTypeFrom(l[1..], t, index + 1)
  }

  /** index_of_type_v: the position of the first occurrence. */
  function IndexOfType<T(==)>(l: seq<T>, t: T): (r: nat)
    requires t in l
    ensures r < |l| && l[r] == t && forall k :: 0 <= k < r ==> l[k] != t
  {
    IndexOfTypeFrom(l, t, 0)
  }

  /** The element found at the first index of t is t. */
  lemma AtIndexOfType<T>(l: seq<T>, t: T)
    requires t in l
    ensures TypeAtIndex(l, IndexOfType(l, t)) == t
  {
  }

  /** The reference filter: the satisfying elements, in order. */
  ghost function Kept<T>(l: seq<T>, p: T -> bool): seq<T>
  {
    if l == [] then [] else (if p(l[0]) then [l[0]] else []) + Kept(l[1..], p)
  }

  /** One step of the reference filter. */
  lemma KeptStep<T>(l: seq<T>, p: T -> bool)
    requires l != []
    ensures Kept(l, p) == (if p(l[0]) then [l[0]] else []) + Kept(l[1..], p)
  {
  }

  /** append_if as concatenation with a list of at most one element. */
  lemma AppendIfAppends<T>(l: seq<T>, t: T, p: T -> bool)
    ensures AppendIf(l, t, p) == l + (if p(t) then [t] else [])
  {
  }

  /** filter<List, P, Accum>: each head is appended to the accumulator if it satisfies P. */
  function FilterAcc<T>(l: seq<T>, p: T -> bool, acc: seq<T>): (r: seq<T>)
    ensures r == acc + Kept(l, p)
  {
    if l == [] then acc
    else
      var first := if p(l[0]) then [l[0]] else [];
      var next := AppendIf(acc, l[0], p);
      var r := FilterAcc(l[1..], p, next);
      KeptStep(l, p);
      AppendIfAppends(acc, l[0], p);
      assert next == acc + first;
      assert r == (acc + first) + Kept(l[1..], p);
      r
  }

  /** filter_t: filter with an empty accumulator. */
  function Filter<T>(l: seq<T>, p: T -> bool): (r: seq<T>)
    ensures r == Kept(l, p)
  {
    FilterAcc(l, p, [])
  }

  /** The kept elements are exactly the satisfying elements of the list. */
  lemma {:induction false} KeptMembers<T>(l: seq<T>, p: T -> bool, x: T)
    ensures x in Kept(l, p) <==> x in l && p(x)
  {
    if l != [] {
      KeptMembers(l[1..], p, x);
      assert l == [l[0]] + l[1..];
    }
  }

  /** Filtering distributes over concatenation, so the original order is kept. */
  lemma {:induction false} KeptConcat<T>(a: seq<T>, b: seq<T>, p: T -> bool)
    ensures Kept(a + b, p) == Kept(a, p) + Kept(b, p)
  {
    if a == [] {
      assert a + b == b;
    } else {
      assert (a + b)[0] == a[0] && (a + b)[1..] == a[1..] + b;
      KeptConcat(a[1..], b, p);
      var first := if p(a[0]) then [a[0]] else [];
      assert Kept(a + b, p) == first + (Kept(a[1..], p) + Kept(b, p));
    }
  }

  /** A list whose elements all satisfy the predicate is kept whole. */
  lemma {:induction false} KeptAll<T>(l: seq<T>, p: T -> bool)
    requires forall i :: 0 <= i < |l| ==> p(l[i])
    ensures Kept(l, p) == l
  {
    if l != [] {
      KeptAll(l[1..], p);
    }
  }

  /** misc.hpp's negate: the predicate's complement. */
  function Negate<T(!new)>(p: T -> bool): (q: T -> bool)
    ensures forall x :: q(x) == !p(x)
  {
    x => !p(x)
  }

  /** remove_if: filter by the negated predicate. */
  function RemoveIf<T(!new)>(l: seq<T>, p: T -> bool): (r: seq<T>)
    ensures r == Kept(l, Negate(p))
    ensures forall x :: x in r <==> x in l && !p(x)
  {
    forall x ensures x in Filter(l, Negate(p)) <==> x in l && !p(x) {
      KeptMembers(l, Negate(p), x);
    }
    Filter(l, Negate(p))
  }

  /** remove: remove_if with "is the same type as t". */
  function Remove<T(==,!new)>(l: seq<T>, t: T): (r: seq<T>)
    ensures t !in r
    ensures forall x :: x != t ==> (x in r <==> x in l)
  {
    RemoveIf(l, x => x == t)
  }

  /** Removing splits over concatenation, so what remains keeps its order. */
  lemma RemoveConcat<T(!new)>(a: seq<T>, b: seq<T>, t: T)
    ensures Remove(a + b, t) == Remove(a, t) + Remove(b, t)
  {
    KeptConcat(a, b, Negate(x => x == t));
  }

  /** reorder: the elements at the given indices, in index order. */
  function Reorder<T>(l: seq<T>, indices: seq<nat>): (r: seq<T>)
    requires forall k :: 0 <= k < |indices| ==> indices[k] < |l|
    ensures |r| == |indices| && forall k :: 0 <= k < |indices| ==> r[k] == l[indices[k]]
  {
    seq(|indices|, k requires 0 <= k < |indices| => TypeAtIndex(l, indices[k]))
  }

  /** order: for every element, its first index in the reference list. */
  function Order<T(==)>(l: seq<T>, reference: seq<T>): (r: seq<nat>)
    requires forall k :: 0 <= k < |l| ==> l[k] in reference
    ensures |r| == |l| && forall k :: 0 <= k < |l| ==> r[k] < |reference| && reference[r[k]] == l[k]
  {
    seq(|l|, k requires 0 <= k < |l| => IndexOfType(reference, l[k]))
  }

  /** Reordering the reference by the order of a list rebuilds that list. */
  lemma ReorderOrder<T>(l: seq<T>, reference: seq<T>)
    requires forall k :: 0 <= k < |l| ==> l[k] in reference
    ensures Reorder(reference, Order(l, reference)) == l
  {
  }

  /** type_transform: the meta-function applied to every element. */
  function Transform<T, U>(l: seq<T>, f: T -> U): (r: seq<U>)
    ensures |r| == |l| && forall i :: 0 <= i < |l| ==> r[i] == f(l[i])
  {
    seq(|l|, i requires 0 <= i < |l| => f(l[i]))
  }

  /** Where B<remaining[i], l[j]> lands: block i of n entries, entry j. */
  function Pos(i: nat, n: nat, j: nat): nat
  {
    i * n + j
  }

  /**
   * for_each_combination<List, B, Remaining>: for each element a of
   * `remaining` in turn, B<a, b> for every b of the list.
   */
  function ForEachCombinationFrom<T, U>(l: seq<T>, b: (T, T) -> U, remaining: seq<T>): (r: seq<U>)
    ensures |r| == |remaining| * |l|
    ensures forall i, j :: 0 <= i < |remaining| && 0 <= j < |l| ==>
              Pos(i, |l|, j) < |r| && r[Pos(i, |l|, j)] == b(remaining[i], l[j])
  {
    if remaining == [] then []
    else
      var current := Transform(l, x => b(remaining[0], x));
      var rest := ForEachCombinationFrom(l, b, remaining[1..]);
      CombinationBlocks(l, b, remaining, current, rest);
      current + rest
  }

  /** The block for the first remaining element, followed by the blocks for the others. */
  lemma CombinationBlocks<T, U>(l: seq<T>, b: (T, T) -> U, remaining: seq<T>, current: seq<U>, rest: seq<U>)
    requires |remaining| > 0
    requires |current| == |l| && forall j :: 0 <= j < |l| ==> current[j] == b(remaining[0], l[j])
    requires |rest| == (|remaining| - 1) * |l|
    requires forall i, j :: 0 <= i < |remaining| - 1 && 0 <= j < |l| ==>
               Pos(i, |l|, j) < |rest| && rest[Pos(i, |l|, j)] == b(remaining[1..][i], l[j])
    ensures |current + rest| == |remaining| * |l|
    ensures forall i, j :: 0 <= i < |remaining| && 0 <= j < |l| ==>
              Pos(i, |l|, j) < |current + rest| && (current + rest)[Pos(i, |l|, j)] == b(remaining[i], l[j])
  {
    BlockLength(|remaining|, |l|);
    forall i, j | 0 <= i < |remaining| && 0 <= j < |l|
      ensures Pos(i, |l|, j) < |current + rest| && (current + rest)[Pos(i, |l|, j)] == b(remaining[i], l[j])
    {
      if i == 0 {
        assert Pos(i, |l|, j) == j;
      } else {
        var k := Pos(i - 1, |l|, j);
        assert Pos(i, |l|, j) == |l| + k by { BlockOffset(i, |l|, j); }
        assert k < |rest| && rest[k] == b(remaining[1..][i - 1], l[j]);
        assert remaining[i] == remaining[1..][i - 1];
        assert (current + rest)[|l| + k] == rest[k];
      }
    }
  }

  lemma BlockLength(m: nat, n: nat)
    requires m > 0
    ensures m * n == n + (m - 1) * n
  {
  }

  lemma BlockOffset(i: nat, n: nat, j: nat)
    requires i > 0
    ensures Pos(i, n, j) == n + Pos(i - 1, n, j)
  {
  }

  /** for_each_combination_t: every ordered pair, the first element in the outer loop. */
  function ForEachCombination<T, U>(l: seq<T>, b: (T, T) -> U): (r: seq<U>)
    ensures |r| == |l| * |l|
    ensures forall i, j :: 0 <= i < |l| && 0 <= j < |l| ==> Pos(i, |l|, j) < |r| && r[Pos(i, |l|, j)] == b(l[i], l[j])
  {
    ForEachCombinationFrom(l, b, l)
  }

  /** push: the element goes on top, which is the front. */
  function Push<T>(stack: seq<T>, t: T): (r: seq<T>)
    ensures |r| == |stack| + 1 && r[0] == t && r[1..] == stack
  {
    [t] + stack
  }

  /** top: the element on top of a non-empty stack. */
  function Top<T>(stack: seq<T>): (r: T)
    requires |stack| > 0
    ensures r == stack[0]
  {
    stack[0]
  }

  /** pop: a non-empty stack without its top. */
  function Pop<T>(stack: seq<T>): (r: seq<T>)
    requires |stack| > 0
    ensures |r| == |stack| - 1 && r == stack[1..]
  {
    stack[1..]
  }

  /** Push and pop are inverse: top of a push is the pushed element, and pop undoes it; popping then pushing the top restores a non-empty stack. */
  lemma PushPop<T>(stack: seq<T>, t: T)
    ensures Top(Push(stack, t)) == t && Pop(Push(stack, t)) == stack
    ensures |stack| > 0 ==> Push(Pop(stack), Top(stack)) == stack
  {
  }
}
