/**
 * integer_sequence: compile-time packs of integers, here sequences of
 * unbounded integers. Generation from a range and filtering are
 * accumulator-passing recursions; `to_array` yields no array (a null
 * pointer) for the empty pack.
 */
module IntegerSequences {
  import opened Wrappers
  import TypeLists

  /** head_v: the first integer. */
  function Head(s: seq<int>): (r: int)
    requires |s| > 0
    ensures r == s[0]
  {
    s[0]
  }

  /** tail_t: everything after the first integer. */
  function Tail(s: seq<int>): (r: seq<int>)
    requires |s| > 0
    ensures |r| == |s| - 1 && forall i :: 0 <= i < |r| ==> r[i] == s[i + 1]
  {
    s[1..]
  }

  /** Prepending the head to the tail gives back the sequence. */
  lemma HeadTail(s: seq<int>)
    requires |s| > 0
    ensures [Head(s)] + Tail(s) == s
  {
  }

  /** length_v. */
  function Length(s: seq<int>): (r: nat)
    ensures r == |s|
  {
    |s|
  }

  /** append_t: the integer goes at the end and the length grows by one. */
  function Append(s: seq<int>, n: int): (r: seq<int>)
    ensures Length(r) == Length(s) + 1 && r[..|s|] == s && r[|s|] == n
  {
    s + [n]
  }

  /** append_if_t: appends exactly when the predicate holds of the integer. */
  function AppendIf(s: seq<int>, n: int, p: int -> bool): (r: seq<int>)
    ensures p(n) ==> r == Append(s, n)
    ensures !p(n) ==> r == s
  {
    if p(n) then Append(s, n) else s
  }

  /**
   * integer_sequence_from_range<I, Begin, End, Accum>: appends Begin and
   * recurses on Begin + 1 until it reaches End. With Begin > End the
   * recursion never reaches its base case, so Begin <= End is demanded.
   */
  function FromRangeAcc(begin: int, end: int, acc: seq<int>): (r: seq<int>)
    requires begin <= end
    ensures |r| == |acc| + (end - begin) && r[..|acc|] == acc
    ensures forall k :: |acc| <= k < |r| ==> r[k] == begin + (k - |acc|)
    decreases end - begin
  {
    if begin == end then acc
    else
      var r := FromRangeAcc(begin + 1, end, Append(acc, begin));
      assert r[..|acc| + 1][..|acc|] == r[..|acc|];
      assert r[|acc|] == Append(acc, begin)[|acc|];
      r
  }

  /** integer_sequence_from_range_t: Begin, Begin + 1, ..., End - 1. */
  function FromRange(begin: int, end: int): (r: seq<int>)
    requires begin <= end
    ensures |r| == end - begin && forall i :: 0 <= i < |r| ==> r[i] == begin + i
  {
    FromRangeAcc(begin, end, [])
  }

  /** The range holds exactly the integers from Begin up to, not including, End. */
  lemma FromRangeMembers(begin: int, end: int, x: int)
    requires begin <= end
    ensures x in FromRange(begin, end) <==> begin <= x < end
  {
    if begin <= x < end {
      assert FromRange(begin, end)[x - begin] == x;
    }
  }

  /** filter<Seq, P, Accum>: each head is appended to the accumulator if it satisfies P. */
  function FilterAcc(s: seq<int>, p: int -> bool, acc: seq<int>): (r: seq<int>)
    ensures r == acc + TypeLists.Kept(s, p)
  {
    if s == [] then acc
    else
      var next := AppendIf(acc, Head(s), p);
      var r := FilterAcc(Tail(s), p, next);
      TypeLists.KeptStep(s, p);
      assert next == acc + (if p(s[0]) then [s[0]] else []);
      assert r == (acc + (if p(s[0]) then [s[0]] else [])) + TypeLists.Kept(s[1..], p);
      r
  }

  /** filter_t: exactly the integers satisfying the predicate, in their original order. */
  function Filter(s: seq<int>, p: int -> bool): (r: seq<int>)
    ensures r == TypeLists.Kept(s, p)
    ensures forall x :: x in r <==> x in s && p(x)
  {
    forall x ensures x in TypeLists.Kept(s, p) <==> x in s && p(x) {
      TypeLists.KeptMembers(s, p, x);
    }
    FilterAcc(s, p, [])
  }

  /** Filtering a range keeps exactly the range's integers that satisfy the predicate. */
  lemma FilterRange(begin: int, end: int, p: int -> bool, x: int)
    requires begin <= end
    ensures x in Filter(FromRange(begin, end), p) <==> begin <= x < end && p(x)
  {
    FromRangeMembers(begin, end, x);
  }

  /** integer_sequence_to_array: the integers in order, or no array for the empty pack. */
  function ToArray(s: seq<int>): (r: Option<seq<int>>)
    ensures r.None? <==> s == []
    ensures r.Some? ==> r.value == s
  {
    if s == [] then None else Some(s)
  }
}
