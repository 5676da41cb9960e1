/**
 * small_vector: a sequence kept in a fixed inline buffer while it has at
 * most `maxStack` elements and in a heap vector once it has more. The inline
 * buffer is an array; the heap vector is a sequence; `size` is the element
 * count. Every operation is specified against the logical contents
 * `Contents()`, and the place the elements live is observable only through
 * OnStack().
 */
module SmallVectors {

  /**
   * max_stack_size: the inline storage holds the larger of the requested
   * buffer size and the size of a heap vector, in bytes, and the element
   * capacity is how many whole elements fit.
   */
  function MaxStackSize(stackBufferBytes: nat, vectorBytes: nat, elementBytes: nat): (r: nat)
    requires elementBytes > 0
    ensures var bytes := if stackBufferBytes >= vectorBytes then stackBufferBytes else vectorBytes;
            r * elementBytes <= bytes < (r + 1) * elementBytes
  {
    var bytes := if stackBufferBytes >= vectorBytes then stackBufferBytes else vectorBytes;
    bytes / elementBytes
  }

  /** The sequence with its first |src| entries replaced by src. */
  lemma CopiedSeq<T>(s: seq<T>, r: seq<T>, src: seq<T>)
    requires |r| == |s| && |src| <= |s|
    requires forall k :: 0 <= k < |src| ==> r[k] == src[k]
    requires forall k :: |src| <= k < |r| ==> r[k] == s[k]
    ensures r == src + s[|src|..]
  {
  }

  /** The sequence with the entries from..end moved down to start at `to`. */
  lemma ShiftedSeq<T>(s: seq<T>, r: seq<T>, to: nat, from: nat, end: nat)
    requires to <= from <= end <= |s| == |r|
    requires forall k :: 0 <= k < to ==> r[k] == s[k]
    requires forall k :: to <= k < to + (end - from) ==> r[k] == s[k - to + from]
    requires forall k :: to + (end - from) <= k < |r| ==> r[k] == s[k]
    ensures r == s[..to] + s[from..end] + s[to + (end - from)..]
  {
    var t := s[..to] + s[from..end] + s[to + (end - from)..];
    forall k | 0 <= k < |r| ensures r[k] == t[k] {
      if k < to {
        assert t[k] == s[..to][k];
      } else if k < to + (end - from) {
        assert t[k] == s[from..end][k - to];
      } else {
        assert t[k] == s[to + (end - from)..][k - to - (end - from)];
      }
    }
  }

  /**
   * The constructors take the inline element capacity as `capacity`: it
   * stands for MaxStackSize of the template's StackBufferSize, the size of
   * std::vector<T> and sizeof(T), which the byte-level model leaves out.
   */
  class SmallVector<T(0)> {
    const maxStack: nat
    const stack: array<T>
    var heap: seq<T>
    var size: nat

    ghost predicate Valid()
      reads this
    {
      && stack.Length == maxStack
      && (size > maxStack ==> |heap| == size)
      && (size <= maxStack ==> heap == [])
    }

    /** The elements, in order, wherever they are stored. */
    ghost function Contents(): seq<T>
      reads this, stack
      requires Valid()
    {
      if size > maxStack then heap else stack[..size]
    }

    /** std::copy into the inline buffer: the first |src| slots become src, the rest stay. */
    static method CopyInto(dst: array<T>, src: seq<T>)
      requires |src| <= dst.Length
      modifies dst
      ensures dst[..] == src + old(dst[..])[|src|..]
    {
      ghost var s := dst[..];
      var i := 0;
      while i < |src|
        invariant 0 <= i <= |src|
        invariant forall k :: 0 <= k < i ==> dst[k] == src[k]
        invariant forall k :: i <= k < dst.Length ==> dst[k] == s[k]
      {
        dst[i] := src[i];
        i := i + 1;
      }
      CopiedSeq(s, dst[..], src);
    }

    /**
     * std::copy(from, end, to) inside the inline buffer, with to <= from:
     * the slots from..end move down to start at `to`; nothing past the
     * written range changes.
     */
    static method ShiftDown(a: array<T>, to: nat, from: nat, end: nat)
      requires to <= from <= end <= a.Length
      modifies a
      ensures a[..] == old(a[..])[..to] + old(a[..])[from..end] + old(a[..])[to + (end - from)..]
    {
      ghost var s := a[..];
      var j := 0;
      while j < end - from
        invariant 0 <= j <= end - from
        invariant forall k :: 0 <= k < to ==> a[k] == s[k]
        invariant forall k :: to <= k < to + j ==> a[k] == s[k - to + from]
        invariant forall k :: to + j <= k < a.Length ==> a[k] == s[k]
      {
        assert a[from + j] == s[from + j];
        a[to + j] := a[from + j];
        j := j + 1;
      }
      ShiftedSeq(s, a[..], to, from, end);
    }

    /** The default constructor: empty, on the stack. */
    constructor (capacity: nat)
      ensures Valid() && maxStack == capacity && fresh(stack)
      ensures Contents() == []
    {
      maxStack := capacity;
      stack := new T[capacity];
      heap := [];
      size := 0;
    }

    /** The initializer-list constructor: the same elements in the same order. */
    constructor FromList(capacity: nat, init: seq<T>)
      ensures Valid() && maxStack == capacity && fresh(stack)
      ensures Contents() == init
    {
      maxStack := capacity;
      size := |init|;
      stack := new T[capacity];
      if |init| > capacity {
        heap := init;
      } else {
        heap := [];
      }
      new;
      if |init| <= capacity {
        CopyInto(stack, init);
        assert stack[..size] == init;
      }
    }

    /** The count constructor: `count` value-initialised elements (`blank` stands for T{}). */
    constructor Count(capacity: nat, count: nat, blank: T)
      ensures Valid() && maxStack == capacity && fresh(stack)
      ensures Contents() == seq(count, _ => blank)
    {
      maxStack := capacity;
      size := count;
      stack := new T[capacity];
      if count > capacity {
        heap := seq(count, _ => blank);
      } else {
        heap := [];
      }
      new;
      if count <= capacity {
        CopyInto(stack, seq(count, _ => blank));
        assert stack[..size] == seq(count, _ => blank);
      }
    }

    /**
     * The (count, value) constructor as written: `size_` is never
     * initialised, so the branch taken and the resulting size are decided by
     * whatever value the member holds (`indeterminate`), not by `count`.
     */
    constructor FilledAsWritten(capacity: nat, count: nat, value: T, indeterminate: nat)
      ensures maxStack == capacity && stack.Length == capacity && size == indeterminate && fresh(stack)
      ensures indeterminate > capacity ==> heap == seq(count, _ => value)
      ensures indeterminate <= capacity ==> Valid() && Contents() == seq(indeterminate, _ => value)
    {
      maxStack := capacity;
      size := indeterminate;
      stack := new T[capacity];
      if indeterminate > capacity {
        heap := seq(count, _ => value);
      } else {
        heap := [];
      }
      new;
      if size <= maxStack {
        CopyInto(stack, seq(size, _ => value));
        assert stack[..size] == seq(size, _ => value);
      }
    }

    /** The (count, value) constructor as intended: `count` copies of `value`. */
    constructor Filled(capacity: nat, count: nat, value: T)
      ensures Valid() && maxStack == capacity && fresh(stack)
      ensures Contents() == seq(count, _ => value)
    {
      maxStack := capacity;
      size := count;
      stack := new T[capacity];
      if count > capacity {
        heap := seq(count, _ => value);
      } else {
        heap := [];
      }
      new;
      if count <= capacity {
        CopyInto(stack, seq(count, _ => value));
        assert stack[..size] == seq(count, _ => value);
      }
    }

    /**
     * push_back: appends, moving the elements to the heap when the inline
     * buffer is exactly full.
     */
    method PushBack(value: T)
      requires Valid()
      modifies this, stack
      ensures Valid()
      ensures Contents() == old(Contents()) + [value]
    {
      if size > maxStack {
        heap := heap + [value];
      } else if size == maxStack {
        var temp := stack[..size];
        heap := temp + [value];
      } else {
        stack[size] := value;
        assert stack[..size + 1] == old(stack[..size]) + [value];
      }
      size := size + 1;
    }

    /**
     * pop_back: removes the last element, moving the rest back into the
     * inline buffer when the size drops to the capacity. The code does not
     * guard against an empty vector.
     */
    method PopBack()
      requires Valid() && size > 0
      modifies this, stack
      ensures Valid()
      ensures Contents() == old(Contents())[..old(size) - 1]
    {
      if size > maxStack + 1 {
        heap := heap[..|heap| - 1];
      } else if size == maxStack + 1 {
        var temp := heap;
        heap := [];
        CopyInto(stack, temp[..|temp| - 1]);
        assert stack[..size - 1] == temp[..|temp| - 1];
      }
      size := size - 1;
    }

    /** erase(pos): removes the element at offset `pos` and returns that same offset. */
    method Erase(pos: nat) returns (r: nat)
      requires Valid() && pos < size
      modifies this, stack
      ensures Valid()
      ensures r == pos
      ensures Contents() == old(Contents())[..pos] + old(Contents())[pos + 1..]
    {
      if size > maxStack + 1 {
        heap := heap[..pos] + heap[pos + 1..];
      } else if size == maxStack + 1 {
        var temp := heap[..pos] + heap[pos + 1..];
        heap := [];
        CopyInto(stack, temp);
        assert stack[..size - 1] == temp;
      } else {
        ShiftDown(stack, pos, pos + 1, size);
        assert stack[..size - 1] == old(stack[..size])[..pos] + old(stack[..size])[pos + 1..];
      }
      size := size - 1;
      r := pos;
    }

    /**
     * erase(first, last): removes the offsets first..last, keeping the
     * order of the rest, and returns the offset `first`.
     */
    method EraseRange(first: nat, last: nat) returns (r: nat)
      requires Valid() && first <= last <= size
      modifies this, stack
      ensures Valid()
      ensures r == first
      ensures Contents() == old(Contents())[..first] + old(Contents())[last..]
    {
      var eraseSize := last - first;
      if size > maxStack + eraseSize {
        heap := heap[..first] + heap[last..];
      } else if size <= maxStack {
        if last < size {
          ShiftDown(stack, first, last, size);
        }
        assert stack[..size - eraseSize] == old(stack[..size])[..first] + old(stack[..size])[last..];
      } else {
        var temp := heap[..first] + heap[last..];
        heap := [];
        CopyInto(stack, temp);
        assert stack[..size - eraseSize] == temp;
      }
      size := size - eraseSize;
      r := first;
    }

    /** operator[]: element n, read from wherever the elements live. */
    function Get(n: nat): (v: T)
      reads this, stack
      requires Valid() && n < size
      ensures n < |Contents()| && v == Contents()[n]
    {
      if size > maxStack then heap[n] else stack[n]
    }

    /** front: the first element. */
    function Front(): (v: T)
      reads this, stack
      requires Valid() && size > 0
      ensures Contents() != [] && v == Contents()[0]
    {
      if size > maxStack then heap[0] else stack[0]
    }

    /** back: the last element. */
    function Back(): (v: T)
      reads this, stack
      requires Valid() && size > 0
      ensures Contents() != [] && v == Contents()[|Contents()| - 1]
    {
      if size > maxStack then heap[|heap| - 1] else stack[size - 1]
    }

    /** size: the number of elements. */
    function Size(): (r: nat)
      reads this, stack
      requires Valid()
      ensures r == |Contents()|
    {
      size
    }

    /** empty: no elements. */
    function Empty(): (r: bool)
      reads this, stack
      requires Valid()
      ensures r <==> Contents() == []
    {
      size == 0
    }

    /** on_stack: the elements are in the inline buffer exactly when they fit in it. */
    function OnStack(): (r: bool)
      reads this, stack
      requires Valid()
      ensures r <==> |Contents()| <= maxStack
      ensures r ==> Contents() == stack[..|Contents()|]
    {
      size <= maxStack
    }
  }

  /**
   * With the member left at 0, the (count, value) constructor as written
   * yields an empty vector whatever count it was given.
   */
  method FilledAsWrittenWitness() returns (v: SmallVector<int>)
    ensures v.Valid() && v.Contents() == [] && v.Size() != 3
  {
    v := new SmallVector<int>.FilledAsWritten(4, 3, 7, 0);
  }

  /** The corrected constructor yields count copies of the value. */
  method FilledWitness() returns (v: SmallVector<int>)
    ensures v.Valid() && v.Contents() == [7, 7, 7] && v.Size() == 3 && v.OnStack()
  {
    v := new SmallVector<int>.Filled(4, 3, 7);
  }

  /** Pushing past the capacity moves the elements to the heap in order; popping moves them back. */
  method StackHeapRoundTrip() returns (v: SmallVector<int>)
    ensures v.Valid() && v.Contents() == [1, 2] && v.OnStack()
  {
    v := new SmallVector<int>(2);
    v.PushBack(1);
    v.PushBack(2);
    v.PushBack(3);
    assert !v.OnStack() && v.Contents() == [1, 2, 3];
    v.PopBack();
  }
}
