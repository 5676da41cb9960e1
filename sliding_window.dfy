/**
 * sliding_window: a fixed-size ring buffer read through a head iterator.
 * The head is a circular iterator over the buffer; the model keeps its raw
 * index `head`, so window slot k is buffer slot local_index(head + k).
 * push_back overwrites the oldest value and advances the head; push_front
 * moves the head back and overwrites the newest value.
 *
 * sliding_window_map: a sliding window addressed by integer keys, with the
 * key `origin` at window slot 0, at the unit precision 1/1.
 */
module SlidingWindows {
  import opened Wrappers
  import opened CircularIterators

  // ---------------------------------------------------------------------
  // Windows as sequences: what each operation does to the values in view.

  /** push_back on the values in view: the oldest leaves at the front, v enters at the back. */
  function PushedBack<T>(w: seq<T>, v: T): (r: seq<T>)
    requires |w| > 0
    ensures |r| == |w| && r[|r| - 1] == v
    ensures forall i :: 0 <= i < |w| - 1 ==> r[i] == w[i + 1]
  {
    w[1..] + [v]
  }

  /** push_front on the values in view: v enters at the front, the newest leaves at the back. */
  function PushedFront<T>(w: seq<T>, v: T): (r: seq<T>)
    requires |w| > 0
    ensures |r| == |w| && r[0] == v
    ensures forall i :: 1 <= i < |w| ==> r[i] == w[i - 1]
  {
    [v] + w[..|w| - 1]
  }

  /** n successive push_back(v). */
  function PushedBackTimes<T>(w: seq<T>, v: T, n: nat): (r: seq<T>)
    requires |w| > 0
    ensures |r| == |w|
  {
    if n == 0 then w else PushedBack(PushedBackTimes(w, v, n - 1), v)
  }

  /** n successive push_front(v). */
  function PushedFrontTimes<T>(w: seq<T>, v: T, n: nat): (r: seq<T>)
    requires |w| > 0
    ensures |r| == |w|
  {
    if n == 0 then w else PushedFront(PushedFrontTimes(w, v, n - 1), v)
  }

  /** push_back of each of vs in turn. */
  function PushedAll<T>(w: seq<T>, vs: seq<T>): (r: seq<T>)
    requires |w| > 0
    ensures |r| == |w|
  {
    if vs == [] then w else PushedBack(PushedAll(w, vs[..|vs| - 1]), vs[|vs| - 1])
  }

  /** n push_backs of v leave the last |w| values of w followed by n copies of v. */
  lemma {:induction false} PushedBackTimesClosed<T>(w: seq<T>, v: T, n: nat)
    requires |w| > 0
    ensures PushedBackTimes(w, v, n) == (w + seq(n, _ => v))[n..]
  {
    if n > 0 {
      PushedBackTimesClosed(w, v, n - 1);
      assert w + seq(n, _ => v) == (w + seq(n - 1, _ => v)) + [v];
    }
  }

  /** n push_fronts of v leave n copies of v followed by the first values of w, |w| in all. */
  lemma {:induction false} PushedFrontTimesClosed<T>(w: seq<T>, v: T, n: nat)
    requires |w| > 0
    ensures PushedFrontTimes(w, v, n) == (seq(n, _ => v) + w)[..|w|]
  {
    if n > 0 {
      PushedFrontTimesClosed(w, v, n - 1);
      assert seq(n, _ => v) + w == [v] + (seq(n - 1, _ => v) + w);
    }
  }

  /** Pushing vs leaves the last |w| values of w followed by vs. */
  lemma {:induction false} PushedAllClosed<T>(w: seq<T>, vs: seq<T>)
    requires |w| > 0
    ensures PushedAll(w, vs) == (w + vs)[|vs|..]
  {
    if vs != [] {
      var init := vs[..|vs| - 1];
      PushedAllClosed(w, init);
      assert w + vs == (w + init) + [vs[|vs| - 1]];
    }
  }

  /** Exactly |w| values pushed replace the whole window, in order. */
  lemma FullRangeFillsWindow<T>(w: seq<T>, vs: seq<T>)
    requires |w| > 0 && |vs| == |w|
    ensures PushedAll(w, vs) == vs
  {
    PushedAllClosed(w, vs);
    assert (w + vs)[|vs|..] == vs;
  }

  /** Fewer values than the window holds end up at its back, after what remains of w. */
  lemma ShortRangeEndsWindow<T>(w: seq<T>, vs: seq<T>)
    requires |w| > 0 && |vs| < |w|
    ensures PushedAll(w, vs) == w[|vs|..] + vs
  {
    PushedAllClosed(w, vs);
    assert (w + vs)[|vs|..] == w[|vs|..] + vs;
  }

  // ---------------------------------------------------------------------
  // The ring buffer seen from a head index.

  /** Window slot k is buffer slot (head + k) mod |buf|. */
  ghost function View<T>(buf: seq<T>, head: int): (w: seq<T>)
    requires |buf| > 0
    ensures |w| == |buf|
  {
    seq(|buf|, k requires 0 <= k < |buf| => buf[(head + k) % |buf|])
  }

  /** Advancing the head by one rotates the view left by one. */
  lemma ViewRotate<T>(buf: seq<T>, head: int)
    requires |buf| > 0
    ensures View(buf, head + 1) == View(buf, head)[1..] + [View(buf, head)[0]]
  {
    var n := |buf|;
    LocalIndexPeriodic(head, n, 1);
    assert (head + 1 + (n - 1)) % n == head % n;
  }

  /** Writing buffer slot (head + k0) mod |buf| changes window slot k0 and no other. */
  lemma ViewUpdate<T>(buf: seq<T>, head: int, k0: nat, v: T)
    requires 0 <= k0 < |buf|
    ensures View(buf[(head + k0) % |buf| := v], head) == View(buf, head)[k0 := v]
  {
    var n := |buf|;
    var buf' := buf[(head + k0) % n := v];
    forall k | 0 <= k < n ensures View(buf', head)[k] == View(buf, head)[k0 := v][k] {
      if k < k0 {
        LocalIndexInjective(head + k, head + k0, n);
      } else if k0 < k {
        LocalIndexInjective(head + k0, head + k, n);
      }
    }
  }

  /** A raw offset n reaches the same slot as n mod |buf|. */
  lemma OffsetWraps(head: int, n: nat, size: int)
    requires size > 0
    ensures (head + n) % size == (head + n % size) % size
  {
    var q, r := n / size, n % size;
    var q1, r1 := (head + r) / size, (head + r) % size;
    assert n == size * q + r;
    assert head + r == size * q1 + r1;
    assert head + n == size * (q1 + q) + r1;
    ModUnique(head + n, size, q1 + q, r1);
  }

  /** One ring-buffer push_back step: write at the head, then advance it. */
  lemma ViewPushBack<T>(buf: seq<T>, head: int, v: T)
    requires |buf| > 0
    ensures View(buf[head % |buf| := v], head + 1) == PushedBack(View(buf, head), v)
  {
    var buf' := buf[head % |buf| := v];
    ViewUpdate(buf, head, 0, v);
    ViewRotate(buf', head);
  }

  /** One ring-buffer push_front step: move the head back, then write at it. */
  lemma ViewPushFront<T>(buf: seq<T>, head: int, v: T)
    requires |buf| > 0
    ensures View(buf[(head - 1) % |buf| := v], head - 1) == PushedFront(View(buf, head), v)
  {
    ViewUpdate(buf, head - 1, 0, v);
    ViewRotate(buf, head - 1);
  }

  /**
   * The outcome insert_or_assign promises, on a window w0 at origin o0 that
   * becomes w1 at origin o1: k is in view and holds v; every other key in
   * view keeps the value it had, or holds a blank if it was not in view.
   */
  ghost predicate Assigned<T>(w0: seq<T>, o0: int, w1: seq<T>, o1: int, k: int, v: T, blank: T)
  {
    && |w1| == |w0|
    && o1 <= k < o1 + |w1| && w1[k - o1] == v
    && forall j :: 0 <= j < |w1| && o1 + j != k ==>
         w1[j] == if o0 <= o1 + j < o0 + |w0| then w0[o1 + j - o0] else blank
  }

  /** A key below the window: blanks pushed at the front until k is slot 0, then v written there. */
  lemma AssignBelow<T>(w0: seq<T>, o0: int, k: int, v: T, blank: T)
    requires |w0| > 0 && k < o0
    ensures Assigned(w0, o0, PushedFrontTimes(w0, blank, o0 - k)[0 := v], k, k, v, blank)
  {
    PushedFrontTimesClosed(w0, blank, o0 - k);
  }

  /** Slot j after n push_backs of a blank: a value of w still in view, or a blank. */
  lemma PushedBackTimesAt<T>(w: seq<T>, blank: T, n: nat, j: nat)
    requires |w| > 0 && j < |w|
    ensures PushedBackTimes(w, blank, n)[j] == if n + j < |w| then w[n + j] else blank
  {
    PushedBackTimesClosed(w, blank, n);
    var pad := seq(n, _ => blank);
    assert PushedBackTimes(w, blank, n)[j] == (w + pad)[n + j];
    if n + j >= |w| {
      assert (w + pad)[n + j] == pad[n + j - |w|];
    }
  }

  /**
   * A key above the window, n slots past its last one: n blanks pushed at
   * the back make k the last slot, then v is written there.
   */
  lemma AssignAbove<T>(w0: seq<T>, o0: int, n: nat, v: T, blank: T, w1: seq<T>, o1: int, k: int)
    requires |w0| > 0 && n >= 1
    requires w1 == PushedBackTimes(w0, blank, n)[|w0| - 1 := v] && o1 == o0 + n && k == o1 + |w0| - 1
    ensures Assigned(w0, o0, w1, o1, k, v, blank)
  {
    forall j | 0 <= j < |w1| && o1 + j != k
      ensures w1[j] == if o0 <= o1 + j < o0 + |w0| then w0[o1 + j - o0] else blank
    {
      PushedBackTimesAt(w0, blank, n, j);
    }
  }

  /** A key in view: only its own slot changes. */
  lemma AssignWithin<T>(w0: seq<T>, o0: int, k: int, v: T, blank: T)
    requires o0 <= k < o0 + |w0|
    ensures Assigned(w0, o0, w0[k - o0 := v], o0, k, v, blank)
  {
  }

  class SlidingWindow<T(==)> {
    const buffer: array<T>
    var head: int

    ghost predicate Valid()
      reads this
    {
      buffer.Length > 0
    }

    /** The values in view, from front to back. */
    ghost function Window(): seq<T>
      reads this, buffer
      requires Valid()
    {
      View(buffer[..], head)
    }

    /** size: the template parameter Size. */
    function Size(): (r: nat)
      reads this
      requires Valid()
      ensures r > 0
    {
      buffer.Length
    }

    /** The default constructor: a value-initialised buffer (`blank` stands for T{}), head at slot 0. */
    constructor (size: nat, blank: T)
      requires size > 0
      ensures Valid() && fresh(buffer) && head == 0
      ensures Window() == seq(size, _ => blank)
    {
      buffer := new T[size](_ => blank);
      head := 0;
    }

    /**
     * The range and initializer-list constructors: each value is written at
     * the head, which then advances.
     */
    constructor FromRange(size: nat, blank: T, values: seq<T>)
      requires size > 0
      ensures Valid() && fresh(buffer) && head == |values|
      ensures Window() == PushedAll(seq(size, _ => blank), values)
    {
      buffer := new T[size](_ => blank);
      head := 0;
      new;
      var i := 0;
      while i < |values|
        invariant 0 <= i <= |values| && head == i
        invariant Window() == PushedAll(seq(size, _ => blank), values[..i])
      {
        ViewPushBack(buffer[..], head, values[i]);
        buffer[LocalIndex(head, size)] := values[i];
        head := head + 1;
        assert values[..i + 1][..i] == values[..i];
        i := i + 1;
      }
      assert values[..i] == values;
    }

    /** push_back(v): write at the head, then advance it. */
    method PushBack(value: T)
      requires Valid()
      modifies this, buffer
      ensures Valid() && head == old(head) + 1
      ensures Window() == PushedBack(old(Window()), value)
    {
      ViewPushBack(buffer[..], head, value);
      buffer[LocalIndex(head, buffer.Length)] := value;
      head := head + 1;
    }

    /** push_back(v, n): fill n slots from the head on, then advance it by n. */
    method PushBackN(value: T, n: nat)
      requires Valid()
      modifies this, buffer
      ensures Valid() && head == old(head) + n
      ensures Window() == PushedBackTimes(old(Window()), value, n)
    {
      var i := 0;
      while i < n
        invariant 0 <= i <= n && head == old(head)
        invariant View(buffer[..], head + i) == PushedBackTimes(old(Window()), value, i)
      {
        ViewPushBack(buffer[..], head + i, value);
        buffer[LocalIndex(head + i, buffer.Length)] := value;
        i := i + 1;
      }
      head := head + n;
    }

    /** push_front(v): move the head back, then write at it. */
    method PushFront(value: T)
      requires Valid()
      modifies this, buffer
      ensures Valid() && head == old(head) - 1
      ensures Window() == PushedFront(old(Window()), value)
    {
      ViewPushFront(buffer[..], head, value);
      head := head - 1;
      buffer[LocalIndex(head, buffer.Length)] := value;
    }

    /** push_front(v, n): fill n slots backwards from before the head, then move it back by n. */
    method PushFrontN(value: T, n: nat)
      requires Valid()
      modifies this, buffer
      ensures Valid() && head == old(head) - n
      ensures Window() == PushedFrontTimes(old(Window()), value, n)
    {
      var i := 0;
      while i < n
        invariant 0 <= i <= n && head == old(head)
        invariant View(buffer[..], head - i) == PushedFrontTimes(old(Window()), value, i)
      {
        ViewPushFront(buffer[..], head - i, value);
        buffer[LocalIndex(head - i - 1, buffer.Length)] := value;
        i := i + 1;
      }
      head := head - n;
    }

    /** front: the value at the head. */
    function Front(): (v: T)
      reads this, buffer
      requires Valid()
      ensures v == Window()[0]
    {
      buffer[LocalIndex(head, buffer.Length)]
    }

    /** back: the value Size - 1 slots after the head. */
    function Back(): (v: T)
      reads this, buffer
      requires Valid()
      ensures v == Window()[Size() - 1]
    {
      buffer[LocalIndex(head + buffer.Length - 1, buffer.Length)]
    }

    /** operator[]: the value n slots after the head, wrapping for n >= Size. */
    function Get(n: nat): (v: T)
      reads this, buffer
      requires Valid()
      ensures v == Window()[n % Size()]
    {
      OffsetWraps(head, n, buffer.Length);
      buffer[LocalIndex(head + n, buffer.Length)]
    }

    /** Assignment through front(). */
    method SetFront(value: T)
      requires Valid()
      modifies buffer
      ensures Window() == old(Window())[0 := value]
    {
      ViewUpdate(buffer[..], head, 0, value);
      buffer[LocalIndex(head, buffer.Length)] := value;
    }

    /** Assignment through back(). */
    method SetBack(value: T)
      requires Valid()
      modifies buffer
      ensures Window() == old(Window())[Size() - 1 := value]
    {
      ViewUpdate(buffer[..], head, buffer.Length - 1, value);
      buffer[LocalIndex(head + buffer.Length - 1, buffer.Length)] := value;
    }

    /** Assignment through operator[]. */
    method SetAt(n: nat, value: T)
      requires Valid()
      modifies buffer
      ensures Window() == old(Window())[n % Size() := value]
    {
      OffsetWraps(head, n, buffer.Length);
      ViewUpdate(buffer[..], head, n % buffer.Length, value);
      buffer[LocalIndex(head + n, buffer.Length)] := value;
    }

    /** operator==: element-wise comparison of the two windows in window order. */
    method Equals(other: SlidingWindow<T>) returns (r: bool)
      requires Valid() && other.Valid() && other.Size() == Size()
      ensures r <==> Window() == other.Window()
    {
      var k := 0;
      while k < buffer.Length
        invariant 0 <= k <= buffer.Length
        invariant Window()[..k] == other.Window()[..k]
      {
        if buffer[LocalIndex(head + k, buffer.Length)] != other.buffer[LocalIndex(other.head + k, buffer.Length)] {
          assert Window()[k] != other.Window()[k];
          return false;
        }
        assert Window()[..k + 1] == Window()[..k] + [Window()[k]];
        assert other.Window()[..k + 1] == other.Window()[..k] + [other.Window()[k]];
        k := k + 1;
      }
      assert Window() == Window()[..k];
      assert other.Window() == other.Window()[..k];
      r := true;
    }
  }

  /**
   * The map with the unit precision 1/1: a key and its window slot differ by
   * the origin alone, so index_of_key's scaling and window()'s products by
   * the precision drop out.
   */
  class SlidingWindowMap<V(==)> {
    const sliding: SlidingWindow<V>
    /** The value-initialised V written into newly exposed slots. */
    const blank: V
    var origin: int

    ghost predicate Valid()
      reads this, sliding
    {
      sliding.Valid()
    }

    function Size(): (r: nat)
      reads this, sliding
      requires Valid()
      ensures r > 0
    {
      sliding.Size()
    }

    /** The default constructor (origin 0) and the origin constructor. */
    constructor (size: nat, blank: V, origin: int)
      requires size > 0
      ensures Valid() && fresh(sliding) && fresh(sliding.buffer) && this.blank == blank && this.origin == origin
      ensures sliding.Window() == seq(size, _ => blank)
    {
      sliding := new SlidingWindow<V>(size, blank);
      this.blank := blank;
      this.origin := origin;
    }

    /** index_of_key: the window slot of a key, relative to the origin. */
    function IndexOfKey(k: int): (i: int)
      reads this
      ensures origin + i == k
    {
      k - origin
    }

    /** window: the half-open key range in view. */
    function KeyRange(): (r: (int, int))
      reads this, sliding
      requires Valid()
      ensures r.1 - r.0 == Size()
      ensures forall k :: r.0 <= k < r.1 <==> 0 <= IndexOfKey(k) < Size()
    {
      (origin, origin + sliding.Size())
    }

    /** The value stored under an in-view key. */
    ghost function ValueOf(k: int): V
      reads this, sliding, sliding.buffer
      requires Valid() && origin <= k < origin + Size()
    {
      sliding.Window()[k - origin]
    }

    /** at: the value under k, or an out-of-range error for a key outside the window. */
    function At(k: int): (r: Result<V>)
      reads this, sliding, sliding.buffer
      requires Valid()
      ensures r.Err? <==> !(origin <= k < origin + Size())
      ensures r.Err? ==> r.error == KeyOutsideWindow
      ensures r.Ok? ==> r.value == ValueOf(k)
    {
      var index := IndexOfKey(k);
      if index < 0 || !(index < sliding.Size()) then Err(KeyOutsideWindow)
      else Ok(sliding.Get(index))
    }

    /** After insert_or_assign(k, v), at(k) yields v. */
    lemma AtAfterAssign(w0: seq<V>, o0: int, k: int, v: V)
      requires Valid() && Assigned(w0, o0, sliding.Window(), origin, k, v, blank)
      ensures At(k) == Ok(v)
    {
    }

    /** operator[]: unchecked access; the key must be in view. */
    function Get(k: int): (v: V)
      reads this, sliding, sliding.buffer
      requires Valid() && origin <= k < origin + Size()
      ensures v == ValueOf(k)
    {
      sliding.Get(k - origin)
    }

    /**
     * insert_or_assign: a key below the window pushes blanks at the front
     * until it is slot 0; a key above pushes blanks at the back until it is
     * the last slot; a key in view is overwritten in place. Either way every
     * other key that stays in view keeps its value and newly exposed keys
     * hold blanks.
     */
    method InsertOrAssign(k: int, v: V)
      requires Valid()
      modifies this, sliding, sliding.buffer
      ensures Valid() && Size() == old(Size())
      ensures k < old(origin) ==> origin == k
      ensures old(origin) + Size() <= k ==> origin == k - Size() + 1
      ensures old(origin) <= k < old(origin) + Size() ==> origin == old(origin)
      ensures Assigned(old(sliding.Window()), old(origin), sliding.Window(), origin, k, v, blank)
    {
      var index := IndexOfKey(k);
      if index < 0 {
        InsertBelow(k, v, index);
      } else if !(index < sliding.Size()) {
        InsertAbove(k, v, index);
      } else {
        AssignInView(k, v, index);
      }
    }

    /** The below-window branch of insert_or_assign. */
    method InsertBelow(k: int, v: V, index: int)
      requires Valid() && index == IndexOfKey(k) && index < 0
      modifies this, sliding, sliding.buffer
      ensures Valid() && Size() == old(Size()) && origin == k
      ensures Assigned(old(sliding.Window()), old(origin), sliding.Window(), origin, k, v, blank)
    {
      ghost var w0 := sliding.Window();
      ghost var o0 := origin;
      sliding.PushFrontN(blank, -index);
      sliding.SetFront(v);
      origin := origin + index;
      AssignBelow(w0, o0, k, v, blank);
      assert sliding.Window() == PushedFrontTimes(w0, blank, o0 - k)[0 := v];
    }

    /** The above-window branch of insert_or_assign. */
    method InsertAbove(k: int, v: V, index: int)
      requires Valid() && index == IndexOfKey(k) && index >= Size()
      modifies this, sliding, sliding.buffer
      ensures Valid() && Size() == old(Size()) && origin == k - Size() + 1
      ensures Assigned(old(sliding.Window()), old(origin), sliding.Window(), origin, k, v, blank)
    {
      ghost var w0 := sliding.Window();
      ghost var o0 := origin;
      var size := sliding.Size();
      sliding.PushBackN(blank, index - size + 1);
      sliding.SetBack(v);
      origin := origin + (index - size + 1);
      AssignAbove(w0, o0, index - size + 1, v, blank, sliding.Window(), origin, k);
    }

    /** The in-view branch of insert_or_assign. */
    method AssignInView(k: int, v: V, index: int)
      requires Valid() && index == IndexOfKey(k) && 0 <= index < Size()
      modifies sliding.buffer
      ensures Assigned(old(sliding.Window()), origin, sliding.Window(), origin, k, v, blank)
    {
      ghost var w0 := sliding.Window();
      ModUnique(index, sliding.Size(), 0, index);
      sliding.SetAt(index, v);
      AssignWithin(w0, origin, k, v, blank);
    }
  }
}
