/**
 * circular_iterator: an iterator over the positions [first, last) of an
 * underlying random-access range that wraps around. It keeps the range's
 * start `base`, its length `wrapSize` and an unbounded raw `index`; the
 * position it denotes is base + local_index(index).
 *
 * Underlying iterators are modelled as integer positions in the underlying
 * range, so dereferencing yields the position an iterator denotes.
 */
module CircularIterators {

  function Abs(x: int): nat
  {
    if x < 0 then -x else x
  }

  /**
   * C++ `%` on signed integers: truncating division, so the remainder has
   * the sign of the dividend and a magnitude below that of the divisor.
   */
  function TruncRem(i: int, w: int): (r: int)
    requires w != 0
    ensures Abs(r) < Abs(w)
    ensures i >= 0 ==> r >= 0
    ensures i < 0 ==> r <= 0
    ensures (i - r) % Abs(w) == 0
  {
    var m := Abs(i) % Abs(w);
    TruncRemMultiple(i, Abs(w), m);
    if i >= 0 then m else -m
  }

  /** Taking the magnitude's remainder off the dividend, toward zero, leaves a multiple of b. */
  lemma TruncRemMultiple(i: int, b: int, m: int)
    requires b > 0 && m == Abs(i) % b
    ensures i >= 0 ==> (i - m) % b == 0
    ensures i < 0 ==> (i + m) % b == 0
  {
    var q := Abs(i) / b;
    assert Abs(i) == b * q + m;
    if i >= 0 {
      assert i - m == b * q;
      MultipleMod(b, q);
    } else {
      assert i + m == b * -q;
      MultipleMod(b, -q);
    }
  }

  /**
   * local_index: the C++ remainder, moved into [0, wrap) when negative.
   * For a positive wrap size this is the mathematical (Euclidean) residue.
   */
  function LocalIndex(index: int, wrap: int): (r: int)
    requires wrap != 0
    ensures wrap > 0 ==> 0 <= r < wrap && r == index % wrap
  {
    var remainder := TruncRem(index, wrap);
    LocalIndexIsMod(index, wrap);
    if remainder < 0 then wrap + remainder else remainder
  }

  /** Division with remainder determines quotient and remainder uniquely. */
  lemma ModUnique(i: int, w: int, q: int, r: int)
    requires w > 0 && 0 <= r < w && i == w * q + r
    ensures i / w == q && i % w == r
  {
    var q0, r0 := i / w, i % w;
    assert w * (q - q0) == r0 - r;
    if q0 < q {
      MulAtLeast(w, q - q0);
    } else if q < q0 {
      MulAtLeast(w, q0 - q);
    }
  }

  lemma MulAtLeast(w: int, d: int)
    requires w > 0 && d >= 1
    ensures w * d >= w
  {
  }

  /** A multiple of w leaves no remainder. */
  lemma MultipleMod(w: int, q: int)
    requires w > 0
    ensures (w * q) % w == 0
  {
    ModUnique(w * q, w, q, 0);
  }

  /** The corrected C++ remainder is Dafny's Euclidean remainder. */
  lemma LocalIndexIsMod(index: int, wrap: int)
    requires wrap != 0
    ensures wrap > 0 ==> (if TruncRem(index, wrap) < 0 then wrap + TruncRem(index, wrap) else TruncRem(index, wrap)) == index % wrap
  {
    var r := TruncRem(index, wrap);
    if wrap > 0 && index < 0 {
      var q := (-index) / wrap;
      var m := (-index) % wrap;
      assert r == -m;
      if m == 0 {
        ModUnique(index, wrap, -q, 0);
      } else {
        ModUnique(index, wrap, -q - 1, wrap - m);
      }
    }
  }

  /** Shifting a raw index by whole turns does not change where it points. */
  lemma LocalIndexPeriodic(index: int, wrap: int, turns: int)
    requires wrap > 0
    ensures LocalIndex(index + turns * wrap, wrap) == LocalIndex(index, wrap)
  {
    ModUnique(index + turns * wrap, wrap, index / wrap + turns, index % wrap);
  }

  /** Raw indices less than a full turn apart point to different places. */
  lemma LocalIndexInjective(a: int, b: int, wrap: int)
    requires wrap > 0 && a < b < a + wrap
    ensures LocalIndex(a, wrap) != LocalIndex(b, wrap)
  {
    var q, r, d := a / wrap, a % wrap, b - a;
    if r + d < wrap {
      ModUnique(b, wrap, q, r + d);
    } else {
      ModUnique(b, wrap, q + 1, r + d - wrap);
    }
  }

  class CircularIterator {
    const wrapSize: int
    const base: int
    var index: int

    /** The iterator over [first, last) currently at `current`. */
    constructor (first: int, last: int, current: int)
      ensures wrapSize == last - first && index == current - first && base == first
    {
      wrapSize := last - first;
      index := current - first;
      base := first;
    }

    /** A copy. */
    constructor Copy(other: CircularIterator)
      ensures wrapSize == other.wrapSize && index == other.index && base == other.base
    {
      wrapSize := other.wrapSize;
      index := other.index;
      base := other.base;
    }

    /** operator==: raw unwrapped positions agree, so one full turn apart is not equal. */
    function Equals(other: CircularIterator): (r: bool)
      reads this, other
      ensures r <==> base + index == other.base + other.index
    {
      base - other.base == other.index - index
    }

    function NotEquals(other: CircularIterator): (r: bool)
      reads this, other
      ensures r <==> !Equals(other)
    {
      !Equals(other)
    }

    /** operator*: a position inside [base, base + wrapSize) congruent to the raw index. */
    function Deref(): (pos: int)
      reads this
      requires wrapSize != 0
      ensures wrapSize > 0 ==> base <= pos < base + wrapSize && pos - base == index % wrapSize
    {
      base + LocalIndex(index, wrapSize)
    }

    /** operator[]: the element n steps on from the current one. */
    function At(n: int): (pos: int)
      reads this
      requires wrapSize != 0
      ensures wrapSize > 0 ==> base <= pos < base + wrapSize && pos - base == (index + n) % wrapSize
    {
      base + LocalIndex(index + n, wrapSize)
    }

    method Increment()
      modifies this
      ensures index == old(index) + 1
    {
      index := index + 1;
    }

    method Decrement()
      modifies this
      ensures index == old(index) - 1
    {
      index := index - 1;
    }

    /** Postfix ++: advances and hands back a copy of the iterator as it was. */
    method PostIncrement() returns (was: CircularIterator)
      modifies this
      ensures index == old(index) + 1
      ensures fresh(was) && was.index == old(index) && was.base == base && was.wrapSize == wrapSize
    {
      was := new CircularIterator.Copy(this);
      Increment();
    }

    /** Postfix --. */
    method PostDecrement() returns (was: CircularIterator)
      modifies this
      ensures index == old(index) - 1
      ensures fresh(was) && was.index == old(index) && was.base == base && was.wrapSize == wrapSize
    {
      was := new CircularIterator.Copy(this);
      Decrement();
    }

    method AddAssign(n: int)
      modifies this
      ensures index == old(index) + n
    {
      index := index + n;
    }

    method SubAssign(n: int)
      modifies this
      ensures index == old(index) - n
    {
      index := index - n;
    }

    /** it + n (and n + it): a copy moved by n. */
    method Plus(n: int) returns (r: CircularIterator)
      ensures fresh(r) && r.index == index + n && r.base == base && r.wrapSize == wrapSize
    {
      r := new CircularIterator.Copy(this);
      r.AddAssign(n);
    }

    /** it - n: a copy moved back by n. */
    method Minus(n: int) returns (r: CircularIterator)
      ensures fresh(r) && r.index == index - n && r.base == base && r.wrapSize == wrapSize
    {
      r := new CircularIterator.Copy(this);
      r.SubAssign(n);
    }

    /** it - other: the distance between the raw indices. */
    function Difference(other: CircularIterator): (d: int)
      reads this, other
      ensures other.index + d == index
    {
      index - other.index
    }

    /** The orderings compare raw indices only, consistently with Difference. */
    function Less(other: CircularIterator): (r: bool)
      reads this, other
      ensures r <==> Difference(other) < 0
    {
      index < other.index
    }

    function Greater(other: CircularIterator): (r: bool)
      reads this, other
      ensures r <==> other.Less(this)
    {
      index > other.index
    }

    function LessEq(other: CircularIterator): (r: bool)
      reads this, other
      ensures r <==> !Greater(other)
    {
      index <= other.index
    }

    function GreaterEq(other: CircularIterator): (r: bool)
      reads this, other
      ensures r <==> !Less(other)
    {
      index >= other.index
    }

    /** underlying_position: the raw, unwrapped index. */
    function UnderlyingPosition(): (r: int)
      reads this
      ensures r == index
    {
      index
    }

    /** wrap_size: the length of the range. */
    function WrapSize(): (r: int)
      reads this
      ensures r == wrapSize
    {
      wrapSize
    }
  }

  /** (it + n) - it == n. */
  method PlusThenDifference(it: CircularIterator, n: int) returns (d: int)
    ensures d == n
  {
    var moved := it.Plus(n);
    d := moved.Difference(it);
  }

  /**
   * it + k * wrap_size denotes the same element as it, yet compares unequal
   * to it for k != 0.
   */
  method WholeTurns(it: CircularIterator, k: int) returns (moved: CircularIterator)
    requires it.wrapSize > 0 && k != 0
    ensures moved.wrapSize == it.wrapSize
    ensures moved.Deref() == it.Deref() && !moved.Equals(it)
  {
    moved := it.Plus(k * it.wrapSize);
    LocalIndexPeriodic(it.index, it.wrapSize, k);
  }

  /** it[n] denotes the same element as *(it + n). */
  method AtIsPlusThenDeref(it: CircularIterator, n: int) returns (moved: CircularIterator)
    requires it.wrapSize != 0
    ensures moved.wrapSize == it.wrapSize && moved.Deref() == it.At(n)
  {
    moved := it.Plus(n);
  }

  /** ++ followed by -- restores the raw index. */
  method IncrementThenDecrement(it: CircularIterator)
    modifies it
    ensures it.index == old(it.index)
  {
    it.Increment();
    it.Decrement();
  }
}
