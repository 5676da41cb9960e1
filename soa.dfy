/**
 * soa: a struct-of-arrays container. A struct value of type T is modelled
 * as the sequence of its field values (field f at position f); the
 * container lists some of those fields (its member pointers, `members`,
 * in declaration order) and keeps one column per listed field. Element n is
 * reached through a proxy that refers to position n of every column; the
 * proxy converts back to a T that starts value-initialised (`blank`) and
 * has the listed fields filled in from the columns.
 */
module Soas {
  import opened Sequences

  /** The values of the listed fields of a struct value, in member order. */
  function Project<V>(members: seq<nat>, value: seq<V>): (row: seq<V>)
    requires forall i :: 0 <= i < |members| ==> members[i] < |value|
    ensures |row| == |members|
    ensures forall i :: 0 <= i < |members| ==> row[i] == value[members[i]]
  {
    seq(|members|, i requires 0 <= i < |members| => value[members[i]])
  }

  /** Every column grown by one entry: column i gets row[i]. */
  function Pushed<V>(columns: seq<seq<V>>, row: seq<V>): (r: seq<seq<V>>)
    requires |row| == |columns|
    ensures |r| == |columns|
    ensures forall i :: 0 <= i < |r| ==> |r[i]| == |columns[i]| + 1
    ensures forall i :: 0 <= i < |r| ==> r[i][..|columns[i]|] == columns[i] && r[i][|columns[i]|] == row[i]
  {
    seq(|columns|, i requires 0 <= i < |columns| => columns[i] + [row[i]])
  }

  /** Position n of every column overwritten: column i gets row[i] there. */
  function Written<V>(columns: seq<seq<V>>, n: nat, row: seq<V>): (r: seq<seq<V>>)
    requires |row| == |columns| && forall i :: 0 <= i < |columns| ==> n < |columns[i]|
    ensures |r| == |columns|
    ensures forall i :: 0 <= i < |r| ==> |r[i]| == |columns[i]| && r[i][n] == row[i]
    ensures forall i, m :: 0 <= i < |r| && 0 <= m < |r[i]| && m != n ==> r[i][m] == columns[i][m]
  {
    seq(|columns|, i requires 0 <= i < |columns| => columns[i][n := row[i]])
  }

  /**
   * make_helper: from member position s on, field members[s] of `out` is
   * set from position n of column s. Fields that no remaining member names
   * keep their value in `out`.
   */
  function Make<V>(out: seq<V>, members: seq<nat>, columns: seq<seq<V>>, n: nat, s: nat): (r: seq<V>)
    requires s <= |members| == |columns| && Distinct(members)
    requires forall i :: 0 <= i < |members| ==> members[i] < |out| && n < |columns[i]|
    ensures |r| == |out|
    ensures forall i :: s <= i < |members| ==> r[members[i]] == columns[i][n]
    ensures forall f :: 0 <= f < |out| && (forall i :: s <= i < |members| ==> members[i] != f) ==> r[f] == out[f]
    decreases |members| - s
  {
    if s == |members| then out
    else Make(out[members[s] := columns[s][n]], members, columns, n, s + 1)
  }

  class Soa<V> {
    /** The number of fields of T. */
    const fields: nat
    /** The listed fields, one per member container. */
    const members: seq<nat>
    /** A value-initialised T. */
    const blank: seq<V>
    /** The member containers' vectors, one per listed field. */
    var columns: seq<seq<V>>

    ghost predicate Valid()
      reads this
    {
      && |members| >= 1
      && Distinct(members)
      && (forall i :: 0 <= i < |members| ==> members[i] < fields)
      && |blank| == fields
      && |columns| == |members|
      && (forall i :: 0 <= i < |columns| ==> |columns[i]| == |columns[0]|)
    }

    /** An empty container over the listed fields. */
    constructor (fields: nat, members: seq<nat>, blank: seq<V>)
      requires |members| >= 1 && Distinct(members)
      requires forall i :: 0 <= i < |members| ==> members[i] < fields
      requires |blank| == fields
      ensures Valid()
      ensures this.fields == fields && this.members == members && this.blank == blank
      ensures columns == seq(|members|, _ => [])
    {
      this.fields := fields;
      this.members := members;
      this.blank := blank;
      columns := seq(|members|, _ => []);
    }

    /** size: the length of the first member vector, which every vector shares. */
    function Size(): (r: nat)
      reads this
      requires Valid()
      ensures forall i :: 0 <= i < |columns| ==> |columns[i]| == r
    {
      |columns[0]|
    }

    /** push_back: each listed field of the value is appended to its own vector. */
    method PushBack(value: seq<V>)
      requires Valid() && |value| == fields
      modifies this
      ensures Valid()
      ensures columns == Pushed(old(columns), Project(members, value))
    {
      var row := Project(members, value);
      var i := 0;
      while i < |members|
        invariant 0 <= i <= |members| && |columns| == |members|
        invariant forall k :: 0 <= k < i ==> columns[k] == old(columns)[k] + [row[k]]
        invariant forall k :: i <= k < |members| ==> columns[k] == old(columns)[k]
      {
        columns := columns[i := columns[i] + [value[members[i]]]];
        i := i + 1;
      }
    }

    /** push_back_members: the i-th argument is appended to the i-th member vector. */
    method PushBackMembers(elems: seq<V>)
      requires Valid() && |elems| == |members|
      modifies this
      ensures Valid()
      ensures columns == Pushed(old(columns), elems)
    {
      var i := 0;
      while i < |members|
        invariant 0 <= i <= |members| && |columns| == |members|
        invariant forall k :: 0 <= k < i ==> columns[k] == old(columns)[k] + [elems[k]]
        invariant forall k :: i <= k < |members| ==> columns[k] == old(columns)[k]
      {
        columns := columns[i := columns[i] + [elems[i]]];
        i := i + 1;
      }
    }

    /** reserve: only capacity changes, so the method may not touch the state at all. */
    method Reserve(n: nat)
      requires Valid()
      ensures Valid()
    {
    }

    /** operator[]: a proxy for position n of every member vector. */
    method At(n: nat) returns (p: ElementProxy<V>)
      requires Valid() && n < Size()
      ensures fresh(p) && p.container == this && p.n == n
    {
      p := new ElementProxy(this, n);
    }

    /** The struct value stored at position n (what the proxy converts to). */
    function Element(n: nat): (v: seq<V>)
      reads this
      requires Valid() && n < Size()
      ensures |v| == fields
      ensures forall i :: 0 <= i < |members| ==> v[members[i]] == columns[i][n]
      ensures forall f :: 0 <= f < fields && f !in members ==> v[f] == blank[f]
    {
      Make(blank, members, columns, n, 0)
    }

    /** The proxy's operator=: position n of each member vector takes the listed field of the value. */
    method WriteAt(n: nat, value: seq<V>)
      requires Valid() && n < Size() && |value| == fields
      modifies this
      ensures Valid()
      ensures columns == Written(old(columns), n, Project(members, value))
    {
      var row := Project(members, value);
      var i := 0;
      while i < |members|
        invariant 0 <= i <= |members| && |columns| == |members|
        invariant forall k :: 0 <= k < i ==> columns[k] == old(columns)[k][n := row[k]]
        invariant forall k :: i <= k < |members| ==> columns[k] == old(columns)[k]
      {
        columns := columns[i := columns[i][n := value[members[i]]]];
        i := i + 1;
      }
    }
  }

  /** element_proxy: refers to position n of the container's member vectors. */
  class ElementProxy<V> {
    const container: Soa<V>
    const n: nat

    constructor (container: Soa<V>, n: nat)
      ensures this.container == container && this.n == n
    {
      this.container := container;
      this.n := n;
    }

    /** operator T: a value-initialised T with the listed fields read through the proxy. */
    function ToValue(): (v: seq<V>)
      reads this, container
      requires container.Valid() && n < container.Size()
      ensures v == container.Element(n)
    {
      Make(container.blank, container.members, container.columns, n, 0)
    }

    /** operator=: writes the listed fields of the value through the proxy. */
    method Assign(value: seq<V>)
      requires container.Valid() && n < container.Size() && |value| == container.fields
      modifies container
      ensures container.Valid()
      ensures container.columns == Written(old(container.columns), n, Project(container.members, value))
    {
      container.WriteAt(n, value);
    }
  }

  /**
   * The round trip: the value pushed as element n converts back with the
   * same listed fields and value-initialised others.
   */
  lemma PushThenConvert<V>(members: seq<nat>, blank: seq<V>, columns: seq<seq<V>>, value: seq<V>)
    requires |members| >= 1 && |columns| == |members| && Distinct(members)
    requires forall i :: 0 <= i < |members| ==> members[i] < |blank|
    requires forall i :: 0 <= i < |columns| ==> |columns[i]| == |columns[0]|
    requires |value| == |blank|
    ensures var n := |columns[0]|;
            var pushed := Pushed(columns, Project(members, value));
            var v := Make(blank, members, pushed, n, 0);
            && |v| == |value|
            && (forall f :: 0 <= f < |v| && f in members ==> v[f] == value[f])
            && (forall f :: 0 <= f < |v| && f !in members ==> v[f] == blank[f])
  {
    var n := |columns[0]|;
    var pushed := Pushed(columns, Project(members, value));
    var v := Make(blank, members, pushed, n, 0);
    forall f | 0 <= f < |v| && f in members ensures v[f] == value[f] {
      var i :| 0 <= i < |members| && members[i] == f;
      assert v[members[i]] == pushed[i][n];
    }
  }

  /** Writing through the proxy at n is read back at n and leaves every other position alone. */
  lemma WriteThenConvert<V>(members: seq<nat>, blank: seq<V>, columns: seq<seq<V>>, n: nat, m: nat, value: seq<V>)
    requires |members| >= 1 && |columns| == |members| && Distinct(members)
    requires forall i :: 0 <= i < |members| ==> members[i] < |blank|
    requires forall i :: 0 <= i < |columns| ==> |columns[i]| == |columns[0]|
    requires n < |columns[0]| && m < |columns[0]| && |value| == |blank|
    ensures var written := Written(columns, n, Project(members, value));
            var v := Make(blank, members, written, n, 0);
            && (forall f :: 0 <= f < |v| && f in members ==> v[f] == value[f])
            && (forall f :: 0 <= f < |v| && f !in members ==> v[f] == blank[f])
            && (m != n ==> Make(blank, members, written, m, 0) == Make(blank, members, columns, m, 0))
  {
    var written := Written(columns, n, Project(members, value));
    var v := Make(blank, members, written, n, 0);
    forall f | 0 <= f < |v| && f in members ensures v[f] == value[f] {
      var i :| 0 <= i < |members| && members[i] == f;
      assert v[members[i]] == written[i][n];
    }
    if m != n {
      var a, b := Make(blank, members, written, m, 0), Make(blank, members, columns, m, 0);
      forall f | 0 <= f < |a| ensures a[f] == b[f] {
        if f in members {
          var i :| 0 <= i < |members| && members[i] == f;
          assert a[members[i]] == written[i][m] == columns[i][m] == b[members[i]];
        }
      }
    }
  }

  /** Two pushes then reading both elements back, on a concrete struct of three fields of which two are listed. */
  method PushTwoAndRead() returns (s: Soa<int>, first: seq<int>, second: seq<int>)
    ensures s.Valid() && s.Size() == 2
    ensures first == [1, 0, 3] && second == [4, 0, 6]
  {
    s := new Soa(3, [0, 2], [0, 0, 0]);
    s.PushBack([1, 2, 3]);
    s.PushBackMembers([4, 6]);
    var p := s.At(0);
    var q := s.At(1);
    first := p.ToValue();
    second := q.ToValue();
    assert first[1] == 0 && second[1] == 0 by {
      assert 1 !in s.members;
    }
  }
}
