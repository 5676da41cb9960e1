/**
 * handle_map: a slot map. Values are kept densely packed in `dense`; a handle
 * indexes `sparse`, which gives the value's current position in `dense`;
 * `reverse` maps a dense position back to the handle that owns it; `free`
 * is a LIFO list of handles released by erase and reused by insert.
 *
 * The four tables are first described as a value (`Tables`) with the table
 * updates of insert and erase as functions; the class `HandleMap` keeps the
 * four tables as fields and its methods are proved against those functions.
 */
module HandleMaps {
  import opened Sequences

  datatype Tables<T> = Tables(dense: seq<T>, sparse: seq<nat>, reverse: seq<nat>, free: seq<nat>)

  function NoTables<T>(): Tables<T>
  {
    Tables([], [], [], [])
  }

  /** A handle is live when it has been issued and not returned to the free list. */
  predicate Live<T>(t: Tables<T>, h: nat)
  {
    h < |t.sparse| && h !in t.free
  }

  /** The tables agree: `reverse` and `sparse` are inverse on the live handles. */
  ghost predicate Consistent<T>(t: Tables<T>)
  {
    && |t.reverse| == |t.dense|
    && (forall p :: 0 <= p < |t.reverse| ==>
          t.reverse[p] < |t.sparse| && t.sparse[t.reverse[p]] == p && t.reverse[p] !in t.free)
    && (forall h :: 0 <= h < |t.sparse| && h !in t.free ==>
          t.sparse[h] < |t.dense| && t.reverse[t.sparse[h]] == h)
    && (forall i :: 0 <= i < |t.free| ==> t.free[i] < |t.sparse|)
    && Distinct(t.free)
  }

  /** The abstract value: each live handle with the value it designates. */
  ghost function Contents<T>(t: Tables<T>): map<nat, T>
    requires Consistent(t)
  {
    map h | 0 <= h < |t.sparse| && h !in t.free :: t.dense[t.sparse[h]]
  }

  /**
   * insert (and emplace): append the value to `dense`; take the most
   * recently freed handle, or when there is none the next unused number;
   * point it at the new last position and record it in `reverse`.
   */
  function Inserted<T>(t: Tables<T>, value: T): (r: (Tables<T>, nat))
    requires t.free != [] ==> t.free[|t.free| - 1] < |t.sparse|
    ensures |r.0.dense| == |t.dense| + 1 && r.0.dense[|t.dense|] == value
    ensures r.1 < |r.0.sparse| && r.0.sparse[r.1] == |t.dense| && r.0.reverse == t.reverse + [r.1]
    ensures t.free == [] ==> r.1 == |t.sparse| && |r.0.sparse| == |t.sparse| + 1 && r.0.free == []
    ensures t.free != [] ==> r.1 == t.free[|t.free| - 1] && |r.0.sparse| == |t.sparse| && r.0.free == t.free[..|t.free| - 1]
  {
    var dense := t.dense + [value];
    if t.free == [] then
      var h := |t.sparse|;
      (Tables(dense, t.sparse + [|dense| - 1], t.reverse + [h], t.free), h)
    else
      var h := t.free[|t.free| - 1];
      (Tables(dense, t.sparse[h := |dense| - 1], t.reverse + [h], t.free[..|t.free| - 1]), h)
  }

  /**
   * erase, corrected: swap the erased handle's dense POSITION `sparse[n]`
   * with the last position in both `dense` and `reverse`, repoint the handle
   * that owned the last position, pop, and push n onto the free list.
   */
  function Erased<T>(t: Tables<T>, n: nat): (r: Tables<T>)
    requires Consistent(t) && Live(t, n)
    ensures |r.dense| == |t.dense| - 1 && |r.reverse| == |r.dense| && |r.sparse| == |t.sparse|
    ensures r.free == t.free + [n] && !Live(r, n)
  {
    var last := |t.dense| - 1;
    var backHandle := t.reverse[last];
    var pos := t.sparse[n];
    var dense := t.dense[pos := t.dense[last]][last := t.dense[pos]];
    var reverse := t.reverse[pos := t.reverse[last]][last := t.reverse[pos]];
    Tables(dense[..last], t.sparse[backHandle := pos], reverse[..last], t.free + [n])
  }

  /**
   * erase exactly as the source writes it: the second swap exchanges
   * `reverse[n]` with `reverse[last]`, indexing the position table by the
   * handle. The requires only keep every index the code uses in bounds.
   */
  function ErasedAsWritten<T>(t: Tables<T>, n: nat): (r: Tables<T>)
    requires 0 < |t.dense| && |t.reverse| == |t.dense|
    requires n < |t.sparse| && t.sparse[n] < |t.dense| && n < |t.reverse|
    requires t.reverse[|t.dense| - 1] < |t.sparse|
    ensures |r.dense| == |t.dense| - 1 && |r.reverse| == |r.dense| && |r.sparse| == |t.sparse|
    ensures r.free == t.free + [n] && !Live(r, n)
  {
    var last := |t.dense| - 1;
    var backHandle := t.reverse[last];
    var pos := t.sparse[n];
    var dense := t.dense[pos := t.dense[last]][last := t.dense[pos]];
    var reverse := t.reverse[n := t.reverse[last]][last := t.reverse[n]];
    Tables(dense[..last], t.sparse[backHandle := t.sparse[n]], reverse[..last], t.free + [n])
  }

  lemma EmptyConsistent<T>()
    ensures Consistent(NoTables<T>()) && Contents(NoTables<T>()) == map[]
  {
  }

  /**
   * insert keeps the tables consistent, appends the value to `dense`, issues
   * a handle that was not live (the next number when nothing is free, the
   * last freed one otherwise) and makes it designate the value, leaving every
   * other handle's value alone.
   */
  lemma InsertCorrect<T>(t: Tables<T>, value: T)
    requires Consistent(t)
    ensures var (t', h) := Inserted(t, value);
            && Consistent(t')
            && t'.dense == t.dense + [value]
            && |t'.dense| == |t.dense| + 1
            && (t.free == [] ==> h == |t.sparse| && t'.free == [])
            && (t.free != [] ==> h == t.free[|t.free| - 1] && t'.free == t.free[..|t.free| - 1])
            && !Live(t, h) && Live(t', h)
            && Contents(t') == Contents(t)[h := value]
  {
    var (t', h) := Inserted(t, value);
    assert !Live(t, h) by {
      if t.free != [] {
        assert h == t.free[|t.free| - 1];
      }
    }
    assert h !in t'.free by {
      if t.free != [] {
        assert t.free == t'.free + [h];
      }
    }
    assert forall i :: 0 <= i < |t'.free| ==> t'.free[i] == t.free[i];
    InsertedConsistent(t, value);
    InsertedContents(t, value);
  }

  /** The tables after insert agree with each other. */
  lemma InsertedConsistent<T>(t: Tables<T>, value: T)
    requires Consistent(t)
    ensures Consistent(Inserted(t, value).0)
  {
    var (t', h) := Inserted(t, value);
    assert forall i :: 0 <= i < |t'.free| ==> t'.free[i] == t.free[i];
    assert !Live(t, h) && h !in t'.free by {
      if t.free != [] {
        assert h == t.free[|t.free| - 1] && t.free == t'.free + [h];
      }
    }
    forall p | 0 <= p < |t'.reverse|
      ensures t'.reverse[p] < |t'.sparse| && t'.sparse[t'.reverse[p]] == p && t'.reverse[p] !in t'.free
    {
      if p < |t.reverse| {
        assert t'.reverse[p] == t.reverse[p] && Live(t, t.reverse[p]);
      }
    }
    forall g | 0 <= g < |t'.sparse| && g !in t'.free
      ensures t'.sparse[g] < |t'.dense| && t'.reverse[t'.sparse[g]] == g
    {
      if g != h {
        assert g < |t.sparse| && g !in t.free;
      }
    }
    assert Distinct(t'.free) by {
      assert Distinct(t.free);
    }
  }

  /** After insert the new handle designates the value and every other handle keeps its own. */
  lemma InsertedContents<T>(t: Tables<T>, value: T)
    requires Consistent(t)
    ensures Consistent(Inserted(t, value).0)
    ensures Contents(Inserted(t, value).0) == Contents(t)[Inserted(t, value).1 := value]
  {
    var (t', h) := Inserted(t, value);
    InsertedConsistent(t, value);
    assert forall i :: 0 <= i < |t'.free| ==> t'.free[i] == t.free[i];
    assert !Live(t, h) && h !in t'.free by {
      if t.free != [] {
        assert h == t.free[|t.free| - 1] && t.free == t'.free + [h];
      }
    }
    var c, c' := Contents(t), Contents(t');
    forall g ensures g in c' <==> g in c[h := value] {
      if g != h && g in c' {
        assert g < |t.sparse| && g !in t.free;
      }
    }
    forall g | g in c' ensures c'[g] == c[h := value][g] {
      if g != h {
        assert g < |t.sparse| && g !in t.free;
      }
    }
  }

  /**
   * The corrected erase keeps the tables consistent, removes exactly handle n,
   * shrinks `dense` by one, moves the old last value into n's position and
   * pushes n onto the free list.
   */
  lemma EraseCorrect<T>(t: Tables<T>, n: nat)
    requires Consistent(t) && Live(t, n)
    ensures var t' := Erased(t, n);
            && Consistent(t')
            && Contents(t') == Contents(t) - {n}
            && |t'.dense| == |t.dense| - 1
            && (t.sparse[n] < |t'.dense| ==> t'.dense[t.sparse[n]] == t.dense[|t.dense| - 1])
            && t'.free == t.free + [n]
  {
    ErasedConsistent(t, n);
    ErasedContents(t, n);
  }

  /** The handle owning the last position is n exactly when n sits at the last position. */
  lemma BackHandle<T>(t: Tables<T>, n: nat)
    requires Consistent(t) && Live(t, n)
    ensures 0 < |t.dense| && Live(t, t.reverse[|t.dense| - 1])
    ensures t.reverse[|t.dense| - 1] == n <==> t.sparse[n] == |t.dense| - 1
  {
    var last := |t.dense| - 1;
    assert t.sparse[t.reverse[last]] == last;
  }

  /** The tables after the corrected erase agree with each other. */
  lemma ErasedConsistent<T>(t: Tables<T>, n: nat)
    requires Consistent(t) && Live(t, n)
    ensures Consistent(Erased(t, n))
  {
    var t' := Erased(t, n);
    var last := |t.dense| - 1;
    var b, pos := t.reverse[last], t.sparse[n];
    BackHandle(t, n);
    forall p | 0 <= p < |t'.reverse|
      ensures t'.reverse[p] < |t'.sparse| && t'.sparse[t'.reverse[p]] == p && t'.reverse[p] !in t'.free
    {
      if p == pos {
        assert t'.reverse[p] == b && b != n;
      } else {
        var g := t.reverse[p];
        assert t'.reverse[p] == g && t.sparse[g] == p;
      }
    }
    forall g | 0 <= g < |t'.sparse| && g !in t'.free
      ensures t'.sparse[g] < |t'.dense| && t'.reverse[t'.sparse[g]] == g
    {
      assert g != n && Live(t, g);
      if g != b {
        var q := t.sparse[g];
        assert t.reverse[q] == g && q != last && q != pos;
      }
    }
    assert Distinct(t'.free) by {
      assert Distinct(t.free) && n !in t.free;
    }
  }

  /** The corrected erase removes handle n and leaves every other handle's value alone. */
  lemma ErasedContents<T>(t: Tables<T>, n: nat)
    requires Consistent(t) && Live(t, n)
    ensures Consistent(Erased(t, n))
    ensures Contents(Erased(t, n)) == Contents(t) - {n}
    ensures |Erased(t, n).dense| == |t.dense| - 1
    ensures t.sparse[n] < |t.dense| - 1 ==> Erased(t, n).dense[t.sparse[n]] == t.dense[|t.dense| - 1]
    ensures Erased(t, n).free == t.free + [n]
  {
    var t' := Erased(t, n);
    var last := |t.dense| - 1;
    var b, pos := t.reverse[last], t.sparse[n];
    BackHandle(t, n);
    ErasedConsistent(t, n);
    var c, c' := Contents(t), Contents(t');
    forall g ensures g in c' <==> g in c - {n} {
    }
    forall g | g in c' ensures c'[g] == c[g] {
      assert g != n && Live(t, g);
      if g != b {
        var q := t.sparse[g];
        assert t.reverse[q] == g && q != last && q != pos;
      }
    }
  }

  /** The source's erase agrees with the corrected one when the handle sits at its own position. */
  lemma EraseAsWrittenAgreesAtOwnPosition<T>(t: Tables<T>, n: nat)
    requires Consistent(t) && Live(t, n) && t.sparse[n] == n
    ensures n < |t.reverse| && ErasedAsWritten(t, n) == Erased(t, n)
  {
    assert t.reverse[t.sparse[n]] == n;
  }

  /**
   * Off its own position the source's erase always breaks the tables: n is
   * pushed onto the free list, yet n is still an entry of the shortened
   * `reverse`, at its old position `sparse[n]` or, when n owned the last
   * position, at position n, where the swap put it.
   */
  lemma AsWrittenBreaksOffOwnPosition<T>(t: Tables<T>, n: nat)
    requires Consistent(t) && Live(t, n) && n < |t.reverse| && t.sparse[n] != n
    ensures !Consistent(ErasedAsWritten(t, n))
  {
    var r := ErasedAsWritten(t, n);
    var last, pos := |t.dense| - 1, t.sparse[n];
    var p := if pos == last then n else pos;
    assert t.reverse[pos] == n;
    assert p < last && r.reverse[p] == n;
    assert r.free[|r.free| - 1] == n;
  }

  /** The live handles are exactly the entries of `reverse`, each once, so there are |dense| of them. */
  lemma {:induction false} LiveCount<T>(t: Tables<T>)
    requires Consistent(t)
    ensures Contents(t).Keys == set x: nat | x in t.reverse
    ensures |Contents(t)| == |t.dense|
  {
    assert Distinct(t.reverse) by {
      forall i, j | 0 <= i < j < |t.reverse| ensures t.reverse[i] != t.reverse[j] {
        assert t.sparse[t.reverse[i]] == i && t.sparse[t.reverse[j]] == j;
      }
    }
    DistinctCardinality(t.reverse);
    assert |Contents(t)| == |Contents(t).Keys|;
    assert Contents(t).Keys == set x: nat | x in t.reverse by {
      forall h | h in Contents(t).Keys ensures h in t.reverse {
        assert t.reverse[t.sparse[h]] == h;
      }
    }
    assert |set x: nat | x in t.reverse| == |t.reverse|;
    assert |Contents(t).Keys| == |t.reverse|;
  }

  /** Three inserts into an empty map leave the tables of handles 0, 1, 2 at positions 0, 1, 2. */
  function ThreeInserted(): Tables<int>
  {
    Inserted(Inserted(Inserted(NoTables(), 10).0, 11).0, 12).0
  }

  /**
   * insert three values, erase(1), insert, erase(2), erase(0), with the
   * source's erase. Every table index is in bounds on the way, yet the live
   * handle 1 is left pointing past the end of `dense`.
   */
  lemma EraseDefectWitness()
    ensures var t1 := ErasedAsWritten(ThreeInserted(), 1);
            var (t2, h) := Inserted(t1, 13);
            var t3 := ErasedAsWritten(t2, 2);
            var t4 := ErasedAsWritten(t3, 0);
            h == 1 && Live(t4, h) && t4.sparse[h] >= |t4.dense|
  {
    ThreeInsertedTables();
    DefectSteps();
  }

  lemma ThreeInsertedTables()
    ensures ThreeInserted() == Tables([10, 11, 12], [0, 1, 2], [0, 1, 2], [])
  {
    assert Inserted(NoTables(), 10).0 == Tables([10], [0], [0], []);
    assert Inserted(Tables([10], [0], [0], []), 11).0 == Tables([10, 11], [0, 1], [0, 1], []);
  }

  /** The table states of the defect witness, one operation at a time. */
  lemma DefectSteps()
    ensures ErasedAsWritten(Tables([10, 11, 12], [0, 1, 2], [0, 1, 2], []), 1) == Tables([10, 12], [0, 1, 1], [0, 2], [1])
    ensures Inserted(Tables([10, 12], [0, 1, 1], [0, 2], [1]), 13) == (Tables([10, 12, 13], [0, 2, 1], [0, 2, 1], []), 1)
    ensures ErasedAsWritten(Tables([10, 12, 13], [0, 2, 1], [0, 2, 1], []), 2) == Tables([10, 13], [0, 1, 1], [0, 2], [2])
    ensures ErasedAsWritten(Tables([10, 13], [0, 1, 1], [0, 2], [2]), 0) == Tables([13], [0, 1, 0], [2], [2, 0])
  {
    var r := Inserted(Tables([10, 12], [0, 1, 1], [0, 2], [1]), 13);
    assert r.1 == 1;
    assert r.0.dense == [10, 12, 13];
    assert r.0.sparse == [0, 2, 1];
    assert r.0.reverse == [0, 2, 1];
    assert r.0.free == [];
  }

  /**
   * insert three values and erase(0) with the source's erase: handle 2 is
   * still live, but erasing it makes the source index `reverse` at 2 while
   * `reverse` has only two entries.
   */
  lemma EraseOutOfBoundsWitness()
    ensures var t := ErasedAsWritten(ThreeInserted(), 0);
            Live(t, 2) && |t.reverse| == 2
  {
    ThreeInsertedTables();
    assert ErasedAsWritten(Tables([10, 11, 12], [0, 1, 2], [0, 1, 2], []), 0) == Tables([12, 11], [0, 1, 0], [2, 1], [0]);
  }

  class HandleMap<T> {
    var dense: seq<T>
    var sparse: seq<nat>
    var reverse: seq<nat>
    var free: seq<nat>

    function State(): Tables<T>
      reads this
    {
      Tables(dense, sparse, reverse, free)
    }

    ghost predicate Valid()
      reads this
    {
      Consistent(State())
    }

    constructor ()
      ensures Valid() && State() == NoTables() && Contents(State()) == map[]
    {
      dense, sparse, reverse, free := [], [], [], [];
    }

    /** insert: the table update of `Inserted`, done in place. */
    method Insert(value: T) returns (h: nat)
      requires Valid()
      modifies this
      ensures Valid()
      ensures (State(), h) == Inserted(old(State()), value)
      ensures !Live(old(State()), h) && Live(State(), h)
      ensures Contents(State()) == Contents(old(State()))[h := value]
    {
      InsertCorrect(State(), value);
      dense := dense + [value];
      if free == [] {
        sparse := sparse + [|dense| - 1];
        h := |sparse| - 1;
      } else {
        h := free[|free| - 1];
        sparse := sparse[h := |dense| - 1];
        free := free[..|free| - 1];
      }
      reverse := reverse + [h];
    }

    /** emplace: the same table update as insert; the value is the one the arguments construct. */
    method Emplace(value: T) returns (h: nat)
      requires Valid()
      modifies this
      ensures Valid()
      ensures (State(), h) == Inserted(old(State()), value)
      ensures !Live(old(State()), h) && Live(State(), h)
      ensures Contents(State()) == Contents(old(State()))[h := value]
    {
      h := Insert(value);
    }

    /** erase, corrected; the handle must be live (the source does not check). */
    method Erase(n: nat)
      requires Valid() && Live(State(), n)
      modifies this
      ensures Valid()
      ensures State() == Erased(old(State()), n)
      ensures Contents(State()) == Contents(old(State())) - {n}
    {
      EraseCorrect(State(), n);
      var last := |dense| - 1;
      var backHandle := reverse[last];
      var pos := sparse[n];
      dense := dense[pos := dense[last]][last := dense[pos]];
      reverse := reverse[pos := reverse[last]][last := reverse[pos]];
      sparse := sparse[backHandle := pos];
      dense := dense[..last];
      reverse := reverse[..last];
      free := free + [n];
    }

    /** erase as the source writes it (see `ErasedAsWritten`). */
    method EraseAsWritten(n: nat)
      requires 0 < |dense| && |reverse| == |dense|
      requires n < |sparse| && sparse[n] < |dense| && n < |reverse|
      requires reverse[|dense| - 1] < |sparse|
      modifies this
      ensures State() == ErasedAsWritten(old(State()), n)
    {
      var last := |dense| - 1;
      var backHandle := reverse[last];
      var pos := sparse[n];
      dense := dense[pos := dense[last]][last := dense[pos]];
      reverse := reverse[n := reverse[last]][last := reverse[n]];
      sparse := sparse[backHandle := sparse[n]];
      dense := dense[..last];
      reverse := reverse[..last];
      free := free + [n];
    }

    /** size: the number of live handles. */
    function Size(): (r: nat)
      reads this
      requires Valid()
      ensures r == |Contents(State())|
    {
      LiveCount(State());
      |dense|
    }

    /** empty: no handle is live. */
    function Empty(): (r: bool)
      reads this
      requires Valid()
      ensures r <==> Contents(State()) == map[]
    {
      LiveCount(State());
      |dense| == 0
    }

    /** operator[]: unchecked lookup through `sparse`; the handle must be live. */
    function Get(h: nat): (v: T)
      reads this
      requires Valid() && Live(State(), h)
      ensures h in Contents(State()) && v == Contents(State())[h]
    {
      dense[sparse[h]]
    }
  }
}
