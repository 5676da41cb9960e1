/**
 * stable_vector: erase destroys a value in place and records its slot in
 * `erased`; no other index is renumbered. add refills the most recently
 * erased slot first and otherwise appends.
 *
 * A slot is modelled as an Option: `None` is a slot whose value has been
 * destroyed by erase.
 */
module StableVectors {
  import opened Wrappers
  import opened Sequences

  /** The slots of `data` that hold a value. */
  ghost function LiveSlots<T>(data: seq<Option<T>>): set<nat>
  {
    set i: nat | i < |data| && data[i].Some?
  }

  /** `erased` lists, once each, exactly the slots of `data` whose value is destroyed. */
  ghost predicate Tracked<T>(data: seq<Option<T>>, erased: seq<nat>)
  {
    && (forall i :: 0 <= i < |erased| ==> erased[i] < |data| && data[erased[i]] == None)
    && (forall i :: 0 <= i < |data| && data[i] == None ==> i in erased)
    && Distinct(erased)
  }

  /** Filling the most recently erased slot makes it live, changes no other slot's liveness and drops it from `erased`. */
  lemma RefilledSlot<T>(data: seq<Option<T>>, erased: seq<nat>, value: T)
    requires Tracked(data, erased) && erased != []
    ensures var i := erased[|erased| - 1];
            && i < |data| && i !in LiveSlots(data)
            && Tracked(data[i := Some(value)], erased[..|erased| - 1])
            && LiveSlots(data[i := Some(value)]) == LiveSlots(data) + {i}
  {
    var i, rest := erased[|erased| - 1], erased[..|erased| - 1];
    assert erased == rest + [i];
    assert i !in rest;
    var data' := data[i := Some(value)];
    forall k | 0 <= k < |data'| && data'[k] == None ensures k in rest {
      assert k != i && k in erased;
    }
  }

  /** With nothing erased, appending a value adds the new last slot to the live ones. */
  lemma AppendedSlot<T>(data: seq<Option<T>>, value: T)
    requires Tracked(data, [])
    ensures |data| !in LiveSlots(data)
    ensures Tracked(data + [Some(value)], [])
    ensures LiveSlots(data + [Some(value)]) == LiveSlots(data) + {|data|}
  {
  }

  /** Every slot is live or listed as erased, and not both. */
  lemma SlotPartition<T>(data: seq<Option<T>>, erased: seq<nat>)
    requires Tracked(data, erased)
    ensures IndexSet(|data|) == LiveSlots(data) + (set x: nat | x in erased)
    ensures LiveSlots(data) !! (set x: nat | x in erased)
  {
    var all, live, gone := IndexSet(|data|), LiveSlots(data), set x: nat | x in erased;
    forall x: nat ensures x in all <==> x in live || x in gone {
      if x in gone {
        var i :| 0 <= i < |erased| && erased[i] == x;
      }
    }
  }

  class StableVector<T> {
    var data: seq<Option<T>>
    var erased: seq<nat>

    /** `erased` lists, once each, exactly the slots whose value is destroyed. */
    ghost predicate Valid()
      reads this
    {
      Tracked(data, erased)
    }

    /** The live indices. */
    ghost function Live(): set<nat>
      reads this
    {
      LiveSlots(data)
    }

    constructor ()
      ensures Valid() && data == [] && erased == []
    {
      data, erased := [], [];
    }

    /**
     * add: with an erased slot, reuse the most recently erased one; otherwise
     * append at index size() (which then equals the number of slots).
     */
    method Add(value: T) returns (index: nat)
      requires Valid()
      modifies this
      ensures Valid()
      ensures old(erased) == [] ==> index == |old(data)| && data == old(data) + [Some(value)] && erased == []
      ensures old(erased) != [] ==>
                && index == old(erased)[|old(erased)| - 1]
                && erased == old(erased)[..|old(erased)| - 1]
                && data == old(data)[index := Some(value)]
      ensures index < |data| && data[index] == Some(value)
      ensures index !in old(Live()) && Live() == old(Live()) + {index}
      ensures forall j :: 0 <= j < |old(data)| && j != index ==> data[j] == old(data)[j]
    {
      if |erased| > 0 {
        RefilledSlot(data, erased, value);
        index := erased[|erased| - 1];
        erased := erased[..|erased| - 1];
        data := data[index := Some(value)];
        return;
      }
      index := Size();
      AppendedSlot(data, value);
      data := data + [Some(value)];
    }

    /**
     * at: checked access. A linear search of `erased` rejects a destroyed
     * slot; then the bounds check of `data.at` rejects an index past the end.
     */
    method At(index: nat) returns (r: Result<T>)
      requires Valid()
      ensures index in erased ==> r == Err(AccessOfDeletedElement)
      ensures index !in erased && index >= |data| ==> r == Err(OutOfRange)
      ensures index !in erased && index < |data| ==> index in Live() && r == Ok(data[index].value)
    {
      var k := 0;
      while k < |erased|
        invariant 0 <= k <= |erased|
        invariant index !in erased[..k]
      {
        if erased[k] == index {
          return Err(AccessOfDeletedElement);
        }
        k := k + 1;
      }
      assert erased[..k] == erased;
      if index >= |data| {
        return Err(OutOfRange);
      }
      r := Ok(data[index].value);
    }

    /** erase: destroy the value at a live index and record the slot; the source does not check liveness. */
    method Erase(index: nat)
      requires Valid() && index in Live()
      modifies this
      ensures Valid()
      ensures data == old(data)[index := None]
      ensures erased == old(erased) + [index]
      ensures Live() == old(Live()) - {index}
    {
      assert index !in erased;
      data := data[index := None];
      erased := erased + [index];
    }

    /** operator[]: unchecked access; the index must be live. */
    function Get(index: nat): (v: T)
      reads this
      requires Valid() && index in Live()
      ensures Some(v) == data[index]
    {
      data[index].value
    }

    /** size: slots minus erased slots, which is the number of live indices. */
    function Size(): (r: nat)
      reads this
      requires Valid()
      ensures r == |Live()|
    {
      LiveCount();
      |data| - |erased|
    }

    /** The live indices and the erased slots partition the slots, so there are |data| - |erased| live ones. */
    lemma LiveCount()
      requires Valid()
      ensures |erased| <= |data| && |Live()| == |data| - |erased|
    {
      var gone := set x: nat | x in erased;
      SlotPartition(data, erased);
      DistinctCardinality(erased);
      IndexSetCardinality(|data|);
      assert |IndexSet(|data|)| == |LiveSlots(data)| + |gone|;
    }
  }

  /** Erasing index 1 from three values keeps indices 0 and 2, and the next add takes index 1 again. */
  method EraseThenAddReusesSlot() returns (sv: StableVector<char>, i: nat)
    ensures i == 1 && sv.Valid() && sv.Live() == {0, 1, 2}
    ensures sv.Get(0) == 'a' && sv.Get(1) == 'd' && sv.Get(2) == 'c'
  {
    sv := new StableVector<char>();
    var a := sv.Add('a');
    var b := sv.Add('b');
    var c := sv.Add('c');
    sv.Erase(1);
    i := sv.Add('d');
  }
}
