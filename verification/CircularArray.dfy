/** The circular array over an indexed list, with every field tied to the history of its adds. */
module CircularArrays {
  import opened Java
  import opened ArrayLists
  import opened RingLayout
  import RingLaws

  /** The control state, the list and the overwritten entries after the adds h, as closed
      forms of h. */
  ghost predicate Reached<T>(max: nat, h: seq<T>, position: int, haveOverflow: bool, list: seq<T>, evicted: seq<T>) {
    && position == Position(RingCapacity(max), |h|)
    && (haveOverflow <==> |h| > max)
    && list == Layout(RingCapacity(max), h)
    && evicted == RingLaws.Evicted(RingCapacity(max), h)
  }

  /** The list after writing e to slot, which is taken or one past the end. */
  function Put<T>(list: seq<T>, slot: nat, e: T): seq<T>
    requires slot <= |list|
  {
    if slot < |list| then list[slot := e] else list + [e]
  }

  /** The reset of the position, the write to one slot and the increment lead from the state
      after h to the state after h + [e]. */
  lemma AddReached<T>(max: nat, h: seq<T>, position: int, haveOverflow: bool, list: seq<T>, evicted: seq<T>, e: T)
    requires Reached(max, h, position, haveOverflow, list, evicted)
    ensures var slot := if position >= max then 0 else position;
            && 0 <= slot <= |list| && slot < RingCapacity(max)
            && Reached(max, h + [e], slot + 1, haveOverflow || position >= max, Put(list, slot, e),
                       if slot < |list| then evicted + [list[slot]] else evicted)
            && (haveOverflow || position >= max <==> |h| + 1 > max)
  {
    NextSlot(max, |h|);
    LayoutAdd(RingCapacity(max), h, e);
    RingLaws.EvictedAdd(RingCapacity(max), h, e);
  }

  lemma ReachedKeeps<T>(max: nat, h: seq<T>, position: int, haveOverflow: bool, list: seq<T>, evicted: seq<T>)
    requires Reached(max, h, position, haveOverflow, list, evicted)
    ensures 0 <= position <= |list|
    ensures AgeOrder(list, position) == RingLaws.BoundedFifo(RingCapacity(max), h)
    ensures evicted + AgeOrder(list, position) == h
    ensures multiset(h) == multiset(evicted) + multiset(list)
  {
    RingLaws.AgeOrderIsFifo(RingCapacity(max), h);
    RingLaws.AgeOrderIsWindow(RingCapacity(max), h);
    RingLaws.Conservation(RingCapacity(max), h);
  }

  lemma FlagMeaning<T>(max: nat, h: seq<T>, position: int, haveOverflow: bool, list: seq<T>, evicted: seq<T>)
    requires Reached(max, h, position, haveOverflow, list, evicted)
    ensures (haveOverflow <==> evicted != []) <==> !(max == 0 && |h| == 1)
  {
    RingLaws.OverflowMeansEvicted(max, h);
  }

  class CircularArray<T(0)> {
    var position: int32
    var haveOverflow: bool
    const max: int32
    const circularArray: ArrayList<T>

    ghost var history: seq<T>  // every entry added so far
    ghost var evicted: seq<T>  // every entry overwritten so far

    /** Every field is a closed form of the history. */
    ghost predicate Valid()
      reads this, circularArray, circularArray.elems
    {
      && circularArray.Valid()
      && 0 <= max
      && Reached(max as nat, history, position as int, haveOverflow, circularArray.Contents(), evicted)
    }

    constructor (size: int32)
      requires 0 <= size
      ensures Valid() && fresh(circularArray) && fresh(circularArray.elems)
      ensures max == size && history == [] && evicted == []
      ensures position == 0 && !haveOverflow
    {
      position, haveOverflow := 0, false;
      max := size;
      circularArray := new ArrayList(size as nat);
      history, evicted := [], [];
    }

    method Add(entry: T)
      requires Valid()
      modifies this`position, this`haveOverflow, this`history, this`evicted
      modifies circularArray, circularArray.elems
      ensures Valid()
      ensures circularArray.elems == old(circularArray.elems) || fresh(circularArray.elems)
      ensures history == old(history) + [entry]
      ensures haveOverflow <==> |history| > max as int
      ensures position as int == (|history| - 1) % (if max == 0 then 1 else max as int) + 1
    {
      ghost var before := circularArray.Contents();
      AddReached(max as nat, history, position as int, haveOverflow, before, evicted, entry);
      if position >= max {
        position := 0;
        haveOverflow := true;
      }
      if circularArray.count > position as int {
        evicted := evicted + [before[position]];
      }
      history := history + [entry];
      PutAt(position, entry);
      position := position + 1;
    }

    /** Indexed remove, if the slot is taken, and indexed insert: a write to that one slot. */
    method PutAt(slot: int32, entry: T)
      requires circularArray.Valid() && 0 <= slot as int <= circularArray.count
      modifies circularArray, circularArray.elems
      ensures circularArray.Valid()
      ensures circularArray.elems == old(circularArray.elems) || fresh(circularArray.elems)
      ensures circularArray.Contents() == Put(old(circularArray.Contents()), slot as nat, entry)
    {
      ghost var before := circularArray.Contents();
      if circularArray.count > slot as int {
        circularArray.RemoveAt(slot as nat);
      }
      circularArray.InsertAt(slot as nat, entry);
    }

    /** The stored count as a function of the history alone; it fits the integer width. */
    method Size() returns (n: int32)
      requires Valid()
      ensures n as int == Min(|history|, RingCapacity(max as nat))
    {
      n := circularArray.count as int32;
    }

    /** The elements in the order in which the textual form lists them, that is, storage order. */
    method Entries() returns (list: seq<T>)
      requires Valid()
      ensures list == Layout(RingCapacity(max as nat), history)
    {
      list := circularArray.elems[..circularArray.count];
    }

    /** What a reader sees who starts at the write position and goes round. */
    lemma KeepsMostRecent()
      requires Valid()
      ensures var c, list := RingCapacity(max as nat), circularArray.Contents();
              && 0 <= position as int <= |list|
              && AgeOrder(list, position as nat) == RingLaws.BoundedFifo(c, history)
              && evicted + AgeOrder(list, position as nat) == history
              && multiset(history) == multiset(evicted) + multiset(list)
    {
      ReachedKeeps(max as nat, history, position as int, haveOverflow, circularArray.Contents(), evicted);
    }

    /** The flag says that something was overwritten, in every valid state but one: after the first
        add to an array created with size 0 it is set although nothing was. */
    lemma OverflowFlag()
      requires Valid()
      ensures !(max == 0 && |history| == 1) ==> (haveOverflow <==> evicted != [])
      ensures max == 0 && |history| == 1 ==> haveOverflow && evicted == []
    {
      FlagMeaning(max as nat, history, position as int, haveOverflow, circularArray.Contents(), evicted);
      RingLaws.EvictedIsPrefix(RingCapacity(max as nat), history);
    }
  }
}
