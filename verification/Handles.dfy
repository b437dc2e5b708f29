/** The handle table of src/util/handles.h: a fixed number of slots, a handle being the number of a taken one. */
module Handles {

  datatype Slot<+T> = Free | Taken(data: T)

  const EMPTY_HANDLE := 0xFFFF_FFFF

  ghost function TakenIn<T>(s: seq<Slot<T>>): set<nat> {
    set i: nat | i < |s| && s[i].Taken?
  }

  lemma TakenAfter<T>(s: seq<Slot<T>>, i: nat, slot: Slot<T>)
    requires i < |s| && s[i].Taken? != slot.Taken?
    ensures |TakenIn(s[i := slot])| == if slot.Taken? then |TakenIn(s)| + 1 else |TakenIn(s)| - 1
  {
    if slot.Taken? {
      assert TakenIn(s[i := slot]) == TakenIn(s) + {i};
    } else {
      assert TakenIn(s) == TakenIn(s[i := slot]) + {i};
    }
  }

  class HandleTable<T> {
    const slots: array<Slot<T>>
    var count: nat

    ghost predicate Valid()
      reads this, slots
    {
      && slots.Length < EMPTY_HANDLE
      && count == |TakenIn(slots[..])|
    }

    constructor (capacity: nat)
      requires capacity < EMPTY_HANDLE
      ensures Valid() && fresh(slots) && slots.Length == capacity && count == 0
      ensures forall i | 0 <= i < capacity :: slots[i] == Free
    {
      slots := new Slot<T>[capacity](_ => Free);
      count := 0;
      new;
      assert TakenIn(slots[..]) == {};
    }

    predicate Has(handle: nat)
      reads this, slots
    {
      handle != EMPTY_HANDLE && handle < slots.Length && slots[handle].Taken?
    }

    function Get(handle: nat): (s: Slot<T>)
      reads this, slots
      ensures s.Taken? <==> Has(handle)
    {
      if Has(handle) then slots[handle] else Free
    }

    /** The lowest free slot, or -1. */
    method FindNextAvailableSpot() returns (index: int)
      ensures -1 <= index < slots.Length
      ensures index >= 0 ==> slots[index].Free? && forall i | 0 <= i < index :: slots[i].Taken?
      ensures index == -1 ==> forall i | 0 <= i < slots.Length :: slots[i].Taken?
    {
      for i := 0 to slots.Length
        invariant forall j | 0 <= j < i :: slots[j].Taken?
      {
        if slots[i].Free? {
          return i;
        }
      }
      index := -1;
    }

    /** Takes the lowest free slot; `Free` stands for the exception when there is none. */
    method AllocateNew(data: T) returns (handle: Slot<nat>)
      requires Valid()
      modifies this, slots
      ensures Valid()
      ensures handle.Free? <==> forall i | 0 <= i < slots.Length :: old(slots[i]).Taken?
      ensures handle.Free? ==> slots[..] == old(slots[..]) && count == old(count)
      ensures handle.Taken? ==>
                && handle.data < slots.Length && old(slots[handle.data]).Free?
                && (forall i | 0 <= i < handle.data :: old(slots[i]).Taken?)
                && slots[..] == old(slots[..])[handle.data := Taken(data)] && count == old(count) + 1
    {
      var index := FindNextAvailableSpot();
      if index < 0 {
        return Free;
      }
      TakenAfter(slots[..], index, Taken(data));
      slots[index] := Taken(data);
      count := count + 1;
      handle := Taken(index);
    }

    /** Frees a slot and gives up its contents; `Free` stands for the exception when it is not taken. */
    method Release(handle: nat) returns (data: Slot<T>)
      requires Valid()
      modifies this, slots
      ensures Valid()
      ensures data == old(Get(handle))
      ensures data.Free? ==> slots[..] == old(slots[..]) && count == old(count)
      ensures data.Taken? ==> slots[..] == old(slots[..])[handle := Free] && count == old(count) - 1
    {
      if !Has(handle) {
        return Free;
      }
      data := slots[handle];
      TakenAfter(slots[..], handle, Free);
      slots[handle] := Free;
      count := count - 1;
    }

    /** Where an iterator that stands at `index` moves: the next taken slot, or the end. The source reads the slot
        before it compares the index with the capacity; here the comparison comes first. */
    method Next(index: int) returns (next: nat)
      requires -1 <= index < slots.Length
      ensures index < next <= slots.Length
      ensures next < slots.Length ==> slots[next].Taken?
      ensures forall i | index < i < next :: slots[i].Free?
    {
      next := index + 1;
      while next < slots.Length && slots[next].Free?
        invariant index < next <= slots.Length
        invariant forall i | index < i < next :: slots[i].Free?
      {
        next := next + 1;
      }
    }

    /** Iterating visits every taken slot once, in ascending order. */
    method Iterate() returns (visited: seq<nat>)
      ensures forall i, j | 0 <= i < j < |visited| :: visited[i] < visited[j]
      ensures forall h: nat :: h in visited <==> h < slots.Length && slots[h].Taken?
    {
      visited := [];
      var at := 0;
      if slots.Length > 0 && slots[0].Free? {
        at := Next(0);
      }
      while at < slots.Length
        invariant 0 <= at <= slots.Length
        invariant at < slots.Length ==> slots[at].Taken?
        invariant forall i, j | 0 <= i < j < |visited| :: visited[i] < visited[j]
        invariant forall i | 0 <= i < |visited| :: visited[i] < at
        invariant forall h: nat :: h in visited <==> h < at && slots[h].Taken?
        decreases slots.Length - at
      {
        visited := visited + [at];
        at := Next(at);
      }
    }
  }
}
