/** The stack of slots: slots are pushed and popped at the top but filled from the
    bottom, so the filled ones are always a prefix. */
module SlotStacks {
  import opened Memory
  import opened BulkSpec

  /** The source keeps the slots behind a raw pointer and asserts that no push passes
      the capacity.  Here the memory behind the pointer may be longer than the capacity,
      so that a push that passes it can be described: `peak` remembers the greatest
      number of slots, and a push has passed the capacity exactly if `peak > capacity`. */
  class SlotStack {
    const slots: array<nat>
    const capacity: nat
    var nslots: nat
    var nfilled: nat
    ghost var peak: nat

    ghost predicate Valid()
      reads this
    {
      nfilled <= nslots <= slots.Length && nslots <= peak
    }

    ghost function View(): Slots
      reads this, slots
      requires Valid()
    {
      Slots(slots[..nslots], nfilled)
    }

    constructor (capacity: nat, memory: nat)
      ensures Valid() && fresh(slots) && slots.Length == memory && this.capacity == capacity
      ensures View() == Slots([], 0) && peak == 0
    {
      slots := new nat[memory];
      this.capacity := capacity;
      nslots, nfilled, peak := 0, 0, 0;
    }

    method Push(idx: nat)
      requires Valid() && nslots < slots.Length
      modifies this`nslots, this`peak, slots
      ensures Valid() && View() == PushSlot(old(View()), idx)
      ensures peak == Higher(old(peak), old(nslots) + 1)
    {
      slots[nslots] := idx;
      nslots := nslots + 1;
      peak := Higher(peak, nslots);
    }

    /** A slot that was open is popped together with its place; a filled one gives
        back its count. */
    method Pop() returns (idx: nat)
      requires Valid() && nslots > 0
      modifies this`nslots, this`nfilled
      ensures Valid() && View() == PopSlot(old(View()))
      ensures idx == old(View()).idx[old(nslots) - 1]
    {
      if nfilled == nslots {
        nfilled := nfilled - 1;
      }
      nslots := nslots - 1;
      idx := slots[nslots];
    }

    /** The deepest open slot. */
    method Fill() returns (dst: nat)
      requires Valid() && nfilled < nslots
      modifies this`nfilled
      ensures Valid() && View() == FilledSlot(old(View()))
      ensures dst == old(View()).idx[old(nfilled)]
    {
      dst := slots[nfilled];
      nfilled := nfilled + 1;
    }

    predicate IsEmpty()
      reads this, slots
      requires Valid()
      ensures IsEmpty() <==> View().idx == []
    {
      nslots == 0
    }

    predicate HasOpen()
      reads this, slots
      requires Valid()
      ensures HasOpen() <==> Open(View()) > 0
    {
      nslots != nfilled
    }
  }
}
