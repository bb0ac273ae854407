/** The power-of-two circular buffer of src/deque.c, as the FIFO queue of graph traversals uses it. */
module Deque {
  import opened Ring

  const DEFAULT_CAP := 8

  class Deque {
    var slots: array<nat>
    var head: nat
    var size: nat

    ghost predicate Valid()
      reads this
    {
      IsPowerOfTwo(slots.Length) && slots.Length > 0 && head < slots.Length && size <= slots.Length
    }

    /** The queued items, front first, unwrapping the ring. */
    ghost function Contents(): seq<nat>
      reads this, slots
      requires Valid()
    {
      if head + size <= slots.Length then slots[head..head + size]
      else slots[head..] + slots[..head + size - slots.Length]
    }

    constructor (hint: nat)
      ensures Valid() && fresh(slots) && Contents() == []
    {
      SmallPowers();
      slots := new nat[NextPow2(hint, DEFAULT_CAP)](_ => 0);
      head, size := 0, 0;
    }

    /** Physical index of logical position i: `(head + i) & (cap - 1)`. */
    function SlotOf(i: nat): (p: nat)
      reads this
      requires Valid() && i <= slots.Length
      ensures p < slots.Length
    {
      if head + i < slots.Length then head + i else head + i - slots.Length
    }

    /** Doubles the buffer, laying the items out from its start. */
    method Grow()
      requires Valid()
      modifies this
      ensures Valid() && fresh(slots) && size == old(size) && Contents() == old(Contents())
      ensures slots.Length == 2 * old(slots.Length)
    {
      ghost var was := Contents();
      assert (slots.Length * 2) / 2 == slots.Length;
      var bigger := new nat[slots.Length * 2](_ => 0);
      for i := 0 to size
        invariant Valid() && slots == old(slots) && head == old(head) && size == old(size) && slots[..] == old(slots[..])
        invariant bigger[..i] == was[..i]
        modifies bigger
      {
        bigger[i] := slots[SlotOf(i)];
        assert slots[SlotOf(i)] == was[i];
        assert was[..i + 1] == was[..i] + [was[i]];
      }
      assert was[..size] == was;
      slots, head := bigger, 0;
    }

    method Store(x: nat)
      requires Valid() && size < slots.Length
      modifies this`size, slots
      ensures Valid() && Contents() == old(Contents()) + [x]
    {
      slots[SlotOf(size)] := x;
      size := size + 1;
      assert Contents() == old(Contents()) + [x];
    }

    method PushBack(x: nat)
      requires Valid()
      modifies this, slots
      ensures Valid() && (slots == old(slots) || fresh(slots))
      ensures Contents() == old(Contents()) + [x]
    {
      if size == slots.Length {
        Grow();
      }
      Store(x);
    }

    method PopFront() returns (x: nat)
      requires Valid() && size > 0
      modifies this
      ensures Valid() && slots == old(slots) && size == old(size) - 1
      ensures x == old(Contents())[0] && Contents() == old(Contents())[1..]
    {
      x := slots[head];
      head := if head + 1 == slots.Length then 0 else head + 1;
      size := size - 1;
    }
  }
}
