/** The growable 1-based binary heap of src/pqueue.c, holding the (distance, node) entries that the
    shortest-path search queues. */
module PriorityQueue {
  import opened BinaryHeap

  const DEFAULT_CAP := 16

  type Entry = Keyed<nat>

  class PQueue {
    var heap: array<Entry>   // slot 0 is unused
    var size: nat

    ghost predicate Shaped()
      reads this
    {
      size < heap.Length
    }

    /** The queued entries in array order. */
    ghost function Items(): (s: seq<Entry>)
      reads this, heap
      requires Shaped()
      ensures |s| == size
    {
      heap[1..size + 1]
    }

    ghost predicate Valid()
      reads this, heap
    {
      Shaped() && heap.Length >= 2 && Heap(Items())
    }

    ghost function Bag(): multiset<Entry>
      reads this, heap
      requires Shaped()
    {
      multiset(Items())
    }

    constructor (initial: nat)
      ensures Valid() && fresh(heap) && Items() == []
    {
      var cap := if initial > 0 then initial else DEFAULT_CAP;
      heap := new Entry[cap + 1](_ => Keyed(0, 0));
      size := 0;
    }

    method SwapSlots(a: nat, b: nat)
      requires Shaped() && 1 <= a <= size && 1 <= b <= size
      modifies heap
      ensures Items() == Swap(old(Items()), a - 1, b - 1)
    {
      heap[a], heap[b] := heap[b], heap[a];
    }

    method SiftUp(start: nat)
      requires Shaped() && 1 <= start <= size
      modifies heap
      ensures Items() == SiftedUp(old(Items()), start - 1)
    {
      var i := start;
      while i > 1 && heap[i].key < heap[i / 2].key
        invariant 1 <= i <= size
        invariant SiftedUp(Items(), i - 1) == SiftedUp(old(Items()), start - 1)
      {
        var parent := i / 2;
        assert parent - 1 == Parent(i - 1) && heap[i] == Items()[i - 1] && heap[parent] == Items()[parent - 1];
        SwapSlots(i, parent);
        i := parent;
      }
      assert i > 1 ==> i / 2 - 1 == Parent(i - 1) && heap[i / 2] == Items()[i / 2 - 1];
    }

    /** The smallest of slot i and its children. */
    method Smallest(i: nat) returns (smallest: nat)
      requires Shaped() && 1 <= i <= size
      ensures smallest == MinOf(Items(), i - 1) + 1
    {
      smallest := i;
      assert forall k :: 1 <= k <= size ==> heap[k] == Items()[k - 1];
      if 2 * i <= size && heap[2 * i].key < heap[smallest].key {
        smallest := 2 * i;
      }
      if 2 * i + 1 <= size && heap[2 * i + 1].key < heap[smallest].key {
        smallest := 2 * i + 1;
      }
    }

    method SiftDown(start: nat)
      requires Shaped() && 1 <= start <= size
      modifies heap
      ensures Items() == SiftedDown(old(Items()), start - 1)
    {
      var i := start;
      while true
        invariant 1 <= i <= size
        invariant SiftedDown(Items(), i - 1) == SiftedDown(old(Items()), start - 1)
        decreases size - i
      {
        var smallest := Smallest(i);
        if smallest == i {
          break;
        }
        SwapSlots(i, smallest);
        i := smallest;
      }
    }

    /** Reallocates to newCap + 1 slots, keeping what is in use. */
    method Resize(newCap: nat)
      requires Shaped() && newCap >= size && newCap >= 1
      modifies this`heap
      ensures fresh(heap) && heap.Length == newCap + 1 && Items() == old(Items())
    {
      var fresh' := new Entry[newCap + 1](_ => Keyed(0, 0));
      for i := 0 to size + 1
        invariant fresh'[..i] == heap[..i] && heap == old(heap) && heap[..] == old(heap[..])
        modifies fresh'
      {
        fresh'[i] := heap[i];
      }
      assert fresh'[1..size + 1] == fresh'[..size + 1][1..];
      assert heap[1..size + 1] == heap[..size + 1][1..];
      heap := fresh';
    }

    method Grow()
      requires Shaped()
      modifies this`heap
      ensures (heap == old(heap) || fresh(heap)) && size + 1 < heap.Length && Items() == old(Items())
    {
      var cap := heap.Length - 1;
      if size >= cap {
        Resize(if cap * 2 < DEFAULT_CAP then DEFAULT_CAP else cap * 2);
      }
    }

    method Shrink()
      requires Shaped() && heap.Length >= 2
      modifies this`heap
      ensures (heap == old(heap) || fresh(heap)) && heap.Length >= 2 && Shaped() && Items() == old(Items())
    {
      var cap := heap.Length - 1;
      if size > 0 && size <= cap / 4 && cap > DEFAULT_CAP {
        Resize(cap / 2);
      }
    }

    method Append(e: Entry)
      requires Shaped() && size + 1 < heap.Length
      modifies this`size, heap
      ensures Shaped() && heap == old(heap) && Items() == old(Items()) + [e]
    {
      size := size + 1;
      heap[size] := e;
    }

    method Push(e: Entry)
      requires Valid()
      modifies this, heap
      ensures Valid() && (heap == old(heap) || fresh(heap))
      ensures Bag() == old(Bag()) + multiset{e}
    {
      PushedHeap(Items(), e);
      PushLast(e);
    }

    method PushLast(e: Entry)
      requires Shaped()
      modifies this, heap
      ensures Shaped() && (heap == old(heap) || fresh(heap)) && heap.Length >= 2
      ensures Items() == Pushed(old(Items()), e)
    {
      Grow();
      Append(e);
      SiftUp(size);
    }

    /** The last entry takes the place of the one in slot i. */
    method Unlink(i: nat)
      requires Shaped() && 1 <= i <= size
      modifies this`size, heap
      ensures Shaped() && size == old(size) - 1
      ensures var s := old(Items()); Items() == if i == |s| then s[..|s| - 1] else s[..|s| - 1][i - 1 := s[|s| - 1]]
    {
      heap[i] := heap[size];
      size := size - 1;
    }

    /** None when empty; otherwise an entry of least distance, removed. */
    method Pop() returns (r: seq<Entry>)
      requires Valid()
      modifies this, heap
      ensures Valid() && (heap == old(heap) || fresh(heap))
      ensures old(Items()) == [] ==> r == [] && Items() == []
      ensures old(Items()) != [] ==>
                && |r| == 1 && r[0] in old(Bag()) && Bag() == old(Bag()) - multiset{r[0]}
                && forall e :: e in old(Bag()) ==> r[0].key <= e.key
    {
      if size == 0 {
        return [];
      }
      RemovedHeap(Items(), 0);
      LeastOfAll(Items());
      var top := heap[1];
      assert top == Items()[0];
      RemoveTop();
      return [top];
    }

    method RemoveTop()
      requires Shaped() && size > 0
      modifies this, heap
      ensures Shaped() && heap.Length >= 2 && (heap == old(heap) || fresh(heap))
      ensures Items() == Removed(old(Items()), 0)
    {
      Unlink(1);
      if size > 0 {
        SiftDown(1);
      }
      Shrink();
    }

    /** Removes one occurrence of an element found by scanning. */
    method Remove(elem: Entry) returns (b: bool)
      requires Valid()
      modifies this`size, heap
      ensures Valid()
      ensures b == (elem in old(Bag()))
      ensures Bag() == old(Bag()) - multiset{elem}
    {
      var i := Find(elem);
      if i == 0 {
        assert elem !in Bag();
        return false;
      }
      RemovedHeap(Items(), i - 1);
      assert Items()[i - 1] == elem && elem in Bag();
      RemoveSlot(i);
      return true;
    }

    method RemoveSlot(i: nat)
      requires Shaped() && 1 <= i <= size
      modifies this`size, heap
      ensures Shaped() && Items() == Removed(old(Items()), i - 1)
    {
      Unlink(i);
      if i <= size {
        SiftUp(i);
        SiftDown(i);
      }
    }

    /** First slot holding the element, 0 if none. */
    method Find(elem: Entry) returns (i: nat)
      requires Shaped()
      ensures i <= size && (i == 0 <==> elem !in Items()) && (i > 0 ==> heap[i] == elem)
    {
      i := 1;
      while i <= size
        invariant 1 <= i <= size + 1
        invariant forall j :: 1 <= j < i ==> heap[j] != elem
      {
        if heap[i] == elem {
          assert Items()[i - 1] == elem;
          return;
        }
        i := i + 1;
      }
      return 0;
    }
  }
}
