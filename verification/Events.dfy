/** The event scheduler of src/event.c.  Entries live in a table indexed by identity, which stands for the memory they are
    allocated in; the heap is an array of identities and every entry records its own index there. */
module Events {
  import opened Common
  import opened BinaryHeap

  type Id = nat
  datatype Entry = Entry(when: int, freq: int, dead: bool, hidx: nat, owner: Option<string>)
  type Table = map<Id, Entry>

  // ---- table and heap ---------------------------------------------------------------------------------

  /** The back-indices are exact both ways: heap and table hold the same entries. */
  ghost predicate Indexed(heap: seq<Id>, ev: Table) {
    && (forall i :: 0 <= i < |heap| ==> heap[i] in ev && ev[heap[i]].hidx == i)
    && (forall id :: id in ev ==> ev[id].hidx < |heap| && heap[ev[id].hidx] == id)
  }

  ghost function Items(heap: seq<Id>, ev: Table): (s: seq<Keyed<Id>>)
    requires forall i :: 0 <= i < |heap| ==> heap[i] in ev
    ensures |s| == |heap| && forall i :: 0 <= i < |heap| ==> s[i] == Keyed(ev[heap[i]].when, heap[i])
  {
    seq(|heap|, i requires 0 <= i < |heap| => Keyed(ev[heap[i]].when, heap[i]))
  }

  ghost predicate Ordered(heap: seq<Id>, ev: Table) {
    Indexed(heap, ev) && Heap(Items(heap, ev))
  }

  /** The same entries but for their back-indices. */
  ghost predicate SameData(a: Table, b: Table) {
    a.Keys == b.Keys && forall id :: id in a ==> a[id].(hidx := 0) == b[id].(hidx := 0)
  }

  lemma SameTrans(a: Table, b: Table, c: Table)
    requires SameData(a, b) && SameData(b, c)
    ensures SameData(a, c)
  {
    forall id | id in a ensures a[id].(hidx := 0) == c[id].(hidx := 0) { assert id in b; }
  }

  lemma RootFirst(heap: seq<Id>, ev: Table, id: Id)
    requires Ordered(heap, ev) && id in ev
    ensures heap != [] && ev[heap[0]].when <= ev[id].when
  {
    RootMin(Items(heap, ev), ev[id].hidx);
  }

  // ---- delays ---------------------------------------------------------------------------------------------

  /** A negative period is jittered by a random draw below 1000. */
  function Delay(freq: int, draw: nat): int
    requires draw < 1000
  {
    if freq < 0 then
      var twoThird := (2 * -freq) / 3;
      twoThird + (draw * twoThird) / 1000
    else freq
  }

  lemma DrawPart(x: nat, draw: nat)
    requires draw < 1000
    ensures 0 <= (draw * x) / 1000 <= x && (x > 0 ==> (draw * x) / 1000 < x)
  {
    if x > 0 {
      assert draw * x <= 999 * x by { assert (999 - draw) * x >= 0; }
    }
  }

  /** Jittered delays lie between the floor of two thirds and four thirds of the period. */
  lemma DelayBounds(freq: int, draw: nat)
    requires draw < 1000 && freq < 0
    ensures (2 * -freq) / 3 <= Delay(freq, draw) && 3 * Delay(freq, draw) <= 4 * -freq
  {
    DrawPart((2 * -freq) / 3, draw);
  }

  /** A periodic event is put off to a later time unless its period is -1, which jitters to nothing. */
  lemma DelayPositive(freq: int, draw: nat)
    requires draw < 1000
    ensures Delay(freq, draw) > 0 <==> freq != 0 && freq != -1
  {
    if freq < 0 { DrawPart((2 * -freq) / 3, draw); }
  }

  // ---- sifting keeps the indices -----------------------------------------------------------------------------

  lemma Swapped(heap: seq<Id>, ev: Table, i: nat, j: nat, heap': seq<Id>, ev': Table)
    requires Indexed(heap, ev) && i < |heap| && j < |heap| && i != j && heap' == Swap(heap, i, j)
    requires ev' == ev[heap[j] := ev[heap[j]].(hidx := i)][heap[i] := ev[heap[i]].(hidx := j)]
    ensures Indexed(heap', ev') && SameData(ev, ev') && Items(heap', ev') == Swap(Items(heap, ev), i, j)
  {
    forall k | 0 <= k < |heap'| ensures heap'[k] in ev' && ev'[heap'[k]].hidx == k {
      assert ev[heap[k]].hidx == k;
    }
    forall id | id in ev' ensures ev'[id].hidx < |heap'| && heap'[ev'[id].hidx] == id {
      assert heap[ev[id].hidx] == id;
    }
  }

  /** One changed key: whichever way it is wrong the two sifts repair it, the second one starting where the entry now is. */
  lemma SettledAnywhere(s: seq<Keyed<Id>>, i: nat, x: Keyed<Id>, p: nat)
    requires Heap(s) && i < |s| && p < |s|
    requires SiftedUp(s[i := x], i) == s[i := x] ==> p == i
    ensures Heap(SiftedDown(SiftedUp(s[i := x], i), p))
  {
    var r := s[i := x];
    forall c | 0 < c < |r| && c != i && Parent(c) != i ensures OrderedAt(r, c) {
      assert OrderedAt(s, c);
    }
    if i > 0 {
      assert OrderedAt(s, i);
      forall c | (c == 2 * i + 1 || c == 2 * i + 2) && c < |r| ensures s[Parent(i)].key <= r[c].key {
        assert OrderedAt(s, c);
      }
    }
    if i > 0 && x.key < s[Parent(i)].key {
      SiftUpRestores(r, i);
      HeapHasNoHole(SiftedUp(r, i), p);
      SiftDownRestores(SiftedUp(r, i), 0, p);
    } else {
      SiftDownRestores(r, 0, i);
    }
  }

  class Scheduler {
    var heap: seq<Id>
    var ev: Table
    var nextId: Id

    ghost predicate Linked()
      reads this
    {
      Indexed(heap, ev) && forall id :: id in ev ==> id < nextId
    }

    ghost predicate Valid()
      reads this
    {
      Linked() && Heap(Items(heap, ev))
    }

    constructor ()
      ensures Valid() && ev == map[] && heap == []
    {
      heap, ev, nextId := [], map[], 0;
    }

    method SwapSlots(i: nat, j: nat)
      requires Linked() && i < |heap| && j < |heap| && i != j
      modifies this`heap, this`ev
      ensures Linked() && SameData(old(ev), ev) && Items(heap, ev) == Swap(old(Items(heap, ev)), i, j)
    {
      ghost var h, e := heap, ev;
      var a, b := heap[i], heap[j];
      heap := heap[i := b];
      ev := ev[b := ev[b].(hidx := i)];
      heap := heap[j := a];
      ev := ev[a := ev[a].(hidx := j)];
      Swapped(h, e, i, j, heap, ev);
    }

    method SiftUp(start: nat)
      requires Linked() && start < |heap|
      modifies this`heap, this`ev
      ensures Linked() && SameData(old(ev), ev) && |heap| == |old(heap)|
      ensures Items(heap, ev) == SiftedUp(old(Items(heap, ev)), start)
    {
      hide Swap;
      var i := start;
      while i > 0
        invariant 0 <= i < |heap| && Linked() && SameData(old(ev), ev) && |heap| == |old(heap)|
        invariant SiftedUp(Items(heap, ev), i) == SiftedUp(old(Items(heap, ev)), start)
      {
        var parent := (i - 1) / 2;
        if ev[heap[parent]].when <= ev[heap[i]].when {
          break;
        }
        ghost var before := ev;
        SwapSlots(i, parent);
        SameTrans(old(ev), before, ev);
        i := parent;
      }
    }

    /** The earlier of i and its children. */
    method Earliest(i: nat) returns (min: nat)
      requires Linked() && i < |heap|
      ensures min == MinOf(Items(heap, ev), i)
    {
      min := i;
      if 2 * i + 1 < |heap| && ev[heap[2 * i + 1]].when < ev[heap[min]].when {
        min := 2 * i + 1;
      }
      if 2 * i + 2 < |heap| && ev[heap[2 * i + 2]].when < ev[heap[min]].when {
        min := 2 * i + 2;
      }
    }

    method SiftDown(start: nat)
      requires Linked() && start < |heap|
      modifies this`heap, this`ev
      ensures Linked() && SameData(old(ev), ev) && |heap| == |old(heap)|
      ensures Items(heap, ev) == SiftedDown(old(Items(heap, ev)), start)
    {
      hide Swap, MinOf;
      var i := start;
      while true
        invariant 0 <= i < |heap| && Linked() && SameData(old(ev), ev) && |heap| == |old(heap)|
        invariant SiftedDown(Items(heap, ev), i) == SiftedDown(old(Items(heap, ev)), start)
        decreases |heap| - i
      {
        var min := Earliest(i);
        if min == i {
          break;
        }
        ghost var before := ev;
        SwapSlots(i, min);
        SameTrans(old(ev), before, ev);
        i := min;
      }
    }

    /** Adds an entry under a new identity. */
    method Push(e: Entry) returns (id: Id)
      requires Valid()
      modifies this
      ensures Valid() && id == old(nextId) && nextId == id + 1 && SameData(old(ev)[id := e], ev)
    {
      id := nextId;
      nextId := nextId + 1;
      ghost var s := Items(heap, ev);
      heap := heap + [id];
      ev := ev[id := e.(hidx := |heap| - 1)];
      AppendedIndexed(old(heap), old(ev), id, e, heap, ev);
      PushedHeap(s, Keyed(e.when, id));
      ghost var before := ev;
      SiftUp(|heap| - 1);
      SameTrans(old(ev)[id := e], before, ev);
    }

    /** Sifts entry i both ways after its key changed from what a heap had there. */
    method Settle(i: nat, ghost s: seq<Keyed<Id>>, ghost x: Keyed<Id>)
      requires Linked() && i < |heap| && Heap(s) && |s| == |heap| && Items(heap, ev) == s[i := x]
      modifies this`heap, this`ev
      ensures Valid() && SameData(old(ev), ev)
    {
      var id := heap[i];
      SiftUp(i);
      ghost var before := ev;
      assert id in ev;
      assert SiftedUp(s[i := x], i) == s[i := x] ==> heap[i] == id by {
        assert Items(heap, ev)[i].item == heap[i];
      }
      SettledAnywhere(s, i, x, ev[id].hidx);
      SiftDown(ev[id].hidx);
      SameTrans(old(ev), before, ev);
    }

    /** Takes the entry at index i out and frees it. */
    method RemoveAt(i: nat)
      requires Valid() && i < |heap|
      modifies this`heap, this`ev
      ensures Valid() && SameData(old(ev) - {old(heap)[i]}, ev)
    {
      ghost var s := Items(heap, ev);
      var n := |heap| - 1;
      var gone := heap[i];
      DroppedLast(s);
      if i == n {
        heap := heap[..n];
        ev := ev - {gone};
        assert Items(heap, ev) == s[..n];
        return;
      }
      var last := heap[n];
      heap := heap[..n][i := last];
      ev := ev[last := ev[last].(hidx := i)] - {gone};
      FilledIndexed(old(heap), old(ev), i, heap, ev);
      ghost var before := ev;
      Settle(i, s[..n], s[n]);
      SameTrans(old(ev) - {gone}, before, ev);
    }

    /** Gives an entry a new deadline. */
    method Rekey(id: Id, when: int)
      requires Valid() && id in ev
      modifies this`heap, this`ev
      ensures Valid() && SameData(old(ev)[id := old(ev)[id].(when := when)], ev)
    {
      ghost var s := Items(heap, ev);
      var i := ev[id].hidx;
      ev := ev[id := ev[id].(when := when)];
      ghost var before := ev;
      assert Items(heap, ev) == s[i := Keyed(when, id)];
      Settle(i, s, Keyed(when, id));
      SameTrans(old(ev)[id := old(ev)[id].(when := when)], before, ev);
    }

    method Update(id: Id, freq: int, now: int, draw: nat)
      requires Valid() && id in ev && draw < 1000
      modifies this`heap, this`ev
      ensures Valid() && SameData(old(ev)[id := old(ev)[id].(freq := freq, when := now + Delay(freq, draw))], ev)
    {
      ghost var s := Items(heap, ev);
      ev := ev[id := ev[id].(freq := freq)];
      assert Items(heap, ev) == s;
      ghost var mid := ev;
      Rekey(id, now + Delay(freq, draw));
    }

    /** Deletion only marks; the run reaps. */
    method Delete(id: Id)
      requires Valid() && id in ev
      modifies this`ev
      ensures Valid() && ev == old(ev)[id := old(ev)[id].(dead := true)]
    {
      ghost var s := Items(heap, ev);
      ev := ev[id := ev[id].(dead := true)];
      assert Items(heap, ev) == s;
    }

    /** Bottom-up rebuild of the order. */
    method Rebuild()
      requires Linked()
      modifies this`heap, this`ev
      ensures Valid() && SameData(old(ev), ev)
    {
      hide Swap;
      var j := |heap| / 2;
      FirstHalf(Items(heap, ev));
      while j > 0
        invariant 0 <= j <= |heap| / 2 && Linked() && SameData(old(ev), ev) && HeapFrom(Items(heap, ev), j)
      {
        j := j - 1;
        ghost var s := Items(heap, ev);
        FromNext(s, j);
        SiftDownRestores(s, j, j);
        ghost var before := ev;
        SiftDown(j);
        SameTrans(old(ev), before, ev);
      }
    }

    /** Moves every deadline back by the same amount, but not below 0, and rebuilds. */
    method SetBack(amount: int)
      requires Valid()
      modifies this`heap, this`ev
      ensures Valid() && SameData(ShiftedBack(old(ev), amount), ev)
    {
      var i := 0;
      ghost var e := ev;
      while i < |heap|
        invariant 0 <= i <= |heap| && heap == old(heap) && ev.Keys == e.Keys && nextId == old(nextId)
        invariant forall k :: 0 <= k < |heap| ==> ev[heap[k]] == if k < i then BackBy(e[heap[k]], amount) else e[heap[k]]
      {
        var id := heap[i];
        ev := ev[id := ev[id].(when := if ev[id].when > amount then ev[id].when - amount else 0)];
        i := i + 1;
      }
      assert forall id :: id in e ==> ev[id] == BackBy(e[id], amount);
      ghost var before := ev;
      Rebuild();
      SameTrans(ShiftedBack(e, amount), before, ev);
    }

    /** Frees every event a module registered, closing the gaps. */
    method Compact(mod: Option<string>)
      requires Linked()
      modifies this`heap, this`ev
      ensures Linked() && SameData(Without(old(ev), mod), ev)
    {
      hide Compacted;
      var i, n := 0, 0;
      ghost var e, h := ev, heap;
      CompactStart(h, e, mod);
      while i < |heap|
        invariant 0 <= n <= i <= |heap| == |h| && nextId == old(nextId) && Compacted(h, e, mod, i, heap, ev, n)
      {
        var id := heap[i];
        CompactStep(h, e, mod, i, heap, ev, n);
        if ev[id].owner == mod {
          ev := ev - {id};
        } else {
          heap := heap[n := id];
          ev := ev[id := ev[id].(hidx := n)];
          n := n + 1;
        }
        i := i + 1;
      }
      CompactDone(h, e, mod, heap, ev, n);
      heap := heap[..n];
    }

    method Purge(mod: Option<string>)
      requires Valid()
      modifies this`heap, this`ev
      ensures Valid()
      ensures mod.None? ==> ev == old(ev) && heap == old(heap)
      ensures mod.Some? ==> SameData(Without(old(ev), mod), ev)
    {
      if mod.None? {
        return;
      }
      Compact(mod);
      ghost var before := ev;
      Rebuild();
      SameTrans(Without(old(ev), mod), before, ev);
    }

    /** What a callback does: it may add events, update any events and mark any events deleted. */
    method Callback(e: Effect, now: int)
      requires Valid()
      modifies this
      ensures Valid() && nextId == old(nextId) + |e.add|
      ensures SameData(Called(old(ev), e, now, old(nextId)), ev)
    {
      hide SameData, Marked, Changed, Extended, Indexed, Heap;
      AddAll(e.add);
      ghost var x, m := Extended(old(ev), e.add, old(nextId)), ev;
      UpdateAll(e.update, now);
      ChangeBoth(x, m, e.update, now);
      SameTrans(Changed(x, e.update, now), Changed(m, e.update, now), ev);
      MarkBoth(Changed(x, e.update, now), ev, e.kill);
      KillAll(e.kill);
    }

    method UpdateAll(update: seq<Change>, now: int)
      requires Valid()
      modifies this`heap, this`ev
      ensures Valid() && SameData(Changed(old(ev), update, now), ev)
    {
      hide SameData, Changed, Indexed, Heap, Delay;
      ghost var t := ev;
      ChangedNone(t, update, now);
      for i := 0 to |update|
        invariant Valid() && SameData(Changed(t, update[..i], now), ev)
      {
        ghost var before := ev;
        ChangedNext(t, update, now, i);
        SameIds(Changed(t, update[..i], now), before, update[i].id);
        if update[i].id in ev {
          Update(update[i].id, update[i].freq, now, update[i].draw);
          AlterBoth(Changed(t, update[..i], now), before, update[i], now);
          SameTrans(Changed(t, update[..i + 1], now), Alter(before, update[i], now), ev);
        }
      }
      assert update[..|update|] == update;
    }

    method AddAll(add: seq<New>)
      requires Valid()
      modifies this
      ensures Valid() && nextId == old(nextId) + |add| && SameData(Extended(old(ev), add, old(nextId)), ev)
    {
      hide SameData, Extended, Indexed, Heap;
      ghost var t, next := ev, nextId;
      ExtendedNone(t, add, next);
      for i := 0 to |add|
        invariant Valid() && nextId == next + i && SameData(Extended(t, add[..i], next), ev)
      {
        ghost var before := ev;
        var id := Push(NewEntry(add[i]));
        ExtendedNext(t, add, next, i);
        SetBoth(Extended(t, add[..i], next), before, id, NewEntry(add[i]));
        SameTrans(Extended(t, add[..i + 1], next), before[id := NewEntry(add[i])], ev);
      }
      assert add[..|add|] == add;
    }

    method KillAll(kill: seq<Id>)
      requires Valid()
      modifies this`ev
      ensures Valid() && ev == Marked(old(ev), kill)
    {
      hide Marked, Indexed, Heap;
      ghost var t := ev;
      MarkedNone(t, kill);
      for i := 0 to |kill|
        invariant Valid() && ev == Marked(t, kill[..i])
      {
        MarkedNext(t, kill, i);
        if kill[i] in ev {
          Delete(kill[i]);
        }
      }
      assert kill[..|kill|] == kill;
    }

    /** Fires the entry at the root: callback, then removal or rescheduling wherever the entry is by then. */
    method FireRoot(e: Effect, now: int, draw: nat)
      requires Valid() && heap != [] && draw < 1000
      modifies this
      ensures Valid() && nextId == old(nextId) + |e.add|
      ensures SameData(After(old(ev), old(heap)[0], e, now, draw, old(nextId)), ev)
    {
      hide Delay, SameData, Called, Indexed, Heap;
      var id := heap[0];
      RootInTable(heap, ev);
      ghost var m := Called(ev, e, now, nextId);
      StillThere(ev, e, now, nextId, id);
      Callback(e, now);
      ghost var mid := ev;
      SameAt(m, mid, id);
      if ev[id].dead || ev[id].freq == 0 {
        Reap(id);
        DropBoth(m, mid, id);
        SameTrans(m - {id}, mid - {id}, ev);
      } else {
        var when := now + Delay(ev[id].freq, draw);
        Rekey(id, when);
        MoveBoth(m, mid, id, when);
        SameTrans(m[id := m[id].(when := when)], mid[id := mid[id].(when := when)], ev);
      }
    }

    /** Takes an entry out by its back-index. */
    method Reap(id: Id)
      requires Valid() && id in ev
      modifies this`heap, this`ev
      ensures Valid() && SameData(old(ev) - {id}, ev)
    {
      RemoveAt(ev[id].hidx);
    }

    /** op_event_run: reaps dead entries at the root and fires due ones until the earliest deadline is in the future. */
    method Run(now: int, script: nat -> Effect, draws: nat -> nat) returns (fired: seq<Id>)
      requires Valid() && NoneStalled(ev, now)
      requires forall k: nat :: LaterOnly(script(k), now)
      requires forall k: nat :: draws(k) < 1000
      modifies this
      ensures Valid() && forall id :: id in ev ==> ev[id].when > now
      ensures FiredRight(old(ev), now, script, fired)
      ensures forall id :: id in old(ev) && Due(old(ev)[id], now) ==> id in fired || id in Spared(script, |fired|)
      ensures ButForDead(ev, Ledger(old(ev), old(nextId), now, script, draws, fired).0)
    {
      hide Indexed, Heap, After, SameData, ButForDead, Ledger, RunInv, FiredRight, NoneStalled;
      fired := [];
      ghost var t0, next0 := ev, nextId;
      RunStart(t0, next0, now, script, draws);
      while heap != []
        invariant Valid() && NoneStalled(ev, now) && RunInv(t0, now, script, ev, fired)
        invariant nextId == Ledger(t0, next0, now, script, draws, fired).1
        invariant ButForDead(ev, Ledger(t0, next0, now, script, draws, fired).0)
        decreases |DueSet(ev, now)|, |ev|
      {
        var id := heap[0];
        RootInTable(heap, ev);
        ghost var t := ev;
        if ev[id].dead {
          RemoveAt(0);
          ReapKeeps(t0, now, script, t, ev, fired, id);
          ReapUnseen(t, Ledger(t0, next0, now, script, draws, fired).0, ev, id);
          continue;
        }
        if ev[id].when > now {
          AllLater(heap, ev, now);
          break;
        }
        EarliestOfAll(heap, ev);
        ghost var n, next := |fired|, nextId;
        FireRoot(script(|fired|), now, draws(|fired|));
        AfterFired(t, ev, id, script(n), now, draws(n), next);
        FireKeeps(t0, now, script, t, ev, fired, id);
        FireBoth(t, Ledger(t0, next0, now, script, draws, fired).0, ev, id, script(n), now, draws(n), next);
        LedgerNext(t0, next0, now, script, draws, fired, id);
        fired := fired + [id];
      }
      if heap == [] {
        EmptyTable(heap, ev);
      }
      RunDone(t0, now, script, ev, fired);
    }
  }

  lemma AppendedIndexed(heap: seq<Id>, ev: Table, id: Id, e: Entry, heap': seq<Id>, ev': Table)
    requires Indexed(heap, ev) && id !in ev && heap' == heap + [id] && ev' == ev[id := e.(hidx := |heap|)]
    ensures Indexed(heap', ev') && SameData(ev[id := e], ev') && Items(heap', ev') == Items(heap, ev) + [Keyed(e.when, id)]
  {
    forall k | 0 <= k < |heap'| ensures heap'[k] in ev' && ev'[heap'[k]].hidx == k {
      if k < |heap| { assert ev[heap[k]].hidx == k; }
    }
    forall x | x in ev' ensures ev'[x].hidx < |heap'| && heap'[ev'[x].hidx] == x {
      if x != id { assert heap[ev[x].hidx] == x; }
    }
  }

  lemma FilledIndexed(heap: seq<Id>, ev: Table, i: nat, heap': seq<Id>, ev': Table)
    requires Indexed(heap, ev) && i < |heap| - 1
    requires var n := |heap| - 1; heap' == heap[..n][i := heap[n]] && ev' == ev[heap[n] := ev[heap[n]].(hidx := i)] - {heap[i]}
    ensures Indexed(heap', ev') && SameData(ev - {heap[i]}, ev')
    ensures Items(heap', ev') == Items(heap, ev)[..|heap| - 1][i := Items(heap, ev)[|heap| - 1]]
  {
    forall k | 0 <= k < |heap'| ensures heap'[k] in ev' && ev'[heap'[k]].hidx == k {
      assert ev[heap[k]].hidx == k && ev[heap[|heap| - 1]].hidx == |heap| - 1;
    }
    forall x | x in ev' ensures ev'[x].hidx < |heap'| && heap'[ev'[x].hidx] == x {
      assert heap[ev[x].hidx] == x;
    }
  }

  lemma FirstHalf(s: seq<Keyed<Id>>)
    ensures HeapFrom(s, |s| / 2)
  {
  }

  lemma FromNext(s: seq<Keyed<Id>>, j: nat)
    requires j < |s| && HeapFrom(s, j + 1)
    ensures DownHole(s, j, j)
  {
  }

  function BackBy(e: Entry, amount: int): Entry {
    e.(when := if e.when > amount then e.when - amount else 0)
  }

  ghost function ShiftedBack(ev: Table, amount: int): Table {
    map id | id in ev :: BackBy(ev[id], amount)
  }

  ghost function Without(ev: Table, mod: Option<string>): Table {
    map id | id in ev && ev[id].owner != mod :: ev[id]
  }

  /** After looking at the first i slots: the n kept so far sit at the front with their new index, the rest is untouched. */
  ghost predicate Compacted(h: seq<Id>, e: Table, mod: Option<string>, i: nat, heap: seq<Id>, ev: Table, n: nat) {
    && n <= i <= |h| == |heap| && Indexed(h, e)
    && (forall id :: id in ev <==> id in e && (e[id].hidx >= i || e[id].owner != mod))
    && (forall id :: id in ev ==> ev[id].(hidx := 0) == e[id].(hidx := 0))
    && (forall k :: 0 <= k < n ==> heap[k] in ev && ev[heap[k]].hidx == k && e[heap[k]].hidx < i)
    && (forall k :: i <= k < |h| ==> heap[k] == h[k] && h[k] in ev && ev[h[k]] == e[h[k]])
    && (forall id :: id in ev && e[id].hidx < i ==> ev[id].hidx < n && heap[ev[id].hidx] == id)
  }

  lemma CompactStart(h: seq<Id>, e: Table, mod: Option<string>)
    requires Indexed(h, e)
    ensures Compacted(h, e, mod, 0, h, e, 0)
  {
  }

  lemma CompactStep(h: seq<Id>, e: Table, mod: Option<string>, i: nat, heap: seq<Id>, ev: Table, n: nat)
    requires Compacted(h, e, mod, i, heap, ev, n) && i < |h|
    ensures heap[i] in ev
    ensures var id := heap[i];
            if ev[id].owner == mod then Compacted(h, e, mod, i + 1, heap, ev - {id}, n)
            else Compacted(h, e, mod, i + 1, heap[n := id], ev[id := ev[id].(hidx := n)], n + 1)
  {
    var id := heap[i];
    assert e[h[i]].hidx == i;
    if ev[id].owner == mod {
      CompactDrop(h, e, mod, i, heap, ev, n);
    } else {
      CompactKeep(h, e, mod, i, heap, ev, n);
    }
  }

  lemma CompactDrop(h: seq<Id>, e: Table, mod: Option<string>, i: nat, heap: seq<Id>, ev: Table, n: nat)
    requires Compacted(h, e, mod, i, heap, ev, n) && i < |h| && ev[heap[i]].owner == mod
    ensures Compacted(h, e, mod, i + 1, heap, ev - {heap[i]}, n)
  {
    assert e[h[i]].hidx == i;
    assert forall k :: i < k < |h| ==> e[h[k]].hidx == k;
  }

  lemma CompactKeep(h: seq<Id>, e: Table, mod: Option<string>, i: nat, heap: seq<Id>, ev: Table, n: nat)
    requires Compacted(h, e, mod, i, heap, ev, n) && i < |h| && ev[heap[i]].owner != mod
    ensures Compacted(h, e, mod, i + 1, heap[n := heap[i]], ev[heap[i] := ev[heap[i]].(hidx := n)], n + 1)
  {
    assert e[h[i]].hidx == i;
    assert forall k :: i < k < |h| ==> e[h[k]].hidx == k;
  }

  lemma CompactDone(h: seq<Id>, e: Table, mod: Option<string>, heap: seq<Id>, ev: Table, n: nat)
    requires Compacted(h, e, mod, |h|, heap, ev, n)
    ensures Indexed(heap[..n], ev) && SameData(Without(e, mod), ev)
  {
  }

  // ---- runs -------------------------------------------------------------------------------------------------

  datatype New = New(when: int, freq: int, owner: Option<string>)
  type Draw = d: nat | d < 1000
  datatype Change = Change(id: Id, freq: int, draw: Draw)
  datatype Effect = Effect(kill: seq<Id>, add: seq<New>, update: seq<Change>)

  /** New events are for later, and updates put events off: the period is neither 0 nor the one that jitters to nothing. */
  predicate LaterOnly(e: Effect, now: int) {
    && (forall i :: 0 <= i < |e.add| ==> e.add[i].when > now)
    && (forall i :: 0 <= i < |e.update| ==> e.update[i].freq != 0 && e.update[i].freq != -1)
  }

  /** No live event that is due has the period that jitters to nothing. */
  ghost predicate NoneStalled(ev: Table, now: int) {
    forall id :: id in ev && Due(ev[id], now) ==> ev[id].freq != -1
  }

  predicate Due(e: Entry, now: int) {
    !e.dead && e.when <= now
  }

  function NewEntry(n: New): Entry {
    Entry(n.when, n.freq, false, 0, n.owner)
  }

  /** The events a callback adds, under the next free identities. */
  function Extended(t: Table, add: seq<New>, next: Id): Table {
    if add == [] then t
    else var n := |add| - 1; Extended(t, add[..n], next)[next + n := NewEntry(add[n])]
  }

  function Marked(t: Table, kill: seq<Id>): Table {
    map id | id in t :: t[id].(dead := t[id].dead || id in kill)
  }

  /** op_event_update of one event. */
  function Alter(t: Table, c: Change, now: int): Table {
    if c.id in t then t[c.id := t[c.id].(freq := c.freq, when := now + Delay(c.freq, c.draw))] else t
  }

  function Changed(t: Table, update: seq<Change>, now: int): Table {
    if update == [] then t else var n := |update| - 1; Alter(Changed(t, update[..n], now), update[n], now)
  }

  /** What a callback does to the table: additions, updates and marks. */
  function Called(t: Table, e: Effect, now: int, next: Id): Table {
    Marked(Changed(Extended(t, e.add, next), e.update, now), e.kill)
  }

  /** What firing id does to the table: the callback's work, then id is gone or rescheduled. */
  function After(t: Table, id: Id, e: Effect, now: int, draw: nat, next: Id): Table
    requires draw < 1000
  {
    var m := Called(t, e, now, next);
    if id !in m then m
    else if m[id].dead || m[id].freq == 0 then m - {id}
    else m[id := m[id].(when := now + Delay(m[id].freq, draw))]
  }

  /** The reference for a whole run: one firing after the other, nothing else. */
  function Ledger(t0: Table, next0: Id, now: int, script: nat -> Effect, draws: nat -> nat, fired: seq<Id>): (Table, Id)
    requires forall k: nat :: draws(k) < 1000
  {
    if fired == [] then (t0, next0)
    else
      var n := |fired| - 1;
      var (t, next) := Ledger(t0, next0, now, script, draws, fired[..n]);
      (After(t, fired[n], script(n), now, draws(n), next), next + |script(n).add|)
  }

  /** ev is t short of some dead entries. */
  ghost predicate ButForDead(ev: Table, t: Table) {
    && (forall id :: id in ev ==> id in t && ev[id].(hidx := 0) == t[id].(hidx := 0))
    && (forall id :: id in t && !t[id].dead ==> id in ev)
  }

  lemma SetBoth(a: Table, b: Table, id: Id, e: Entry)
    requires SameData(a, b)
    ensures SameData(a[id := e], b[id := e])
  {
  }

  lemma DropBoth(a: Table, b: Table, id: Id)
    requires SameData(a, b)
    ensures SameData(a - {id}, b - {id})
  {
  }

  lemma MarkBoth(a: Table, b: Table, kill: seq<Id>)
    requires SameData(a, b)
    ensures SameData(Marked(a, kill), Marked(b, kill))
  {
    forall id | id in a ensures Marked(a, kill)[id].(hidx := 0) == Marked(b, kill)[id].(hidx := 0) {
      assert a[id].(hidx := 0) == b[id].(hidx := 0);
      assert a[id].(hidx := 0).dead == b[id].(hidx := 0).dead;
    }
  }

  lemma {:induction false} ChangedNone(t: Table, update: seq<Change>, now: int)
    ensures Changed(t, update[..0], now) == t && SameData(t, t)
  {
  }

  lemma {:induction false} ChangedNext(t: Table, update: seq<Change>, now: int, i: nat)
    requires i < |update|
    ensures Changed(t, update[..i + 1], now) == Alter(Changed(t, update[..i], now), update[i], now)
  {
    assert update[..i + 1][..i] == update[..i];
  }

  lemma SameIds(a: Table, b: Table, id: Id)
    requires SameData(a, b)
    ensures id in a <==> id in b
  {
  }

  lemma AlterBoth(a: Table, b: Table, c: Change, now: int)
    requires SameData(a, b)
    ensures SameData(Alter(a, c, now), Alter(b, c, now))
  {
    hide Delay;
    if c.id in a {
      var when := now + Delay(c.freq, c.draw);
      assert a[c.id].(hidx := 0).(freq := c.freq, when := when) == b[c.id].(hidx := 0).(freq := c.freq, when := when);
    }
  }

  lemma {:induction false} ChangeBoth(a: Table, b: Table, update: seq<Change>, now: int)
    requires SameData(a, b)
    ensures SameData(Changed(a, update, now), Changed(b, update, now))
    decreases |update|
  {
    hide SameData, Alter;
    if update != [] {
      var n := |update| - 1;
      ChangeBoth(a, b, update[..n], now);
      AlterBoth(Changed(a, update[..n], now), Changed(b, update[..n], now), update[n], now);
    }
  }

  ghost function Updated(e: Effect): set<Id> {
    set i | 0 <= i < |e.update| :: e.update[i].id
  }

  /** Updates keep what they do not name and put off what they do. */
  lemma {:induction false} ChangedAt(t: Table, update: seq<Change>, now: int, x: Id)
    ensures x in Changed(t, update, now) <==> x in t
    ensures x in t ==> Changed(t, update, now)[x].dead == t[x].dead && Changed(t, update, now)[x].hidx == t[x].hidx
    ensures x in t && (forall i :: 0 <= i < |update| ==> update[i].id != x) ==> Changed(t, update, now)[x] == t[x]
    ensures x in t && (exists i :: 0 <= i < |update| && update[i].id == x) && (forall i :: 0 <= i < |update| ==> update[i].freq != 0 && update[i].freq != -1) ==>
              Changed(t, update, now)[x].when > now && Changed(t, update, now)[x].freq != 0 && Changed(t, update, now)[x].freq != -1
  {
    hide Delay;
    if update != [] {
      var n := |update| - 1;
      ChangedAt(t, update[..n], now, x);
      DelayPositive(update[n].freq, update[n].draw);
      if i :| 0 <= i < |update| && update[i].id == x && i < n { assert update[..n][i].id == x; }
    }
  }

  lemma MarkedNone(t: Table, kill: seq<Id>)
    ensures Marked(t, kill[..0]) == t
  {
  }

  lemma MarkedNext(t: Table, kill: seq<Id>, i: nat)
    requires i < |kill|
    ensures var m := Marked(t, kill[..i]); var id := kill[i];
            Marked(t, kill[..i + 1]) == if id in m then m[id := m[id].(dead := true)] else m
  {
    assert kill[..i + 1] == kill[..i] + [kill[i]];
  }

  lemma {:induction false} ExtendedNone(t: Table, add: seq<New>, next: Id)
    ensures Extended(t, add[..0], next) == t && SameData(t, t)
  {
  }

  lemma {:induction false} ExtendedNext(t: Table, add: seq<New>, next: Id, i: nat)
    requires i < |add|
    ensures Extended(t, add[..i + 1], next) == Extended(t, add[..i], next)[next + i := NewEntry(add[i])]
  {
    assert add[..i + 1][..i] == add[..i];
  }

  lemma SameAt(a: Table, b: Table, id: Id)
    requires SameData(a, b) && id in a
    ensures id in b && a[id].when == b[id].when && a[id].freq == b[id].freq && a[id].dead == b[id].dead
  {
    assert a[id].(hidx := 0) == b[id].(hidx := 0);
    assert a[id].(hidx := 0).when == b[id].(hidx := 0).when && a[id].(hidx := 0).freq == b[id].(hidx := 0).freq;
    assert a[id].(hidx := 0).dead == b[id].(hidx := 0).dead;
  }

  lemma MoveBoth(a: Table, b: Table, id: Id, when: int)
    requires SameData(a, b) && id in a && id in b
    ensures SameData(a[id := a[id].(when := when)], b[id := b[id].(when := when)])
  {
    assert a[id].(hidx := 0).(when := when) == b[id].(hidx := 0).(when := when);
  }

  lemma {:induction false} StillThere(t: Table, e: Effect, now: int, next: Id, id: Id)
    requires id in t
    ensures id in Called(t, e, now, next)
  {
    ExtendedKeeps(t, e.add, next, id);
    ChangedAt(Extended(t, e.add, next), e.update, now, id);
  }

  /** What a callback that is for later only does to one event. */
  lemma CalledAt(t: Table, e: Effect, now: int, next: Id, x: Id)
    requires LaterOnly(e, now) && x in Called(t, e, now, next) && forall y :: y in t ==> y < next
    ensures var c := Called(t, e, now, next)[x];
            && (x in t && x !in Updated(e) ==> c == t[x].(dead := t[x].dead || x in e.kill))
            && (x in t && x in Updated(e) ==> c.when > now && c.freq != 0 && c.freq != -1)
            && (x !in t ==> c.when > now)
  {
    hide Extended, Changed, Delay;
    ExtendedKeeps(t, e.add, next, x);
    ChangedAt(Extended(t, e.add, next), e.update, now, x);
    if x in Updated(e) {
      var i :| 0 <= i < |e.update| && e.update[i].id == x;
    } else {
      assert forall i :: 0 <= i < |e.update| ==> e.update[i].id in Updated(e);
    }
  }

  lemma {:induction false} LedgerNext(t0: Table, next0: Id, now: int, script: nat -> Effect, draws: nat -> nat, fired: seq<Id>, id: Id)
    requires forall k: nat :: draws(k) < 1000
    ensures var n := |fired|; var (t, next) := Ledger(t0, next0, now, script, draws, fired);
            Ledger(t0, next0, now, script, draws, fired + [id]) == (After(t, id, script(n), now, draws(n), next), next + |script(n).add|)
  {
    assert (fired + [id])[..|fired|] == fired;
  }

  lemma {:induction false} RunStart(t0: Table, next0: Id, now: int, script: nat -> Effect, draws: nat -> nat)
    requires forall k: nat :: draws(k) < 1000
    ensures RunInv(t0, now, script, t0, []) && Ledger(t0, next0, now, script, draws, []) == (t0, next0) && ButForDead(t0, t0)
  {
  }

  lemma {:induction false} ExtendedKeeps(t: Table, add: seq<New>, next: Id, id: Id)
    ensures id in Extended(t, add, next) <==> id in t || next <= id < next + |add|
    ensures id < next && id in t ==> Extended(t, add, next)[id] == t[id]
    ensures next <= id < next + |add| ==> Extended(t, add, next)[id] == NewEntry(add[id - next])
  {
    if add != [] { ExtendedKeeps(t, add[..|add| - 1], next, id); }
  }

  /** After firing id: the others as after the callback, and id gone or later. */
  ghost predicate Fired(t: Table, ev: Table, id: Id, e: Effect, now: int) {
    && (forall x :: x in t && x != id && x !in Updated(e) ==>
          x in ev && ev[x].(hidx := 0) == t[x].(hidx := 0, dead := t[x].dead || x in e.kill))
    && (forall x :: x in ev && (x !in t || x == id || x in Updated(e)) ==> ev[x].when > now)
  }

  lemma AfterFired(t: Table, ev: Table, id: Id, e: Effect, now: int, draw: nat, next: Id)
    requires id in t && Due(t[id], now) && NoneStalled(t, now) && LaterOnly(e, now) && draw < 1000 && forall x :: x in t ==> x < next
    requires SameData(After(t, id, e, now, draw, next), ev)
    ensures Fired(t, ev, id, e, now) && NoneStalled(ev, now)
  {
    hide Delay, Called;
    var m := Called(t, e, now, next);
    var a := After(t, id, e, now, draw, next);
    StillThere(t, e, now, next, id);
    forall x | x in a
      ensures x in t && x != id && x !in Updated(e) ==> a[x] == t[x].(dead := t[x].dead || x in e.kill)
      ensures x !in t || x == id || x in Updated(e) ==> a[x].when > now
    {
      CalledAt(t, e, now, next, x);
      if x == id { DelayPositive(m[id].freq, draw); }
    }
    forall x | x in t && x != id ensures x in a { StillThere(t, e, now, next, x); }
    forall x | x in ev ensures x in a && ev[x].when == a[x].when && ev[x].freq == a[x].freq && ev[x].dead == a[x].dead {
      SameAt(ev, a, x);
    }
  }

  /** Exactly when a repeating event that has fired is due no more: a period of -1 would keep the run going for ever. */
  lemma DueNoMoreIff(t: Table, id: Id, e: Effect, now: int, draw: nat, next: Id)
    requires id in t && id < next && Due(t[id], now) && id !in e.kill && id !in Updated(e) && t[id].freq != 0 && draw < 1000
    ensures var a := After(t, id, e, now, draw, next);
            id in a && !a[id].dead && (a[id].when > now <==> t[id].freq > 0 || t[id].freq < -1)
  {
    ExtendedKeeps(t, e.add, next, id);
    ChangedAt(Extended(t, e.add, next), e.update, now, id);
    assert forall i :: 0 <= i < |e.update| ==> e.update[i].id in Updated(e);
    DelayPositive(t[id].freq, draw);
  }

  lemma ReapUnseen(ev: Table, t: Table, ev': Table, id: Id)
    requires ButForDead(ev, t) && id in ev && ev[id].dead && SameData(ev - {id}, ev')
    ensures ButForDead(ev', t)
  {
    forall x | x in ev' ensures x in t && ev'[x].(hidx := 0) == t[x].(hidx := 0) { assert x in ev - {id}; }
    forall x | x in t && !t[x].dead ensures x in ev' {
      assert x in ev && ev[x].(hidx := 0).dead == t[x].(hidx := 0).dead;
      assert x in ev - {id};
    }
  }

  /** Firing the same event in a table and in one that also has dead entries comes to the same but for dead entries. */
  lemma FireBoth(ev: Table, t: Table, ev': Table, id: Id, e: Effect, now: int, draw: nat, next: Id)
    requires ButForDead(ev, t) && id in ev && draw < 1000 && SameData(After(ev, id, e, now, draw, next), ev')
    ensures ButForDead(ev', After(t, id, e, now, draw, next))
  {
    hide Delay, Extended, Changed;
    var a, b := After(ev, id, e, now, draw, next), After(t, id, e, now, draw, next);
    var x', y' := Changed(Extended(ev, e.add, next), e.update, now), Changed(Extended(t, e.add, next), e.update, now);
    ExtendBoth(ev, t, e.add, next);
    ChangeButForDead(Extended(ev, e.add, next), Extended(t, e.add, next), e.update, now);
    assert id in x' by { StillThere(ev, e, now, next, id); }
    assert x'[id].(hidx := 0) == y'[id].(hidx := 0);
    assert x'[id].(hidx := 0).dead == y'[id].(hidx := 0).dead && x'[id].(hidx := 0).freq == y'[id].(hidx := 0).freq;
    forall x | x in a ensures x in b && a[x].(hidx := 0) == b[x].(hidx := 0) {
      assert x'[x].(hidx := 0) == y'[x].(hidx := 0);
      assert x'[x].(hidx := 0).dead == y'[x].(hidx := 0).dead;
    }
    forall x | x in b && !b[x].dead ensures x in a { assert !y'[x].dead; }
    forall x | x in ev' ensures x in b && ev'[x].(hidx := 0) == b[x].(hidx := 0) { assert x in a; }
  }

  lemma {:induction false} ExtendBoth(ev: Table, t: Table, add: seq<New>, next: Id)
    requires ButForDead(ev, t)
    ensures ButForDead(Extended(ev, add, next), Extended(t, add, next))
  {
    if add != [] { ExtendBoth(ev, t, add[..|add| - 1], next); }
  }

  lemma {:induction false} ChangeButForDead(ev: Table, t: Table, update: seq<Change>, now: int)
    requires ButForDead(ev, t)
    ensures ButForDead(Changed(ev, update, now), Changed(t, update, now))
    decreases |update|
  {
    hide ButForDead, Alter;
    if update != [] {
      var n := |update| - 1;
      ChangeButForDead(ev, t, update[..n], now);
      AlterButForDead(Changed(ev, update[..n], now), Changed(t, update[..n], now), update[n], now);
    }
  }

  lemma AlterButForDead(ev: Table, t: Table, c: Change, now: int)
    requires ButForDead(ev, t)
    ensures ButForDead(Alter(ev, c, now), Alter(t, c, now))
  {
    hide Delay;
    if c.id in ev {
      var when := now + Delay(c.freq, c.draw);
      assert ev[c.id].(hidx := 0).(freq := c.freq, when := when) == t[c.id].(hidx := 0).(freq := c.freq, when := when);
    }
  }

  ghost function IdsOf(s: seq<Id>): set<Id> {
    set id | id in s
  }

  /** The events marked or put off by the first n callbacks. */
  ghost function Spared(script: nat -> Effect, n: nat): set<Id> {
    if n == 0 then {} else Spared(script, n - 1) + IdsOf(script(n - 1).kill) + Updated(script(n - 1))
  }

  ghost function DueSet(ev: Table, now: int): set<Id> {
    set id | id in ev && ev[id].when <= now
  }

  /** Each event fired was due when the run began, was neither deleted nor put off before its turn, fired once, and in
      deadline order. */
  ghost predicate FiredRight(t0: Table, now: int, script: nat -> Effect, fired: seq<Id>) {
    && (forall k :: 0 <= k < |fired| ==> fired[k] in t0 && Due(t0[fired[k]], now) && fired[k] !in Spared(script, k))
    && Distinct(fired)
    && (forall i, j :: 0 <= i < j < |fired| ==> t0[fired[i]].when <= t0[fired[j]].when)
  }

  /** What is still due is as it was at the start, but for marks, and not before what has fired. */
  ghost predicate Waiting(t0: Table, now: int, script: nat -> Effect, ev: Table, fired: seq<Id>, id: Id)
    requires id in ev
  {
    && id in t0 && id !in fired && ev[id].when == t0[id].when
    && (ev[id].dead <==> t0[id].dead || id in Spared(script, |fired|))
    && forall k :: 0 <= k < |fired| ==> fired[k] in t0 && t0[fired[k]].when <= ev[id].when
  }

  ghost predicate RunInv(t0: Table, now: int, script: nat -> Effect, ev: Table, fired: seq<Id>) {
    && FiredRight(t0, now, script, fired)
    && (forall id :: id in ev && ev[id].when <= now ==> Waiting(t0, now, script, ev, fired, id))
    && (forall id :: id in t0 && Due(t0[id], now) ==> id in fired || id in Spared(script, |fired|) || (id in ev && ev[id].when <= now))
  }

  lemma FireKeeps(t0: Table, now: int, script: nat -> Effect, t: Table, ev: Table, fired: seq<Id>, id: Id)
    requires RunInv(t0, now, script, t, fired) && id in t && Due(t[id], now) && (forall x :: x in t ==> t[id].when <= t[x].when)
    requires Fired(t, ev, id, script(|fired|), now)
    ensures RunInv(t0, now, script, ev, fired + [id]) && |DueSet(ev, now)| < |DueSet(t, now)|
  {
    var more := fired + [id];
    assert Waiting(t0, now, script, t, fired, id);
    FireRight(t0, now, script, t, fired, id);
    var e := script(|fired|);
    assert Spared(script, |more|) == Spared(script, |fired|) + IdsOf(e.kill) + Updated(e);
    forall x | x in ev && ev[x].when <= now ensures Waiting(t0, now, script, ev, more, x) && x in t && x != id && t[x].when <= now {
      assert x !in Updated(e) && ev[x].(hidx := 0).when == t[x].(hidx := 0).when;
      assert ev[x].(hidx := 0).dead == (t[x].dead || x in e.kill);
      assert Waiting(t0, now, script, t, fired, x);
    }
    forall x | x in t0 && Due(t0[x], now) ensures x in more || x in Spared(script, |more|) || (x in ev && ev[x].when <= now) {
      if x in fired { var k :| 0 <= k < |fired| && fired[k] == x; assert more[k] == x; }
      if x == id { assert more[|fired|] == x; }
      if x in t && x != id && x !in Updated(e) { assert ev[x].(hidx := 0).when == t[x].(hidx := 0).when; }
    }
    assert DueSet(ev, now) <= DueSet(t, now) - {id};
    Smaller(DueSet(ev, now), DueSet(t, now), id);
  }

  lemma FireRight(t0: Table, now: int, script: nat -> Effect, t: Table, fired: seq<Id>, id: Id)
    requires FiredRight(t0, now, script, fired) && id in t && Waiting(t0, now, script, t, fired, id) && Due(t[id], now)
    ensures FiredRight(t0, now, script, fired + [id])
  {
    var more := fired + [id];
    forall i, j | 0 <= i < j < |more| ensures more[i] != more[j] && t0[more[i]].when <= t0[more[j]].when {
      assert more[i] == fired[i];
      if j < |fired| { assert more[j] == fired[j]; }
    }
  }

  lemma Smaller(a: set<Id>, b: set<Id>, id: Id)
    requires a <= b - {id} && id in b
    ensures |a| < |b|
  {
    assert b == a + (b - a);
    assert id in b - a;
  }

  lemma ReapKeeps(t0: Table, now: int, script: nat -> Effect, t: Table, ev: Table, fired: seq<Id>, id: Id)
    requires RunInv(t0, now, script, t, fired) && id in t && t[id].dead && SameData(t - {id}, ev) && NoneStalled(t, now)
    ensures RunInv(t0, now, script, ev, fired) && NoneStalled(ev, now)
    ensures |DueSet(ev, now)| <= |DueSet(t, now)| && |ev| < |t|
  {
    var m := t - {id};
    forall x | x in ev ensures x in t && x != id && ev[x].when == t[x].when && ev[x].dead == t[x].dead && ev[x].freq == t[x].freq {
      assert x in m;
      assert m[x].(hidx := 0) == ev[x].(hidx := 0);
      assert m[x].(hidx := 0).when == ev[x].(hidx := 0).when && m[x].(hidx := 0).dead == ev[x].(hidx := 0).dead;
      assert m[x].(hidx := 0).freq == ev[x].(hidx := 0).freq;
    }
    forall x | x in ev && ev[x].when <= now ensures Waiting(t0, now, script, ev, fired, x) {
      assert Waiting(t0, now, script, t, fired, x);
    }
    forall x | x in t0 && Due(t0[x], now) ensures x in fired || x in Spared(script, |fired|) || (x in ev && ev[x].when <= now) {
      if x == id && t[x].when <= now { assert Waiting(t0, now, script, t, fired, x); }
      if x in t && x != id { assert x in m && x in ev; }
    }
    assert DueSet(ev, now) <= DueSet(t, now);
    SubsetSize(DueSet(ev, now), DueSet(t, now));
    assert ev.Keys == t.Keys - {id};
    assert |ev.Keys| == |ev| && |t.Keys| == |t|;
  }

  lemma {:induction false} RunDone(t0: Table, now: int, script: nat -> Effect, ev: Table, fired: seq<Id>)
    requires RunInv(t0, now, script, ev, fired) && forall id :: id in ev ==> ev[id].when > now
    ensures FiredRight(t0, now, script, fired)
    ensures forall id :: id in t0 && Due(t0[id], now) ==> id in fired || id in Spared(script, |fired|)
  {
  }

  lemma RootInTable(heap: seq<Id>, ev: Table)
    requires Indexed(heap, ev) && heap != []
    ensures heap[0] in ev
  {
  }

  lemma EmptyTable(heap: seq<Id>, ev: Table)
    requires Indexed(heap, ev) && heap == []
    ensures forall id :: id in ev ==> false
  {
  }

  lemma EarliestOfAll(heap: seq<Id>, ev: Table)
    requires Ordered(heap, ev) && heap != []
    ensures heap[0] in ev && forall id :: id in ev ==> ev[heap[0]].when <= ev[id].when
  {
    forall id | id in ev ensures ev[heap[0]].when <= ev[id].when { RootFirst(heap, ev, id); }
  }

  lemma AllLater(heap: seq<Id>, ev: Table, now: int)
    requires Ordered(heap, ev) && heap != [] && ev[heap[0]].when > now
    ensures forall id :: id in ev ==> ev[id].when > now
  {
    EarliestOfAll(heap, ev);
  }
}
