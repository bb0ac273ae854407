/** Array heaps as values (root at index 0): what sifting does to the sequence of keyed items.  Shared by the
    priority queue (src/pqueue.c, whose 1-based slots shift by one) and the event heap (src/event.c). */
module BinaryHeap {
  datatype Keyed<+T> = Keyed(key: int, item: T)

  function Parent(i: int): int {
    (i - 1) / 2
  }

  predicate OrderedAt<T>(s: seq<Keyed<T>>, c: int)
    requires 0 < c < |s|
  {
    s[Parent(c)].key <= s[c].key
  }

  /** Order below every node at or after `lo`. */
  ghost predicate HeapFrom<T>(s: seq<Keyed<T>>, lo: nat) {
    forall c {:trigger OrderedAt(s, c)} :: 0 < c < |s| && Parent(c) >= lo ==> OrderedAt(s, c)
  }

  ghost predicate Heap<T>(s: seq<Keyed<T>>) {
    HeapFrom(s, 0)
  }

  /** The key at p is at most those of i's children. */
  predicate Above<T>(s: seq<Keyed<T>>, p: int, i: nat)
    requires 0 <= p < |s|
  {
    && (2 * i + 1 < |s| ==> s[p].key <= s[2 * i + 1].key)
    && (2 * i + 2 < |s| ==> s[p].key <= s[2 * i + 2].key)
  }

  /** Order everywhere except between i and its parent, and the parent would also fit above i's children. */
  ghost predicate UpHole<T>(s: seq<Keyed<T>>, i: nat) {
    && i < |s|
    && (forall c {:trigger OrderedAt(s, c)} :: 0 < c < |s| && c != i ==> OrderedAt(s, c))
    && (i > 0 ==> Above(s, Parent(i), i))
  }

  /** Order below every node from `lo` on, except between i and its children; i's parent would fit above them. */
  ghost predicate DownHole<T>(s: seq<Keyed<T>>, lo: nat, i: nat) {
    && lo <= i < |s|
    && (forall c {:trigger OrderedAt(s, c)} :: 0 < c < |s| && Parent(c) >= lo && Parent(c) != i ==> OrderedAt(s, c))
    && (i > 0 && Parent(i) >= lo ==> Above(s, Parent(i), i))
  }

  function Swap<T>(s: seq<T>, i: nat, j: nat): (r: seq<T>)
    requires i < |s| && j < |s|
    ensures |r| == |s|
  {
    s[i := s[j]][j := s[i]]
  }

  lemma SwapKeeps<T>(s: seq<T>, i: nat, j: nat)
    requires i < |s| && j < |s|
    ensures multiset(Swap(s, i, j)) == multiset(s)
  {
  }

  /** The smallest of i and its children, as both sift loops pick it. */
  function MinOf<T>(s: seq<Keyed<T>>, i: nat): (m: nat)
    requires i < |s|
    ensures (m == i || m == 2 * i + 1 || m == 2 * i + 2) && m < |s|
  {
    var a := if 2 * i + 1 < |s| && s[2 * i + 1].key < s[i].key then 2 * i + 1 else i;
    if 2 * i + 2 < |s| && s[2 * i + 2].key < s[a].key then 2 * i + 2 else a
  }

  function SiftedUp<T>(s: seq<Keyed<T>>, i: nat): (r: seq<Keyed<T>>)
    requires i < |s|
    ensures |r| == |s|
    decreases i
  {
    if i > 0 && s[i].key < s[Parent(i)].key then SiftedUp(Swap(s, i, Parent(i)), Parent(i)) else s
  }

  function SiftedDown<T>(s: seq<Keyed<T>>, i: nat): (r: seq<Keyed<T>>)
    requires i < |s|
    ensures |r| == |s|
    decreases |s| - i
  {
    var m := MinOf(s, i);
    if m == i then s else SiftedDown(Swap(s, i, m), m)
  }

  // ---- sifting restores the order -------------------------------------------------------

  lemma SiftUpStep<T>(s: seq<Keyed<T>>, i: nat)
    requires UpHole(s, i) && i > 0 && s[Parent(i)].key > s[i].key
    ensures UpHole(Swap(s, i, Parent(i)), Parent(i))
  {
    var p := Parent(i);
    var r := Swap(s, i, p);
    forall c | 0 < c < |r| && c != p ensures OrderedAt(r, c) {
      if c != i { assert OrderedAt(s, c); }
    }
    if p > 0 {
      assert OrderedAt(s, p);
      forall c | (c == 2 * p + 1 || c == 2 * p + 2) && c < |r| ensures r[Parent(p)].key <= r[c].key {
        if c != i { assert OrderedAt(s, c); }
      }
    }
  }

  lemma {:induction false} SiftUpRestores<T>(s: seq<Keyed<T>>, i: nat)
    requires UpHole(s, i)
    ensures Heap(SiftedUp(s, i)) && multiset(SiftedUp(s, i)) == multiset(s)
    decreases i
  {
    if i > 0 && s[i].key < s[Parent(i)].key {
      SiftUpStep(s, i);
      SwapKeeps(s, i, Parent(i));
      SiftUpRestores(Swap(s, i, Parent(i)), Parent(i));
    } else {
      assert forall c {:trigger OrderedAt(s, c)} :: 0 < c < |s| ==> OrderedAt(s, c);
    }
  }

  lemma SiftDownStep<T>(s: seq<Keyed<T>>, lo: nat, i: nat)
    requires DownHole(s, lo, i) && MinOf(s, i) != i
    ensures DownHole(Swap(s, i, MinOf(s, i)), lo, MinOf(s, i))
  {
    var m := MinOf(s, i);
    var r := Swap(s, i, m);
    forall c | 0 < c < |r| && Parent(c) >= lo && Parent(c) != m ensures OrderedAt(r, c) {
      if c != i && c != m && Parent(c) != i { assert OrderedAt(s, c); }
    }
    forall c | (c == 2 * m + 1 || c == 2 * m + 2) && c < |r| ensures r[Parent(m)].key <= r[c].key {
      assert OrderedAt(s, c);
    }
  }

  lemma {:induction false} SiftDownRestores<T>(s: seq<Keyed<T>>, lo: nat, i: nat)
    requires DownHole(s, lo, i)
    ensures HeapFrom(SiftedDown(s, i), lo) && multiset(SiftedDown(s, i)) == multiset(s)
    decreases |s| - i
  {
    var m := MinOf(s, i);
    if m == i {
      forall c | 0 < c < |s| && Parent(c) >= lo ensures OrderedAt(s, c) {
        if Parent(c) == i { assert c == 2 * i + 1 || c == 2 * i + 2; }
      }
    } else {
      SiftDownStep(s, lo, i);
      SwapKeeps(s, i, m);
      SiftDownRestores(Swap(s, i, m), lo, m);
    }
  }

  /** The root is a minimum. */
  lemma {:induction false} RootMin<T>(s: seq<Keyed<T>>, j: nat)
    requires Heap(s) && j < |s|
    ensures s[0].key <= s[j].key
  {
    if j > 0 {
      RootMin(s, Parent(j));
      assert OrderedAt(s, j);
    }
  }

  lemma LeastOfAll<T>(s: seq<Keyed<T>>)
    requires Heap(s) && s != []
    ensures forall x :: x in multiset(s) ==> s[0].key <= x.key
  {
    forall x | x in multiset(s) ensures s[0].key <= x.key {
      var j :| 0 <= j < |s| && s[j] == x;
      RootMin(s, j);
    }
  }

  // ---- the operations as values ---------------------------------------------------------------

  function Pushed<T>(s: seq<Keyed<T>>, x: Keyed<T>): (r: seq<Keyed<T>>)
    ensures |r| == |s| + 1
  {
    SiftedUp(s + [x], |s|)
  }

  lemma PushedHeap<T>(s: seq<Keyed<T>>, x: Keyed<T>)
    requires Heap(s)
    ensures Heap(Pushed(s, x)) && multiset(Pushed(s, x)) == multiset(s) + multiset{x}
  {
    var r := s + [x];
    forall c | 0 < c < |r| && c != |s| ensures OrderedAt(r, c) {
      assert OrderedAt(s, c);
    }
    SiftUpRestores(r, |s|);
  }

  /** Sifting up and then down at one place. */
  function Settled<T>(s: seq<Keyed<T>>, i: nat): (r: seq<Keyed<T>>)
    requires i < |s|
    ensures |r| == |s|
  {
    SiftedDown(SiftedUp(s, i), i)
  }

  /** After one key has changed, whichever link is wrong gets repaired and the other sift finds nothing to do. */
  lemma SettledHeap<T>(s: seq<Keyed<T>>, i: nat, x: Keyed<T>)
    requires Heap(s) && i < |s|
    ensures Heap(Settled(s[i := x], i)) && multiset(Settled(s[i := x], i)) == multiset(s) - multiset{s[i]} + multiset{x}
  {
    var r := s[i := x];
    assert multiset(r) == multiset(s) - multiset{s[i]} + multiset{x} by { Replacing(s, i, x); }
    forall c | 0 < c < |r| && c != i && Parent(c) != i ensures OrderedAt(r, c) {
      assert OrderedAt(s, c);
    }
    if i > 0 {
      assert OrderedAt(s, i);
      forall c | (c == 2 * i + 1 || c == 2 * i + 2) && c < |r| ensures s[Parent(i)].key <= r[c].key {
        assert OrderedAt(s, c);
      }
    }
    if i > 0 && x.key < s[Parent(i)].key {
      SiftUpRestores(r, i);
      HeapHasNoHole(SiftedUp(r, i), i);
      SiftDownRestores(SiftedUp(r, i), 0, i);
    } else {
      SiftDownRestores(r, 0, i);
    }
  }

  lemma Replacing<T>(s: seq<T>, i: nat, x: T)
    requires i < |s|
    ensures multiset(s[i := x]) == multiset(s) - multiset{s[i]} + multiset{x}
  {
    assert s == s[..i] + [s[i]] + s[i + 1..];
    assert s[i := x] == s[..i] + [x] + s[i + 1..];
  }

  /** Any heap is a heap with a hole at i that needs no sifting. */
  lemma HeapHasNoHole<T>(s: seq<Keyed<T>>, i: nat)
    requires Heap(s) && i < |s|
    ensures DownHole(s, 0, i)
  {
    forall c | (c == 2 * i + 1 || c == 2 * i + 2) && c < |s| && i > 0 ensures s[Parent(i)].key <= s[c].key {
      assert OrderedAt(s, c) && OrderedAt(s, i);
    }
  }

  /** Removal at i: the last item takes its place and is sifted both ways. */
  function Removed<T>(s: seq<Keyed<T>>, i: nat): (r: seq<Keyed<T>>)
    requires i < |s|
    ensures |r| == |s| - 1
  {
    var n := |s| - 1;
    if i == n then s[..n] else Settled(s[..n][i := s[n]], i)
  }

  lemma DroppedLast<T>(s: seq<Keyed<T>>)
    requires Heap(s) && s != []
    ensures var n := |s| - 1; Heap(s[..n]) && multiset(s) == multiset(s[..n]) + multiset{s[n]}
  {
    var n := |s| - 1;
    var init := s[..n];
    assert s == init + [s[n]];
    forall c | 0 < c < |init| ensures OrderedAt(init, c) {
      assert OrderedAt(s, c);
    }
  }

  lemma RemovedHeap<T>(s: seq<Keyed<T>>, i: nat)
    requires Heap(s) && i < |s|
    ensures Heap(Removed(s, i)) && multiset(Removed(s, i)) == multiset(s) - multiset{s[i]}
  {
    var n := |s| - 1;
    var init := s[..n];
    DroppedLast(s);
    if i < n {
      SettledHeap(init, i, s[n]);
    }
  }
}
