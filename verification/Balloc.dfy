/** Slab layout of src/balloc.c: ALIGN_UP as the bit operation it is, also for strides that are not powers of two. */
module SlabLayout {
  import opened Common

  /** x & ~m, bit by bit. */
  function AndNot(x: nat, m: nat): nat
    decreases x
  {
    if x == 0 then 0 else 2 * AndNot(x / 2, m / 2) + if x % 2 == 1 && m % 2 == 0 then 1 else 0
  }

  /** ALIGN_UP(v, align); sizes are assumed small enough not to wrap around a 64-bit word. */
  function AlignUp(v: nat, align: nat): nat
    requires align > 0
  {
    AndNot(v + align - 1, align - 1)
  }

  function Pow2(k: nat): (p: nat)
    ensures p > 0
  {
    if k == 0 then 1 else 2 * Pow2(k - 1)
  }

  lemma {:induction false} AndNotSelf(m: nat)
    ensures AndNot(m, m) == 0
  {
    if m > 0 { AndNotSelf(m / 2); }
  }

  /** Adding 1 carries into the first clear bit, which is what & ~m leaves. */
  lemma {:induction false} CarrySurvives(m: nat)
    ensures AndNot(m + 1, m) >= 1
  {
    if m % 2 == 0 {
      AndNotSelf(m / 2);
    } else {
      CarrySurvives(m / 2);
      assert (m + 1) / 2 == m / 2 + 1;
    }
  }

  /** A bit on which both agree is cleared. */
  lemma {:induction false} SameBit(x: nat, m: nat)
    requires x % 2 == m % 2
    ensures AndNot(x, m) == 2 * AndNot(x / 2, m / 2)
  {
  }

  lemma {:induction false} SixteenUp(m: nat)
    ensures AndNot(m + 16, m) == 16 * AndNot(m / 16 + 1, m / 16)
  {
    hide AndNot;
    SameBit(m + 16, m);
    assert (m + 16) / 2 == m / 2 + 8;
    SameBit(m / 2 + 8, m / 2);
    assert (m / 2 + 8) / 2 == m / 4 + 4 && m / 2 / 2 == m / 4;
    SameBit(m / 4 + 4, m / 4);
    assert (m / 4 + 4) / 2 == m / 8 + 2 && m / 4 / 2 == m / 8;
    SameBit(m / 8 + 2, m / 8);
    assert (m / 8 + 2) / 2 == m / 16 + 1 && m / 8 / 2 == m / 16;
  }

  lemma {:induction false} NothingMasked(x: nat)
    ensures AndNot(x, 0) == x
  {
    if x > 0 { NothingMasked(x / 2); }
  }

  lemma {:induction false} OddMask(x: nat, m: nat)
    requires m % 2 == 1
    ensures AndNot(x, m) == 2 * AndNot(x / 2, m / 2)
  {
    if x == 0 { assert AndNot(0, m / 2) == 0; }
  }

  lemma {:induction false} EightUp(x: nat)
    ensures AndNot(x, 7) == 8 * (x / 8)
  {
    hide AndNot;
    OddMask(x, 7);
    OddMask(x / 2, 3);
    OddMask(x / 4, 1);
    assert x / 2 / 2 == x / 4 && x / 4 / 2 == x / 8;
    NothingMasked(x / 8);
  }

  /** Masking with 2^k - 1 takes off less than 2^k. */
  lemma {:induction false} MaskTakes(x: nat, k: nat)
    ensures AndNot(x, Pow2(k) - 1) <= x < AndNot(x, Pow2(k) - 1) + Pow2(k)
    decreases k
  {
    hide AndNot;
    if k == 0 {
      NothingMasked(x);
    } else {
      var p := Pow2(k - 1);
      assert (2 * p - 1) / 2 == p - 1 && (2 * p - 1) % 2 == 1;
      OddMask(x, 2 * p - 1);
      MaskTakes(x / 2, k - 1);
    }
  }

  // ---- slabs ------------------------------------------------------------------------------------

  const HEADER := 16    // sizeof(op_bh_slab_t)
  const WORD_SIZE := 8

  datatype Layout = Layout(elemSize: nat, perBlock: nat, stride: nat, dataOff: nat, mapSize: nat)

  lemma StrideFits(elemSize: nat)
    ensures elemSize <= AlignUp(elemSize, WORD_SIZE) < elemSize + WORD_SIZE && AlignUp(elemSize, WORD_SIZE) % WORD_SIZE == 0
  {
    hide AndNot;
    EightUp(elemSize + 7);
  }

  /** The sizes op_bh_alloc_struct and op_bh_grow compute, for a page of 2^page bytes. */
  function MakeLayout(elemSize: nat, perBlock: nat, page: nat): (l: Layout)
    requires elemSize >= WORD_SIZE && perBlock > 0
  {
    var stride := Stride(elemSize);
    var dataOff := AlignUp(HEADER, stride);
    Layout(elemSize, perBlock, stride, dataOff, AlignUp(dataOff + Bytes(perBlock, stride), Pow2(page)))
  }

  function Bytes(n: nat, stride: nat): nat {
    n * stride
  }

  function Stride(elemSize: nat): (s: nat)
    ensures elemSize <= s < elemSize + WORD_SIZE && s % WORD_SIZE == 0
  {
    StrideFits(elemSize);
    AlignUp(elemSize, WORD_SIZE)
  }

  predicate Sound(l: Layout) {
    && l.perBlock > 0 && WORD_SIZE <= l.elemSize <= l.stride && l.stride % WORD_SIZE == 0
    && l.dataOff >= HEADER && l.dataOff % HEADER == 0
    && l.dataOff + Bytes(l.perBlock, l.stride) <= l.mapSize
  }

  /** The first element lies past the slab header and is aligned, whatever the stride, and all elements fit the mapping. */
  lemma LayoutSound(elemSize: nat, perBlock: nat, page: nat)
    requires elemSize >= WORD_SIZE && perBlock > 0
    ensures Sound(MakeLayout(elemSize, perBlock, page))
  {
    hide AndNot, Pow2;
    StrideFits(elemSize);
    var stride := Stride(elemSize);
    HeaderFits(stride);
    var data := AlignUp(HEADER, stride) + Bytes(perBlock, stride);
    PageFits(data, page);
  }

  lemma HeaderFits(stride: nat)
    requires stride > 0
    ensures AlignUp(HEADER, stride) >= HEADER && AlignUp(HEADER, stride) % HEADER == 0
  {
    hide AndNot;
    var m := stride - 1;
    SixteenUp(m);
    CarrySurvives(m / 16);
    assert HEADER + stride - 1 == m + 16;
  }

  lemma {:induction false} PageFits(data: nat, page: nat)
    ensures AlignUp(data, Pow2(page)) >= data
  {
    hide AndNot;
    MaskTakes(data + Pow2(page) - 1, page);
  }

  type Addr = nat

  function ElemAt(l: Layout, base: Addr, i: nat): Addr {
    base + l.dataOff + Bytes(i, l.stride)
  }

  /** Element i lies inside the mapping, clear of the header and of every other element, and can hold an aligned pointer. */
  lemma ElementInside(l: Layout, base: Addr, i: nat)
    requires Sound(l) && i < l.perBlock
    ensures base + HEADER <= ElemAt(l, base, i) && ElemAt(l, base, i) + l.stride <= base + l.mapSize
  {
    Scale(l.stride, i + 1, l.perBlock);
    assert (i + 1) * l.stride == i * l.stride + l.stride;
  }

  lemma ElementAligned(l: Layout, base: Addr, i: nat)
    requires Sound(l) && base % WORD_SIZE == 0
    ensures ElemAt(l, base, i) % WORD_SIZE == 0
  {
    TimesStride(i, l.stride);
  }

  lemma {:induction false} TimesStride(i: nat, stride: nat)
    requires stride % WORD_SIZE == 0
    ensures (i * stride) % WORD_SIZE == 0
  {
    if i > 0 {
      TimesStride(i - 1, stride);
      assert i * stride == (i - 1) * stride + stride;
    }
  }

  lemma ElementsApart(l: Layout, base: Addr, i: nat, j: nat)
    requires Sound(l) && i < j
    ensures ElemAt(l, base, i) + l.stride <= ElemAt(l, base, j)
  {
    Scale(l.stride, i + 1, j);
    assert (i + 1) * l.stride == i * l.stride + l.stride;
  }

  lemma Scale(s: nat, a: nat, b: nat)
    requires a <= b
    ensures a * s <= b * s
  {
    assert b * s == a * s + (b - a) * s;
    assert (b - a) * s >= 0;
  }

  // ---- all elements of all slabs -----------------------------------------------------------------

  /** The elements of one slab in the order the growing loop pushes them: last index first. */
  function SlabElems(l: Layout, base: Addr, n: nat): (r: seq<Addr>)
    ensures |r| == n
    ensures forall j :: 0 <= j < n ==> r[j] == ElemAt(l, base, n - 1 - j)
  {
    seq(n, j requires 0 <= j < n => ElemAt(l, base, n - 1 - j))
  }

  function Elements(l: Layout, slabs: seq<Addr>): seq<Addr> {
    if slabs == [] then [] else Elements(l, slabs[..|slabs| - 1]) + SlabElems(l, slabs[|slabs| - 1], l.perBlock)
  }

  /** The kernel hands out mappings that do not overlap. */
  predicate Disjoint(l: Layout, slabs: seq<Addr>) {
    forall i, j :: 0 <= i < j < |slabs| ==> Apart(l, slabs[i], slabs[j])
  }

  predicate Apart(l: Layout, a: Addr, b: Addr) {
    a + l.mapSize <= b || b + l.mapSize <= a
  }

  lemma {:induction false} ElementsWhere(l: Layout, slabs: seq<Addr>, a: Addr)
    requires a in Elements(l, slabs)
    ensures exists k, i :: 0 <= k < |slabs| && 0 <= i < l.perBlock && a == ElemAt(l, slabs[k], i)
  {
    var n := |slabs| - 1;
    var last := SlabElems(l, slabs[n], l.perBlock);
    if a in last {
      var j :| 0 <= j < |last| && last[j] == a;
      assert a == ElemAt(l, slabs[n], l.perBlock - 1 - j);
    } else {
      ElementsWhere(l, slabs[..n], a);
      var k, i :| 0 <= k < n && 0 <= i < l.perBlock && a == ElemAt(l, slabs[..n][k], i);
      assert a == ElemAt(l, slabs[k], i);
    }
  }

  /** No two elements of any slabs coincide. */
  lemma {:induction false} ElementsDistinct(l: Layout, slabs: seq<Addr>)
    requires Sound(l) && Disjoint(l, slabs)
    ensures Distinct(Elements(l, slabs)) && |Elements(l, slabs)| == |slabs| * l.perBlock
  {
    if slabs != [] {
      var n := |slabs| - 1;
      ElementsDistinct(l, slabs[..n]);
      var old', last := Elements(l, slabs[..n]), SlabElems(l, slabs[n], l.perBlock);
      SlabDistinct(l, slabs[n], l.perBlock);
      forall i, j | 0 <= i < |old'| && 0 <= j < |last| ensures old'[i] != last[j] {
        NewSlabApart(l, slabs, old'[i], last[j], j);
      }
      Joined(old', last);
      assert |slabs| * l.perBlock == n * l.perBlock + l.perBlock;
    }
  }

  lemma SlabDistinct(l: Layout, base: Addr, n: nat)
    requires Sound(l)
    ensures Distinct(SlabElems(l, base, n))
  {
    var s := SlabElems(l, base, n);
    forall i, j | 0 <= i < j < n ensures s[i] != s[j] {
      ElementsApart(l, base, n - 1 - j, n - 1 - i);
    }
  }

  lemma {:induction false} NewSlabApart(l: Layout, slabs: seq<Addr>, a: Addr, b: Addr, j: nat)
    requires Sound(l) && Disjoint(l, slabs) && slabs != [] && j < l.perBlock
    requires a in Elements(l, slabs[..|slabs| - 1]) && b == ElemAt(l, slabs[|slabs| - 1], l.perBlock - 1 - j)
    ensures a != b
  {
    var n := |slabs| - 1;
    ElementsWhere(l, slabs[..n], a);
    var k, i :| 0 <= k < n && 0 <= i < l.perBlock && a == ElemAt(l, slabs[..n][k], i);
    ElementInside(l, slabs[k], i);
    ElementInside(l, slabs[n], l.perBlock - 1 - j);
    assert Apart(l, slabs[k], slabs[n]);
  }

  lemma Joined(a: seq<Addr>, b: seq<Addr>)
    requires Distinct(a) && Distinct(b) && forall i, j :: 0 <= i < |a| && 0 <= j < |b| ==> a[i] != b[j]
    ensures Distinct(a + b)
  {
    var s := a + b;
    forall i, j | 0 <= i < j < |s| ensures s[i] != s[j] {
      if i < |a| <= j { assert a[i] != b[j - |a|]; }
    }
  }
}

/** Who holds each element: the shared free list, a thread's magazine, or a caller.  Refill and flush run under the heap's
    lock and are single steps; a thread's work on its own magazine touches nothing shared. */
module Balloc {
  import opened Common
  import opened SlabLayout

  const MAGAZINE := 32
  const HALF := 16

  /** The free list has its head at the end. */
  datatype Shared = Shared(free: seq<Addr>, slabs: seq<Addr>, nfree: int, nused: int)

  function Grown(l: Layout, h: Shared, base: Addr): Shared {
    Shared(h.free + SlabElems(l, base, l.perBlock), h.slabs + [base], h.nfree + l.perBlock, h.nused)
  }

  function TakeOne(h: Shared): Shared
    requires h.free != []
  {
    h.(free := h.free[..|h.free| - 1], nfree := h.nfree - 1, nused := h.nused + 1)
  }

  /** The refill loop: takes `want` elements, growing when the list is empty.  `bases` are the mappings the kernel would hand
      out next; None when it has none left, in which case the program aborts. */
  function Refilled(l: Layout, h: Shared, items: seq<Addr>, want: nat, bases: seq<Addr>): (r: Option<(Shared, seq<Addr>)>)
    requires l.perBlock > 0
    ensures r.Some? ==> |r.value.1| == |items| + want
    decreases want
  {
    if want == 0 then Some((h, items))
    else if h.free != [] then Refilled(l, TakeOne(h), items + [h.free[|h.free| - 1]], want - 1, bases)
    else if bases == [] then None
    else
      var g := Grown(l, h, bases[0]);
      Refilled(l, TakeOne(g), items + [g.free[|g.free| - 1]], want - 1, bases[1..])
  }

  /** The flush loop: n elements go back, the magazine's last first. */
  function Flushed(h: Shared, items: seq<Addr>, n: nat): (Shared, seq<Addr>)
    requires n <= |items|
    decreases n
  {
    if n == 0 then (h, items)
    else
      var k := |items| - 1;
      Flushed(h.(free := h.free + [items[k]], nfree := h.nfree + 1, nused := h.nused - 1), items[..k], n - 1)
  }

  datatype State = State(h: Shared, mags: seq<seq<Addr>>, held: multiset<Addr>)

  datatype Action = Start | Refill(t: nat, bases: seq<Addr>) | Pop(t: nat) | Flush(t: nat) | Push(t: nat, p: Addr)

  /** What op_bh_create leaves: one slab, all of it free. */
  function Created(l: Layout, base: Addr): State {
    State(Grown(l, Shared([], [], 0, 0), base), [], multiset{})
  }

  /** An allocation refills when its magazine is empty and then pops; a release flushes when it is full and then pushes what
      its caller holds. */
  ghost predicate Enabled(l: Layout, s: State, a: Action) {
    match a
    case Start => true
    case Refill(t, bases) =>
      t < |s.mags| && s.mags[t] == [] && l.perBlock > 0 && Disjoint(l, s.h.slabs + bases) && Refilled(l, s.h, [], HALF, bases).Some?
    case Pop(t) => t < |s.mags| && s.mags[t] != []
    case Flush(t) => t < |s.mags| && |s.mags[t]| >= MAGAZINE
    case Push(t, p) => t < |s.mags| && |s.mags[t]| < MAGAZINE && p in s.held
  }

  ghost function Next(l: Layout, s: State, a: Action): State
    requires Enabled(l, s, a)
  {
    match a
    case Start => s.(mags := s.mags + [[]])
    case Refill(t, bases) =>
      var (h, items) := Refilled(l, s.h, [], HALF, bases).value;
      s.(h := h, mags := s.mags[t := items])
    case Pop(t) =>
      var m := s.mags[t];
      s.(mags := s.mags[t := m[..|m| - 1]], held := s.held + multiset{m[|m| - 1]})
    case Flush(t) =>
      var (h, items) := Flushed(s.h, s.mags[t], HALF);
      s.(h := h, mags := s.mags[t := items])
    case Push(t, p) => s.(mags := s.mags[t := s.mags[t] + [p]], held := s.held - multiset{p})
  }

  // ---- conservation ---------------------------------------------------------------------------------

  function Flat(mags: seq<seq<Addr>>): multiset<Addr> {
    if mags == [] then multiset{} else Flat(mags[..|mags| - 1]) + multiset(mags[|mags| - 1])
  }

  function Everything(s: State): multiset<Addr> {
    multiset(s.h.free) + Flat(s.mags) + s.held
  }

  ghost predicate Counts(l: Layout, h: Shared) {
    h.nfree == |h.free| && h.nfree + h.nused == Bytes(|h.slabs|, l.perBlock)
  }

  ghost predicate Inv(l: Layout, s: State) {
    && Sound(l) && Disjoint(l, s.h.slabs) && Counts(l, s.h)
    && Everything(s) == multiset(Elements(l, s.h.slabs))
    && forall t :: 0 <= t < |s.mags| ==> |s.mags[t]| <= MAGAZINE
  }

  lemma {:induction false} FlatUpdate(mags: seq<seq<Addr>>, t: nat, m: seq<Addr>)
    requires t < |mags|
    ensures Flat(mags[t := m]) + multiset(mags[t]) == Flat(mags) + multiset(m)
  {
    var n := |mags| - 1;
    if t == n {
      assert mags[t := m][..n] == mags[..n];
    } else {
      FlatUpdate(mags[..n], t, m);
      assert mags[t := m][..n] == mags[..n][t := m];
      Shuffle(Flat(mags[..n][t := m]), multiset(mags[t]), Flat(mags[..n]), multiset(m), multiset(mags[n]));
    }
  }

  lemma Shuffle(a: multiset<Addr>, b: multiset<Addr>, c: multiset<Addr>, d: multiset<Addr>, x: multiset<Addr>)
    requires a + b == c + d
    ensures a + x + b == c + x + d
  {
    assert a + x + b == a + b + x;
  }

  /** Elements of the free list and of one magazine together, against the elements of all slabs. */
  ghost predicate Moved(l: Layout, h: Shared, items: seq<Addr>, h': Shared, items': seq<Addr>) {
    multiset(h'.free) + multiset(items') + multiset(Elements(l, h.slabs))
    == multiset(h.free) + multiset(items) + multiset(Elements(l, h'.slabs))
  }

  lemma TakeMoves(l: Layout, h: Shared, items: seq<Addr>)
    requires h.free != [] && Counts(l, h)
    ensures Moved(l, h, items, TakeOne(h), items + [h.free[|h.free| - 1]]) && Counts(l, TakeOne(h))
  {
    var n := |h.free| - 1;
    assert h.free == h.free[..n] + [h.free[n]];
  }

  lemma GrowMoves(l: Layout, h: Shared, items: seq<Addr>, base: Addr)
    requires Counts(l, h)
    ensures Moved(l, h, items, Grown(l, h, base), items) && Counts(l, Grown(l, h, base))
  {
    var g := Grown(l, h, base);
    assert g.slabs[..|h.slabs|] == h.slabs;
    assert Elements(l, g.slabs) == Elements(l, h.slabs) + SlabElems(l, base, l.perBlock);
    assert Bytes(|h.slabs| + 1, l.perBlock) == Bytes(|h.slabs|, l.perBlock) + l.perBlock by { OneMore(|h.slabs|, l.perBlock); }
  }

  lemma OneMore(n: nat, k: nat)
    ensures (n + 1) * k == n * k + k
  {
  }

  lemma MovedTwice(l: Layout, h: Shared, i: seq<Addr>, h1: Shared, i1: seq<Addr>, h2: Shared, i2: seq<Addr>)
    requires Moved(l, h, i, h1, i1) && Moved(l, h1, i1, h2, i2)
    ensures Moved(l, h, i, h2, i2)
  {
    var e, e1, e2 := multiset(Elements(l, h.slabs)), multiset(Elements(l, h1.slabs)), multiset(Elements(l, h2.slabs));
    var a, a1, a2 := multiset(h.free) + multiset(i), multiset(h1.free) + multiset(i1), multiset(h2.free) + multiset(i2);
    Cancel(a, a1, a2, e, e1, e2);
  }

  lemma Cancel(a: multiset<Addr>, a1: multiset<Addr>, a2: multiset<Addr>, e: multiset<Addr>, e1: multiset<Addr>, e2: multiset<Addr>)
    requires a1 + e == a + e1 && a2 + e1 == a1 + e2
    ensures a2 + e == a + e2
  {
    forall x ensures (a2 + e)[x] == (a + e2)[x] {
      assert (a1 + e)[x] == (a + e1)[x] && (a2 + e1)[x] == (a1 + e2)[x];
    }
  }

  lemma {:induction false} RefillMoves(l: Layout, h: Shared, items: seq<Addr>, want: nat, bases: seq<Addr>)
    requires Sound(l) && Counts(l, h) && Disjoint(l, h.slabs + bases) && Refilled(l, h, items, want, bases).Some?
    ensures var (h', items') := Refilled(l, h, items, want, bases).value;
            Counts(l, h') && Disjoint(l, h'.slabs) && Moved(l, h, items, h', items')
    decreases want
  {
    hide Counts, Moved, Grown, Disjoint, TakeOne;
    if want == 0 {
      NothingMoved(l, h, items);
      Prefix(l, h.slabs, bases);
    } else {
      var g, rest := h, bases;
      if h.free == [] {
        g, rest := Grown(l, h, bases[0]), bases[1..];
        GrowMoves(l, h, items, bases[0]);
        Regrouped(l, h, bases);
      } else {
        NothingMoved(l, h, items);
      }
      var items1 := items + [g.free[|g.free| - 1]];
      TakeMoves(l, g, items);
      MovedTwice(l, h, items, g, items, TakeOne(g), items1);
      SameSlabs(g);
      RefillMoves(l, TakeOne(g), items1, want - 1, rest);
      var (h', items') := Refilled(l, TakeOne(g), items1, want - 1, rest).value;
      MovedTwice(l, h, items, TakeOne(g), items1, h', items');
    }
  }

  lemma NothingMoved(l: Layout, h: Shared, items: seq<Addr>)
    ensures Moved(l, h, items, h, items)
  {
  }

  lemma SameSlabs(h: Shared)
    requires h.free != []
    ensures TakeOne(h).slabs == h.slabs
  {
  }

  lemma Prefix(l: Layout, slabs: seq<Addr>, bases: seq<Addr>)
    requires Disjoint(l, slabs + bases)
    ensures Disjoint(l, slabs)
  {
    var all := slabs + bases;
    forall i, j | 0 <= i < j < |slabs| ensures Apart(l, slabs[i], slabs[j]) {
      assert Apart(l, all[i], all[j]);
    }
  }

  lemma Regrouped(l: Layout, h: Shared, bases: seq<Addr>)
    requires bases != [] && Disjoint(l, h.slabs + bases) && l.perBlock > 0
    ensures Disjoint(l, Grown(l, h, bases[0]).slabs + bases[1..]) && |Grown(l, h, bases[0]).free| > 0
  {
    assert Grown(l, h, bases[0]).slabs + bases[1..] == h.slabs + bases;
  }

  lemma {:induction false} FlushMoves(l: Layout, h: Shared, items: seq<Addr>, n: nat)
    requires n <= |items| && Counts(l, h)
    ensures var (h', items') := Flushed(h, items, n);
            && Counts(l, h') && h'.slabs == h.slabs && |items'| == |items| - n
            && multiset(h'.free) + multiset(items') == multiset(h.free) + multiset(items)
    decreases n
  {
    if n > 0 {
      var k := |items| - 1;
      var h1 := h.(free := h.free + [items[k]], nfree := h.nfree + 1, nused := h.nused - 1);
      assert items == items[..k] + [items[k]];
      FlushMoves(l, h1, items[..k], n - 1);
    }
  }

  /** Exchanging between the free list and one magazine leaves the whole as it was. */
  lemma {:induction false} Exchanged(l: Layout, s: State, t: nat, h': Shared, m': seq<Addr>)
    requires t < |s.mags| && Moved(l, s.h, s.mags[t], h', m') && Everything(s) == multiset(Elements(l, s.h.slabs))
    ensures Everything(s.(h := h', mags := s.mags[t := m'])) == multiset(Elements(l, h'.slabs))
  {
    FlatUpdate(s.mags, t, m');
    var f, f' := multiset(s.h.free), multiset(h'.free);
    var m, n := multiset(s.mags[t]), multiset(m');
    var e, e' := multiset(Elements(l, s.h.slabs)), multiset(Elements(l, h'.slabs));
    var w, w' := Flat(s.mags), Flat(s.mags[t := m']);
    forall x ensures (f' + w' + s.held)[x] == e'[x] {
      assert (w' + m)[x] == (w + n)[x];
      assert (f' + n + e)[x] == (f + m + e')[x];
      assert (f + w + s.held)[x] == e[x];
    }
  }

  // ---- every step conserves -------------------------------------------------------------------------

  lemma CreatedOk(l: Layout, base: Addr)
    requires Sound(l)
    ensures Inv(l, Created(l, base))
  {
    var h0 := Shared([], [], 0, 0);
    GrowMoves(l, h0, [], base);
    assert Elements(l, h0.slabs) == [];
  }

  lemma RefillStep(l: Layout, s: State, t: nat, bases: seq<Addr>)
    requires Inv(l, s) && Enabled(l, s, Refill(t, bases))
    ensures Inv(l, Next(l, s, Refill(t, bases)))
  {
    hide Moved, Everything, Counts, Disjoint;
    RefillMoves(l, s.h, [], HALF, bases);
    var (h, items) := Refilled(l, s.h, [], HALF, bases).value;
    Exchanged(l, s, t, h, items);
  }

  lemma FlushStep(l: Layout, s: State, t: nat)
    requires Inv(l, s) && Enabled(l, s, Flush(t))
    ensures Inv(l, Next(l, s, Flush(t)))
  {
    hide Everything, Counts, Disjoint, Flushed;
    FlushMoves(l, s.h, s.mags[t], HALF);
    var (h, items) := Flushed(s.h, s.mags[t], HALF);
    Exchanged(l, s, t, h, items);
  }

  lemma PopStep(l: Layout, s: State, t: nat)
    requires Inv(l, s) && Enabled(l, s, Pop(t))
    ensures Inv(l, Next(l, s, Pop(t)))
  {
    hide Counts, Disjoint, Flat, Elements;
    var m := s.mags[t];
    var k := |m| - 1;
    assert m == m[..k] + [m[k]];
    FlatUpdate(s.mags, t, m[..k]);
    HandedOver(Flat(s.mags), Flat(s.mags[t := m[..k]]), multiset(m[..k]), m[k]);
  }

  lemma HandedOver(w: multiset<Addr>, w': multiset<Addr>, m: multiset<Addr>, x: Addr)
    requires w' + (m + multiset{x}) == w + m
    ensures w' + multiset{x} == w
  {
    forall a ensures (w' + multiset{x})[a] == w[a] {
      assert (w' + (m + multiset{x}))[a] == (w + m)[a];
    }
  }

  lemma PushStep(l: Layout, s: State, t: nat, p: Addr)
    requires Inv(l, s) && Enabled(l, s, Push(t, p))
    ensures Inv(l, Next(l, s, Push(t, p)))
  {
    hide Counts, Disjoint, Flat, Elements;
    var m := s.mags[t];
    FlatUpdate(s.mags, t, m + [p]);
    HandedOver(Flat(s.mags[t := m + [p]]), Flat(s.mags), multiset(m), p);
  }

  lemma StepKeepsInv(l: Layout, s: State, a: Action)
    requires Inv(l, s) && Enabled(l, s, a)
    ensures Inv(l, Next(l, s, a))
  {
    match a
    case Start => assert (s.mags + [[]])[..|s.mags|] == s.mags;
    case Refill(t, bases) => RefillStep(l, s, t, bases);
    case Pop(t) => PopStep(l, s, t);
    case Flush(t) => FlushStep(l, s, t);
    case Push(t, p) => PushStep(l, s, t, p);
  }

  ghost predicate IsRun(l: Layout, trace: seq<State>, acts: seq<Action>, base: Addr) {
    && |trace| == |acts| + 1 && trace[0] == Created(l, base)
    && forall i :: 0 <= i < |acts| ==> Enabled(l, trace[i], acts[i]) && trace[i + 1] == Next(l, trace[i], acts[i])
  }

  lemma {:induction false} RunKeepsInv(l: Layout, trace: seq<State>, acts: seq<Action>, base: Addr, i: nat)
    requires Sound(l) && IsRun(l, trace, acts, base) && i < |trace|
    ensures Inv(l, trace[i])
  {
    hide Inv;
    if i == 0 {
      CreatedOk(l, base);
    } else {
      RunKeepsInv(l, trace, acts, base, i - 1);
      StepKeepsInv(l, trace[i - 1], acts[i - 1]);
    }
  }

  // ---- what holds in every run ----------------------------------------------------------------------

  lemma {:induction false} DistinctOnce(s: seq<Addr>, a: Addr)
    requires Distinct(s)
    ensures multiset(s)[a] == if a in s then 1 else 0
  {
    if s != [] {
      var n := |s| - 1;
      assert s == s[..n] + [s[n]];
      DistinctOnce(s[..n], a);
      assert s[n] !in s[..n];
    }
  }

  lemma {:induction false} FlatAt(mags: seq<seq<Addr>>, t: nat, a: Addr)
    requires t < |mags|
    ensures multiset(mags[t])[a] <= Flat(mags)[a]
  {
    if t < |mags| - 1 { FlatAt(mags[..|mags| - 1], t, a); }
  }

  lemma {:induction false} FlatPair(mags: seq<seq<Addr>>, t: nat, u: nat, a: Addr)
    requires t < u < |mags|
    ensures multiset(mags[t])[a] + multiset(mags[u])[a] <= Flat(mags)[a]
  {
    var n := |mags| - 1;
    if u == n { FlatAt(mags[..n], t, a); } else { FlatPair(mags[..n], t, u, a); }
  }

  /** At any point of any run each element of each slab is in exactly one place, once: the free list, one magazine, or a
      caller's hands; nothing else is anywhere; and the two counters are exact. */
  lemma {:induction false} ExactlyOnePlace(l: Layout, trace: seq<State>, acts: seq<Action>, base: Addr, i: nat, a: Addr)
    requires Sound(l) && IsRun(l, trace, acts, base) && i < |trace|
    ensures var s := trace[i];
            && multiset(s.h.free)[a] + Flat(s.mags)[a] + s.held[a] == (if a in Elements(l, s.h.slabs) then 1 else 0)
            && (forall t, u :: 0 <= t < u < |s.mags| ==> multiset(s.mags[t])[a] + multiset(s.mags[u])[a] <= 1)
            && s.h.nfree == |s.h.free| && s.h.nfree + s.h.nused == Bytes(|s.h.slabs|, l.perBlock) == |Elements(l, s.h.slabs)|
  {
    var s := trace[i];
    RunKeepsInv(l, trace, acts, base, i);
    ElementsDistinct(l, s.h.slabs);
    DistinctOnce(Elements(l, s.h.slabs), a);
    assert Everything(s)[a] == multiset(Elements(l, s.h.slabs))[a];
    forall t, u | 0 <= t < u < |s.mags| ensures multiset(s.mags[t])[a] + multiset(s.mags[u])[a] <= 1 {
      FlatPair(s.mags, t, u, a);
    }
  }

  /** Two elements in use never overlap, and none touches a slab header. */
  lemma HeldApart(l: Layout, trace: seq<State>, acts: seq<Action>, base: Addr, i: nat, a: Addr, b: Addr)
    requires Sound(l) && IsRun(l, trace, acts, base) && i < |trace|
    requires a in trace[i].held && b in trace[i].held && a != b
    ensures a + l.stride <= b || b + l.stride <= a
    ensures exists k :: 0 <= k < |trace[i].h.slabs| && trace[i].h.slabs[k] + HEADER <= a && a + l.stride <= trace[i].h.slabs[k] + l.mapSize
  {
    var s := trace[i];
    RunKeepsInv(l, trace, acts, base, i);
    ExactlyOnePlace(l, trace, acts, base, i, a);
    ExactlyOnePlace(l, trace, acts, base, i, b);
    ElementsWhere(l, s.h.slabs, a);
    ElementsWhere(l, s.h.slabs, b);
    var k, x :| 0 <= k < |s.h.slabs| && 0 <= x < l.perBlock && a == ElemAt(l, s.h.slabs[k], x);
    var j, y :| 0 <= j < |s.h.slabs| && 0 <= y < l.perBlock && b == ElemAt(l, s.h.slabs[j], y);
    ElementInside(l, s.h.slabs[k], x);
    ElementInside(l, s.h.slabs[j], y);
    PairApart(l, s.h.slabs, k, x, j, y);
  }

  lemma PairApart(l: Layout, slabs: seq<Addr>, k: nat, x: nat, j: nat, y: nat)
    requires Sound(l) && Disjoint(l, slabs) && k < |slabs| && j < |slabs| && x < l.perBlock && y < l.perBlock
    requires ElemAt(l, slabs[k], x) != ElemAt(l, slabs[j], y)
    ensures var a, b := ElemAt(l, slabs[k], x), ElemAt(l, slabs[j], y); a + l.stride <= b || b + l.stride <= a
  {
    ElementInside(l, slabs[k], x);
    ElementInside(l, slabs[j], y);
    if k < j {
      assert Apart(l, slabs[k], slabs[j]);
    } else if j < k {
      assert Apart(l, slabs[j], slabs[k]);
    } else if x < y {
      ElementsApart(l, slabs[k], x, y);
    } else if y < x {
      ElementsApart(l, slabs[k], y, x);
    }
  }
}

/** The heap and magazines updated in place: the free list is threaded through the first word of each free element. */
module BlockHeap {
  import opened Common
  import opened SlabLayout
  import opened Balloc

  const NULL: Addr := 0

  /** The first word of list[i] points to the element below it. */
  predicate PointsDown(list: seq<Addr>, word: map<Addr, Addr>, i: nat)
    requires i < |list|
  {
    list[i] in word && word[list[i]] == if i == 0 then NULL else list[i - 1]
  }

  /** The chain of first words from the head, written with the head last. */
  ghost predicate Linked(list: seq<Addr>, head: Addr, word: map<Addr, Addr>) {
    && Distinct(list) && NULL !in list
    && head == (if list == [] then NULL else list[|list| - 1])
    && forall i {:trigger PointsDown(list, word, i)} :: 0 <= i < |list| ==> PointsDown(list, word, i)
  }

  lemma LinkedPush(list: seq<Addr>, head: Addr, word: map<Addr, Addr>, a: Addr)
    requires Linked(list, head, word) && a != NULL && a !in list
    ensures Linked(list + [a], a, word[a := head])
  {
    var more, word' := list + [a], word[a := head];
    forall i | 0 <= i < |more| ensures PointsDown(more, word', i) {
      if i < |list| { assert PointsDown(list, word, i); }
    }
  }

  lemma LinkedPop(list: seq<Addr>, head: Addr, word: map<Addr, Addr>)
    requires Linked(list, head, word) && head != NULL
    ensures list != [] && head == list[|list| - 1] && head in word && Linked(list[..|list| - 1], word[head], word)
  {
    var n := |list| - 1;
    var rest := list[..n];
    assert PointsDown(list, word, n);
    forall i | 0 <= i < |rest| ensures PointsDown(rest, word, i) {
      assert PointsDown(list, word, i);
    }
  }

  class Magazine {
    const items: array<Addr>
    var count: nat

    ghost predicate Shaped()
      reads this
    {
      items.Length == MAGAZINE && count <= MAGAZINE
    }

    ghost function Items(): (s: seq<Addr>)
      reads this, items
      requires Shaped()
      ensures |s| == count
    {
      items[..count]
    }

    constructor ()
      ensures Shaped() && fresh(items) && Items() == []
    {
      items := new Addr[MAGAZINE](_ => NULL);
      count := 0;
    }

    method Add(a: Addr)
      requires Shaped() && count < MAGAZINE
      modifies this`count, items
      ensures Shaped() && Items() == old(Items()) + [a]
    {
      items[count] := a;
      count := count + 1;
    }

    method Drop() returns (a: Addr)
      requires Shaped() && count > 0
      modifies this`count
      ensures Shaped() && Items() == old(Items())[..old(count) - 1] && a == old(Items())[old(count) - 1]
    {
      count := count - 1;
      a := items[count];
    }
  }

  class Heap {
    const layout: Layout
    var freeHead: Addr
    var word: map<Addr, Addr>   // first word of each element, as far as the allocator wrote it
    var slabs: seq<Addr>
    var nfree: int
    var nused: int
    ghost var list: seq<Addr>

    ghost predicate Valid()
      reads this
    {
      Sound(layout) && Linked(list, freeHead, word)
    }

    ghost function View(): Shared
      reads this
    {
      Shared(list, slabs, nfree, nused)
    }

    constructor (l: Layout)
      requires Sound(l)
      ensures Valid() && layout == l && View() == Shared([], [], 0, 0)
    {
      layout := l;
      freeHead, word, slabs, nfree, nused := NULL, map[], [], 0, 0;
      list := [];
    }

    /** Maps a slab and pushes its elements, last index first. */
    method Grow(base: Addr)
      requires Valid() && forall i :: 0 <= i < layout.perBlock ==> ElemAt(layout, base, i) !in list
      modifies this
      ensures Valid() && View() == Grown(layout, old(View()), base)
    {
      slabs := slabs + [base];
      ghost var was := list;
      ghost var all := SlabElems(layout, base, layout.perBlock);
      var i := layout.perBlock;
      while i > 0
        invariant 0 <= i <= layout.perBlock && Valid() && list == was + all[..layout.perBlock - i]
        invariant slabs == old(slabs) + [base] && nfree == old(nfree) && nused == old(nused)
      {
        i := i - 1;
        var elem := ElemAt(layout, base, i);
        NotPushedYet(layout, base, was, i);
        LinkedPush(list, freeHead, word, elem);
        word := word[elem := freeHead];
        freeHead := elem;
        list := list + [elem];
        assert all[..layout.perBlock - i] == all[..layout.perBlock - i - 1] + [elem];
      }
      nfree := nfree + layout.perBlock;
    }

    /** Pops the head of a free list that is not empty into the magazine. */
    method MoveOne(mag: Magazine)
      requires Valid() && list != [] && mag.Shaped() && mag.count < MAGAZINE
      modifies this, mag`count, mag.items
      ensures Valid() && mag.Shaped() && View() == TakeOne(old(View()))
      ensures mag.Items() == old(mag.Items()) + [old(list)[|old(list)| - 1]]
    {
      LinkedPop(list, freeHead, word);
      mag.Add(freeHead);
      freeHead := word[freeHead];
      list := list[..|list| - 1];
      nfree := nfree - 1;
      nused := nused + 1;
    }

    /** False when the kernel has no mapping left; the program then aborts. */
    method Refill(mag: Magazine, bases: seq<Addr>) returns (ok: bool)
      requires Valid() && mag.Shaped() && mag.count == 0 && Disjoint(layout, slabs + bases) && Listed(layout, View())
      modifies this, mag`count, mag.items
      ensures Valid() && mag.Shaped()
      ensures ok <==> Refilled(layout, old(View()), [], HALF, bases).Some?
      ensures ok ==> Refilled(layout, old(View()), [], HALF, bases).value == (View(), mag.Items())
    {
      hide Disjoint, Listed, Linked, Grown, TakeOne;
      var got := 0;
      var rest := bases;
      while got < HALF
        invariant 0 <= got <= HALF && Valid() && mag.Shaped() && mag.count == got && layout.perBlock > 0
        invariant Refilled(layout, View(), mag.Items(), HALF - got, rest) == Refilled(layout, old(View()), [], HALF, bases)
        invariant Disjoint(layout, slabs + rest) && Listed(layout, View())
      {
        EmptyList(list, freeHead, word);
        if freeHead == NULL {
          if rest == [] {
            return false;
          }
          Regrouped(layout, View(), rest);
          GrownListed(layout, View(), rest[0]);
          Grow(rest[0]);
          rest := rest[1..];
        }
        TakenListed(layout, View());
        MoveOne(mag);
        got := got + 1;
      }
      return true;
    }

    /** Puts the magazine's last n elements back. */
    method FlushOut(mag: Magazine, n: nat)
      requires Valid() && mag.Shaped() && n <= mag.count && Distinct(list + mag.Items()) && NULL !in mag.Items()
      modifies this, mag`count
      ensures Valid() && mag.Shaped() && (View(), mag.Items()) == Flushed(old(View()), old(mag.Items()), n)
    {
      var i := 0;
      while i < n
        invariant 0 <= i <= n <= mag.count + i && Valid() && mag.Shaped()
        invariant Distinct(list + mag.Items()) && NULL !in mag.Items()
        invariant Flushed(View(), mag.Items(), n - i) == Flushed(old(View()), old(mag.Items()), n)
      {
        ghost var was, m := list, mag.Items();
        LastApart(was, m);
        var p := mag.Drop();
        LinkedPush(list, freeHead, word, p);
        word := word[p := freeHead];
        freeHead := p;
        list := list + [p];
        nfree := nfree + 1;
        nused := nused - 1;
        i := i + 1;
      }
    }

    /** op_bh_alloc: an element that was in nobody's hands. */
    method Alloc(mag: Magazine, bases: seq<Addr>) returns (r: Option<Addr>)
      requires Valid() && mag.Shaped() && Disjoint(layout, slabs + bases) && Listed(layout, View())
      modifies this, mag`count, mag.items
      ensures Valid() && mag.Shaped()
      ensures old(mag.count) > 0 ==> r == Some(old(mag.Items())[old(mag.count) - 1]) && mag.Items() == old(mag.Items())[..old(mag.count) - 1] && View() == old(View())
      ensures old(mag.count) == 0 ==>
                var f := Refilled(layout, old(View()), [], HALF, bases);
                && (r.None? <==> f.None?)
                && (r.Some? ==> View() == f.value.0 && f.value.1 == mag.Items() + [r.value])
    {
      if mag.count == 0 {
        var ok := Refill(mag, bases);
        if !ok {
          return None;
        }
      }
      var a := mag.Drop();
      return Some(a);
    }

    /** op_bh_free of something the caller holds. */
    method Free(mag: Magazine, p: Addr)
      requires Valid() && mag.Shaped() && Distinct(list + mag.Items()) && NULL !in mag.Items()
      modifies this, mag`count, mag.items
      ensures Valid() && mag.Shaped()
      ensures old(mag.count) < MAGAZINE ==> mag.Items() == old(mag.Items()) + [p] && View() == old(View())
      ensures old(mag.count) == MAGAZINE ==>
                var (h, m) := Flushed(old(View()), old(mag.Items()), HALF);
                View() == h && mag.Items() == m + [p]
    {
      if mag.count >= MAGAZINE {
        FlushOut(mag, HALF);
        FlushShortens(old(View()), old(mag.Items()), HALF);
      }
      mag.Add(p);
    }
  }

  lemma NotPushedYet(l: Layout, base: Addr, was: seq<Addr>, i: nat)
    requires Sound(l) && i < l.perBlock && forall j :: 0 <= j < l.perBlock ==> ElemAt(l, base, j) !in was
    ensures ElemAt(l, base, i) != NULL && ElemAt(l, base, i) !in was + SlabElems(l, base, l.perBlock)[..l.perBlock - i - 1]
  {
    var all := SlabElems(l, base, l.perBlock);
    ElementInside(l, base, i);
    forall j | 0 <= j < l.perBlock - i - 1 ensures all[j] != ElemAt(l, base, i) {
      ElementsApart(l, base, i, l.perBlock - 1 - j);
    }
  }

  /** Only elements of the slabs are on the free list. */
  ghost predicate Listed(l: Layout, h: Shared) {
    forall a :: a in h.free ==> a in Elements(l, h.slabs)
  }

  lemma EmptyList(list: seq<Addr>, head: Addr, word: map<Addr, Addr>)
    requires Linked(list, head, word)
    ensures head == NULL <==> list == []
  {
    if list != [] { assert list[|list| - 1] in list; }
  }

  lemma GrownListed(l: Layout, h: Shared, base: Addr)
    requires Listed(l, h) && h.free == []
    ensures Listed(l, Grown(l, h, base))
  {
    var g := Grown(l, h, base);
    assert g.slabs[..|h.slabs|] == h.slabs;
  }

  lemma TakenListed(l: Layout, h: Shared)
    requires Listed(l, h) && h.free != []
    ensures Listed(l, TakeOne(h)) && TakeOne(h).slabs == h.slabs
  {
  }

  lemma LastApart(list: seq<Addr>, m: seq<Addr>)
    requires Distinct(list + m) && m != [] && NULL !in m
    ensures m[|m| - 1] !in list && m[|m| - 1] != NULL && Distinct(list + [m[|m| - 1]] + m[..|m| - 1]) && NULL !in m[..|m| - 1]
  {
    var s, k := list + m, |m| - 1;
    assert s[|list| + k] == m[k];
    forall i | 0 <= i < |list| ensures list[i] != m[k] { assert s[i] == list[i]; }
    var r := list + [m[k]] + m[..k];
    forall i, j | 0 <= i < j < |r| ensures r[i] != r[j] {
      var x := if i < |list| then i else if i == |list| then |list| + k else i - 1;
      var y := if j < |list| then j else if j == |list| then |list| + k else j - 1;
      assert r[i] == s[x] && r[j] == s[y];
    }
  }

  lemma {:induction false} FlushShortens(h: Shared, m: seq<Addr>, n: nat)
    requires n <= |m|
    ensures |Flushed(h, m, n).1| == |m| - n
    decreases n
  {
    if n > 0 {
      var k := |m| - 1;
      FlushShortens(h.(free := h.free + [m[k]], nfree := h.nfree + 1, nused := h.nused - 1), m[..k], n - 1);
    }
  }
}
