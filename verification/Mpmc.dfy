/** The bounded multi-producer multi-consumer queue of include/op_mpmc.h.  Every atomic
    load, store or compare-and-swap is one step of one thread (sequentially consistent,
    counters unbounded); any number of threads interleave freely. */
module Mpmc {
  import opened Ring

  type Item = nat
  type Tid = nat

  datatype Slot = Slot(seqNo: nat, data: Item)

  /** Where a thread stands.  `pos` is its local copy of head or tail. */
  datatype Pc =
    | Idle
    | PushSeq(item: Item, pos: nat)      // about to load slot->seq
    | PushCas(item: Item, pos: nat)      // saw seq == pos, about to CAS head
    | PushReload(item: Item)             // saw seq > pos, about to reload head
    | PushWrite(item: Item, pos: nat)    // owns pos, about to store data
    | PushPublish(item: Item, pos: nat)  // about to store seq = pos + 1
    | PopSeq(pos: nat)
    | PopCas(pos: nat)
    | PopReload
    | PopRead(pos: nat)                  // owns pos, about to load data
    | PopRelease(pos: nat, item: Item)   // about to store seq = pos + mask + 1

  /** The shared queue, the threads, and the history: what was pushed at each position, and which
      positions were written, published, read and released. */
  datatype Queue = Queue(
    head: nat, tail: nat, slots: seq<Slot>, pcs: map<Tid, Pc>,
    pushed: seq<Item>, written: set<nat>, published: set<nat>, taken: map<nat, Item>, released: set<nat>)

  datatype Action = StartPush(item: Item) | StartPop | Go | CasFails

  /** What op_mpmc_init accepts and leaves behind; slot data is whatever the allocator gave. */
  ghost predicate Init(s: Queue, cap: nat) {
    && IsPowerOfTwo(cap) && |s.slots| == cap
    && (forall i :: 0 <= i < cap ==> s.slots[i].seqNo == i)
    && s.head == s.tail == 0
    && (forall t :: t in s.pcs ==> s.pcs[t] == Idle)
    && s.pushed == [] && s.written == {} && s.published == {} && s.taken == map[] && s.released == {}
  }

  predicate Enabled(s: Queue, t: Tid, a: Action) {
    && |s.slots| > 0
    && t in s.pcs
    && match a
       case StartPush(_) => s.pcs[t].Idle?
       case StartPop => s.pcs[t].Idle?
       case Go => !s.pcs[t].Idle?
       case CasFails => s.pcs[t].PushCas? || s.pcs[t].PopCas?
  }

  function At(s: Queue, t: Tid, pc: Pc): Queue {
    s.(pcs := s.pcs[t := pc])
  }

  /** One atomic step of thread t.  The compare-and-swap is the weak one: it may fail spuriously,
      and a failure of either kind reloads pos from the shared counter. */
  function Next(s: Queue, t: Tid, a: Action): Queue
    requires Enabled(s, t, a)
  {
    var cap := |s.slots|;
    match a
    case StartPush(x) => At(s, t, PushSeq(x, s.head))
    case StartPop => At(s, t, PopSeq(s.tail))
    case CasFails => if s.pcs[t].PushCas? then At(s, t, PushSeq(s.pcs[t].item, s.head)) else At(s, t, PopSeq(s.tail))
    case Go =>
      match s.pcs[t]
      case Idle => s
      case PushSeq(x, pos) =>
        var n := s.slots[Wrap(pos, cap)].seqNo;
        At(s, t, if n == pos then PushCas(x, pos) else if n < pos then Idle else PushReload(x))
      case PushReload(x) => At(s, t, PushSeq(x, s.head))
      case PushCas(x, pos) =>
        if s.head == pos then At(s, t, PushWrite(x, pos)).(head := pos + 1, pushed := s.pushed + [x])
        else At(s, t, PushSeq(x, s.head))
      case PushWrite(x, pos) =>
        At(s, t, PushPublish(x, pos)).(slots := s.slots[Wrap(pos, cap) := s.slots[Wrap(pos, cap)].(data := x)], written := s.written + {pos})
      case PushPublish(x, pos) =>
        At(s, t, Idle).(slots := s.slots[Wrap(pos, cap) := s.slots[Wrap(pos, cap)].(seqNo := pos + 1)], published := s.published + {pos})
      case PopSeq(pos) =>
        var n := s.slots[Wrap(pos, cap)].seqNo;
        At(s, t, if n == pos + 1 then PopCas(pos) else if n < pos + 1 then Idle else PopReload)
      case PopReload => At(s, t, PopSeq(s.tail))
      case PopCas(pos) =>
        if s.tail == pos then At(s, t, PopRead(pos)).(tail := pos + 1) else At(s, t, PopSeq(s.tail))
      case PopRead(pos) =>
        var x := s.slots[Wrap(pos, cap)].data;
        At(s, t, PopRelease(pos, x)).(taken := s.taken[pos := x])
      case PopRelease(pos, _) =>
        At(s, t, Idle).(slots := s.slots[Wrap(pos, cap) := s.slots[Wrap(pos, cap)].(seqNo := pos + cap)], released := s.released + {pos})
  }

  datatype Move = Move(t: Tid, a: Action)

  ghost predicate IsRun(trace: seq<Queue>, moves: seq<Move>, cap: nat) {
    && |trace| == |moves| + 1
    && Init(trace[0], cap)
    && forall i :: 0 <= i < |moves| ==>
         Enabled(trace[i], moves[i].t, moves[i].a) && trace[i + 1] == Next(trace[i], moves[i].t, moves[i].a)
  }

  // ---- the invariant -----------------------------------------------------------

  predicate Writing(pc: Pc, q: int) {
    (pc.PushWrite? || pc.PushPublish?) && pc.pos == q
  }

  predicate Reading(pc: Pc, q: int) {
    (pc.PopRead? || pc.PopRelease?) && pc.pos == q
  }

  ghost predicate HasWriter(pcs: map<Tid, Pc>, q: int) {
    exists t :: t in pcs && Writing(pcs[t], q)
  }

  ghost predicate HasReader(pcs: map<Tid, Pc>, q: int) {
    exists t :: t in pcs && Reading(pcs[t], q)
  }

  /** The slot that position p will use next, told by what happened to its previous user p - cap. */
  ghost predicate SlotOk(s: Queue, p: nat)
    requires |s.slots| > 0 && |s.pushed| == s.head && s.head <= p < s.head + |s.slots|
  {
    var cap := |s.slots|;
    var slot := s.slots[Wrap(p, cap)];
    var q := p - cap;
    if q < 0 then slot.seqNo == p
    else if q in s.released then slot.seqNo == p && q < s.tail && q in s.taken
    else if q in s.published then slot.seqNo == q + 1 && slot.data == s.pushed[q] && (q < s.tail ==> HasReader(s.pcs, q))
    else slot.seqNo == q && q >= s.tail && HasWriter(s.pcs, q)
  }

  ghost predicate PcOk(s: Queue, pc: Pc)
    requires |s.slots| > 0 && |s.pushed| == s.head
  {
    var cap := |s.slots|;
    match pc
    case Idle => true
    case PushReload(_) => true
    case PopReload => true
    case PushSeq(_, pos) => pos <= s.head && (pos < s.head ==> s.slots[Wrap(pos, cap)].seqNo >= pos)
    case PushCas(_, pos) => pos <= s.head && s.slots[Wrap(pos, cap)].seqNo >= pos
    case PopSeq(pos) => pos <= s.tail && (pos < s.tail ==> s.slots[Wrap(pos, cap)].seqNo >= pos + 1)
    case PopCas(pos) => pos <= s.tail && s.slots[Wrap(pos, cap)].seqNo >= pos + 1
    case PushWrite(x, pos) => Claimed(s, pos) && x == s.pushed[pos] && pos !in s.written && pos !in s.published
    case PushPublish(x, pos) =>
      Claimed(s, pos) && x == s.pushed[pos] && pos in s.written && pos !in s.published && s.slots[Wrap(pos, cap)].data == x
    case PopRead(pos) => Claimed(s, pos) && pos < s.tail && pos in s.published && pos !in s.taken && pos !in s.released
    case PopRelease(pos, x) =>
      Claimed(s, pos) && pos < s.tail && pos in s.published && pos !in s.released && pos in s.taken && s.taken[pos] == x
  }

  /** A position handed to a pusher and recent enough that its slot has not moved on. */
  predicate Claimed(s: Queue, pos: nat) {
    pos < s.head <= pos + |s.slots|
  }

  predicate Clash(a: Pc, b: Pc) {
    || ((a.PushWrite? || a.PushPublish?) && Writing(b, a.pos))
    || ((a.PopRead? || a.PopRelease?) && Reading(b, a.pos))
  }

  /** No position has two writers or two readers. */
  ghost predicate Exclusive(pcs: map<Tid, Pc>) {
    forall t, u :: t in pcs && u in pcs && t != u ==> !Clash(pcs[t], pcs[u])
  }

  ghost predicate HistoryOk(s: Queue)
    requires |s.pushed| == s.head
  {
    && (forall q :: q in s.written ==> q < s.head)
    && (forall q :: q in s.published ==> q in s.written)
    && (forall q :: q in s.released ==> q in s.taken)
    && (forall q :: q in s.taken ==> q < s.tail <= s.head && q in s.published && s.taken[q] == s.pushed[q])
    && (forall q: nat :: q + |s.slots| < s.head ==> q in s.released)
  }

  ghost predicate Inv(s: Queue) {
    && |s.slots| >= 2
    && |s.pushed| == s.head
    && s.tail <= s.head <= s.tail + |s.slots|
    && (forall p :: s.head <= p < s.head + |s.slots| ==> SlotOk(s, p))
    && (forall t :: t in s.pcs ==> PcOk(s, s.pcs[t]))
    && Exclusive(s.pcs)
    && HistoryOk(s)
  }

  /** The next user of the slot of a claimed position is one lap later, and no other position in the window shares it. */
  lemma SlotOf(s: Queue, q: nat)
    requires |s.slots| > 0 && Claimed(s, q)
    ensures Wrap(q + |s.slots|, |s.slots|) == Wrap(q, |s.slots|)
    ensures forall p :: s.head <= p < s.head + |s.slots| && p != q + |s.slots| ==> Wrap(p, |s.slots|) != Wrap(q, |s.slots|)
  {
    var cap := |s.slots|;
    forall p | s.head <= p < s.head + cap && p != q + cap ensures Wrap(p, cap) != Wrap(q, cap) {
      if p < q + cap { WindowDistinct(p, q + cap, cap); } else { WindowDistinct(q + cap, p, cap); }
    }
  }

  // ---- who owns what, across a step ---------------------------------------------------

  predicate Owning(pc: Pc) {
    pc.PushWrite? || pc.PushPublish? || pc.PopRead? || pc.PopRelease?
  }

  /** A thread that changes its pc without giving up what it owns leaves all ownership in place. */
  lemma KeepOwners(pcs: map<Tid, Pc>, t: Tid, pc: Pc)
    requires t in pcs
    requires forall q :: Writing(pcs[t], q) ==> Writing(pc, q)
    requires forall q :: Reading(pcs[t], q) ==> Reading(pc, q)
    ensures forall q :: HasWriter(pcs, q) ==> HasWriter(pcs[t := pc], q)
    ensures forall q :: HasReader(pcs, q) ==> HasReader(pcs[t := pc], q)
  {
    forall q | HasWriter(pcs, q) ensures HasWriter(pcs[t := pc], q) {
      var u :| u in pcs && Writing(pcs[u], q);
      assert u in pcs[t := pc] && Writing(pcs[t := pc][u], q);
    }
    forall q | HasReader(pcs, q) ensures HasReader(pcs[t := pc], q) {
      var u :| u in pcs && Reading(pcs[u], q);
      assert u in pcs[t := pc] && Reading(pcs[t := pc][u], q);
    }
  }

  lemma KeepExclusive(pcs: map<Tid, Pc>, t: Tid, pc: Pc)
    requires Exclusive(pcs) && t in pcs
    requires forall u :: u in pcs && u != t ==> !Clash(pcs[u], pc)
    ensures Exclusive(pcs[t := pc])
  {
  }

  /** Giving up position pos leaves the ownership of every other position in place. */
  lemma DropOwner(pcs: map<Tid, Pc>, t: Tid, pos: nat)
    requires t in pcs && Owning(pcs[t]) && pcs[t].pos == pos
    ensures forall q :: q != pos && HasWriter(pcs, q) ==> HasWriter(pcs[t := Idle], q)
    ensures forall q :: q != pos && HasReader(pcs, q) ==> HasReader(pcs[t := Idle], q)
  {
    forall q | q != pos && HasWriter(pcs, q) ensures HasWriter(pcs[t := Idle], q) {
      var u :| u in pcs && Writing(pcs[u], q);
      assert u in pcs[t := Idle] && Writing(pcs[t := Idle][u], q);
    }
    forall q | q != pos && HasReader(pcs, q) ensures HasReader(pcs[t := Idle], q) {
      var u :| u in pcs && Reading(pcs[u], q);
      assert u in pcs[t := Idle] && Reading(pcs[t := Idle][u], q);
    }
  }

  // ---- every step keeps the invariant ----------------------------------------------

  /** A step that only moves a thread between states in which it owns nothing. */
  lemma LightStep(s: Queue, t: Tid, pc: Pc)
    requires Inv(s) && t in s.pcs && !Owning(s.pcs[t]) && !Owning(pc) && PcOk(s, pc)
    ensures Inv(At(s, t, pc))
  {
    var s' := At(s, t, pc);
    KeepOwners(s.pcs, t, pc);
    KeepExclusive(s.pcs, t, pc);
    forall p | s'.head <= p < s'.head + |s'.slots| ensures SlotOk(s', p) {
      assert SlotOk(s, p);
    }
    forall u | u in s'.pcs ensures PcOk(s', s'.pcs[u]) {
      assert u != t ==> PcOk(s, s.pcs[u]);
    }
  }

  /** Winning the CAS on head: the previous user of the slot has been released, so the slot is free. */
  lemma {:induction false} SlotFreeForPush(s: Queue, x: Item, pos: nat)
    requires Inv(s) && PcOk(s, PushCas(x, pos)) && s.head == pos
    ensures pos >= |s.slots| ==> pos - |s.slots| in s.released
    ensures s.slots[Wrap(pos, |s.slots|)].seqNo == pos
  {
    assert SlotOk(s, pos);
  }

  lemma PushCasPcs(s: Queue, t: Tid, x: Item, pos: nat, pc: Pc)
    requires Inv(s) && t in s.pcs && s.pcs[t] == PushCas(x, pos) && s.head == pos && PcOk(s, pc)
    ensures PcOk(Next(s, t, Go), pc)
    ensures !Writing(pc, pos)
  {
    assert PcOk(s, s.pcs[t]);
    SlotFreeForPush(s, x, pos);
  }

  lemma PushCasStep(s: Queue, t: Tid, x: Item, pos: nat)
    requires Inv(s) && t in s.pcs && s.pcs[t] == PushCas(x, pos) && s.head == pos
    ensures Inv(Next(s, t, Go))
  {
    var s' := Next(s, t, Go);
    var cap := |s.slots|;
    assert PcOk(s, s.pcs[t]);
    SlotFreeForPush(s, x, pos);
    KeepOwners(s.pcs, t, PushWrite(x, pos));
    forall p | s'.head <= p < s'.head + cap ensures SlotOk(s', p) {
      if p == pos + cap {
        assert t in s'.pcs && Writing(s'.pcs[t], pos);
      } else {
        assert SlotOk(s, p);
      }
    }
    forall u | u in s.pcs ensures PcOk(s', s.pcs[u]) && !Writing(s.pcs[u], pos) {
      PushCasPcs(s, t, x, pos, s.pcs[u]);
    }
    assert PcOk(s', PushWrite(x, pos));
    KeepExclusive(s.pcs, t, PushWrite(x, pos));
  }

  lemma PushWritePcs(s: Queue, t: Tid, x: Item, pos: nat, pc: Pc)
    requires Inv(s) && t in s.pcs && s.pcs[t] == PushWrite(x, pos) && Claimed(s, pos)
    requires PcOk(s, pc) && !Clash(pc, PushWrite(x, pos))
    ensures PcOk(Next(s, t, Go), pc)
  {
    if pc.PushPublish? { SlotOf(s, pos); SlotOf(s, pc.pos); }
  }

  lemma PushWriteSlots(s: Queue, t: Tid, x: Item, pos: nat, p: nat)
    requires Inv(s) && t in s.pcs && s.pcs[t] == PushWrite(x, pos) && s.head <= p < s.head + |s.slots|
    ensures var s' := Next(s, t, Go); |s'.slots| == |s.slots| && |s'.pushed| == s'.head == s.head && SlotOk(s', p)
  {
    assert PcOk(s, s.pcs[t]);
    SlotOf(s, pos);
    KeepOwners(s.pcs, t, PushPublish(x, pos));
    hide PcOk, Exclusive, HistoryOk;
    assert SlotOk(s, p);
  }

  lemma PushWriteStep(s: Queue, t: Tid, x: Item, pos: nat)
    requires Inv(s) && t in s.pcs && s.pcs[t] == PushWrite(x, pos)
    ensures Inv(Next(s, t, Go))
  {
    var s' := Next(s, t, Go);
    assert PcOk(s, s.pcs[t]);
    forall p | s'.head <= p < s'.head + |s.slots| ensures SlotOk(s', p) {
      PushWriteSlots(s, t, x, pos, p);
    }
    hide SlotOk;
    forall u | u in s.pcs && u != t ensures PcOk(s', s.pcs[u]) && !Clash(s.pcs[u], PushPublish(x, pos)) {
      assert !Clash(s.pcs[u], s.pcs[t]);
      PushWritePcs(s, t, x, pos, s.pcs[u]);
    }
    KeepExclusive(s.pcs, t, PushPublish(x, pos));
  }

  lemma PushPublishPcs(s: Queue, t: Tid, x: Item, pos: nat, pc: Pc)
    requires Inv(s) && t in s.pcs && s.pcs[t] == PushPublish(x, pos) && PcOk(s, PushPublish(x, pos))
    requires PcOk(s, pc) && !Clash(pc, PushPublish(x, pos))
    ensures PcOk(Next(s, t, Go), pc)
  {
    assert SlotOk(s, pos + |s.slots|);
  }

  lemma PushPublishSlots(s: Queue, t: Tid, x: Item, pos: nat, p: nat)
    requires Inv(s) && t in s.pcs && s.pcs[t] == PushPublish(x, pos) && s.head <= p < s.head + |s.slots|
    ensures var s' := Next(s, t, Go); |s'.slots| == |s.slots| && |s'.pushed| == s'.head == s.head && SlotOk(s', p)
  {
    assert PcOk(s, s.pcs[t]);
    SlotOf(s, pos);
    DropOwner(s.pcs, t, pos);
    hide PcOk, Exclusive, HistoryOk;
    assert SlotOk(s, p);
  }

  lemma PushPublishStep(s: Queue, t: Tid, x: Item, pos: nat)
    requires Inv(s) && t in s.pcs && s.pcs[t] == PushPublish(x, pos)
    ensures Inv(Next(s, t, Go))
  {
    var s' := Next(s, t, Go);
    assert PcOk(s, s.pcs[t]);
    forall p | s'.head <= p < s'.head + |s.slots| ensures SlotOk(s', p) {
      PushPublishSlots(s, t, x, pos, p);
    }
    hide SlotOk;
    forall u | u in s.pcs && u != t ensures PcOk(s', s.pcs[u]) {
      assert !Clash(s.pcs[u], s.pcs[t]);
      PushPublishPcs(s, t, x, pos, s.pcs[u]);
    }
    KeepExclusive(s.pcs, t, Idle);
  }

  /** Winning the CAS on tail: that position has been published. */
  lemma PublishedForPop(s: Queue, pos: nat)
    requires Inv(s) && PcOk(s, PopCas(pos)) && s.tail == pos
    ensures pos < s.head && pos in s.published && pos !in s.released && pos !in s.taken
  {
    assert pos == s.head ==> SlotOk(s, pos);
    assert SlotOk(s, pos + |s.slots|);
  }

  lemma PopCasPcs(s: Queue, t: Tid, pos: nat, pc: Pc)
    requires Inv(s) && t in s.pcs && s.pcs[t] == PopCas(pos) && s.tail == pos && PcOk(s, pc)
    ensures PcOk(Next(s, t, Go), pc)
    ensures !Reading(pc, pos)
  {
    assert PcOk(s, s.pcs[t]);
  }

  lemma PopCasSlots(s: Queue, t: Tid, pos: nat, p: nat)
    requires Inv(s) && t in s.pcs && s.pcs[t] == PopCas(pos) && s.tail == pos
    requires pos in s.published && pos < s.head <= p < s.head + |s.slots|
    ensures SlotOk(Next(s, t, Go), p)
  {
    var s' := Next(s, t, Go);
    KeepOwners(s.pcs, t, PopRead(pos));
    assert t in s'.pcs && Reading(s'.pcs[t], pos);
    assert HasReader(s'.pcs, pos);
    assert SlotOk(s, p);
  }

  lemma PopCasStep(s: Queue, t: Tid, pos: nat)
    requires Inv(s) && t in s.pcs && s.pcs[t] == PopCas(pos) && s.tail == pos
    ensures Inv(Next(s, t, Go))
  {
    var s' := Next(s, t, Go);
    assert PcOk(s, s.pcs[t]);
    PublishedForPop(s, pos);
    forall p | s'.head <= p < s'.head + |s.slots| ensures SlotOk(s', p) {
      PopCasSlots(s, t, pos, p);
    }
    forall u | u in s.pcs ensures PcOk(s', s.pcs[u]) && !Reading(s.pcs[u], pos) {
      PopCasPcs(s, t, pos, s.pcs[u]);
    }
    KeepExclusive(s.pcs, t, PopRead(pos));
  }

  lemma PopReadPcs(s: Queue, t: Tid, pos: nat, pc: Pc)
    requires Inv(s) && t in s.pcs && s.pcs[t] == PopRead(pos)
    requires PcOk(s, pc) && !Clash(pc, PopRead(pos))
    ensures PcOk(Next(s, t, Go), pc)
  {
  }

  lemma PopReadSlots(s: Queue, t: Tid, pos: nat, p: nat)
    requires Inv(s) && t in s.pcs && s.pcs[t] == PopRead(pos) && s.head <= p < s.head + |s.slots|
    ensures var s' := Next(s, t, Go); |s'.slots| == |s.slots| && |s'.pushed| == s'.head == s.head && SlotOk(s', p)
  {
    assert PcOk(s, s.pcs[t]);
    SlotOf(s, pos);
    KeepOwners(s.pcs, t, PopRelease(pos, s.slots[Wrap(pos, |s.slots|)].data));
    hide PcOk, Exclusive, HistoryOk;
    assert SlotOk(s, p);
  }

  /** The published slot still holds what was pushed at that position. */
  lemma {:induction false} PopReadsItem(s: Queue, t: Tid, pos: nat)
    requires Inv(s) && t in s.pcs && s.pcs[t] == PopRead(pos)
    ensures pos < s.head && s.slots[Wrap(pos, |s.slots|)].data == s.pushed[pos]
  {
    assert PcOk(s, s.pcs[t]);
    SlotOf(s, pos);
    assert SlotOk(s, pos + |s.slots|);
  }

  lemma {:induction false} PopReadStep(s: Queue, t: Tid, pos: nat)
    requires Inv(s) && t in s.pcs && s.pcs[t] == PopRead(pos)
    ensures Inv(Next(s, t, Go))
    ensures pos < s.head && s.slots[Wrap(pos, |s.slots|)].data == s.pushed[pos]
  {
    var s' := Next(s, t, Go);
    var x := s.slots[Wrap(pos, |s.slots|)].data;
    assert PcOk(s, s.pcs[t]);
    PopReadsItem(s, t, pos);
    forall p | s'.head <= p < s'.head + |s.slots| ensures SlotOk(s', p) {
      PopReadSlots(s, t, pos, p);
    }
    hide SlotOk;
    forall u | u in s.pcs && u != t ensures PcOk(s', s.pcs[u]) && !Clash(s.pcs[u], PopRelease(pos, x)) {
      assert !Clash(s.pcs[u], s.pcs[t]);
      PopReadPcs(s, t, pos, s.pcs[u]);
    }
    KeepExclusive(s.pcs, t, PopRelease(pos, x));
  }

  lemma PopReleasePcs(s: Queue, t: Tid, x: Item, pos: nat, pc: Pc)
    requires Inv(s) && t in s.pcs && s.pcs[t] == PopRelease(pos, x) && PcOk(s, PopRelease(pos, x))
    requires PcOk(s, pc) && !Clash(pc, PopRelease(pos, x))
    ensures PcOk(Next(s, t, Go), pc)
  {
    assert SlotOk(s, pos + |s.slots|);
  }

  lemma PopReleaseSlots(s: Queue, t: Tid, x: Item, pos: nat, p: nat)
    requires Inv(s) && t in s.pcs && s.pcs[t] == PopRelease(pos, x) && s.head <= p < s.head + |s.slots|
    ensures var s' := Next(s, t, Go); |s'.slots| == |s.slots| && |s'.pushed| == s'.head == s.head && SlotOk(s', p)
  {
    assert PcOk(s, s.pcs[t]);
    SlotOf(s, pos);
    DropOwner(s.pcs, t, pos);
    hide PcOk, Exclusive, HistoryOk;
    assert SlotOk(s, p);
  }

  lemma PopReleaseStep(s: Queue, t: Tid, x: Item, pos: nat)
    requires Inv(s) && t in s.pcs && s.pcs[t] == PopRelease(pos, x)
    ensures Inv(Next(s, t, Go))
  {
    var s' := Next(s, t, Go);
    assert PcOk(s, s.pcs[t]);
    forall p | s'.head <= p < s'.head + |s.slots| ensures SlotOk(s', p) {
      PopReleaseSlots(s, t, x, pos, p);
    }
    hide SlotOk;
    forall u | u in s.pcs && u != t ensures PcOk(s', s.pcs[u]) {
      assert !Clash(s.pcs[u], s.pcs[t]);
      PopReleasePcs(s, t, x, pos, s.pcs[u]);
    }
    KeepExclusive(s.pcs, t, Idle);
  }

  /** Loading a sequence number: what the thread may conclude from it. */
  lemma LoadSeqStep(s: Queue, t: Tid)
    requires Inv(s) && t in s.pcs && (s.pcs[t].PushSeq? || s.pcs[t].PopSeq?)
    ensures Inv(Next(s, t, Go))
  {
    assert PcOk(s, s.pcs[t]);
    LightStep(s, t, Next(s, t, Go).pcs[t]);
  }

  lemma StepKeepsInv(s: Queue, t: Tid, a: Action)
    requires Inv(s) && Enabled(s, t, a)
    ensures Inv(Next(s, t, a))
  {
    var pc := s.pcs[t];
    if a != Go {
      LightStep(s, t, Next(s, t, a).pcs[t]);
    } else {
      match pc
      case PushSeq(_, _) => LoadSeqStep(s, t);
      case PopSeq(_) => LoadSeqStep(s, t);
      case PushReload(x) => LightStep(s, t, PushSeq(x, s.head));
      case PopReload => LightStep(s, t, PopSeq(s.tail));
      case PushCas(x, pos) =>
        if s.head == pos { PushCasStep(s, t, x, pos); } else { LightStep(s, t, PushSeq(x, s.head)); }
      case PopCas(pos) =>
        if s.tail == pos { PopCasStep(s, t, pos); } else { LightStep(s, t, PopSeq(s.tail)); }
      case PushWrite(x, pos) => PushWriteStep(s, t, x, pos);
      case PushPublish(x, pos) => PushPublishStep(s, t, x, pos);
      case PopRead(pos) => PopReadStep(s, t, pos);
      case PopRelease(pos, x) => PopReleaseStep(s, t, x, pos);
    }
  }

  lemma {:induction false} RunKeepsInv(trace: seq<Queue>, moves: seq<Move>, cap: nat, i: nat)
    requires IsRun(trace, moves, cap) && cap >= 2 && i < |trace|
    ensures Inv(trace[i]) && |trace[i].slots| == cap
  {
    if i > 0 {
      RunKeepsInv(trace, moves, cap, i - 1);
      StepKeepsInv(trace[i - 1], moves[i - 1].t, moves[i - 1].a);
    }
  }

  // ---- what the queue promises -----------------------------------------------------------

  /** In every interleaving: an item read at a position is the one pushed there, and the counters stay within one lap. */
  lemma Delivery(trace: seq<Queue>, moves: seq<Move>, cap: nat, i: nat)
    requires IsRun(trace, moves, cap) && cap >= 2 && i < |trace|
    ensures trace[i].tail <= trace[i].head <= trace[i].tail + cap
    ensures forall p :: p in trace[i].taken ==> p < |trace[i].pushed| && trace[i].taken[p] == trace[i].pushed[p]
  {
    RunKeepsInv(trace, moves, cap, i);
  }

  /** In every interleaving: a data store happens once per position and only after the previous user of the slot was
      released; a data load happens once per position and only between its publication and its release. */
  lemma OneWriterOneReader(trace: seq<Queue>, moves: seq<Move>, cap: nat, i: nat)
    requires IsRun(trace, moves, cap) && cap >= 2 && i < |moves| && moves[i].a == Go
    ensures var s, pc := trace[i], trace[i].pcs[moves[i].t];
      && (pc.PushWrite? ==> pc.pos !in s.written && (pc.pos >= cap ==> pc.pos - cap in s.released))
      && (pc.PopRead? ==> pc.pos !in s.taken && pc.pos in s.published && pc.pos !in s.released)
  {
    RunKeepsInv(trace, moves, cap, i);
    var s, pc := trace[i], trace[i].pcs[moves[i].t];
    assert PcOk(s, pc);
    if pc.PushWrite? && pc.pos >= cap {
      PreviousReleased(s, pc.pos);
    }
  }

  lemma PreviousReleased(s: Queue, pos: nat)
    requires Inv(s) && pos < s.head && pos >= |s.slots|
    ensures pos - |s.slots| in s.released
  {
  }

  /** "Full" is only reported while a whole lap of claimed positions is unreleased at its far end; "empty" is only
      reported while nothing is pushed at tail or its pusher has not published yet. */
  lemma FullAndEmptyAreReal(trace: seq<Queue>, moves: seq<Move>, cap: nat, i: nat)
    requires IsRun(trace, moves, cap) && cap >= 2 && i < |moves| && moves[i].a == Go
    requires trace[i + 1].pcs[moves[i].t].Idle?
    ensures var s, pc := trace[i], trace[i].pcs[moves[i].t];
      && (pc.PushSeq? ==> s.head == pc.pos >= cap && s.head - cap !in s.released)
      && (pc.PopSeq? ==> s.tail == pc.pos && s.tail !in s.published)
  {
    RunKeepsInv(trace, moves, cap, i);
    var s, pc := trace[i], trace[i].pcs[moves[i].t];
    assert PcOk(s, pc);
    if pc.PushSeq? {
      assert SlotOk(s, s.head);
    }
    if pc.PopSeq? {
      if s.tail < s.head { SlotOf(s, s.tail); assert SlotOk(s, s.tail + cap); }
    }
  }

  // ---- one slot is not enough ----------------------------------------------------------------

  /** A whole push by an idle thread, started when its slot is free. */
  function PushTrace(s: Queue, t: Tid, x: Item): (r: seq<Queue>)
    requires Enabled(s, t, StartPush(x)) && s.slots[Wrap(s.head, |s.slots|)].seqNo == s.head
    ensures |r| == 5 && r[0] == Next(s, t, StartPush(x))
    ensures forall i :: 0 <= i < 4 ==> Enabled(r[i], t, Go) && r[i + 1] == Next(r[i], t, Go)
    ensures r[4].pcs == s.pcs && r[4].head == s.head + 1 && r[4].tail == s.tail && r[4].taken == s.taken
    ensures r[4].slots == s.slots[Wrap(s.head, |s.slots|) := Slot(s.head + 1, x)]
  {
    var s1 := Next(s, t, StartPush(x));
    var s2 := Next(s1, t, Go);
    var s3 := Next(s2, t, Go);
    var s4 := Next(s3, t, Go);
    var s5 := Next(s4, t, Go);
    [s1, s2, s3, s4, s5]
  }

  lemma ExtendByPush(trace: seq<Queue>, moves: seq<Move>, cap: nat, t: Tid, x: Item)
    requires IsRun(trace, moves, cap)
    requires var s := trace[|trace| - 1];
             Enabled(s, t, StartPush(x)) && s.slots[Wrap(s.head, |s.slots|)].seqNo == s.head
    ensures var go := Move(t, Go);
            IsRun(trace + PushTrace(trace[|trace| - 1], t, x), moves + [Move(t, StartPush(x)), go, go, go, go], cap)
  {
    var n := |moves|;
    var r := PushTrace(trace[n], t, x);
    var go := Move(t, Go);
    var trace', moves' := trace + r, moves + [Move(t, StartPush(x)), go, go, go, go];
    forall i | 0 <= i < |moves'|
      ensures Enabled(trace'[i], moves'[i].t, moves'[i].a) && trace'[i + 1] == Next(trace'[i], moves'[i].t, moves'[i].a)
    {
      if i > n {
        assert trace'[i] == r[i - n - 1] && trace'[i + 1] == r[i - n] && moves'[i] == go;
      }
    }
  }

  /** With capacity 1, which init accepts, "published" and "free" are the same sequence number: the second of two
      pushes by one thread succeeds and overwrites the first item before anyone read it. */
  lemma CapacityOneOverwrites() returns (trace: seq<Queue>, moves: seq<Move>)
    ensures IsRun(trace, moves, 1)
    ensures var s := trace[|trace| - 1]; s.head == 2 && s.tail == 0 && s.taken == map[] && s.slots == [Slot(2, 8)]
  {
    trace := [Queue(0, 0, [Slot(0, 0)], map[0 := Idle], [], {}, {}, map[], {})];
    moves := [];
    var go := Move(0, Go);
    var r := PushTrace(trace[0], 0, 7);
    ExtendByPush(trace, moves, 1, 0, 7);
    trace, moves := trace + r, moves + [Move(0, StartPush(7)), go, go, go, go];
    var q := PushTrace(r[4], 0, 8);
    ExtendByPush(trace, moves, 1, 0, 8);
    trace, moves := trace + q, moves + [Move(0, StartPush(8)), go, go, go, go];
  }

  /** Among the capacities init accepts, the queue stays within its bound in every run exactly when there are at least two slots. */
  lemma {:induction false} BoundedIffTwoSlots(cap: nat)
    requires IsPowerOfTwo(cap)
    ensures (forall trace: seq<Queue>, moves: seq<Move>, i :: IsRun(trace, moves, cap) && 0 <= i < |trace| ==> trace[i].head <= trace[i].tail + cap) <==> cap >= 2
  {
    if cap >= 2 {
      forall trace: seq<Queue>, moves: seq<Move>, i | IsRun(trace, moves, cap) && 0 <= i < |trace| ensures trace[i].head <= trace[i].tail + cap {
        Delivery(trace, moves, cap, i);
      }
    } else {
      var trace, moves := CapacityOneOverwrites();
      assert trace[|trace| - 1].head > trace[|trace| - 1].tail + cap;
    }
  }
}
