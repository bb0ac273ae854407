/** Delta OR-Set of src/crdt.c: what one replica's operations mean, and what
    every run of a system of replicas guarantees. */
module OrSetSpec {
  import opened CausalContext

  type Key = seq<bv8>

  /** A replica: which (element, dot) pairs are live, and which dots were ever observed. */
  datatype Replica = Replica(live: iset<(Key, Dot)>, seen: iset<Dot>)

  /** What an operation sends: an element with its dots, or (for a remove) no element, plus a context. */
  datatype Delta = AddDelta(key: Key, dots: iset<Dot>, ctx: iset<Dot>) | RemoveDelta(ctx: iset<Dot>)

  ghost function DotsOf(s: Replica, k: Key): iset<Dot> {
    iset d: Dot | (k, d) in s.live
  }

  /** Merging a received delta, as the code does it (the local ∩ delta term is not kept). */
  ghost function Merged(s: Replica, delta: Delta): Replica {
    match delta
    case AddDelta(k, dots, ctx) =>
      Replica((iset p: (Key, Dot) | (p in s.live && (p.0 == k ==> p.1 !in ctx)) || (p.0 == k && p.1 in dots && p.1 !in s.seen)),
              s.seen + ctx)
    case RemoveDelta(ctx) =>
      Replica((iset p: (Key, Dot) | p in s.live && p.1 !in ctx), s.seen + ctx)
  }

  ghost function Added(s: Replica, k: Key, dot: Dot): Replica {
    Replica(s.live + iset{(k, dot)}, s.seen + iset{dot})
  }

  ghost function Removed(s: Replica, k: Key): Replica {
    Replica((iset p: (Key, Dot) | p in s.live && p.0 != k), s.seen)
  }

  // ---- a system of replicas -------------------------------------------------

  datatype Node = Node(state: Replica, applied: iset<nat>)

  /** All replicas, the last dot counter each has used, and every delta produced so far in production order. */
  datatype System = System(nodes: map<ReplicaId, Node>, counters: map<ReplicaId, nat>, log: seq<Delta>)

  /** The counter of an add is what the process-wide counter yields: larger than all before it, with gaps wherever other
      sets of the process drew from it. */
  datatype Step =
    | LocalAdd(at: ReplicaId, key: Key, counter: Counter)
    | LocalRemove(at: ReplicaId, key: Key)
    | Deliver(at: ReplicaId, id: nat)

  ghost predicate Init(s: System) {
    && s.log == []
    && s.counters.Keys == s.nodes.Keys
    && (forall r :: r in s.nodes ==> s.nodes[r] == Node(Replica(iset{}, iset{}), iset{}))
  }

  ghost predicate Enabled(s: System, step: Step) {
    && step.at in s.nodes
    && (step.LocalAdd? ==> step.at in s.counters && step.counter > s.counters[step.at])
    && (step.Deliver? ==> step.id < |s.log| && step.id !in s.nodes[step.at].applied)
  }

  ghost function Next(s: System, step: Step): System
    requires Enabled(s, step) && s.counters.Keys == s.nodes.Keys
  {
    var n := s.nodes[step.at];
    match step
    case LocalAdd(r, k, c) =>
      var dot := Dot(r, c);
      System(s.nodes[r := Node(Added(n.state, k, dot), n.applied + iset{|s.log|})],
             s.counters[r := c],
             s.log + [AddDelta(k, iset{dot}, iset{dot})])
    case LocalRemove(r, k) =>
      System(s.nodes[r := Node(Removed(n.state, k), n.applied + iset{|s.log|})],
             s.counters,
             s.log + [RemoveDelta(DotsOf(n.state, k))])
    case Deliver(r, id) =>
      s.(nodes := s.nodes[r := Node(Merged(n.state, s.log[id]), n.applied + iset{id})])
  }

  ghost predicate IsRun(trace: seq<System>, steps: seq<Step>) {
    && |trace| == |steps| + 1
    && Init(trace[0])
    && forall i :: 0 <= i < |steps| ==>
         && trace[i].counters.Keys == trace[i].nodes.Keys
         && Enabled(trace[i], steps[i])
         && trace[i + 1] == Next(trace[i], steps[i])
  }

  // ---- the closed form: a replica is a function of the set of deltas it applied ----

  ghost predicate AddedBy(log: seq<Delta>, applied: iset<nat>, k: Key, d: Dot) {
    exists i :: i in applied && i < |log| && log[i].AddDelta? && log[i].key == k && d in log[i].dots
  }

  ghost predicate RemovedBy(log: seq<Delta>, applied: iset<nat>, d: Dot) {
    exists i :: i in applied && i < |log| && log[i].RemoveDelta? && d in log[i].ctx
  }

  ghost predicate MentionedBy(log: seq<Delta>, applied: iset<nat>, d: Dot) {
    exists i :: i in applied && i < |log| && d in log[i].ctx
  }

  ghost function ClosedForm(log: seq<Delta>, applied: iset<nat>): Replica {
    Replica((iset p: (Key, Dot) | AddedBy(log, applied, p.0, p.1) && !RemovedBy(log, applied, p.1)),
            iset d: Dot | MentionedBy(log, applied, d))
  }

  ghost predicate Inv(s: System) {
    && s.counters.Keys == s.nodes.Keys
    // add deltas carry one dot, within the counter of the replica that made it, each dot in one delta only
    && (forall i :: 0 <= i < |s.log| && s.log[i].AddDelta? ==>
          exists d :: s.log[i].dots == s.log[i].ctx == iset{d} && Issued(s, d))
    && (forall i, j, d :: 0 <= i < j < |s.log| && s.log[i].AddDelta? && s.log[j].AddDelta? ==>
          !(d in s.log[i].dots && d in s.log[j].dots))
    && (forall i, d :: 0 <= i < |s.log| && d in s.log[i].ctx ==> Issued(s, d))
    && (forall r :: r in s.nodes ==> NodeInv(s.log, s.nodes[r]))
  }

  ghost predicate Issued(s: System, d: Dot) {
    d.replica in s.counters && d.counter <= s.counters[d.replica]
  }

  ghost predicate NodeInv(log: seq<Delta>, n: Node) {
    (forall i :: i in n.applied ==> i < |log|) && n.state == ClosedForm(log, n.applied)
  }

  /** Producing a delta leaves every replica that has not applied it alone. */
  lemma LogGrows(log: seq<Delta>, delta: Delta, n: Node)
    requires NodeInv(log, n)
    ensures NodeInv(log + [delta], n)
  {
    var log' := log + [delta];
    assert forall i :: i in n.applied ==> log'[i] == log[i];
    forall k, d ensures AddedBy(log', n.applied, k, d) <==> AddedBy(log, n.applied, k, d) {}
    forall d ensures RemovedBy(log', n.applied, d) <==> RemovedBy(log, n.applied, d) {}
    forall d ensures MentionedBy(log', n.applied, d) <==> MentionedBy(log, n.applied, d) {}
    assert ClosedForm(log', n.applied).live == ClosedForm(log, n.applied).live;
    assert ClosedForm(log', n.applied).seen == ClosedForm(log, n.applied).seen;
  }

  /** Applying one more delta changes the closed form's ingredients by exactly that delta. */
  lemma OneMore(log: seq<Delta>, applied: iset<nat>, id: nat)
    requires id < |log| && id !in applied
    ensures var applied' := applied + iset{id};
      && (forall k, d :: AddedBy(log, applied', k, d) <==>
            AddedBy(log, applied, k, d) || (log[id].AddDelta? && log[id].key == k && d in log[id].dots))
      && (forall d :: RemovedBy(log, applied', d) <==> RemovedBy(log, applied, d) || (log[id].RemoveDelta? && d in log[id].ctx))
      && (forall d :: MentionedBy(log, applied', d) <==> MentionedBy(log, applied, d) || d in log[id].ctx)
  {
    assert id in applied + iset{id};
  }

  /** A delta applied for the first time keeps the closed form, whatever was applied before it. */
  lemma FirstDelivery(log: seq<Delta>, n: Node, id: nat, dot: Dot)
    requires NodeInv(log, n) && id < |log| && id !in n.applied
    requires log[id].AddDelta? ==> log[id].dots == log[id].ctx == iset{dot}
    requires log[id].AddDelta? ==>
               forall i :: 0 <= i < |log| && i != id && log[i].AddDelta? ==> dot !in log[i].dots && log[i].dots == log[i].ctx
    ensures NodeInv(log, Node(Merged(n.state, log[id]), n.applied + iset{id}))
  {
    var applied' := n.applied + iset{id};
    var s' := Merged(n.state, log[id]);
    OneMore(log, n.applied, id);
    assert s'.seen == ClosedForm(log, applied').seen;
    if log[id].AddDelta? {
      assert MentionedBy(log, n.applied, dot) <==> RemovedBy(log, n.applied, dot);
      assert forall k :: !AddedBy(log, n.applied, k, dot);
    }
    assert s'.live == ClosedForm(log, applied').live;
  }

  lemma LocalAddStep(s: System, r: ReplicaId, k: Key, c: Counter)
    requires Inv(s) && Enabled(s, LocalAdd(r, k, c))
    ensures Inv(Next(s, LocalAdd(r, k, c)))
  {
    var s' := Next(s, LocalAdd(r, k, c));
    var n := s.nodes[r];
    var dot := Dot(r, c);
    assert !Issued(s, dot) && Issued(s', dot);
    assert forall d :: Issued(s, d) ==> Issued(s', d);
    forall i | 0 <= i < |s'.log| && s'.log[i].AddDelta?
      ensures exists d :: s'.log[i].dots == s'.log[i].ctx == iset{d} && Issued(s', d)
    {
      if i == |s.log| { assert s'.log[i].dots == iset{dot}; } else { assert s'.log[i] == s.log[i]; }
    }
    forall i, d | 0 <= i < |s'.log| && d in s'.log[i].ctx ensures Issued(s', d) {
      if i < |s.log| { assert s'.log[i] == s.log[i]; }
    }
    forall i | 0 <= i < |s.log| && s.log[i].AddDelta? ensures s'.log[i] == s.log[i] && dot !in s.log[i].dots {
      assert s.log[i].dots == s.log[i].ctx;
    }
    LogGrows(s.log, s'.log[|s.log|], n);
    FirstDelivery(s'.log, n, |s.log|, dot);
    assert !MentionedBy(s.log, n.applied, dot);
    assert forall q: Key :: (q, dot) !in n.state.live;
    assert Added(n.state, k, dot).live == Merged(n.state, s'.log[|s.log|]).live;
    forall q | q in s'.nodes ensures NodeInv(s'.log, s'.nodes[q]) {
      if q != r { LogGrows(s.log, s'.log[|s.log|], s.nodes[q]); }
    }
  }

  lemma LocalRemoveStep(s: System, r: ReplicaId, k: Key)
    requires Inv(s) && r in s.nodes
    ensures Inv(Next(s, LocalRemove(r, k)))
  {
    var s' := Next(s, LocalRemove(r, k));
    var n := s.nodes[r];
    var delta := s'.log[|s.log|];
    assert forall i :: 0 <= i < |s.log| ==> s'.log[i] == s.log[i];
    forall d | d in delta.ctx ensures d in n.state.seen && Issued(s, d) {
      var i :| i in n.applied && i < |s.log| && s.log[i].AddDelta? && s.log[i].key == k && d in s.log[i].dots;
    }
    forall i, d | 0 <= i < |s'.log| && d in s'.log[i].ctx ensures Issued(s', d) {
      if i < |s.log| { assert d in s.log[i].ctx; }
      assert Issued(s, d);
    }
    forall i | 0 <= i < |s'.log| && s'.log[i].AddDelta?
      ensures exists d :: s'.log[i].dots == s'.log[i].ctx == iset{d} && Issued(s', d)
    {
      var d :| s.log[i].dots == s.log[i].ctx == iset{d} && Issued(s, d);
      assert Issued(s', d);
    }
    LogGrows(s.log, delta, n);
    FirstDelivery(s'.log, n, |s.log|, Dot(r, 1));
    RemoveIsMerge(s, n, k);
    forall q | q in s'.nodes ensures NodeInv(s'.log, s'.nodes[q]) {
      if q != r { LogGrows(s.log, delta, s.nodes[q]); }
    }
  }

  /** Removing an element locally has the effect of merging the remove delta it produces: no dot serves two elements. */
  lemma RemoveIsMerge(s: System, n: Node, k: Key)
    requires Inv(s) && NodeInv(s.log, n)
    ensures Removed(n.state, k) == Merged(n.state, RemoveDelta(DotsOf(n.state, k)))
  {
    var m := Merged(n.state, RemoveDelta(DotsOf(n.state, k)));
    forall p: (Key, Dot) | p in n.state.live && p.0 != k ensures (k, p.1) !in n.state.live {
      assert AddedBy(s.log, n.applied, p.0, p.1);
    }
    assert Removed(n.state, k).live == m.live;
    forall d | d in DotsOf(n.state, k) ensures d in n.state.seen {
      var i :| i in n.applied && i < |s.log| && s.log[i].AddDelta? && s.log[i].key == k && d in s.log[i].dots;
    }
    assert m.seen == n.state.seen;
  }

  lemma DeliverStep(s: System, r: ReplicaId, id: nat)
    requires Inv(s) && Enabled(s, Deliver(r, id))
    ensures Inv(Next(s, Deliver(r, id)))
  {
    var s' := Next(s, Deliver(r, id));
    assert forall d :: Issued(s, d) <==> Issued(s', d);
    var dot := Dot(r, 1);
    if s.log[id].AddDelta? {
      dot :| s.log[id].dots == s.log[id].ctx == iset{dot};
      forall i | 0 <= i < |s.log| && i != id && s.log[i].AddDelta? ensures dot !in s.log[i].dots && s.log[i].dots == s.log[i].ctx {
        assert dot in s.log[id].dots;
      }
    }
    FirstDelivery(s.log, s.nodes[r], id, dot);
  }

  lemma StepKeepsInv(s: System, step: Step)
    requires Inv(s) && Enabled(s, step)
    ensures Inv(Next(s, step))
  {
    match step
    case LocalAdd(r, k, c) => LocalAddStep(s, r, k, c);
    case LocalRemove(r, k) => LocalRemoveStep(s, r, k);
    case Deliver(r, id) => DeliverStep(s, r, id);
  }

  lemma {:induction false} RunKeepsInv(trace: seq<System>, steps: seq<Step>, i: nat)
    requires IsRun(trace, steps) && i < |trace|
    ensures Inv(trace[i])
  {
    if i == 0 {
      forall r | r in trace[0].nodes ensures NodeInv(trace[0].log, trace[0].nodes[r]) {
        var c := ClosedForm(trace[0].log, iset{});
        assert c.live == iset{} && c.seen == iset{};
      }
    } else {
      RunKeepsInv(trace, steps, i - 1);
      StepKeepsInv(trace[i - 1], steps[i - 1]);
    }
  }

  /** Convergence: in every run, replicas that applied the same deltas, each once and in whatever order, agree on
      the live dots of every element and on the causal context. */
  lemma Convergence(trace: seq<System>, steps: seq<Step>, i: nat, a: ReplicaId, b: ReplicaId)
    requires IsRun(trace, steps) && i < |trace|
    requires a in trace[i].nodes && b in trace[i].nodes
    requires trace[i].nodes[a].applied == trace[i].nodes[b].applied
    ensures trace[i].nodes[a].state == trace[i].nodes[b].state
  {
    RunKeepsInv(trace, steps, i);
  }

  /** An element is present exactly when some applied add of it was observed by no applied remove. */
  lemma AddWins(trace: seq<System>, steps: seq<Step>, i: nat, a: ReplicaId, k: Key)
    requires IsRun(trace, steps) && i < |trace| && a in trace[i].nodes
    ensures (exists d :: (k, d) in trace[i].nodes[a].state.live) <==>
            (exists d :: AddedBy(trace[i].log, trace[i].nodes[a].applied, k, d) && !RemovedBy(trace[i].log, trace[i].nodes[a].applied, d))
  {
    RunKeepsInv(trace, steps, i);
    var s, n := trace[i], trace[i].nodes[a];
    assert forall d :: (k, d) in n.state.live <==> AddedBy(s.log, n.applied, k, d) && !RemovedBy(s.log, n.applied, d);
  }

  /** Merge is not idempotent: delivering a delta a second time is harmless exactly when it is a remove or none of
      its dots is still live. */
  lemma Redelivery(trace: seq<System>, steps: seq<Step>, i: nat, a: ReplicaId, id: nat)
    requires IsRun(trace, steps) && i < |trace| && a in trace[i].nodes
    requires id < |trace[i].log| && id in trace[i].nodes[a].applied
    ensures var s, delta := trace[i].nodes[a].state, trace[i].log[id];
            Merged(s, delta) == s <==> (delta.RemoveDelta? || forall d :: d in delta.dots ==> (delta.key, d) !in s.live)
  {
    RunKeepsInv(trace, steps, i);
    var s, delta := trace[i].nodes[a].state, trace[i].log[id];
    var m := Merged(s, delta);
    assert m.seen == s.seen;
    if delta.RemoveDelta? {
      assert m.live == s.live;
    } else {
      var d :| delta.dots == delta.ctx == iset{d};
      assert (delta.key, d) !in m.live;
      if (delta.key, d) !in s.live {
        assert m.live == s.live;
      }
    }
  }

  /** The shortest failure of idempotence: one add, delivered back to the replica that made it. */
  lemma RedeliveryLosesElement(k: Key)
    ensures var d := Dot(0, 1);
            var s := Added(Replica(iset{}, iset{}), k, d);
            (k, d) in s.live && Merged(s, AddDelta(k, iset{d}, iset{d})).live == iset{}
  {
    var d := Dot(0, 1);
    var s := Added(Replica(iset{}, iset{}), k, d);
    assert forall p :: p in s.live ==> p == (k, d);
  }
}

/** The OR-Set object: an unordered entry array rewritten in place, and a causal context. */
module OrSet {
  import CC = CausalContext
  import opened OrSetSpec
  type Dot = CC.Dot

  const KEY_MAX := 256
  const MAX_DOTS := 4

  datatype Entry = Entry(key: Key, dots: seq<Dot>)

  /** A delta as it travels: `RemoveOnly` is the C struct with `has_entry` false. */
  datatype Wire = WithEntry(entry: Entry, cc: CC.Context) | RemoveOnly(cc: CC.Context)

  ghost function Members(dots: seq<Dot>): iset<Dot> {
    iset d: Dot | d in dots
  }

  /** What a delta on the wire satisfies. */
  ghost predicate Sendable(w: Wire) {
    CC.Valid(w.cc) && (w.WithEntry? ==> |w.entry.dots| <= MAX_DOTS)
  }

  ghost function KeysOf(live: iset<(Key, Dot)>): iset<Key> {
    iset p: (Key, Dot) | p in live :: p.0
  }

  ghost function Denote(w: Wire): Delta {
    match w
    case WithEntry(e, cc) => AddDelta(e.key, Members(e.dots), CC.Dots(cc))
    case RemoveOnly(cc) => RemoveDelta(CC.Dots(cc))
  }

  ghost predicate Holds(entries: seq<Entry>, k: Key, d: Dot) {
    exists i :: 0 <= i < |entries| && entries[i].key == k && d in entries[i].dots
  }

  ghost function Live(entries: seq<Entry>): iset<(Key, Dot)> {
    iset p: (Key, Dot) | Holds(entries, p.0, p.1)
  }

  ghost predicate HasKey(entries: seq<Entry>, k: Key) {
    exists i :: 0 <= i < |entries| && entries[i].key == k
  }

  /** Keys are distinct and every stored entry has between one dot and the fixed maximum. */
  ghost predicate WellFormed(entries: seq<Entry>) {
    && (forall i, j :: 0 <= i < j < |entries| ==> entries[i].key != entries[j].key)
    && (forall i :: 0 <= i < |entries| ==> 1 <= |entries[i].dots| <= MAX_DOTS)
  }

  // ---- what the array edits mean ---------------------------------------------

  lemma AppendEntry(entries: seq<Entry>, e: Entry)
    requires WellFormed(entries) && !HasKey(entries, e.key) && 1 <= |e.dots| <= MAX_DOTS
    ensures WellFormed(entries + [e])
    ensures Live(entries + [e]) == Live(entries) + iset p: (Key, Dot) | p.0 == e.key && p.1 in e.dots
  {
    var es := entries + [e];
    assert es[|entries|] == e;
    assert forall i :: 0 <= i < |entries| ==> es[i] == entries[i];
    forall k, d | Holds(entries, k, d) ensures Holds(es, k, d) {
      var i :| 0 <= i < |entries| && entries[i].key == k && d in entries[i].dots;
      assert es[i].key == k;
    }
  }

  lemma ReplaceDots(entries: seq<Entry>, i: nat, dots: seq<Dot>)
    requires WellFormed(entries) && i < |entries| && 1 <= |dots| <= MAX_DOTS
    ensures WellFormed(entries[i := Entry(entries[i].key, dots)])
    ensures Live(entries[i := Entry(entries[i].key, dots)]) ==
            iset p: (Key, Dot) | if p.0 == entries[i].key then p.1 in dots else p in Live(entries)
  {
    var k := entries[i].key;
    var es := entries[i := Entry(k, dots)];
    assert forall j :: 0 <= j < |es| ==> es[j].key == entries[j].key;
    assert forall j :: 0 <= j < |es| && j != i ==> es[j] == entries[j];
    forall q, d ensures Holds(es, q, d) <==> if q == k then d in dots else Holds(entries, q, d) {
      if q == k {
        if d in dots { assert es[i].key == k && d in es[i].dots; }
      } else if Holds(entries, q, d) {
        var j :| 0 <= j < |entries| && entries[j].key == q && d in entries[j].dots;
        assert es[j].key == q;
      }
    }
  }

  /** Dropping an entry by moving the last one into its place removes exactly its key. */
  lemma DropEntry(entries: seq<Entry>, i: nat)
    requires WellFormed(entries) && i < |entries|
    ensures WellFormed(CC.SwapRemove(entries, i))
    ensures !HasKey(CC.SwapRemove(entries, i), entries[i].key)
    ensures Live(CC.SwapRemove(entries, i)) == iset p: (Key, Dot) | p in Live(entries) && p.0 != entries[i].key
  {
    var es := CC.SwapRemove(entries, i);
    forall k, d ensures Holds(es, k, d) <==> Holds(entries, k, d) && k != entries[i].key {
      if Holds(entries, k, d) && k != entries[i].key {
        var j :| 0 <= j < |entries| && entries[j].key == k && d in entries[j].dots;
        assert entries[j] in es;
      }
      if Holds(es, k, d) {
        var j :| 0 <= j < |es| && es[j].key == k && d in es[j].dots;
        assert es[j] in entries;
        assert j == i ==> es[j] == entries[|entries| - 1];
      }
    }
  }

  /** The live pairs after an add: one more dot, in place of the oldest where the element has the maximum. */
  ghost function AddedTo(entries: seq<Entry>, k: Key, dot: Dot): iset<(Key, Dot)> {
    iset p: (Key, Dot) | if p.0 == k then p.1 == dot || KeptDot(entries, k, p.1) else p in Live(entries)
  }

  ghost predicate KeptDot(entries: seq<Entry>, k: Key, d: Dot) {
    exists i :: 0 <= i < |entries| && entries[i].key == k
                && d in if |entries[i].dots| < MAX_DOTS then entries[i].dots else entries[i].dots[1..]
  }

  lemma AddedIs(entries: seq<Entry>, k: Key, dot: Dot)
    ensures (forall i :: 0 <= i < |entries| && entries[i].key == k ==> |entries[i].dots| < MAX_DOTS) ==>
              AddedTo(entries, k, dot) == Live(entries) + iset{(k, dot)}
  {
    if i :| 0 <= i < |entries| && entries[i].key == k && |entries[i].dots| >= MAX_DOTS { return; }
    forall d ensures KeptDot(entries, k, d) <==> (k, d) in Live(entries) {
      if (k, d) in Live(entries) {
        var i :| 0 <= i < |entries| && entries[i].key == k && d in entries[i].dots;
      }
    }
  }

  lemma {:induction false} MissingAtMost(cc: CC.Context, dots: seq<Dot>)
    ensures CC.Missing(cc, dots) <= |dots|
  {
    if dots != [] { MissingAtMost(cc, dots[..|dots| - 1]); }
  }

  /** The abstract merge of an element that is already there. */
  lemma ExistingMeaning(entries: seq<Entry>, idx: nat, w: Wire, cc: CC.Context, target: iset<(Key, Dot)>)
    requires WellFormed(entries) && idx < |entries| && w.WithEntry? && entries[idx].key == w.entry.key
    requires target == Merged(Replica(Live(entries), CC.Dots(cc)), Denote(w)).live
    ensures forall p :: p in target <==>
              if p.0 == w.entry.key
              then p.1 in (Members(entries[idx].dots) - CC.Dots(w.cc)) + (Members(w.entry.dots) - CC.Dots(cc))
              else p in Live(entries)
  {
    assert forall d :: d in entries[idx].dots <==> Holds(entries, w.entry.key, d);
  }

  /** Two states that differ only in the dots of a key both have. */
  lemma SameKeys(a: iset<(Key, Dot)>, b: iset<(Key, Dot)>, k: Key, d: Dot)
    requires (k, d) in a && a <= b && forall p :: p in b && p.0 != k ==> p in a
    ensures KeysOf(a) == KeysOf(b)
  {
    forall q | q in KeysOf(b) ensures q in KeysOf(a) {
      if q != k {
        var p :| p in b && p.0 == q;
        assert p in a;
      } else {
        assert (k, d) in a;
      }
    }
  }

  // ---- the loops ---------------------------------------------------------------

  method Find(entries: seq<Entry>, key: Key) returns (idx: int)
    ensures idx >= 0 ==> idx < |entries| && entries[idx].key == key
    ensures idx < 0 <==> !HasKey(entries, key)
  {
    var i := 0;
    while i < |entries|
      invariant 0 <= i <= |entries|
      invariant forall j :: 0 <= j < i ==> entries[j].key != key
    {
      if entries[i].key == key {
        return i;
      }
      i := i + 1;
    }
    return -1;
  }

  /** Appends to `merged` the dots outside `cc`, stopping at the fixed maximum; `dedup` skips dots already there. */
  method KeepOutside(merged: seq<Dot>, dots: seq<Dot>, cc: CC.Context, dedup: bool) returns (r: seq<Dot>)
    requires CC.Valid(cc) && |merged| <= MAX_DOTS
    ensures |merged| <= |r| <= MAX_DOTS && |r| <= |merged| + CC.Missing(cc, dots)
    ensures |merged| + CC.Missing(cc, dots) <= MAX_DOTS ==> Members(r) == Members(merged) + (Members(dots) - CC.Dots(cc))
    ensures Members(r) <= Members(merged) + (Members(dots) - CC.Dots(cc))
    ensures r == [] ==> merged == [] && Members(dots) <= CC.Dots(cc)
  {
    hide CC.Missing, CC.Valid;
    r := merged;
    CC.NoneMissing(cc, dots);
    var i := 0;
    while i < |dots| && |r| < MAX_DOTS
      invariant 0 <= i <= |dots|
      invariant |merged| <= |r| <= MAX_DOTS && |r| <= |merged| + CC.Missing(cc, dots[..i])
      invariant Members(r) == Members(merged) + (Members(dots[..i]) - CC.Dots(cc))
    {
      var inside := CC.Contains(cc, dots[i]);
      ghost var before := r;
      CC.MissingPart(cc, dots, i);
      if !inside {
        if !(dedup && dots[i] in r) {
          r := r + [dots[i]];
        }
      }
      OneMember(dots, i);
      assert Members(r) == Members(before) + (iset{dots[i]} - CC.Dots(cc));
      i := i + 1;
    }
    RestInside(cc, dots, i);
    if r == [] {
      assert Members(r) == iset{} && i == |dots|;
      NothingOutside(Members(merged), Members(dots), CC.Dots(cc));
    }
  }

  lemma NothingOutside(m: iset<Dot>, dots: iset<Dot>, inside: iset<Dot>)
    requires iset{} == m + (dots - inside)
    ensures dots <= inside
  {
    forall d | d in dots ensures d in inside { assert d in m + (dots - inside) || d in inside; }
  }

  lemma OneMember(dots: seq<Dot>, i: nat)
    requires i < |dots|
    ensures Members(dots[..i + 1]) == Members(dots[..i]) + iset{dots[i]}
  {
    assert dots[..i + 1] == dots[..i] + [dots[i]];
  }

  /** When a full array stops the loop, the guard says that nothing is left outside the context. */
  lemma {:induction false} RestInside(cc: CC.Context, dots: seq<Dot>, i: nat)
    requires i <= |dots|
    ensures Members(dots[..i]) <= Members(dots) && (i == |dots| ==> dots[..i] == dots)
    ensures CC.Missing(cc, dots[..i]) <= CC.Missing(cc, dots)
    ensures CC.Missing(cc, dots[..i]) == CC.Missing(cc, dots) ==>
              Members(dots) - CC.Dots(cc) == Members(dots[..i]) - CC.Dots(cc)
    decreases |dots|
  {
    if i < |dots| {
      var n := |dots| - 1;
      RestInside(cc, dots[..n], i);
      assert dots[..n][..i] == dots[..i];
      OneMember(dots, n);
      assert dots[..n + 1] == dots;
    } else {
      assert dots[..i] == dots;
    }
  }

  class OrSet {
    var entries: seq<Entry>
    const cc: CC.Cc

    ghost predicate Valid()
      reads this, cc
    {
      WellFormed(entries) && CC.Valid(cc.Value())
    }

    ghost function State(): Replica
      reads this, cc
    {
      Replica(Live(entries), CC.Dots(cc.Value()))
    }

    constructor ()
      ensures Valid() && fresh(cc) && State() == Replica(iset{}, iset{})
    {
      entries := [];
      cc := new CC.Cc();
      new;
      assert Live(entries) == iset{} && CC.Dots(cc.Value()) == iset{};
    }

    /** The element has fewer than the maximum of live dots and the context has room: an add is then lossless. */
    ghost predicate CanAdd(key: Key, dot: Dot)
      reads this, cc
    {
      && (forall i :: 0 <= i < |entries| && entries[i].key == key ==> |entries[i].dots| < MAX_DOTS)
      && CC.Room(cc.Value(), dot)
    }

    /** `counter` is the value the process-wide atomic counter yields.  An element that has all its dots loses the oldest. */
    method Add(key: Key, replica: CC.ReplicaId, counter: CC.Counter) returns (delta: Wire)
      requires Valid()
      modifies this, cc
      ensures Valid() && Sendable(delta)
      ensures |key| > KEY_MAX ==> State() == old(State()) && Denote(delta) == RemoveDelta(iset{})
      ensures |key| <= KEY_MAX ==>
                var dot := CC.Dot(replica, counter);
                && Denote(delta) == AddDelta(key, iset{dot}, iset{dot})
                && Live(entries) == AddedTo(old(entries), key, dot)
                && State().seen == if old(CC.Room(cc.Value(), dot)) then old(State()).seen + iset{dot} else old(State()).seen
      ensures |key| <= KEY_MAX && old(CanAdd(key, CC.Dot(replica, counter))) ==>
                State() == Added(old(State()), key, CC.Dot(replica, counter))
    {
      assert CC.Dots(CC.EMPTY) == iset{};
      if |key| > KEY_MAX {
        return RemoveOnly(CC.EMPTY);
      }
      var dot := CC.Dot(replica, counter);
      var dcc := new CC.Cc();
      dcc.Add(dot);
      delta := WithEntry(Entry(key, [dot]), dcc.Value());
      assert Members([dot]) == iset{dot};
      Put(key, dot);
      cc.Add(dot);
      AddedIs(old(entries), key, dot);
    }

    /** The entry's part of an add. */
    method Put(key: Key, dot: Dot)
      requires Valid()
      modifies this`entries
      ensures Valid() && Live(entries) == AddedTo(old(entries), key, dot)
    {
      var idx := Find(entries, key);
      if idx >= 0 {
        var e := entries[idx];
        var dots := if |e.dots| < MAX_DOTS then e.dots + [dot] else e.dots[1..] + [dot];
        ReplaceDots(entries, idx, dots);
        entries := entries[idx := Entry(e.key, dots)];
      } else {
        AppendEntry(entries, Entry(key, [dot]));
        entries := entries + [Entry(key, [dot])];
        assert Live(entries) == AddedTo(old(entries), key, dot);
      }
    }

    /** Whether an add loses nothing. */
    method FitsAdd(key: Key, dot: Dot) returns (b: bool)
      requires Valid()
      ensures b <==> CanAdd(key, dot)
    {
      var idx := Find(entries, key);
      b := cc.HasRoom(dot);
      if idx >= 0 && |entries[idx].dots| >= MAX_DOTS {
        b := false;
      }
    }

    method Remove(key: Key) returns (delta: Wire)
      requires Valid()
      modifies this`entries
      ensures Valid() && delta.RemoveOnly? && Sendable(delta)
      ensures State() == Removed(old(State()), key)
      ensures Denote(delta) == RemoveDelta(DotsOf(old(State()), key))
    {
      var dcc := new CC.Cc();
      assert CC.Dots(dcc.Value()) == iset{};
      var idx := Find(entries, key);
      if idx < 0 {
        assert DotsOf(State(), key) == iset{};
        assert Live(entries) == iset p: (Key, Dot) | p in Live(entries) && p.0 != key;
        return RemoveOnly(dcc.Value());
      }
      var e := entries[idx];
      var i := 0;
      while i < |e.dots|
        invariant 0 <= i <= |e.dots|
        invariant entries == old(entries)
        invariant CC.Valid(dcc.Value()) && |dcc.entries| <= i && |dcc.overflow| <= i
        invariant CC.Dots(dcc.Value()) == Members(e.dots[..i])
        modifies dcc
      {
        RoomWhenSmall(dcc.Value(), e.dots[i]);
        dcc.Add(e.dots[i]);
        assert e.dots[..i + 1] == e.dots[..i] + [e.dots[i]];
        assert Members(e.dots[..i + 1]) == Members(e.dots[..i]) + iset{e.dots[i]};
        i := i + 1;
      }
      assert e.dots[..i] == e.dots;
      assert DotsOf(State(), key) == Members(e.dots);
      DropEntry(entries, idx);
      entries := CC.SwapRemove(entries, idx);
      return RemoveOnly(dcc.Value());
    }

    /** Merging a received delta is lossless when the element's surviving and new dots fit and the contexts fit. */
    ghost predicate CanMerge(w: Wire)
      reads this, cc
    {
      && CC.MergeRoom(cc.Value(), w.cc)
      && (w.WithEntry? ==> forall i :: 0 <= i < |entries| && entries[i].key == w.entry.key ==>
                                         CC.Missing(w.cc, entries[i].dots) + CC.Missing(cc.Value(), w.entry.dots) <= MAX_DOTS)
    }

    /** Merges a delta.  Even where dots do not fit, no key is gained, lost or kept wrongly. */
    method Apply(w: Wire)
      requires Valid() && Sendable(w)
      modifies this, cc
      ensures Valid()
      ensures old(CanMerge(w)) ==> State() == Merged(old(State()), Denote(w))
      ensures KeysOf(State().live) == KeysOf(Merged(old(State()), Denote(w)).live)
      ensures State().live <= Merged(old(State()), Denote(w)).live
      ensures old(State()).seen <= State().seen <= Merged(old(State()), Denote(w)).seen
    {
      hide CC.MergeRoom, CC.Missing, CC.Valid, WellFormed;
      if w.WithEntry? {
        var idx := Find(entries, w.entry.key);
        if idx >= 0 {
          MergeExisting(w, idx);
        } else {
          MergeNew(w);
        }
      } else {
        DropCovered(w.cc);
      }
      cc.Merge(w.cc);
    }

    /** Whether a merge is within `CanMerge`. */
    method FitsMerge(w: Wire) returns (b: bool)
      requires Valid() && Sendable(w)
      ensures b <==> CanMerge(w)
    {
      b := cc.CanTake(w.cc);
      if w.WithEntry? {
        var idx := Find(entries, w.entry.key);
        if idx >= 0 {
          var kept := CountOutside(entries[idx].dots, w.cc);
          var new' := CountOutside(w.entry.dots, cc.Value());
          b := b && kept + new' <= MAX_DOTS;
        }
      }
    }

    method MergeExisting(w: Wire, idx: nat)
      requires Valid() && Sendable(w) && w.WithEntry?
      requires idx < |entries| && entries[idx].key == w.entry.key
      modifies this`entries
      ensures Valid()
      ensures old(CanMerge(w)) ==> Live(entries) == Merged(old(State()), Denote(w)).live
      ensures Live(entries) <= Merged(old(State()), Denote(w)).live
      ensures KeysOf(Live(entries)) == KeysOf(Merged(old(State()), Denote(w)).live)
    {
      hide CC.Missing, CC.MergeRoom, CC.Valid;
      var e := entries[idx];
      assert Members([]) == iset{};
      MissingAtMost(w.cc, e.dots);
      var kept := KeepOutside([], e.dots, w.cc, false);
      var merged := KeepOutside(kept, w.entry.dots, cc.Value(), true);
      ghost var target := Merged(State(), Denote(w)).live;
      ExistingMeaning(entries, idx, w, cc.Value(), target);
      if |merged| > 0 {
        ReplaceDots(entries, idx, merged);
        entries := entries[idx := Entry(e.key, merged)];
        assert forall p :: p in Live(entries) <==> if p.0 == e.key then p.1 in Members(merged) else p in old(Live(entries));
        SameKeys(Live(entries), target, e.key, merged[0]);
      } else {
        DropEntry(entries, idx);
        entries := CC.SwapRemove(entries, idx);
        assert Members(merged) == iset{};
        assert Live(entries) == target;
      }
    }

    method MergeNew(w: Wire)
      requires Valid() && Sendable(w) && w.WithEntry?
      requires !HasKey(entries, w.entry.key)
      modifies this`entries
      ensures Valid()
      ensures Live(entries) == Merged(old(State()), Denote(w)).live
    {
      hide CC.Missing, CC.Valid;
      assert Members([]) == iset{};
      MissingAtMost(cc.Value(), w.entry.dots);
      var live := KeepOutside([], w.entry.dots, cc.Value(), false);
      if |live| > 0 {
        AppendEntry(entries, Entry(w.entry.key, live));
        entries := entries + [Entry(w.entry.key, live)];
      } else {
        assert Members(live) == iset{};
      }
      assert forall p :: p in Live(entries) <==> p in old(Live(entries)) || (p.0 == w.entry.key && p.1 in Members(live));
    }

    /** Remove-only delta: every entry loses its covered dots, in place, and goes when none is left. */
    method DropCovered(ctx: CC.Context)
      requires Valid() && CC.Valid(ctx)
      modifies this`entries
      ensures Valid()
      ensures Live(entries) == iset p: (Key, Dot) | p in old(Live(entries)) && p.1 !in CC.Dots(ctx)
    {
      var i := 0;
      while i < |entries|
        invariant 0 <= i <= |entries|
        invariant WellFormed(entries)
        invariant forall j, d :: 0 <= j < i && d in entries[j].dots ==> !CC.Has(ctx, d)
        invariant Live(entries) <= old(Live(entries))
        invariant forall p :: p in old(Live(entries)) && p !in Live(entries) ==> CC.Has(ctx, p.1)
        decreases |entries| - i
      {
        var e := entries[i];
        ghost var before := entries;
        var dots := Surviving(e.dots, ctx);
        assert forall d :: d in e.dots <==> (e.key, d) in Live(before);
        assert forall d :: d in dots ==> d in Members(dots);
        assert forall d :: d in dots ==> d in e.dots && !CC.Has(ctx, d);
        if |dots| == 0 {
          DropEntry(entries, i);
          entries := CC.SwapRemove(entries, i);
          assert Members(dots) == iset{};
        } else {
          ReplaceDots(entries, i, dots);
          entries := entries[i := Entry(e.key, dots)];
          i := i + 1;
        }
        assert forall d :: d in e.dots && !CC.Has(ctx, d) ==> d in Members(dots);
      }
    }
  }

  /** How many dots lie outside a context. */
  method CountOutside(dots: seq<Dot>, cc: CC.Context) returns (n: nat)
    requires CC.Valid(cc)
    ensures n == CC.Missing(cc, dots)
  {
    hide CC.Missing;
    n := 0;
    CC.NoneMissing(cc, dots);
    for i := 0 to |dots|
      invariant n == CC.Missing(cc, dots[..i])
    {
      CC.MissingPart(cc, dots, i);
      var inside := CC.Contains(cc, dots[i]);
      if !inside { n := n + 1; }
    }
    assert dots[..|dots|] == dots;
  }

  /** In-place compaction of a dot array: survivors move to the front, the rest is cut off. */
  method Surviving(dots: seq<Dot>, ctx: CC.Context) returns (r: seq<Dot>)
    requires CC.Valid(ctx)
    ensures |r| <= |dots|
    ensures Members(r) == Members(dots) - CC.Dots(ctx)
  {
    r := dots;
    var surviving, j := 0, 0;
    while j < |dots|
      invariant 0 <= surviving <= j <= |dots| == |r|
      invariant r[j..] == dots[j..]
      invariant Members(r[..surviving]) == Members(dots[..j]) - CC.Dots(ctx)
    {
      assert r[j] == r[j..][0] == dots[j];
      var inside := CC.Contains(ctx, dots[j]);
      ghost var before := r[..surviving];
      if !inside {
        r := r[surviving := r[j]];
        surviving := surviving + 1;
        assert r[..surviving] == before + [dots[j]];
        assert Members(r[..surviving]) == Members(before) + iset{dots[j]};
      }
      assert dots[..j + 1] == dots[..j] + [dots[j]];
      assert Members(dots[..j + 1]) == Members(dots[..j]) + iset{dots[j]};
      j := j + 1;
    }
    assert dots[..j] == dots;
    r := r[..surviving];
  }

  lemma RoomWhenSmall(cc: CC.Context, d: Dot)
    requires CC.Valid(cc) && |cc.entries| < CC.MAX_REPLICAS && |cc.overflow| < CC.MAX_OVERFLOW
    ensures CC.Room(cc, d)
  {
    if CC.Knows(cc, d.replica) {
      var i :| 0 <= i < |cc.entries| && cc.entries[i].replica == d.replica;
      CC.RoomKnown(cc, d);
    }
  }
}
