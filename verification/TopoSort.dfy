/** Kahn's topological sort over the kept in-degrees (src/graph.c), with the circular queue of
    src/deque.c: it orders all live nodes exactly when the graph has no directed cycle. */
module TopoSort {
  import opened Common
  import opened Graph
  import Deque

  // ---- reference notions -----------------------------------------------------------

  /** Consecutive nodes of p are joined by arcs. */
  predicate IsWalk(ns: seq<GNode>, p: seq<nat>) {
    forall i :: 0 <= i < |p| - 1 ==> StepAt(ns, p, i)
  }

  predicate StepAt(ns: seq<GNode>, p: seq<nat>, i: nat)
    requires i + 1 < |p|
  {
    Arc(ns, p[i], p[i + 1])
  }

  ghost predicate HasPredIn(ns: seq<GNode>, S: set<nat>, w: nat) {
    exists u :: u in S && Arc(ns, u, w)
  }

  ghost predicate HasCycle(ns: seq<GNode>) {
    exists p :: |p| >= 2 && IsWalk(ns, p) && p[0] == p[|p| - 1]
  }

  ghost predicate PredClosed(ns: seq<GNode>, S: set<nat>) {
    forall w {:trigger HasPredIn(ns, S, w)} :: w in S ==> HasPredIn(ns, S, w)
  }

  /** All predecessors of an element come before it. */
  ghost predicate PredsFirst(ns: seq<GNode>, s: seq<nat>) {
    forall j, u :: 0 <= j < |s| && Arc(ns, u, s[j]) ==> u in s[..j]
  }

  /** A topological order of the live nodes: each once, predecessors first. */
  ghost predicate IsTopoOrder(ns: seq<GNode>, s: seq<nat>) {
    Distinct(s) && (forall u :: u in s <==> Live(ns, u)) && PredsFirst(ns, s)
  }

  // ---- a topological order excludes cycles ---------------------------------------------

  lemma {:induction false} WalkClimbs(ns: seq<GNode>, s: seq<nat>, p: seq<nat>, i: nat, j: nat)
    requires WellFormed(ns) && IsTopoOrder(ns, s) && IsWalk(ns, p) && |p| >= 2
    requires i < |p| && j < |s| && s[j] == p[i] && i > 0
    ensures exists k :: 0 <= k < j && s[k] == p[0]
    decreases i
  {
    assert StepAt(ns, p, i - 1);
    var k :| 0 <= k < |s[..j]| && s[..j][k] == p[i - 1];
    if i > 1 {
      WalkClimbs(ns, s, p, i - 1, k);
    }
  }

  lemma OrderedIsAcyclic(ns: seq<GNode>, s: seq<nat>)
    requires WellFormed(ns) && IsTopoOrder(ns, s)
    ensures !HasCycle(ns)
  {
    forall p | |p| >= 2 && IsWalk(ns, p) ensures p[0] != p[|p| - 1] {
      if p[0] == p[|p| - 1] {
        assert StepAt(ns, p, 0);
        assert Live(ns, p[0]);
        var j :| 0 <= j < |s| && s[j] == p[0];
        WalkClimbs(ns, s, p, |p| - 1, j);
      }
    }
  }

  // ---- a predecessor-closed set contains a cycle ------------------------------------------

  /** Walking back inside S as often as we like. */
  lemma {:induction false} WalkBack(ns: seq<GNode>, S: set<nat>, v: nat, n: nat) returns (p: seq<nat>)
    requires v in S && PredClosed(ns, S)
    ensures |p| == n + 1 && IsWalk(ns, p) && p[n] == v && forall i :: 0 <= i < |p| ==> p[i] in S
    decreases n
  {
    if n == 0 {
      p := [v];
    } else {
      assert HasPredIn(ns, S, v);
      var u :| u in S && Arc(ns, u, v);
      var q := WalkBack(ns, S, u, n - 1);
      p := q + [v];
      forall i | 0 <= i < |p| - 1 ensures StepAt(ns, p, i) {
        if i < n - 1 { assert StepAt(ns, q, i); }
      }
    }
  }

  lemma {:induction false} Pigeonhole(S: set<nat>, p: seq<nat>) returns (i: nat, j: nat)
    requires |p| > |S| && forall k :: 0 <= k < |p| ==> p[k] in S
    ensures i < j < |p| && p[i] == p[j]
  {
    var n := |p| - 1;
    if k :| 0 <= k < n && p[k] == p[n] {
      i, j := k, n;
    } else {
      i, j := Pigeonhole(S - {p[n]}, p[..n]);
    }
  }

  lemma ClosedSetHasCycle(ns: seq<GNode>, S: set<nat>, v: nat)
    requires v in S && PredClosed(ns, S)
    ensures HasCycle(ns)
  {
    var p := WalkBack(ns, S, v, |S|);
    var i, j := Pigeonhole(S, p);
    var c := p[i..j + 1];
    forall k | 0 <= k < |c| - 1 ensures StepAt(ns, c, k) {
      assert StepAt(ns, p, i + k);
    }
    assert c[0] == c[|c| - 1];
  }

  // ---- Kahn's algorithm ---------------------------------------------------------------------

  ghost function SetOf(s: seq<nat>): set<nat> {
    set u | u in s
  }

  /** Each listed node is live and listed once, after all its predecessors. */
  ghost predicate Listed(ns: seq<GNode>, all: seq<nat>) {
    Distinct(all) && PredsFirst(ns, all) && forall u :: u in all ==> Live(ns, u)
  }

  /** `order` has been output, `queue` waits; indeg counts the predecessors not yet output, and is 0 exactly for the listed nodes. */
  ghost predicate KahnInv(ns: seq<GNode>, indeg: seq<nat>, order: seq<nat>, queue: seq<nat>) {
    && |indeg| == |ns| && Listed(ns, order + queue)
    && (forall v: nat :: Live(ns, v) ==> indeg[v] == |Preds(ns, v) - SetOf(order)|)
    && (forall v: nat :: Live(ns, v) ==> (indeg[v] == 0 <==> v in order + queue))
  }

  /** Between two outputs: cur was just output, and of its out-edges those in es have been taken off. */
  ghost predicate RelaxInv(ns: seq<GNode>, indeg: seq<nat>, order: seq<nat>, cur: nat, queue: seq<nat>, es: seq<Edge>) {
    && |indeg| == |ns| && Listed(ns, order + [cur] + queue)
    && (forall v: nat :: Live(ns, v) ==> indeg[v] == |Preds(ns, v) - SetOf(order)| - (if HasTo(es, v) then 1 else 0))
    && (forall v: nat :: Live(ns, v) ==> (indeg[v] == 0 <==> v in order + [cur] + queue))
  }

  lemma ArcIsPred(ns: seq<GNode>, u: nat, v: nat)
    ensures Arc(ns, u, v) <==> u in Preds(ns, v)
  {
  }

  lemma TakeFront(ns: seq<GNode>, indeg: seq<nat>, order: seq<nat>, cur: nat, rest: seq<nat>)
    requires KahnInv(ns, indeg, order, [cur] + rest)
    ensures RelaxInv(ns, indeg, order, cur, rest, []) && Live(ns, cur)
  {
    assert order + ([cur] + rest) == order + [cur] + rest;
    assert cur in order + [cur] + rest;
    assert forall v :: !HasTo([], v);
  }

  lemma NotYetOutput(order: seq<nat>, cur: nat, queue: seq<nat>)
    requires Distinct(order + [cur] + queue)
    ensures cur !in order
  {
    var all := order + [cur] + queue;
    assert all[|order|] == cur;
    assert forall i :: 0 <= i < |order| ==> all[i] == order[i];
  }

  /** One out-edge of cur: its target's count was positive, so the target is not listed yet. */
  lemma RelaxPositive(ns: seq<GNode>, indeg: seq<nat>, order: seq<nat>, cur: nat, queue: seq<nat>, k: nat)
    requires WellFormed(ns) && cur < |ns| && k < |ns[cur].edges|
    requires RelaxInv(ns, indeg, order, cur, queue, ns[cur].edges[..k])
    ensures var v := ns[cur].edges[k].to;
            Live(ns, v) && indeg[v] > 0 && cur in Preds(ns, v) - SetOf(order) && !HasTo(ns[cur].edges[..k], v)
  {
    var v := ns[cur].edges[k].to;
    NotYetOutput(order, cur, queue);
    assert cur in Preds(ns, v) - SetOf(order);
  }

  lemma HasToNext(es: seq<Edge>, k: nat, v: nat)
    requires k < |es|
    ensures HasTo(es[..k + 1], v) <==> HasTo(es[..k], v) || es[k].to == v
  {
    assert es[..k + 1] == es[..k] + [es[k]];
    if HasTo(es[..k], v) {
      var j :| 0 <= j < k && es[..k][j].to == v;
      assert es[..k + 1][j].to == v;
    }
    assert es[..k + 1][k] == es[k];
  }

  lemma RelaxStep(ns: seq<GNode>, indeg: seq<nat>, order: seq<nat>, cur: nat, queue: seq<nat>, k: nat)
    requires WellFormed(ns) && cur < |ns| && k < |ns[cur].edges|
    requires RelaxInv(ns, indeg, order, cur, queue, ns[cur].edges[..k])
    ensures var es := ns[cur].edges; var v := es[k].to;
            && v < |indeg| && indeg[v] > 0
            && RelaxInv(ns, indeg[v := indeg[v] - 1], order, cur, if indeg[v] == 1 then queue + [v] else queue, es[..k + 1])
  {
    var es := ns[cur].edges;
    var v := es[k].to;
    RelaxPositive(ns, indeg, order, cur, queue, k);
    var all := order + [cur] + queue;
    var queue' := if indeg[v] == 1 then queue + [v] else queue;
    var all' := order + [cur] + queue';
    var indeg' := indeg[v := indeg[v] - 1];
    if indeg[v] == 1 {
      assert all' == all + [v];
      var open := Preds(ns, v) - SetOf(order);
      assert |open - {cur}| == 0;
      assert open == {cur};
      assert forall u :: u in Preds(ns, v) ==> u in open || u in SetOf(order);
      ListedNext(ns, all, v, order + [cur]);
    }
    hide Listed, WellFormed, HasTo, Preds, SetOf, Live;
    forall w: nat | Live(ns, w)
      ensures indeg'[w] == |Preds(ns, w) - SetOf(order)| - (if HasTo(es[..k + 1], w) then 1 else 0)
      ensures indeg'[w] == 0 <==> w in all'
    {
      HasToNext(es, k, w);
    }
  }

  lemma ListedNext(ns: seq<GNode>, all: seq<nat>, v: nat, done: seq<nat>)
    requires Listed(ns, all) && Live(ns, v) && v !in all && done <= all
    requires forall u :: u in Preds(ns, v) ==> u in done
    ensures Listed(ns, all + [v])
  {
    var more := all + [v];
    forall j, u | 0 <= j < |more| && Arc(ns, u, more[j]) ensures u in more[..j] {
      if j < |all| {
        assert u in all[..j];
        assert more[..j] == all[..j];
      } else {
        ArcIsPred(ns, u, v);
        assert more[..j] == all;
        assert forall x :: x in done ==> x in all;
      }
    }
  }

  lemma OneMoreOut(preds: set<nat>, done: set<nat>, cur: nat)
    requires cur !in done
    ensures |preds - (done + {cur})| == |preds - done| - (if cur in preds then 1 else 0)
  {
    assert preds - (done + {cur}) == (preds - done) - {cur};
  }

  lemma Output(ns: seq<GNode>, indeg: seq<nat>, order: seq<nat>, cur: nat, queue: seq<nat>)
    requires cur < |ns| && RelaxInv(ns, indeg, order, cur, queue, ns[cur].edges)
    ensures KahnInv(ns, indeg, order + [cur], queue)
  {
    NotYetOutput(order, cur, queue);
    hide Listed, Live, HasTo, Preds;
    assert SetOf(order + [cur]) == SetOf(order) + {cur};
    forall v: nat | Live(ns, v) ensures indeg[v] == |Preds(ns, v) - SetOf(order + [cur])| {
      OneMoreOut(Preds(ns, v), SetOf(order), cur);
      ArcIsPred(ns, cur, v);
    }
  }

  lemma {:induction false} DistinctBound(s: seq<nat>, S: set<nat>)
    requires Distinct(s) && forall u :: u in s ==> u in S
    ensures |s| <= |S|
    ensures |s| == |S| ==> forall u :: u in S ==> u in s
  {
    if s != [] {
      var n := |s| - 1;
      assert s[n] in S;
      DistinctBound(s[..n], S - {s[n]});
      assert s == s[..n] + [s[n]];
    }
  }

  /** Nothing waits any more: either everything was output, or the rest keeps itself from ever starting. */
  lemma Finished(ns: seq<GNode>, indeg: seq<nat>, order: seq<nat>)
    requires WellFormed(ns) && KahnInv(ns, indeg, order, [])
    ensures |order| == |LiveSet(ns)| ==> IsTopoOrder(ns, order) && !HasCycle(ns)
    ensures |order| != |LiveSet(ns)| ==> HasCycle(ns)
  {
    assert order + [] == order;
    DistinctBound(order, LiveSet(ns));
    if |order| == |LiveSet(ns)| {
      assert forall u: nat :: u in LiveSet(ns) <==> Live(ns, u);
      OrderedIsAcyclic(ns, order);
    } else {
      Stuck(ns, indeg, order);
    }
  }

  lemma Stuck(ns: seq<GNode>, indeg: seq<nat>, order: seq<nat>)
    requires WellFormed(ns) && KahnInv(ns, indeg, order, []) && |order| != |LiveSet(ns)|
    ensures HasCycle(ns)
  {
    var S := LiveSet(ns) - SetOf(order);
    StuckRest(ns, indeg, order);
    StuckClosed(ns, indeg, order, S);
    var v :| v in S;
    ClosedSetHasCycle(ns, S, v);
  }

  lemma StuckRest(ns: seq<GNode>, indeg: seq<nat>, order: seq<nat>)
    requires KahnInv(ns, indeg, order, []) && |order| != |LiveSet(ns)|
    ensures LiveSet(ns) - SetOf(order) != {}
  {
    assert order + [] == order;
    AllOutputCount(order, LiveSet(ns));
  }

  lemma StuckClosed(ns: seq<GNode>, indeg: seq<nat>, order: seq<nat>, S: set<nat>)
    requires WellFormed(ns) && KahnInv(ns, indeg, order, []) && S == LiveSet(ns) - SetOf(order)
    ensures PredClosed(ns, S)
  {
    forall w {:trigger HasPredIn(ns, S, w)} | w in S ensures HasPredIn(ns, S, w) {
      StuckPred(ns, indeg, order, w);
    }
  }

  lemma StuckPred(ns: seq<GNode>, indeg: seq<nat>, order: seq<nat>, w: nat)
    requires WellFormed(ns) && KahnInv(ns, indeg, order, []) && Live(ns, w) && w !in order
    ensures HasPredIn(ns, LiveSet(ns) - SetOf(order), w)
  {
    assert order + [] == order;
    var open := Preds(ns, w) - SetOf(order);
    assert |open| != 0;
    var u :| u in open;
    assert Arc(ns, u, w) && Live(ns, u);
  }

  lemma AllOutputCount(order: seq<nat>, S: set<nat>)
    requires Distinct(order) && SetOf(order) <= S && |order| != |S|
    ensures S - SetOf(order) != {}
  {
    if S - SetOf(order) == {} {
      assert forall u :: u in S ==> u in S - SetOf(order) || u in SetOf(order);
      assert SetOf(order) == S;
      SetSize(order);
    }
  }

  lemma {:induction false} SetSize(s: seq<nat>)
    requires Distinct(s)
    ensures |SetOf(s)| == |s|
  {
    if s != [] {
      var n := |s| - 1;
      SetSize(s[..n]);
      assert SetOf(s) == SetOf(s[..n]) + {s[n]} by { assert s == s[..n] + [s[n]]; }
      assert s[n] !in s[..n];
    }
  }

  /** Queues the live nodes whose count is 0, in index order. */
  method QueueZeros(ns: seq<GNode>, indeg: array<nat>, hint: nat) returns (q: Deque.Deque)
    requires indeg.Length == |ns|
    ensures fresh(q) && fresh(q.slots) && q.Valid() && Distinct(q.Contents())
    ensures forall u: nat :: u in q.Contents() <==> Live(ns, u) && indeg[u] == 0
  {
    q := new Deque.Deque(hint);
    ghost var waiting := [];
    var i := 0;
    while i < |ns|
      invariant 0 <= i <= |ns| && fresh(q) && fresh(q.slots) && q.Valid() && q.Contents() == waiting
      invariant Distinct(waiting)
      invariant forall u: nat :: u in waiting <==> u < i && ns[u].alive && indeg[u] == 0
    {
      if ns[i].alive && indeg[i] == 0 {
        q.PushBack(i);
        waiting := waiting + [i];
      }
      i := i + 1;
    }
  }

  method Start(g: Graph) returns (indeg: array<nat>, q: Deque.Deque)
    requires g.Valid()
    ensures fresh(indeg) && fresh(q) && fresh(q.slots) && q.Valid() && indeg != q.slots
    ensures KahnInv(g.nodes, indeg[..], [], q.Contents())
  {
    var ns := g.nodes;
    indeg := new nat[|ns|](i requires 0 <= i < |ns| => if ns[i].alive then ns[i].inDeg else 0);
    q := QueueZeros(ns, indeg, g.nAlive);
    StartInv(ns, indeg[..], q.Contents());
  }

  lemma StartInv(ns: seq<GNode>, indeg: seq<nat>, queue: seq<nat>)
    requires WellFormed(ns) && DegreesExact(ns) && |indeg| == |ns| && Distinct(queue)
    requires forall v: nat :: Live(ns, v) ==> indeg[v] == ns[v].inDeg
    requires forall u: nat :: u in queue <==> Live(ns, u) && ns[u].inDeg == 0
    ensures KahnInv(ns, indeg, [], queue)
  {
    assert [] + queue == queue;
    forall v: nat | Live(ns, v) ensures Preds(ns, v) - SetOf([]) == Preds(ns, v) {}
    forall j | 0 <= j < |queue| ensures forall u: nat :: !Arc(ns, u, queue[j]) {
      assert queue[j] in queue;
      NoArcInto(ns, queue[j]);
    }
  }

  lemma NoArcInto(ns: seq<GNode>, v: nat)
    requires |Preds(ns, v)| == 0
    ensures forall u: nat :: !Arc(ns, u, v)
  {
    forall u: nat ensures !Arc(ns, u, v) { ArcIsPred(ns, u, v); }
  }

  /** Takes off one out-edge of cur. */
  method RelaxOne(ns: seq<GNode>, indeg: array<nat>, q: Deque.Deque, cur: nat, ghost order: seq<nat>, i: nat)
    requires WellFormed(ns) && cur < |ns| && i < |ns[cur].edges| && indeg.Length == |ns| && q.Valid() && indeg != q.slots
    requires RelaxInv(ns, indeg[..], order, cur, q.Contents(), ns[cur].edges[..i])
    modifies indeg, q, q.slots
    ensures q.Valid() && (q.slots == old(q.slots) || fresh(q.slots))
    ensures RelaxInv(ns, indeg[..], order, cur, q.Contents(), ns[cur].edges[..i + 1])
  {
    ghost var was, queue := indeg[..], q.Contents();
    RelaxStep(ns, was, order, cur, queue, i);
    var nb := ns[cur].edges[i].to;
    indeg[nb] := indeg[nb] - 1;
    assert indeg[..] == was[nb := was[nb] - 1];
    if indeg[nb] == 0 {
      q.PushBack(nb);
    }
    assert q.Contents() == if was[nb] == 1 then queue + [nb] else queue;
    assert indeg[..] == was[nb := was[nb] - 1];
  }

  /** Takes off all out-edges of cur, queueing every target whose count reaches 0. */
  method Relax(ns: seq<GNode>, indeg: array<nat>, q: Deque.Deque, cur: nat, ghost order: seq<nat>)
    requires WellFormed(ns) && cur < |ns| && indeg.Length == |ns| && q.Valid() && indeg != q.slots
    requires RelaxInv(ns, indeg[..], order, cur, q.Contents(), [])
    modifies indeg, q, q.slots
    ensures q.Valid() && (q.slots == old(q.slots) || fresh(q.slots))
    ensures KahnInv(ns, indeg[..], order + [cur], q.Contents())
  {
    assert ns[cur].edges[..0] == [];
    var i := 0;
    while i < |ns[cur].edges|
      invariant 0 <= i <= |ns[cur].edges| && q.Valid() && (q.slots == old(q.slots) || fresh(q.slots)) && indeg != q.slots
      invariant RelaxInv(ns, indeg[..], order, cur, q.Contents(), ns[cur].edges[..i])
    {
      RelaxOne(ns, indeg, q, cur, order, i);
      i := i + 1;
    }
    assert ns[cur].edges[..i] == ns[cur].edges;
    Output(ns, indeg[..], order, cur, q.Contents());
  }

  /** One round: the front of the queue is output and its out-edges are taken off. */
  method Round(ns: seq<GNode>, indeg: array<nat>, q: Deque.Deque, ghost order: seq<nat>) returns (cur: nat)
    requires WellFormed(ns) && indeg.Length == |ns| && q.Valid() && q.size > 0 && indeg != q.slots
    requires KahnInv(ns, indeg[..], order, q.Contents())
    modifies indeg, q, q.slots
    ensures q.Valid() && (q.slots == old(q.slots) || fresh(q.slots))
    ensures KahnInv(ns, indeg[..], order + [cur], q.Contents())
    ensures |order| < |LiveSet(ns)|
  {
    ghost var queue := q.Contents();
    cur := q.PopFront();
    assert queue == [cur] + q.Contents();
    TakeFront(ns, indeg[..], order, cur, q.Contents());
    Relax(ns, indeg, q, cur, order);
    OrderBound(ns, indeg[..], order + [cur], q.Contents());
  }

  /** Rounds until the queue is empty. */
  method Drain(ns: seq<GNode>, indeg: array<nat>, q: Deque.Deque, out: array<nat>) returns (written: nat, ghost order: seq<nat>)
    requires WellFormed(ns) && indeg.Length == |ns| && q.Valid() && indeg != q.slots && out != indeg && out != q.slots
    requires KahnInv(ns, indeg[..], [], q.Contents())
    modifies indeg, q, q.slots, out
    ensures written == |order| && forall i :: 0 <= i < |order| && i < out.Length ==> out[i] == order[i]
    ensures |order| == |LiveSet(ns)| ==> IsTopoOrder(ns, order) && !HasCycle(ns)
    ensures |order| != |LiveSet(ns)| ==> HasCycle(ns)
  {
    order, written := [], 0;
    while q.size > 0
      invariant q.Valid() && (q.slots == old(q.slots) || fresh(q.slots)) && indeg != q.slots && out != q.slots
      invariant written == |order| && KahnInv(ns, indeg[..], order, q.Contents())
      invariant forall i :: 0 <= i < |order| && i < out.Length ==> out[i] == order[i]
      decreases |LiveSet(ns)| - |order|
    {
      var cur := Round(ns, indeg, q, order);
      if written < out.Length {
        out[written] := cur;
      }
      written := written + 1;
      order := order + [cur];
    }
    assert q.Contents() == [];
    Finished(ns, indeg[..], order);
  }

  /** Kahn's algorithm.  `out` receives as much of the order as fits. */
  method Sort(g: Graph, out: array<nat>) returns (rc: int, ghost order: seq<nat>)
    requires g.Valid()
    modifies out
    ensures rc == -1 <==> HasCycle(g.nodes)
    ensures rc != -1 ==> rc == g.nAlive && |order| == rc && IsTopoOrder(g.nodes, order)
    ensures rc != -1 ==> forall i :: 0 <= i < |order| && i < out.Length ==> out[i] == order[i]
  {
    if g.nAlive == 0 {
      EmptyGraph(g.nodes);
      return 0, [];
    }
    var indeg, q := Start(g);
    var written;
    written, order := Drain(g.nodes, indeg, q, out);
    rc := if written == g.nAlive then written else -1;
  }

  lemma OrderBound(ns: seq<GNode>, indeg: seq<nat>, order: seq<nat>, queue: seq<nat>)
    requires KahnInv(ns, indeg, order, queue)
    ensures |order| <= |LiveSet(ns)|
  {
    assert forall i :: 0 <= i < |order| ==> (order + queue)[i] == order[i];
    forall u | u in order ensures u in LiveSet(ns) {
      assert u in order + queue;
    }
    DistinctBound(order, LiveSet(ns));
  }

  lemma EmptyGraph(ns: seq<GNode>)
    requires WellFormed(ns) && LiveSet(ns) == {}
    ensures IsTopoOrder(ns, []) && !HasCycle(ns)
  {
    assert forall u: nat :: Live(ns, u) ==> u in LiveSet(ns);
    OrderedIsAcyclic(ns, []);
  }

  method CycleCheck(g: Graph) returns (cycle: bool)
    requires g.Valid()
    ensures cycle <==> HasCycle(g.nodes)
  {
    if g.nAlive == 0 {
      EmptyGraph(g.nodes);
      return false;
    }
    var buf := new nat[g.nAlive](_ => 0);
    var rc, _ := Sort(g, buf);
    return rc == -1;
  }
}
