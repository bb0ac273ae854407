/** The directed weighted graph of src/graph.c: a slot table with recycled ids, out-edge lists kept
    as unordered arrays, and in-degrees and edge totals kept incrementally. */
module Graph {
  datatype Edge = Edge(to: nat, weight: int)
  datatype GNode = GNode(val: nat, alive: bool, inDeg: nat, edges: seq<Edge>)

  const INVALID := 0xFFFF_FFFF

  // ---- what a slot table means -------------------------------------------------------

  predicate Live(ns: seq<GNode>, id: nat) {
    id < |ns| && ns[id].alive
  }

  predicate HasTo(es: seq<Edge>, v: nat) {
    exists k :: 0 <= k < |es| && es[k].to == v
  }

  predicate Arc(ns: seq<GNode>, u: nat, v: nat) {
    u < |ns| && HasTo(ns[u].edges, v)
  }

  ghost function LiveSet(ns: seq<GNode>): set<nat> {
    set u | 0 <= u < |ns| && ns[u].alive
  }

  ghost function Preds(ns: seq<GNode>, v: nat): set<nat> {
    set u | 0 <= u < |ns| && HasTo(ns[u].edges, v)
  }

  predicate HasArc(ns: seq<GNode>, u: nat, v: nat, w: int) {
    u < |ns| && Edge(v, w) in ns[u].edges
  }

  /** The weighted arcs. */
  ghost function Arcs(ns: seq<GNode>): iset<(nat, nat, int)> {
    iset a: (nat, nat, int) | HasArc(ns, a.0, a.1, a.2)
  }

  function EdgeTotal(ns: seq<GNode>): nat {
    if ns == [] then 0 else EdgeTotal(ns[..|ns| - 1]) + |ns[|ns| - 1].edges|
  }

  predicate DistinctTargets(es: seq<Edge>) {
    forall j, k :: 0 <= j < k < |es| ==> es[j].to != es[k].to
  }

  /** Arcs join live nodes, at most one per pair; dead slots have none. */
  ghost predicate WellFormed(ns: seq<GNode>) {
    && (forall u :: 0 <= u < |ns| ==> DistinctTargets(ns[u].edges))
    && (forall u :: 0 <= u < |ns| && !ns[u].alive ==> ns[u].edges == [])
    && (forall u, k :: 0 <= u < |ns| && 0 <= k < |ns[u].edges| ==> Live(ns, ns[u].edges[k].to))
  }

  /** Every live node's in-degree is the number of its predecessors. */
  ghost predicate DegreesExact(ns: seq<GNode>) {
    forall v :: 0 <= v < |ns| && ns[v].alive ==> ns[v].inDeg == |Preds(ns, v)|
  }

  /** The free list holds exactly the dead slots, each once. */
  ghost predicate FreeExact(ns: seq<GNode>, free: seq<nat>) {
    && (forall k :: 0 <= k < |free| ==> free[k] < |ns| && !ns[free[k]].alive)
    && (forall j, k :: 0 <= j < k < |free| ==> free[j] != free[k])
    && (forall u :: 0 <= u < |ns| && !ns[u].alive ==> u in free)
  }

  // ---- counting lemmas -----------------------------------------------------------------

  lemma {:induction false} TotalUpdate(ns: seq<GNode>, i: nat, x: GNode)
    requires i < |ns|
    ensures EdgeTotal(ns[i := x]) == EdgeTotal(ns) - |ns[i].edges| + |x.edges|
    ensures EdgeTotal(ns) >= |ns[i].edges|
  {
    var n := |ns| - 1;
    if i == n {
      assert ns[i := x][..n] == ns[..n];
    } else {
      TotalUpdate(ns[..n], i, x);
      assert ns[i := x][..n] == ns[..n][i := x];
    }
  }

  lemma {:induction false} TotalAppend(ns: seq<GNode>, x: GNode)
    ensures EdgeTotal(ns + [x]) == EdgeTotal(ns) + |x.edges|
  {
    assert (ns + [x])[..|ns|] == ns;
  }

  /** Editing one node's out-edges moves only that node in or out of predecessor sets. */
  lemma PredsUpdate(ns: seq<GNode>, i: nat, x: GNode, v: nat)
    requires i < |ns|
    ensures Preds(ns[i := x], v) == if HasTo(x.edges, v) then Preds(ns, v) + {i} else Preds(ns, v) - {i}
    ensures |Preds(ns[i := x], v)| == |Preds(ns, v)| - (if HasTo(ns[i].edges, v) then 1 else 0) + (if HasTo(x.edges, v) then 1 else 0)
  {
    var p, q := Preds(ns, v), Preds(ns[i := x], v);
    assert q == if HasTo(x.edges, v) then p + {i} else p - {i};
    assert i in p <==> HasTo(ns[i].edges, v);
  }

  /** Removing an edge by moving the last one into its place. */
  function SwapOut(es: seq<Edge>, k: nat): (r: seq<Edge>)
    requires k < |es|
    ensures |r| == |es| - 1
  {
    es[k := es[|es| - 1]][..|es| - 1]
  }

  lemma SwapOutFacts(es: seq<Edge>, k: nat)
    requires k < |es| && DistinctTargets(es)
    ensures var r := SwapOut(es, k);
            && DistinctTargets(r)
            && (forall v :: HasTo(r, v) <==> HasTo(es, v) && v != es[k].to)
            && (forall e :: e in r <==> e in es && e.to != es[k].to)
  {
    var r := SwapOut(es, k);
    var n := |r|;
    assert forall j :: 0 <= j < n ==> r[j] == if j == k then es[n] else es[j];
    forall e | e in es && e.to != es[k].to ensures e in r {
      var j :| 0 <= j < |es| && es[j] == e;
      assert if j == n then r[k] == e else r[j] == e;
    }
    forall v | HasTo(es, v) && v != es[k].to ensures HasTo(r, v) {
      var j :| 0 <= j < |es| && es[j].to == v;
      assert es[j] in r;
    }
  }

  /** Same liveness and out-edges everywhere: in-degrees do not matter to anything but DegreesExact. */
  ghost predicate SameLinks(ns: seq<GNode>, ms: seq<GNode>) {
    |ns| == |ms| && forall u :: 0 <= u < |ns| ==> ns[u].alive == ms[u].alive && ns[u].edges == ms[u].edges
  }

  lemma {:induction false} SameMeaning(ns: seq<GNode>, ms: seq<GNode>)
    requires SameLinks(ns, ms)
    ensures WellFormed(ns) ==> WellFormed(ms)
    ensures LiveSet(ns) == LiveSet(ms) && Arcs(ns) == Arcs(ms) && EdgeTotal(ns) == EdgeTotal(ms)
    ensures forall v :: Preds(ns, v) == Preds(ms, v)
  {
    SameTotal(ns, ms);
    assert forall u :: Live(ns, u) == Live(ms, u);
  }

  lemma {:induction false} SameTotal(ns: seq<GNode>, ms: seq<GNode>)
    requires SameLinks(ns, ms)
    ensures EdgeTotal(ns) == EdgeTotal(ms)
  {
    if ns != [] { SameTotal(ns[..|ns| - 1], ms[..|ms| - 1]); }
  }

  /** Nothing points at a slot that is not live. */
  lemma NoPreds(ns: seq<GNode>, v: nat)
    requires WellFormed(ns) && !Live(ns, v)
    ensures Preds(ns, v) == {}
  {
  }

  lemma RevivedLinks(ns: seq<GNode>, id: nat, x: GNode)
    requires WellFormed(ns) && id < |ns| && !ns[id].alive && x.alive && x.edges == []
    ensures var ms := ns[id := x];
            WellFormed(ms) && EdgeTotal(ms) == EdgeTotal(ns) && Arcs(ms) == Arcs(ns) && LiveSet(ms) == LiveSet(ns) + {id}
  {
    var ms := ns[id := x];
    TotalUpdate(ns, id, x);
    assert forall u :: Live(ns, u) ==> Live(ms, u);
    assert ms[id].edges == ns[id].edges;
  }

  lemma Revived(ns: seq<GNode>, id: nat, x: GNode)
    requires WellFormed(ns) && DegreesExact(ns) && id < |ns| && !ns[id].alive && x.alive && x.inDeg == 0 && x.edges == []
    ensures DegreesExact(ns[id := x])
  {
    var ms := ns[id := x];
    assert !HasTo(x.edges, id);
    forall v | 0 <= v < |ms| && ms[v].alive ensures ms[v].inDeg == |Preds(ms, v)| {
      PredsUpdate(ns, id, x, v);
      if v == id { NoPreds(ns, id); } else { assert ns[v] == ms[v]; }
    }
  }

  lemma FreePopped(ns: seq<GNode>, free: seq<nat>, x: GNode)
    requires FreeExact(ns, free) && free != [] && x.alive
    ensures free[|free| - 1] < |ns| && FreeExact(ns[free[|free| - 1] := x], free[..|free| - 1])
  {
    var id := free[|free| - 1];
    var rest := free[..|free| - 1];
    forall u | 0 <= u < |ns| && !ns[u].alive && u != id ensures u in rest {
      var k :| 0 <= k < |free| && free[k] == u;
      assert rest[k] == u;
    }
  }

  lemma FreeKept(ns: seq<GNode>, ms: seq<GNode>, free: seq<nat>)
    requires FreeExact(ns, free) && |ms| == |ns| && LiveSet(ms) == LiveSet(ns)
    ensures FreeExact(ms, free)
  {
    forall u | 0 <= u < |ns| ensures ns[u].alive <==> ms[u].alive {
      assert u in LiveSet(ms) <==> u in LiveSet(ns);
    }
  }

  lemma FreeExtended(ns: seq<GNode>, free: seq<nat>, x: GNode)
    requires FreeExact(ns, free) && x.alive
    ensures FreeExact(ns + [x], free)
  {
  }

  lemma ExtendedArcs(ns: seq<GNode>, x: GNode)
    requires x.edges == []
    ensures Arcs(ns + [x]) == Arcs(ns)
  {
    forall u: nat, v: nat, w: int ensures HasArc(ns + [x], u, v, w) <==> HasArc(ns, u, v, w) {}
  }

  lemma ExtendedLive(ns: seq<GNode>, x: GNode)
    requires x.alive
    ensures LiveSet(ns + [x]) == LiveSet(ns) + {|ns|}
  {
  }

  lemma ExtendedWellFormed(ns: seq<GNode>, x: GNode)
    requires WellFormed(ns) && x.edges == []
    ensures WellFormed(ns + [x])
  {
    var ms := ns + [x];
    forall u, k | 0 <= u < |ms| && 0 <= k < |ms[u].edges| ensures Live(ms, ms[u].edges[k].to) {
      assert Live(ns, ns[u].edges[k].to);
    }
  }

  lemma Extended(ns: seq<GNode>, x: GNode)
    requires WellFormed(ns) && DegreesExact(ns) && x.alive && x.inDeg == 0 && x.edges == []
    ensures DegreesExact(ns + [x])
  {
    var ms := ns + [x];
    forall v | 0 <= v < |ms| && ms[v].alive ensures ms[v].inDeg == |Preds(ms, v)| {
      assert Preds(ms, v) == Preds(ns, v);
      if v == |ns| { NoPreds(ns, v); } else { assert ns[v] == ms[v]; }
    }
  }

  /** Changing a weight changes one arc and no target. */
  lemma ReweightedEdges(es: seq<Edge>, k: nat, w: int)
    requires DistinctTargets(es) && k < |es|
    ensures var to := es[k].to; var fs := es[k := Edge(to, w)];
            && DistinctTargets(fs) && (forall v :: HasTo(fs, v) <==> HasTo(es, v))
            && (forall e :: e in fs <==> (e in es && e.to != to) || e == Edge(to, w))
  {
    var to := es[k].to;
    var fs := es[k := Edge(to, w)];
    assert forall j :: 0 <= j < |es| ==> fs[j].to == es[j].to;
    forall v | HasTo(es, v) ensures HasTo(fs, v) {
      var j :| 0 <= j < |es| && es[j].to == v;
      assert fs[j].to == v;
    }
    assert fs[k] == Edge(to, w);
    forall e | e in es && e.to != to ensures e in fs {
      var j :| 0 <= j < |es| && es[j] == e;
      assert fs[j] == e;
    }
  }

  lemma Reweighted(ns: seq<GNode>, u: nat, k: nat, w: int)
    requires WellFormed(ns) && DegreesExact(ns) && Live(ns, u) && k < |ns[u].edges|
    ensures var to := ns[u].edges[k].to; var ms := ns[u := ns[u].(edges := ns[u].edges[k := Edge(to, w)])];
            && WellFormed(ms) && DegreesExact(ms) && EdgeTotal(ms) == EdgeTotal(ns) && LiveSet(ms) == LiveSet(ns)
            && Arcs(ms) == (iset a: (nat, nat, int) | a in Arcs(ns) && !(a.0 == u && a.1 == to)) + iset{(u, to, w)}
  {
    var to := ns[u].edges[k].to;
    var es := ns[u].edges[k := Edge(to, w)];
    var ms := ns[u := ns[u].(edges := es)];
    ReweightedEdges(ns[u].edges, k, w);
    assert forall j :: 0 <= j < |es| ==> es[j].to == ns[u].edges[j].to;
    Relinked(ns, u, es);
    SameDegrees(ns, u, es, ms);
  }

  lemma SameDegrees(ns: seq<GNode>, u: nat, es: seq<Edge>, ms: seq<GNode>)
    requires DegreesExact(ns) && u < |ns| && ms == ns[u := ns[u].(edges := es)]
    requires forall v :: HasTo(es, v) <==> HasTo(ns[u].edges, v)
    ensures DegreesExact(ms)
  {
    forall v | 0 <= v < |ms| && ms[v].alive ensures ms[v].inDeg == |Preds(ms, v)| {
      PredsUpdate(ns, u, ms[u], v);
    }
  }

  /** A new out-edge list for one node whose targets are live: structure and totals. */
  lemma Relinked(ns: seq<GNode>, u: nat, es: seq<Edge>)
    requires WellFormed(ns) && u < |ns| && ns[u].alive && DistinctTargets(es)
    requires forall k :: 0 <= k < |es| ==> Live(ns, es[k].to)
    ensures var ms := ns[u := ns[u].(edges := es)];
            && WellFormed(ms) && LiveSet(ms) == LiveSet(ns) && EdgeTotal(ms) == EdgeTotal(ns) - |ns[u].edges| + |es|
            && Arcs(ms) == iset a: (nat, nat, int) | if a.0 == u then Edge(a.1, a.2) in es else a in Arcs(ns)
  {
    var ms := ns[u := ns[u].(edges := es)];
    TotalUpdate(ns, u, ms[u]);
    assert forall q :: Live(ns, q) <==> Live(ms, q);
  }

  lemma Pushed(es: seq<Edge>, e: Edge)
    requires DistinctTargets(es) && !HasTo(es, e.to)
    ensures var fs := es + [e];
            DistinctTargets(fs) && (forall v :: HasTo(fs, v) <==> HasTo(es, v) || v == e.to) && forall f :: f in es ==> f.to != e.to
  {
    var fs := es + [e];
    assert fs[|es|] == e;
    forall v | HasTo(es, v) ensures HasTo(fs, v) {
      var k :| 0 <= k < |es| && es[k].to == v;
      assert fs[k].to == v;
    }
    forall f | f in es ensures f.to != e.to {
      var k :| 0 <= k < |es| && es[k] == f;
    }
  }

  lemma {:induction false} LinkedArcs(ns: seq<GNode>, u: nat, to: nat, w: int, m1: seq<GNode>)
    requires WellFormed(ns) && Live(ns, u) && Live(ns, to) && !HasTo(ns[u].edges, to)
    requires m1 == ns[u := ns[u].(edges := ns[u].edges + [Edge(to, w)])]
    ensures WellFormed(m1) && EdgeTotal(m1) == EdgeTotal(ns) + 1 && LiveSet(m1) == LiveSet(ns)
    ensures Arcs(m1) == (iset a: (nat, nat, int) | a in Arcs(ns) && !(a.0 == u && a.1 == to)) + iset{(u, to, w)}
  {
    var es := ns[u].edges + [Edge(to, w)];
    Pushed(ns[u].edges, Edge(to, w));
    assert forall k :: 0 <= k < |es| ==> Live(ns, es[k].to);
    hide WellFormed, DistinctTargets, EdgeTotal, LiveSet, HasTo;
    Relinked(ns, u, es);
  }

  lemma Linked(ns: seq<GNode>, u: nat, to: nat, w: int)
    requires WellFormed(ns) && DegreesExact(ns) && Live(ns, u) && Live(ns, to) && !HasTo(ns[u].edges, to)
    ensures var m1 := ns[u := ns[u].(edges := ns[u].edges + [Edge(to, w)])];
            var ms := m1[to := m1[to].(inDeg := m1[to].inDeg + 1)];
            && WellFormed(ms) && DegreesExact(ms) && EdgeTotal(ms) == EdgeTotal(ns) + 1 && LiveSet(ms) == LiveSet(ns)
            && Arcs(ms) == (iset a: (nat, nat, int) | a in Arcs(ns) && !(a.0 == u && a.1 == to)) + iset{(u, to, w)}
  {
    hide WellFormed, DegreesExact, DistinctTargets, EdgeTotal, LiveSet, Preds, Arcs, HasTo;
    var m1 := ns[u := ns[u].(edges := ns[u].edges + [Edge(to, w)])];
    var ms := m1[to := m1[to].(inDeg := m1[to].inDeg + 1)];
    LinkedArcs(ns, u, to, w, m1);
    SameMeaning(m1, ms);
    assert DistinctTargets(ns[u].edges) by { Distinctness(ns, u); }
    Pushed(ns[u].edges, Edge(to, w));
    LinkedDegrees(ns, u, to, m1, ms);
  }

  lemma Distinctness(ns: seq<GNode>, u: nat)
    requires WellFormed(ns) && u < |ns|
    ensures DistinctTargets(ns[u].edges)
  {
  }

  lemma LinkedDegrees(ns: seq<GNode>, u: nat, to: nat, m1: seq<GNode>, ms: seq<GNode>)
    requires DegreesExact(ns) && u < |ns| && to < |ns| && |m1| == |ns| && m1 == ns[u := m1[u]]
    requires m1[u].inDeg == ns[u].inDeg && m1[u].alive == ns[u].alive
    requires ms == m1[to := m1[to].(inDeg := m1[to].inDeg + 1)]
    requires forall v :: Preds(m1, v) == Preds(ms, v)
    requires !HasTo(ns[u].edges, to) && forall v :: HasTo(m1[u].edges, v) <==> HasTo(ns[u].edges, v) || v == to
    ensures DegreesExact(ms)
  {
    forall v | 0 <= v < |ms| && ms[v].alive ensures ms[v].inDeg == |Preds(ms, v)| {
      PredsUpdate(ns, u, m1[u], v);
      assert Preds(ms, v) == Preds(m1, v);
    }
  }

  lemma Unlinked(ns: seq<GNode>, u: nat, k: nat)
    requires WellFormed(ns) && DegreesExact(ns) && Live(ns, u) && k < |ns[u].edges|
    ensures var to := ns[u].edges[k].to;
            var m1 := ns[u := ns[u].(edges := SwapOut(ns[u].edges, k))];
            && to < |ns| && m1[to].inDeg > 0
            && var ms := m1[to := m1[to].(inDeg := m1[to].inDeg - 1)];
            && WellFormed(ms) && DegreesExact(ms) && EdgeTotal(ms) == EdgeTotal(ns) - 1 && LiveSet(ms) == LiveSet(ns)
            && Arcs(ms) == iset a: (nat, nat, int) | a in Arcs(ns) && !(a.0 == u && a.1 == to)
  {
    var to := ns[u].edges[k].to;
    var es := SwapOut(ns[u].edges, k);
    SwapOutFacts(ns[u].edges, k);
    assert Live(ns, to) && u in Preds(ns, to);
    var m1 := ns[u := ns[u].(edges := es)];
    var ms := m1[to := m1[to].(inDeg := m1[to].inDeg - 1)];
    forall j | 0 <= j < |es| ensures Live(ns, es[j].to) {
      assert es[j] in ns[u].edges;
    }
    Relinked(ns, u, es);
    SameMeaning(m1, ms);
    forall v | 0 <= v < |ms| && ms[v].alive ensures ms[v].inDeg == |Preds(ms, v)| {
      PredsUpdate(ns, u, m1[u], v);
    }
  }

  // ---- deleting a node -------------------------------------------------------------------

  /** The list without its edge to id, in some order. */
  ghost predicate Scrubbed(es: seq<Edge>, fs: seq<Edge>, id: nat) {
    && DistinctTargets(fs) && |fs| <= |es|
    && (forall v :: HasTo(fs, v) <==> HasTo(es, v) && v != id)
    && (forall e :: e in fs <==> e in es && e.to != id)
  }

  /** In-degrees after dropping the first i of id's out-edges; links untouched. */
  ghost predicate Dropped(ns: seq<GNode>, ms: seq<GNode>, es: seq<Edge>) {
    && SameLinks(ns, ms)
    && forall v :: 0 <= v < |ns| ==> ms[v].inDeg == ns[v].inDeg - (if HasTo(es, v) then 1 else 0)
  }

  lemma DropOne(ns: seq<GNode>, ms: seq<GNode>, es: seq<Edge>, i: nat)
    requires DistinctTargets(es) && i < |es| && Dropped(ns, ms, es[..i]) && es[i].to < |ms| && ms[es[i].to].inDeg > 0
    ensures var v := es[i].to; Dropped(ns, ms[v := ms[v].(inDeg := ms[v].inDeg - 1)], es[..i + 1])
  {
    var v := es[i].to;
    var ms' := ms[v := ms[v].(inDeg := ms[v].inDeg - 1)];
    forall w ensures HasTo(es[..i + 1], w) <==> HasTo(es[..i], w) || w == v {
      assert es[..i + 1][i].to == v;
      if HasTo(es[..i], w) {
        var k :| 0 <= k < i && es[..i][k].to == w;
        assert es[..i + 1][k].to == w;
      }
    }
    assert !HasTo(es[..i], v);
    forall w | 0 <= w < |ns| ensures ms'[w].inDeg == ns[w].inDeg - (if HasTo(es[..i + 1], w) then 1 else 0) {}
  }

  /** Incoming edges of id removed from the first i nodes other than id. */
  ghost predicate ScrubbedTo(ns: seq<GNode>, ms: seq<GNode>, id: nat, i: nat) {
    && |ms| == |ns|
    && (forall u :: 0 <= u < |ns| ==> ms[u].alive == ns[u].alive && ms[u].inDeg == ns[u].inDeg)
    && (forall u :: 0 <= u < |ns| && (u >= i || u == id) ==> ms[u].edges == ns[u].edges)
    && (forall u :: 0 <= u < |ns| && u < i && u != id ==> Scrubbed(ns[u].edges, ms[u].edges, id))
  }

  /** The finished deletion: id dead and unlinked, everything else as it was. */
  ghost predicate NodeGone(ns: seq<GNode>, ms: seq<GNode>, id: nat) {
    && |ms| == |ns| && id < |ns| && !ms[id].alive && ms[id].edges == []
    && (forall u :: 0 <= u < |ns| && u != id ==> ms[u].alive == ns[u].alive && Scrubbed(ns[u].edges, ms[u].edges, id))
    && (forall v :: 0 <= v < |ns| && v != id ==> ms[v].inDeg == ns[v].inDeg - (if HasTo(ns[id].edges, v) then 1 else 0))
  }

  lemma GoneFree(ns: seq<GNode>, ms: seq<GNode>, free: seq<nat>, id: nat)
    requires FreeExact(ns, free) && NodeGone(ns, ms, id) && ns[id].alive
    ensures FreeExact(ms, free + [id])
  {
    var more := free + [id];
    assert more[|free|] == id;
    forall u | 0 <= u < |ms| && !ms[u].alive ensures u in more {
      if u != id {
        var k :| 0 <= k < |free| && free[k] == u;
        assert more[k] == u;
      }
    }
  }

  lemma GoneFrom(ns: seq<GNode>, m1: seq<GNode>, m2: seq<GNode>, id: nat)
    requires id < |ns| && Dropped(ns, m1, ns[id].edges) && ScrubbedTo(m1, m2, id, |m1|)
    ensures NodeGone(ns, m2[id := m2[id].(alive := false, edges := [])], id)
  {
  }

  lemma GoneWellFormed(ns: seq<GNode>, ms: seq<GNode>, id: nat)
    requires WellFormed(ns) && NodeGone(ns, ms, id)
    ensures WellFormed(ms)
  {
    forall u, k | 0 <= u < |ms| && 0 <= k < |ms[u].edges| ensures Live(ms, ms[u].edges[k].to) {
      var e := ms[u].edges[k];
      assert e in ns[u].edges;
      var j :| 0 <= j < |ns[u].edges| && ns[u].edges[j] == e;
      assert Live(ns, ns[u].edges[j].to);
    }
    forall u | 0 <= u < |ms| && !ms[u].alive ensures ms[u].edges == [] {
      if u != id { assert Scrubbed(ns[u].edges, ms[u].edges, id); }
    }
  }

  lemma GoneDegrees(ns: seq<GNode>, ms: seq<GNode>, id: nat)
    requires DegreesExact(ns) && NodeGone(ns, ms, id)
    ensures DegreesExact(ms)
  {
    forall v | 0 <= v < |ms| && ms[v].alive ensures ms[v].inDeg == |Preds(ms, v)| {
      assert Preds(ms, v) == Preds(ns, v) - {id} by {
        assert !HasTo(ms[id].edges, v);
        forall u | 0 <= u < |ns| && u != id ensures HasTo(ms[u].edges, v) <==> HasTo(ns[u].edges, v) {}
      }
      assert id in Preds(ns, v) <==> HasTo(ns[id].edges, v);
    }
  }

  lemma GoneMeaning(ns: seq<GNode>, ms: seq<GNode>, id: nat)
    requires NodeGone(ns, ms, id)
    ensures LiveSet(ms) == LiveSet(ns) - {id}
    ensures Arcs(ms) == iset a: (nat, nat, int) | a in Arcs(ns) && a.0 != id && a.1 != id
  {
    forall u: nat, v: nat, w: int ensures HasArc(ms, u, v, w) <==> HasArc(ns, u, v, w) && u != id && v != id {
      if u < |ns| && u != id {
        assert Scrubbed(ns[u].edges, ms[u].edges, id);
        assert Edge(v, w) in ms[u].edges <==> Edge(v, w) in ns[u].edges && v != id;
      }
    }
  }

  method FindEdge(es: seq<Edge>, to: nat) returns (k: int)
    ensures k >= 0 ==> k < |es| && es[k].to == to
    ensures k < 0 <==> !HasTo(es, to)
  {
    k := 0;
    while k < |es|
      invariant 0 <= k <= |es|
      invariant forall j :: 0 <= j < k ==> es[j].to != to
    {
      if es[k].to == to {
        return;
      }
      k := k + 1;
    }
    return -1;
  }

  class Graph {
    var nodes: seq<GNode>
    var free: seq<nat>
    var nAlive: nat
    var nEdges: nat

    ghost predicate Valid()
      reads this
    {
      && WellFormed(nodes) && DegreesExact(nodes) && FreeExact(nodes, free)
      && nAlive == |LiveSet(nodes)| && nEdges == EdgeTotal(nodes)
    }

    constructor ()
      ensures Valid() && nodes == []
    {
      nodes, free, nAlive, nEdges := [], [], 0, 0;
    }

    /** Takes a recycled id when there is one. */
    method AddNode(val: nat) returns (id: nat)
      requires Valid()
      modifies this
      ensures Valid() && !Live(old(nodes), id)
      ensures LiveSet(nodes) == LiveSet(old(nodes)) + {id}
      ensures Arcs(nodes) == Arcs(old(nodes))
      ensures nodes[id].val == val
    {
      hide WellFormed, DegreesExact, EdgeTotal, Arcs;
      var x := GNode(val, true, 0, []);
      ghost var ns := nodes;
      if |free| > 0 {
        id := free[|free| - 1];
        free := free[..|free| - 1];
        nodes := nodes[id := x];
        RevivedLinks(ns, id, x);
        Revived(ns, id, x);
        FreePopped(ns, old(free), x);
      } else {
        id := |nodes|;
        nodes := nodes + [x];
        TotalAppend(ns, x);
        ExtendedWellFormed(ns, x);
        ExtendedArcs(ns, x);
        ExtendedLive(ns, x);
        Extended(ns, x);
        FreeExtended(ns, free, x);
      }
      nAlive := nAlive + 1;
    }

    method AddEdge(from: nat, to: nat, weight: int) returns (rc: int)
      requires Valid()
      modifies this`nodes, this`nEdges
      ensures Valid() && LiveSet(nodes) == LiveSet(old(nodes))
      ensures !Live(old(nodes), from) || !Live(old(nodes), to) ==> rc == -1 && nodes == old(nodes)
      ensures Live(old(nodes), from) && Live(old(nodes), to) ==>
                && rc == (if Arc(old(nodes), from, to) then 0 else 1)
                && Arcs(nodes) == (iset a: (nat, nat, int) | a in Arcs(old(nodes)) && !(a.0 == from && a.1 == to)) + iset{(from, to, weight)}
    {
      hide WellFormed, DegreesExact, FreeExact, LiveSet, EdgeTotal, Arcs, HasTo;
      if !(from < |nodes| && nodes[from].alive) || !(to < |nodes| && nodes[to].alive) {
        return -1;
      }
      ghost var ns := nodes;
      var n := nodes[from];
      var k := FindEdge(n.edges, to);
      if k >= 0 {
        nodes := nodes[from := n.(edges := n.edges[k := Edge(to, weight)])];
        Reweighted(ns, from, k, weight);
        FreeKept(ns, nodes, free);
        return 0;
      }
      nodes := nodes[from := n.(edges := n.edges + [Edge(to, weight)])];
      nodes := nodes[to := nodes[to].(inDeg := nodes[to].inDeg + 1)];
      nEdges := nEdges + 1;
      Linked(ns, from, to, weight);
      FreeKept(ns, nodes, free);
      return 1;
    }

    method DelEdge(from: nat, to: nat) returns (rc: int)
      requires Valid()
      modifies this`nodes, this`nEdges
      ensures Valid() && LiveSet(nodes) == LiveSet(old(nodes))
      ensures rc == if Live(old(nodes), from) && Live(old(nodes), to) && Arc(old(nodes), from, to) then 1 else 0
      ensures Arcs(nodes) == iset a: (nat, nat, int) | a in Arcs(old(nodes)) && !(rc == 1 && a.0 == from && a.1 == to)
    {
      hide WellFormed, DegreesExact, FreeExact, LiveSet, EdgeTotal, Arcs, HasTo;
      if !(from < |nodes| && nodes[from].alive) || !(to < |nodes| && nodes[to].alive) {
        return 0;
      }
      ghost var ns := nodes;
      var n := nodes[from];
      var k := FindEdge(n.edges, to);
      if k < 0 {
        return 0;
      }
      Unlinked(ns, from, k);
      nodes := nodes[from := n.(edges := SwapOut(n.edges, k))];
      nodes := nodes[to := nodes[to].(inDeg := nodes[to].inDeg - 1)];
      nEdges := nEdges - 1;
      FreeKept(ns, nodes, free);
      return 1;
    }

    /** Drops the node, its out-edges and its in-edges; the id goes to the free list. */
    method DelNode(id: nat)
      requires Valid()
      modifies this
      ensures Valid()
      ensures !Live(old(nodes), id) ==> nodes == old(nodes)
      ensures Live(old(nodes), id) ==>
                && LiveSet(nodes) == LiveSet(old(nodes)) - {id}
                && Arcs(nodes) == iset a: (nat, nat, int) | a in Arcs(old(nodes)) && a.0 != id && a.1 != id
    {
      if !(id < |nodes| && nodes[id].alive) {
        return;
      }
      ghost var ns := nodes;
      assert id in LiveSet(ns);
      Unhook(id);
      nAlive := nAlive - 1;
      free := free + [id];
      GoneWellFormed(ns, nodes, id);
      GoneFree(ns, nodes, old(free), id);
      GoneDegrees(ns, nodes, id);
      GoneMeaning(ns, nodes, id);
    }

    method Unhook(id: nat)
      requires Valid() && Live(nodes, id)
      modifies this`nodes, this`nEdges
      ensures NodeGone(old(nodes), nodes, id) && nEdges == EdgeTotal(nodes)
    {
      ghost var ns := nodes;
      DropOutEdges(id);
      SameMeaning(ns, nodes);
      ghost var m1 := nodes;
      RemoveInEdges(id);
      GoneFrom(ns, m1, nodes, id);
      var n := nodes[id];
      TotalUpdate(nodes, id, n.(alive := false, edges := []));
      nEdges := nEdges - |n.edges|;
      nodes := nodes[id := n.(alive := false, edges := [])];
    }

    /** First loop of the deletion: targets of id lose one in-degree each. */
    method DropOutEdges(id: nat)
      requires Valid() && Live(nodes, id)
      modifies this`nodes
      ensures Dropped(old(nodes), nodes, old(nodes)[id].edges)
    {
      ghost var ns := nodes;
      ghost var es := ns[id].edges;
      var i := 0;
      while i < |nodes[id].edges|
        invariant |nodes| == |ns| && nodes[id].edges == es && i <= |es| && Dropped(ns, nodes, es[..i])
      {
        var v := nodes[id].edges[i].to;
        assert Live(ns, v) && id in Preds(ns, v);
        hide WellFormed, DegreesExact, FreeExact, Preds, LiveSet, EdgeTotal;
        assert !HasTo(es[..i], v);
        DropOne(ns, nodes, es, i);
        nodes := nodes[v := nodes[v].(inDeg := nodes[v].inDeg - 1)];
        i := i + 1;
      }
      assert es[..i] == es;
    }

    /** Second loop: every other node loses its edge to id, if it has one. */
    method RemoveInEdges(id: nat)
      requires id < |nodes| && nEdges == EdgeTotal(nodes)
      requires forall u :: 0 <= u < |nodes| ==> DistinctTargets(nodes[u].edges)
      requires forall u :: 0 <= u < |nodes| && !nodes[u].alive ==> nodes[u].edges == []
      modifies this`nodes, this`nEdges
      ensures ScrubbedTo(old(nodes), nodes, id, |nodes|) && nEdges == EdgeTotal(nodes)
    {
      ghost var ns := nodes;
      var i := 0;
      while i < |nodes|
        invariant |nodes| == |ns| && i <= |ns| && ScrubbedTo(ns, nodes, id, i) && nEdges == EdgeTotal(nodes)
      {
        ghost var was := nodes;
        ScrubNode(id, i);
        ScrubStep(ns, was, nodes, id, i);
        i := i + 1;
      }
    }

    method ScrubNode(id: nat, i: nat)
      requires i < |nodes| && nEdges == EdgeTotal(nodes) && DistinctTargets(nodes[i].edges)
      requires !nodes[i].alive ==> nodes[i].edges == []
      modifies this`nodes, this`nEdges
      ensures nEdges == EdgeTotal(nodes) && |nodes| == |old(nodes)|
      ensures nodes == old(nodes)[i := old(nodes)[i].(edges := nodes[i].edges)]
      ensures if i == id then nodes == old(nodes) else Scrubbed(old(nodes)[i].edges, nodes[i].edges, id)
    {
      hide EdgeTotal;
      var n := nodes[i];
      if !n.alive || i == id {
        if i != id { NothingToScrub(n.edges, id); }
        return;
      }
      var k := FindEdge(n.edges, id);
      if k < 0 {
        NothingToScrub(n.edges, id);
        return;
      }
      SwapOutFacts(n.edges, k);
      TotalUpdate(nodes, i, n.(edges := SwapOut(n.edges, k)));
      nodes := nodes[i := n.(edges := SwapOut(n.edges, k))];
      nEdges := nEdges - 1;
    }
  }

  lemma ScrubStep(ns: seq<GNode>, ms: seq<GNode>, ms': seq<GNode>, id: nat, i: nat)
    requires ScrubbedTo(ns, ms, id, i) && i < |ms| == |ms'| && ms' == ms[i := ms[i].(edges := ms'[i].edges)]
    requires if i == id then ms' == ms else Scrubbed(ms[i].edges, ms'[i].edges, id)
    ensures ScrubbedTo(ns, ms', id, i + 1)
  {
    hide Scrubbed;
  }

  lemma NothingToScrub(es: seq<Edge>, id: nat)
    requires DistinctTargets(es) && !HasTo(es, id)
    ensures Scrubbed(es, es, id)
  {
    forall e | e in es ensures e.to != id {
      var k :| 0 <= k < |es| && es[k] == e;
    }
  }
}
