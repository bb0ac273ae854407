/** Dijkstra's search with lazy deletion (src/graph.c) over the binary heap of src/pqueue.c: the
    result is the least weight of any walk, in spite of the stale entries left in the queue. */
module ShortestPath {
  import opened Common
  import opened Graph
  import opened TopoSort
  import opened BinaryHeap
  import PQ = PriorityQueue

  const I64_MAX := 0x7FFF_FFFF_FFFF_FFFF

  // ---- reference notions -------------------------------------------------------------

  ghost function ArcWeight(ns: seq<GNode>, u: nat, v: nat): int
    requires Arc(ns, u, v)
  {
    var k :| 0 <= k < |ns[u].edges| && ns[u].edges[k].to == v; ns[u].edges[k].weight
  }

  lemma ArcWeightAt(ns: seq<GNode>, u: nat, k: nat)
    requires WellFormed(ns) && u < |ns| && k < |ns[u].edges|
    ensures Arc(ns, u, ns[u].edges[k].to) && ArcWeight(ns, u, ns[u].edges[k].to) == ns[u].edges[k].weight
  {
    assert DistinctTargets(ns[u].edges);
  }

  ghost predicate NonNegative(ns: seq<GNode>) {
    forall u, k :: 0 <= u < |ns| && 0 <= k < |ns[u].edges| ==> ns[u].edges[k].weight >= 0
  }

  lemma ArcNonNegative(ns: seq<GNode>, u: nat, v: nat)
    requires NonNegative(ns) && Arc(ns, u, v)
    ensures ArcWeight(ns, u, v) >= 0
  {
    var k :| 0 <= k < |ns[u].edges| && ns[u].edges[k].to == v && ns[u].edges[k].weight == ArcWeight(ns, u, v);
  }

  /** Total weight along a walk. */
  ghost function Weight(ns: seq<GNode>, p: seq<nat>): int
    requires IsWalk(ns, p)
  {
    if |p| <= 1 then 0
    else
      Shorter(ns, p);
      Weight(ns, p[..|p| - 1]) + ArcWeight(ns, p[|p| - 2], p[|p| - 1])
  }

  lemma Shorter(ns: seq<GNode>, p: seq<nat>)
    requires IsWalk(ns, p) && |p| >= 2
    ensures IsWalk(ns, p[..|p| - 1]) && Arc(ns, p[|p| - 2], p[|p| - 1])
  {
    assert StepAt(ns, p, |p| - 2);
    var q := p[..|p| - 1];
    forall i | 0 <= i < |q| - 1 ensures StepAt(ns, q, i) {
      assert StepAt(ns, p, i);
    }
  }

  lemma {:induction false} Longer(ns: seq<GNode>, p: seq<nat>, v: nat)
    requires IsWalk(ns, p) && p != [] && Arc(ns, p[|p| - 1], v)
    ensures IsWalk(ns, p + [v]) && Weight(ns, p + [v]) == Weight(ns, p) + ArcWeight(ns, p[|p| - 1], v)
  {
    var q := p + [v];
    forall i | 0 <= i < |q| - 1 ensures StepAt(ns, q, i) {
      if i < |p| - 1 { assert StepAt(ns, p, i); }
    }
    assert q[..|q| - 1] == p;
  }

  /** p leads from a to b. */
  ghost predicate Joins(ns: seq<GNode>, p: seq<nat>, a: nat, b: nat) {
    p != [] && IsWalk(ns, p) && p[0] == a && p[|p| - 1] == b
  }

  /** No simple walk from a weighs as much as the "infinite" distance. */
  ghost predicate SumsFit(ns: seq<GNode>, a: nat) {
    forall p, b :: FitsAlong(ns, p, a, b)
  }

  ghost predicate FitsAlong(ns: seq<GNode>, p: seq<nat>, a: nat, b: nat) {
    Joins(ns, p, a, b) && Distinct(p) ==> Weight(ns, p) < I64_MAX
  }

  lemma {:induction false} WeightNonNegative(ns: seq<GNode>, p: seq<nat>)
    requires NonNegative(ns) && IsWalk(ns, p)
    ensures Weight(ns, p) >= 0
  {
    if |p| >= 2 {
      Shorter(ns, p);
      WeightNonNegative(ns, p[..|p| - 1]);
      ArcNonNegative(ns, p[|p| - 2], p[|p| - 1]);
    }
  }

  /** A prefix of a walk weighs no more. */
  lemma {:induction false} PrefixLighter(ns: seq<GNode>, p: seq<nat>, n: nat)
    requires NonNegative(ns) && IsWalk(ns, p) && n <= |p|
    ensures IsWalk(ns, p[..n]) && Weight(ns, p[..n]) <= Weight(ns, p)
    decreases |p|
  {
    if n == |p| {
      assert p[..n] == p;
    } else if |p| >= 2 {
      Shorter(ns, p);
      PrefixLighter(ns, p[..|p| - 1], n);
      assert p[..|p| - 1][..n] == p[..n];
      ArcNonNegative(ns, p[|p| - 2], p[|p| - 1]);
    } else {
      assert p[..n] == [];
    }
  }

  // ---- the search state --------------------------------------------------------------------

  /** dist, prev and done as in the code; `queue` is the heap's contents; `tree` records for every reached node the
      walk that prev traces. */
  datatype Search = Search(dist: seq<int>, prev: seq<nat>, done: seq<bool>, queue: multiset<PQ.Entry>, tree: map<nat, seq<nat>>)

  ghost predicate Sized(ns: seq<GNode>, s: Search) {
    |s.dist| == |s.prev| == |s.done| == |ns| <= INVALID
  }

  /** The recorded walk to v: simple, through finished nodes, as heavy as dist says, and what prev traces. */
  ghost predicate BranchOk(ns: seq<GNode>, from: nat, s: Search, v: nat)
    requires Sized(ns, s) && v in s.tree
  {
    var p := s.tree[v];
    && v < |ns| && Joins(ns, p, from, v) && Distinct(p) && Weight(ns, p) == s.dist[v]
    && (forall i :: 0 <= i < |p| - 1 ==> p[i] < |ns| && s.done[p[i]])
    && (if v == from then p == [from] && s.prev[v] == INVALID
        else s.prev[v] in s.tree && s.prev[v] < |ns| && s.done[s.prev[v]] && p == s.tree[s.prev[v]] + [v])
  }

  /** Reached nodes are those with a finite distance. */
  ghost predicate Reached(ns: seq<GNode>, from: nat, s: Search)
    requires Sized(ns, s)
  {
    && from in s.tree
    && (forall v: nat :: v in s.tree <==> v < |ns| && s.dist[v] < I64_MAX)
    && (forall v :: 0 <= v < |ns| && s.done[v] ==> v in s.tree)
    && (forall v :: 0 <= v < |ns| ==> s.dist[v] <= I64_MAX)
  }

  ghost predicate Branches(ns: seq<GNode>, from: nat, s: Search)
    requires Sized(ns, s)
  {
    forall v {:trigger BranchOk(ns, from, s, v)} :: v in s.tree ==> BranchOk(ns, from, s, v)
  }

  ghost predicate TreeOk(ns: seq<GNode>, from: nat, s: Search)
    requires Sized(ns, s)
  {
    Reached(ns, from, s) && Branches(ns, from, s)
  }

  /** Every reached unfinished node is queued at its distance; stale entries are only ever too large; nothing queued is
      nearer than a finished node. */
  ghost predicate QueueOk(ns: seq<GNode>, s: Search)
    requires Sized(ns, s)
  {
    && (forall v :: v in s.tree && v < |ns| && !s.done[v] ==> Keyed(s.dist[v], v) in s.queue)
    && (forall e :: e in s.queue ==> e.item in s.tree && e.item < |ns| && e.key >= s.dist[e.item])
    && (forall e, u :: e in s.queue && 0 <= u < |ns| && s.done[u] ==> s.dist[u] <= e.key)
  }

  /** No arc out of u would shorten anything. */
  ghost predicate Settled(ns: seq<GNode>, s: Search, u: nat)
    requires Sized(ns, s)
  {
    forall v: nat :: Arc(ns, u, v) ==> v in s.tree && v < |ns| && s.dist[v] <= s.dist[u] + ArcWeight(ns, u, v)
  }

  /** Between two pops: everything finished is settled. */
  ghost predicate Inv(ns: seq<GNode>, from: nat, s: Search) {
    && Sized(ns, s) && TreeOk(ns, from, s) && QueueOk(ns, s)
    && forall u {:trigger Settled(ns, s, u)} :: 0 <= u < |ns| && s.done[u] ==> Settled(ns, s, u)
  }

  /** While cur's out-edges are being relaxed: the first k of them are. */
  ghost predicate MidInv(ns: seq<GNode>, from: nat, s: Search, cur: nat, k: nat) {
    && Sized(ns, s) && TreeOk(ns, from, s) && QueueOk(ns, s)
    && cur < |ns| && s.done[cur] && k <= |ns[cur].edges|
    && Furthest(ns, s, cur) && OthersSettled(ns, s, cur) && EdgesSettled(ns, s, cur, k)
  }

  /** cur is the furthest finished node. */
  ghost predicate Furthest(ns: seq<GNode>, s: Search, cur: nat)
    requires Sized(ns, s) && cur < |ns|
  {
    forall u :: 0 <= u < |ns| && s.done[u] ==> s.dist[u] <= s.dist[cur]
  }

  ghost predicate OthersSettled(ns: seq<GNode>, s: Search, cur: nat)
    requires Sized(ns, s)
  {
    forall u {:trigger Settled(ns, s, u)} :: 0 <= u < |ns| && s.done[u] && u != cur ==> Settled(ns, s, u)
  }

  ghost predicate EdgesSettled(ns: seq<GNode>, s: Search, cur: nat, k: nat)
    requires Sized(ns, s) && cur < |ns| && k <= |ns[cur].edges|
  {
    forall j :: 0 <= j < k ==> EdgeSettled(ns, s, cur, j)
  }

  ghost predicate EdgeSettled(ns: seq<GNode>, s: Search, u: nat, j: nat)
    requires Sized(ns, s) && u < |ns| && j < |ns[u].edges|
  {
    var e := ns[u].edges[j];
    e.to in s.tree && e.to < |ns| && s.dist[e.to] <= s.dist[u] + e.weight
  }

  lemma Initial(ns: seq<GNode>, from: nat, s: Search)
    requires from < |ns| && Sized(ns, s)
    requires s.queue == multiset{Keyed(0, from)} && s.tree == map[from := [from]]
    requires forall v :: 0 <= v < |ns| ==> s.dist[v] == (if v == from then 0 else I64_MAX) && !s.done[v] && s.prev[v] == INVALID
    ensures Inv(ns, from, s)
  {
    assert IsWalk(ns, [from]) && Weight(ns, [from]) == 0;
  }

  /** Finishing more nodes leaves a branch in order. */
  lemma BranchKept(ns: seq<GNode>, from: nat, s: Search, s': Search, v: nat)
    requires Sized(ns, s) && Sized(ns, s') && v in s.tree && BranchOk(ns, from, s, v)
    requires v in s'.tree && s'.tree[v] == s.tree[v] && s'.dist[v] == s.dist[v] && s'.prev[v] == s.prev[v]
    requires v != from ==> s.prev[v] in s'.tree && s'.tree[s.prev[v]] == s.tree[s.prev[v]]
    requires forall u :: 0 <= u < |ns| && s.done[u] ==> s'.done[u]
    ensures BranchOk(ns, from, s', v)
  {
  }

  lemma TreeKept(ns: seq<GNode>, from: nat, s: Search, s': Search)
    requires Sized(ns, s) && TreeOk(ns, from, s) && Sized(ns, s')
    requires s'.dist == s.dist && s'.prev == s.prev && s'.tree == s.tree
    requires forall u :: 0 <= u < |ns| && s.done[u] ==> s'.done[u]
    requires forall u :: 0 <= u < |ns| && s'.done[u] ==> u in s.tree
    ensures TreeOk(ns, from, s')
  {
    forall v {:trigger BranchOk(ns, from, s', v)} | v in s'.tree ensures BranchOk(ns, from, s', v) {
      assert BranchOk(ns, from, s, v);
      BranchKept(ns, from, s, s', v);
    }
  }

  lemma SettledKept(ns: seq<GNode>, s: Search, s': Search, u: nat)
    requires Sized(ns, s) && Sized(ns, s') && Settled(ns, s, u) && u < |ns| && s'.dist[u] == s.dist[u]
    requires forall v: nat :: v in s.tree && v < |ns| ==> v in s'.tree && s'.dist[v] <= s.dist[v]
    ensures Settled(ns, s', u)
  {
  }

  /** Dropping a stale entry. */
  lemma DropStale(ns: seq<GNode>, from: nat, s: Search, e: PQ.Entry)
    requires Inv(ns, from, s) && e in s.queue && s.done[e.item]
    ensures Inv(ns, from, s.(queue := s.queue - multiset{e}))
  {
    var s' := s.(queue := s.queue - multiset{e});
    TreeKept(ns, from, s, s');
    forall u | 0 <= u < |ns| && s.done[u] ensures Settled(ns, s', u) {
      assert Settled(ns, s, u);
      SettledKept(ns, s, s', u);
    }
  }

  /** A least entry of an unfinished node carries that node's distance. */
  lemma LeastIsExact(ns: seq<GNode>, from: nat, s: Search, e: PQ.Entry)
    requires Inv(ns, from, s) && e in s.queue && !s.done[e.item] && forall f :: f in s.queue ==> e.key <= f.key
    ensures e.key == s.dist[e.item] && e.item in s.tree
  {
    assert Keyed(s.dist[e.item], e.item) in s.queue;
  }

  lemma FinishQueue(ns: seq<GNode>, s: Search, e: PQ.Entry)
    requires Sized(ns, s) && QueueOk(ns, s) && e in s.queue && e.key == s.dist[e.item] && forall f :: f in s.queue ==> e.key <= f.key
    ensures QueueOk(ns, s.(queue := s.queue - multiset{e}, done := s.done[e.item := true]))
  {
  }

  lemma Finish(ns: seq<GNode>, from: nat, s: Search, e: PQ.Entry)
    requires Inv(ns, from, s) && e in s.queue && !s.done[e.item] && forall f :: f in s.queue ==> e.key <= f.key
    ensures MidInv(ns, from, s.(queue := s.queue - multiset{e}, done := s.done[e.item := true]), e.item, 0)
  {
    var s' := s.(queue := s.queue - multiset{e}, done := s.done[e.item := true]);
    LeastIsExact(ns, from, s, e);
    TreeKept(ns, from, s, s');
    FinishQueue(ns, s, e);
    forall u | 0 <= u < |ns| && s'.done[u] && u != e.item ensures Settled(ns, s', u) {
      assert Settled(ns, s, u);
      SettledKept(ns, s, s', u);
    }
  }

  /** An edge that improves nothing. */
  lemma NoGain(ns: seq<GNode>, from: nat, s: Search, cur: nat, k: nat)
    requires WellFormed(ns) && NonNegative(ns) && MidInv(ns, from, s, cur, k) && k < |ns[cur].edges|
    requires var e := ns[cur].edges[k]; e.to < |ns| && (s.done[e.to] || s.dist[cur] + e.weight >= s.dist[e.to])
    requires SumsFit(ns, from)
    ensures MidInv(ns, from, s, cur, k + 1)
  {
    var e := ns[cur].edges[k];
    if !s.done[e.to] {
      BranchFits(ns, from, s, cur, k);
    }
    assert EdgeSettled(ns, s, cur, k);
  }

  /** Extending cur's branch to an unfinished node gives a simple walk, so the new distance is finite. */
  lemma {:induction false} BranchFits(ns: seq<GNode>, from: nat, s: Search, cur: nat, k: nat)
    requires WellFormed(ns) && SumsFit(ns, from)
    requires Sized(ns, s) && TreeOk(ns, from, s) && cur < |ns| && s.done[cur] && k < |ns[cur].edges|
    requires var nb := ns[cur].edges[k].to; nb < |ns| && !s.done[nb]
    ensures var e := ns[cur].edges[k];
            && cur in s.tree && Joins(ns, s.tree[cur] + [e.to], from, e.to) && Distinct(s.tree[cur] + [e.to])
            && Weight(ns, s.tree[cur] + [e.to]) == s.dist[cur] + e.weight < I64_MAX
  {
    var e := ns[cur].edges[k];
    assert BranchOk(ns, from, s, cur);
    var p := s.tree[cur];
    ArcWeightAt(ns, cur, k);
    Longer(ns, p, e.to);
    assert FitsAlong(ns, p + [e.to], from, e.to);
  }

  function Improved(s: Search, cur: nat, nb: nat, nd: int): Search
    requires nb < |s.dist| && nb < |s.prev| && cur in s.tree
  {
    s.(dist := s.dist[nb := nd], prev := s.prev[nb := cur], queue := s.queue + multiset{Keyed(nd, nb)},
       tree := s.tree[nb := s.tree[cur] + [nb]])
  }

  /** The preconditions under which the code overwrites dist and prev of a neighbour. */
  ghost predicate Gain(ns: seq<GNode>, from: nat, s: Search, cur: nat, k: nat) {
    && WellFormed(ns) && NonNegative(ns) && SumsFit(ns, from) && MidInv(ns, from, s, cur, k) && k < |ns[cur].edges|
    && var e := ns[cur].edges[k]; e.to < |ns| && !s.done[e.to] && s.dist[cur] + e.weight < s.dist[e.to]
  }

  lemma NotTheSource(ns: seq<GNode>, from: nat, s: Search, cur: nat, k: nat)
    requires Gain(ns, from, s, cur, k)
    ensures cur in s.tree && ns[cur].edges[k].to != from && s.dist[cur] + ns[cur].edges[k].weight < I64_MAX
  {
    BranchFits(ns, from, s, cur, k);
    assert BranchOk(ns, from, s, cur) && BranchOk(ns, from, s, from);
    WeightNonNegative(ns, s.tree[cur]);
    assert ns[cur].edges[k].weight >= 0;
  }

  /** s' is s after the overwrite. */
  ghost predicate GainTo(ns: seq<GNode>, from: nat, s: Search, s': Search, cur: nat, k: nat) {
    && Gain(ns, from, s, cur, k) && cur in s.tree && ns[cur].edges[k].to != from
    && var e := ns[cur].edges[k]; s' == Improved(s, cur, e.to, s.dist[cur] + e.weight)
  }

  lemma NewBranch(ns: seq<GNode>, from: nat, s: Search, s': Search, cur: nat, k: nat)
    requires GainTo(ns, from, s, s', cur, k)
    ensures Sized(ns, s') && ns[cur].edges[k].to in s'.tree && BranchOk(ns, from, s', ns[cur].edges[k].to)
  {
    hide Joins, Distinct, Weight, WellFormed, NonNegative, SumsFit, QueueOk, Reached, Furthest, OthersSettled, EdgesSettled;
    var e := ns[cur].edges[k];
    BranchFits(ns, from, s, cur, k);
    assert BranchOk(ns, from, s, cur);
    assert forall i :: 0 <= i < |s'.tree[e.to]| - 1 ==> s'.tree[e.to][i] == s.tree[cur][i];
  }

  /** Branches run through finished nodes only, so changing an unfinished one disturbs no other. */
  lemma OldBranch(ns: seq<GNode>, from: nat, s: Search, s': Search, nb: nat, v: nat)
    requires Sized(ns, s) && Sized(ns, s') && v in s.tree && v != nb && BranchOk(ns, from, s, v) && nb < |ns| && !s.done[nb]
    requires s'.done == s.done && nb in s'.tree
    requires s'.tree == s.tree[nb := s'.tree[nb]] && s'.dist == s.dist[nb := s'.dist[nb]] && s'.prev == s.prev[nb := s'.prev[nb]]
    ensures BranchOk(ns, from, s', v)
  {
    BranchKept(ns, from, s, s', v);
  }

  lemma OtherBranches(ns: seq<GNode>, from: nat, s: Search, s': Search, nb: nat)
    requires Sized(ns, s) && Sized(ns, s') && Branches(ns, from, s) && nb < |ns| && !s.done[nb]
    requires s'.done == s.done && nb in s'.tree && BranchOk(ns, from, s', nb)
    requires s'.tree == s.tree[nb := s'.tree[nb]] && s'.dist == s.dist[nb := s'.dist[nb]] && s'.prev == s.prev[nb := s'.prev[nb]]
    ensures Branches(ns, from, s')
  {
    forall v {:trigger BranchOk(ns, from, s', v)} | v in s'.tree ensures BranchOk(ns, from, s', v) {
      if v != nb {
        assert BranchOk(ns, from, s, v);
        OldBranch(ns, from, s, s', nb, v);
      }
    }
  }

  lemma ImprovedReached(ns: seq<GNode>, from: nat, s: Search, s': Search, nb: nat)
    requires Sized(ns, s) && Sized(ns, s') && Reached(ns, from, s) && nb < |ns| && nb in s'.tree && s'.dist[nb] < I64_MAX
    requires s'.done == s.done && s'.tree == s.tree[nb := s'.tree[nb]] && s'.dist == s.dist[nb := s'.dist[nb]]
    ensures Reached(ns, from, s')
  {
    forall v: nat ensures v in s'.tree <==> v < |ns| && s'.dist[v] < I64_MAX {
      assert v in s.tree <==> v < |ns| && s.dist[v] < I64_MAX;
    }
  }

  lemma ImprovedQueue(ns: seq<GNode>, from: nat, s: Search, s': Search, cur: nat, nb: nat)
    requires Sized(ns, s) && Sized(ns, s') && QueueOk(ns, s) && cur < |ns| && s.done[cur] && Furthest(ns, s, cur)
    requires nb < |ns| && !s.done[nb] && nb in s'.tree && s.dist[cur] <= s'.dist[nb] < s.dist[nb]
    requires s'.done == s.done && s'.tree == s.tree[nb := s'.tree[nb]] && s'.dist == s.dist[nb := s'.dist[nb]]
    requires s'.queue == s.queue + multiset{Keyed(s'.dist[nb], nb)}
    ensures QueueOk(ns, s')
  {
  }

  lemma ImprovedOthers(ns: seq<GNode>, s: Search, s': Search, cur: nat, nb: nat)
    requires Sized(ns, s) && Sized(ns, s') && cur < |ns| && s.done[cur] && Furthest(ns, s, cur) && OthersSettled(ns, s, cur)
    requires nb < |ns| && !s.done[nb] && nb in s'.tree && s'.dist[nb] < s.dist[nb]
    requires s'.done == s.done && s'.tree == s.tree[nb := s'.tree[nb]] && s'.dist == s.dist[nb := s'.dist[nb]]
    ensures OthersSettled(ns, s', cur) && Furthest(ns, s', cur)
  {
    forall u {:trigger Settled(ns, s', u)} | 0 <= u < |ns| && s'.done[u] && u != cur ensures Settled(ns, s', u) {
      assert Settled(ns, s, u);
      SettledKept(ns, s, s', u);
    }
  }

  lemma ImprovedEdges(ns: seq<GNode>, s: Search, s': Search, cur: nat, k: nat)
    requires Sized(ns, s) && Sized(ns, s') && cur < |ns| && s.done[cur] && k < |ns[cur].edges| && EdgesSettled(ns, s, cur, k)
    requires var e := ns[cur].edges[k];
             && e.to < |ns| && !s.done[e.to] && e.to in s'.tree && s'.dist[e.to] == s.dist[cur] + e.weight < s.dist[e.to]
             && s'.tree == s.tree[e.to := s'.tree[e.to]] && s'.dist == s.dist[e.to := s'.dist[e.to]]
    ensures EdgesSettled(ns, s', cur, k + 1)
  {
    forall j | 0 <= j < k + 1 ensures EdgeSettled(ns, s', cur, j) {
      if j < k { assert EdgeSettled(ns, s, cur, j); }
    }
  }

  lemma ImprovedAll(ns: seq<GNode>, from: nat, s: Search, s': Search, cur: nat, k: nat)
    requires GainTo(ns, from, s, s', cur, k) && s'.dist[ns[cur].edges[k].to] < I64_MAX
    ensures MidInv(ns, from, s', cur, k + 1)
  {
    var nb := ns[cur].edges[k].to;
    assert ns[cur].edges[k].weight >= 0;
    NewBranch(ns, from, s, s', cur, k);
    OtherBranches(ns, from, s, s', nb);
    ImprovedReached(ns, from, s, s', nb);
    ImprovedQueue(ns, from, s, s', cur, nb);
    ImprovedOthers(ns, s, s', cur, nb);
    ImprovedEdges(ns, s, s', cur, k);
    Assemble(ns, from, s', cur, k + 1);
  }

  lemma Assemble(ns: seq<GNode>, from: nat, s: Search, cur: nat, k: nat)
    requires Sized(ns, s) && Reached(ns, from, s) && Branches(ns, from, s) && QueueOk(ns, s)
    requires cur < |ns| && s.done[cur] && k <= |ns[cur].edges|
    requires Furthest(ns, s, cur) && OthersSettled(ns, s, cur) && EdgesSettled(ns, s, cur, k)
    ensures MidInv(ns, from, s, cur, k)
  {
  }

  lemma EdgesDone(ns: seq<GNode>, from: nat, s: Search, cur: nat)
    requires WellFormed(ns) && cur < |ns| && MidInv(ns, from, s, cur, |ns[cur].edges|)
    ensures Inv(ns, from, s)
  {
    forall v: nat | Arc(ns, cur, v) ensures v in s.tree && v < |ns| && s.dist[v] <= s.dist[cur] + ArcWeight(ns, cur, v) {
      var k :| 0 <= k < |ns[cur].edges| && ns[cur].edges[k].to == v;
      ArcWeightAt(ns, cur, k);
      assert EdgeSettled(ns, s, cur, k);
    }
  }

  /** What looking at an edge to nb, with new distance nd, does to the state. */
  ghost function Relaxed(s: Search, cur: nat, nb: nat, nd: int): Search
    requires nb < |s.dist| && nb < |s.prev| && nb < |s.done| && cur in s.tree
  {
    if s.done[nb] || nd >= s.dist[nb] then s else Improved(s, cur, nb, nd)
  }

  lemma RelaxedKeeps(ns: seq<GNode>, from: nat, s: Search, s': Search, cur: nat, k: nat)
    requires WellFormed(ns) && NonNegative(ns) && SumsFit(ns, from) && MidInv(ns, from, s, cur, k) && k < |ns[cur].edges|
    requires cur in s.tree && ns[cur].edges[k].to < |ns|
    requires var e := ns[cur].edges[k]; s' == Relaxed(s, cur, e.to, s.dist[cur] + e.weight)
    ensures MidInv(ns, from, s', cur, k + 1) && s'.done == s.done && s'.dist[cur] == s.dist[cur]
  {
    var e := ns[cur].edges[k];
    if s.done[e.to] || s.dist[cur] + e.weight >= s.dist[e.to] {
      NoGain(ns, from, s, cur, k);
      assert s' == s;
    } else {
      NotTheSource(ns, from, s, cur, k);
      ImprovedAll(ns, from, s, s', cur, k);
    }
  }

  // ---- why the first arrival at the target is a minimum ---------------------------------------

  /** Along a walk through finished nodes, dist never exceeds the weight so far. */
  lemma {:induction false} AlongFinished(ns: seq<GNode>, from: nat, s: Search, p: seq<nat>, n: nat)
    requires Inv(ns, from, s) && p != [] && IsWalk(ns, p) && p[0] == from && n < |p|
    requires forall i :: 0 <= i < n ==> p[i] < |ns| && s.done[p[i]]
    ensures p[n] in s.tree && p[n] < |ns|
    ensures IsWalk(ns, p[..n + 1]) && s.dist[p[n]] <= Weight(ns, p[..n + 1])
  {
    var q := p[..n + 1];
    forall i | 0 <= i < |q| - 1 ensures StepAt(ns, q, i) {
      assert StepAt(ns, p, i);
    }
    if n == 0 {
      assert q == [from];
      assert BranchOk(ns, from, s, from);
    } else {
      AlongFinished(ns, from, s, p, n - 1);
      assert Settled(ns, s, p[n - 1]);
      assert StepAt(ns, p, n - 1);
      assert q[..n] == p[..n];
    }
  }

  /** A walk to an unfinished node passes through a queued one that is no further than the whole walk is heavy. */
  lemma QueuedOnWalk(ns: seq<GNode>, from: nat, s: Search, p: seq<nat>, to: nat) returns (y: nat)
    requires Inv(ns, from, s) && NonNegative(ns) && Joins(ns, p, from, to) && to < |ns| && !s.done[to]
    ensures y < |ns| && Keyed(s.dist[y], y) in s.queue && s.dist[y] <= Weight(ns, p)
  {
    var n := 0;
    while p[n] < |ns| && s.done[p[n]]
      invariant n < |p| && forall i :: 0 <= i < n ==> p[i] < |ns| && s.done[p[i]]
      decreases |p| - n
    {
      n := n + 1;
    }
    AlongFinished(ns, from, s, p, n);
    PrefixLighter(ns, p, n + 1);
    y := p[n];
  }

  lemma {:induction false} ArrivalIsLeast(ns: seq<GNode>, from: nat, s: Search, to: nat, e: PQ.Entry)
    requires Inv(ns, from, s) && NonNegative(ns) && e in s.queue && e.item == to && !s.done[to]
    requires forall f :: f in s.queue ==> e.key <= f.key
    ensures forall p :: Joins(ns, p, from, to) ==> e.key <= Weight(ns, p)
    ensures e.key < I64_MAX && to in s.tree && Joins(ns, s.tree[to], from, to) && Weight(ns, s.tree[to]) == e.key
  {
    forall p | Joins(ns, p, from, to) ensures e.key <= Weight(ns, p) {
      var y := QueuedOnWalk(ns, from, s, p, to);
    }
    LeastIsExact(ns, from, s, e);
    assert BranchOk(ns, from, s, to);
  }

  lemma NoArrival(ns: seq<GNode>, from: nat, s: Search, to: nat)
    requires Inv(ns, from, s) && NonNegative(ns) && s.queue == multiset{} && to < |ns| && !s.done[to]
    ensures forall p :: !Joins(ns, p, from, to)
  {
    forall p ensures !Joins(ns, p, from, to) {
      if Joins(ns, p, from, to) {
        var y := QueuedOnWalk(ns, from, s, p, to);
      }
    }
  }

  lemma EdgeInRange(ns: seq<GNode>, from: nat, s: Search, cur: nat, i: nat)
    requires WellFormed(ns) && MidInv(ns, from, s, cur, i) && i < |ns[cur].edges|
    ensures cur in s.tree && ns[cur].edges[i].to < |ns|
  {
    assert Live(ns, ns[cur].edges[i].to);
  }

  // ---- the search ---------------------------------------------------------------------------------

  /** The arrays and the queue of one search. */
  class Work {
    const dist: array<int>
    const prev: array<nat>
    const done: array<bool>
    const pq: PQ.PQueue
    ghost var tree: map<nat, seq<nat>>

    ghost predicate Shaped(n: nat)
      reads this, pq, pq.heap
    {
      dist.Length == prev.Length == done.Length == n && pq.Valid()
    }

    ghost function View(): Search
      reads this, dist, prev, done, pq, pq.heap
      requires pq.Valid()
    {
      Search(dist[..], prev[..], done[..], pq.Bag(), tree)
    }

    constructor (n: nat, hint: nat, from: nat)
      requires from < n
      ensures Shaped(n) && fresh(dist) && fresh(prev) && fresh(done) && fresh(pq) && fresh(pq.heap)
      ensures dist[..] == seq(n, v => if v == from then 0 else I64_MAX)
      ensures prev[..] == seq(n, v => INVALID) && done[..] == seq(n, v => false)
      ensures pq.Bag() == multiset{Keyed(0, from)} && tree == map[from := [from]]
    {
      hide Heap;
      dist := new int[n](v => if v == from then 0 else I64_MAX);
      prev := new nat[n](v => INVALID);
      done := new bool[n](v => false);
      var q := new PQ.PQueue(hint);
      q.Push(Keyed(0, from));
      pq := q;
      tree := map[from := [from]];
    }

    /** Records a shorter way to nb through cur. */
    method Overwrite(cur: nat, nb: nat, nd: int)
      requires pq.Valid() && nb < dist.Length && nb < prev.Length && cur in tree
      modifies this, dist, prev, pq, pq.heap
      ensures pq.Valid() && (pq.heap == old(pq.heap) || fresh(pq.heap))
      ensures View() == Improved(old(View()), cur, nb, nd)
    {
      dist[nb] := nd;
      prev[nb] := cur;
      tree := tree[nb := tree[cur] + [nb]];
      pq.Push(Keyed(nd, nb));
    }

    /** Looks at one out-edge of cur. */
    method RelaxEdge(cur: nat, nb: nat, nd: int)
      requires pq.Valid() && nb < dist.Length && nb < prev.Length && nb < done.Length && cur in tree
      modifies this, dist, prev, pq, pq.heap
      ensures pq.Valid() && (pq.heap == old(pq.heap) || fresh(pq.heap))
      ensures View() == Relaxed(old(View()), cur, nb, nd)
    {
      if !done[nb] && nd < dist[nb] {
        Overwrite(cur, nb, nd);
      }
    }

    method RelaxOne(ns: seq<GNode>, ghost from: nat, cur: nat, i: nat, d: int)
      requires WellFormed(ns) && NonNegative(ns) && SumsFit(ns, from) && Shaped(|ns|)
      requires MidInv(ns, from, View(), cur, i) && i < |ns[cur].edges| && View().dist[cur] == d
      modifies this, dist, prev, pq, pq.heap
      ensures Shaped(|ns|) && (pq.heap == old(pq.heap) || fresh(pq.heap))
      ensures MidInv(ns, from, View(), cur, i + 1) && View().done == old(View().done) && View().dist[cur] == d
    {
      hide WellFormed, NonNegative, SumsFit, TreeOk, QueueOk, Furthest, OthersSettled, EdgesSettled, Heap, Relaxed;
      ghost var s := View();
      EdgeInRange(ns, from, s, cur, i);
      RelaxEdge(cur, ns[cur].edges[i].to, d + ns[cur].edges[i].weight);
      RelaxedKeeps(ns, from, s, View(), cur, i);
    }

    /** Looks at all out-edges of a node just finished. */
    method RelaxAll(ns: seq<GNode>, ghost from: nat, cur: nat, d: int)
      requires WellFormed(ns) && NonNegative(ns) && SumsFit(ns, from) && Shaped(|ns|)
      requires MidInv(ns, from, View(), cur, 0) && View().dist[cur] == d
      modifies this, dist, prev, pq, pq.heap
      ensures Shaped(|ns|) && (pq.heap == old(pq.heap) || fresh(pq.heap))
      ensures Inv(ns, from, View()) && View().done == old(View().done)
    {
      var i := 0;
      while i < |ns[cur].edges|
        invariant 0 <= i <= |ns[cur].edges| && Shaped(|ns|) && (pq.heap == old(pq.heap) || fresh(pq.heap))
        invariant MidInv(ns, from, View(), cur, i) && View().done == old(View().done) && View().dist[cur] == d
      {
        RelaxOne(ns, from, cur, i, d);
        i := i + 1;
      }
      EdgesDone(ns, from, View(), cur);
    }

    /** Takes a least entry off the queue; marks its node finished unless it was stale. */
    method TakeLeast(n: nat) returns (e: PQ.Entry, stale: bool)
      requires Shaped(n) && pq.size > 0 && forall f :: f in pq.Bag() ==> f.item < n
      modifies done, pq, pq.heap
      ensures Shaped(n) && (pq.heap == old(pq.heap) || fresh(pq.heap))
      ensures e in old(View().queue) && forall f :: f in old(View().queue) ==> e.key <= f.key
      ensures e.item < n && stale == old(View()).done[e.item]
      ensures var s := old(View());
              View() == s.(queue := s.queue - multiset{e}, done := if stale then s.done else s.done[e.item := true])
    {
      e := PopLeast(n);
      stale := done[e.item];
      if !stale {
        MarkDone(e.item);
      }
    }

    method PopLeast(n: nat) returns (e: PQ.Entry)
      requires Shaped(n) && pq.size > 0 && forall f :: f in pq.Bag() ==> f.item < n
      modifies pq, pq.heap
      ensures Shaped(n) && (pq.heap == old(pq.heap) || fresh(pq.heap))
      ensures e in old(View().queue) && e.item < n && forall f :: f in old(View().queue) ==> e.key <= f.key
      ensures View() == old(View()).(queue := old(View()).queue - multiset{e})
    {
      var r := pq.Pop();
      e := r[0];
    }

    method MarkDone(i: nat)
      requires pq.Valid() && i < done.Length
      modifies done
      ensures pq.Valid() && View() == old(View()).(done := old(View()).done[i := true])
    {
      done[i] := true;
      assert done[..] == old(done[..])[i := true];
    }

    /** One round of the main loop, short of relaxing: a stale entry is dropped, the target ends the search. */
    method Round(ns: seq<GNode>, ghost from: nat, to: nat) returns (arrived: bool, result: int)
      requires WellFormed(ns) && NonNegative(ns) && SumsFit(ns, from) && Shaped(|ns|)
      requires Inv(ns, from, View()) && pq.size > 0 && to < |ns| && !View().done[to]
      modifies this, dist, prev, done, pq, pq.heap
      ensures Shaped(|ns|) && (pq.heap == old(pq.heap) || fresh(pq.heap))
      ensures !arrived ==> Inv(ns, from, View()) && !View().done[to]
      ensures !arrived ==> Open(View().done) < Open(old(View().done)) || (View().done == old(View().done) && |View().queue| < |old(View().queue)|)
      ensures arrived ==> Arrived(ns, from, to, View(), result)
    {
      ghost var s := View();
      var e, stale := TakeLeast(|ns|);
      if stale {
        DropStale(ns, from, s, e);
        return false, 0;
      }
      Finish(ns, from, s, e);
      LeastIsExact(ns, from, s, e);
      if e.item == to {
        ArrivalIsLeast(ns, from, s, to, e);
        return true, e.key;
      }
      OneLessOpen(s.done, e.item);
      RelaxAll(ns, from, e.item, e.key);
      return false, 0;
    }

    /** The main loop. */
    method Run(ns: seq<GNode>, ghost from: nat, to: nat) returns (result: int)
      requires WellFormed(ns) && NonNegative(ns) && SumsFit(ns, from) && Shaped(|ns|)
      requires Inv(ns, from, View()) && to < |ns| && !View().done[to]
      modifies this, dist, prev, done, pq, pq.heap
      ensures Shaped(|ns|)
      ensures result == I64_MAX ==> forall p :: !Joins(ns, p, from, to)
      ensures result != I64_MAX ==> Arrived(ns, from, to, View(), result)
    {
      while pq.size > 0
        invariant Shaped(|ns|) && (pq.heap == old(pq.heap) || fresh(pq.heap))
        invariant Inv(ns, from, View()) && !View().done[to]
        decreases Open(View().done), |View().queue|
      {
        var arrived;
        arrived, result := Round(ns, from, to);
        if arrived {
          return;
        }
      }
      assert pq.Items() == [];
      NoArrival(ns, from, View(), to);
      return I64_MAX;
    }
  }

  /** The search has reached `to`: the distance is least among all walks, and the branch to `to` attains it. */
  ghost predicate Arrived(ns: seq<GNode>, from: nat, to: nat, s: Search, d: int) {
    && Sized(ns, s) && TreeOk(ns, from, s) && to in s.tree && d < I64_MAX
    && Joins(ns, s.tree[to], from, to) && Weight(ns, s.tree[to]) == d
    && forall p :: Joins(ns, p, from, to) ==> d <= Weight(ns, p)
  }

  /** How many nodes are unfinished. */
  function Open(done: seq<bool>): nat {
    if done == [] then 0 else (if done[0] then 0 else 1) + Open(done[1..])
  }

  lemma {:induction false} OneLessOpen(done: seq<bool>, i: nat)
    requires i < |done| && !done[i]
    ensures Open(done[i := true]) < Open(done)
  {
    if i == 0 {
      assert done[0 := true][1..] == done[1..];
    } else {
      OneLessOpen(done[1..], i - 1);
      assert done[i := true][1..] == done[1..][i - 1 := true];
    }
  }

  // ---- the back-trace ------------------------------------------------------------------------------

  /** Prefixes of a branch are the branches of its nodes, so prev steps back along it. */
  lemma {:induction false} BranchPrefix(ns: seq<GNode>, from: nat, s: Search, to: nat, i: nat)
    requires Sized(ns, s) && TreeOk(ns, from, s) && to in s.tree && i < |s.tree[to]|
    ensures s.tree[to][i] in s.tree && s.tree[s.tree[to][i]] == s.tree[to][..i + 1]
    decreases |s.tree[to]| - i
  {
    var t := s.tree[to];
    assert BranchOk(ns, from, s, to);
    if i == |t| - 1 {
      assert t[..i + 1] == t;
    } else {
      BranchPrefix(ns, from, s, to, i + 1);
      var x := t[i + 1];
      assert BranchOk(ns, from, s, x);
      var u := s.prev[x];
      assert BranchOk(ns, from, s, u);
      assert s.tree[u] == t[..i + 2][..i + 1];
      assert t[..i + 2][..i + 1] == t[..i + 1];
      assert u == t[i];
    }
  }

  /** prev leads from t[i] to the node before it, or nowhere from the first. */
  predicate StepsBack(prev: seq<nat>, t: seq<nat>, i: nat)
    requires i < |t|
  {
    t[i] < |prev| && prev[t[i]] == if i == 0 then INVALID else t[i - 1]
  }

  lemma PrevStepsBack(ns: seq<GNode>, from: nat, s: Search, to: nat, i: nat)
    requires Sized(ns, s) && TreeOk(ns, from, s) && to in s.tree && i < |s.tree[to]|
    ensures StepsBack(s.prev, s.tree[to], i)
  {
    var t := s.tree[to];
    BranchPrefix(ns, from, s, to, i);
    assert BranchOk(ns, from, s, t[i]);
    assert BranchOk(ns, from, s, to);
    if i > 0 {
      BranchPrefix(ns, from, s, to, i - 1);
      var u := s.prev[t[i]];
      assert BranchOk(ns, from, s, u);
      assert s.tree[u] == t[..i + 1][..i];
    }
  }

  /** Follows prev back from `to` and writes the walk forwards, keeping its end when it does not fit. */
  method Backtrace(prev: array<nat>, to: nat, path: array<nat>, ghost t: seq<nat>)
    requires t != [] && t[|t| - 1] == to && prev.Length <= INVALID && path != prev
    requires forall i :: 0 <= i < |t| ==> StepsBack(prev[..], t, i)
    modifies path
    ensures var n := if |t| < path.Length then |t| else path.Length; path[..n] == t[|t| - n..]
  {
    var plen, cur := 0, to;
    assert StepsBack(prev[..], t, |t| - 1);
    while cur != INVALID
      invariant plen <= |t| && cur == if plen == |t| then INVALID else t[|t| - 1 - plen]
      invariant plen < |t| ==> cur < INVALID
      decreases |t| - plen
    {
      assert StepsBack(prev[..], t, |t| - 1 - plen);
      plen := plen + 1;
      cur := prev[cur];
      if plen < |t| { assert StepsBack(prev[..], t, |t| - 1 - plen); }
    }
    assert plen == |t|;
    var write := if plen < path.Length then plen else path.Length;
    cur := to;
    var i := write;
    while i > 0
      invariant 0 <= i <= write <= |t| && prev[..] == old(prev[..])
      invariant cur == if write - i == |t| then INVALID else t[|t| - 1 - (write - i)]
      invariant forall j :: i <= j < write ==> path[j] == t[|t| - write + j]
    {
      assert StepsBack(prev[..], t, |t| - 1 - (write - i));
      path[i - 1] := cur;
      cur := prev[cur];
      i := i - 1;
    }
    assert path[..write] == t[|t| - write..];
  }

  /** d is the least weight of a walk from a to b, attained by `walk`; or I64_MAX when there is no walk at all. */
  ghost predicate IsLeast(ns: seq<GNode>, a: nat, b: nat, d: int, walk: seq<nat>) {
    && (d == I64_MAX <==> forall p :: !Joins(ns, p, a, b))
    && (forall p :: Joins(ns, p, a, b) ==> d <= Weight(ns, p))
    && (d != I64_MAX ==> Joins(ns, walk, a, b) && Weight(ns, walk) == d)
  }

  /** op_graph_shortest_path: `path` receives the nodes of a least walk (its last ones when it does not fit). */
  method Shortest(g: Graph, from: nat, to: nat, path: array<nat>) returns (result: int, ghost walk: seq<nat>)
    requires g.Valid() && |g.nodes| <= INVALID
    requires Live(g.nodes, from) && Live(g.nodes, to) ==> NonNegative(g.nodes) && SumsFit(g.nodes, from)
    modifies path
    ensures !Live(g.nodes, from) || !Live(g.nodes, to) ==> result == I64_MAX
    ensures Live(g.nodes, from) && Live(g.nodes, to) ==> IsLeast(g.nodes, from, to, result, walk)
    ensures Live(g.nodes, from) && Live(g.nodes, to) && result != I64_MAX ==>
              var n := if |walk| < path.Length then |walk| else path.Length; path[..n] == walk[|walk| - n..]
  {
    var ns := g.nodes;
    if !(from < |ns| && ns[from].alive) || !(to < |ns| && ns[to].alive) {
      return I64_MAX, [];
    }
    result, walk := Find(ns, g.nAlive, from, to, path);
  }

  method Find(ns: seq<GNode>, nAlive: nat, from: nat, to: nat, path: array<nat>) returns (result: int, ghost walk: seq<nat>)
    requires WellFormed(ns) && |ns| <= INVALID && from < |ns| && to < |ns| && NonNegative(ns) && SumsFit(ns, from)
    modifies path
    ensures IsLeast(ns, from, to, result, walk)
    ensures result != I64_MAX ==> var n := if |walk| < path.Length then |walk| else path.Length; path[..n] == walk[|walk| - n..]
  {
    hide WellFormed, NonNegative, SumsFit, Heap, Inv, Arrived, Joins, Weight, StepsBack, IsLeast;
    var w := new Work(|ns|, nAlive, from);
    Initial(ns, from, w.View());
    result := w.Run(ns, from, to);
    walk := [];
    if result != I64_MAX {
      walk := ArrivedWalk(ns, from, to, w.View(), result);
      Backtrace(w.prev, to, path, walk);
    }
    AnyWalk(ns, from, to, result, walk);
  }

  /** The walk that led to `to`. */
  lemma ArrivedWalk(ns: seq<GNode>, from: nat, to: nat, s: Search, result: int) returns (walk: seq<nat>)
    requires Arrived(ns, from, to, s, result)
    ensures walk != [] && walk[|walk| - 1] == to && forall i :: 0 <= i < |walk| ==> StepsBack(s.prev, walk, i)
    ensures Joins(ns, walk, from, to) && Weight(ns, walk) == result
    ensures forall p :: Joins(ns, p, from, to) ==> result <= Weight(ns, p)
  {
    hide Weight, StepsBack;
    walk := s.tree[to];
    forall i | 0 <= i < |walk| ensures StepsBack(s.prev, walk, i) {
      PrevStepsBack(ns, from, s, to, i);
    }
  }

  lemma {:induction false} AnyWalk(ns: seq<GNode>, from: nat, to: nat, result: int, walk: seq<nat>)
    requires result == I64_MAX ==> forall p :: !Joins(ns, p, from, to)
    requires result != I64_MAX ==> Joins(ns, walk, from, to) && Weight(ns, walk) == result
    requires result != I64_MAX ==> forall p :: Joins(ns, p, from, to) ==> result <= Weight(ns, p)
    ensures IsLeast(ns, from, to, result, walk)
  {
  }
}
