/** A cluster of OR-Set objects that exchange deltas: as long as the fixed capacities suffice, what the objects hold is what
    the nodes of a run of `OrSetSpec` hold. */
module OrSetCluster {
  import CC = CausalContext
  import opened OrSetSpec
  import opened Obj = OrSet

  type ReplicaId = CC.ReplicaId

  /** What a cluster stands for: the meaning of each object, and of each delta produced so far. */
  datatype View = View(states: map<ReplicaId, Replica>, counters: map<ReplicaId, nat>, applied: map<ReplicaId, set<nat>>, log: seq<Delta>)

  ghost predicate Mirrors(v: View, s: System) {
    && s.nodes.Keys == s.counters.Keys == v.states.Keys == v.applied.Keys && s.counters == v.counters && s.log == v.log
    && forall r :: r in v.states ==> s.nodes[r].state == v.states[r] && forall j :: j in s.nodes[r].applied <==> j in v.applied[r]
  }

  /** Replica r is in state st, and has applied one more delta. */
  ghost function Moved(v: View, r: ReplicaId, st: Replica, id: nat): View
    requires r in v.applied
  {
    v.(states := v.states[r := st], applied := v.applied[r := v.applied[r] + {id}])
  }

  lemma AddMirrors(v: View, s: System, r: ReplicaId, k: Key, c: CC.Counter)
    requires Mirrors(v, s) && r in v.states && r in v.counters && c > v.counters[r]
    ensures Enabled(s, LocalAdd(r, k, c))
    ensures var dot := CC.Dot(r, c); var w := Moved(v, r, Added(v.states[r], k, dot), |v.log|);
            Mirrors(w.(counters := v.counters[r := c], log := v.log + [AddDelta(k, iset{dot}, iset{dot})]), Next(s, LocalAdd(r, k, c)))
  {
  }

  lemma RemoveMirrors(v: View, s: System, r: ReplicaId, k: Key)
    requires Mirrors(v, s) && r in v.states
    ensures Enabled(s, LocalRemove(r, k))
    ensures Mirrors(Moved(v, r, Removed(v.states[r], k), |v.log|).(log := v.log + [RemoveDelta(DotsOf(v.states[r], k))]),
                    Next(s, LocalRemove(r, k)))
  {
  }

  lemma DeliverMirrors(v: View, s: System, r: ReplicaId, id: nat)
    requires Mirrors(v, s) && r in v.states && id < |v.log| && id !in v.applied[r]
    ensures Enabled(s, Deliver(r, id)) && Mirrors(Moved(v, r, Merged(v.states[r], v.log[id]), id), Next(s, Deliver(r, id)))
  {
  }

  ghost function Denotes(log: seq<Wire>): (r: seq<Delta>)
    ensures |r| == |log| && forall j :: 0 <= j < |log| ==> r[j] == Denote(log[j])
  {
    if log == [] then [] else Denotes(log[..|log| - 1]) + [Denote(log[|log| - 1])]
  }

  /** What passes between the objects: the last counter each has used, which deltas each has applied, and the deltas. */
  datatype Book = Book(counters: map<ReplicaId, nat>, applied: map<ReplicaId, set<nat>>, log: seq<Wire>)

  ghost function Seen(states: map<ReplicaId, Replica>, b: Book): View {
    View(states, b.counters, b.applied, Denotes(b.log))
  }

  ghost predicate Filed(b: Book, ids: set<ReplicaId>) {
    b.counters.Keys == b.applied.Keys == ids && forall j :: 0 <= j < |b.log| ==> Sendable(b.log[j])
  }

  function Logged(b: Book, r: ReplicaId, delta: Wire): Book
    requires r in b.applied
  {
    b.(applied := b.applied[r := b.applied[r] + {|b.log|}], log := b.log + [delta])
  }

  lemma LoggedMeans(states: map<ReplicaId, Replica>, b: Book, r: ReplicaId, delta: Wire, st: Replica)
    requires Filed(b, states.Keys) && r in states && Sendable(delta)
    ensures Filed(Logged(b, r, delta), states.Keys)
    ensures Seen(states[r := st], Logged(b, r, delta)) ==
            Moved(Seen(states, b), r, st, |b.log|).(log := Denotes(b.log) + [Denote(delta)])
  {
    assert (b.log + [delta])[..|b.log|] == b.log;
  }

  class Cluster {
    var nodes: map<ReplicaId, OrSet>
    ghost var repr: set<object>

    /** Objects are well formed and share nothing. */
    ghost predicate Valid()
      reads this, repr
    {
      && this !in repr
      && (forall r :: r in nodes ==> nodes[r] in repr && nodes[r].cc in repr && nodes[r].Valid())
      && (forall r, q :: r in nodes && q in nodes && r != q ==> nodes[r] != nodes[q] && nodes[r].cc != nodes[q].cc)
    }

    ghost function States(): (m: map<ReplicaId, Replica>)
      reads this, repr
      requires Valid()
      ensures m.Keys == nodes.Keys
    {
      map r | r in nodes :: nodes[r].State()
    }

    lemma StatesMoved(m: map<ReplicaId, Replica>, r: ReplicaId, st: Replica)
      requires Valid() && m.Keys == nodes.Keys && r in nodes && nodes[r].State() == st
      requires forall q :: q in nodes && q != r ==> nodes[q].State() == m[q]
      ensures States() == m[r := st]
    {
      hide OrSet.State, OrSet.Valid;
    }

    constructor ()
      ensures Valid() && fresh(repr) && nodes == map[]
    {
      nodes, repr := map[], {};
    }

    /** One more replica. */
    method Join(r: ReplicaId)
      requires Valid() && r !in nodes
      modifies this
      ensures Valid() && fresh(repr - old(repr)) && States() == old(States())[r := Replica(iset{}, iset{})]
    {
      hide OrSet.State, OrSet.Valid;
      var node := new OrSet();
      Enter(r, node);
    }

    method Enter(r: ReplicaId, node: OrSet)
      requires Valid() && r !in nodes && node !in repr && node.cc !in repr && node.Valid()
      modifies this
      ensures Valid() && repr == old(repr) + {node, node.cc} && States() == old(States())[r := node.State()]
    {
      hide OrSet.State, OrSet.Valid;
      nodes := nodes[r := node];
      repr := repr + {node, node.cc};
    }

    method AddAt(r: ReplicaId, k: Key, c: CC.Counter) returns (delta: Wire)
      requires Valid() && r in nodes && |k| <= KEY_MAX && nodes[r].CanAdd(k, CC.Dot(r, c))
      modifies nodes[r], nodes[r].cc
      ensures Valid() && Sendable(delta) && Denote(delta) == AddDelta(k, iset{CC.Dot(r, c)}, iset{CC.Dot(r, c)})
      ensures States() == old(States())[r := Added(old(States())[r], k, CC.Dot(r, c))]
    {
      hide OrSet.State, OrSet.Valid, OrSet.CanAdd, Denote, Sendable, Added, CC.Room, AddedTo, Live, CC.Dots;
      delta := nodes[r].Add(k, r, c);
      StatesMoved(old(States()), r, Added(old(nodes[r].State()), k, CC.Dot(r, c)));
    }

    method RemoveAt(r: ReplicaId, k: Key) returns (delta: Wire)
      requires Valid() && r in nodes
      modifies nodes[r]
      ensures Valid() && Sendable(delta) && Denote(delta) == RemoveDelta(DotsOf(old(States())[r], k))
      ensures States() == old(States())[r := Removed(old(States())[r], k)]
    {
      hide OrSet.State, OrSet.Valid, Denote, Sendable, Removed, DotsOf;
      delta := nodes[r].Remove(k);
      StatesMoved(old(States()), r, Removed(old(nodes[r].State()), k));
    }

    method ApplyAt(r: ReplicaId, w: Wire)
      requires Valid() && r in nodes && Sendable(w) && nodes[r].CanMerge(w)
      modifies nodes[r], nodes[r].cc
      ensures Valid() && States() == old(States())[r := Merged(old(States())[r], Denote(w))]
    {
      hide OrSet.State, OrSet.Valid, OrSet.CanMerge, Denote, Sendable, Merged, KeysOf;
      nodes[r].Apply(w);
      StatesMoved(old(States()), r, Merged(old(nodes[r].State()), Denote(w)));
    }

    /** A step that the run allows and that loses nothing for want of room. */
    ghost predicate Fits(step: Step, b: Book)
      reads this, repr
      requires Valid() && Filed(b, nodes.Keys)
    {
      && step.at in nodes
      && match step
         case LocalAdd(r, k, c) => |k| <= KEY_MAX && c > b.counters[r] && nodes[r].CanAdd(k, CC.Dot(r, c))
         case LocalRemove(_, _) => true
         case Deliver(r, id) => id < |b.log| && id !in b.applied[r] && nodes[r].CanMerge(b.log[id])
    }

    method Check(step: Step, b: Book) returns (ok: bool)
      requires Valid() && Filed(b, nodes.Keys)
      ensures ok <==> Fits(step, b)
    {
      hide OrSet.State, OrSet.Valid, OrSet.CanMerge, OrSet.CanAdd, Sendable;
      if step.at !in nodes {
        return false;
      }
      match step
      case LocalAdd(r, k, c) =>
        ok := nodes[r].FitsAdd(k, CC.Dot(r, c));
        ok := ok && |k| <= KEY_MAX && c > b.counters[r];
      case LocalRemove(_, _) =>
        ok := true;
      case Deliver(r, id) =>
        if id >= |b.log| || id in b.applied[r] {
          return false;
        }
        ok := nodes[r].FitsMerge(b.log[id]);
    }

    /** Takes a step that fits. */
    method Take(step: Step, b: Book, ghost s: System) returns (b': Book)
      requires Valid() && Filed(b, nodes.Keys) && Mirrors(Seen(States(), b), s) && Fits(step, b)
      modifies repr
      ensures Valid() && Filed(b', nodes.Keys) && Enabled(s, step) && Mirrors(Seen(States(), b'), Next(s, step))
    {
      hide OrSet.State, OrSet.Valid, OrSet.CanMerge, OrSet.CanAdd, Denote, Denotes, Sendable, Mirrors, Next, Enabled, Added, Removed, Merged, DotsOf;
      ghost var m := States();
      match step
      case LocalAdd(r, k, c) =>
        AddMirrors(Seen(m, b), s, r, k, c);
        var delta := AddAt(r, k, c);
        LoggedMeans(m, b, r, delta, Added(m[r], k, CC.Dot(r, c)));
        b' := Logged(b, r, delta).(counters := b.counters[r := c]);
      case LocalRemove(r, k) =>
        RemoveMirrors(Seen(m, b), s, r, k);
        var delta := RemoveAt(r, k);
        LoggedMeans(m, b, r, delta, Removed(m[r], k));
        b' := Logged(b, r, delta);
      case Deliver(r, id) =>
        DeliverMirrors(Seen(m, b), s, r, id);
        ApplyAt(r, b.log[id]);
        b' := b.(applied := b.applied[r := b.applied[r] + {id}]);
    }

    /** Takes steps until one does not fit: the objects then stand for the last state of a run of exactly those steps. */
    method Replay(steps: seq<Step>, b: Book, ghost s: System) returns (n: nat, b': Book, ghost trace: seq<System>)
      requires Valid() && Filed(b, nodes.Keys) && Mirrors(Seen(States(), b), s) && Init(s)
      modifies repr
      ensures Valid() && Filed(b', nodes.Keys)
      ensures n <= |steps| && |trace| == n + 1 && trace[0] == s && IsRun(trace, steps[..n])
      ensures Mirrors(Seen(States(), b'), trace[n])
      ensures n < |steps| ==> !Fits(steps[n], b')
    {
      hide OrSet.State, OrSet.Valid, OrSet.CanMerge, OrSet.CanAdd, Sendable, Mirrors, Next, Enabled, IsRun, Fits, Filed;
      n, b', trace := 0, b, [s];
      RunStart(s, steps);
      while n < |steps|
        invariant Valid() && Filed(b', nodes.Keys)
        invariant n <= |steps| && |trace| == n + 1 && trace[0] == s && IsRun(trace, steps[..n])
        invariant Mirrors(Seen(States(), b'), trace[n])
      {
        var ok := Check(steps[n], b');
        if !ok {
          break;
        }
        ghost var now := trace[n];
        MirrorKeys(Seen(States(), b'), now);
        b' := Take(steps[n], b', now);
        OneStepMore(trace, steps, n);
        trace := trace + [Next(now, steps[n])];
        n := n + 1;
      }
    }
  }

  lemma MirrorKeys(v: View, s: System)
    requires Mirrors(v, s)
    ensures s.counters.Keys == s.nodes.Keys
  {
  }

  lemma RunStart(s: System, steps: seq<Step>)
    requires Init(s)
    ensures IsRun([s], steps[..0])
  {
  }

  lemma OneStepMore(trace: seq<System>, steps: seq<Step>, n: nat)
    requires n < |steps| && |trace| == n + 1 && IsRun(trace, steps[..n])
    requires trace[n].counters.Keys == trace[n].nodes.Keys && Enabled(trace[n], steps[n])
    ensures IsRun(trace + [Next(trace[n], steps[n])], steps[..n + 1])
  {
    var more := trace + [Next(trace[n], steps[n])];
    forall i | 0 <= i < n + 1
      ensures more[i].counters.Keys == more[i].nodes.Keys && Enabled(more[i], steps[..n + 1][i])
      ensures more[i + 1] == Next(more[i], steps[..n + 1][i])
    {
      assert more[i] == trace[i];
      if i < n { assert steps[..n][i] == steps[i]; }
    }
  }

  /** So objects converge: two of them that have applied the same deltas hold the same. */
  method Converge(c: Cluster, steps: seq<Step>, b: Book, x: ReplicaId, y: ReplicaId, ghost s: System) returns (b': Book)
    requires c.Valid() && Filed(b, c.nodes.Keys) && Mirrors(Seen(c.States(), b), s) && Init(s) && x in c.nodes && y in c.nodes
    modifies c.repr
    ensures c.Valid() && Filed(b', c.nodes.Keys)
    ensures b'.applied[x] == b'.applied[y] ==> c.nodes[x].State() == c.nodes[y].State()
  {
    hide OrSet.State, OrSet.Valid, OrSet.CanMerge, OrSet.CanAdd, Sendable, IsRun, Init, Next, Enabled, Denotes;
    var n;
    ghost var trace;
    n, b', trace := c.Replay(steps, b, s);
    if b'.applied[x] == b'.applied[y] {
      SameApplied(Seen(c.States(), b'), trace[n], x, y);
      Convergence(trace, steps[..n], n, x, y);
      assert c.States()[x] == c.States()[y];
    }
  }

  lemma SameApplied(v: View, s: System, a: ReplicaId, b: ReplicaId)
    requires Mirrors(v, s) && a in v.states && b in v.states && v.applied[a] == v.applied[b]
    ensures s.nodes[a].applied == s.nodes[b].applied
  {
  }
}
