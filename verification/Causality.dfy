/** Runs of a message-passing system and Lamport's happens-before, shared by the two logical clocks.
    Events are numbered in the order of one interleaving; every event may also be a send. */
module Causality {
  /** `now` is the physical clock read at the event; `from` the event at which the received message was sent. */
  datatype Step<+K> = Local(node: K, now: nat) | Receive(node: K, now: nat, from: nat)

  predicate IsRun<K>(run: seq<Step<K>>) {
    forall i :: 0 <= i < |run| && run[i].Receive? ==> run[i].from < i
  }

  /** i precedes j on one node, or j receives what i sent. */
  predicate Direct<K(==)>(run: seq<Step<K>>, i: nat, j: nat) {
    i < j < |run| && (run[i].node == run[j].node || (run[j].Receive? && run[j].from == i))
  }

  predicate LinkAt<K(==)>(run: seq<Step<K>>, p: seq<nat>, k: nat)
    requires k + 1 < |p|
  {
    Direct(run, p[k], p[k + 1])
  }

  /** A causal chain: each event directly precedes the next. */
  ghost predicate IsChain<K>(run: seq<Step<K>>, p: seq<nat>) {
    p != [] && p[0] < |run| && forall k {:trigger LinkAt(run, p, k)} :: 0 <= k < |p| - 1 ==> LinkAt(run, p, k)
  }

  ghost predicate Chain<K>(run: seq<Step<K>>, p: seq<nat>, i: nat, j: nat) {
    IsChain(run, p) && p[0] == i && p[|p| - 1] == j
  }

  ghost predicate HappensBefore<K>(run: seq<Step<K>>, i: nat, j: nat) {
    exists p :: Chain(run, p, i, j) && |p| >= 2
  }

  /** i is j or happens before it. */
  ghost predicate InPast<K>(run: seq<Step<K>>, i: nat, j: nat) {
    (i == j && i < |run|) || HappensBefore(run, i, j)
  }

  /** The last event before i on its node, or -1. */
  function Prev<K(==)>(run: seq<Step<K>>, i: nat): (p: int)
    requires i < |run|
    ensures -1 <= p < i
    ensures p >= 0 ==> run[p].node == run[i].node
    ensures forall j :: p < j < i ==> run[j].node != run[i].node
  {
    PrevFrom(run, run[i].node, i)
  }

  /** The last of the first n events that is on a node, or -1. */
  function PrevFrom<K(==)>(run: seq<Step<K>>, node: K, n: nat): (p: int)
    requires n <= |run|
    ensures -1 <= p < n
    ensures p >= 0 ==> run[p].node == node
    ensures forall j :: p < j < n ==> run[j].node != node
  {
    if n == 0 then -1 else if run[n - 1].node == node then n - 1 else PrevFrom(run, node, n - 1)
  }

  lemma DirectIsChain<K>(run: seq<Step<K>>, i: nat, j: nat)
    requires Direct(run, i, j)
    ensures HappensBefore(run, i, j)
  {
    var p := [i, j];
    assert LinkAt(run, p, 0);
    assert Chain(run, p, i, j);
  }

  lemma Extend<K>(run: seq<Step<K>>, p: seq<nat>, i: nat, j: nat, k: nat)
    requires Chain(run, p, i, j) && Direct(run, j, k)
    ensures Chain(run, p + [k], i, k)
  {
    var q := p + [k];
    forall x | 0 <= x < |q| - 1 ensures LinkAt(run, q, x) {
      if x < |p| - 1 { assert LinkAt(run, p, x); }
    }
  }

  lemma PastExtends<K>(run: seq<Step<K>>, i: nat, j: nat, k: nat)
    requires InPast(run, i, j) && Direct(run, j, k)
    ensures HappensBefore(run, i, k)
  {
    if i == j {
      DirectIsChain(run, i, k);
    } else {
      var p :| Chain(run, p, i, j) && |p| >= 2;
      Extend(run, p, i, j, k);
    }
  }

  lemma {:induction false} ChainAscends<K>(run: seq<Step<K>>, p: seq<nat>)
    requires IsChain(run, p)
    ensures p[0] <= p[|p| - 1] < |run| && (|p| >= 2 ==> p[0] < p[|p| - 1])
    decreases |p|
  {
    if |p| >= 2 {
      Shorter(run, p);
      ChainAscends(run, p[..|p| - 1]);
      assert LinkAt(run, p, |p| - 2);
    }
  }

  lemma Shorter<K>(run: seq<Step<K>>, p: seq<nat>)
    requires IsChain(run, p) && |p| >= 2
    ensures IsChain(run, p[..|p| - 1])
  {
    var q := p[..|p| - 1];
    forall x | 0 <= x < |q| - 1 ensures LinkAt(run, q, x) {
      assert LinkAt(run, p, x);
    }
  }

  lemma BeforeAscends<K>(run: seq<Step<K>>, i: nat, j: nat)
    requires HappensBefore(run, i, j)
    ensures i < j < |run|
  {
    var p :| Chain(run, p, i, j) && |p| >= 2;
    ChainAscends(run, p);
  }

  /** The last link of whatever makes i happen before j. */
  lemma LastLink<K>(run: seq<Step<K>>, i: nat, j: nat) returns (m: nat)
    requires HappensBefore(run, i, j)
    ensures InPast(run, i, m) && Direct(run, m, j)
  {
    var p :| Chain(run, p, i, j) && |p| >= 2;
    ChainAscends(run, p);
    m := p[|p| - 2];
    assert LinkAt(run, p, |p| - 2);
    Shorter(run, p);
    var q := p[..|p| - 1];
    ChainAscends(run, q);
    assert Chain(run, q, i, m);
  }

  // ---- the exact vector clock -----------------------------------------------------------------

  /** How many of the first n events are on a node. */
  function CountOn<K(==)>(run: seq<Step<K>>, node: K, n: nat): (c: nat)
    requires n <= |run|
    ensures c <= n
  {
    if n == 0 then 0 else CountOn(run, node, n - 1) + if run[n - 1].node == node then 1 else 0
  }

  lemma {:induction false} CountGrows<K>(run: seq<Step<K>>, node: K, m: nat, n: nat)
    requires m <= n <= |run|
    ensures CountOn(run, node, m) <= CountOn(run, node, n)
    ensures (forall j :: m <= j < n ==> run[j].node != node) ==> CountOn(run, node, m) == CountOn(run, node, n)
    ensures m < n && run[n - 1].node == node ==> CountOn(run, node, m) < CountOn(run, node, n)
    decreases n
  {
    if m < n { CountGrows(run, node, m, n - 1); }
  }

  function Max(a: nat, b: nat): nat {
    if a >= b then a else b
  }

  /** Events on `node` in the causal past of event i (i included), or nothing when i is -1. */
  function Known<K(==)>(run: seq<Step<K>>, i: int, node: K): nat
    requires IsRun(run) && -1 <= i < |run|
    decreases i + 1
  {
    if i < 0 then 0 else
      var mine := Known(run, Prev(run, i), node);
      var heard := if run[i].Receive? then Max(mine, Known(run, run[i].from, node)) else mine;
      heard + if node == run[i].node then 1 else 0
  }

  lemma {:induction false} KnownBound<K>(run: seq<Step<K>>, i: int, node: K)
    requires IsRun(run) && -1 <= i < |run|
    ensures Known(run, i, node) <= CountOn(run, node, i + 1)
    decreases i + 1
  {
    if i >= 0 {
      var p := Prev(run, i);
      KnownBound(run, p, node);
      CountGrows(run, node, p + 1, i);
      if run[i].Receive? {
        KnownBound(run, run[i].from, node);
        CountGrows(run, node, run[i].from + 1, i);
      }
    }
  }

  /** A node knows all its own events. */
  lemma {:induction false} KnowsOwn<K>(run: seq<Step<K>>, i: nat)
    requires IsRun(run) && i < |run|
    ensures Known(run, i, run[i].node) == CountOn(run, run[i].node, i + 1)
    decreases i
  {
    var k := run[i].node;
    var p := Prev(run, i);
    if p >= 0 { KnowsOwn(run, p); }
    CountGrows(run, k, p + 1, i);
    KnownBound(run, i, k);
  }

  lemma {:induction false} PrevIsLatest<K>(run: seq<Step<K>>, i: nat, j: nat, node: K)
    requires IsRun(run) && Direct(run, i, j)
    ensures Known(run, i, node) <= Known(run, j, node)
    decreases j
  {
    if run[i].node == run[j].node {
      var p := Prev(run, j);
      assert p >= i;
      if p > i { PrevIsLatest(run, i, p, node); }
    }
  }

  lemma {:induction false} KnownGrows<K>(run: seq<Step<K>>, p: seq<nat>, node: K)
    requires IsRun(run) && IsChain(run, p)
    ensures p[|p| - 1] < |run| && Known(run, p[0], node) <= Known(run, p[|p| - 1], node)
    decreases |p|
  {
    ChainAscends(run, p);
    if |p| >= 2 {
      Shorter(run, p);
      KnownGrows(run, p[..|p| - 1], node);
      assert LinkAt(run, p, |p| - 2);
      PrevIsLatest(run, p[|p| - 2], p[|p| - 1], node);
    }
  }

  /** Knowing as many events of i's node as i itself counts means having i in the past. */
  lemma {:induction false} KnownMeansPast<K>(run: seq<Step<K>>, i: nat, j: nat)
    requires IsRun(run) && i < |run| && j < |run| && Known(run, j, run[i].node) >= CountOn(run, run[i].node, i + 1)
    ensures InPast(run, i, j)
    decreases j
  {
    var k := run[i].node;
    CountGrows(run, k, i, i + 1);
    if run[j].node == k {
      KnowsOwn(run, j);
      if j < i { CountGrows(run, k, j + 1, i + 1); }
      if i < j { DirectIsChain(run, i, j); }
    } else {
      var p := Prev(run, j);
      if Known(run, p, k) >= CountOn(run, k, i + 1) {
        KnownMeansPast(run, i, p);
        PastExtends(run, i, p, j);
      } else {
        var f := run[j].from;
        KnownMeansPast(run, i, f);
        PastExtends(run, i, f, j);
      }
    }
  }

  ghost predicate KnowsLess<K(!new)>(run: seq<Step<K>>, i: nat, j: nat)
    requires IsRun(run) && i < |run| && j < |run|
  {
    forall node :: Known(run, i, node) <= Known(run, j, node)
  }

  /** The exact counts are ordered just like the events. */
  lemma KnownIsCausality<K(!new)>(run: seq<Step<K>>, i: nat, j: nat)
    requires IsRun(run) && i < |run| && j < |run|
    ensures KnowsLess(run, i, j) <==> InPast(run, i, j)
  {
    if KnowsLess(run, i, j) {
      KnowsOwn(run, i);
      KnownMeansPast(run, i, j);
    }
    if HappensBefore(run, i, j) {
      var p :| Chain(run, p, i, j) && |p| >= 2;
      forall node ensures Known(run, i, node) <= Known(run, j, node) {
        KnownGrows(run, p, node);
      }
    }
  }
}
