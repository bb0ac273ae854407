/** Hybrid logical clocks of include/op_hlc.h: one 64-bit word packing 48 bits of wall clock over 16 bits of logical
    clock. */
module Hlc {
  import opened Causality

  const U16 := 0x1_0000
  const U48 := 0x1_0000_0000_0000
  const U64 := 0x1_0000_0000_0000_0000

  type Ts = t: nat | t < U64

  function Wall(t: Ts): (w: nat)
    ensures w < U48
  {
    t / U16
  }

  function Logical(t: Ts): (l: nat)
    ensures l < U16
  {
    t % U16
  }

  /** The shift drops what does not fit 48 bits; the low 16 bits are free for the logical part. */
  function Pack(wall: nat, logical: nat): (t: Ts)
    requires logical < U16
    ensures Wall(t) == wall % U48 && Logical(t) == logical
  {
    (wall % U48) * U16 + logical
  }

  /** Packed words compare like (wall, logical) pairs. */
  lemma Lexicographic(a: Ts, b: Ts)
    ensures a < b <==> Wall(a) < Wall(b) || (Wall(a) == Wall(b) && Logical(a) < Logical(b))
  {
    assert a == Wall(a) * U16 + Logical(a) && b == Wall(b) * U16 + Logical(b);
  }

  function Cmp(a: Ts, b: Ts): (r: int)
    ensures r < 0 <==> Wall(a) < Wall(b) || (Wall(a) == Wall(b) && Logical(a) < Logical(b))
    ensures r == 0 <==> a == b
  {
    Lexicographic(a, b);
    Lexicographic(b, a);
    if a < b then -1 else if a > b then 1 else 0
  }

  function Ticked(t: Ts, now: nat): Ts {
    if now > Wall(t) then Pack(now, 0) else Pack(Wall(t), (Logical(t) + 1) % U16)
  }

  function Top(t: Ts, now: nat, remote: Ts): nat {
    Max(Max(now, Wall(t)), Wall(remote))
  }

  function Received(t: Ts, now: nat, remote: Ts): Ts {
    var wall := Top(t, now, remote);
    var log :=
      if wall == Wall(t) && wall == Wall(remote) then (Max(Logical(t), Logical(remote)) + 1) % U16
      else if wall == Wall(t) then (Logical(t) + 1) % U16
      else if wall == Wall(remote) then (Logical(remote) + 1) % U16
      else 0;
    Pack(wall, log)
  }

  class Clock {
    var ts: Ts

    constructor ()
      ensures ts == 0
    {
      ts := 0;
    }

    method Tick(now: nat) returns (t: Ts)
      requires now < U64
      modifies this
      ensures t == ts == Ticked(old(ts), now)
    {
      var wall := Wall(ts);
      if now > wall {
        ts := Pack(now, 0);
      } else {
        ts := Pack(wall, (Logical(ts) + 1) % U16);
      }
      return ts;
    }

    method Recv(now: nat, remote: Ts) returns (t: Ts)
      requires now < U64
      modifies this
      ensures t == ts == Received(old(ts), now, remote)
    {
      var lWall, rWall := Wall(ts), Wall(remote);
      var lLog, rLog := Logical(ts), Logical(remote);
      var wall := now;
      if lWall > wall { wall := lWall; }
      if rWall > wall { wall := rWall; }
      var log;
      if wall == lWall && wall == rWall {
        log := ((if lLog > rLog then lLog else rLog) + 1) % U16;
      } else if wall == lWall {
        log := (lLog + 1) % U16;
      } else if wall == rWall {
        log := (rLog + 1) % U16;
      } else {
        log := 0;
      }
      ts := Pack(wall, log);
      return ts;
    }
  }

  // ---- when one step moves the clock forward --------------------------------------------------

  /** A tick fails to move forward exactly when the logical part wraps, or the clock read does not fit 48 bits and what
      is left of it is not ahead. */
  lemma TickAdvances(t: Ts, now: nat)
    ensures Ticked(t, now) > t <==> if now > Wall(t) then now % U48 > Wall(t) else Logical(t) != U16 - 1
  {
    Lexicographic(t, Ticked(t, now));
  }

  /** The logical part that a step at this wall time builds on is not at its maximum. */
  predicate Clear(t: Ts, wall: nat) {
    Wall(t) == wall ==> Logical(t) != U16 - 1
  }

  predicate ClearForTick(t: Ts, now: nat) {
    Clear(t, Max(now, Wall(t)))
  }

  predicate ClearForReceive(t: Ts, now: nat, remote: Ts) {
    Clear(t, Top(t, now, remote)) && Clear(remote, Top(t, now, remote))
  }

  lemma TickLogical(t: Ts, now: nat)
    ensures Logical(Ticked(t, now)) <= Logical(t) + 1
  {
  }

  lemma ReceiveLogical(t: Ts, now: nat, remote: Ts)
    ensures Logical(Received(t, now, remote)) <= Max(Logical(t), Logical(remote)) + 1
  {
  }

  lemma TickClears(t: Ts, now: nat)
    requires now < U48
    ensures Ticked(t, now) > t <==> ClearForTick(t, now)
    ensures Wall(Ticked(t, now)) == Max(now, Wall(t))
  {
    TickAdvances(t, now);
  }

  lemma ReceiveClears(t: Ts, now: nat, remote: Ts)
    requires now < U48
    ensures Received(t, now, remote) > t && Received(t, now, remote) > remote <==> ClearForReceive(t, now, remote)
    ensures Wall(Received(t, now, remote)) == Max(Max(now, Wall(t)), Wall(remote))
  {
    Lexicographic(t, Received(t, now, remote));
    Lexicographic(remote, Received(t, now, remote));
  }

  // ---- runs -------------------------------------------------------------------------------------

  /** The timestamp of event i; 0 before a node's first event. */
  function TsAt<K(==)>(run: seq<Step<K>>, i: int): Ts
    requires IsRun(run) && -1 <= i < |run|
    decreases i + 1
  {
    if i < 0 then 0
    else
      var mine := TsAt(run, Prev(run, i));
      if run[i].Receive? then Received(mine, run[i].now, TsAt(run, run[i].from)) else Ticked(mine, run[i].now)
  }

  predicate ClocksFit<K>(run: seq<Step<K>>) {
    forall i :: 0 <= i < |run| ==> run[i].now < U48
  }

  /** Event i does not build on an exhausted logical part. */
  predicate NoWrap<K(==)>(run: seq<Step<K>>, i: nat)
    requires IsRun(run) && i < |run|
  {
    var mine := TsAt(run, Prev(run, i));
    if run[i].Receive? then ClearForReceive(mine, run[i].now, TsAt(run, run[i].from))
    else ClearForTick(mine, run[i].now)
  }

  /** The largest physical clock read in the causal past. */
  function MaxNow<K(==)>(run: seq<Step<K>>, i: int): nat
    requires IsRun(run) && -1 <= i < |run|
    decreases i + 1
  {
    if i < 0 then 0
    else
      var m := Max(run[i].now, MaxNow(run, Prev(run, i)));
      if run[i].Receive? then Max(m, MaxNow(run, run[i].from)) else m
  }

  lemma {:induction false} MaxNowWitness<K(!new)>(run: seq<Step<K>>, i: nat) returns (j: nat)
    requires IsRun(run) && i < |run|
    ensures j < |run| && InPast(run, j, i) && run[j].now == MaxNow(run, i)
    decreases i
  {
    var p := Prev(run, i);
    if MaxNow(run, i) == run[i].now {
      j := i;
    } else if p >= 0 && MaxNow(run, i) == MaxNow(run, p) {
      j := MaxNowWitness(run, p);
      PastExtends(run, j, p, i);
      BeforeAscends(run, j, i);
    } else {
      j := MaxNowWitness(run, run[i].from);
      PastExtends(run, j, run[i].from, i);
      BeforeAscends(run, j, i);
    }
  }

  /** The wall part is exactly the largest clock read in the past, so it is never ahead of every clock. */
  lemma {:induction false} WallIsMaxNow<K(!new)>(run: seq<Step<K>>, i: int)
    requires IsRun(run) && ClocksFit(run) && -1 <= i < |run|
    ensures Wall(TsAt(run, i)) == MaxNow(run, i) < U48
    decreases i + 1
  {
    hide Received, Ticked, Wall;
    assert Wall(0) == 0 by { WallZero(); }
    if i >= 0 {
      var p := Prev(run, i);
      WallIsMaxNow(run, p);
      assert run[i].now < U48;
      if run[i].Receive? {
        WallIsMaxNow(run, run[i].from);
        ReceiveClears(TsAt(run, p), run[i].now, TsAt(run, run[i].from));
      } else {
        TickClears(TsAt(run, p), run[i].now);
      }
    }
  }

  /** A direct predecessor has read nothing larger. */
  lemma {:induction false} MaxNowGrows<K(!new)>(run: seq<Step<K>>, i: nat, j: nat)
    requires IsRun(run) && Direct(run, i, j)
    ensures MaxNow(run, i) <= MaxNow(run, j)
    decreases j
  {
    if run[i].node == run[j].node {
      var p := Prev(run, j);
      assert p >= i;
      if p > i { MaxNowGrows(run, i, p); }
    }
  }

  lemma {:induction false} MaxNowBounds<K(!new)>(run: seq<Step<K>>, j: nat, i: nat)
    requires IsRun(run) && i < |run| && InPast(run, j, i)
    ensures j < |run| && run[j].now <= MaxNow(run, i)
    decreases i
  {
    if j != i {
      var m := LastLink(run, j, i);
      MaxNowBounds(run, j, m);
      MaxNowGrows(run, m, i);
    }
  }

  /** The wall part of an event is the largest physical clock read in its causal past: read there, and nothing larger was. */
  lemma WallIsLargestRead<K(!new)>(run: seq<Step<K>>, i: nat) returns (j: nat)
    requires IsRun(run) && ClocksFit(run) && i < |run|
    ensures InPast(run, j, i) && j < |run| && Wall(TsAt(run, i)) == run[j].now
    ensures forall k: nat :: InPast(run, k, i) ==> k < |run| && run[k].now <= Wall(TsAt(run, i))
  {
    hide Wall, InPast;
    WallIsMaxNow(run, i);
    j := MaxNowWitness(run, i);
    forall k: nat | InPast(run, k, i) ensures k < |run| && run[k].now <= Wall(TsAt(run, i)) {
      MaxNowBounds(run, k, i);
    }
  }

  lemma WallZero()
    ensures Wall(0) == 0 && Logical(0) == 0
  {
  }

  /** The number of events on the longest chain ending at i. */
  function Depth<K(==)>(run: seq<Step<K>>, i: int): nat
    requires IsRun(run) && -1 <= i < |run|
    decreases i + 1
  {
    if i < 0 then 0
    else
      var d := Depth(run, Prev(run, i));
      1 + if run[i].Receive? then Max(d, Depth(run, run[i].from)) else d
  }

  lemma {:induction false} DepthGrows<K(!new)>(run: seq<Step<K>>, i: nat, j: nat)
    requires IsRun(run) && Direct(run, i, j)
    ensures Depth(run, i) < Depth(run, j)
    decreases j
  {
    if run[i].node == run[j].node {
      var p := Prev(run, j);
      assert p >= i;
      if p > i { DepthGrows(run, i, p); }
    }
  }

  lemma {:induction false} DepthBoundsChains<K(!new)>(run: seq<Step<K>>, p: seq<nat>)
    requires IsRun(run) && IsChain(run, p)
    ensures p[|p| - 1] < |run| && |p| <= Depth(run, p[|p| - 1])
    decreases |p|
  {
    ChainAscends(run, p);
    if |p| >= 2 {
      Shorter(run, p);
      DepthBoundsChains(run, p[..|p| - 1]);
      assert LinkAt(run, p, |p| - 2);
      DepthGrows(run, p[|p| - 2], p[|p| - 1]);
    }
  }

  lemma {:induction false} DepthIsAChain<K(!new)>(run: seq<Step<K>>, i: nat) returns (p: seq<nat>)
    requires IsRun(run) && i < |run|
    ensures IsChain(run, p) && p[|p| - 1] == i && |p| == Depth(run, i)
    decreases i
  {
    var q := Prev(run, i);
    var m := if run[i].Receive? && Depth(run, run[i].from) > Depth(run, q) then run[i].from else q;
    if m < 0 {
      p := [i];
    } else {
      p := DepthIsAChain(run, m);
      Extend(run, p, p[0], m, i);
      p := p + [i];
    }
  }

  /** The logical part never exceeds the longest causal chain. */
  lemma {:induction false} LogicalBound<K(!new)>(run: seq<Step<K>>, i: int)
    requires IsRun(run) && -1 <= i < |run|
    ensures Logical(TsAt(run, i)) <= Depth(run, i)
    decreases i + 1
  {
    hide Received, Ticked, Logical;
    WallZero();
    if i >= 0 {
      var p := Prev(run, i);
      LogicalBound(run, p);
      if run[i].Receive? {
        LogicalBound(run, run[i].from);
        ReceiveLogical(TsAt(run, p), run[i].now, TsAt(run, run[i].from));
      } else {
        TickLogical(TsAt(run, p), run[i].now);
      }
    }
  }

  lemma {:induction false} StepAdvances<K(!new)>(run: seq<Step<K>>, i: nat)
    requires IsRun(run) && ClocksFit(run) && i < |run|
    ensures NoWrap(run, i) <==>
            TsAt(run, i) > TsAt(run, Prev(run, i)) && (run[i].Receive? ==> TsAt(run, i) > TsAt(run, run[i].from))
  {
    hide Received, Ticked, ClearForTick, ClearForReceive, Wall, Logical;
    var mine := TsAt(run, Prev(run, i));
    assert run[i].now < U48;
    if run[i].Receive? {
      ReceiveClears(mine, run[i].now, TsAt(run, run[i].from));
    } else {
      TickClears(mine, run[i].now);
    }
  }

  lemma {:induction false} DirectAdvances<K(!new)>(run: seq<Step<K>>, i: nat, j: nat)
    requires IsRun(run) && ClocksFit(run) && Direct(run, i, j) && forall k :: 0 <= k < |run| ==> NoWrap(run, k)
    ensures TsAt(run, i) < TsAt(run, j)
    decreases j
  {
    StepAdvances(run, j);
    if run[i].node == run[j].node {
      var p := Prev(run, j);
      assert p >= i;
      if p > i { DirectAdvances(run, i, p); }
    }
  }

  lemma {:induction false} ChainAdvances<K(!new)>(run: seq<Step<K>>, p: seq<nat>)
    requires IsRun(run) && ClocksFit(run) && IsChain(run, p) && forall k :: 0 <= k < |run| ==> NoWrap(run, k)
    ensures p[|p| - 1] < |run| && TsAt(run, p[0]) <= TsAt(run, p[|p| - 1]) && (|p| >= 2 ==> TsAt(run, p[0]) < TsAt(run, p[|p| - 1]))
    decreases |p|
  {
    hide NoWrap, TsAt;
    ChainAscends(run, p);
    if |p| >= 2 {
      Shorter(run, p);
      ChainAdvances(run, p[..|p| - 1]);
      assert LinkAt(run, p, |p| - 2);
      DirectAdvances(run, p[|p| - 2], p[|p| - 1]);
    }
  }

  /** Causality shows in the timestamps. */
  ghost predicate Ordered<K(!new)>(run: seq<Step<K>>)
    requires IsRun(run)
  {
    forall i, j :: 0 <= i < |run| && 0 <= j < |run| && HappensBefore(run, i, j) ==> TsAt(run, i) < TsAt(run, j)
  }

  /** Events happen in timestamp order if and only if no step builds on an exhausted logical part. */
  lemma OrderedIffNoWrap<K(!new)>(run: seq<Step<K>>)
    requires IsRun(run) && ClocksFit(run)
    ensures Ordered(run) <==> forall k :: 0 <= k < |run| ==> NoWrap(run, k)
  {
    if forall k :: 0 <= k < |run| ==> NoWrap(run, k) {
      forall i, j | 0 <= i < |run| && 0 <= j < |run| && HappensBefore(run, i, j) ensures TsAt(run, i) < TsAt(run, j) {
        var p :| Chain(run, p, i, j) && |p| >= 2;
        ChainAdvances(run, p);
      }
    } else {
      var k :| 0 <= k < |run| && !NoWrap(run, k);
      WrapBreaksOrder(run, k);
    }
  }

  lemma WrapBreaksOrder<K(!new)>(run: seq<Step<K>>, k: nat)
    requires IsRun(run) && ClocksFit(run) && k < |run| && !NoWrap(run, k)
    ensures !Ordered(run)
  {
    StepAdvances(run, k);
    var p := Prev(run, k);
    if p >= 0 && TsAt(run, k) <= TsAt(run, p) {
      DirectIsChain(run, p, k);
    } else {
      assert run[k].Receive? && TsAt(run, k) <= TsAt(run, run[k].from);
      DirectIsChain(run, run[k].from, k);
    }
  }

  /** With fewer than 65536 events on any causal chain nothing wraps, so happens-before shows in the timestamps. */
  lemma ShortChainsOrdered<K(!new)>(run: seq<Step<K>>)
    requires IsRun(run) && ClocksFit(run) && forall p :: IsChain(run, p) ==> |p| < U16
    ensures Ordered(run)
  {
    forall k | 0 <= k < |run| ensures NoWrap(run, k) {
      LogicalBound(run, Prev(run, k));
      var p := DepthIsAChain(run, k);
      if run[k].Receive? { LogicalBound(run, run[k].from); }
    }
    OrderedIffNoWrap(run);
  }

  // ---- 65536 events at one clock reading --------------------------------------------------------

  function Stalled(n: nat): seq<Step<nat>> {
    seq(n, i => Local(0, 0))
  }

  lemma {:induction false} StalledTs(n: nat, i: nat)
    requires i < n && i < U16 - 1
    ensures IsRun(Stalled(n)) && TsAt(Stalled(n), i) == i + 1
  {
    hide Ticked;
    var run := Stalled(n);
    assert Prev(run, i) == i - 1;
    if i > 0 { StalledTs(n, i - 1); }
    StalledTick(i);
  }

  lemma StalledTick(t: nat)
    requires t < U16 - 1
    ensures Ticked(t, 0) == t + 1
  {
  }

  /** A node that ticks 65536 times while its physical clock stands still gives its last event a smaller timestamp than
      the one before it. */
  lemma StallWraps()
    ensures var run := Stalled(U16); IsRun(run) && ClocksFit(run) && !Ordered(run)
  {
    var run := Stalled(U16);
    StalledTs(U16, U16 - 2);
    assert Prev(run, U16 - 1) == U16 - 2;
    assert TsAt(run, U16 - 1) < TsAt(run, U16 - 2);
    DirectIsChain(run, U16 - 2, U16 - 1);
  }
}
