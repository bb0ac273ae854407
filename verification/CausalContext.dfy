/** The compressed causal context of include/op_crdt.h: per replica the largest
    counter below which everything was observed, plus a small overflow list of
    dots above that frontier.  Its meaning is the set of dots it covers. */
module CausalContext {
  const MAX_REPLICAS := 32
  const MAX_OVERFLOW := 64

  /** The first eight bytes of a server key; only ever compared for equality. */
  type ReplicaId = k: nat | k < 0x1_0000_0000_0000_0000
  type Counter = n: nat | n >= 1 witness 1

  datatype Dot = Dot(replica: ReplicaId, counter: Counter)
  datatype Frontier = Frontier(replica: ReplicaId, max: nat)
  datatype Context = Context(entries: seq<Frontier>, overflow: seq<Dot>)

  const EMPTY := Context([], [])

  ghost predicate Knows(cc: Context, r: ReplicaId) {
    exists i :: 0 <= i < |cc.entries| && cc.entries[i].replica == r
  }

  /** One frontier per replica, overflow dots only for known replicas, and both lists within their fixed arrays. */
  ghost predicate Valid(cc: Context) {
    && |cc.entries| <= MAX_REPLICAS
    && |cc.overflow| <= MAX_OVERFLOW
    && (forall i, j :: 0 <= i < j < |cc.entries| ==> cc.entries[i].replica != cc.entries[j].replica)
    && (forall d :: d in cc.overflow ==> Knows(cc, d.replica))
  }

  ghost predicate Covered(cc: Context, d: Dot) {
    exists i :: 0 <= i < |cc.entries| && cc.entries[i].replica == d.replica && d.counter <= cc.entries[i].max
  }

  ghost predicate Has(cc: Context, d: Dot) {
    Covered(cc, d) || d in cc.overflow
  }

  /** What the context denotes. */
  ghost function Dots(cc: Context): iset<Dot> {
    iset d: Dot | Has(cc, d)
  }

  /** The guard under which `Add` does not drop its dot. */
  ghost predicate Room(cc: Context, d: Dot) {
    || Has(cc, d)
    || (exists i :: 0 <= i < |cc.entries| && cc.entries[i].replica == d.replica
                    && (d.counter == cc.entries[i].max + 1 || |cc.overflow| < MAX_OVERFLOW))
    || (!Knows(cc, d.replica) && |cc.entries| < MAX_REPLICAS && (d.counter == 1 || |cc.overflow| < MAX_OVERFLOW))
  }

  function SwapRemove<T>(s: seq<T>, i: nat): (r: seq<T>)
    requires i < |s|
    ensures |r| == |s| - 1
    ensures forall x :: x in r ==> x in s
    ensures forall x :: x in s && x != s[i] ==> x in r
    ensures forall j :: 0 <= j < |r| && j != i ==> r[j] == s[j]
    ensures i < |r| ==> r[i] == s[|s| - 1]
  {
    var r := s[i := s[|s| - 1]][..|s| - 1];
    assert forall x :: x in s && x != s[i] ==> x in r by {
      forall x | x in s && x != s[i] ensures x in r {
        var j :| 0 <= j < |s| && s[j] == x;
        assert j < |s| - 1 ==> r[j] == x;
        assert j == |s| - 1 ==> r[i] == x;
      }
    }
    r
  }

  method FindReplica(cc: Context, r: ReplicaId) returns (ridx: int)
    requires Valid(cc)
    ensures ridx >= 0 ==> ridx < |cc.entries| && cc.entries[ridx].replica == r
    ensures ridx < 0 <==> !Knows(cc, r)
  {
    var i := 0;
    while i < |cc.entries|
      invariant 0 <= i <= |cc.entries|
      invariant forall j :: 0 <= j < i ==> cc.entries[j].replica != r
    {
      if cc.entries[i].replica == r {
        return i;
      }
      i := i + 1;
    }
    return -1;
  }

  method Contains(cc: Context, dot: Dot) returns (b: bool)
    requires Valid(cc)
    ensures b <==> Has(cc, dot)
  {
    var ridx := FindReplica(cc, dot.replica);
    if ridx >= 0 && dot.counter <= cc.entries[ridx].max {
      return true;
    }
    var i := 0;
    while i < |cc.overflow|
      invariant 0 <= i <= |cc.overflow|
      invariant forall j :: 0 <= j < i ==> cc.overflow[j] != dot
    {
      if cc.overflow[i] == dot {
        return true;
      }
      i := i + 1;
    }
    return false;
  }

  /** Raising one frontier adds exactly the dots up to the new maximum. */
  lemma RaiseFrontier(cc: Context, i: nat, m: nat)
    requires Valid(cc) && i < |cc.entries| && cc.entries[i].max <= m
    ensures var cc' := cc.(entries := cc.entries[i := cc.entries[i].(max := m)]);
            && Valid(cc')
            && (forall r :: Knows(cc, r) <==> Knows(cc', r))
            && forall d :: Covered(cc', d) <==> Covered(cc, d) || (d.replica == cc.entries[i].replica && d.counter <= m)
  {
    var cc' := cc.(entries := cc.entries[i := cc.entries[i].(max := m)]);
    assert forall j :: 0 <= j < |cc.entries| ==> cc'.entries[j].replica == cc.entries[j].replica;
    forall d ensures Covered(cc', d) <==> Covered(cc, d) || (d.replica == cc.entries[i].replica && d.counter <= m) {
      if d.replica == cc.entries[i].replica && d.counter <= m {
        assert cc'.entries[i].replica == d.replica;
      }
    }
    assert forall r :: Knows(cc, r) ==> Knows(cc', r);
    assert forall r :: Knows(cc', r) ==> Knows(cc, r);
  }

  /** A new frontier for an unknown replica. */
  lemma AppendFrontier(cc: Context, f: Frontier)
    requires Valid(cc) && !Knows(cc, f.replica) && |cc.entries| < MAX_REPLICAS
    ensures var cc' := cc.(entries := cc.entries + [f]);
            && Valid(cc')
            && (forall r :: Knows(cc', r) <==> Knows(cc, r) || r == f.replica)
            && forall d :: Covered(cc', d) <==> Covered(cc, d) || (d.replica == f.replica && d.counter <= f.max)
  {
    var cc' := cc.(entries := cc.entries + [f]);
    var n := |cc.entries|;
    assert cc'.entries[n] == f;
    assert forall j :: 0 <= j < n ==> cc'.entries[j] == cc.entries[j];
    forall r ensures Knows(cc', r) <==> Knows(cc, r) || r == f.replica {
      if Knows(cc, r) {
        var j :| 0 <= j < |cc.entries| && cc.entries[j].replica == r;
        assert cc'.entries[j].replica == r;
      }
    }
    forall d ensures Covered(cc', d) <==> Covered(cc, d) || (d.replica == f.replica && d.counter <= f.max) {
      if Covered(cc, d) {
        var j :| 0 <= j < |cc.entries| && cc.entries[j].replica == d.replica && d.counter <= cc.entries[j].max;
        assert cc'.entries[j].replica == d.replica;
      }
    }
  }

  /** Moving the overflow dot just above a frontier into that frontier keeps the denotation. */
  lemma PullIn(cc: Context, ridx: nat, i: nat)
    requires Valid(cc) && ridx < |cc.entries| && i < |cc.overflow|
    requires cc.overflow[i] == Dot(cc.entries[ridx].replica, cc.entries[ridx].max + 1)
    ensures var e := cc.entries[ridx];
            var cc' := Context(cc.entries[ridx := e.(max := e.max + 1)], SwapRemove(cc.overflow, i));
            && Valid(cc') && Dots(cc') == Dots(cc)
            && forall r :: Knows(cc', r) <==> Knows(cc, r)
  {
    var e := cc.entries[ridx];
    var raised := cc.(entries := cc.entries[ridx := e.(max := e.max + 1)]);
    RaiseFrontier(cc, ridx, e.max + 1);
    var cc' := raised.(overflow := SwapRemove(cc.overflow, i));
    assert forall r :: Knows(cc', r) <==> Knows(raised, r);
    assert forall d :: Covered(cc', d) <==> Covered(raised, d);
    assert Covered(cc', cc.overflow[i]);
    forall d: Dot | d.replica == e.replica && d.counter <= e.max + 1 ensures Covered(cc, d) || d == cc.overflow[i] {
      if d.counter <= e.max { assert Covered(cc, d); }
    }
    assert forall d :: Has(cc', d) <==> Has(cc, d);
  }

  /** Which dots `Add` keeps, said on the frontier of a known replica. */
  lemma RoomKnown(cc: Context, dot: Dot)
    requires Valid(cc)
    ensures forall i :: 0 <= i < |cc.entries| && cc.entries[i].replica == dot.replica ==>
              (Room(cc, dot) <==> dot in cc.overflow || dot.counter <= cc.entries[i].max + 1 || |cc.overflow| < MAX_OVERFLOW)
  {
    forall i | 0 <= i < |cc.entries| && cc.entries[i].replica == dot.replica
      ensures Room(cc, dot) <==> dot in cc.overflow || dot.counter <= cc.entries[i].max + 1 || |cc.overflow| < MAX_OVERFLOW
    {
      if dot.counter <= cc.entries[i].max { assert Covered(cc, dot); }
    }
  }

  /** How many of the frontiers es are of replicas the context does not know. */
  ghost function Unknown(cc: Context, es: seq<Frontier>): nat {
    if es == [] then 0
    else var n := |es| - 1; Unknown(cc, es[..n]) + if Knows(cc, es[n].replica) then 0 else 1
  }

  /** How many of the dots ds the context lacks. */
  ghost function Missing(cc: Context, ds: seq<Dot>): nat {
    if ds == [] then 0
    else var n := |ds| - 1; Missing(cc, ds[..n]) + if Has(cc, ds[n]) then 0 else 1
  }

  /** The guard under which `Merge` loses nothing: its new replicas fit the table, its new overflow dots the list. */
  ghost predicate MergeRoom(dst: Context, src: Context) {
    && |dst.entries| + Unknown(dst, src.entries) <= MAX_REPLICAS
    && |dst.overflow| + Missing(dst, src.overflow) <= MAX_OVERFLOW
  }

  lemma {:induction false} UnknownPart(cc: Context, es: seq<Frontier>, i: nat)
    requires i < |es|
    ensures Unknown(cc, es[..i + 1]) == Unknown(cc, es[..i]) + if Knows(cc, es[i].replica) then 0 else 1
    ensures Unknown(cc, es[..i + 1]) <= Unknown(cc, es)
    decreases |es|
  {
    var n := |es| - 1;
    assert es[..i + 1][..i] == es[..i];
    if i < n {
      assert es[..n][..i + 1] == es[..i + 1];
      UnknownPart(cc, es[..n], i);
    } else {
      assert es[..i + 1] == es;
    }
  }

  lemma {:induction false} MissingPart(cc: Context, ds: seq<Dot>, i: nat)
    requires i < |ds|
    ensures Missing(cc, ds[..i + 1]) == Missing(cc, ds[..i]) + if Has(cc, ds[i]) then 0 else 1
    ensures Missing(cc, ds[..i + 1]) <= Missing(cc, ds)
    decreases |ds|
  {
    var n := |ds| - 1;
    assert ds[..i + 1][..i] == ds[..i];
    if i < n {
      assert ds[..n][..i + 1] == ds[..i + 1];
      MissingPart(cc, ds[..n], i);
    } else {
      assert ds[..i + 1] == ds;
    }
  }

  lemma {:induction false} NoneUnknown(cc: Context, es: seq<Frontier>)
    ensures Unknown(cc, es[..0]) == 0
  {
  }

  lemma {:induction false} NoneMissing(cc: Context, ds: seq<Dot>)
    ensures Missing(cc, ds[..0]) == 0
  {
  }

  /** A context that has more lacks less. */
  lemma {:induction false} MissingLess(a: Context, b: Context, ds: seq<Dot>)
    requires forall d :: Has(a, d) ==> Has(b, d)
    ensures Missing(b, ds) <= Missing(a, ds)
  {
    if ds != [] { MissingLess(a, b, ds[..|ds| - 1]); }
  }

  ghost predicate Below(d: Dot, f: Frontier) {
    d.replica == f.replica && d.counter <= f.max
  }

  /** A frontier raised to the next dot covers exactly that dot more. */
  lemma RaisedByOne(known: Context, cc: Context, ridx: nat, dot: Dot)
    requires Valid(known) && ridx < |known.entries| && known.entries[ridx] == Frontier(dot.replica, dot.counter - 1)
    requires cc == known.(entries := known.entries[ridx := Frontier(dot.replica, dot.counter)])
    ensures Dots(cc) == Dots(known) + iset{dot}
  {
    RaiseFrontier(known, ridx, dot.counter);
    forall d ensures Has(cc, d) <==> Has(known, d) || d == dot {
      if d.replica == dot.replica && d.counter < dot.counter { assert Covered(known, d); }
    }
  }

  lemma FrontierOf(src: Context, i: nat)
    requires i < |src.entries|
    ensures forall d :: Below(d, src.entries[i]) ==> Covered(src, d)
  {
  }

  /** A context that has all frontiers of another covers all that the other covers. */
  lemma AllFrontiers(src: Context, cc: Context)
    requires forall j :: 0 <= j < |src.entries| ==> Knows(cc, src.entries[j].replica)
    requires forall d, j :: 0 <= j < |src.entries| && Below(d, src.entries[j]) ==> Covered(cc, d)
    ensures forall r :: Knows(src, r) ==> Knows(cc, r)
    ensures forall d :: Covered(src, d) ==> Covered(cc, d)
  {
    forall d | Covered(src, d) ensures Covered(cc, d) {
      var j :| 0 <= j < |src.entries| && src.entries[j].replica == d.replica && d.counter <= src.entries[j].max;
      assert Below(d, src.entries[j]);
    }
  }

  lemma OverflowDot(src: Context, i: nat)
    requires Valid(src) && i < |src.overflow|
    ensures src.overflow[i] in Dots(src) && Knows(src, src.overflow[i].replica)
  {
  }

  lemma SameHas(a: Context, b: Context)
    requires Dots(a) <= Dots(b)
    ensures forall d :: Has(a, d) ==> Has(b, d)
  {
    forall d | Has(a, d) ensures Has(b, d) { assert d in Dots(a); }
  }

  /** A context as an object: the two arrays with their counts, rewritten in place. */
  class Cc {
    var entries: seq<Frontier>
    var overflow: seq<Dot>

    function Value(): Context
      reads this
    {
      Context(entries, overflow)
    }

    constructor ()
      ensures Value() == EMPTY
    {
      entries, overflow := [], [];
    }

    /** Pulls overflow dots that have become contiguous into the frontier `ridx`; the denotation stays the same. */
    method Compact(ridx: nat)
      requires Valid(Value()) && ridx < |entries|
      modifies this
      ensures Valid(Value()) && |entries| == |old(entries)| && |overflow| <= |old(overflow)|
      ensures forall r :: Knows(Value(), r) <==> Knows(old(Value()), r)
      ensures Dots(Value()) == Dots(old(Value()))
      ensures Dot(old(entries)[ridx].replica, entries[ridx].max + 1) !in overflow
    {
      hide Valid, Dots, Knows;
      var r := entries[ridx].replica;
      var changed := true;
      while changed
        invariant Valid(Value()) && |entries| == |old(entries)| && |overflow| <= |old(overflow)|
        invariant entries[ridx].replica == r
        invariant forall r :: Knows(Value(), r) <==> Knows(old(Value()), r)
        invariant Dots(Value()) == Dots(old(Value()))
        invariant !changed ==> Dot(r, entries[ridx].max + 1) !in overflow
        decreases |overflow|, changed
      {
        changed := false;
        var i := 0;
        while i < |overflow| && overflow[i] != Dot(r, entries[ridx].max + 1)
          invariant 0 <= i <= |overflow|
          invariant forall j :: 0 <= j < i ==> overflow[j] != Dot(r, entries[ridx].max + 1)
        {
          i := i + 1;
        }
        if i < |overflow| {
          PullIn(Value(), ridx, i);
          entries := entries[ridx := entries[ridx].(max := entries[ridx].max + 1)];
          overflow := SwapRemove(overflow, i);
          changed := true;
        }
      }
    }

    /** Adds a dot.  Within the fixed capacities the denotation grows by exactly that dot; beyond them it stays put. */
    method Add(dot: Dot)
      requires Valid(Value())
      modifies this
      ensures Valid(Value())
      ensures Dots(Value()) == if Room(old(Value()), dot) then Dots(old(Value())) + iset{dot} else Dots(old(Value()))
      ensures |overflow| <= |old(overflow)| + 1 && |entries| <= |old(entries)| + 1
      ensures forall r :: Knows(old(Value()), r) ==> Knows(Value(), r)
      ensures forall r :: Knows(Value(), r) ==> Knows(old(Value()), r) || r == dot.replica
    {
      var ridx := FindReplica(Value(), dot.replica);
      if ridx < 0 {
        if |entries| >= MAX_REPLICAS {
          return;
        }
        AppendFrontier(Value(), Frontier(dot.replica, 0));
        ridx := |entries|;
        entries := entries + [Frontier(dot.replica, 0)];
        assert Dots(Value()) == Dots(old(Value()));
      }
      ghost var known := Value();
      assert entries[ridx].replica == dot.replica;
      if dot.counter == entries[ridx].max + 1 {
        RaiseFrontier(known, ridx, dot.counter);
        entries := entries[ridx := entries[ridx].(max := dot.counter)];
        RaisedByOne(known, Value(), ridx, dot);
        Compact(ridx);
      } else if dot.counter > entries[ridx].max + 1 {
        if |overflow| < MAX_OVERFLOW {
          overflow := overflow + [dot];
          assert forall r :: Knows(Value(), r) <==> Knows(known, r);
          assert forall d :: Covered(Value(), d) <==> Covered(known, d);
        }
      } else {
        assert Covered(Value(), dot);
      }
      RoomKnown(old(Value()), dot);
    }

    /** Merges one frontier of the source. */
    method MergeFrontier(f: Frontier)
      requires Valid(Value())
      modifies this`entries
      ensures Valid(Value())
      ensures forall r :: Knows(Value(), r) ==> Knows(old(Value()), r) || r == f.replica
      ensures forall r :: Knows(old(Value()), r) ==> Knows(Value(), r)
      ensures if Knows(old(Value()), f.replica) || |old(entries)| < MAX_REPLICAS
              then Knows(Value(), f.replica) && forall d :: Covered(Value(), d) <==> Covered(old(Value()), d) || Below(d, f)
              else entries == old(entries)
      ensures |entries| <= |old(entries)| + if Knows(old(Value()), f.replica) then 0 else 1
    {
      var didx := FindReplica(Value(), f.replica);
      if didx >= 0 {
        if f.max > entries[didx].max {
          RaiseFrontier(Value(), didx, f.max);
          entries := entries[didx := entries[didx].(max := f.max)];
        } else {
          assert forall d: Dot :: Below(d, f) ==> Covered(Value(), d);
        }
      } else if |entries| < MAX_REPLICAS {
        AppendFrontier(Value(), f);
        entries := entries + [f];
        assert entries[|old(entries)|] == f;
      }
    }

    /** First half of the merge: the frontiers of the source. */
    method MergeFrontiers(src: Context)
      requires Valid(Value()) && Valid(src)
      modifies this`entries
      ensures Valid(Value())
      ensures forall d :: Covered(old(Value()), d) ==> Covered(Value(), d)
      ensures forall d :: Covered(Value(), d) ==> Covered(old(Value()), d) || Covered(src, d)
      ensures MergeRoom(old(Value()), src) ==> forall r :: Knows(src, r) ==> Knows(Value(), r)
      ensures MergeRoom(old(Value()), src) ==> forall d :: Covered(src, d) ==> Covered(Value(), d)
    {
      hide Valid, Covered, Knows, Below, Unknown, Missing;
      ghost var dst := Value();
      ghost var room := MergeRoom(dst, src);
      NoneUnknown(dst, src.entries);
      var i := 0;
      while i < |src.entries|
        invariant 0 <= i <= |src.entries|
        invariant Valid(Value()) && overflow == dst.overflow
        invariant |entries| <= |dst.entries| + Unknown(dst, src.entries[..i])
        invariant forall r :: Knows(dst, r) ==> Knows(Value(), r)
        invariant forall d :: Covered(dst, d) ==> Covered(Value(), d)
        invariant forall d :: Covered(Value(), d) ==> Covered(dst, d) || Covered(src, d)
        invariant room ==> forall j :: 0 <= j < i ==> Knows(Value(), src.entries[j].replica)
        invariant room ==> forall d, j :: 0 <= j < i && Below(d, src.entries[j]) ==> Covered(Value(), d)
      {
        UnknownPart(dst, src.entries, i);
        FrontierOf(src, i);
        MergeFrontier(src.entries[i]);
        i := i + 1;
      }
      if room {
        AllFrontiers(src, Value());
      }
    }

    /** One step of the second half: an overflow dot of the source. */
    method AddIfAbsent(d: Dot)
      requires Valid(Value())
      modifies this
      ensures Valid(Value()) && |overflow| <= |old(overflow)| + if Has(old(Value()), d) then 0 else 1
      ensures forall r :: Knows(old(Value()), r) ==> Knows(Value(), r)
      ensures Dots(old(Value())) <= Dots(Value()) <= Dots(old(Value())) + iset{d}
      ensures Has(old(Value()), d) || (Knows(old(Value()), d.replica) && |old(overflow)| < MAX_OVERFLOW) ==> d in Dots(Value())
    {
      var present := Contains(Value(), d);
      if !present {
        assert Knows(Value(), d.replica) && |overflow| < MAX_OVERFLOW ==> Room(Value(), d);
        Add(d);
      }
    }

    /** Second half of the merge: the overflow dots of the source. */
    method MergeOverflow(src: Context)
      requires Valid(Value()) && Valid(src)
      modifies this
      ensures Valid(Value())
      ensures Dots(old(Value())) <= Dots(Value()) <= Dots(old(Value())) + Dots(src)
      ensures (forall r :: Knows(src, r) ==> Knows(old(Value()), r))
              && |old(overflow)| + Missing(old(Value()), src.overflow) <= MAX_OVERFLOW ==>
                forall j :: 0 <= j < |src.overflow| ==> src.overflow[j] in Dots(Value())
    {
      hide Valid, Dots, Room, Has, Knows, Missing;
      ghost var dst := Value();
      ghost var was, add := Dots(dst), Dots(src);
      ghost var room := (forall r :: Knows(src, r) ==> Knows(dst, r)) && |overflow| + Missing(dst, src.overflow) <= MAX_OVERFLOW;
      NoneMissing(dst, src.overflow);
      var i := 0;
      while i < |src.overflow|
        invariant 0 <= i <= |src.overflow|
        invariant Valid(Value()) && |overflow| <= |dst.overflow| + Missing(dst, src.overflow[..i])
        invariant forall r :: Knows(dst, r) ==> Knows(Value(), r)
        invariant was <= Dots(Value()) <= was + add
        invariant room ==> forall j :: 0 <= j < i ==> src.overflow[j] in Dots(Value())
      {
        OverflowDot(src, i);
        MissingPart(dst, src.overflow, i);
        SameHas(dst, Value());
        AddIfAbsent(src.overflow[i]);
        i := i + 1;
      }
    }

    /** Merging never loses a destination dot and never invents one; with room it is exactly union. */
    method Merge(src: Context)
      requires Valid(Value()) && Valid(src)
      modifies this
      ensures Valid(Value())
      ensures Dots(old(Value())) <= Dots(Value()) <= Dots(old(Value())) + Dots(src)
      ensures MergeRoom(old(Value()), src) ==> Dots(Value()) == Dots(old(Value())) + Dots(src)
    {
      MergeFrontiers(src);
      MissingLess(old(Value()), Value(), src.overflow);
      MergeOverflow(src);
    }

    /** Whether a dot can be added without loss. */
    method HasRoom(dot: Dot) returns (b: bool)
      requires Valid(Value())
      ensures b <==> Room(Value(), dot)
    {
      var ridx := FindReplica(Value(), dot.replica);
      RoomKnown(Value(), dot);
      if ridx >= 0 {
        return dot in overflow || dot.counter <= entries[ridx].max + 1 || |overflow| < MAX_OVERFLOW;
      }
      return |entries| < MAX_REPLICAS && (dot.counter == 1 || |overflow| < MAX_OVERFLOW);
    }

    /** Whether a context can be merged within `MergeRoom`. */
    method CanTake(src: Context) returns (b: bool)
      requires Valid(Value())
      ensures b <==> MergeRoom(Value(), src)
    {
      hide Knows, Has, Valid, Unknown, Missing;
      NoneUnknown(Value(), src.entries);
      NoneMissing(Value(), src.overflow);
      var replicas, dots := 0, 0;
      for i := 0 to |src.entries|
        invariant replicas == Unknown(Value(), src.entries[..i])
      {
        UnknownPart(Value(), src.entries, i);
        var ridx := FindReplica(Value(), src.entries[i].replica);
        if ridx < 0 { replicas := replicas + 1; }
      }
      for i := 0 to |src.overflow|
        invariant dots == Missing(Value(), src.overflow[..i])
      {
        MissingPart(Value(), src.overflow, i);
        var present := Contains(Value(), src.overflow[i]);
        if !present { dots := dots + 1; }
      }
      assert src.entries[..|src.entries|] == src.entries && src.overflow[..|src.overflow|] == src.overflow;
      return |entries| + replicas <= MAX_REPLICAS && |overflow| + dots <= MAX_OVERFLOW;
    }
  }
}
