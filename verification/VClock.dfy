/** Vector clocks of include/op_vclock.h as values: entry lists of at most 32 servers. */
module VClockSpec {
  import opened Common
  import opened ByteOrder
  import opened Causality

  const MAX_ENTRIES := 32
  const U64 := 0x1_0000_0000_0000_0000

  type Key = k: seq<Byte> | |k| == 8 witness [0, 0, 0, 0, 0, 0, 0, 0]

  datatype Entry = Entry(key: Key, counter: nat)
  type Clock = seq<Entry>

  /** First entry of a key from index i on, or -1. */
  function FindFrom(c: Clock, k: Key, i: nat): (r: int)
    requires i <= |c|
    ensures r >= 0 ==> i <= r < |c| && c[r].key == k
    ensures forall j :: i <= j < (if r >= 0 then r else |c|) ==> c[j].key != k
    ensures r >= -1
    decreases |c| - i
  {
    if i == |c| then -1 else if c[i].key == k then i else FindFrom(c, k, i + 1)
  }

  function Get(c: Clock, k: Key): nat {
    var i := FindFrom(c, k, 0);
    if i >= 0 then c[i].counter else 0
  }

  /** The clock after a tick, and the number it returns: 0 when a new key finds no room. */
  function Ticked(c: Clock, k: Key): (Clock, nat) {
    var i := FindFrom(c, k, 0);
    if i >= 0 then
      var n := (c[i].counter + 1) % U64;
      (c[i := Entry(c[i].key, n)], n)
    else if |c| >= MAX_ENTRIES then (c, 0)
    else (c + [Entry(k, 1)], 1)
  }

  function MergeOne(d: Clock, e: Entry): Clock {
    var i := FindFrom(d, e.key, 0);
    if i >= 0 then if e.counter > d[i].counter then d[i := Entry(d[i].key, e.counter)] else d
    else if |d| < MAX_ENTRIES then d + [e]
    else d
  }

  function Merged(d: Clock, s: Clock): Clock {
    if s == [] then d else MergeOne(Merged(d, s[..|s| - 1]), s[|s| - 1])
  }

  /** What the two comparison loops establish, entry by entry. */
  ghost predicate EntriesLe(a: Clock, b: Clock) {
    && (forall i :: 0 <= i < |a| ==> a[i].counter <= Get(b, a[i].key))
    && (forall i :: 0 <= i < |b| ==> b[i].counter >= Get(a, b[i].key))
  }

  ghost function Compared(a: Clock, b: Clock): int {
    if EntriesLe(a, b) then if EntriesLe(b, a) then 0 else -1
    else if EntriesLe(b, a) then 1 else 2
  }

  // ---- the order ----------------------------------------------------------------------------

  ghost function Keys(c: Clock): set<Key> {
    set i | 0 <= i < |c| :: c[i].key
  }

  predicate DistinctKeys(c: Clock) {
    forall i, j :: 0 <= i < j < |c| ==> c[i].key != c[j].key
  }

  ghost predicate Positive(c: Clock) {
    forall i :: 0 <= i < |c| ==> c[i].counter > 0
  }

  /** The component-wise order; a missing server counts as 0. */
  ghost predicate Le(a: Clock, b: Clock) {
    forall k :: Get(a, k) <= Get(b, k)
  }

  lemma GetAt(c: Clock, i: nat)
    requires DistinctKeys(c) && i < |c|
    ensures Get(c, c[i].key) == c[i].counter && c[i].key in Keys(c)
  {
  }

  lemma {:induction false} GetAbsent(c: Clock, k: Key)
    ensures k !in Keys(c) <==> FindFrom(c, k, 0) < 0
    ensures k !in Keys(c) ==> Get(c, k) == 0
    ensures k in Keys(c) && Positive(c) ==> Get(c, k) > 0
  {
    var i := FindFrom(c, k, 0);
    if i >= 0 { assert c[i].key in Keys(c); }
  }

  lemma EntriesLeIsLe(a: Clock, b: Clock)
    requires DistinctKeys(a) && DistinctKeys(b)
    ensures EntriesLe(a, b) <==> Le(a, b)
  {
    if EntriesLe(a, b) {
      forall k ensures Get(a, k) <= Get(b, k) {
        var i := FindFrom(a, k, 0);
        if i >= 0 { assert a[i].counter <= Get(b, a[i].key); }
      }
    }
    if Le(a, b) {
      forall i | 0 <= i < |a| ensures a[i].counter <= Get(b, a[i].key) {
        GetAt(a, i);
        assert Get(a, a[i].key) <= Get(b, a[i].key);
      }
      forall i | 0 <= i < |b| ensures b[i].counter >= Get(a, b[i].key) {
        GetAt(b, i);
        assert Get(a, b[i].key) <= Get(b, b[i].key);
      }
    }
  }

  lemma {:induction false} KeyCount(c: Clock)
    requires DistinctKeys(c)
    ensures |Keys(c)| == |c|
  {
    if c != [] {
      var n := |c| - 1;
      KeyCount(c[..n]);
      assert Keys(c) == Keys(c[..n]) + {c[n].key};
      assert c[n].key !in Keys(c[..n]);
    }
  }

  // ---- one merge ------------------------------------------------------------------------------

  lemma MergeOneKeys(d: Clock, e: Entry)
    requires DistinctKeys(d) && |d| <= MAX_ENTRIES && Positive(d) && e.counter > 0
    ensures var m := MergeOne(d, e); DistinctKeys(m) && |m| <= MAX_ENTRIES && Positive(m)
    ensures Keys(MergeOne(d, e)) == if e.key in Keys(d) || |d| < MAX_ENTRIES then Keys(d) + {e.key} else Keys(d)
  {
    var m := MergeOne(d, e);
    GetAbsent(d, e.key);
    var i := FindFrom(d, e.key, 0);
    if i < 0 && |d| < MAX_ENTRIES {
      assert m[|d|].key == e.key;
      assert forall j :: 0 <= j < |d| ==> m[j].key == d[j].key;
      SubKeys(d, m);
      assert Keys(m) == Keys(d) + {e.key};
    } else {
      SameKeys(d, m);
    }
  }

  lemma SubKeys(d: Clock, m: Clock)
    requires |d| <= |m| && forall j :: 0 <= j < |d| ==> m[j].key == d[j].key
    ensures Keys(d) <= Keys(m)
  {
    forall k | k in Keys(d) ensures k in Keys(m) {
      var j :| 0 <= j < |d| && d[j].key == k;
      assert m[j].key in Keys(m);
    }
  }

  lemma SameKeys(d: Clock, m: Clock)
    requires |d| == |m| && forall j :: 0 <= j < |d| ==> m[j].key == d[j].key
    ensures Keys(d) == Keys(m)
  {
    SubKeys(d, m);
    SubKeys(m, d);
  }

  /** Replacing a counter, or appending an entry for a new key, changes what Get says of that key only. */
  lemma GetReplaced(d: Clock, i: nat, n: nat, k: Key)
    requires DistinctKeys(d) && i < |d|
    ensures Get(d[i := Entry(d[i].key, n)], k) == if k == d[i].key then n else Get(d, k)
  {
    var m := d[i := Entry(d[i].key, n)];
    assert forall j :: 0 <= j < |d| ==> m[j].key == d[j].key;
    assert FindFrom(m, k, 0) == FindFrom(d, k, 0);
  }

  lemma {:induction false} GetAppended(d: Clock, e: Entry, k: Key)
    requires FindFrom(d, e.key, 0) < 0
    ensures Get(d + [e], k) == if k == e.key then e.counter else Get(d, k)
  {
    var m := d + [e];
    assert m[|d|] == e;
    assert forall j :: 0 <= j < |d| ==> m[j] == d[j];
    var i, r := FindFrom(d, k, 0), FindFrom(m, k, 0);
    if i >= 0 { assert m[i].key == k && r == i; }
  }

  lemma MergeOneGet(d: Clock, e: Entry, k: Key)
    requires DistinctKeys(d)
    ensures Get(MergeOne(d, e), k) ==
            if k == e.key && (e.key in Keys(d) || |d| < MAX_ENTRIES) then Max(Get(d, k), e.counter) else Get(d, k)
  {
    GetAbsent(d, e.key);
    var i := FindFrom(d, e.key, 0);
    if i >= 0 {
      GetReplaced(d, i, e.counter, k);
    } else if |d| < MAX_ENTRIES {
      GetAppended(d, e, k);
    }
  }

  /** Whatever is merged, a clock stays well-formed and loses nothing it had. */
  lemma {:induction false} MergedKeeps(d: Clock, s: Clock)
    requires DistinctKeys(d) && |d| <= MAX_ENTRIES && Positive(d) && Positive(s)
    ensures var m := Merged(d, s); DistinctKeys(m) && |m| <= MAX_ENTRIES && Positive(m) && Keys(d) <= Keys(m) <= Keys(d) + Keys(s)
    ensures Le(d, Merged(d, s))
    decreases |s|
  {
    if s != [] {
      var n := |s| - 1;
      MergedKeeps(d, s[..n]);
      MergeOneKeys(Merged(d, s[..n]), s[n]);
      assert Keys(s) == Keys(s[..n]) + {s[n].key};
      forall k ensures Get(d, k) <= Get(Merged(d, s), k) {
        MergeOneGet(Merged(d, s[..n]), s[n], k);
      }
    }
  }

  /** With room for both key sets the merge is the component-wise maximum. */
  lemma {:induction false} MergedExact(d: Clock, s: Clock, k: Key)
    requires DistinctKeys(d) && Positive(d) && DistinctKeys(s) && Positive(s) && |Keys(d) + Keys(s)| <= MAX_ENTRIES
    ensures Keys(Merged(d, s)) == Keys(d) + Keys(s)
    ensures Get(Merged(d, s), k) == Max(Get(d, k), Get(s, k))
    decreases |s|
  {
    hide Keys, Get, MergeOne;
    EmptyClock(k);
    FewKeys(d, Keys(d) + Keys(s));
    if s != [] {
      var n := |s| - 1;
      var r := s[..n];
      LastKey(s);
      SubsetSize(Keys(d) + Keys(r), Keys(d) + Keys(s));
      MergedExact(d, r, k);
      MergedKeeps(d, r);
      MergeLast(Merged(d, r), s[n], Keys(d) + Keys(s), k);
      LastGet(s, k);
    }
  }

  lemma EmptyClock(k: Key)
    ensures Keys([]) == {} && Get([], k) == 0
  {
  }

  lemma LastKey(s: Clock)
    requires s != []
    ensures Keys(s) == Keys(s[..|s| - 1]) + {s[|s| - 1].key}
  {
  }

  /** Room for one more key of a set that fits. */
  lemma MergeLast(m: Clock, e: Entry, all: set<Key>, k: Key)
    requires DistinctKeys(m) && |m| <= MAX_ENTRIES && Positive(m) && e.counter > 0
    requires Keys(m) + {e.key} <= all && |all| <= MAX_ENTRIES
    ensures Keys(MergeOne(m, e)) == Keys(m) + {e.key}
    ensures Get(MergeOne(m, e), k) == if k == e.key then Max(Get(m, k), e.counter) else Get(m, k)
  {
    hide Distinct, Keys, Positive, Get, MergeOne;
    KeyCount(m);
    if e.key !in Keys(m) { SubsetSize(Keys(m) + {e.key}, all); }
    MergeOneKeys(m, e);
    MergeOneGet(m, e, k);
  }

  lemma FewKeys(d: Clock, all: set<Key>)
    requires DistinctKeys(d) && Keys(d) <= all
    ensures |d| <= |all|
  {
    KeyCount(d);
    SubsetSize(Keys(d), all);
  }

  lemma LastGet(s: Clock, k: Key)
    requires DistinctKeys(s) && s != []
    ensures var n := |s| - 1; Get(s, k) == (if k == s[n].key then s[n].counter else Get(s[..n], k)) && Get(s[..n], s[n].key) == 0
  {
    var n := |s| - 1;
    assert s == s[..n] + [s[n]];
    assert FindFrom(s[..n], s[n].key, 0) < 0;
    GetAppended(s[..n], s[n], k);
  }

  /** Merge is the least upper bound of the component-wise order exactly when the two key sets fit together. */
  lemma {:induction false} MergeIsLub(d: Clock, s: Clock)
    requires DistinctKeys(d) && Positive(d) && |d| <= MAX_ENTRIES && DistinctKeys(s) && Positive(s)
    ensures |Keys(d) + Keys(s)| <= MAX_ENTRIES <==> Le(s, Merged(d, s))
    ensures Le(d, Merged(d, s))
    ensures |Keys(d) + Keys(s)| <= MAX_ENTRIES ==> forall u :: Le(d, u) && Le(s, u) ==> Le(Merged(d, s), u)
  {
    var m := Merged(d, s);
    MergedKeeps(d, s);
    if |Keys(d) + Keys(s)| <= MAX_ENTRIES {
      forall k ensures Get(m, k) == Max(Get(d, k), Get(s, k)) {
        MergedExact(d, s, k);
      }
    } else if Le(s, m) {
      forall k | k in Keys(s) ensures k in Keys(m) {
        GetAbsent(s, k);
        GetAbsent(m, k);
        assert Get(s, k) <= Get(m, k);
      }
      assert Keys(m) == Keys(d) + Keys(s);
      KeyCount(m);
    }
  }

  // ---- one tick ---------------------------------------------------------------------------------

  lemma TickKeeps(c: Clock, k: Key)
    requires DistinctKeys(c) && |c| <= MAX_ENTRIES && Positive(c) && Get(c, k) < U64 - 1
    ensures var t := Ticked(c, k).0; DistinctKeys(t) && |t| <= MAX_ENTRIES && Positive(t)
    ensures Keys(Ticked(c, k).0) == if k in Keys(c) || |c| < MAX_ENTRIES then Keys(c) + {k} else Keys(c)
    ensures forall q :: Get(Ticked(c, k).0, q) ==
                        Get(c, q) + if q == k && (k in Keys(c) || |c| < MAX_ENTRIES) then 1 else 0
  {
    GetAbsent(c, k);
    var i := FindFrom(c, k, 0);
    var t := Ticked(c, k).0;
    if i >= 0 {
      SameKeys(c, t);
      forall q ensures Get(t, q) == Get(c, q) + if q == k then 1 else 0 {
        GetReplaced(c, i, c[i].counter + 1, q);
      }
    } else if |c| < MAX_ENTRIES {
      MergeOneKeys(c, Entry(k, 1));
      forall q ensures Get(t, q) == Get(c, q) + if q == k then 1 else 0 {
        GetAppended(c, Entry(k, 1), q);
      }
    }
  }

  // ---- runs -------------------------------------------------------------------------------------

  /** The clock a server holds after event i of a run (nothing before its first event): a tick, after a merge when it
      receives. */
  function ClockAt(run: seq<Step<Key>>, i: int): Clock
    requires IsRun(run) && -1 <= i < |run|
    decreases i + 1
  {
    if i < 0 then []
    else
      var mine := ClockAt(run, Prev(run, i));
      var heard := if run[i].Receive? then Merged(mine, ClockAt(run, run[i].from)) else mine;
      Ticked(heard, run[i].node).0
  }

  /** The servers in the causal past of an event. */
  ghost function PastKeys(run: seq<Step<Key>>, i: int): set<Key>
    requires IsRun(run) && -1 <= i < |run|
    decreases i + 1
  {
    if i < 0 then {}
    else
      PastKeys(run, Prev(run, i)) + (if run[i].Receive? then PastKeys(run, run[i].from) else {}) + {run[i].node}
  }

  lemma {:induction false} PastKeysMeaning(run: seq<Step<Key>>, i: nat, k: Key)
    requires IsRun(run) && i < |run|
    ensures k in PastKeys(run, i) <==> exists j: nat :: InPast(run, j, i) && j < |run| && run[j].node == k
    decreases i
  {
    if k in PastKeys(run, i) {
      if k == run[i].node {
        assert InPast(run, i, i);
      } else {
        var p := Prev(run, i);
        var m: nat := if k in PastKeys(run, p) then p else run[i].from;
        PastKeysMeaning(run, m, k);
        var j: nat :| InPast(run, j, m) && j < |run| && run[j].node == k;
        PastExtends(run, j, m, i);
      }
    }
    if j: nat :| InPast(run, j, i) && j < |run| && run[j].node == k {
      if j != i {
        var m := LastLink(run, j, i);
        PastKeysMeaning(run, m, k);
        PastKeysGrow(run, m, i);
      }
    }
  }

  lemma {:induction false} PastKeysGrow(run: seq<Step<Key>>, i: nat, j: nat)
    requires IsRun(run) && Direct(run, i, j)
    ensures PastKeys(run, i) <= PastKeys(run, j)
    decreases j
  {
    if run[i].node == run[j].node {
      var p := Prev(run, j);
      assert p >= i;
      if p > i { PastKeysGrow(run, i, p); }
    }
  }

  ghost predicate Sound(c: Clock) {
    DistinctKeys(c) && |c| <= MAX_ENTRIES && Positive(c)
  }

  /** The entries are the servers in the past of event i, each with the number of its events there. */
  ghost predicate Exact(run: seq<Step<Key>>, i: int, c: Clock)
    requires IsRun(run) && -1 <= i < |run|
  {
    Sound(c) && Keys(c) == PastKeys(run, i) && forall k :: Get(c, k) == Known(run, i, k)
  }

  /** What event i merges before it ticks. */
  function Heard(run: seq<Step<Key>>, i: nat): Clock
    requires IsRun(run) && i < |run|
  {
    var mine := ClockAt(run, Prev(run, i));
    if run[i].Receive? then Merged(mine, ClockAt(run, run[i].from)) else mine
  }

  lemma HeardExact(run: seq<Step<Key>>, i: nat, mine: Clock, theirs: Clock)
    requires IsRun(run) && i < |run| && Exact(run, Prev(run, i), mine)
    requires run[i].Receive? ==> Exact(run, run[i].from, theirs) && |Keys(mine) + Keys(theirs)| <= MAX_ENTRIES
    ensures var h := if run[i].Receive? then Merged(mine, theirs) else mine;
            && Sound(h) && Keys(h) + {run[i].node} == PastKeys(run, i)
            && forall k :: Get(h, k) + (if k == run[i].node then 1 else 0) == Known(run, i, k)
  {
    hide Get, Keys, Merged, Distinct, Positive;
    if run[i].Receive? {
      MergedKeeps(mine, theirs);
      MergedExact(mine, theirs, run[i].node);
      forall k ensures Get(Merged(mine, theirs), k) == Max(Get(mine, k), Get(theirs, k)) {
        MergedExact(mine, theirs, k);
      }
    }
  }

  lemma {:induction false} TickExact(run: seq<Step<Key>>, i: nat, h: Clock)
    requires IsRun(run) && i < |run| < U64 && Sound(h) && Keys(h) + {run[i].node} == PastKeys(run, i)
    requires forall k :: Get(h, k) + (if k == run[i].node then 1 else 0) == Known(run, i, k)
    requires run[i].node in Keys(h) || |h| < MAX_ENTRIES
    ensures Exact(run, i, Ticked(h, run[i].node).0)
  {
    KnownBound(run, i, run[i].node);
    TickKeeps(h, run[i].node);
  }

  /** While an event's past involves at most 32 servers its clock is exact. */
  lemma {:induction false} ClockExact(run: seq<Step<Key>>, i: int)
    requires IsRun(run) && -1 <= i < |run| < U64 && |PastKeys(run, i)| <= MAX_ENTRIES
    ensures Exact(run, i, ClockAt(run, i))
    decreases i + 1
  {
    if i >= 0 {
      var p := Prev(run, i);
      SubsetSize(PastKeys(run, p), PastKeys(run, i));
      ClockExact(run, p);
      var mine := ClockAt(run, p);
      var theirs := if run[i].Receive? then ClockAt(run, run[i].from) else [];
      if run[i].Receive? {
        SubsetSize(PastKeys(run, run[i].from), PastKeys(run, i));
        ClockExact(run, run[i].from);
        SubsetSize(Keys(mine) + Keys(theirs), PastKeys(run, i));
      }
      HeardExact(run, i, mine, theirs);
      var h := Heard(run, i);
      if run[i].node !in Keys(h) {
        KeyCount(h);
        assert |Keys(h) + {run[i].node}| == |Keys(h)| + 1;
      }
      TickExact(run, i, h);
    }
  }

  /** The causal past of event i involves at most 32 servers. */
  ghost predicate Fits(run: seq<Step<Key>>, i: nat)
    requires IsRun(run) && i < |run|
  {
    |PastKeys(run, i)| <= MAX_ENTRIES
  }

  ghost predicate AllFit(run: seq<Step<Key>>)
    requires IsRun(run)
  {
    forall i :: 0 <= i < |run| ==> Fits(run, i)
  }

  /** Comparing the clocks of two events tells whether one happens before the other. */
  ghost predicate TellsOrder(run: seq<Step<Key>>, i: nat, j: nat)
    requires IsRun(run) && i < |run| && j < |run|
  {
    var r := Compared(ClockAt(run, i), ClockAt(run, j));
    && (r == 0 <==> i == j)
    && (r == -1 <==> HappensBefore(run, i, j))
    && (r == 1 <==> HappensBefore(run, j, i))
    && (r == 2 <==> i != j && !HappensBefore(run, i, j) && !HappensBefore(run, j, i))
  }

  lemma {:induction false} LeIsPast(run: seq<Step<Key>>, i: nat, j: nat)
    requires IsRun(run) && i < |run| < U64 && j < |run| && AllFit(run)
    ensures EntriesLe(ClockAt(run, i), ClockAt(run, j)) <==> InPast(run, i, j)
  {
    var a, b := ClockAt(run, i), ClockAt(run, j);
    assert Fits(run, i) && Fits(run, j);
    ClockExact(run, i);
    ClockExact(run, j);
    EntriesLeIsLe(a, b);
    KnownIsCausality(run, i, j);
    assert Le(a, b) <==> KnowsLess(run, i, j) by {
      forall k ensures Get(a, k) == Known(run, i, k) && Get(b, k) == Known(run, j, k) {}
    }
  }

  lemma FitTellsOrder(run: seq<Step<Key>>, i: nat, j: nat)
    requires IsRun(run) && i < |run| < U64 && j < |run| && AllFit(run)
    ensures TellsOrder(run, i, j)
  {
    LeIsPast(run, i, j);
    LeIsPast(run, j, i);
    if HappensBefore(run, i, j) { BeforeAscends(run, i, j); }
    if HappensBefore(run, j, i) { BeforeAscends(run, j, i); }
  }

  // ---- when a 33rd server comes in --------------------------------------------------------------

  /** The first event whose past involves too many servers is not told from something before it. */
  lemma MisfitConfuses(run: seq<Step<Key>>, e: nat) returns (i: nat)
    requires IsRun(run) && e < |run| < U64 && !Fits(run, e) && forall j :: 0 <= j < e ==> Fits(run, j)
    ensures Direct(run, i, e) && Compared(ClockAt(run, i), ClockAt(run, e)) != -1
  {
    var p := Prev(run, e);
    assert p >= 0 ==> Fits(run, p);
    ClockExact(run, p);
    if !run[e].Receive? {
      PastStep(run, e, p);
      assert false;
    }
    var f := run[e].from;
    assert Fits(run, f);
    ClockExact(run, f);
    var mine, theirs := ClockAt(run, p), ClockAt(run, f);
    var h := Merged(mine, theirs);
    MergedKeeps(mine, theirs);
    GetSmall(run, p, f, h, run[e].node, mine, theirs);
    TickKeeps(h, run[e].node);
    var c := ClockAt(run, e);
    KeyCount(c);
    if PastKeys(run, e) <= Keys(c) { SubsetSize(PastKeys(run, e), Keys(c)); assert false; }
    var k :| k in PastKeys(run, e) && k !in Keys(c);
    i := f;
    if k in PastKeys(run, f) {
      LostKey(theirs, c, k);
    } else {
      LostOwn(run, e, mine, theirs, h);
    }
  }

  lemma {:induction false} GetSmall(run: seq<Step<Key>>, p: int, f: nat, h: Clock, k: Key, mine: Clock, theirs: Clock)
    requires IsRun(run) && -1 <= p < |run| < U64 && f < |run| - 1 && p < |run| - 1 && Exact(run, p, mine) && Exact(run, f, theirs)
    requires h == Merged(mine, theirs)
    ensures Get(h, k) < U64 - 1
  {
    KnownBound(run, p, k);
    KnownBound(run, f, k);
    MergedAtMost(mine, theirs, k);
  }

  lemma {:induction false} MergedAtMost(d: Clock, s: Clock, k: Key)
    requires Sound(d) && DistinctKeys(s) && Positive(s)
    ensures Get(Merged(d, s), k) <= Max(Get(d, k), Get(s, k))
    decreases |s|
  {
    if s != [] {
      var n := |s| - 1;
      MergedAtMost(d, s[..n], k);
      MergedKeeps(d, s[..n]);
      MergeOneGet(Merged(d, s[..n]), s[n], k);
      LastGet(s, k);
    }
  }

  lemma {:induction false} PastStep(run: seq<Step<Key>>, e: nat, p: int)
    requires IsRun(run) && e < |run| && run[e].Local? && p == Prev(run, e) && |PastKeys(run, p)| <= MAX_ENTRIES
    ensures |PastKeys(run, e)| <= MAX_ENTRIES
  {
    if p >= 0 {
      assert run[p].node in PastKeys(run, p);
      assert PastKeys(run, e) == PastKeys(run, p);
    }
  }

  lemma LostKey(a: Clock, c: Clock, k: Key)
    requires Sound(a) && DistinctKeys(c) && k in Keys(a) && k !in Keys(c)
    ensures Compared(a, c) != -1
  {
    EntriesLeIsLe(a, c);
    GetAbsent(a, k);
    GetAbsent(c, k);
    assert Get(a, k) > Get(c, k);
  }

  /** The event's own server found no room: its clock is the one it received. */
  lemma {:induction false} LostOwn(run: seq<Step<Key>>, e: nat, mine: Clock, theirs: Clock, h: Clock)
    requires IsRun(run) && e < |run| && run[e].Receive? && h == Merged(mine, theirs)
    requires mine == ClockAt(run, Prev(run, e)) && theirs == ClockAt(run, run[e].from)
    requires Keys(mine) == PastKeys(run, Prev(run, e)) && Sound(theirs) && Sound(h)
    requires Keys(mine) <= Keys(h) <= Keys(Ticked(h, run[e].node).0) && run[e].node !in Keys(Ticked(h, run[e].node).0)
    ensures Compared(theirs, Ticked(h, run[e].node).0) == 0
  {
    hide Keys, Get, Merged, Ticked, EntriesLe;
    FirstOnNode(run, e);
    TickRefused(h, run[e].node);
    MergedIntoNothing(theirs);
    EntriesLeIsLe(theirs, h);
    EntriesLeIsLe(h, theirs);
  }

  lemma {:induction false} FirstOnNode(run: seq<Step<Key>>, e: nat)
    requires IsRun(run) && e < |run| && run[e].node !in PastKeys(run, Prev(run, e))
    ensures Prev(run, e) == -1 && ClockAt(run, Prev(run, e)) == []
  {
  }

  lemma TickRefused(h: Clock, k: Key)
    requires k !in Keys(Ticked(h, k).0) && Keys(h) <= Keys(Ticked(h, k).0)
    ensures Ticked(h, k).0 == h
  {
    GetAbsent(h, k);
    var t := h + [Entry(k, 1)];
    assert t[|h|].key in Keys(t);
  }

  lemma {:induction false} MergedIntoNothing(s: Clock)
    requires Sound(s)
    ensures forall k :: Get(Merged([], s), k) == Get(s, k)
  {
    forall k ensures Get(Merged([], s), k) == Get(s, k) {
      KeyCount(s);
      assert Keys([]) + Keys(s) == Keys(s);
      MergedExact([], s, k);
    }
  }

  /** For every run: clock comparison coincides with causality for all pairs of events if and only if no event's causal
      past involves more than 32 servers. */
  lemma OrderIffFits(run: seq<Step<Key>>)
    requires IsRun(run) && |run| < U64
    ensures AllFit(run) <==> forall i, j :: 0 <= i < |run| && 0 <= j < |run| ==> TellsOrder(run, i, j)
  {
    if AllFit(run) {
      forall i, j | 0 <= i < |run| && 0 <= j < |run| ensures TellsOrder(run, i, j) {
        FitTellsOrder(run, i, j);
      }
    } else {
      var j :| 0 <= j < |run| && !Fits(run, j);
      var e := FirstMisfit(run, 0, j);
      var i := MisfitConfuses(run, e);
      DirectIsChain(run, i, e);
      assert !TellsOrder(run, i, e);
    }
  }

  lemma {:induction false} FirstMisfit(run: seq<Step<Key>>, i: nat, j: nat) returns (e: nat)
    requires IsRun(run) && i <= j < |run| && !Fits(run, j) && forall m :: 0 <= m < i ==> Fits(run, m)
    ensures e < |run| && !Fits(run, e) && forall m :: 0 <= m < e ==> Fits(run, m)
    decreases j - i
  {
    if Fits(run, i) {
      e := FirstMisfit(run, i + 1, j);
    } else {
      e := i;
    }
  }

  function Server(i: nat): Key
    requires i < 256
  {
    [0, 0, 0, 0, 0, 0, 0, i]
  }

  /** Thirty-three servers pass one message along, each ticking in its turn. */
  function Relay(): seq<Step<Key>> {
    seq(MAX_ENTRIES + 1, i requires 0 <= i < MAX_ENTRIES + 1 =>
      if i == 0 then Local(Server(0), 0) else Receive(Server(i), 0, i - 1))
  }

  ghost function FirstServers(n: nat): set<Key>
    requires n <= 256
  {
    if n == 0 then {} else FirstServers(n - 1) + {Server(n - 1)}
  }

  lemma {:induction false} CountServers(n: nat)
    requires n <= 256
    ensures |FirstServers(n)| == n && forall i :: n <= i < 256 ==> Server(i) !in FirstServers(n)
  {
    if n > 0 {
      CountServers(n - 1);
      assert forall i :: n <= i < 256 ==> Server(i)[7] != Server(n - 1)[7];
    }
  }

  lemma {:induction false} RelayPast(i: nat)
    requires i <= MAX_ENTRIES
    ensures IsRun(Relay()) && Prev(Relay(), i) == -1 && PastKeys(Relay(), i) == FirstServers(i + 1)
  {
    var run := Relay();
    assert forall j :: 0 <= j < i ==> run[j].node[7] != run[i].node[7];
    if i > 0 {
      RelayPast(i - 1);
    } else {
      assert FirstServers(1) == FirstServers(0) + {Server(0)};
    }
  }

  /** A server's first event hears of 32 others: it finds no room for itself and comes out equal to what it heard. */
  lemma {:induction false} NoRoomForNewcomer(run: seq<Step<Key>>, e: nat, f: nat)
    requires IsRun(run) && e < |run| < U64 && run[e].Receive? && run[e].from == f && Prev(run, e) == -1
    requires |PastKeys(run, f)| == MAX_ENTRIES && run[e].node !in PastKeys(run, f)
    ensures !Fits(run, e) && HappensBefore(run, f, e) && Compared(ClockAt(run, f), ClockAt(run, e)) == 0
  {
    hide Merged, Get, EntriesLe, Compared, Keys, Ticked, Known, PastKeys, HappensBefore;
    OneServerMore(run, e, f);
    DirectIsChain(run, f, e);
    ClockExact(run, f);
    var theirs := ClockAt(run, f);
    var h := Merged([], theirs);
    KeyCount(theirs);
    IntoNothing(theirs);
    FullTick(h, run[e].node);
    LostOwn(run, e, [], theirs, h);
  }

  lemma {:induction false} OneServerMore(run: seq<Step<Key>>, e: nat, f: nat)
    requires IsRun(run) && e < |run| && run[e].Receive? && run[e].from == f && Prev(run, e) == -1
    requires run[e].node !in PastKeys(run, f)
    ensures |PastKeys(run, e)| == |PastKeys(run, f)| + 1 && PastKeys(run, -1) == {} == Keys([])
  {
    assert PastKeys(run, e) == PastKeys(run, f) + {run[e].node};
  }

  lemma {:induction false} IntoNothing(s: Clock)
    requires Sound(s)
    ensures var h := Merged([], s); Sound(h) && Keys(h) == Keys(s) && |h| == |s| && Keys([]) <= Keys(h)
  {
    hide Merged, Get;
    KeyCount(s);
    assert Keys([]) + Keys(s) == Keys(s);
    MergedExact([], s, [0, 0, 0, 0, 0, 0, 0, 0]);
    MergedKeeps([], s);
    KeyCount(Merged([], s));
  }

  lemma FullTick(h: Clock, k: Key)
    requires |h| == MAX_ENTRIES && k !in Keys(h)
    ensures Ticked(h, k).0 == h
  {
    GetAbsent(h, k);
  }

  /** The last server of the relay is such a newcomer. */
  lemma RelayConfuses()
    ensures IsRun(Relay()) && |Relay()| == MAX_ENTRIES + 1 && !AllFit(Relay())
    ensures HappensBefore(Relay(), MAX_ENTRIES - 1, MAX_ENTRIES)
    ensures Compared(ClockAt(Relay(), MAX_ENTRIES - 1), ClockAt(Relay(), MAX_ENTRIES)) == 0
  {
    hide ClockAt, Compared, PastKeys, FirstServers, HappensBefore;
    var run, e := Relay(), MAX_ENTRIES;
    RelayPast(e - 1);
    RelayPast(e);
    CountServers(e);
    NoRoomForNewcomer(run, e, e - 1);
  }

  /** In particular for any run over at most 32 servers. */
  lemma FewServers(run: seq<Step<Key>>, servers: set<Key>)
    requires IsRun(run) && |servers| <= MAX_ENTRIES && forall i :: 0 <= i < |run| ==> run[i].node in servers
    ensures AllFit(run)
  {
    forall i | 0 <= i < |run| ensures Fits(run, i) {
      PastWithin(run, i, servers);
      SubsetSize(PastKeys(run, i), servers);
    }
  }

  lemma {:induction false} PastWithin(run: seq<Step<Key>>, i: int, servers: set<Key>)
    requires IsRun(run) && -1 <= i < |run| && forall i :: 0 <= i < |run| ==> run[i].node in servers
    ensures PastKeys(run, i) <= servers
    decreases i + 1
  {
    if i >= 0 {
      PastWithin(run, Prev(run, i), servers);
      if run[i].Receive? { PastWithin(run, run[i].from, servers); }
    }
  }
}

/** The wire form: a count byte, then 8 key bytes and a big-endian 64-bit counter per entry. */
module VClockWire {
  import opened Common
  import Ring
  import opened ByteOrder
  import opened VClockSpec

  lemma DivDiv(c: nat, a: nat, b: nat)
    requires a > 0 && b > 0
    ensures a * b > 0 && c / a / b == c / (a * b)
  {
    var q := c / a;
    DivDivParts(c, a, b, q, c % a, q / b, q % b);
  }

  lemma DivDivParts(c: nat, a: nat, b: nat, q: nat, r: nat, d: nat, e: nat)
    requires c == a * q + r && r < a && q == b * d + e && e < b
    ensures a * b > 0 && c / (a * b) == d
  {
    Regroup(a, b, d, e, r);
    Ring.MulStep(a, e, b);
    Ring.Remainder(c, a * b, d, a * e + r);
  }

  lemma Regroup(a: nat, b: nat, d: nat, e: nat, r: nat)
    ensures a * (b * d + e) + r == a * b * d + (a * e + r)
  {
    assert a * (b * d + e) == a * (b * d) + a * e;
    assert a * (b * d) == a * b * d;
  }

  /** Byte j of n is the number shifted right by the bytes after it. */
  lemma {:induction false} ByteAt(c: nat, n: nat, j: nat)
    requires j < n
    ensures BigEndian(c, n)[j] == c / Pow256(n - 1 - j) % 256
    decreases n
  {
    if j < n - 1 {
      ByteAt(c / 256, n - 1, j);
      DivDiv(c, 256, Pow256(n - 2 - j));
    }
  }

  /** The eight shifts of the encoder. */
  function Shifted(c: nat): seq<Byte> {
    [c / 0x100_0000_0000_0000 % 256, c / 0x1_0000_0000_0000 % 256, c / 0x100_0000_0000 % 256, c / 0x1_0000_0000 % 256,
     c / 0x100_0000 % 256, c / 0x1_0000 % 256, c / 0x100 % 256, c % 256]
  }

  lemma Powers()
    ensures Pow256(0) == 1 && Pow256(1) == 0x100 && Pow256(2) == 0x1_0000 && Pow256(3) == 0x100_0000
    ensures Pow256(4) == 0x1_0000_0000 && Pow256(5) == 0x100_0000_0000 && Pow256(6) == 0x1_0000_0000_0000
    ensures Pow256(7) == 0x100_0000_0000_0000 && Pow256(8) == U64
  {
    assert Pow256(3) == 256 * Pow256(2);
    assert Pow256(4) == 256 * Pow256(3);
    assert Pow256(5) == 256 * Pow256(4);
    assert Pow256(6) == 256 * Pow256(5);
  }

  lemma {:induction false} ShiftedIsBigEndian(c: nat)
    ensures Shifted(c) == BigEndian(c, 8)
  {
    Powers();
    forall j | 0 <= j < 8 ensures Shifted(c)[j] == BigEndian(c, 8)[j] {
      ByteAt(c, 8, j);
    }
  }

  /** The eight shifts of the decoder, whose bits do not overlap. */
  function Gathered(b: seq<Byte>): nat
    requires |b| == 8
  {
    var d: seq<int> := b;
    d[0] * 0x100_0000_0000_0000 + d[1] * 0x1_0000_0000_0000 + d[2] * 0x100_0000_0000 + d[3] * 0x1_0000_0000
    + d[4] * 0x100_0000 + d[5] * 0x1_0000 + d[6] * 0x100 + d[7]
  }

  lemma {:induction false} GatheredIsValue(b: seq<Byte>)
    requires |b| == 8
    ensures Gathered(b) == Value(b)
  {
    assert Value(b) == Value(b[..7]) * 256 + b[7];
    assert b[..7][..6] == b[..6] && b[..6][..5] == b[..5] && b[..5][..4] == b[..4] && b[..4][..3] == b[..3];
    assert Value(b[..7]) == Value(b[..6]) * 256 + b[6];
    assert Value(b[..6]) == Value(b[..5]) * 256 + b[5];
    assert Value(b[..5]) == Value(b[..4]) * 256 + b[4];
    assert Value(b[..4]) == Value(b[..3]) * 256 + b[3];
    assert b[..3][..2] == b[..2] && b[..2][..1] == b[..1] && b[..1][..0] == [];
    assert Value(b[..3]) == Value(b[..2]) * 256 + b[2];
    assert Value(b[..2]) == Value(b[..1]) * 256 + b[1];
    assert Value(b[..1]) == b[0];
  }

  // ---- whole clocks ------------------------------------------------------------------------------

  function EntryBytes(e: Entry): (b: seq<Byte>)
    ensures |b| == 16
  {
    e.key + BigEndian(e.counter, 8)
  }

  function Body(c: Clock): (b: seq<Byte>)
    ensures |b| == 16 * |c|
  {
    if c == [] then [] else EntryBytes(c[0]) + Body(c[1..])
  }

  function Wire(c: Clock): (b: seq<Byte>)
    requires |c| <= MAX_ENTRIES
    ensures |b| == 1 + 16 * |c|
  {
    [|c|] + Body(c)
  }

  function EntryOf(b: seq<Byte>): Entry
    requires |b| == 16
  {
    Entry(b[..8], Value(b[8..]))
  }

  function Entries(b: seq<Byte>, n: nat): (c: Clock)
    requires 16 * n <= |b|
    ensures |c| == n
    decreases n
  {
    if n == 0 then [] else [EntryOf(b[..16])] + Entries(b[16..], n - 1)
  }

  /** The clock read from a buffer and the bytes consumed; nothing when the count is too large or bytes are missing. */
  function Decoded(b: seq<Byte>): Option<(Clock, nat)> {
    if |b| < 1 then None else
      var n: nat := b[0];
      if n > MAX_ENTRIES || |b| < 1 + n * 16 then None
      else Some((Entries(b[1..], n), 1 + n * 16))
  }

  predicate Counters(c: Clock) {
    forall i :: 0 <= i < |c| ==> c[i].counter < U64
  }

  lemma EntryRoundTrip(e: Entry)
    requires e.counter < U64
    ensures EntryOf(EntryBytes(e)) == e
  {
    Powers();
    ValueOfBigEndian(e.counter, 8);
  }

  lemma BytesRoundTrip(b: seq<Byte>)
    requires |b| == 16
    ensures EntryBytes(EntryOf(b)) == b && EntryOf(b).counter < U64
  {
    Powers();
    BigEndianOfValue(b[8..]);
    assert b == b[..8] + b[8..];
  }

  lemma {:induction false} EntriesOfBody(c: Clock, rest: seq<Byte>)
    requires Counters(c)
    ensures Entries(Body(c) + rest, |c|) == c
    decreases |c|
  {
    hide EntryBytes, EntryOf;
    if c != [] {
      var b := Body(c) + rest;
      EntriesOfBody(c[1..], rest);
      EntryRoundTrip(c[0]);
      assert b[..16] == EntryBytes(c[0]);
      assert b[16..] == Body(c[1..]) + rest;
    }
  }

  /** Decoding undoes encoding, whatever follows in the buffer. */
  lemma DecodeEncode(c: Clock, rest: seq<Byte>)
    requires |c| <= MAX_ENTRIES && Counters(c)
    ensures Decoded(Wire(c) + rest) == Some((c, 1 + 16 * |c|))
  {
    hide Counters;
    assert (Wire(c) + rest)[1..] == Body(c) + rest;
    EntriesOfBody(c, rest);
  }

  lemma {:induction false} BodyOfEntries(b: seq<Byte>, n: nat)
    requires 16 * n <= |b|
    ensures Body(Entries(b, n)) == b[..16 * n] && Counters(Entries(b, n))
    decreases n
  {
    hide EntryBytes, EntryOf;
    if n > 0 {
      BodyOfEntries(b[16..], n - 1);
      BytesRoundTrip(b[..16]);
      assert b[..16 * n] == b[..16] + b[16..][..16 * (n - 1)];
    }
  }

  /** One turn of the encoding loop, and one of the decoding loop. */
  lemma {:induction false} NextBytes(done: seq<Byte>, c: Clock)
    requires c != []
    ensures done + EntryBytes(c[0]) + Body(c[1..]) == done + Body(c)
  {
    hide EntryBytes;
  }

  lemma NextEntry(done: Clock, rest: seq<Byte>, k: nat)
    requires k > 0 && 16 * k <= |rest|
    ensures done + [EntryOf(rest[..16])] + Entries(rest[16..], k - 1) == done + Entries(rest, k)
  {
    hide EntryOf;
  }

  /** And encoding gives back the bytes that were decoded. */
  lemma EncodeDecode(b: seq<Byte>)
    requires Decoded(b).Some?
    ensures var (c, n) := Decoded(b).value; |c| <= MAX_ENTRIES && Counters(c) && n <= |b| && Wire(c) == b[..n]
  {
    var k: nat := b[0];
    BodyOfEntries(b[1..], k);
    assert b[..1 + 16 * k] == [b[0]] + b[1..][..16 * k];
  }
}

/** The clock updated in place, as include/op_vclock.h does. */
module VClock {
  import opened Common
  import opened ByteOrder
  import opened VClockSpec
  import opened VClockWire

  class VClock {
    const entries: array<Entry>
    var count: nat

    ghost predicate Shaped()
      reads this
    {
      entries.Length == MAX_ENTRIES && count <= MAX_ENTRIES
    }

    ghost function Contents(): Clock
      reads this, entries
      requires Shaped()
    {
      entries[..count]
    }

    constructor ()
      ensures Shaped() && fresh(entries) && Contents() == []
    {
      entries := new Entry[MAX_ENTRIES](_ => Entry([0, 0, 0, 0, 0, 0, 0, 0], 0));
      count := 0;
    }

    method Find(k: Key) returns (i: int)
      requires Shaped()
      ensures i == FindFrom(Contents(), k, 0)
    {
      i := 0;
      while i < count
        invariant 0 <= i <= count && FindFrom(Contents(), k, 0) == FindFrom(Contents(), k, i)
      {
        if entries[i].key == k {
          return;
        }
        i := i + 1;
      }
      return -1;
    }

    method GetCounter(k: Key) returns (n: nat)
      requires Shaped()
      ensures n == Get(Contents(), k)
    {
      var i := Find(k);
      return if i >= 0 then entries[i].counter else 0;
    }

    method Tick(k: Key) returns (n: nat)
      requires Shaped()
      modifies this`count, entries
      ensures Shaped() && (Contents(), n) == Ticked(old(Contents()), k)
    {
      var i := Find(k);
      if i >= 0 {
        n := (entries[i].counter + 1) % U64;
        entries[i] := Entry(entries[i].key, n);
        return;
      }
      if count >= MAX_ENTRIES {
        return 0;
      }
      entries[count] := Entry(k, 1);
      count := count + 1;
      assert Contents() == old(Contents()) + [Entry(k, 1)];
      return 1;
    }

    method MergeEntry(e: Entry)
      requires Shaped()
      modifies this`count, entries
      ensures Shaped() && Contents() == MergeOne(old(Contents()), e)
    {
      var i := Find(e.key);
      if i >= 0 {
        if e.counter > entries[i].counter {
          entries[i] := Entry(entries[i].key, e.counter);
        }
      } else if count < MAX_ENTRIES {
        entries[count] := e;
        count := count + 1;
      }
    }

    /** Merging a clock with itself changes nothing. */
    method Merge(src: VClock)
      requires Shaped() && src.Shaped() && (src != this ==> src.entries != entries)
      modifies this`count, entries
      ensures Shaped() && src.Shaped()
      ensures src != this ==> Contents() == Merged(old(Contents()), old(src.Contents())) && src.Contents() == old(src.Contents())
      ensures src == this && DistinctKeys(old(Contents())) ==> Contents() == old(Contents())
    {
      var i := 0;
      ghost var d, s := Contents(), src.Contents();
      while i < src.count
        invariant Shaped() && src.Shaped() && i <= src.count
        invariant src != this ==> src.Contents() == s && Contents() == Merged(d, s[..i])
        invariant src == this && DistinctKeys(d) ==> Contents() == d
        decreases MAX_ENTRIES - i
      {
        var e := src.entries[i];
        assert src != this ==> s[..i + 1][..i] == s[..i] && s[..i + 1][i] == e;
        assert src == this && DistinctKeys(d) ==> d[i] == e && FindFrom(d, e.key, 0) == i;
        MergeEntry(e);
        i := i + 1;
      }
      assert src != this ==> s[..i] == s;
    }

    /** One direction of the comparison: adds what a's entries say. */
    static method Scan(a: VClock, b: VClock) returns (le: bool, ge: bool)
      requires a.Shaped() && b.Shaped()
      ensures le <==> forall i :: 0 <= i < a.count ==> a.entries[i].counter <= Get(b.Contents(), a.entries[i].key)
      ensures ge <==> forall i :: 0 <= i < a.count ==> a.entries[i].counter >= Get(b.Contents(), a.entries[i].key)
    {
      le, ge := true, true;
      var i := 0;
      while i < a.count
        invariant 0 <= i <= a.count
        invariant le <==> forall j :: 0 <= j < i ==> a.entries[j].counter <= Get(b.Contents(), a.entries[j].key)
        invariant ge <==> forall j :: 0 <= j < i ==> a.entries[j].counter >= Get(b.Contents(), a.entries[j].key)
      {
        var n := b.GetCounter(a.entries[i].key);
        if a.entries[i].counter > n { le := false; }
        if a.entries[i].counter < n { ge := false; }
        i := i + 1;
      }
    }

    static method Cmp(a: VClock, b: VClock) returns (r: int)
      requires a.Shaped() && b.Shaped()
      ensures r == Compared(a.Contents(), b.Contents())
    {
      hide Get;
      var le1, ge1 := Scan(a, b);
      var ge2, le2 := Scan(b, a);
      ghost var x, y := a.Contents(), b.Contents();
      assert forall i :: 0 <= i < a.count ==> a.entries[i] == x[i];
      assert forall i :: 0 <= i < b.count ==> b.entries[i] == y[i];
      assert EntriesLe(x, y) <==> le1 && le2;
      assert EntriesLe(y, x) <==> ge1 && ge2;
      if le1 && le2 && ge1 && ge2 { return 0; }
      if le1 && le2 { return -1; }
      if ge1 && ge2 { return 1; }
      return 2;
    }

    /** Copies bytes to pos. */
    static method Put(b: seq<Byte>, out: array<Byte>, pos: nat)
      requires pos + |b| <= out.Length
      modifies out
      ensures out[..pos] == old(out[..pos]) && out[pos..pos + |b|] == b && out[pos + |b|..] == old(out[pos + |b|..])
    {
      for j := 0 to |b|
        invariant forall x :: 0 <= x < out.Length && !(pos <= x < pos + j) ==> out[x] == old(out[x])
        invariant forall x :: 0 <= x < j ==> out[pos + x] == b[x]
      {
        out[pos + j] := b[j];
      }
    }

    static method PutEntry(e: Entry, out: array<Byte>, pos: nat)
      requires pos + 16 <= out.Length
      modifies out
      ensures out[..pos] == old(out[..pos]) && out[pos..pos + 16] == EntryBytes(e) && out[pos + 16..] == old(out[pos + 16..])
    {
      Put(e.key, out, pos);
      ghost var k := out[pos..pos + 8];
      ghost var low := out[..pos];
      label L:
      Put(Shifted(e.counter), out, pos + 8);
      ShiftedIsBigEndian(e.counter);
      assert out[..pos + 8] == old@L(out[..pos + 8]);
      assert out[..pos] == out[..pos + 8][..pos] && low == old@L(out[..pos + 8])[..pos];
      assert out[pos..pos + 8] == out[..pos + 8][pos..] && k == old@L(out[..pos + 8])[pos..];
      assert out[pos..pos + 16] == out[pos..pos + 8] + out[pos + 8..pos + 16];
      assert old@L(out[pos + 16..]) == old@L(out[pos + 8..])[8..];
    }

    /** 0 and nothing written when the buffer is too small. */
    method Encode(out: array<Byte>, cap: nat) returns (n: nat)
      requires Shaped() && cap <= out.Length
      modifies out
      ensures cap < 1 + count * 16 ==> n == 0 && out[..] == old(out[..])
      ensures cap >= 1 + count * 16 ==> n == 1 + count * 16 && out[..n] == Wire(Contents()) && out[n..] == old(out[n..])
    {
      hide EntryBytes, Body;
      if cap < 1 + count * 16 {
        return 0;
      }
      out[0] := count;
      n := 1;
      ghost var c := Contents();
      assert c[0..] == c;
      var i := 0;
      while i < count
        invariant 0 <= i <= count && n == 1 + 16 * i && Contents() == c
        invariant out[..n] + Body(c[i..]) == Wire(c) && out[n..] == old(out[n..])
      {
        assert entries[i] == c[i..][0] && c[i..][1..] == c[i + 1..];
        ghost var done := out[..n];
        PutEntry(entries[i], out, n);
        assert out[..n + 16] == done + EntryBytes(c[i]);
        NextBytes(done, c[i..]);
        n := n + 16;
        i := i + 1;
      }
      assert |Body(c[i..])| == 0;
    }

    static method TakeEntry(buf: array<Byte>, pos: nat) returns (e: Entry)
      requires pos + 16 <= buf.Length
      ensures e == EntryOf(buf[pos..pos + 16])
    {
      hide Value, Gathered;
      GatheredIsValue(buf[pos + 8..pos + 16]);
      e := Entry(buf[pos..pos + 8], Gathered(buf[pos + 8..pos + 16]));
      ghost var b := buf[pos..pos + 16];
      assert b[..8] == buf[pos..pos + 8] && b[8..] == buf[pos + 8..pos + 16];
    }

    /** 0 and nothing written when the buffer is malformed. */
    method Decode(buf: array<Byte>, len: nat) returns (n: nat)
      requires Shaped() && len <= buf.Length
      modifies this`count, entries
      ensures Shaped()
      ensures Decoded(buf[..len]).None? ==> n == 0 && Contents() == old(Contents())
      ensures Decoded(buf[..len]).Some? ==> Decoded(buf[..len]).value == (Contents(), n)
    {
      if len < 1 {
        return 0;
      }
      var cnt: nat := buf[0];
      if cnt > MAX_ENTRIES || len < 1 + cnt * 16 {
        return 0;
      }
      count := cnt;
      n := TakeAll(buf, buf[..len][1..], cnt);
    }

    /** Reads cnt entries that start after the count byte. */
    method TakeAll(buf: array<Byte>, ghost b: seq<Byte>, cnt: nat) returns (n: nat)
      requires entries.Length == MAX_ENTRIES && cnt <= MAX_ENTRIES && 16 * cnt <= |b| < buf.Length && b == buf[1..|b| + 1]
      modifies entries
      ensures n == 1 + 16 * cnt && entries[..cnt] == Entries(b, cnt)
    {
      hide EntryOf, Entries;
      n := 1;
      var i := 0;
      ghost var rest := b;
      while i < cnt
        invariant 0 <= i <= cnt && n == 1 + 16 * i && rest == b[n - 1..]
        invariant entries[..i] + Entries(rest, cnt - i) == Entries(b, cnt)
      {
        assert rest[..16] == buf[n..n + 16];
        ghost var done := entries[..i];
        entries[i] := TakeEntry(buf, n);
        assert entries[..i + 1] == done + [EntryOf(rest[..16])];
        NextEntry(done, rest, cnt - i);
        rest := rest[16..];
        n := n + 16;
        i := i + 1;
      }
    }
  }
}
