/** The asynchronous log of src/async_log.c: producers push entries on a Treiber stack by compare-and-swap and wake the
    writer through a flag and a file descriptor; the writer detaches the whole stack, reverses it and delivers it.
    Every atomic access is one step of one thread, sequentially consistent.  Addresses freed by the writer may be
    handed out again by the allocator. */
module AsyncLog {
  import opened Common

  type Tid = nat
  type Addr = nat
  type Msg = nat

  datatype Entry = Entry(msg: Msg, next: Option<Addr>)

  datatype Pc =
    | Idle
    | Loading(e: Addr)                         // entry filled, about to load the stack top
    | Swapping(e: Addr, seen: Option<Addr>)  // e->next set, about to compare-and-swap
    | Flagging                                 // pushed, about to exchange the pending flag
    | Signalling                               // saw the flag clear, about to write the fd

  /** `final` tells the drain after the loop from those inside it. */
  datatype Writer =
    | Checking                                                       // about to read log_stop
    | Polling                                                        // in the timed poll
    | Reading                                                        // about to read the fd
    | Clearing                                                       // about to store pending = 0
    | Detaching(final: bool)                                         // about to exchange the stack top
    | Reversing(head: Option<Addr>, rev: Option<Addr>, final: bool)
    | Delivering(rev: Option<Addr>, final: bool)
    | Exited

  datatype Role = Mine(t: Tid) | At(g: nat)
  datatype Push = Push(addr: Addr, msg: Msg)

  /** Shared memory and threads; then the history: `pushed` in CAS order, of which the first d were delivered, those up to
      b were detached, and those from m to b have been reversed; `role` says who holds each allocated entry. */
  datatype State = State(
    mem: map<Addr, Entry>, top: Option<Addr>, flag: bool, fd: nat, pcs: map<Tid, Pc>, writer: Writer,
    stop: bool, hook: bool, delivered: seq<Msg>,
    pushed: seq<Push>, d: nat, m: nat, b: nat, role: map<Addr, Role>)

  datatype Action =
    | Begin(t: Tid, e: Addr, msg: Msg) | LoadTop(t: Tid) | Swap(t: Tid) | SwapFails(t: Tid) | Flag(t: Tid) | Signal(t: Tid)
    | Check | Wake | ReadFd(all: bool) | Clear | Detach | Reverse | Deliver
    | Unhook | Stop | StopSignal

  predicate Init(s: State) {
    && s.mem == map[] && s.top == None && !s.flag && s.fd == 0 && s.writer == Checking && !s.stop && s.hook
    && (forall t :: t in s.pcs ==> s.pcs[t] == Idle)
    && s.delivered == [] && s.pushed == [] && s.d == s.m == s.b == 0 && s.role == map[]
  }

  predicate Enabled(s: State, a: Action) {
    match a
    case Begin(t, e, _) => t in s.pcs && s.pcs[t].Idle? && s.hook && e !in s.mem
    case LoadTop(t) => t in s.pcs && s.pcs[t].Loading?
    case Swap(t) => t in s.pcs && s.pcs[t].Swapping?
    case SwapFails(t) => t in s.pcs && s.pcs[t].Swapping?
    case Flag(t) => t in s.pcs && s.pcs[t].Flagging?
    case Signal(t) => t in s.pcs && s.pcs[t].Signalling?
    case Check => s.writer.Checking?
    case Wake => s.writer.Polling?
    case ReadFd(_) => s.writer.Reading?
    case Clear => s.writer.Clearing?
    case Detach => s.writer.Detaching?
    case Reverse => s.writer.Reversing?
    case Deliver => s.writer.Delivering?
    case Unhook => true
    case Stop => !s.hook
    case StopSignal => s.stop
  }

  function Moved(s: State, t: Tid, pc: Pc): State {
    s.(pcs := s.pcs[t := pc])
  }

  function EntryAt(s: State, a: Addr): Entry {
    if a in s.mem then s.mem[a] else Entry(0, None)
  }

  /** Sets e->next to what the producer believes is the top. */
  function Expecting(s: State, t: Tid, e: Addr): State {
    Moved(s, t, Swapping(e, s.top)).(mem := s.mem[e := EntryAt(s, e).(next := s.top)])
  }

  function AfterSwap(s: State, t: Tid): State
    requires Enabled(s, Swap(t))
  {
    var (e, seen) := (s.pcs[t].e, s.pcs[t].seen);
    if s.top == seen then
      Moved(s, t, Flagging).(top := Some(e), pushed := s.pushed + [Push(e, EntryAt(s, e).msg)], role := s.role[e := At(|s.pushed|)])
    else Expecting(s, t, e)
  }

  /** One turn of the reversing loop, or on to delivery. */
  function AfterReverse(s: State): State
    requires Enabled(s, Reverse)
  {
    var w := s.writer;
    match w.head
    case None => s.(writer := Delivering(w.rev, w.final))
    case Some(a) =>
      s.(mem := s.mem[a := EntryAt(s, a).(next := w.rev)], m := if s.m > 0 then s.m - 1 else 0,
         writer := Reversing(EntryAt(s, a).next, Some(a), w.final))
  }

  function AfterDeliver(s: State): State
    requires Enabled(s, Deliver)
  {
    var w := s.writer;
    match w.rev
    case None => s.(writer := if w.final then Exited else Checking)
    case Some(a) =>
      s.(delivered := s.delivered + [EntryAt(s, a).msg], mem := s.mem - {a}, role := s.role - {a}, d := s.d + 1,
         m := s.d + 1, writer := Delivering(EntryAt(s, a).next, w.final))
  }

  function Next(s: State, a: Action): State
    requires Enabled(s, a)
  {
    match a
    case Begin(t, e, msg) => Moved(s, t, Loading(e)).(mem := s.mem[e := Entry(msg, None)], role := s.role[e := Mine(t)])
    case LoadTop(t) => Expecting(s, t, s.pcs[t].e)
    case Swap(t) => AfterSwap(s, t)
    case SwapFails(t) => Expecting(s, t, s.pcs[t].e)
    case Flag(t) => Moved(s, t, if s.flag then Idle else Signalling).(flag := true)
    case Signal(t) => Moved(s, t, Idle).(fd := s.fd + 1)
    case Check => s.(writer := if s.stop then Detaching(true) else Polling)
    case Wake => s.(writer := Reading)
    case ReadFd(all) => s.(fd := if all || s.fd == 0 then 0 else s.fd - 1, writer := Clearing)
    case Clear => s.(flag := false, writer := Detaching(false))
    case Detach =>
      s.(top := None, m := |s.pushed|, b := |s.pushed|,
         writer := if s.top.None? then (if s.writer.final then Exited else Checking) else Reversing(s.top, None, s.writer.final))
    case Reverse => AfterReverse(s)
    case Deliver => AfterDeliver(s)
    case Unhook => s.(hook := false)
    case Stop => s.(stop := true)
    case StopSignal => s.(fd := s.fd + 1)
  }

  ghost predicate IsRun(trace: seq<State>, acts: seq<Action>) {
    && |trace| == |acts| + 1 && Init(trace[0])
    && forall i :: 0 <= i < |acts| ==> Enabled(trace[i], acts[i]) && trace[i + 1] == Next(trace[i], acts[i])
  }

  // ---- the invariant -----------------------------------------------------------------------------

  /** The address of push g, for a list that stops outside [lo, hi). */
  function AddrIn(s: State, g: int, lo: int, hi: int): Option<Addr> {
    if lo <= g < hi && 0 <= g < |s.pushed| then Some(s.pushed[g].addr) else None
  }

  /** Which entry follows that of push g: the one pushed before it while stacked or detached, the one pushed after it once
      reversed. */
  function Follows(s: State, g: int): Option<Addr> {
    if g >= s.b then AddrIn(s, g - 1, s.b, |s.pushed|)
    else if g >= s.m then AddrIn(s, g + 1, s.m, s.b)
    else AddrIn(s, g - 1, s.d, s.m)
  }

  predicate EntryOk(s: State, g: int)
    requires 0 <= g < |s.pushed|
  {
    var a := s.pushed[g].addr;
    a in s.mem && a in s.role && s.role[a] == At(g) && s.mem[a] == Entry(s.pushed[g].msg, Follows(s, g))
  }

  ghost predicate ListsOk(s: State) {
    && s.d <= s.m <= s.b <= |s.pushed|
    && (forall g :: s.d <= g < |s.pushed| ==> EntryOk(s, g))
    && s.top == AddrIn(s, |s.pushed| - 1, s.b, |s.pushed|)
  }

  predicate PcOk(s: State, t: Tid, pc: Pc) {
    match pc
    case Loading(e) => e in s.mem && e in s.role && s.role[e] == Mine(t)
    case Swapping(e, seen) => e in s.mem && e in s.role && s.role[e] == Mine(t) && s.mem[e].next == seen
    case _ => true
  }

  ghost predicate PcsOk(s: State) {
    && (forall t :: t in s.pcs ==> PcOk(s, t, s.pcs[t]))
    && (forall a :: a in s.role <==> a in s.mem)
  }

  ghost predicate WriterOk(s: State) {
    match s.writer
    case Reversing(head, rev, _) => head == AddrIn(s, s.m - 1, s.d, s.m) && rev == AddrIn(s, s.m, s.m, s.b)
    case Delivering(rev, _) => s.m == s.d && rev == AddrIn(s, s.d, s.d, s.b)
    case _ => s.d == s.m == s.b
  }

  function Msgs(p: seq<Push>, n: nat): (r: seq<Msg>)
    requires n <= |p|
    ensures |r| == n && forall g :: 0 <= g < n ==> r[g] == p[g].msg
  {
    if n == 0 then [] else Msgs(p, n - 1) + [p[n - 1].msg]
  }

  ghost predicate LogOk(s: State) {
    s.d <= |s.pushed| && s.delivered == Msgs(s.pushed, s.d)
  }

  ghost predicate SomeFlagging(s: State) {
    exists t :: t in s.pcs && s.pcs[t].Flagging?
  }

  ghost predicate SomeSignalling(s: State) {
    exists t :: t in s.pcs && s.pcs[t].Signalling?
  }

  /** A set flag has been or will be signalled, unless the writer has just read the fd; a stacked entry has been or will be
      flagged, unless the writer is about to detach it. */
  ghost predicate WakeOk(s: State) {
    && (s.flag && !s.writer.Clearing? ==> s.fd > 0 || SomeSignalling(s))
    && (s.b < |s.pushed| && !s.writer.Detaching? ==> s.flag || SomeFlagging(s))
  }

  ghost predicate Inv(s: State) {
    ListsOk(s) && PcsOk(s) && WriterOk(s) && LogOk(s) && WakeOk(s)
  }

  // ---- frames --------------------------------------------------------------------------------------

  /** Entries already pushed are as they were. */
  ghost predicate PushedSame(s: State, s': State) {
    forall a :: a in s.role && a in s.mem && s.role[a].At? ==> a in s'.role && a in s'.mem && s'.role[a] == s.role[a] && s'.mem[a] == s.mem[a]
  }

  /** So are entries held by producers other than t. */
  ghost predicate OthersSame(s: State, s': State, t: int) {
    forall a :: a in s.role && a in s.mem && s.role[a].Mine? && s.role[a].t != t ==>
                  a in s'.role && a in s'.mem && s'.role[a] == s.role[a] && s'.mem[a] == s.mem[a]
  }

  lemma ListsFrame(s: State, s': State)
    requires ListsOk(s) && s'.pushed == s.pushed && s'.d == s.d && s'.m == s.m && s'.b == s.b && s'.top == s.top &&
             PushedSame(s, s')
    ensures ListsOk(s')
  {
    forall g | s.d <= g < |s.pushed| ensures EntryOk(s', g) { assert EntryOk(s, g); }
  }

  lemma PcsFrame(s: State, s': State, t: int)
    requires PcsOk(s) && OthersSame(s, s', t) && forall a :: a in s'.role <==> a in s'.mem
    requires forall u :: u in s'.pcs && u != t ==> u in s.pcs && s'.pcs[u] == s.pcs[u]
    requires t in s'.pcs ==> PcOk(s', t, s'.pcs[t])
    ensures PcsOk(s')
  {
    forall u | u in s'.pcs && u != t ensures PcOk(s', u, s'.pcs[u]) { assert PcOk(s, u, s.pcs[u]); }
  }

  lemma WriterFrame(s: State, s': State)
    requires WriterOk(s) && s'.writer == s.writer && s'.d == s.d && s'.m == s.m <= s'.b == s.b <= |s.pushed| &&
             s.pushed <= s'.pushed
    ensures WriterOk(s')
  {
  }

  lemma WakeFrame(s: State, s': State, t: int)
    requires WakeOk(s) && s'.flag == s.flag && s'.fd == s.fd && s'.b == s.b && s'.writer == s.writer
    requires |s'.pushed| == |s.pushed| || (t in s'.pcs && s'.pcs[t].Flagging?)
    requires t in s.pcs ==> !s.pcs[t].Flagging? && !s.pcs[t].Signalling?
    requires forall u :: u in s.pcs && u != t ==> u in s'.pcs && s'.pcs[u] == s.pcs[u]
    ensures WakeOk(s')
  {
    if u :| u in s.pcs && s.pcs[u].Flagging? { assert u in s'.pcs && s'.pcs[u].Flagging?; }
    if u :| u in s.pcs && s.pcs[u].Signalling? { assert u in s'.pcs && s'.pcs[u].Signalling?; }
  }

  // ---- every step keeps the invariant -------------------------------------------------------------

  lemma BeginStep(s: State, t: Tid, e: Addr, msg: Msg)
    requires Inv(s) && Enabled(s, Begin(t, e, msg))
    ensures Inv(Next(s, Begin(t, e, msg)))
  {
    hide ListsOk, WriterOk, LogOk, WakeOk;
    var s' := Next(s, Begin(t, e, msg));
    ListsFrame(s, s');
    PcsFrame(s, s', t);
    InRange(s);
    WriterFrame(s, s');
    WakeFrame(s, s', t);
    LogFrame(s, s');
  }

  lemma InRange(s: State)
    requires ListsOk(s)
    ensures s.d <= s.m <= s.b <= |s.pushed|
  {
  }

  lemma LogFrame(s: State, s': State)
    requires LogOk(s) && s'.d == s.d && s.pushed <= s'.pushed && s'.delivered == s.delivered
    ensures LogOk(s')
  {
    SamePrefix(s.pushed, s'.pushed, s.d);
  }

  lemma {:induction false} SamePrefix(p: seq<Push>, q: seq<Push>, n: nat)
    requires n <= |p| && p <= q
    ensures Msgs(p, n) == Msgs(q, n)
  {
    if n > 0 { SamePrefix(p, q, n - 1); }
  }

  lemma ExpectStep(s: State, t: Tid, e: Addr, s': State)
    requires Inv(s) && t in s.pcs && (s.pcs[t] == Loading(e) || (s.pcs[t].Swapping? && s.pcs[t].e == e)) &&
             s' == Expecting(s, t, e)
    ensures Inv(s')
  {
    hide ListsOk, WriterOk, LogOk, WakeOk;
    assert PcOk(s, t, s.pcs[t]);
    ListsFrame(s, s');
    PcsFrame(s, s', t);
    InRange(s);
    WriterFrame(s, s');
    WakeFrame(s, s', t);
    LogFrame(s, s');
  }

  lemma SwapLists(s: State, t: Tid, s': State)
    requires ListsOk(s) && Enabled(s, Swap(t)) && PcOk(s, t, s.pcs[t]) && s.top == s.pcs[t].seen &&
             s' == AfterSwap(s, t)
    ensures ListsOk(s')
  {
    var n := |s.pushed|;
    forall g | s'.d <= g < |s'.pushed| ensures EntryOk(s', g) {
      if g < n {
        assert EntryOk(s, g);
        assert s'.pushed[g] == s.pushed[g];
        assert g > 0 ==> s'.pushed[g - 1] == s.pushed[g - 1];
      } else {
        assert n > 0 ==> s'.pushed[n - 1] == s.pushed[n - 1];
      }
    }
  }

  lemma SwapStep(s: State, t: Tid)
    requires Inv(s) && Enabled(s, Swap(t)) && s.top == s.pcs[t].seen
    ensures Inv(AfterSwap(s, t))
  {
    hide ListsOk, WriterOk, LogOk, WakeOk;
    var s' := AfterSwap(s, t);
    assert PcOk(s, t, s.pcs[t]);
    SwapLists(s, t, s');
    PcsFrame(s, s', t);
    InRange(s);
    WriterFrame(s, s');
    WakeFrame(s, s', t);
    LogFrame(s, s');
  }

  /** Steps that move one thread between states in which it holds no entry, and set the flag or the fd. */
  lemma SignalStep(s: State, t: Tid, a: Action)
    requires Inv(s) && Enabled(s, a) && (a == Flag(t) || a == Signal(t))
    ensures Inv(Next(s, a))
  {
    hide ListsOk, WriterOk, LogOk;
    var s' := Next(s, a);
    ListsFrame(s, s');
    PcsFrame(s, s', t);
    InRange(s);
    WriterFrame(s, s');
    LogFrame(s, s');
    assert t in s'.pcs;
    if u :| u in s.pcs && s.pcs[u].Flagging? && u != t { assert u in s'.pcs && s'.pcs[u].Flagging?; }
    if u :| u in s.pcs && s.pcs[u].Signalling? && u != t { assert u in s'.pcs && s'.pcs[u].Signalling?; }
  }

  /** Steps of the writer or the stopping thread that touch no list. */
  lemma LightStep(s: State, s': State)
    requires Inv(s) && s' == s.(flag := s'.flag, fd := s'.fd, writer := s'.writer, stop := s'.stop, hook := s'.hook)
    requires WriterOk(s') && WakeOk(s')
    ensures Inv(s')
  {
    hide WriterOk, LogOk, WakeOk, ListsOk;
    ListsFrame(s, s');
    PcsFrame(s, s', -1);
    LogFrame(s, s');
  }

  lemma DetachLists(s: State, s': State)
    requires ListsOk(s) && s.d == s.m == s.b && Enabled(s, Detach) && s' == Next(s, Detach)
    ensures ListsOk(s') && WriterOk(s')
  {
    forall g | s'.d <= g < |s'.pushed| ensures EntryOk(s', g) { assert EntryOk(s, g); }
  }

  lemma DetachStep(s: State)
    requires Inv(s) && Enabled(s, Detach)
    ensures Inv(Next(s, Detach))
  {
    var s' := Next(s, Detach);
    DetachLists(s, s');
    hide ListsOk, WriterOk, LogOk;
    PcsFrame(s, s', -1);
    LogFrame(s, s');
  }

  lemma ReverseLists(s: State, s': State)
    requires ListsOk(s) && WriterOk(s) && Enabled(s, Reverse) && s.writer.head.Some? && s' == AfterReverse(s)
    ensures ListsOk(s') && WriterOk(s') && 0 < s.m <= |s.pushed| && s.m > s.d
    ensures s.writer.head == Some(s.pushed[s.m - 1].addr) && EntryOk(s, s.m - 1)
  {
    var a := s.pushed[s.m - 1].addr;
    assert EntryOk(s, s.m - 1);
    forall g | s'.d <= g < |s'.pushed| ensures EntryOk(s', g) {
      assert EntryOk(s, g);
      assert g != s.m - 1 ==> s.pushed[g].addr != a;
    }
  }

  lemma ReverseStep(s: State)
    requires Inv(s) && Enabled(s, Reverse) && s.writer.head.Some?
    ensures Inv(AfterReverse(s))
  {
    hide ListsOk, WriterOk, LogOk;
    var s' := AfterReverse(s);
    ReverseLists(s, s');
    PcsFrame(s, s', -1);
    LogFrame(s, s');
  }

  lemma DeliverLists(s: State, s': State)
    requires ListsOk(s) && WriterOk(s) && LogOk(s) && Enabled(s, Deliver) && s.writer.rev.Some? && s' == AfterDeliver(s)
    ensures ListsOk(s') && WriterOk(s') && LogOk(s') && EntryOk(s, s.d) && s.writer.rev == Some(s.pushed[s.d].addr)
  {
    var a := s.pushed[s.d].addr;
    assert EntryOk(s, s.d);
    forall g | s'.d <= g < |s'.pushed| ensures EntryOk(s', g) {
      assert EntryOk(s, g);
      assert s.pushed[g].addr != a;
    }
  }

  lemma DeliverStep(s: State)
    requires Inv(s) && Enabled(s, Deliver) && s.writer.rev.Some?
    ensures Inv(AfterDeliver(s))
  {
    hide ListsOk, WriterOk, LogOk;
    var s' := AfterDeliver(s);
    DeliverLists(s, s');
    PcsFrame(s, s', -1);
  }

  lemma LoopDone(s: State, a: Action)
    requires Inv(s) && Enabled(s, a) && ((a.Reverse? && s.writer.head.None?) || (a.Deliver? && s.writer.rev.None?))
    ensures Inv(Next(s, a))
  {
    LightStep(s, Next(s, a));
  }

  lemma StepKeepsInv(s: State, a: Action)
    requires Inv(s) && Enabled(s, a)
    ensures Inv(Next(s, a))
  {
    match a
    case Begin(t, e, msg) => BeginStep(s, t, e, msg);
    case LoadTop(t) => ExpectStep(s, t, s.pcs[t].e, Next(s, a));
    case Swap(t) => if s.top == s.pcs[t].seen { SwapStep(s, t); } else { ExpectStep(s, t, s.pcs[t].e, Next(s, a)); }
    case SwapFails(t) => ExpectStep(s, t, s.pcs[t].e, Next(s, a));
    case Flag(t) => SignalStep(s, t, a);
    case Signal(t) => SignalStep(s, t, a);
    case Detach => DetachStep(s);
    case Reverse => if s.writer.head.Some? { ReverseStep(s); } else { LoopDone(s, a); }
    case Deliver => if s.writer.rev.Some? { DeliverStep(s); } else { LoopDone(s, a); }
    case _ => LightStep(s, Next(s, a));
  }

  lemma {:induction false} RunKeepsInv(trace: seq<State>, acts: seq<Action>, i: nat)
    requires IsRun(trace, acts) && i < |trace|
    ensures Inv(trace[i])
  {
    if i > 0 {
      RunKeepsInv(trace, acts, i - 1);
      StepKeepsInv(trace[i - 1], acts[i - 1]);
    }
  }

  // ---- what holds in every run --------------------------------------------------------------------

  /** The messages whose entries are still detached or stacked, oldest first. */
  function Waiting(s: State, g: nat): (r: seq<Msg>)
    requires g <= |s.pushed|
    ensures |r| == |s.pushed| - g
    decreases |s.pushed| - g
  {
    if g == |s.pushed| then [] else [EntryAt(s, s.pushed[g].addr).msg] + Waiting(s, g + 1)
  }

  lemma {:induction false} WaitingAre(s: State, g: nat)
    requires ListsOk(s) && s.d <= g <= |s.pushed|
    ensures Msgs(s.pushed, g) + Waiting(s, g) == Msgs(s.pushed, |s.pushed|)
    decreases |s.pushed| - g
  {
    if g < |s.pushed| {
      assert EntryOk(s, g);
      WaitingAre(s, g + 1);
    }
  }

  /** Delivered messages followed by those still held in entries are the pushes in compare-and-swap order. */
  lemma InCasOrder(trace: seq<State>, acts: seq<Action>, i: nat)
    requires IsRun(trace, acts) && i < |trace|
    ensures var s := trace[i]; s.d <= |s.pushed| && s.delivered + Waiting(s, s.d) == Msgs(s.pushed, |s.pushed|)
  {
    RunKeepsInv(trace, acts, i);
    WaitingAre(trace[i], trace[i].d);
  }

  /** No lost wake-up: while the writer is in its poll and something is stacked, the fd is readable or some producer is
      still inside enqueue and will see to it. */
  lemma NoLostWakeup(trace: seq<State>, acts: seq<Action>, i: nat)
    requires IsRun(trace, acts) && i < |trace|
    ensures var s := trace[i];
            (s.writer.Polling? || s.writer.Checking?) && s.top.Some? ==> s.fd > 0 || SomeSignalling(s) || SomeFlagging(s)
  {
    RunKeepsInv(trace, acts, i);
  }

  function Touches(s: State, a: Action): Option<Addr>
    requires Enabled(s, a)
  {
    match a
    case LoadTop(t) => Some(s.pcs[t].e)
    case Swap(t) => Some(s.pcs[t].e)
    case SwapFails(t) => Some(s.pcs[t].e)
    case Reverse => s.writer.head
    case Deliver => s.writer.rev
    case _ => None
  }

  /** Every entry a step reads or writes is allocated. */
  lemma NoUseAfterFree(trace: seq<State>, acts: seq<Action>, i: nat)
    requires IsRun(trace, acts) && i < |acts|
    ensures Touches(trace[i], acts[i]).Some? ==> Touches(trace[i], acts[i]).value in trace[i].mem
  {
    var s, a := trace[i], acts[i];
    RunKeepsInv(trace, acts, i);
    match a
    case Reverse => if s.writer.head.Some? { assert EntryOk(s, s.m - 1); }
    case Deliver => if s.writer.rev.Some? { assert EntryOk(s, s.d); }
    case LoadTop(t) => assert PcOk(s, t, s.pcs[t]);
    case Swap(t) => assert PcOk(s, t, s.pcs[t]);
    case SwapFails(t) => assert PcOk(s, t, s.pcs[t]);
    case _ =>
  }

  // ---- stopping -----------------------------------------------------------------------------------

  /** The writer has made its last exchange of the stack top. */
  predicate Leaving(w: Writer) {
    w.Exited? || ((w.Reversing? || w.Delivering?) && w.final)
  }

  /** Before its compare-and-swap. */
  predicate InFlight(pc: Pc) {
    pc.Loading? || pc.Swapping?
  }

  lemma LeavingStays(s: State, a: Action)
    requires Enabled(s, a) && Leaving(s.writer)
    ensures Leaving(Next(s, a).writer) && Next(s, a).b == s.b && s.pushed <= Next(s, a).pushed
  {
    match a
    case Swap(t) =>
    case Reverse =>
    case Deliver =>
    case _ =>
  }

  /** What is pushed after the last exchange is never delivered. */
  lemma {:induction false} LateIsLost(trace: seq<State>, acts: seq<Action>, f: nat, i: nat)
    requires IsRun(trace, acts) && f <= i < |trace| && Leaving(trace[f].writer)
    ensures Leaving(trace[i].writer) && trace[i].b == trace[f].b && trace[f].pushed <= trace[i].pushed
    ensures |trace[i].delivered| <= trace[f].b
    decreases i
  {
    hide Inv, Next, Leaving;
    RunKeepsInv(trace, acts, i);
    DeliveredCount(trace[i]);
    if i > f {
      LateIsLost(trace, acts, f, i - 1);
      LeavingStays(trace[i - 1], acts[i - 1]);
    }
  }

  lemma DeliveredCount(s: State)
    requires Inv(s)
    ensures |s.delivered| == s.d <= s.b <= |s.pushed|
  {
  }

  /** After the writer has left, everything pushed was delivered if and only if nothing was pushed after its last
      exchange. */
  lemma StopDelivers(trace: seq<State>, acts: seq<Action>, f: nat, i: nat)
    requires IsRun(trace, acts) && f < i < |trace| && acts[f].Detach? && trace[f].writer.final &&
             trace[i].writer.Exited?
    ensures trace[i].delivered == Msgs(trace[i].pushed, |trace[i].pushed|) <==> trace[i].pushed == trace[f].pushed
  {
    RunKeepsInv(trace, acts, f);
    LateIsLost(trace, acts, f + 1, i);
    RunKeepsInv(trace, acts, i);
  }

  ghost predicate Quiet(s: State) {
    !s.hook && forall t :: t in s.pcs ==> !InFlight(s.pcs[t])
  }

  /** With the hook removed and no enqueue before its compare-and-swap, nothing more is ever pushed. */
  lemma {:induction false} QuietStays(trace: seq<State>, acts: seq<Action>, f: nat, i: nat)
    requires IsRun(trace, acts) && f <= i < |trace| && Quiet(trace[f])
    ensures Quiet(trace[i]) && trace[i].pushed == trace[f].pushed
    decreases i
  {
    hide Quiet, Next;
    if i > f {
      QuietStays(trace, acts, f, i - 1);
      QuietStep(trace[i - 1], acts[i - 1]);
    }
  }

  lemma QuietStep(s: State, a: Action)
    requires Quiet(s) && Enabled(s, a)
    ensures Quiet(Next(s, a)) && Next(s, a).pushed == s.pushed
  {
  }

  lemma QuietStopDelivers(trace: seq<State>, acts: seq<Action>, f: nat, i: nat)
    requires IsRun(trace, acts) && f < i < |trace| && acts[f].Detach? && trace[f].writer.final &&
             trace[i].writer.Exited?
    requires Quiet(trace[f])
    ensures trace[i].delivered == Msgs(trace[i].pushed, |trace[i].pushed|)
  {
    QuietStays(trace, acts, f, i);
    StopDelivers(trace, acts, f, i);
  }

  /** An enqueue that is still before its compare-and-swap when the writer makes its last exchange can complete later, and
      its message is then lost: two or three steps of its thread suffice. */
  lemma InFlightIsLost(trace: seq<State>, acts: seq<Action>, t: Tid) returns (more: seq<State>, steps: seq<Action>)
    requires IsRun(trace, acts) && Leaving(trace[|trace| - 1].writer)
    requires t in trace[|trace| - 1].pcs && InFlight(trace[|trace| - 1].pcs[t])
    ensures IsRun(trace + more, acts + steps) && |more| > 0
    ensures more[|more| - 1].b < |more[|more| - 1].pushed|
  {
    var s := trace[|trace| - 1];
    RunKeepsInv(trace, acts, |trace| - 1);
    var a := if s.pcs[t].Loading? then LoadTop(t) else SwapFails(t);
    var s1 := Next(s, a);
    var s2 := Next(s1, Swap(t));
    more, steps := [s1, s2], [a, Swap(t)];
    var all, did := trace + more, acts + steps;
    forall i | 0 <= i < |did| ensures Enabled(all[i], did[i]) && all[i + 1] == Next(all[i], did[i]) {
      if i < |acts| { assert all[i] == trace[i] && all[i + 1] == trace[i + 1]; }
    }
  }

  lemma Extended(trace: seq<State>, acts: seq<Action>, a: Action, s: State)
    requires IsRun(trace, acts) && Enabled(trace[|trace| - 1], a) && s == Next(trace[|trace| - 1], a)
    ensures IsRun(trace + [s], acts + [a])
  {
    hide Next, Enabled, Init;
    var all, did := trace + [s], acts + [a];
    forall i | 0 <= i < |did| ensures Enabled(all[i], did[i]) && all[i + 1] == Next(all[i], did[i]) {
      if i < |acts| { assert all[i] == trace[i] && all[i + 1] == trace[i + 1]; }
    }
  }

  /** One producer between its load and its compare-and-swap while the log is stopped. */
  function Caught(): State {
    State(map[1 := Entry(7, None)], None, false, 0, map[0 := Swapping(1, None)], Checking, true, false, [], [], 0, 0, 0, map[1 := Mine(0)])
  }

  lemma CaughtRun() returns (trace: seq<State>, acts: seq<Action>)
    ensures IsRun(trace, acts) && trace[|trace| - 1] == Caught()
  {
    var s0 := State(map[], None, false, 0, map[0 := Idle], Checking, false, true, [], [], 0, 0, 0, map[]);
    var s1 := Next(s0, Begin(0, 1, 7));
    var s2 := Next(s1, LoadTop(0));
    var s3 := Next(s2, Unhook);
    Extended([s0], [], Begin(0, 1, 7), s1);
    Extended([s0] + [s1], [] + [Begin(0, 1, 7)], LoadTop(0), s2);
    trace, acts := [s0] + [s1] + [s2], [] + [Begin(0, 1, 7)] + [LoadTop(0)];
    Extended(trace, acts, Unhook, s3);
    trace, acts := trace + [s3], acts + [Unhook];
    Extended(trace, acts, Stop, Next(s3, Stop));
    trace, acts := trace + [Next(s3, Stop)], acts + [Stop];
  }

  /** Contrary to the comment in op_stop_async_log, the final drain does not pick up every enqueue in flight. */
  lemma LostMessage() returns (trace: seq<State>, acts: seq<Action>)
    ensures IsRun(trace, acts)
    ensures var e := trace[|trace| - 1]; e.writer.Exited? && e.delivered == [] && |e.pushed| == 1
  {
    trace, acts := CaughtRun();
    var s5 := Next(Caught(), Check);
    Extended(trace, acts, Check, s5);
    var s6 := Next(s5, Detach);
    Extended(trace + [s5], acts + [Check], Detach, s6);
    Extended(trace + [s5] + [s6], acts + [Check] + [Detach], Swap(0), Next(s6, Swap(0)));
    trace, acts := trace + [s5] + [s6] + [Next(s6, Swap(0))], acts + [Check] + [Detach] + [Swap(0)];
  }
}
