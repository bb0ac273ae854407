/** The completion queue of src/async.c: workers post completions by exchanging the tail pointer and then linking the
    old tail to the new node; the main thread drains from the head and frees each old sentinel.  Every atomic access
    is one step of one thread, sequentially consistent; a thread's private work is merged with the access before it.
    Submissions made by callbacks appear as steps of some other thread. */
module Async {
  import opened Common

  type Tid = nat
  type Task = nat   // index in the order of the pending-count increments

  datatype Node = Node(next: Option<nat>, ctx: Option<Task>)

  datatype Pc =
    | Idle
    | Submitted(task: Task)                  // counted, about to hand it to the pool
    | Running(task: Task)                    // taken from the pool, about to finish the work
    | Posting(task: Task, node: nat)         // node filled, about to exchange the tail
    | Linking(k: nat, prior: nat, node: nat)  // owes prior->next = node; k is prior's place in exchange order
    | Notifying                              // about to write the notification fd

  datatype MainPc =
    | Away                 // outside the drain
    | Loading              // about to load head->next
    | Advancing(n: nat)    // saw n, about to move the head and free the old sentinel
    | Delivering(n: nat)   // about to run n's callback
    | Counting(n: nat)     // about to decrement the pending count

  /** Where a task is. */
  datatype Place = Handed(t: Tid) | Pooled | Held(t: Tid) | Queued(k: nat) | Finished(k: nat) | Dropped

  /** Who may touch a node: its poster, or the queue at position k. */
  datatype Role = Mine(t: Tid) | At(k: nat)

  datatype Post = Post(node: nat, task: Task)

  /** The shared memory and threads; then the history: `order` lists the nodes in exchange order, the sentinel first,
      `h` of them have been passed by the head, and `linker` names the thread that owes each missing link. */
  datatype State = State(
    nodes: seq<Node>, freed: set<nat>, head: nat, tail: nat, pending: int, notify: nat, pool: set<Task>,
    pcs: map<Tid, Pc>, main: MainPc, wants: seq<bool>, delivered: seq<Task>,
    order: seq<Post>, h: nat, linker: map<nat, Tid>, role: seq<Role>, place: seq<Place>)

  datatype Action =
    | Submit(t: Tid, wantsDone: bool) | Hand(t: Tid) | Take(t: Tid, task: Task) | Finish(t: Tid)
    | Exchange(t: Tid) | Link(t: Tid) | Notify(t: Tid)
    | Wake | Drain | Load | Advance | Deliver | Count

  predicate Init(s: State) {
    && s.nodes == [Node(None, None)] && s.freed == {} && s.head == s.tail == 0
    && s.pending == 0 && s.notify == 0 && s.pool == {} && s.main == Away
    && (forall t :: t in s.pcs ==> s.pcs[t] == Idle)
    && s.wants == [] && s.delivered == []
    && s.order == [Post(0, 0)] && s.h == 0 && s.linker == map[] && s.role == [At(0)] && s.place == []
  }

  predicate Enabled(s: State, a: Action) {
    match a
    case Submit(t, _) => t in s.pcs && s.pcs[t].Idle?
    case Hand(t) => t in s.pcs && s.pcs[t].Submitted?
    case Take(t, task) => t in s.pcs && s.pcs[t].Idle? && task in s.pool
    case Finish(t) => t in s.pcs && s.pcs[t].Running? && s.pcs[t].task < |s.wants|
    case Exchange(t) => t in s.pcs && s.pcs[t].Posting?
    case Link(t) => t in s.pcs && s.pcs[t].Linking?
    case Notify(t) => t in s.pcs && s.pcs[t].Notifying?
    case Wake => s.main.Away? && s.notify > 0
    case Drain => s.main.Away?
    case Load => s.main.Loading?
    case Advance => s.main.Advancing?
    case Deliver => s.main.Delivering?
    case Count => s.main.Counting?
  }

  function Moved(s: State, t: Tid, pc: Pc): State {
    s.(pcs := s.pcs[t := pc])
  }

  function Placed(s: State, task: Task, p: Place): State {
    if task < |s.place| then s.(place := s.place[task := p]) else s
  }

  function SetNode(s: State, n: nat, x: Node): State {
    if n < |s.nodes| then s.(nodes := s.nodes[n := x]) else s
  }

  function NodeAt(s: State, n: nat): Node {
    if n < |s.nodes| then s.nodes[n] else Node(None, None)
  }

  function AfterSubmit(s: State, t: Tid, w: bool): State {
    Moved(s, t, Submitted(|s.place|)).(pending := s.pending + 1, place := s.place + [Handed(t)], wants := s.wants + [w])
  }

  function AfterHand(s: State, t: Tid): State
    requires Enabled(s, Hand(t))
  {
    var task := s.pcs[t].task;
    Placed(Moved(s, t, Idle), task, Pooled).(pool := s.pool + {task})
  }

  function AfterTake(s: State, t: Tid, task: Task): State {
    Placed(Moved(s, t, Running(task)), task, Held(t)).(pool := s.pool - {task})
  }

  /** The work is done: fill a node for the callback, or count it off at once when there is none. */
  function AfterFinish(s: State, t: Tid): State
    requires Enabled(s, Finish(t))
  {
    var task := s.pcs[t].task;
    if s.wants[task]
    then Moved(s, t, Posting(task, |s.nodes|)).(nodes := s.nodes + [Node(None, Some(task))], role := s.role + [Mine(t)])
    else Placed(Moved(s, t, Idle), task, Dropped).(pending := s.pending - 1)
  }

  function AfterExchange(s: State, t: Tid): State
    requires Enabled(s, Exchange(t))
  {
    var (task, n) := (s.pcs[t].task, s.pcs[t].node);
    if |s.order| == 0 || n >= |s.role| then s else
      var k := |s.order| - 1;
      Placed(Moved(s, t, Linking(k, s.tail, n)), task, Queued(k + 1)).(
        tail := n, order := s.order + [Post(n, task)], linker := s.linker[k := t], role := s.role[n := At(k + 1)])
  }

  function AfterLink(s: State, t: Tid): State
    requires Enabled(s, Link(t))
  {
    var pc := s.pcs[t];
    SetNode(Moved(s, t, Notifying), pc.prior, NodeAt(s, pc.prior).(next := Some(pc.node))).(linker := s.linker - {pc.k})
  }

  function AfterLoad(s: State): State {
    var n := NodeAt(s, s.head).next;
    s.(main := if n.None? then Away else Advancing(n.value))
  }

  function AfterAdvance(s: State): State
    requires Enabled(s, Advance)
  {
    s.(head := s.main.n, freed := s.freed + {s.head}, h := s.h + 1, main := Delivering(s.main.n))
  }

  function AfterDeliver(s: State): State
    requires Enabled(s, Deliver)
  {
    var c := NodeAt(s, s.main.n).ctx;
    s.(main := Counting(s.main.n), delivered := if c.Some? then s.delivered + [c.value] else s.delivered)
  }

  function AfterCount(s: State): State
    requires Enabled(s, Count)
  {
    var n := s.main.n;
    var s' := if s.h < |s.order| then Placed(s, s.order[s.h].task, Finished(s.h)) else s;
    SetNode(s', n, NodeAt(s, n).(ctx := None)).(pending := s.pending - 1, main := Loading)
  }

  function Next(s: State, a: Action): State
    requires Enabled(s, a)
  {
    match a
    case Submit(t, w) => AfterSubmit(s, t, w)
    case Hand(t) => AfterHand(s, t)
    case Take(t, task) => AfterTake(s, t, task)
    case Finish(t) => AfterFinish(s, t)
    case Exchange(t) => AfterExchange(s, t)
    case Link(t) => AfterLink(s, t)
    case Notify(t) => Moved(s, t, Idle).(notify := s.notify + 1)
    case Wake => s.(notify := 0, main := Loading)
    case Drain => s.(main := Loading)
    case Load => AfterLoad(s)
    case Advance => AfterAdvance(s)
    case Deliver => AfterDeliver(s)
    case Count => AfterCount(s)
  }

  ghost predicate IsRun(trace: seq<State>, acts: seq<Action>) {
    && |trace| == |acts| + 1 && Init(trace[0])
    && forall i :: 0 <= i < |acts| ==> Enabled(trace[i], acts[i]) && trace[i + 1] == Next(trace[i], acts[i])
  }

  // ---- the invariant -----------------------------------------------------------------------------

  /** The tail is the last node exchanged, the head the last one passed; exactly those before it are freed. */
  ghost predicate OrderOk(s: State) {
    && s.h < |s.order| && |s.role| == |s.nodes|
    && (forall k :: 0 <= k < |s.order| ==> s.order[k].node < |s.nodes| && s.role[s.order[k].node] == At(k))
    && (forall n :: 0 <= n < |s.nodes| && s.role[n].At? ==> s.role[n].k < |s.order| && s.order[s.role[n].k].node == n)
    && s.head == s.order[s.h].node && s.tail == s.order[|s.order| - 1].node
    && (forall n: nat :: n in s.freed <==> n < |s.nodes| && s.role[n].At? && s.role[n].k < s.h)
  }

  /** From the head on, each link is in place or owed. */
  predicate LinkOk(s: State, k: nat)
    requires k < |s.order| && s.order[k].node < |s.nodes|
  {
    var next := s.nodes[s.order[k].node].next;
    if k == |s.order| - 1 then next == None
    else if k in s.linker then next == None && s.linker[k] in s.pcs &&
      s.pcs[s.linker[k]] == Linking(k, s.order[k].node, s.order[k + 1].node)
    else next == Some(s.order[k + 1].node)
  }

  ghost predicate LinksOk(s: State)
    requires OrderOk(s)
  {
    && (forall k :: s.h <= k < |s.order| ==> LinkOk(s, k))
    && (forall k :: k in s.linker ==> s.h <= k < |s.order| - 1)
  }

  predicate PcOk(s: State, t: Tid, pc: Pc) {
    match pc
    case Submitted(task) => task < |s.place| && s.place[task] == Handed(t)
    case Running(task) => task < |s.place| && s.place[task] == Held(t)
    case Posting(task, n) =>
      && task < |s.place| && s.place[task] == Held(t) && task < |s.wants| && s.wants[task]
      && n < |s.nodes| && n < |s.role| && s.role[n] == Mine(t) && s.nodes[n] == Node(None, Some(task))
    case Linking(k, _, _) => k in s.linker && s.linker[k] == t
    case _ => true
  }

  ghost predicate PcsOk(s: State) {
    forall t :: t in s.pcs ==> PcOk(s, t, s.pcs[t])
  }

  /** How many completions have been delivered, and how many of those counted. */
  function DeliveredTo(s: State): int {
    if s.main.Delivering? then s.h - 1 else s.h
  }

  function CountedTo(s: State): int {
    if s.main.Delivering? || s.main.Counting? then s.h - 1 else s.h
  }

  predicate TaskOk(s: State, k: nat)
    requires k < |s.order| && s.order[k].node < |s.nodes|
  {
    var p := s.order[k];
    && p.task < |s.place| && p.task < |s.wants| && s.wants[p.task]
    && s.place[p.task] == (if k <= CountedTo(s) then Finished(k) else Queued(k))
    && (k > DeliveredTo(s) ==> s.nodes[p.node].ctx == Some(p.task))
  }

  function Tasks(order: seq<Post>, d: int): (r: seq<Task>)
    requires 0 <= d < |order|
    ensures |r| == d && forall k :: 0 <= k < d ==> r[k] == order[k + 1].task
  {
    if d == 0 then [] else Tasks(order, d - 1) + [order[d].task]
  }

  ghost predicate TasksOk(s: State)
    requires OrderOk(s)
  {
    && (forall k :: 1 <= k < |s.order| ==> TaskOk(s, k))
    && 0 <= DeliveredTo(s) && s.delivered == Tasks(s.order, DeliveredTo(s))
  }

  ghost predicate PoolOk(s: State) {
    && |s.wants| == |s.place|
    && (forall t: nat :: t in s.pool <==> t < |s.place| && s.place[t] == Pooled)
    && (forall t :: 0 <= t < |s.place| && s.place[t] == Dropped ==> !s.wants[t])
    && s.pending == Outstanding(s.place)
  }

  predicate Unfinished(p: Place) {
    !p.Finished? && !p.Dropped?
  }

  function Outstanding(place: seq<Place>): nat {
    if place == [] then 0 else Outstanding(place[..|place| - 1]) + if Unfinished(place[|place| - 1]) then 1 else 0
  }

  ghost predicate MainOk(s: State)
    requires OrderOk(s)
  {
    match s.main
    case Away => true
    case Loading => true
    case Advancing(n) => s.h + 1 < |s.order| && n == s.order[s.h + 1].node && s.h !in s.linker
    case Delivering(n) => s.h > 0 && n == s.head
    case Counting(n) => s.h > 0 && n == s.head
  }

  /** While main is elsewhere and something is deliverable, a notification is there or on its way. */
  ghost predicate WakeOk(s: State) {
    s.main.Away? && NodeAt(s, s.head).next.Some? ==> s.notify > 0 || exists t :: t in s.pcs && s.pcs[t].Notifying?
  }

  ghost predicate Inv(s: State) {
    OrderOk(s) && LinksOk(s) && PcsOk(s) && TasksOk(s) && PoolOk(s) && MainOk(s) && WakeOk(s)
  }

  // ---- counting ------------------------------------------------------------------------------------

  lemma {:induction false} OutstandingUpdate(place: seq<Place>, i: nat, p: Place)
    requires i < |place|
    ensures Outstanding(place[i := p]) == Outstanding(place) - (if Unfinished(place[i]) then 1 else 0) + (if Unfinished(p) then 1 else 0)
    ensures Unfinished(place[i]) ==> Outstanding(place) > 0
  {
    var n := |place| - 1;
    if i == n {
      assert place[i := p][..n] == place[..n];
    } else {
      OutstandingUpdate(place[..n], i, p);
      assert place[i := p][..n] == place[..n][i := p];
    }
  }

  lemma {:induction false} OutstandingAppend(place: seq<Place>, p: Place)
    ensures Outstanding(place + [p]) == Outstanding(place) + if Unfinished(p) then 1 else 0
  {
    assert (place + [p])[..|place|] == place;
  }

  // ---- frames: what each part of the invariant depends on -----------------------------------------

  lemma InitOk(s: State)
    requires Init(s)
    ensures Inv(s)
  {
    assert LinkOk(s, 0);
  }

  lemma OrderFrame(s: State, s': State)
    requires OrderOk(s) && s'.order == s.order && s'.h == s.h && s'.head == s.head && s'.tail == s.tail
    requires s'.freed == s.freed && s'.role == s.role && |s'.nodes| == |s.nodes|
    ensures OrderOk(s')
  {
  }

  lemma LinksFrame(s: State, s': State)
    requires OrderOk(s) && OrderOk(s') && LinksOk(s) && s'.order == s.order && s'.h == s.h && s'.linker == s.linker
    requires |s.nodes| <= |s'.nodes| && forall n :: 0 <= n < |s.nodes| ==> s'.nodes[n].next == s.nodes[n].next
    requires forall u :: u in s.pcs && s.pcs[u].Linking? ==> u in s'.pcs && s'.pcs[u] == s.pcs[u]
    ensures LinksOk(s')
  {
    forall k | s.h <= k < |s.order| ensures LinkOk(s', k) { assert LinkOk(s, k); }
  }

  lemma TasksFrame(s: State, s': State)
    requires OrderOk(s) && OrderOk(s') && TasksOk(s) && s'.order == s.order && s'.delivered == s.delivered
    requires DeliveredTo(s') == DeliveredTo(s) && CountedTo(s') == CountedTo(s)
    requires |s.nodes| <= |s'.nodes| && forall n :: 0 <= n < |s.nodes| ==> s'.nodes[n].ctx == s.nodes[n].ctx
    requires |s.place| <= |s'.place| && |s.wants| <= |s'.wants|
    requires forall x :: 0 <= x < |s.place| && (s.place[x].Queued? || s.place[x].Finished?) ==>
             s'.place[x] == s.place[x]
    requires forall x :: 0 <= x < |s.wants| ==> s'.wants[x] == s.wants[x]
    ensures TasksOk(s')
  {
    forall k | 1 <= k < |s.order| ensures TaskOk(s', k) { assert TaskOk(s, k); }
  }

  /** Nothing that threads other than t rely on has changed. */
  ghost predicate Undisturbed(s: State, s': State, t: int) {
    && |s.place| <= |s'.place| && |s.wants| <= |s'.wants| && |s.nodes| <= |s'.nodes| && |s.role| <= |s'.role|
    && (forall x :: 0 <= x < |s.place| && (s.place[x].Handed? || s.place[x].Held?) && s.place[x].t != t ==>
       s'.place[x] == s.place[x])
    && (forall x :: 0 <= x < |s.wants| ==> s'.wants[x] == s.wants[x])
    && (forall n :: 0 <= n < |s.nodes| && n < |s.role| && s.role[n].Mine? && s.role[n].t != t ==>
       s'.nodes[n] == s.nodes[n] && s'.role[n] == s.role[n])
    && (forall k :: k in s.linker && s.linker[k] != t ==> k in s'.linker && s'.linker[k] == s.linker[k])
  }

  lemma PcsFrame(s: State, s': State, t: int)
    requires PcsOk(s) && Undisturbed(s, s', t)
    requires forall u :: u in s'.pcs && u != t ==> u in s.pcs && s'.pcs[u] == s.pcs[u]
    requires t in s'.pcs ==> PcOk(s', t, s'.pcs[t])
    ensures PcsOk(s')
  {
    forall u | u in s'.pcs && u != t ensures PcOk(s', u, s'.pcs[u]) { assert PcOk(s, u, s.pcs[u]); }
  }

  lemma WakeFrame(s: State, s': State, t: int)
    requires WakeOk(s) && s'.main == s.main && s'.head == s.head && s'.notify == s.notify
    requires NodeAt(s', s.head).next == NodeAt(s, s.head).next
    requires t in s.pcs ==> !s.pcs[t].Notifying?
    requires forall u :: u in s.pcs && u != t ==> u in s'.pcs && s'.pcs[u] == s.pcs[u]
    ensures WakeOk(s')
  {
    if u :| u in s.pcs && s.pcs[u].Notifying? { assert u in s'.pcs && s'.pcs[u].Notifying?; }
  }

  // ---- every step keeps the invariant -------------------------------------------------------------

  lemma SubmitStep(s: State, t: Tid, w: bool)
    requires Inv(s) && Enabled(s, Submit(t, w))
    ensures Inv(AfterSubmit(s, t, w))
  {
    hide OrderOk, LinksOk, PcsOk, TasksOk, MainOk, WakeOk;
    var s' := AfterSubmit(s, t, w);
    OrderFrame(s, s');
    LinksFrame(s, s');
    TasksFrame(s, s');
    PcsFrame(s, s', t);
    WakeFrame(s, s', t);
    OutstandingAppend(s.place, Handed(t));
    assert MainOk(s') by { MainFrame(s, s'); }
  }

  lemma MainFrame(s: State, s': State)
    requires OrderOk(s) && OrderOk(s') && MainOk(s) && s'.main == s.main && s'.h == s.h && s'.head == s.head
    requires s.order <= s'.order && (s.h in s'.linker ==> s.h in s.linker || s.h + 1 >= |s.order|)
    ensures MainOk(s')
  {
  }

  /** One task changes place while the queue stays as it is. */
  lemma Replaced(s: State, t: Tid, task: Task, p: Place, s': State)
    requires Inv(s) && t in s.pcs && task < |s.place| && (s.place[task] == Handed(t) || s.place[task] == Pooled ||
             s.place[task] == Held(t))
    requires t in s'.pcs && s' == s.(pcs := s.pcs[t := s'.pcs[t]], place := s.place[task := p], pool := s'.pool, pending := s'.pending)
    requires !s.pcs[t].Notifying? && !s.pcs[t].Linking? && PcOk(s', t, s'.pcs[t]) && PoolOk(s')
    ensures Inv(s')
  {
    hide OrderOk, LinksOk, PcsOk, TasksOk, PoolOk, MainOk, WakeOk;
    OrderFrame(s, s');
    LinksFrame(s, s');
    TasksFrame(s, s');
    PcsFrame(s, s', t);
    WakeFrame(s, s', t);
    MainFrame(s, s');
  }

  lemma PoolMoves(s: State, t: Tid, task: Task, p: Place, s': State)
    requires PoolOk(s) && task < |s.place| && s'.place == s.place[task := p] && s'.wants == s.wants
    requires s'.pool == if p == Pooled then s.pool + {task} else s.pool - {task}
    requires Unfinished(s.place[task]) && !p.Finished? && (p == Dropped ==> !s.wants[task])
    requires s'.pending == s.pending - (if p == Dropped then 1 else 0)
    ensures PoolOk(s')
  {
    OutstandingUpdate(s.place, task, p);
  }

  lemma HandStep(s: State, t: Tid)
    requires Inv(s) && Enabled(s, Hand(t))
    ensures Inv(AfterHand(s, t))
  {
    var s' := AfterHand(s, t);
    assert PcOk(s, t, s.pcs[t]);
    PoolMoves(s, t, s.pcs[t].task, Pooled, s');
    Replaced(s, t, s.pcs[t].task, Pooled, s');
  }

  lemma TakeStep(s: State, t: Tid, task: Task)
    requires Inv(s) && Enabled(s, Take(t, task))
    ensures Inv(AfterTake(s, t, task))
  {
    var s' := AfterTake(s, t, task);
    PoolMoves(s, t, task, Held(t), s');
    Replaced(s, t, task, Held(t), s');
  }

  lemma DropStep(s: State, t: Tid)
    requires Inv(s) && Enabled(s, Finish(t)) && !s.wants[s.pcs[t].task]
    ensures Inv(AfterFinish(s, t))
  {
    var s' := AfterFinish(s, t);
    assert PcOk(s, t, s.pcs[t]);
    PoolMoves(s, t, s.pcs[t].task, Dropped, s');
    Replaced(s, t, s.pcs[t].task, Dropped, s');
  }

  lemma FinishStep(s: State, t: Tid)
    requires Inv(s) && Enabled(s, Finish(t)) && s.wants[s.pcs[t].task]
    ensures Inv(AfterFinish(s, t))
  {
    var s' := AfterFinish(s, t);
    assert PcOk(s, t, s.pcs[t]);
    AllocOrder(s, s');
    hide OrderOk, LinksOk, PcsOk, TasksOk, PoolOk, MainOk, WakeOk;
    LinksFrame(s, s');
    TasksFrame(s, s');
    PcsFrame(s, s', t);
    assert s.head < |s.nodes| by { HeadThere(s); }
    WakeFrame(s, s', t);
    MainFrame(s, s');
    PoolFrame(s, s');
  }

  lemma PoolFrame(s: State, s': State)
    requires PoolOk(s) && s'.pool == s.pool && s'.place == s.place && s'.wants == s.wants && s'.pending == s.pending
    ensures PoolOk(s')
  {
  }

  lemma HeadThere(s: State)
    requires OrderOk(s)
    ensures s.h < |s.order| && s.head < |s.nodes| == |s.role| && s.role[s.head] == At(s.h) && s.head !in s.freed
  {
  }

  lemma AllocOrder(s: State, s': State)
    requires OrderOk(s) && s'.order == s.order && s'.h == s.h && s'.head == s.head && s'.tail == s.tail &&
             s'.freed == s.freed
    requires |s'.nodes| == |s.nodes| + 1 && |s'.role| == |s.role| + 1 && s'.role[..|s.role|] == s.role &&
             s'.role[|s.role|].Mine?
    ensures OrderOk(s')
  {
    assert forall n :: 0 <= n < |s.role| ==> s'.role[n] == s'.role[..|s.role|][n];
  }

  lemma ExchangeOrder(s: State, t: Tid, s': State)
    requires OrderOk(s) && Enabled(s, Exchange(t)) && PcOk(s, t, s.pcs[t]) && s' == AfterExchange(s, t)
    ensures OrderOk(s')
  {
  }

  lemma ExchangeLinks(s: State, t: Tid, s': State)
    requires OrderOk(s) && LinksOk(s) && Enabled(s, Exchange(t)) && PcOk(s, t, s.pcs[t]) &&
             s' == AfterExchange(s, t) && OrderOk(s')
    ensures LinksOk(s')
  {
    hide LinkOk, PcOk;
    var k := |s.order| - 1;
    assert LinkOk(s, k);
    NewLinks(s, t, s');
    forall i | s'.h <= i < |s'.order| ensures LinkOk(s', i) {
      if i < k {
        assert LinkOk(s, i);
        OldLink(s, t, s', i);
      }
    }
  }

  /** The old tail's link is now owed, and the new tail has none. */
  lemma NewLinks(s: State, t: Tid, s': State)
    requires OrderOk(s) && Enabled(s, Exchange(t)) && PcOk(s, t, s.pcs[t]) && s' == AfterExchange(s, t) && OrderOk(s')
    requires LinkOk(s, |s.order| - 1)
    ensures LinkOk(s', |s.order| - 1) && LinkOk(s', |s.order|)
  {
    assert s'.order[|s.order| - 1] == s.order[|s.order| - 1];
  }

  lemma OldLink(s: State, t: Tid, s': State, i: nat)
    requires |s.role| == |s.nodes| && Enabled(s, Exchange(t)) && PcOk(s, t, s.pcs[t]) && s' == AfterExchange(s, t)
    requires i < |s.order| - 1 && s.order[i].node < |s.nodes| && LinkOk(s, i)
    ensures LinkOk(s', i)
  {
    assert s'.order[i] == s.order[i] && s'.order[i + 1] == s.order[i + 1];
  }

  lemma ExchangeTasks(s: State, t: Tid, s': State)
    requires OrderOk(s) && TasksOk(s) && Enabled(s, Exchange(t)) && PcOk(s, t, s.pcs[t]) &&
             s' == AfterExchange(s, t) && OrderOk(s')
    ensures TasksOk(s')
  {
    var task := s.pcs[t].task;
    forall i | 1 <= i < |s'.order| ensures TaskOk(s', i) {
      if i < |s.order| {
        assert TaskOk(s, i);
        assert s'.order[i] == s.order[i];
      }
    }
    SamePrefix(s.order, s'.order, DeliveredTo(s));
  }

  lemma ExchangePool(s: State, t: Tid, s': State)
    requires PoolOk(s) && Enabled(s, Exchange(t)) && PcOk(s, t, s.pcs[t]) && s' == AfterExchange(s, t)
    ensures PoolOk(s')
  {
    if |s.order| > 0 { OutstandingUpdate(s.place, s.pcs[t].task, Queued(|s.order|)); }
  }

  lemma PcOf(s: State, t: Tid)
    requires PcsOk(s) && t in s.pcs
    ensures PcOk(s, t, s.pcs[t])
  {
  }

  lemma ExchangeStep(s: State, t: Tid)
    requires Inv(s) && Enabled(s, Exchange(t))
    ensures Inv(AfterExchange(s, t))
  {
    hide LinksOk, PcsOk, TasksOk, WakeOk, PoolOk, MainOk, OrderOk;
    var s' := AfterExchange(s, t);
    PcOf(s, t);
    HeadThere(s);
    ExchangeOrder(s, t, s');
    ExchangeLinks(s, t, s');
    ExchangeTasks(s, t, s');
    ExchangePool(s, t, s');
    LastNotLinked(s);
    PcsFrame(s, s', t);
    WakeFrame(s, s', t);
    MainFrame(s, s');
  }

  lemma LastNotLinked(s: State)
    requires OrderOk(s) && LinksOk(s)
    ensures |s.order| - 1 !in s.linker
  {
  }

  lemma {:induction false} SamePrefix(a: seq<Post>, b: seq<Post>, d: int)
    requires 0 <= d < |a| <= |b| && forall i :: 0 <= i < |a| ==> b[i] == a[i]
    ensures Tasks(a, d) == Tasks(b, d)
  {
    if d > 0 { SamePrefix(a, b, d - 1); }
  }

  /** The link store goes to a node that is still queued, so not to a freed one. */
  lemma LinkTarget(s: State, t: Tid)
    requires Inv(s) && Enabled(s, Link(t))
    ensures var pc := s.pcs[t]; s.h <= pc.k < |s.order| - 1 && pc == Linking(pc.k, s.order[pc.k].node, s.order[pc.k + 1].node)
    ensures s.pcs[t].prior < |s.nodes| && s.role[s.pcs[t].prior] == At(s.pcs[t].k)
    ensures s.pcs[t].prior !in s.freed && s.nodes[s.pcs[t].prior].next == None
    ensures s.pcs[t].k in s.linker && s.linker[s.pcs[t].k] == t
  {
    assert PcOk(s, t, s.pcs[t]);
    assert LinkOk(s, s.pcs[t].k);
  }

  lemma LinkLinks(s: State, t: Tid, s': State)
    requires Inv(s) && Enabled(s, Link(t)) && s' == AfterLink(s, t) && OrderOk(s')
    ensures LinksOk(s')
  {
    LinkTarget(s, t);
    var k := s.pcs[t].k;
    hide PcsOk, TasksOk, PoolOk, WakeOk, MainOk;
    forall i | s.h <= i < |s.order| ensures LinkOk(s', i) {
      assert LinkOk(s, i);
      assert i != k ==> s.role[s.order[i].node] != s.role[s.order[k].node];
      if i in s'.linker { assert s.linker[i] != t; }
    }
  }

  lemma LinkStep(s: State, t: Tid)
    requires Inv(s) && Enabled(s, Link(t))
    ensures Inv(AfterLink(s, t))
  {
    var s' := AfterLink(s, t);
    LinkTarget(s, t);
    OrderFrame(s, s');
    LinkLinks(s, t, s');
    hide OrderOk, LinksOk, PcsOk, TasksOk, PoolOk, MainOk;
    TasksFrame(s, s');
    PcsFrame(s, s', t);
    MainFrame(s, s');
    PoolFrame(s, s');
    assert t in s'.pcs && s'.pcs[t].Notifying?;
  }

  lemma NotifyStep(s: State, t: Tid)
    requires Inv(s) && Enabled(s, Notify(t))
    ensures Inv(Next(s, Notify(t)))
  {
    hide OrderOk, LinksOk, PcsOk, TasksOk, PoolOk, MainOk;
    var s' := Next(s, Notify(t));
    OrderFrame(s, s');
    LinksFrame(s, s');
    TasksFrame(s, s');
    PcsFrame(s, s', t);
    MainFrame(s, s');
    PoolFrame(s, s');
  }

  /** Main-thread steps that move nothing but the main thread and the notification count. */
  lemma MainMoves(s: State, s': State)
    requires Inv(s) && s' == s.(main := s'.main, notify := s'.notify)
    requires DeliveredTo(s') == DeliveredTo(s) && CountedTo(s') == CountedTo(s) && OrderOk(s') && MainOk(s') &&
             WakeOk(s')
    ensures Inv(s')
  {
    hide OrderOk, LinksOk, PcsOk, TasksOk, PoolOk, MainOk, WakeOk;
    LinksFrame(s, s');
    TasksFrame(s, s');
    PcsFrame(s, s', -1);
    PoolFrame(s, s');
  }

  lemma WakeStep(s: State, a: Action)
    requires Inv(s) && Enabled(s, a) && (a.Wake? || a.Drain?)
    ensures Inv(Next(s, a))
  {
    OrderFrame(s, Next(s, a));
    MainMoves(s, Next(s, a));
  }

  lemma LoadStep(s: State)
    requires Inv(s) && Enabled(s, Load)
    ensures Inv(AfterLoad(s))
  {
    assert LinkOk(s, s.h);
    OrderFrame(s, AfterLoad(s));
    MainMoves(s, AfterLoad(s));
  }

  lemma AdvanceOrder(s: State, s': State)
    requires OrderOk(s) && MainOk(s) && Enabled(s, Advance) && s' == AfterAdvance(s)
    ensures OrderOk(s')
  {
    HeadThere(s);
  }

  lemma AdvanceStep(s: State)
    requires Inv(s) && Enabled(s, Advance)
    ensures Inv(AfterAdvance(s))
  {
    var s' := AfterAdvance(s);
    AdvanceOrder(s, s');
    forall k | s'.h <= k < |s.order| ensures LinkOk(s', k) { assert LinkOk(s, k); }
    forall k | 1 <= k < |s.order| ensures TaskOk(s', k) { assert TaskOk(s, k); }
    assert LinksOk(s') && TasksOk(s');
    hide OrderOk, LinksOk, PcsOk, TasksOk, PoolOk;
    PcsFrame(s, s', -1);
    PoolFrame(s, s');
  }

  /** The callback that runs is the one posted next in exchange order. */
  lemma DeliverNext(s: State)
    requires Inv(s) && Enabled(s, Deliver)
    ensures s.main.n == s.head && s.head !in s.freed && NodeAt(s, s.main.n).ctx == Some(s.order[s.h].task)
    ensures AfterDeliver(s).delivered == Tasks(s.order, s.h)
  {
    assert TaskOk(s, s.h);
  }

  lemma DeliverStep(s: State)
    requires Inv(s) && Enabled(s, Deliver)
    ensures Inv(AfterDeliver(s))
  {
    var s' := AfterDeliver(s);
    DeliverNext(s);
    OrderFrame(s, s');
    forall k | 1 <= k < |s.order| ensures TaskOk(s', k) { assert TaskOk(s, k); }
    assert TasksOk(s');
    hide OrderOk, LinksOk, PcsOk, TasksOk, PoolOk;
    LinksFrame(s, s');
    PcsFrame(s, s', -1);
    PoolFrame(s, s');
  }

  lemma CountTasks(s: State, s': State)
    requires OrderOk(s) && TasksOk(s) && MainOk(s) && Enabled(s, Count) && s' == AfterCount(s) && OrderOk(s')
    ensures TasksOk(s') && s.order[s.h].task < |s.place| && s.place[s.order[s.h].task] == Queued(s.h)
  {
    var task := s.order[s.h].task;
    assert TaskOk(s, s.h);
    forall k | 1 <= k < |s.order| ensures TaskOk(s', k) {
      assert TaskOk(s, k);
      assert k != s.h ==> s.order[k].task != task;
    }
  }

  lemma CountPool(s: State, s': State)
    requires OrderOk(s) && PoolOk(s) && Enabled(s, Count) && s' == AfterCount(s)
    requires s.order[s.h].task < |s.place| && s.place[s.order[s.h].task] == Queued(s.h)
    ensures PoolOk(s')
  {
    OutstandingUpdate(s.place, s.order[s.h].task, Finished(s.h));
  }

  lemma CountStep(s: State)
    requires Inv(s) && Enabled(s, Count)
    ensures Inv(AfterCount(s))
  {
    hide OrderOk, LinksOk, PcsOk, TasksOk, PoolOk;
    var s' := AfterCount(s);
    HeadThere(s);
    OrderFrame(s, s');
    CountTasks(s, s');
    CountPool(s, s');
    LinksFrame(s, s');
    PcsFrame(s, s', -1);
  }

  lemma StepKeepsInv(s: State, a: Action)
    requires Inv(s) && Enabled(s, a)
    ensures Inv(Next(s, a))
  {
    hide Inv;
    match a
    case Submit(t, w) => SubmitStep(s, t, w);
    case Hand(t) => HandStep(s, t);
    case Take(t, task) => TakeStep(s, t, task);
    case Finish(t) => if s.wants[s.pcs[t].task] { FinishStep(s, t); } else { DropStep(s, t); }
    case Exchange(t) => ExchangeStep(s, t);
    case Link(t) => LinkStep(s, t);
    case Notify(t) => NotifyStep(s, t);
    case Wake => WakeStep(s, Wake);
    case Drain => WakeStep(s, Drain);
    case Load => LoadStep(s);
    case Advance => AdvanceStep(s);
    case Deliver => DeliverStep(s);
    case Count => CountStep(s);
  }

  lemma {:induction false} RunKeepsInv(trace: seq<State>, acts: seq<Action>, i: nat)
    requires IsRun(trace, acts) && i < |trace|
    ensures Inv(trace[i])
  {
    if i == 0 {
      InitOk(trace[0]);
    } else {
      RunKeepsInv(trace, acts, i - 1);
      StepKeepsInv(trace[i - 1], acts[i - 1]);
    }
  }

  // ---- what holds in every run --------------------------------------------------------------------

  /** The node whose memory a step writes or reads. */
  function Touches(s: State, a: Action): Option<nat>
    requires Enabled(s, a)
  {
    match a
    case Link(t) => Some(s.pcs[t].prior)
    case Load => Some(s.head)
    case Deliver => Some(s.main.n)
    case Count => Some(s.main.n)
    case _ => None
  }

  /** No step of any thread touches a freed node, and a link store never overwrites a link. */
  lemma NoUseAfterFree(trace: seq<State>, acts: seq<Action>, i: nat)
    requires IsRun(trace, acts) && i < |acts|
    ensures var s, a := trace[i], acts[i];
            && (Touches(s, a).Some? ==> Touches(s, a).value < |s.nodes| && Touches(s, a).value !in s.freed)
            && (a.Link? ==> s.nodes[s.pcs[a.t].prior].next == None)
            && (a.Advance? ==> s.head !in s.freed)
  {
    RunKeepsInv(trace, acts, i);
    var s, a := trace[i], acts[i];
    assert s.role[s.head] == At(s.h);
    if a.Link? { LinkTarget(s, a.t); }
  }

  /** What has been delivered is, in order, the first part of what was exchanged; nothing twice; only tasks that asked for a
      callback; and the pending count is the number of tasks neither delivered and counted nor dropped. */
  lemma InOrderOnce(trace: seq<State>, acts: seq<Action>, i: nat)
    requires IsRun(trace, acts) && i < |trace|
    ensures var s := trace[i]; var d := DeliveredTo(s);
            && 0 <= d < |s.order| && s.delivered == Tasks(s.order, d)
            && Distinct(Tasks(s.order, |s.order| - 1))
            && (forall t :: t in s.delivered ==> t < |s.wants| && s.wants[t])
            && s.pending == Outstanding(s.place)
  {
    RunKeepsInv(trace, acts, i);
    var s := trace[i];
    var all := Tasks(s.order, |s.order| - 1);
    forall x, y | 0 <= x < y < |all| ensures all[x] != all[y] {
      assert TaskOk(s, x + 1) && TaskOk(s, y + 1);
    }
    forall t | t in s.delivered ensures t < |s.wants| && s.wants[t] {
      var x :| 0 <= x < |s.delivered| && s.delivered[x] == t;
      assert TaskOk(s, x + 1);
    }
  }

  /** Order and delivery only ever grow, so a completion keeps its place. */
  lemma HistoryGrows(s: State, a: Action)
    requires Inv(s) && Enabled(s, a)
    ensures s.order <= Next(s, a).order && s.delivered <= Next(s, a).delivered
  {
    if a.Deliver? { DeliverNext(s); }
  }

  ghost predicate NothingLinking(s: State) {
    forall t :: t in s.pcs ==> !s.pcs[t].Linking?
  }

  /** A drain that sees no next node while no link is owed has delivered everything that was exchanged. */
  lemma EmptyMeansAll(s: State)
    requires Inv(s) && s.main.Loading? && NothingLinking(s) && Next(s, Load).main.Away?
    ensures |s.order| > 0 && s.h == |s.order| - 1 && s.head == s.tail && s.delivered == Tasks(s.order, |s.order| - 1)
    ensures Next(s, Load) == s.(main := Away)
  {
    assert LinkOk(s, s.h);
  }

  /** The rest of a drain on its own: load, and while something is there advance, deliver, count. */
  function Drained(s: State, rounds: nat): State
    requires s.main.Loading?
    decreases rounds
  {
    var s1 := Next(s, Load);
    if s1.main.Away? || rounds == 0 then s1
    else Drained(Next(Next(Next(s1, Advance), Deliver), Count), rounds - 1)
  }

  /** Once every producer has done its link store, a drain empties the queue. */
  lemma {:induction false} DrainEmpties(s: State, rounds: nat)
    requires Inv(s) && s.main.Loading? && NothingLinking(s) && rounds == |s.order| - 1 - s.h
    ensures var e := Drained(s, rounds);
            && Inv(e) && e.main.Away? && e.head == e.tail == s.tail && e.order == s.order
            && |s.order| > 0 && e.delivered == Tasks(s.order, |s.order| - 1)
    decreases rounds
  {
    hide Inv, NothingLinking, Next;
    StepKeepsInv(s, Load);
    DrainEffect(s, Load);
    if Next(s, Load).main.Away? {
      EmptyMeansAll(s);
    } else {
      var e := DrainRound(s);
      DrainEmpties(e, rounds - 1);
    }
  }

  /** What the drain's own steps leave alone. */
  lemma DrainEffect(s: State, a: Action)
    requires Enabled(s, a) && (a.Load? || a.Advance? || a.Deliver? || a.Count?)
    ensures var e := Next(s, a);
            && e.order == s.order && e.tail == s.tail && e.pcs == s.pcs && e.h == s.h + (if a.Advance? then 1 else 0)
            && (a.Advance? ==> e.main.Delivering?) && (a.Deliver? ==> e.main.Counting?) && (a.Count? ==>
               e.main.Loading?)
            && (a.Load? ==> e.main.Away? || e.main.Advancing?)
  {
  }

  /** One turn of the drain loop that found a node. */
  lemma DrainRound(s: State) returns (e: State)
    requires Inv(s) && s.main.Loading? && NothingLinking(s) && Next(s, Load).main.Advancing?
    ensures var s1 := Next(s, Load); Enabled(s1, Advance)
    ensures var s2 := Next(Next(s, Load), Advance); Enabled(s2, Deliver)
    ensures var s3 := Next(Next(Next(s, Load), Advance), Deliver); Enabled(s3, Count) && e == Next(s3, Count)
    ensures Inv(e) && e.main.Loading? && NothingLinking(e) && e.order == s.order && e.tail == s.tail
    ensures e.h == s.h + 1 < |s.order|
  {
    hide Inv, Next;
    DrainEffect(s, Load);
    StepKeepsInv(s, Load);
    var s1 := Next(s, Load);
    AdvanceInRange(s1);
    DrainEffect(s1, Advance);
    StepKeepsInv(s1, Advance);
    var s2 := Next(s1, Advance);
    DrainEffect(s2, Deliver);
    StepKeepsInv(s2, Deliver);
    var s3 := Next(s2, Deliver);
    DrainEffect(s3, Count);
    StepKeepsInv(s3, Count);
    e := Next(s3, Count);
  }

  lemma AdvanceInRange(s: State)
    requires Inv(s) && s.main.Advancing?
    ensures s.h + 1 < |s.order|
  {
  }

  /** No lost wake-up: outside a drain, whenever the head has a successor the fd is readable or a worker is about to
      make it so. */
  lemma NoLostWakeup(trace: seq<State>, acts: seq<Action>, i: nat)
    requires IsRun(trace, acts) && i < |trace|
    ensures var s := trace[i];
            s.main.Away? && NodeAt(s, s.head).next.Some? ==> s.notify > 0 || exists t :: t in s.pcs && s.pcs[t].Notifying?
  {
    RunKeepsInv(trace, acts, i);
  }
}
