/** The interval tree on linked nodes that are relinked and recoloured in place, as src/itree.c does it.  Memory is a table
    of node records; every operation is proved to do to the linked tree what the functions of `IntervalTree` do to values,
    to touch no record outside the tree, and never to follow a missing child. */
module IntervalNodes {
  import opened IntervalTree

  type Ptr = nat
  const NULL: Ptr := 0

  datatype Rec = Rec(left: Ptr, right: Ptr, lo: I64, segs: seq<Seg>, maxEnd: I64, red: bool)
  type Mem = map<Ptr, Rec>

  // ---- linked trees -------------------------------------------------------------------------------------------

  /** The records that make up the tree t at p. */
  ghost function Nodes(m: Mem, p: Ptr, t: Tree): set<Ptr>
    decreases t
  {
    if t.Leaf? || p !in m then {} else {p} + Nodes(m, m[p].left, t.left) + Nodes(m, m[p].right, t.right)
  }

  /** The record at p carries the data of the node t. */
  predicate Matches'(m: Mem, p: Ptr, t: Tree) {
    t.Node? && p != NULL && p in m && m[p].lo == t.lo && m[p].segs == t.segs && m[p].maxEnd == t.maxEnd && m[p].red == t.red
  }

  /** p links to the tree t, whose parts share no record. */
  ghost predicate Rep(m: Mem, p: Ptr, t: Tree)
    decreases t
  {
    if t.Leaf? then p == NULL
    else
      && Matches'(m, p, t) && Rep(m, m[p].left, t.left) && Rep(m, m[p].right, t.right)
      && p !in Nodes(m, m[p].left, t.left) && p !in Nodes(m, m[p].right, t.right)
      && Nodes(m, m[p].left, t.left) !! Nodes(m, m[p].right, t.right)
  }

  /** Records outside s are as they were. */
  ghost predicate Same(m: Mem, m': Mem, s: set<Ptr>) {
    forall q :: q in m && q !in s ==> q in m' && m'[q] == m[q]
  }

  /** Every record of m' is one of s', or was in m outside s: nothing is left over. */
  ghost predicate Tidy(m: Mem, s: set<Ptr>, m': Mem, s': set<Ptr>) {
    forall q :: q in m' && q !in s' ==> q in m && q !in s
  }

  /** All records of s are old ones of w or new ones. */
  ghost predicate Within(s: set<Ptr>, w: set<Ptr>, m: Mem) {
    forall q :: q in s ==> q in w || q !in m
  }

  lemma {:induction false} Unfold(m: Mem, p: Ptr, t: Tree)
    requires Rep(m, p, t)
    ensures p == NULL <==> t.Leaf?
    ensures t.Node? ==> Matches'(m, p, t) && Rep(m, m[p].left, t.left) && Rep(m, m[p].right, t.right)
    ensures t.Node? ==>
              var a, b := Nodes(m, m[p].left, t.left), Nodes(m, m[p].right, t.right);
              p !in a && p !in b && a !! b && Nodes(m, p, t) == {p} + a + b
    ensures t.Leaf? ==> Nodes(m, p, t) == {}
  {
  }

  lemma {:induction false} Fold(m: Mem, p: Ptr, t: Tree, a: set<Ptr>, b: set<Ptr>)
    requires Matches'(m, p, t) && Rep(m, m[p].left, t.left) && Rep(m, m[p].right, t.right)
    requires a == Nodes(m, m[p].left, t.left) && b == Nodes(m, m[p].right, t.right) && p !in a && p !in b && a !! b
    ensures Rep(m, p, t) && Nodes(m, p, t) == {p} + a + b
  {
  }

  lemma {:induction false} NodesAllocated(m: Mem, p: Ptr, t: Tree)
    ensures forall q :: q in Nodes(m, p, t) ==> q in m
    decreases t
  {
    if t.Node? && p in m {
      NodesAllocated(m, m[p].left, t.left);
      NodesAllocated(m, m[p].right, t.right);
    }
  }

  /** A tree only depends on its own records. */
  lemma {:induction false} Frame(m: Mem, p: Ptr, t: Tree, m': Mem)
    requires Rep(m, p, t) && forall q :: q in Nodes(m, p, t) ==> q in m && q in m' && m'[q] == m[q]
    ensures Rep(m', p, t) && Nodes(m', p, t) == Nodes(m, p, t)
    decreases t
  {
    if t.Node? {
      Frame(m, m[p].left, t.left, m');
      Frame(m, m[p].right, t.right, m');
    }
  }

  lemma {:induction false} FrameOut(m: Mem, p: Ptr, t: Tree, m': Mem, s: set<Ptr>)
    requires Rep(m, p, t) && Same(m, m', s) && Nodes(m, p, t) !! s
    ensures Rep(m', p, t) && Nodes(m', p, t) == Nodes(m, p, t)
  {
    NodesAllocated(m, p, t);
    Frame(m, p, t, m');
  }

  // ---- rotations and colour flips --------------------------------------------------------------------------------

  lemma {:induction false} RotatedLeft(m: Mem, h: Ptr, t: Tree, m': Mem)
    requires Rep(m, h, t) && t.Node? && t.right.Node?
    requires h in m && m[h].right in m
    requires var x := m[h].right; var r := RotateLeft(t);
             m' == m[h := m[h].(right := m[x].left, red := true, maxEnd := r.left.maxEnd)][x := m[x].(left := h, red := m[h].red, maxEnd := r.maxEnd)]
    ensures Rep(m', m[h].right, RotateLeft(t)) && Nodes(m', m[h].right, RotateLeft(t)) == Nodes(m, h, t)
  {
    hide Rep, Nodes;
    var x := m[h].right;
    Unfold(m, h, t);
    Unfold(m, x, t.right);
    var r := RotateLeft(t);
    FrameOut(m, m[h].left, t.left, m', {h, x});
    FrameOut(m, m[x].left, t.right.left, m', {h, x});
    FrameOut(m, m[x].right, t.right.right, m', {h, x});
    var a, b, c := Nodes(m, m[h].left, t.left), Nodes(m, m[x].left, t.right.left), Nodes(m, m[x].right, t.right.right);
    Fold(m', h, r.left, a, b);
    Fold(m', x, r, {h} + a + b, c);
  }

  lemma {:induction false} RotatedRight(m: Mem, h: Ptr, t: Tree, m': Mem)
    requires Rep(m, h, t) && t.Node? && t.left.Node?
    requires h in m && m[h].left in m
    requires var x := m[h].left; var r := RotateRight(t);
             m' == m[h := m[h].(left := m[x].right, red := true, maxEnd := r.right.maxEnd)][x := m[x].(right := h, red := m[h].red, maxEnd := r.maxEnd)]
    ensures Rep(m', m[h].left, RotateRight(t)) && Nodes(m', m[h].left, RotateRight(t)) == Nodes(m, h, t)
  {
    hide Rep, Nodes;
    var x := m[h].left;
    Unfold(m, h, t);
    Unfold(m, x, t.left);
    var r := RotateRight(t);
    FrameOut(m, m[h].right, t.right, m', {h, x});
    FrameOut(m, m[x].left, t.left.left, m', {h, x});
    FrameOut(m, m[x].right, t.left.right, m', {h, x});
    var a, b, c := Nodes(m, m[x].left, t.left.left), Nodes(m, m[x].right, t.left.right), Nodes(m, m[h].right, t.right);
    Fold(m', h, r.right, b, c);
    Fold(m', x, r, a, {h} + b + c);
  }

  lemma {:induction false} Flipped(m: Mem, h: Ptr, t: Tree, m': Mem)
    requires Rep(m, h, t) && t.Node? && t.left.Node? && t.right.Node?
    requires h in m && m[h].left in m && m[h].right in m
    requires var l, r := m[h].left, m[h].right;
             m' == m[h := m[h].(red := !m[h].red)][l := m[l].(red := !m[l].red)][r := m[r].(red := !m[r].red)]
    ensures Rep(m', h, FlipColours(t)) && Nodes(m', h, FlipColours(t)) == Nodes(m, h, t)
  {
    hide Rep, Nodes;
    var l, r := m[h].left, m[h].right;
    Unfold(m, h, t);
    Unfold(m, l, t.left);
    Unfold(m, r, t.right);
    var f := FlipColours(t);
    var s := {h, l, r};
    FrameOut(m, m[l].left, t.left.left, m', s);
    FrameOut(m, m[l].right, t.left.right, m', s);
    FrameOut(m, m[r].left, t.right.left, m', s);
    FrameOut(m, m[r].right, t.right.right, m', s);
    Fold(m', l, f.left, Nodes(m, m[l].left, t.left.left), Nodes(m, m[l].right, t.left.right));
    Fold(m', r, f.right, Nodes(m, m[r].left, t.right.left), Nodes(m, m[r].right, t.right.right));
    Fold(m', h, f, Nodes(m, l, t.left), Nodes(m, r, t.right));
  }

  // ---- replacing a child or the node's own data ----------------------------------------------------------------------

  /** A child was replaced by an operation that stayed within its own subtree. */
  lemma {:induction false} LeftReplaced(m: Mem, h: Ptr, t: Tree, m1: Mem, l: Ptr, tl: Tree, m': Mem)
    requires Rep(m, h, t) && t.Node? && h in m
    requires Same(m, m1, Nodes(m, m[h].left, t.left)) && Rep(m1, l, tl)
    requires Within(Nodes(m1, l, tl), Nodes(m, m[h].left, t.left), m)
    requires Tidy(m, Nodes(m, m[h].left, t.left), m1, Nodes(m1, l, tl))
    requires m' == m1[h := m[h].(left := l)]
    ensures Rep(m', h, t.(left := tl)) && Within(Nodes(m', h, t.(left := tl)), Nodes(m, h, t), m)
    ensures Same(m, m', Nodes(m, h, t)) && Tidy(m, Nodes(m, h, t), m', Nodes(m', h, t.(left := tl)))
  {
    hide Rep, Nodes;
    Unfold(m, h, t);
    NodesAllocated(m, m[h].right, t.right);
    FrameOut(m, m[h].right, t.right, m1, Nodes(m, m[h].left, t.left));
    FrameOut(m1, m[h].right, t.right, m', {h});
    FrameOut(m1, l, tl, m', {h});
    Fold(m', h, t.(left := tl), Nodes(m1, l, tl), Nodes(m, m[h].right, t.right));
  }

  lemma {:induction false} RightReplaced(m: Mem, h: Ptr, t: Tree, m1: Mem, r: Ptr, tr: Tree, m': Mem)
    requires Rep(m, h, t) && t.Node? && h in m
    requires Same(m, m1, Nodes(m, m[h].right, t.right)) && Rep(m1, r, tr)
    requires Within(Nodes(m1, r, tr), Nodes(m, m[h].right, t.right), m)
    requires Tidy(m, Nodes(m, m[h].right, t.right), m1, Nodes(m1, r, tr))
    requires m' == m1[h := m[h].(right := r)]
    ensures Rep(m', h, t.(right := tr)) && Within(Nodes(m', h, t.(right := tr)), Nodes(m, h, t), m)
    ensures Same(m, m', Nodes(m, h, t)) && Tidy(m, Nodes(m, h, t), m', Nodes(m', h, t.(right := tr)))
  {
    hide Rep, Nodes;
    Unfold(m, h, t);
    NodesAllocated(m, m[h].left, t.left);
    FrameOut(m, m[h].left, t.left, m1, Nodes(m, m[h].right, t.right));
    FrameOut(m1, m[h].left, t.left, m', {h});
    FrameOut(m1, r, tr, m', {h});
    Fold(m', h, t.(right := tr), Nodes(m, m[h].left, t.left), Nodes(m1, r, tr));
  }

  lemma {:induction false} DataReplaced(m: Mem, h: Ptr, t: Tree, m': Mem, t': Tree)
    requires Rep(m, h, t) && t.Node? && h in m && t'.Node? && t'.left == t.left && t'.right == t.right
    requires m' == m[h := Rec(m[h].left, m[h].right, t'.lo, t'.segs, t'.maxEnd, t'.red)]
    ensures Rep(m', h, t') && Nodes(m', h, t') == Nodes(m, h, t)
  {
    hide Rep, Nodes;
    Unfold(m, h, t);
    FrameOut(m, m[h].left, t.left, m', {h});
    FrameOut(m, m[h].right, t.right, m', {h});
    Fold(m', h, t', Nodes(m, m[h].left, t.left), Nodes(m, m[h].right, t.right));
  }

  function EndOf(m: Mem, p: Ptr): I64 {
    if p in m then m[p].maxEnd else I64_MIN
  }

  /** What aug computes for the record at p. */
  function NewEnd(m: Mem, p: Ptr): I64
    requires p in m
  {
    Max(Max(MaxHi(m[p].segs), EndOf(m, m[p].left)), EndOf(m, m[p].right))
  }

  lemma {:induction false} EndMatches(m: Mem, p: Ptr, t: Tree)
    requires Rep(m, p, t) && NULL !in m
    ensures EndOf(m, p) == End(t)
  {
  }

  lemma {:induction false} EndsKept(m: Mem, p: Ptr, t: Tree, m': Mem, s: set<Ptr>)
    requires Rep(m, p, t) && Same(m, m', s) && Nodes(m, p, t) !! s && NULL !in m'
    ensures EndOf(m', p) == End(t)
  {
    hide Rep, Nodes;
    FrameOut(m, p, t, m', s);
    EndMatches(m', p, t);
  }

  /** What the two calls of aug in a rotation compute. */
  lemma {:induction false} LeftEnds(m: Mem, h: Ptr, x: Ptr, t: Tree, m2: Mem)
    requires Rep(m, h, t) && t.Node? && t.right.Node? && NULL !in m && h in m && x in m && x == m[h].right && h != x
    requires m2 == m[h := m[h].(right := m[x].left, red := true)][x := m[x].(left := h, red := m[h].red)]
    ensures NewEnd(m2, h) == RotateLeft(t).left.maxEnd
    ensures NewEnd(m2[h := m2[h].(maxEnd := NewEnd(m2, h))], x) == RotateLeft(t).maxEnd
  {
    hide Rep, Nodes, MaxHi;
    Unfold(m, h, t);
    Unfold(m, x, t.right);
    var m3: Mem := m2[h := m2[h].(maxEnd := NewEnd(m2, h))];
    EndsKept(m, m[h].left, t.left, m2, {h, x});
    EndsKept(m, m[x].left, t.right.left, m2, {h, x});
    EndsKept(m, m[x].right, t.right.right, m3, {h, x});
  }

  lemma {:induction false} RightEnds(m: Mem, h: Ptr, x: Ptr, t: Tree, m2: Mem)
    requires Rep(m, h, t) && t.Node? && t.left.Node? && NULL !in m && h in m && x in m && x == m[h].left && h != x
    requires m2 == m[h := m[h].(left := m[x].right, red := true)][x := m[x].(right := h, red := m[h].red)]
    ensures NewEnd(m2, h) == RotateRight(t).right.maxEnd
    ensures NewEnd(m2[h := m2[h].(maxEnd := NewEnd(m2, h))], x) == RotateRight(t).maxEnd
  {
    hide Rep, Nodes, MaxHi;
    Unfold(m, h, t);
    Unfold(m, x, t.left);
    var m3: Mem := m2[h := m2[h].(maxEnd := NewEnd(m2, h))];
    EndsKept(m, m[h].right, t.right, m2, {h, x});
    EndsKept(m, m[x].right, t.left.right, m2, {h, x});
    EndsKept(m, m[x].left, t.left.left, m3, {h, x});
  }

  method LargestHi(segs: seq<Seg>) returns (hi: I64)
    ensures hi == MaxHi(segs)
  {
    hi := I64_MIN;
    var i := |segs|;
    while i > 0
      invariant 0 <= i <= |segs| && hi == MaxHi(segs[i..])
    {
      i := i - 1;
      assert segs[i..][0] == segs[i] && segs[i..][1..] == segs[i + 1..];
      if segs[i].hi > hi { hi := segs[i].hi; }
    }
    assert segs[0..] == segs;
  }

  /** An operation turned the tree t at h into t' at r on the same records. */
  ghost predicate Did(m: Mem, h: Ptr, t: Tree, m': Mem, r: Ptr, t': Tree) {
    Rep(m', r, t') && Nodes(m', r, t') == Nodes(m, h, t) && Same(m, m', Nodes(m, h, t)) && m'.Keys == m.Keys
  }

  /** The same where records may be added or freed; freed means gone, and no record is left behind unlinked. */
  ghost predicate Kept(m: Mem, h: Ptr, t: Tree, m': Mem, r: Ptr, t': Tree) {
    && Rep(m', r, t') && Within(Nodes(m', r, t'), Nodes(m, h, t), m) && Same(m, m', Nodes(m, h, t))
    && Tidy(m, Nodes(m, h, t), m', Nodes(m', r, t'))
  }

  lemma {:induction false} DidNothing(m: Mem, h: Ptr, t: Tree)
    requires Rep(m, h, t)
    ensures Did(m, h, t, m, h, t)
  {
  }

  lemma DidTwice(m: Mem, h: Ptr, t: Tree, m1: Mem, h1: Ptr, t1: Tree, m2: Mem, h2: Ptr, t2: Tree)
    requires Did(m, h, t, m1, h1, t1) && Did(m1, h1, t1, m2, h2, t2)
    ensures Did(m, h, t, m2, h2, t2)
  {
    hide Rep, Nodes;
  }

  lemma KeptThenDid(m: Mem, h: Ptr, t: Tree, m1: Mem, h1: Ptr, t1: Tree, m2: Mem, h2: Ptr, t2: Tree)
    requires Kept(m, h, t, m1, h1, t1) && Did(m1, h1, t1, m2, h2, t2)
    ensures Kept(m, h, t, m2, h2, t2)
  {
    hide Rep, Nodes;
  }

  lemma DidThenKept(m: Mem, h: Ptr, t: Tree, m1: Mem, h1: Ptr, t1: Tree, m2: Mem, h2: Ptr, t2: Tree)
    requires Did(m, h, t, m1, h1, t1) && Kept(m1, h1, t1, m2, h2, t2)
    ensures Kept(m, h, t, m2, h2, t2)
  {
    hide Rep, Nodes;
    assert forall q :: q in m <==> q in m.Keys;
    assert forall q :: q in m1 <==> q in m1.Keys;
  }

  /** The three steps of fixup. */
  function Lean(t: Tree): (r: Tree)
    requires t.Node?
    ensures r.Node?
  {
    if Red(t.right) && !Red(t.left) then RotateLeft(t) else t
  }

  function Straighten(t: Tree): (r: Tree)
    requires t.Node?
    ensures r.Node?
  {
    if Red(t.left) && Red(t.left.left) then RotateRight(t) else t
  }

  function Split(t: Tree): (r: Tree)
    requires t.Node?
    ensures r.Node?
  {
    if Red(t.left) && Red(t.right) then FlipColours(t) else t
  }

  lemma {:induction false} FirstCopy(segs: seq<Seg>, s: Seg, i: nat)
    requires i <= |segs| && (forall j :: 0 <= j < i ==> segs[j] != s) && (i < |segs| ==> segs[i] == s)
    ensures RemoveSeg(segs, s) == if i == |segs| then (segs, false) else (segs[..i] + segs[i + 1..], true)
    decreases i
  {
    if i > 0 {
      FirstCopy(segs[1..], s, i - 1);
      assert segs == [segs[0]] + segs[1..];
      if i < |segs| {
        assert [segs[0]] + (segs[1..][..i - 1] + segs[1..][i..]) == segs[..i] + segs[i + 1..];
      }
    } else if segs != [] {
      assert segs[..0] + segs[1..] == segs[1..];
    }
  }

  /** Unlinks the first copy of a segment from a chain. */
  method Unchain(segs: seq<Seg>, s: Seg) returns (rest: seq<Seg>, found: bool)
    ensures (rest, found) == RemoveSeg(segs, s)
  {
    var i := 0;
    while i < |segs| && segs[i] != s
      invariant 0 <= i <= |segs| && forall j :: 0 <= j < i ==> segs[j] != s
    {
      i := i + 1;
    }
    FirstCopy(segs, s, i);
    if i == |segs| {
      return segs, false;
    }
    return segs[..i] + segs[i + 1..], true;
  }

  /** Copies a chain by prepending. */
  method CopyChain(segs: seq<Seg>) returns (copy: seq<Seg>)
    ensures copy == Reversed(segs)
  {
    copy := [];
    var i := 0;
    while i < |segs|
      invariant 0 <= i <= |segs| && Reversed(segs) == Reversed(segs[i..]) + copy
    {
      assert segs[i..][1..] == segs[i + 1..];
      copy := [segs[i]] + copy;
      i := i + 1;
    }
  }

  /** Shows the overlapping segments of one node to the callback until it declines. */
  method VisitSegs(lo: I64, segs: seq<Seg>, a: I64, b: I64, seen: seq<Interval>, go: seq<Interval> -> bool)
      returns (shown: seq<Interval>, stop: bool)
    ensures (shown, stop) == Scan(Row(lo, segs), a, b, seen, go)
  {
    shown, stop := seen, false;
    var i := 0;
    while i < |segs| && !stop
      invariant 0 <= i <= |segs|
      invariant if stop then Scan(Row(lo, segs), a, b, seen, go) == (shown, true)
                else Scan(Row(lo, segs), a, b, seen, go) == Scan(Row(lo, segs[i..]), a, b, shown, go)
    {
      assert segs[i..][1..] == segs[i + 1..];
      ghost var row := Row(lo, segs[i..]);
      assert row[0] == Interval(lo, segs[i].hi, segs[i].val) && row[1..] == Row(lo, segs[i + 1..]);
      if segs[i].hi >= a && lo <= b {
        shown := shown + [Interval(lo, segs[i].hi, segs[i].val)];
        if !go(shown) { stop := true; }
      }
      i := i + 1;
    }
  }

  /** Work below h leaves the record of h alone. */
  lemma {:induction false} Untouched(m: Mem, h: Ptr, t: Tree, m1: Mem)
    requires Rep(m, h, t) && t.Node? && h in m
    requires Same(m, m1, Nodes(m, m[h].left, t.left)) || Same(m, m1, Nodes(m, m[h].right, t.right))
    ensures h in m1 && m1[h] == m[h]
  {
    hide Nodes;
    Unfold(m, h, t);
  }

  lemma DidKept(m: Mem, h: Ptr, t: Tree, m1: Mem, h1: Ptr, t1: Tree)
    requires Did(m, h, t, m1, h1, t1)
    ensures Kept(m, h, t, m1, h1, t1)
  {
    hide Rep, Nodes;
  }

  lemma FlipShape(t: Tree)
    requires t.Node? && t.left.Node? && t.right.Node?
    ensures var f := FlipColours(t); f.Node? && f.left.Node? && f.right.Node?
  {
  }

  lemma TurnsShape(f: Tree)
    requires f.Node? && f.left.Node? && f.right.Node? && f.right.left.Node?
    ensures var g := f.(right := RotateRight(f.right));
            g.right.Node? && RotateLeft(g).Node? && RotateLeft(g).left.Node? && RotateLeft(g).right.Node?
  {
  }

  lemma RightTurnShape(f: Tree)
    requires f.Node? && f.left.Node? && f.left.left.Node?
    ensures RotateRight(f).Node? && RotateRight(f).left.Node? && RotateRight(f).right.Node?
  {
  }

  lemma {:induction false} UntouchedRight(m: Mem, h: Ptr, t: Tree, m1: Mem, r: Ptr, tr: Tree)
    requires Rep(m, h, t) && t.Node? && h in m && Did(m, m[h].right, t.right, m1, r, tr)
    ensures h in m1 && m1[h] == m[h]
  {
    hide Nodes;
    Unfold(m, h, t);
  }

  /** A child was replaced by an operation on the same records. */
  lemma {:induction false} RightDid(m: Mem, h: Ptr, t: Tree, m1: Mem, r: Ptr, tr: Tree, m': Mem)
    requires Rep(m, h, t) && t.Node? && h in m && Did(m, m[h].right, t.right, m1, r, tr) && m' == m1[h := m[h].(right := r)]
    ensures Did(m, h, t, m', h, t.(right := tr))
  {
    hide Rep, Nodes;
    Unfold(m, h, t);
    NodesAllocated(m, m[h].right, t.right);
    FrameOut(m, m[h].left, t.left, m1, Nodes(m, m[h].right, t.right));
    FrameOut(m1, m[h].left, t.left, m', {h});
    FrameOut(m1, r, tr, m', {h});
    Fold(m', h, t.(right := tr), Nodes(m, m[h].left, t.left), Nodes(m1, r, tr));
  }

  lemma {:induction false} DataDid(m: Mem, h: Ptr, t: Tree, m': Mem, t': Tree)
    requires Rep(m, h, t) && t.Node? && h in m && t'.Node? && t'.left == t.left && t'.right == t.right
    requires m' == m[h := Rec(m[h].left, m[h].right, t'.lo, t'.segs, t'.maxEnd, t'.red)]
    ensures Did(m, h, t, m', h, t')
  {
    hide Rep, Nodes;
    Unfold(m, h, t);
    DataReplaced(m, h, t, m', t');
  }

  lemma {:induction false} Rotated(t: Tree, lo: I64, n: int, a: int, b: int)
    requires t.Node? && Ok(t, a, b) && DelPre(t, lo, n) && Red(t.left)
    ensures var u := RotateRight(t);
            RightRed(u, n) && u.Node? && !Red(u.left) && u.lo <= t.lo && Ok(u, a, b) && Size(u) == Size(t)
  {
    OpenOk(t, a, b);
    OpenOk(t.left, a, t.lo);
    RotatedShape(t, n);
    RotateSize(t);
    RotateOk(t, a, b);
  }

  /** Next to a leaf there is at most a red node. */
  lemma NothingBelow(l: Tree, m: int, r: Tree)
    requires r.Leaf? && Shape(l, m) && Shape(r, m) && !Red(l)
    ensures l.Leaf?
  {
    LeafOnly(l, m);
  }

  /** If all records belonged to the tree, all of them do afterwards. */
  lemma {:induction false} AllLinked(m: Mem, h: Ptr, t: Tree, m': Mem, r: Ptr, t': Tree)
    requires m.Keys == Nodes(m, h, t) && Kept(m, h, t, m', r, t')
    ensures m'.Keys == Nodes(m', r, t')
  {
    hide Rep, Nodes;
    NodesAllocated(m', r, t');
    assert forall q :: q in m <==> q in m.Keys;
    assert forall q :: q in m' <==> q in m'.Keys;
  }

  lemma ValidParts(t: Tree) returns (n: int)
    requires Valid(t)
    ensures !Red(t) && Shape(t, n) && Ok(t, I64_MIN - 1, I64_MAX + 1)
  {
    n :| Shape(t, n);
  }

  lemma {:induction false} EmptyHoldsNothing(t: Tree, x: Interval)
    requires t.Leaf?
    ensures x !in InOrder(t) && multiset(InOrder(t)) == multiset(InOrder(t)) - multiset{x}
  {
    assert InOrder(t) == [];
  }

  class Itree {
    var mem: Mem
    var next: Ptr      // addresses from here on are free
    var root: Ptr
    var count: nat
    ghost var tree: Tree

    ghost predicate Sane()
      reads this
    {
      NULL !in mem && next > NULL && forall q :: q in mem ==> q < next
    }

    /** Recomputes max_end of one record. */
    method Augment(p: Ptr)
      requires p in mem
      modifies this`mem
      ensures mem == old(mem)[p := old(mem)[p].(maxEnd := NewEnd(old(mem), p))]
    {
      var hi := LargestHi(mem[p].segs);
      mem := mem[p := mem[p].(maxEnd := Max(Max(hi, EndOf(mem, mem[p].left)), EndOf(mem, mem[p].right)))];
    }

    method IsRed(p: Ptr, ghost t: Tree) returns (b: bool)
      requires Rep(mem, p, t)
      ensures b == Red(t)
    {
      return p != NULL && mem[p].red;
    }

    /** The assignments of a rotation, before max_end is brought up to date. */
    method RelinkLeft(h: Ptr, x: Ptr)
      requires h in mem && x in mem && h != x
      modifies this`mem
      ensures mem == old(mem)[h := old(mem)[h].(right := old(mem)[x].left, red := true)][x := old(mem)[x].(left := h, red := old(mem)[h].red)]
    {
      mem := mem[h := mem[h].(right := mem[x].left)];
      mem := mem[x := mem[x].(left := h)];
      mem := mem[x := mem[x].(red := mem[h].red)];
      mem := mem[h := mem[h].(red := true)];
    }

    method TurnLeft(h: Ptr, ghost t: Tree) returns (x: Ptr)
      requires Sane() && Rep(mem, h, t) && t.Node? && t.right.Node?
      modifies this`mem
      ensures Sane() && Did(old(mem), h, t, mem, x, RotateLeft(t))
    {
      hide Rep, Nodes, MaxHi, NewEnd, RotateLeft;
      ghost var m: Mem := mem;
      Unfold(m, h, t);
      x := mem[h].right;
      Unfold(m, x, t.right);
      RelinkLeft(h, x);
      LeftEnds(m, h, x, t, mem);
      Augment(h);
      Augment(x);
      assert mem == m[h := mem[h]][x := mem[x]];
      RotatedLeft(m, h, t, mem);
    }

    /** The assignments of a rotation, before max_end is brought up to date. */
    method RelinkRight(h: Ptr, x: Ptr)
      requires h in mem && x in mem && h != x
      modifies this`mem
      ensures mem == old(mem)[h := old(mem)[h].(left := old(mem)[x].right, red := true)][x := old(mem)[x].(right := h, red := old(mem)[h].red)]
    {
      mem := mem[h := mem[h].(left := mem[x].right)];
      mem := mem[x := mem[x].(right := h)];
      mem := mem[x := mem[x].(red := mem[h].red)];
      mem := mem[h := mem[h].(red := true)];
    }

    method TurnRight(h: Ptr, ghost t: Tree) returns (x: Ptr)
      requires Sane() && Rep(mem, h, t) && t.Node? && t.left.Node?
      modifies this`mem
      ensures Sane() && Did(old(mem), h, t, mem, x, RotateRight(t))
    {
      hide Rep, Nodes, MaxHi, NewEnd, RotateRight;
      ghost var m: Mem := mem;
      Unfold(m, h, t);
      x := mem[h].left;
      Unfold(m, x, t.left);
      RelinkRight(h, x);
      RightEnds(m, h, x, t, mem);
      Augment(h);
      Augment(x);
      assert mem == m[h := mem[h]][x := mem[x]];
      RotatedRight(m, h, t, mem);
    }

    method Flip(h: Ptr, ghost t: Tree)
      requires Sane() && Rep(mem, h, t) && t.Node? && t.left.Node? && t.right.Node?
      modifies this`mem
      ensures Sane() && Did(old(mem), h, t, mem, h, FlipColours(t))
    {
      hide Rep, Nodes;
      ghost var m: Mem := mem;
      Unfold(m, h, t);
      Unfold(m, m[h].left, t.left);
      Unfold(m, m[h].right, t.right);
      var l, r := mem[h].left, mem[h].right;
      mem := mem[h := mem[h].(red := !mem[h].red)];
      mem := mem[l := mem[l].(red := !mem[l].red)];
      mem := mem[r := mem[r].(red := !mem[r].red)];
      Flipped(m, h, t, mem);
    }

    method AugmentTree(h: Ptr, ghost t: Tree)
      requires Sane() && Rep(mem, h, t) && t.Node?
      modifies this`mem
      ensures Sane() && Did(old(mem), h, t, mem, h, Aug(t))
    {
      hide Rep, Nodes, MaxHi;
      ghost var m: Mem := mem;
      Unfold(m, h, t);
      EndMatches(m, m[h].left, t.left);
      EndMatches(m, m[h].right, t.right);
      Augment(h);
      DataReplaced(m, h, t, mem, Aug(t));
    }

    method LeanLeft(h: Ptr, ghost t: Tree) returns (r: Ptr)
      requires Sane() && Rep(mem, h, t) && t.Node?
      modifies this`mem
      ensures Sane() && Did(old(mem), h, t, mem, r, Lean(t))
    {
      hide Rep, Nodes, Did, RotateLeft;
      Unfold(mem, h, t);
      var rightRed := IsRed(mem[h].right, t.right);
      var leftRed := IsRed(mem[h].left, t.left);
      r := h;
      if rightRed && !leftRed {
        r := TurnLeft(h, t);
      } else {
        DidNothing(mem, h, t);
      }
    }

    method StraightenLeft(h: Ptr, ghost t: Tree) returns (r: Ptr)
      requires Sane() && Rep(mem, h, t) && t.Node?
      modifies this`mem
      ensures Sane() && Did(old(mem), h, t, mem, r, Straighten(t))
    {
      hide Rep, Nodes, Did, RotateRight;
      Unfold(mem, h, t);
      r := h;
      var twoRed := IsRed(mem[h].left, t.left);
      if twoRed {
        Unfold(mem, mem[h].left, t.left);
        twoRed := IsRed(mem[mem[h].left].left, t.left.left);
      }
      if twoRed {
        r := TurnRight(h, t);
      } else {
        DidNothing(mem, h, t);
      }
    }

    method SplitNode(h: Ptr, ghost t: Tree)
      requires Sane() && Rep(mem, h, t) && t.Node?
      modifies this`mem
      ensures Sane() && Did(old(mem), h, t, mem, h, Split(t))
    {
      hide Rep, Nodes, Did, FlipColours;
      Unfold(mem, h, t);
      var leftRed := IsRed(mem[h].left, t.left);
      var rightRed := IsRed(mem[h].right, t.right);
      if leftRed && rightRed {
        Flip(h, t);
      } else {
        DidNothing(mem, h, t);
      }
    }

    method FixupAt(h: Ptr, ghost t: Tree) returns (r: Ptr)
      requires Sane() && Rep(mem, h, t) && t.Node?
      modifies this`mem
      ensures Sane() && Did(old(mem), h, t, mem, r, Fixup(t))
    {
      hide Nodes, Rep, Same, RotateLeft, RotateRight, FlipColours, Aug;
      r := LeanLeft(h, t);
      ghost var m1, r1, t1 := mem, r, Lean(t);
      r := StraightenLeft(r, t1);
      ghost var m2, r2, t2 := mem, r, Straighten(t1);
      DidTwice(old(mem), h, t, m1, r1, t1, m2, r2, t2);
      SplitNode(r, t2);
      ghost var m3, t3 := mem, Split(t2);
      DidTwice(old(mem), h, t, m2, r2, t2, m3, r, t3);
      AugmentTree(r, t3);
      DidTwice(old(mem), h, t, m3, r, t3, mem, r, Aug(t3));
    }

    // ---- insertion ----------------------------------------------------------------------------------------------

    method NewNode(lo: I64, hi: I64, val: Val) returns (r: Ptr)
      requires Sane()
      modifies this`mem, this`next
      ensures Sane() && Kept(old(mem), NULL, Leaf, mem, r, Tree.Node(Leaf, lo, [Seg(hi, val)], hi, true, Leaf))
    {
      r := next;
      next := next + 1;
      mem := mem[r := Rec(NULL, NULL, lo, [Seg(hi, val)], hi, true)];
      Fold(mem, r, Tree.Node(Leaf, lo, [Seg(hi, val)], hi, true, Leaf), {}, {});
    }

    method SetLeft(h: Ptr, l: Ptr, ghost m: Mem, ghost t: Tree, ghost tl: Tree)
      requires Sane() && Rep(m, h, t) && t.Node? && h in m && h in mem && mem[h] == m[h]
      requires Same(m, mem, Nodes(m, m[h].left, t.left)) && Rep(mem, l, tl) && Within(Nodes(mem, l, tl), Nodes(m, m[h].left, t.left), m)
      requires Tidy(m, Nodes(m, m[h].left, t.left), mem, Nodes(mem, l, tl))
      modifies this`mem
      ensures Sane() && Kept(m, h, t, mem, h, t.(left := tl))
    {
      hide Rep, Nodes;
      ghost var m1: Mem := mem;
      mem := mem[h := mem[h].(left := l)];
      LeftReplaced(m, h, t, m1, l, tl, mem);
    }

    method SetRight(h: Ptr, r: Ptr, ghost m: Mem, ghost t: Tree, ghost tr: Tree)
      requires Sane() && Rep(m, h, t) && t.Node? && h in m && h in mem && mem[h] == m[h]
      requires Same(m, mem, Nodes(m, m[h].right, t.right)) && Rep(mem, r, tr) && Within(Nodes(mem, r, tr), Nodes(m, m[h].right, t.right), m)
      requires Tidy(m, Nodes(m, m[h].right, t.right), mem, Nodes(mem, r, tr))
      modifies this`mem
      ensures Sane() && Kept(m, h, t, mem, h, t.(right := tr))
    {
      hide Rep, Nodes;
      ghost var m1: Mem := mem;
      mem := mem[h := mem[h].(right := r)];
      RightReplaced(m, h, t, m1, r, tr, mem);
    }

    /** Prepends a segment to the chain. */
    method Prepend(h: Ptr, s: Seg, ghost t: Tree)
      requires Sane() && Rep(mem, h, t) && t.Node?
      modifies this`mem
      ensures Sane() && Did(old(mem), h, t, mem, h, t.(segs := [s] + t.segs))
    {
      hide Rep, Nodes;
      ghost var m: Mem := mem;
      Unfold(m, h, t);
      mem := mem[h := mem[h].(segs := [s] + mem[h].segs)];
      DataReplaced(m, h, t, mem, t.(segs := [s] + t.segs));
    }

    method InsertAt(h: Ptr, lo: I64, hi: I64, val: Val, ghost t: Tree) returns (r: Ptr)
      requires Sane() && Rep(mem, h, t)
      modifies this`mem, this`next
      ensures Sane() && Kept(old(mem), h, t, mem, r, InsertInto(t, lo, hi, val))
      decreases t
    {
      hide Rep, Nodes, Fixup, Same, Within, Tidy;
      Unfold(mem, h, t);
      if h == NULL {
        r := NewNode(lo, hi, val);
        return;
      }
      ghost var m: Mem := mem;
      ghost var u := t;
      if lo < mem[h].lo {
        var l := InsertAt(mem[h].left, lo, hi, val, t.left);
        Untouched(m, h, t, mem);
        SetLeft(h, l, m, t, InsertInto(t.left, lo, hi, val));
        u := t.(left := InsertInto(t.left, lo, hi, val));
      } else if lo > mem[h].lo {
        var x := InsertAt(mem[h].right, lo, hi, val, t.right);
        Untouched(m, h, t, mem);
        SetRight(h, x, m, t, InsertInto(t.right, lo, hi, val));
        u := t.(right := InsertInto(t.right, lo, hi, val));
      } else {
        Prepend(h, Seg(hi, val), t);
        u := t.(segs := [Seg(hi, val)] + t.segs);
        DidKept(m, h, t, mem, h, u);
      }
      ghost var m1: Mem := mem;
      r := FixupAt(h, u);
      KeptThenDid(m, h, t, m1, h, u, mem, r, Fixup(u));
    }

    // ---- deletion -----------------------------------------------------------------------------------------------

    method MoveLeft(h: Ptr, ghost t: Tree) returns (r: Ptr)
      requires Sane() && Rep(mem, h, t) && t.Node? && t.left.Node? && t.right.Node?
      modifies this`mem
      ensures Sane() && Did(old(mem), h, t, mem, r, MoveRedLeft(t))
    {
      hide Rep, Nodes, Same, FlipColours, RotateLeft, RotateRight;
      FlipShape(t);
      Flip(h, t);
      ghost var f := FlipColours(t);
      ghost var m1: Mem := mem;
      r := h;
      Unfold(mem, h, f);
      Unfold(mem, mem[h].right, f.right);
      var red := IsRed(mem[mem[h].right].left, f.right.left);
      if red {
        var x := TurnRight(mem[h].right, f.right);
        UntouchedRight(m1, h, f, mem, x, RotateRight(f.right));
        ghost var m2: Mem := mem;
        mem := mem[h := mem[h].(right := x)];
        RightDid(m1, h, f, m2, x, RotateRight(f.right), mem);
        ghost var g := f.(right := RotateRight(f.right));
        DidTwice(old(mem), h, t, m1, h, f, mem, h, g);
        ghost var m3: Mem := mem;
        TurnsShape(f);
        r := TurnLeft(h, g);
        DidTwice(old(mem), h, t, m3, h, g, mem, r, RotateLeft(g));
        ghost var m4: Mem := mem;
        Flip(r, RotateLeft(g));
        DidTwice(old(mem), h, t, m4, r, RotateLeft(g), mem, r, FlipColours(RotateLeft(g)));
      }
    }

    method MoveRight(h: Ptr, ghost t: Tree) returns (r: Ptr)
      requires Sane() && Rep(mem, h, t) && t.Node? && t.left.Node? && t.right.Node?
      modifies this`mem
      ensures Sane() && Did(old(mem), h, t, mem, r, MoveRedRight(t))
    {
      hide Rep, Nodes, Same, FlipColours, RotateRight;
      FlipShape(t);
      Flip(h, t);
      ghost var f := FlipColours(t);
      ghost var m1: Mem := mem;
      r := h;
      Unfold(mem, h, f);
      Unfold(mem, mem[h].left, f.left);
      var red := IsRed(mem[mem[h].left].left, f.left.left);
      if red {
        RightTurnShape(f);
        r := TurnRight(h, f);
        DidTwice(old(mem), h, t, m1, h, f, mem, r, RotateRight(f));
        ghost var m2: Mem := mem;
        Flip(r, RotateRight(f));
        DidTwice(old(mem), h, t, m2, r, RotateRight(f), mem, r, FlipColours(RotateRight(f)));
      }
    }

    /** The leftmost node. */
    method MinAt(h: Ptr, ghost t: Tree) returns (p: Ptr)
      requires Rep(mem, h, t) && t.Node?
      ensures p in mem && mem[p].lo == TreeMin(t).lo && mem[p].segs == TreeMin(t).segs
    {
      hide Nodes;
      p := h;
      ghost var u := t;
      Unfold(mem, p, u);
      while mem[p].left != NULL
        invariant Rep(mem, p, u) && u.Node? && p in mem && TreeMin(u) == TreeMin(t)
        decreases u
      {
        Unfold(mem, p, u);
        p := mem[p].left;
        u := u.left;
        Unfold(mem, p, u);
      }
      Unfold(mem, p, u);
    }

    method FreeNode(h: Ptr, ghost t: Tree)
      requires Sane() && Rep(mem, h, t) && t.Node? && t.left.Leaf? && t.right.Leaf?
      modifies this`mem
      ensures Sane() && Kept(old(mem), h, t, mem, NULL, Leaf)
    {
      mem := mem - {h};
    }

    method DelMinAt(h: Ptr, ghost t: Tree, ghost n: int) returns (r: Ptr)
      requires Sane() && Rep(mem, h, t) && Shape(t, n) && Ready(t)
      modifies this`mem
      ensures Sane() && Kept(old(mem), h, t, mem, r, DelMin(t, n))
      decreases Size(t), 1
    {
      hide Rep, Nodes, Same, Within, Tidy, Fixup, MoveRedLeft;
      Unfold(mem, h, t);
      if mem[h].left == NULL {
        Unfold(mem, mem[h].left, t.left);
        Open(t, n);
        LeafOnly(t.right, n);
        FreeNode(h, t);
        return NULL;
      }
      Unfold(mem, mem[h].left, t.left);
      ghost var m := if t.red then n else n - 1;
      Open(t, n);
      Open(t.left, m);
      var a := IsRed(mem[h].left, t.left);
      var b := IsRed(mem[mem[h].left].left, t.left.left);
      if !a && !b {
        MoveRedLeftShape(t, n);
        MoveSize(t);
        ghost var g := MoveRedLeft(t);
        var p := MoveLeft(h, t);
        ghost var m1: Mem := mem;
        r := DelMinBelow(p, g, if Red(g.right) then m - 1 else m);
        DidThenKept(old(mem), h, t, m1, p, g, mem, r, DelMin(t, n));
      } else {
        r := DelMinBelow(h, t, m);
      }
    }

    method DelMinBelow(p: Ptr, ghost g: Tree, ghost k: int) returns (r: Ptr)
      requires Sane() && Rep(mem, p, g) && g.Node? && Shape(g.left, k) && Ready(g.left)
      modifies this`mem
      ensures Sane() && Kept(old(mem), p, g, mem, r, Fixup(g.(left := DelMin(g.left, k))))
      decreases Size(g), 0
    {
      hide Rep, Nodes, Same, Within, Tidy, Fixup, DelMin;
      ghost var m: Mem := mem;
      Unfold(mem, p, g);
      var l := DelMinAt(mem[p].left, g.left, k);
      ghost var tl := DelMin(g.left, k);
      Untouched(m, p, g, mem);
      SetLeft(p, l, m, g, tl);
      ghost var m1: Mem := mem;
      r := FixupAt(p, g.(left := tl));
      KeptThenDid(m, p, g, m1, p, g.(left := tl), mem, r, Fixup(g.(left := tl)));
    }

    method TakeOut(h: Ptr, s: Seg, ghost t: Tree) returns (found: bool)
      requires Sane() && Rep(mem, h, t) && t.Node?
      modifies this`mem
      ensures Sane() && Did(old(mem), h, t, mem, h, t.(segs := RemoveSeg(t.segs, s).0)) && found == RemoveSeg(t.segs, s).1
    {
      hide Rep, Nodes, RemoveSeg;
      ghost var m: Mem := mem;
      Unfold(m, h, t);
      var rest;
      rest, found := Unchain(mem[h].segs, s);
      mem := mem[h := mem[h].(segs := rest)];
      DataReplaced(m, h, t, mem, t.(segs := rest));
    }

    /** The root takes over key and chain of its successor, whose node then goes. */
    method Steal(h: Ptr, ghost t: Tree, ghost k: int)
      requires Sane() && Rep(mem, h, t) && t.Node? && Shape(t.right, k) && Ready(t.right)
      modifies this`mem
      ensures var s := TreeMin(t.right);
              Sane() && Kept(old(mem), h, t, mem, h, t.(lo := s.lo, segs := Reversed(s.segs), right := DelMin(t.right, k)))
    {
      hide Rep, Nodes, Same, Within, Tidy, DelMin, TreeMin, Reversed, Shape;
      ghost var m: Mem := mem;
      Unfold(mem, h, t);
      var p := MinAt(mem[h].right, t.right);
      var segs := CopyChain(mem[p].segs);
      mem := mem[h := mem[h].(lo := mem[p].lo, segs := segs)];
      ghost var u := t.(lo := TreeMin(t.right).lo, segs := Reversed(TreeMin(t.right).segs));
      DataDid(m, h, t, mem, u);
      ghost var m1: Mem := mem;
      Unfold(mem, h, u);
      var r := DelMinAt(mem[h].right, t.right, k);
      Untouched(m1, h, u, mem);
      SetRight(h, r, m1, u, DelMin(t.right, k));
      DidThenKept(m, h, t, m1, h, u, mem, h, u.(right := DelMin(t.right, k)));
    }

    method DelSegmentAt(h: Ptr, s: Seg, ghost g: Tree, ghost k: int, ghost a: int, ghost b: int) returns (found: bool)
      requires Sane() && Rep(mem, h, g) && g.Node? && Ok(g, a, b) && Shape(g.right, k) && Ready(g.right)
      modifies this`mem
      ensures Sane() && Kept(old(mem), h, g, mem, h, DelSegment(g, s, k, a, b).0) && found == DelSegment(g, s, k, a, b).1
    {
      hide Rep, Nodes, Same, Within, Tidy, DelMin, TreeMin, Reversed, Shape, Ok, RemoveSeg;
      ghost var m: Mem := mem;
      found := TakeOut(h, s, g);
      ghost var u := g.(segs := RemoveSeg(g.segs, s).0);
      ghost var m1: Mem := mem;
      Unfold(mem, h, u);
      if mem[h].segs == [] {
        Steal(h, u, k);
        DidThenKept(m, h, g, m1, h, u, mem, h, DelSegment(g, s, k, a, b).0);
      } else {
        DidKept(m, h, g, mem, h, u);
      }
    }

    method DelHereAt(h: Ptr, lo: I64, s: Seg, ghost t: Tree, ghost n: int, ghost a: int, ghost b: int) returns (r: Ptr, found: bool)
      requires Sane() && Rep(mem, h, t) && t.Node? && t.right.Leaf? && !Red(t.left) && Shape(t, n) && Ok(t, a, b) && lo >= t.lo
      modifies this`mem
      ensures Sane() && Kept(old(mem), h, t, mem, r, DelHere(t, lo, s, n, a, b).0) && found == DelHere(t, lo, s, n, a, b).1
    {
      hide Rep, Nodes, Same, Within, Tidy, Shape, Ok, RemoveSeg, Fixup, Aug;
      ghost var m: Mem := mem;
      Unfold(mem, h, t);
      Open(t, n);
      NothingBelow(t.left, if t.red then n else n - 1, t.right);
      if lo != mem[h].lo {
        r := FixupAt(h, t);
        DidKept(m, h, t, mem, r, Fixup(t));
        return r, false;
      }
      found := TakeOut(h, s, t);
      ghost var u := t.(segs := RemoveSeg(t.segs, s).0);
      ghost var m1: Mem := mem;
      Unfold(mem, h, u);
      if mem[h].segs == [] {
        FreeNode(h, u);
        r := NULL;
        DidThenKept(m, h, t, m1, h, u, mem, NULL, Leaf);
      } else {
        AugmentTree(h, u);
        r := h;
        DidTwice(m, h, t, m1, h, u, mem, h, Aug(u));
        DidKept(m, h, t, mem, h, Aug(u));
      }
    }

    method DelAt(h: Ptr, lo: I64, s: Seg, ghost t: Tree, ghost n: int, ghost a: int, ghost b: int) returns (r: Ptr, found: bool)
      requires Sane() && Rep(mem, h, t) && DelPre(t, lo, n) && Ok(t, a, b)
      modifies this`mem
      ensures Sane() && Kept(old(mem), h, t, mem, r, Del(t, lo, s, n, a, b).0) && found == Del(t, lo, s, n, a, b).1
      decreases Size(t), 1
    {
      hide Rep, Nodes, Same, Within, Tidy, Shape, Ok, RotateRight, DelLeft, DelRight, RightRed, DelShape, DelContent;
      Unfold(mem, h, t);
      if h == NULL {
        DidNothing(mem, h, t);
        DidKept(mem, h, t, mem, h, t);
        return NULL, false;
      }
      if lo < mem[h].lo {
        r, found := DelLeftAt(h, lo, s, t, n, a, b);
        return;
      }
      var red := IsRed(mem[h].left, t.left);
      if red {
        Rotated(t, lo, n, a, b);
        ghost var m: Mem := mem;
        var p := TurnRight(h, t);
        ghost var m1: Mem := mem;
        r, found := DelRightAt(p, lo, s, RotateRight(t), n, a, b);
        DidThenKept(m, h, t, m1, p, RotateRight(t), mem, r, DelRight(RotateRight(t), lo, s, n, a, b).0);
      } else {
        r, found := DelRightAt(h, lo, s, t, n, a, b);
      }
    }

    method DelLeftAt(h: Ptr, lo: I64, s: Seg, ghost t: Tree, ghost n: int, ghost a: int, ghost b: int) returns (r: Ptr, found: bool)
      requires Sane() && Rep(mem, h, t) && Shape(t, n) && t.Node? && lo < t.lo && Ok(t, a, b)
      modifies this`mem
      ensures Sane() && Kept(old(mem), h, t, mem, r, DelLeft(t, lo, s, n, a, b).0) && found == DelLeft(t, lo, s, n, a, b).1
      decreases Size(t), 0
    {
      hide Rep, Nodes, Same, Within, Tidy, Shape, Ok, MoveRedLeft, DelInLeft, DelShape, DelContent, FixedUp;
      ghost var m := if t.red then n else n - 1;
      Open(t, n);
      OpenOk(t, a, b);
      Unfold(mem, h, t);
      Unfold(mem, mem[h].left, t.left);
      if mem[h].left == NULL {
        DidNothing(mem, h, t);
        DidKept(mem, h, t, mem, h, t);
        return h, false;
      }
      Open(t.left, m);
      var x := IsRed(mem[h].left, t.left);
      Unfold(mem, mem[h].left, t.left);
      var y := IsRed(mem[mem[h].left].left, t.left.left);
      if !x && !y {
        MoveRedLeftShape(t, n);
        MovedLeft(t, a, b);
        ghost var g := MoveRedLeft(t);
        ghost var k := if Red(g.right) then m - 1 else m;
        var p := MoveLeft(h, t);
        ghost var m1: Mem := mem;
        r, found := DelInLeftAt(p, lo, s, g, k, a, b);
        DidThenKept(old(mem), h, t, m1, p, g, mem, r, DelInLeft(g, lo, s, k, a, b).0);
      } else {
        r, found := DelInLeftAt(h, lo, s, t, m, a, b);
      }
    }

    method DelInLeftAt(h: Ptr, lo: I64, s: Seg, ghost g: Tree, ghost k: int, ghost a: int, ghost b: int) returns (r: Ptr, found: bool)
      requires Sane() && Rep(mem, h, g) && g.Node? && Shape(g.left, k) && Shape(g.right, k) && Ready(g.left) && Ok(g, a, b) && lo < g.lo
      modifies this`mem
      ensures Sane() && Kept(old(mem), h, g, mem, r, DelInLeft(g, lo, s, k, a, b).0) && found == DelInLeft(g, lo, s, k, a, b).1
      decreases Size(g.left), 2
    {
      hide Rep, Nodes, Same, Within, Tidy, Shape, Ok, Fixup, Del, DelShape, DelContent, FixedUp;
      ghost var m: Mem := mem;
      OpenOk(g, a, b);
      Unfold(mem, h, g);
      var l;
      l, found := DelAt(mem[h].left, lo, s, g.left, k, a, g.lo);
      ghost var tl := Del(g.left, lo, s, k, a, g.lo).0;
      Untouched(m, h, g, mem);
      SetLeft(h, l, m, g, tl);
      ghost var m1: Mem := mem;
      r := FixupAt(h, g.(left := tl));
      KeptThenDid(m, h, g, m1, h, g.(left := tl), mem, r, Fixup(g.(left := tl)));
    }

    method DelRightAt(h: Ptr, lo: I64, s: Seg, ghost t: Tree, ghost n: int, ghost a: int, ghost b: int) returns (r: Ptr, found: bool)
      requires Sane() && Rep(mem, h, t) && t.Node? && !Red(t.left) && lo >= t.lo && Ok(t, a, b) && (Shape(t, n) || RightRed(t, n))
      modifies this`mem
      ensures Sane() && Kept(old(mem), h, t, mem, r, DelRight(t, lo, s, n, a, b).0) && found == DelRight(t, lo, s, n, a, b).1
      decreases Size(t), 0
    {
      hide Rep, Nodes, Same, Within, Tidy, Shape, Ok, MoveRedRight, DelInRight, DelHere, DelShape, DelContent, FixedUp;
      ghost var m := if t.red then n else n - 1;
      Open(t, n);
      OpenOk(t, a, b);
      Unfold(mem, h, t);
      Unfold(mem, mem[h].right, t.right);
      if mem[h].right == NULL {
        r, found := DelHereAt(h, lo, s, t, n, a, b);
        return;
      }
      Open(t.right, m);
      var x := IsRed(mem[h].right, t.right);
      var y := IsRed(mem[mem[h].right].left, t.right.left);
      if !x && !y {
        MoveRedRightShape(t, n);
        MovedRight(t, a, b);
        ghost var g := MoveRedRight(t);
        ghost var k := if Red(g.left) then m - 1 else m;
        var p := MoveRight(h, t);
        ghost var m1: Mem := mem;
        r, found := DelInRightAt(p, lo, s, g, k, a, b);
        DidThenKept(old(mem), h, t, m1, p, g, mem, r, DelInRight(g, lo, s, k, a, b).0);
      } else {
        r, found := DelInRightAt(h, lo, s, t, m, a, b);
      }
    }

    method DelInRightAt(h: Ptr, lo: I64, s: Seg, ghost g: Tree, ghost k: int, ghost a: int, ghost b: int) returns (r: Ptr, found: bool)
      requires Sane() && Rep(mem, h, g) && g.Node? && Shape(g.left, k) && Ok(g, a, b) && lo >= g.lo
      requires (Shape(g.right, k) && Ready(g.right)) || (RightRed(g.right, k) && lo >= g.right.lo > g.lo)
      modifies this`mem
      ensures Sane() && Kept(old(mem), h, g, mem, r, DelInRight(g, lo, s, k, a, b).0) && found == DelInRight(g, lo, s, k, a, b).1
      decreases Size(g.right), 2
    {
      hide Rep, Nodes, Same, Within, Tidy, Shape, Ok, Fixup, Del, DelSegment, DelShape, DelContent, FixedUp;
      ghost var m: Mem := mem;
      OpenOk(g, a, b);
      Unfold(mem, h, g);
      ghost var u := g;
      if lo == mem[h].lo {
        found := DelSegmentAt(h, s, g, k, a, b);
        u := DelSegment(g, s, k, a, b).0;
      } else {
        var x;
        x, found := DelAt(mem[h].right, lo, s, g.right, k, g.lo, b);
        ghost var tr := Del(g.right, lo, s, k, g.lo, b).0;
        Untouched(m, h, g, mem);
        SetRight(h, x, m, g, tr);
        u := g.(right := tr);
      }
      ghost var m1: Mem := mem;
      r := FixupAt(h, u);
      KeptThenDid(m, h, g, m1, h, u, mem, r, Fixup(u));
    }

    // ---- queries ------------------------------------------------------------------------------------------------

    method QueryAt(h: Ptr, a: I64, b: I64, seen: seq<Interval>, go: seq<Interval> -> bool, ghost t: Tree)
        returns (shown: seq<Interval>, stop: bool)
      requires Rep(mem, h, t)
      ensures (shown, stop) == Query(t, a, b, seen, go)
      decreases t
    {
      hide Nodes, Scan, Row;
      if h == NULL || mem[h].maxEnd < a {
        return seen, false;
      }
      shown, stop := QueryAt(mem[h].left, a, b, seen, go, t.left);
      if stop || mem[h].lo > b {
        return;
      }
      shown, stop := VisitSegs(mem[h].lo, mem[h].segs, a, b, shown, go);
      if !stop {
        shown, stop := QueryAt(mem[h].right, a, b, shown, go, t.right);
      }
    }

    // ---- the public interface -----------------------------------------------------------------------------------

    /** The root links to a valid tree that holds all records there are. */
    ghost predicate Consistent()
      reads this
    {
      Sane() && Rep(mem, root, tree) && mem.Keys == Nodes(mem, root, tree) && Valid(tree) && count == |InOrder(tree)|
    }

    constructor ()
      ensures Consistent() && InOrder(tree) == []
    {
      mem, next, root, count, tree := map[], 1, NULL, 0, Leaf;
      new;
      assert Shape(Leaf, 0);
    }

    method BlackenRoot(h: Ptr, ghost t: Tree)
      requires Sane() && Rep(mem, h, t) && t.Node?
      modifies this`mem
      ensures Sane() && Did(old(mem), h, t, mem, h, Blacken(t))
    {
      hide Rep, Nodes;
      ghost var m: Mem := mem;
      Unfold(m, h, t);
      mem := mem[h := mem[h].(red := false)];
      DataReplaced(m, h, t, mem, Blacken(t));
    }

    method Insert(lo: I64, hi: I64, val: Val) returns (rc: int)
      requires Consistent()
      modifies this
      ensures Consistent()
      ensures hi < lo ==> rc == -1 && mem == old(mem) && root == old(root) && tree == old(tree)
      ensures hi >= lo ==> rc == 1 && multiset(InOrder(tree)) == multiset(InOrder(old(tree))) + multiset{Interval(lo, hi, val)}
    {
      hide Rep, Nodes, Same, Within, Tidy, Valid, InsertInto, InOrder, Aug;
      if hi < lo {
        return -1;
      }
      ghost var m0: Mem, r0, t0 := mem, root, tree;
      root := InsertAt(root, lo, hi, val, tree);
      ghost var m1: Mem, t1 := mem, InsertInto(tree, lo, hi, val);
      BlackenRoot(root, t1);
      KeptThenDid(m0, r0, t0, m1, root, t1, mem, root, Blacken(t1));
      ghost var m2: Mem := mem;
      AugmentTree(root, Blacken(t1));
      tree := Aug(Blacken(t1));
      KeptThenDid(m0, r0, t0, m2, root, Blacken(t1), mem, root, tree);
      InsertValid(t0, lo, hi, val);
      AllLinked(m0, r0, t0, mem, root, tree);
      count := count + 1;
      return 1;
    }

    /** Reports 1 exactly when the interval was stored, and then removes one copy of it. */
    method Delete(lo: I64, hi: I64, val: Val) returns (rc: int)
      requires Consistent()
      modifies this
      ensures Consistent()
      ensures rc == if Interval(lo, hi, val) in InOrder(old(tree)) then 1 else 0
      ensures multiset(InOrder(tree)) == multiset(InOrder(old(tree))) - multiset{Interval(lo, hi, val)}
    {
      hide Rep, Nodes, Same, Within, Tidy, Del, DelShape, DelContent, Ok, Shape, Valid, InOrder;
      Unfold(mem, root, tree);
      if root == NULL {
        EmptyHoldsNothing(tree, Interval(lo, hi, val));
        return 0;
      }
      ghost var n := ValidParts(tree);
      ghost var m0: Mem, r0, t0 := mem, root, tree;
      ghost var t1 := Del(tree, lo, Seg(hi, val), n, I64_MIN - 1, I64_MAX + 1).0;
      var found;
      root, found := DelAt(root, lo, Seg(hi, val), tree, n, I64_MIN - 1, I64_MAX + 1);
      DeleteValid(t0, t1, found, Interval(lo, hi, val), n);
      ghost var m1: Mem := mem;
      Unfold(mem, root, t1);
      if root != NULL {
        BlackenRoot(root, t1);
      } else {
        DidNothing(mem, root, t1);
      }
      tree := Blacken(t1);
      KeptThenDid(m0, r0, t0, m1, root, t1, mem, root, tree);
      AllLinked(m0, r0, t0, mem, root, tree);
      if found {
        count := count - 1;
      }
      return if found then 1 else 0;
    }

    /** The intervals shown to a callback that never declines: exactly those meeting [a, b], ascending by lo. */
    method Overlap(a: I64, b: I64) returns (shown: seq<Interval>)
      requires Consistent()
      ensures shown == if a > b then [] else Matches(InOrder(tree), a, b)
      ensures forall i, j :: 0 <= i < j < |shown| ==> shown[i].lo <= shown[j].lo
      ensures forall v :: v in shown <==> a <= b && v in InOrder(tree) && v.lo <= b && a <= v.hi
    {
      hide Query, Ok, Shape, Scan, Rep, Nodes;
      if a > b {
        return [];
      }
      var stop;
      shown, stop := QueryAt(root, a, b, [], Always, tree);
      QueryIsScan(tree, a, b, [], Always, I64_MIN - 1, I64_MAX + 1);
      ScanExtremes(InOrder(tree), a, b, []);
      InOrderSorted(tree, I64_MIN - 1, I64_MAX + 1);
      MatchesFacts(InOrder(tree), a, b);
    }

    /** A stabbing query for the first match, as op_itree_first_stab makes it. */
    method FirstStab(x: I64) returns (r: seq<Interval>)
      requires Consistent()
      ensures r == [] <==> forall v :: v in InOrder(tree) ==> !(v.lo <= x <= v.hi)
      ensures r != [] ==> r <= Matches(InOrder(tree), x, x) && |r| == 1
    {
      hide Query, Ok, Shape, Scan, Rep, Nodes;
      var stop;
      r, stop := QueryAt(root, x, x, [], Never, tree);
      QueryIsScan(tree, x, x, [], Never, I64_MIN - 1, I64_MAX + 1);
      ScanExtremes(InOrder(tree), x, x, []);
      InOrderSorted(tree, I64_MIN - 1, I64_MAX + 1);
      MatchesFacts(InOrder(tree), x, x);
    }
  }
}
