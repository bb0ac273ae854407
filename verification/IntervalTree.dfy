/** The left-leaning red-black interval tree of src/itree.c, as values: the colour cases of
    insertion and full deletion, the max_end augmentation, and overlap queries with pruning. */
module IntervalTree {
  const I64_MIN := -0x8000_0000_0000_0000
  const I64_MAX := 0x7FFF_FFFF_FFFF_FFFF
  type I64 = x: int | -0x8000_0000_0000_0000 <= x <= 0x7FFF_FFFF_FFFF_FFFF

  type Val = nat

  /** One stored interval end with its value; a node chains all intervals that share its lo. */
  datatype Seg = Seg(hi: I64, val: Val)
  datatype Interval = Interval(lo: I64, hi: I64, val: Val)
  datatype Tree = Leaf | Node(left: Tree, lo: I64, segs: seq<Seg>, maxEnd: I64, red: bool, right: Tree)

  // ---- the code ---------------------------------------------------------------

  predicate Red(t: Tree) {
    t.Node? && t.red
  }

  function Max(a: I64, b: I64): I64 {
    if a > b then a else b
  }

  function End(t: Tree): I64 {
    if t.Leaf? then I64_MIN else t.maxEnd
  }

  function MaxHi(segs: seq<Seg>): I64 {
    if segs == [] then I64_MIN else Max(segs[0].hi, MaxHi(segs[1..]))
  }

  function Aug(t: Tree): Tree
    requires t.Node?
  {
    t.(maxEnd := Max(Max(MaxHi(t.segs), End(t.left)), End(t.right)))
  }

  function RotateLeft(h: Tree): Tree
    requires h.Node? && h.right.Node?
  {
    var x := h.right;
    Aug(x.(left := Aug(h.(right := x.left, red := true)), red := h.red))
  }

  function RotateRight(h: Tree): Tree
    requires h.Node? && h.left.Node?
  {
    var x := h.left;
    Aug(x.(right := Aug(h.(left := x.right, red := true)), red := h.red))
  }

  function Toggle(t: Tree): Tree
    requires t.Node?
  {
    t.(red := !t.red)
  }

  function FlipColours(h: Tree): Tree
    requires h.Node? && h.left.Node? && h.right.Node?
  {
    h.(red := !h.red, left := Toggle(h.left), right := Toggle(h.right))
  }

  function Fixup(h: Tree): Tree
    requires h.Node?
  {
    var h := if Red(h.right) && !Red(h.left) then RotateLeft(h) else h;
    var h := if Red(h.left) && Red(h.left.left) then RotateRight(h) else h;
    var h := if Red(h.left) && Red(h.right) then FlipColours(h) else h;
    Aug(h)
  }

  function InsertInto(h: Tree, lo: I64, hi: I64, val: Val): (r: Tree)
    ensures r.Node?
  {
    if h.Leaf? then Node(Leaf, lo, [Seg(hi, val)], hi, true, Leaf)
    else if lo < h.lo then Fixup(h.(left := InsertInto(h.left, lo, hi, val)))
    else if lo > h.lo then Fixup(h.(right := InsertInto(h.right, lo, hi, val)))
    else Fixup(h.(segs := [Seg(hi, val)] + h.segs))
  }

  function MoveRedLeft(h: Tree): Tree
    requires h.Node? && h.left.Node? && h.right.Node?
  {
    var h := FlipColours(h);
    if Red(h.right.left) then FlipColours(RotateLeft(h.(right := RotateRight(h.right)))) else h
  }

  function MoveRedRight(h: Tree): Tree
    requires h.Node? && h.left.Node? && h.right.Node?
  {
    var h := FlipColours(h);
    if Red(h.left.left) then FlipColours(RotateRight(h)) else h
  }

  function TreeMin(h: Tree): (m: Tree)
    requires h.Node?
    ensures m.Node?
  {
    if h.left.Leaf? then h else TreeMin(h.left)
  }

  /** The first segment equal to (hi, val) leaves the chain. */
  function RemoveSeg(segs: seq<Seg>, s: Seg): (seq<Seg>, bool) {
    if segs == [] then ([], false)
    else if segs[0] == s then (segs[1..], true)
    else var (rest, found) := RemoveSeg(segs[1..], s); ([segs[0]] + rest, found)
  }

  /** The successor's chain, copied by prepending. */
  function Reversed(segs: seq<Seg>): seq<Seg> {
    if segs == [] then [] else Reversed(segs[1..]) + [segs[0]]
  }

  // ---- red-black shape ----------------------------------------------------------

  /** Every path down carries n black nodes. */
  predicate Balanced(t: Tree, n: int) {
    match t
    case Leaf => n == 0
    case Node(l, _, _, _, red, r) => var m := if red then n else n - 1; Balanced(l, m) && Balanced(r, m)
  }

  /** No right-leaning red link and no two red links in a row. */
  predicate LeftLeaning(t: Tree) {
    t.Node? ==> LeftLeaning(t.left) && LeftLeaning(t.right) && !Red(t.right) && (t.red ==> !Red(t.left))
  }

  predicate Shape(t: Tree, n: int) {
    Balanced(t, n) && LeftLeaning(t)
  }

  /** The condition the way down keeps: there is a red link to borrow from. */
  predicate Ready(h: Tree) {
    h.Node? && (h.red || Red(h.left))
  }

  lemma {:induction false} BalancedNonNegative(t: Tree, n: int)
    requires Balanced(t, n)
    ensures n >= 0
  {
    if t.Node? { BalancedNonNegative(t.left, if t.red then n else n - 1); }
  }

  /** One level of the shape, both ways. */
  lemma Open(t: Tree, n: int)
    requires t.Node?
    ensures var m := if t.red then n else n - 1;
            Shape(t, n) <==> Shape(t.left, m) && Shape(t.right, m) && !Red(t.right) && (t.red ==> !Red(t.left))
  {
  }

  /** Fixup after an insertion below: what each colour pattern becomes. */
  lemma {:induction false} FixupInsertShape(h: Tree, n: int)
    requires h.Node?
    requires var m := if h.red then n else n - 1;
             && Balanced(h.left, m) && Balanced(h.right, m)
             && LeftLeaning(h.right)
             && (h.left.Node? ==> LeftLeaning(h.left.left) && LeftLeaning(h.left.right) && !Red(h.left.right))
    requires Red(h.left) && Red(h.left.left) ==> !h.red && !Red(h.right)
    requires Red(h.left) && Red(h.right) ==> !h.red
    requires h.left.Node? && !h.left.red ==> LeftLeaning(h.left)
    ensures var r := Fixup(h);
            && Balanced(r, n) && r.Node? && LeftLeaning(r.left) && LeftLeaning(r.right) && !Red(r.right)
            && (!h.red ==> LeftLeaning(r))
            && (!Red(h.left) && !Red(h.right) ==> LeftLeaning(r))
  {
  }

  /** Insertion keeps the black height; the only blemish it may leave is a red root with a red left child,
      and only where the old root was red. */
  lemma {:induction false} InsertShape(h: Tree, lo: I64, hi: I64, val: Val, n: int)
    requires Shape(h, n)
    ensures var r := InsertInto(h, lo, hi, val);
            && Balanced(r, n) && LeftLeaning(r.left) && LeftLeaning(r.right) && !Red(r.right)
            && (!Red(h) ==> LeftLeaning(r))
  {
    if h.Node? {
      var m := if h.red then n else n - 1;
      Open(h, n);
      if h.left.Node? { Open(h.left, m); }
      if lo < h.lo {
        InsertShape(h.left, lo, hi, val, m);
        FixupInsertShape(h.(left := InsertInto(h.left, lo, hi, val)), n);
      } else if lo > h.lo {
        InsertShape(h.right, lo, hi, val, m);
        FixupInsertShape(h.(right := InsertInto(h.right, lo, hi, val)), n);
      } else {
        FixupInsertShape(h.(segs := [Seg(hi, val)] + h.segs), n);
      }
    }
  }

  /** Borrowing towards the left: the left child becomes ready and nothing else is disturbed. */
  lemma MoveRedLeftShape(h: Tree, n: int)
    requires Shape(h, n) && h.Node? && h.left.Node? && !Red(h.left) && !Red(h.left.left)
    ensures h.right.Node?
    ensures var r := MoveRedLeft(h); var m := if h.red then n else n - 1;
            if Red(h.right.left)
            then r.red == h.red && !Red(r.right) && !Red(r.left) && Ready(r.left) && Shape(r.left, m) && Shape(r.right, m)
            else r.red != h.red && Red(r.left) && Red(r.right) && Shape(r.left, m - 1) && Shape(r.right, m - 1)
  {
    var l, r := h.left, h.right;
    var m := if h.red then n else n - 1;
    Open(h, n);
    Open(l, m);
    BalancedNonNegative(l.left, m - 1);
    assert r.Node?;
    Open(r, m);
    if Red(r.left) {
      var x := r.left;
      Open(x, m - 1);
      var h' := Aug(h.(left := Toggle(l), right := x.left, red := false));
      var r' := Aug(r.(left := x.right, red := false));
      assert MoveRedLeft(h) == Aug(x.(left := h', right := r', red := h.red));
      Open(Toggle(l), m - 1);
      Open(h', m);
      Open(r', m);
    } else {
      assert MoveRedLeft(h) == h.(red := !h.red, left := Toggle(l), right := Toggle(r));
      Open(Toggle(l), m - 1);
      Open(Toggle(r), m - 1);
    }
  }

  /** A black root whose right child alone is red: what borrowing to the right hands down. */
  predicate RightRed(h: Tree, n: int) {
    h.Node? && !h.red && !Red(h.left) && Red(h.right) && Shape(h.left, n - 1) && Shape(h.right, n - 1)
  }

  /** Borrowing towards the right: either both children turn red, or the right child gets a red right child. */
  lemma MoveRedRightShape(h: Tree, n: int)
    requires Shape(h, n) && h.Node? && h.right.Node? && !Red(h.left) && !Red(h.right.left)
    ensures h.left.Node?
    ensures var r := MoveRedRight(h); var m := if h.red then n else n - 1;
            if Red(h.left.left)
            then r.red == h.red && !Red(r.left) && Shape(r.left, m) && RightRed(r.right, m) && r.lo == h.left.lo && r.right.lo == h.lo
            else r.red != h.red && Red(r.left) && Red(r.right) && Shape(r.left, m - 1) && Shape(r.right, m - 1) && r.lo == h.lo
  {
    var l, r := h.left, h.right;
    var m := if h.red then n else n - 1;
    Open(h, n);
    Open(r, m);
    BalancedNonNegative(r.left, m - 1);
    assert l.Node?;
    Open(l, m);
    if Red(l.left) {
      var x := l.left;
      Open(x, m - 1);
      var h' := Aug(h.(left := l.right, right := Toggle(r), red := false));
      assert MoveRedRight(h) == Aug(l.(left := Toggle(x), right := h', red := h.red));
      Open(Toggle(x), m);
      Open(Toggle(r), m - 1);
    } else {
      assert MoveRedRight(h) == h.(red := !h.red, left := Toggle(l), right := Toggle(r));
      Open(Toggle(l), m - 1);
      Open(Toggle(r), m - 1);
    }
  }

  function Blacken(t: Tree): Tree {
    if t.Leaf? then t else t.(red := false)
  }

  /** Fixup over two children in shape: a black root always comes out in shape, a red one (the deletion's root only)
      does once it is blackened. */
  lemma FixupShape(h: Tree, m: int)
    requires h.Node? && Shape(h.left, m) && Shape(h.right, m)
    ensures !h.red ==> Shape(Fixup(h), m + 1) && (Red(Fixup(h)) ==> Red(h.left) && Red(h.right))
    ensures h.red && !Red(h.left) && !Red(h.right) ==> Shape(Fixup(h), m)
    ensures h.red ==> Shape(Blacken(Fixup(h)), if Red(h.left) && Red(h.right) then m + 2 else m + 1)
  {
    var r := Fixup(h);
    if h.left.Node? { Open(h.left, m); }
    if h.right.Node? { Open(h.right, m); }
    if Red(h.right) && !Red(h.left) {
      var x := h.right;
      var h' := Aug(h.(right := x.left, red := true));
      assert r == Aug(x.(left := h', red := h.red));
      Open(h', m);
      Open(r.(red := false), m + 1);
    } else if Red(h.left) && Red(h.right) {
      Open(Toggle(h.left), m + 1);
      Open(Toggle(h.right), m + 1);
      Open(r.(red := false), m + 2);
      Open(r.(red := true), m + 1);
    } else {
      assert r == Aug(h);
      Open(r.(red := false), m + 1);
      Open(r.(red := true), m);
    }
  }

  // ---- order, augmentation and contents ------------------------------------------------

  /** Keys strictly between a and b and in search order, chains non-empty, and max_end exact at every node. */
  predicate Ok(t: Tree, a: int, b: int) {
    t.Node? ==>
      && a < t.lo < b && t.segs != []
      && Ok(t.left, a, t.lo) && Ok(t.right, t.lo, b)
      && t.maxEnd == Aug(t).maxEnd
  }

  /** The same, except that the root's own max_end may be stale. */
  predicate KidsOk(t: Tree, a: int, b: int) {
    t.Node? && a < t.lo < b && t.segs != [] && Ok(t.left, a, t.lo) && Ok(t.right, t.lo, b)
  }

  lemma {:induction false} OpenOk(t: Tree, a: int, b: int)
    requires t.Node?
    ensures Ok(t, a, b) <==> KidsOk(t, a, b) && t.maxEnd == Aug(t).maxEnd
  {
  }

  function SegCount(lo: I64, segs: seq<Seg>, v: Interval): nat {
    if segs == [] then 0
    else (if Interval(lo, segs[0].hi, segs[0].val) == v then 1 else 0) + SegCount(lo, segs[1..], v)
  }

  /** How often a tree stores the interval v: its contents as a multiset. */
  function Count(t: Tree, v: Interval): nat {
    if t.Leaf? then 0 else Count(t.left, v) + SegCount(t.lo, t.segs, v) + Count(t.right, v)
  }

  ghost predicate SameContent(t: Tree, u: Tree) {
    forall v :: Count(t, v) == Count(u, v)
  }

  lemma {:induction false} RotateRightOk(h: Tree, a: int, b: int)
    requires KidsOk(h, a, b) && h.left.Node?
    ensures Ok(RotateRight(h), a, b)
  {
    var x := h.left;
    var h' := Aug(h.(left := x.right, red := true));
    assert KidsOk(x, a, h.lo);
    assert KidsOk(h', x.lo, b);
    assert KidsOk(x.(right := h', red := h.red), a, b);
  }

  lemma {:induction false} RotateLeftOk(h: Tree, a: int, b: int)
    requires KidsOk(h, a, b) && h.right.Node?
    ensures Ok(RotateLeft(h), a, b)
  {
    var x := h.right;
    var h' := Aug(h.(right := x.left, red := true));
    assert KidsOk(x, h.lo, b);
    assert KidsOk(h', a, x.lo);
    assert KidsOk(x.(left := h', red := h.red), a, b);
  }

  lemma {:induction false} RotateContent(h: Tree, v: Interval)
    requires h.Node?
    ensures h.left.Node? ==> Count(RotateRight(h), v) == Count(h, v)
    ensures h.right.Node? ==> Count(RotateLeft(h), v) == Count(h, v)
  {
  }

  lemma {:induction false} RotateOk(h: Tree, a: int, b: int)
    requires KidsOk(h, a, b)
    ensures h.left.Node? ==> Ok(RotateRight(h), a, b) && SameContent(RotateRight(h), h)
    ensures h.right.Node? ==> Ok(RotateLeft(h), a, b) && SameContent(RotateLeft(h), h)
  {
    forall v ensures h.left.Node? ==> Count(RotateRight(h), v) == Count(h, v) { RotateContent(h, v); }
    forall v ensures h.right.Node? ==> Count(RotateLeft(h), v) == Count(h, v) { RotateContent(h, v); }
    if h.left.Node? { RotateRightOk(h, a, b); }
    if h.right.Node? { RotateLeftOk(h, a, b); }
  }

  lemma {:induction false} ToggleOk(t: Tree, a: int, b: int)
    requires t.Node?
    ensures Ok(Toggle(t), a, b) == Ok(t, a, b) && SameContent(Toggle(t), t)
  {
  }

  lemma {:induction false} FlipOk(h: Tree, a: int, b: int)
    requires KidsOk(h, a, b) && h.left.Node? && h.right.Node?
    ensures KidsOk(FlipColours(h), a, b) && SameContent(FlipColours(h), h)
    ensures Ok(h, a, b) ==> Ok(FlipColours(h), a, b)
  {
    ToggleOk(h.left, a, h.lo);
    ToggleOk(h.right, h.lo, b);
  }

  lemma {:induction false} FixupOk(h: Tree, a: int, b: int)
    requires KidsOk(h, a, b)
    ensures Ok(Fixup(h), a, b) && SameContent(Fixup(h), h)
  {
    RotateOk(h, a, b);
    var h1 := if Red(h.right) && !Red(h.left) then RotateLeft(h) else h;
    assert KidsOk(h1, a, b);
    RotateOk(h1, a, b);
    var h2 := if Red(h1.left) && Red(h1.left.left) then RotateRight(h1) else h1;
    assert KidsOk(h2, a, b);
    if Red(h2.left) && Red(h2.right) { FlipOk(h2, a, b); }
    var h3 := if Red(h2.left) && Red(h2.right) then FlipColours(h2) else h2;
    AugOk(h3, a, b);
  }

  lemma {:induction false} AugOk(h: Tree, a: int, b: int)
    requires KidsOk(h, a, b)
    ensures Ok(Aug(h), a, b) && SameContent(Aug(h), h)
  {
  }

  lemma {:induction false} MoveRedOk(h: Tree, a: int, b: int)
    requires Ok(h, a, b) && h.Node? && h.left.Node? && h.right.Node?
    ensures Ok(MoveRedLeft(h), a, b) && SameContent(MoveRedLeft(h), h)
    ensures Ok(MoveRedRight(h), a, b) && SameContent(MoveRedRight(h), h)
  {
    var f := FlipColours(h);
    FlipOk(h, a, b);
    if Red(f.right.left) {
      RotateOk(f.right, f.lo, b);
      var g := f.(right := RotateRight(f.right));
      assert KidsOk(g, a, b) && SameContent(g, f);
      RotateOk(g, a, b);
      FlipOk(RotateLeft(g), a, b);
    }
    if Red(f.left.left) {
      RotateOk(f, a, b);
      FlipOk(RotateRight(f), a, b);
    }
  }

  /** What a deletion to the left needs of the rotated node. */
  lemma {:induction false} MovedLeft(h: Tree, a: int, b: int)
    requires Ok(h, a, b) && h.Node? && h.left.Node? && h.right.Node?
    ensures var g := MoveRedLeft(h); Ok(g, a, b) && SameContent(g, h) && Size(g) == Size(h) && g.lo >= h.lo
  {
    MoveRedOk(h, a, b);
    MoveSize(h);
    OpenOk(h, a, b);
    MoveRedLeftLo(h, b);
  }

  lemma {:induction false} MovedRight(h: Tree, a: int, b: int)
    requires Ok(h, a, b) && h.Node? && h.left.Node? && h.right.Node?
    ensures var g := MoveRedRight(h); Ok(g, a, b) && SameContent(g, h) && Size(g) == Size(h)
    ensures h.left.lo < h.lo
  {
    MoveRedOk(h, a, b);
    MoveSize(h);
    OpenOk(h, a, b);
    OpenOk(h.left, a, h.lo);
  }

  lemma {:induction false} SingleSeg(lo: I64, s: Seg)
    ensures MaxHi([s]) == s.hi
    ensures forall v :: SegCount(lo, [s], v) == if Interval(lo, s.hi, s.val) == v then 1 else 0
  {
    assert [s][1..] == [];
    assert MaxHi([s]) == Max(s.hi, MaxHi([]));
    forall v ensures SegCount(lo, [s], v) == if Interval(lo, s.hi, s.val) == v then 1 else 0 {
      assert SegCount(lo, [], v) == 0;
    }
  }

  lemma {:induction false} InsertOk(h: Tree, lo: I64, hi: I64, val: Val, a: int, b: int)
    requires Ok(h, a, b) && a < lo < b
    ensures Ok(InsertInto(h, lo, hi, val), a, b)
    ensures forall v :: Count(InsertInto(h, lo, hi, val), v) == Count(h, v) + (if v == Interval(lo, hi, val) then 1 else 0)
  {
    if h.Leaf? {
      SingleSeg(lo, Seg(hi, val));
    } else if lo < h.lo {
      InsertOk(h.left, lo, hi, val, a, h.lo);
      FixupOk(h.(left := InsertInto(h.left, lo, hi, val)), a, b);
    } else if lo > h.lo {
      InsertOk(h.right, lo, hi, val, h.lo, b);
      FixupOk(h.(right := InsertInto(h.right, lo, hi, val)), a, b);
    } else {
      var g := h.(segs := [Seg(hi, val)] + h.segs);
      assert g.segs[1..] == h.segs;
      FixupOk(g, a, b);
    }
  }

  // ---- deletion ---------------------------------------------------------------------

  function Size(t: Tree): nat {
    if t.Leaf? then 0 else Size(t.left) + 1 + Size(t.right)
  }

  lemma {:induction false} RotateSize(h: Tree)
    requires h.Node?
    ensures h.left.Node? ==> Size(RotateRight(h)) == Size(h)
    ensures h.right.Node? ==> Size(RotateLeft(h)) == Size(h)
  {
  }

  lemma {:induction false} FlipSize(h: Tree)
    requires h.Node? && h.left.Node? && h.right.Node?
    ensures Size(FlipColours(h)) == Size(h)
  {
    assert Size(Toggle(h.left)) == Size(h.left) && Size(Toggle(h.right)) == Size(h.right);
  }

  lemma {:induction false} MoveSize(h: Tree)
    requires h.Node? && h.left.Node? && h.right.Node?
    ensures Size(MoveRedRight(h)) == Size(h)
    ensures Size(MoveRedLeft(h)) == Size(h)
  {
    var f := FlipColours(h);
    FlipSize(h);
    if Red(f.right.left) {
      RotateSize(f.right);
      var g := f.(right := RotateRight(f.right));
      RotateSize(g);
      FlipSize(RotateLeft(g));
    }
    if Red(f.left.left) {
      RotateSize(f);
      FlipSize(RotateRight(f));
    }
  }

  /** Removes the minimum node.  The contract is the standard one: same black height, and a black root stays black. */
  function DelMin(h: Tree, ghost n: int): (r: Tree)
    requires Shape(h, n) && Ready(h)
    ensures Shape(r, n) && (!h.red ==> !Red(r))
    decreases Size(h)
  {
    if h.left.Leaf? then
      Open(h, n);
      LeafOnly(h.right, n);
      Leaf
    else
      ghost var m := if h.red then n else n - 1;
      Open(h, n);
      Open(h.left, m);
      if !Red(h.left) && !Red(h.left.left) then
        MoveRedLeftShape(h, n);
        MoveSize(h);
        var g := MoveRedLeft(h);
        ghost var k := if Red(g.right) then m - 1 else m;
        var g' := g.(left := DelMin(g.left, k));
        FixupShape(g', k);
        Fixup(g')
      else
        var g' := h.(left := DelMin(h.left, m));
        FixupShape(g', m);
        Fixup(g')
  }

  lemma {:induction false} LeafOnly(t: Tree, n: int)
    requires Balanced(t, n) && n <= 0 && !Red(t)
    ensures t.Leaf?
  {
    BalancedNonNegative(t, n);
    if t.Node? { BalancedNonNegative(t.left, n - 1); }
  }

  lemma {:induction false} MoveRedLeftMin(h: Tree)
    requires h.Node? && h.left.Node? && h.right.Node?
    ensures var g := MoveRedLeft(h);
            g.left.Node? && TreeMin(g.left).lo == TreeMin(h).lo && TreeMin(g.left).segs == TreeMin(h).segs
  {
    assert TreeMin(Toggle(h.left)).lo == TreeMin(h.left).lo && TreeMin(Toggle(h.left)).segs == TreeMin(h.left).segs;
  }

  /** DelMin takes out exactly the minimum node's chain and leaves larger keys only. */
  lemma {:induction false} DelMinOk(h: Tree, n: int, a: int, b: int)
    requires Shape(h, n) && Ready(h) && Ok(h, a, b)
    ensures a < TreeMin(h).lo < b && TreeMin(h).segs != []
    ensures Ok(DelMin(h, n), TreeMin(h).lo, b)
    ensures forall v :: Count(h, v) == Count(DelMin(h, n), v) + SegCount(TreeMin(h).lo, TreeMin(h).segs, v)
    decreases Size(h), 1
  {
    hide Count, SegCount, Ok, Fixup, MoveRedLeft, Shape, TreeMin;
    Open(h, n);
    if h.left.Leaf? {
      DelMinLast(h, n, a, b);
    } else {
      var m := if h.red then n else n - 1;
      Open(h.left, m);
      MinLeft(h);
      if !Red(h.left) && !Red(h.left.left) {
        MoveRedLeftShape(h, n);
        MovedLeft(h, a, b);
        MoveRedLeftMin(h);
        var g := MoveRedLeft(h);
        DelMinRest(h, g, n, if Red(g.right) then m - 1 else m, a, b);
      } else {
        DelMinRest(h, h, n, m, a, b);
      }
    }
  }

  lemma {:induction false} MinLeft(h: Tree)
    requires h.Node? && h.left.Node?
    ensures TreeMin(h) == TreeMin(h.left) && Size(h.left) < Size(h)
  {
  }

  lemma {:induction false} DelMinLast(h: Tree, n: int, a: int, b: int)
    requires Shape(h, n) && Ready(h) && Ok(h, a, b) && h.left.Leaf?
    ensures TreeMin(h) == h && DelMin(h, n) == Leaf && h.segs != [] && a < h.lo < b
    ensures forall v :: Count(h, v) == SegCount(h.lo, h.segs, v) && Count(Leaf, v) == 0
    ensures Ok(Leaf, h.lo, b)
  {
    Open(h, n);
    LeafOnly(h.right, n);
  }

  lemma {:induction false} DelMinRest(h: Tree, g: Tree, n: int, k: int, a: int, b: int)
    requires h.Node? && Ok(g, a, b) && g.Node? && SameContent(g, h)
    requires Shape(g.left, k) && Ready(g.left) && Size(g.left) < Size(h)
    requires TreeMin(g.left).lo == TreeMin(h).lo && TreeMin(g.left).segs == TreeMin(h).segs
    ensures a < TreeMin(h).lo < b && TreeMin(h).segs != []
    ensures Ok(Fixup(g.(left := DelMin(g.left, k))), TreeMin(h).lo, b)
    ensures forall v :: Count(h, v) == Count(Fixup(g.(left := DelMin(g.left, k))), v) + SegCount(TreeMin(h).lo, TreeMin(h).segs, v)
    decreases Size(h), 0
  {
    DelMinOk(g.left, k, a, g.lo);
    var g' := g.(left := DelMin(g.left, k));
    assert KidsOk(g', TreeMin(h).lo, b);
    FixupOk(g', TreeMin(h).lo, b);
    forall v ensures Count(h, v) == Count(Fixup(g'), v) + SegCount(TreeMin(h).lo, TreeMin(h).segs, v) {
      assert Count(g, v) == Count(h, v) && Count(Fixup(g'), v) == Count(g', v);
    }
  }

  lemma {:induction false} RemoveSegCount(lo: I64, segs: seq<Seg>, s: Seg)
    ensures var (rest, found) := RemoveSeg(segs, s); var x := Interval(lo, s.hi, s.val);
            && (forall v :: SegCount(lo, segs, v) == SegCount(lo, rest, v) + (if found && v == x then 1 else 0))
            && (found <==> SegCount(lo, segs, x) > 0)
            && (!found ==> rest == segs)
  {
    if segs != [] {
      var (rest, found) := RemoveSeg(segs, s);
      RemoveSegCount(lo, segs[1..], s);
      if segs[0] != s {
        assert rest[1..] == RemoveSeg(segs[1..], s).0;
        assert segs == [segs[0]] + segs[1..];
      }
    }
  }

  lemma {:induction false} ReversedCount(lo: I64, segs: seq<Seg>, v: Interval)
    ensures SegCount(lo, Reversed(segs), v) == SegCount(lo, segs, v)
    ensures |Reversed(segs)| == |segs|
  {
    if segs != [] {
      ReversedCount(lo, segs[1..], v);
      AppendCount(lo, Reversed(segs[1..]), segs[0], v);
    }
  }

  lemma {:induction false} AppendCount(lo: I64, segs: seq<Seg>, s: Seg, v: Interval)
    ensures SegCount(lo, segs + [s], v) == SegCount(lo, segs, v) + (if Interval(lo, s.hi, s.val) == v then 1 else 0)
  {
    if segs == [] {
      assert [] + [s] == [s];
      SingleSeg(lo, s);
    } else {
      AppendCount(lo, segs[1..], s, v);
      assert (segs + [s])[1..] == segs[1..] + [s];
    }
  }

  /** Keys outside the bounds do not occur. */
  lemma {:induction false} OutOfBounds(t: Tree, a: int, b: int, v: Interval)
    requires Ok(t, a, b) && !(a < v.lo < b)
    ensures Count(t, v) == 0
  {
    if t.Node? {
      OutOfBounds(t.left, a, t.lo, v);
      OutOfBounds(t.right, t.lo, b, v);
      WrongLo(t.lo, t.segs, v);
    }
  }

  lemma {:induction false} WrongLo(lo: I64, segs: seq<Seg>, v: Interval)
    requires lo != v.lo
    ensures SegCount(lo, segs, v) == 0
  {
    if segs != [] { WrongLo(lo, segs[1..], v); }
  }

  /** What `Del` may be called on: a tree in shape (only the whole tree may lack a red link near its root), or one
      with a red right child, then only on the way to the right. */
  predicate DelPre(h: Tree, lo: I64, n: int) {
    Shape(h, n) || (RightRed(h, n) && lo >= h.lo)
  }

  predicate DelShape(h: Tree, r: Tree, n: int) {
    if Ready(h) || RightRed(h, n) then Shape(r, n) && (!h.red ==> !Red(r))
    else Shape(Blacken(r), n) || Shape(Blacken(r), n - 1)
  }

  /** In order, augmented, and short of the interval x exactly when it was found, which is when it was stored. */
  ghost predicate DelContent(h: Tree, r: (Tree, bool), x: Interval, a: int, b: int) {
    && Ok(r.0, a, b)
    && (r.1 <==> Count(h, x) > 0)
    && forall v :: Count(h, v) == Count(r.0, v) + (if r.1 && v == x then 1 else 0)
  }

  lemma RotatedShape(h: Tree, n: int)
    requires Shape(h, n) && h.Node? && Red(h.left)
    ensures RightRed(RotateRight(h), n) && RotateRight(h).lo == h.left.lo && !h.red
  {
    Open(h, n);
    Open(h.left, n - 1);
    Open(RotateRight(h).right, n - 1);
  }

  /** Deletes one segment.  Nothing colours the root red first, as the textbook version does; `DelShape` says what
      that costs: a root that may have to be blackened, which the caller does anyway. */
  function Del(h: Tree, lo: I64, s: Seg, ghost n: int, ghost a: int, ghost b: int): (r: (Tree, bool))
    requires DelPre(h, lo, n) && Ok(h, a, b)
    ensures DelShape(h, r.0, n)
    ensures DelContent(h, r, Interval(lo, s.hi, s.val), a, b)
    decreases Size(h), 1
  {
    if h.Leaf? then (Leaf, false)
    else if lo < h.lo then DelLeft(h, lo, s, n, a, b)
    else if Red(h.left) then
      OpenOk(h, a, b);
      OpenOk(h.left, a, h.lo);
      RotatedShape(h, n);
      RotateSize(h);
      RotateOk(h, a, b);
      DelRight(RotateRight(h), lo, s, n, a, b)
    else DelRight(h, lo, s, n, a, b)
  }

  function DelLeft(h: Tree, lo: I64, s: Seg, ghost n: int, ghost a: int, ghost b: int): (r: (Tree, bool))
    requires Shape(h, n) && h.Node? && lo < h.lo && Ok(h, a, b)
    ensures DelShape(h, r.0, n)
    ensures DelContent(h, r, Interval(lo, s.hi, s.val), a, b)
    decreases Size(h), 0
  {
    ghost var m := if h.red then n else n - 1;
    Open(h, n);
    OpenOk(h, a, b);
    if h.left.Leaf? then
      NothingLeft(h, Interval(lo, s.hi, s.val), n, a, b);
      (h, false)
    else
      Open(h.left, m);
      if !Red(h.left) && !Red(h.left.left) then
        MoveRedLeftShape(h, n);
        MovedLeft(h, a, b);
        var g := MoveRedLeft(h);
        DelInLeft(g, lo, s, if Red(g.right) then m - 1 else m, a, b)
      else
        DelInLeft(h, lo, s, m, a, b)
  }

  /** How the outcome of `Fixup` over a shrunken left child is coloured. */
  predicate FixedUp(g: Tree, side: Tree, other: Tree, r: Tree, k: int)
    requires g.Node?
  {
    && (!g.red ==> Shape(r, k + 1) && (Red(r) ==> Red(side) && Red(other)))
    && (g.red && !Red(side) && !Red(other) ==> Shape(r, k))
    && (g.red ==> Shape(Blacken(r), k + 1) || Shape(Blacken(r), k + 2))
  }

  function DelInLeft(g: Tree, lo: I64, s: Seg, ghost k: int, ghost a: int, ghost b: int): (r: (Tree, bool))
    requires g.Node? && Shape(g.left, k) && Shape(g.right, k) && Ready(g.left) && Ok(g, a, b) && lo < g.lo
    ensures FixedUp(g, g.left, g.right, r.0, k)
    ensures DelContent(g, r, Interval(lo, s.hi, s.val), a, b)
    decreases Size(g.left), 2
  {
    OpenOk(g, a, b);
    var (l, found) := Del(g.left, lo, s, k, a, g.lo);
    FixupShape(g.(left := l), k);
    LeftContent(g, l, found, Interval(lo, s.hi, s.val), a, b);
    (Fixup(g.(left := l)), found)
  }

  lemma {:induction false} NothingLeft(h: Tree, x: Interval, n: int, a: int, b: int)
    requires Shape(h, n) && h.Node? && h.left.Leaf? && Ok(h, a, b) && x.lo < h.lo
    ensures DelShape(h, h, n) && DelContent(h, (h, false), x, a, b)
  {
    Open(h, n);
    Open(Blacken(h), if h.red then n + 1 else n);
    OutOfBounds(h.right, h.lo, b, x);
    WrongLo(h.lo, h.segs, x);
  }

  lemma {:induction false} MoveRedLeftLo(h: Tree, b: int)
    requires h.Node? && h.left.Node? && h.right.Node? && Ok(h.right, h.lo, b)
    ensures MoveRedLeft(h).lo >= h.lo
  {
    OpenOk(h.right, h.lo, b);
    if h.right.left.Node? { OpenOk(h.right.left, h.lo, h.right.lo); }
  }

  lemma {:induction false} LeftContent(g: Tree, l: Tree, found: bool, x: Interval, a: int, b: int)
    requires g.Node? && Ok(g, a, b) && x.lo < g.lo
    requires DelContent(g.left, (l, found), x, a, g.lo)
    ensures DelContent(g, (Fixup(g.(left := l)), found), x, a, b)
  {
    var g' := g.(left := l);
    FixupOk(g', a, b);
    OutOfBounds(g.right, g.lo, b, x);
    WrongLo(g.lo, g.segs, x);
    forall v ensures Count(g, v) == Count(Fixup(g'), v) + (if found && v == x then 1 else 0) {
      assert Count(Fixup(g'), v) == Count(g', v);
    }
  }

  lemma {:induction false} RightContent(g: Tree, r: Tree, found: bool, x: Interval, a: int, b: int)
    requires g.Node? && Ok(g, a, b) && x.lo > g.lo
    requires DelContent(g.right, (r, found), x, g.lo, b)
    ensures DelContent(g, (Fixup(g.(right := r)), found), x, a, b)
  {
    var g' := g.(right := r);
    FixupOk(g', a, b);
    OutOfBounds(g.left, a, g.lo, x);
    WrongLo(g.lo, g.segs, x);
    forall v ensures Count(g, v) == Count(Fixup(g'), v) + (if found && v == x then 1 else 0) {
      assert Count(Fixup(g'), v) == Count(g', v);
    }
  }

  /** Nothing to the right: the node is a leaf of the tree and simply loses a segment, or goes. */
  function DelHere(h: Tree, lo: I64, s: Seg, ghost n: int, ghost a: int, ghost b: int): (r: (Tree, bool))
    requires h.Node? && h.right.Leaf? && !Red(h.left) && Shape(h, n) && Ok(h, a, b) && lo >= h.lo
    ensures DelShape(h, r.0, n)
    ensures DelContent(h, r, Interval(lo, s.hi, s.val), a, b)
  {
    ghost var m := if h.red then n else n - 1;
    ghost var x := Interval(lo, s.hi, s.val);
    Open(h, n);
    LeafOnly(h.left, m);
    Open(Blacken(h), m + 1);
    if lo == h.lo then
      RemoveSegCount(lo, h.segs, s);
      var (segs, found) := RemoveSeg(h.segs, s);
      if segs == [] then (Leaf, found) else
        ghost var g := h.(segs := segs);
        AugOk(g, a, b);
        Open(Aug(g), n);
        Open(Blacken(Aug(g)), m + 1);
        (Aug(h.(segs := segs)), found)
    else
      WrongLo(h.lo, h.segs, x);
      FixupOk(h, a, b);
      FixupShape(h, m);
      (Fixup(h), false)
  }

  /** The node keeps its place and loses a segment; if that was its last, it takes over its successor. */
  function DelSegment(g: Tree, s: Seg, ghost k: int, ghost a: int, ghost b: int): (r: (Tree, bool))
    requires g.Node? && Ok(g, a, b) && Shape(g.right, k) && Ready(g.right)
    ensures r.0.Node? && r.0.left == g.left && r.0.red == g.red
    ensures Shape(r.0.right, k) && (!g.right.red ==> !Red(r.0.right))
    ensures KidsOk(r.0, a, b)
    ensures var x := Interval(g.lo, s.hi, s.val);
            (r.1 <==> Count(g, x) > 0) && forall v :: Count(g, v) == Count(r.0, v) + (if r.1 && v == x then 1 else 0)
  {
    var (segs, found) := RemoveSeg(g.segs, s);
    ghost var x := Interval(g.lo, s.hi, s.val);
    RemoveSegCount(g.lo, g.segs, s);
    OpenOk(g, a, b);
    OutOfBounds(g.left, a, g.lo, x);
    OutOfBounds(g.right, g.lo, b, x);
    if segs == [] then
      var succ := TreeMin(g.right);
      DelMinOk(g.right, k, g.lo, b);
      StealCount(g, succ, k, a, b);
      (g.(lo := succ.lo, segs := Reversed(succ.segs), right := DelMin(g.right, k)), found)
    else
      (g.(segs := segs), found)
  }

  lemma {:induction false} StealCount(g: Tree, succ: Tree, k: int, a: int, b: int)
    requires g.Node? && Ok(g, a, b) && Shape(g.right, k) && Ready(g.right)
    requires succ == TreeMin(g.right) && g.lo < succ.lo < b && succ.segs != [] && Ok(DelMin(g.right, k), succ.lo, b)
    requires forall v :: Count(g.right, v) == Count(DelMin(g.right, k), v) + SegCount(succ.lo, succ.segs, v)
    ensures var r := g.(lo := succ.lo, segs := Reversed(succ.segs), right := DelMin(g.right, k));
            KidsOk(r, a, b) && forall v :: Count(g, v) == Count(r, v) + SegCount(g.lo, g.segs, v)
  {
    var r := g.(lo := succ.lo, segs := Reversed(succ.segs), right := DelMin(g.right, k));
    Widen(g.left, a, g.lo, succ.lo);
    forall v ensures Count(g, v) == Count(r, v) + SegCount(g.lo, g.segs, v) {
      ReversedCount(succ.lo, succ.segs, v);
    }
    ReversedCount(succ.lo, succ.segs, Interval(0, 0, 0));
  }

  lemma {:induction false} Widen(t: Tree, a: int, b: int, c: int)
    requires Ok(t, a, b) && b <= c
    ensures Ok(t, a, c)
  {
    if t.Node? { Widen(t.right, t.lo, b, c); }
  }

  function DelRight(h: Tree, lo: I64, s: Seg, ghost n: int, ghost a: int, ghost b: int): (r: (Tree, bool))
    requires h.Node? && !Red(h.left) && lo >= h.lo && Ok(h, a, b) && (Shape(h, n) || RightRed(h, n))
    ensures DelShape(h, r.0, n)
    ensures DelContent(h, r, Interval(lo, s.hi, s.val), a, b)
    decreases Size(h), 0
  {
    ghost var m := if h.red then n else n - 1;
    Open(h, n);
    OpenOk(h, a, b);
    if h.right.Leaf? then DelHere(h, lo, s, n, a, b)
    else
      Open(h.right, m);
      if !Red(h.right) && !Red(h.right.left) then
        MoveRedRightShape(h, n);
        MovedRight(h, a, b);
        var g := MoveRedRight(h);
        DelInRight(g, lo, s, if Red(g.left) then m - 1 else m, a, b)
      else
        DelInRight(h, lo, s, m, a, b)
  }

  function DelInRight(g: Tree, lo: I64, s: Seg, ghost k: int, ghost a: int, ghost b: int): (r: (Tree, bool))
    requires g.Node? && Shape(g.left, k) && Ok(g, a, b) && lo >= g.lo
    requires (Shape(g.right, k) && Ready(g.right)) || (RightRed(g.right, k) && lo >= g.right.lo > g.lo)
    ensures FixedUp(g, g.right, g.left, r.0, k)
    ensures DelContent(g, r, Interval(lo, s.hi, s.val), a, b)
    decreases Size(g.right), 2
  {
    OpenOk(g, a, b);
    if lo == g.lo then
      var (g', found) := DelSegment(g, s, k, a, b);
      FixupShape(g', k);
      FixupOk(g', a, b);
      (Fixup(g'), found)
    else
      var (r, found) := Del(g.right, lo, s, k, g.lo, b);
      FixupShape(g.(right := r), k);
      RightContent(g, r, found, Interval(lo, s.hi, s.val), a, b);
      (Fixup(g.(right := r)), found)
  }

  // ---- the tree as a list, and queries over it ------------------------------------------

  function Row(lo: I64, segs: seq<Seg>): seq<Interval> {
    if segs == [] then [] else [Interval(lo, segs[0].hi, segs[0].val)] + Row(lo, segs[1..])
  }

  function InOrder(t: Tree): seq<Interval> {
    if t.Leaf? then [] else InOrder(t.left) + Row(t.lo, t.segs) + InOrder(t.right)
  }

  lemma {:induction false} RowCount(lo: I64, segs: seq<Seg>, v: Interval)
    ensures multiset(Row(lo, segs))[v] == SegCount(lo, segs, v)
  {
    if segs != [] {
      RowCount(lo, segs[1..], v);
    }
  }

  lemma {:induction false} InOrderCount(t: Tree, v: Interval)
    ensures multiset(InOrder(t))[v] == Count(t, v)
  {
    if t.Node? {
      InOrderCount(t.left, v);
      RowCount(t.lo, t.segs, v);
      InOrderCount(t.right, v);
    }
  }

  lemma {:induction false} RowFacts(lo: I64, segs: seq<Seg>)
    ensures |Row(lo, segs)| == |segs|
    ensures forall i :: 0 <= i < |segs| ==> Row(lo, segs)[i] == Interval(lo, segs[i].hi, segs[i].val)
  {
    if segs != [] { RowFacts(lo, segs[1..]); }
  }

  /** The list is in ascending order of lo, within the bounds. */
  lemma {:induction false} InOrderSorted(t: Tree, a: int, b: int)
    requires Ok(t, a, b)
    ensures forall i :: 0 <= i < |InOrder(t)| ==> a < InOrder(t)[i].lo < b
    ensures forall i, j :: 0 <= i < j < |InOrder(t)| ==> InOrder(t)[i].lo <= InOrder(t)[j].lo
  {
    if t.Node? {
      InOrderSorted(t.left, a, t.lo);
      InOrderSorted(t.right, t.lo, b);
      RowFacts(t.lo, t.segs);
    }
  }

  lemma {:induction false} MaxHiBound(segs: seq<Seg>)
    ensures forall i :: 0 <= i < |segs| ==> segs[i].hi <= MaxHi(segs)
    ensures segs != [] ==> exists i :: 0 <= i < |segs| && segs[i].hi == MaxHi(segs)
  {
    if segs != [] {
      MaxHiBound(segs[1..]);
      if segs[0].hi > MaxHi(segs[1..]) || |segs| == 1 {
        assert segs[0].hi == MaxHi(segs);
      } else {
        var i :| 0 <= i < |segs[1..]| && segs[1..][i].hi == MaxHi(segs[1..]);
        assert segs[i + 1].hi == MaxHi(segs);
      }
    }
  }

  /** max_end is the largest end in the subtree: an upper bound, and attained. */
  lemma {:induction false} MaxEndExact(t: Tree, a: int, b: int)
    requires Ok(t, a, b) && t.Node?
    ensures forall v :: v in InOrder(t) ==> v.hi <= t.maxEnd
    ensures exists v :: v in InOrder(t) && v.hi == t.maxEnd
  {
    RowFacts(t.lo, t.segs);
    MaxHiBound(t.segs);
    if t.left.Node? { MaxEndExact(t.left, a, t.lo); }
    if t.right.Node? { MaxEndExact(t.right, t.lo, b); }
    forall v | v in InOrder(t) ensures v.hi <= t.maxEnd {
      assert v in InOrder(t.left) || v in Row(t.lo, t.segs) || v in InOrder(t.right);
    }
    if t.maxEnd == MaxHi(t.segs) {
      var i :| 0 <= i < |t.segs| && t.segs[i].hi == MaxHi(t.segs);
      assert Row(t.lo, t.segs)[i] in InOrder(t);
    }
  }

  predicate Overlaps(v: Interval, a: I64, b: I64) {
    v.hi >= a && v.lo <= b
  }

  /** The reference: offer every overlapping interval of a list to the callback, in order, until it declines.
      The callback is a function of what it has been shown so far. */
  function Scan(items: seq<Interval>, a: I64, b: I64, seen: seq<Interval>, go: seq<Interval> -> bool): (seq<Interval>, bool) {
    if items == [] then (seen, false)
    else if !Overlaps(items[0], a, b) then Scan(items[1..], a, b, seen, go)
    else if go(seen + [items[0]]) then Scan(items[1..], a, b, seen + [items[0]], go)
    else (seen + [items[0]], true)
  }

  /** query_overlap: prunes on max_end and on lo. */
  function Query(t: Tree, a: I64, b: I64, seen: seq<Interval>, go: seq<Interval> -> bool): (seq<Interval>, bool) {
    if t.Leaf? || t.maxEnd < a then (seen, false)
    else
      var (seen1, stop1) := Query(t.left, a, b, seen, go);
      if stop1 then (seen1, true)
      else if t.lo > b then (seen1, false)
      else
        var (seen2, stop2) := Scan(Row(t.lo, t.segs), a, b, seen1, go);
        if stop2 then (seen2, true) else Query(t.right, a, b, seen2, go)
  }

  lemma {:induction false} ScanConcat(x: seq<Interval>, y: seq<Interval>, a: I64, b: I64, seen: seq<Interval>, go: seq<Interval> -> bool)
    ensures var (s, stop) := Scan(x, a, b, seen, go);
            Scan(x + y, a, b, seen, go) == if stop then (s, true) else Scan(y, a, b, s, go)
    decreases |x|
  {
    if x == [] {
      assert x + y == y;
    } else {
      assert (x + y)[0] == x[0] && (x + y)[1..] == x[1..] + y;
      if !Overlaps(x[0], a, b) {
        ScanConcat(x[1..], y, a, b, seen, go);
      } else if go(seen + [x[0]]) {
        ScanConcat(x[1..], y, a, b, seen + [x[0]], go);
      }
    }
  }

  lemma {:induction false} ScanNothing(x: seq<Interval>, a: I64, b: I64, seen: seq<Interval>, go: seq<Interval> -> bool)
    requires forall i :: 0 <= i < |x| ==> !Overlaps(x[i], a, b)
    ensures Scan(x, a, b, seen, go) == (seen, false)
  {
    if x != [] { ScanNothing(x[1..], a, b, seen, go); }
  }

  /** Pruning is invisible: the callback sees exactly the overlapping intervals, ascending by lo, until it stops. */
  lemma {:induction false} QueryIsScan(t: Tree, a: I64, b: I64, seen: seq<Interval>, go: seq<Interval> -> bool, lb: int, ub: int)
    requires Ok(t, lb, ub)
    ensures Query(t, a, b, seen, go) == Scan(InOrder(t), a, b, seen, go)
  {
    if t.Leaf? {
    } else if t.maxEnd < a {
      MaxEndExact(t, lb, ub);
      ScanNothing(InOrder(t), a, b, seen, go);
    } else {
      var l, row, r := InOrder(t.left), Row(t.lo, t.segs), InOrder(t.right);
      assert InOrder(t) == l + (row + r);
      QueryIsScan(t.left, a, b, seen, go, lb, t.lo);
      ScanConcat(l, row + r, a, b, seen, go);
      var (seen1, stop1) := Scan(l, a, b, seen, go);
      if !stop1 {
        if t.lo > b {
          RowFacts(t.lo, t.segs);
          InOrderSorted(t.right, t.lo, ub);
          ScanNothing(row + r, a, b, seen1, go);
        } else {
          ScanConcat(row, r, a, b, seen1, go);
          var (seen2, stop2) := Scan(row, a, b, seen1, go);
          if !stop2 { QueryIsScan(t.right, a, b, seen2, go, t.lo, ub); }
        }
      }
    }
  }

  function Matches(items: seq<Interval>, a: I64, b: I64): (r: seq<Interval>) {
    if items == [] then []
    else (if Overlaps(items[0], a, b) then [items[0]] else []) + Matches(items[1..], a, b)
  }

  predicate Always(seen: seq<Interval>) {
    true
  }

  predicate Never(seen: seq<Interval>) {
    false
  }

  /** A callback that never declines is shown all matches; one that always declines, only the first. */
  lemma {:induction false} ScanExtremes(x: seq<Interval>, a: I64, b: I64, seen: seq<Interval>)
    ensures Scan(x, a, b, seen, Always) == (seen + Matches(x, a, b), false)
    ensures Scan(x, a, b, seen, Never) ==
            if Matches(x, a, b) == [] then (seen, false) else (seen + [Matches(x, a, b)[0]], true)
  {
    assert seen + [] == seen;
    if x != [] {
      assert [] + Matches(x[1..], a, b) == Matches(x[1..], a, b);
      if Overlaps(x[0], a, b) {
        ScanExtremes(x[1..], a, b, seen + [x[0]]);
        assert seen + [x[0]] + Matches(x[1..], a, b) == seen + Matches(x, a, b);
      } else {
        ScanExtremes(x[1..], a, b, seen);
      }
    }
  }

  // ---- the public interface ----------------------------------------------------------------

  ghost predicate Valid(t: Tree) {
    !Red(t) && Ok(t, I64_MIN - 1, I64_MAX + 1) && exists n :: Shape(t, n)
  }

  lemma {:induction false} MatchesFacts(x: seq<Interval>, a: I64, b: I64)
    requires forall i, j :: 0 <= i < j < |x| ==> x[i].lo <= x[j].lo
    ensures forall v :: v in Matches(x, a, b) <==> v in x && Overlaps(v, a, b)
    ensures forall i, j :: 0 <= i < j < |Matches(x, a, b)| ==> Matches(x, a, b)[i].lo <= Matches(x, a, b)[j].lo
    ensures Matches(x, a, b) == [] <==> forall v :: v in x ==> !Overlaps(v, a, b)
  {
    if x != [] {
      MatchesFacts(x[1..], a, b);
      assert forall v :: v in x <==> v == x[0] || v in x[1..];
      assert forall v :: v in x ==> x[0].lo <= v.lo;
    }
  }

  /** One more copy of x in u than in t, said with multisets. */
  lemma {:induction false} OneMoreCopy(t: Tree, u: Tree, x: Interval)
    requires forall v :: Count(u, v) == Count(t, v) + (if v == x then 1 else 0)
    ensures multiset(InOrder(u)) == multiset(InOrder(t)) + multiset{x}
    ensures |InOrder(u)| == |InOrder(t)| + 1
  {
    hide Count, InOrder;
    forall v ensures multiset(InOrder(u))[v] == (multiset(InOrder(t)) + multiset{x})[v] {
      InOrderCount(u, v);
      InOrderCount(t, v);
    }
    assert |multiset(InOrder(u))| == |InOrder(u)| && |multiset(InOrder(t))| == |InOrder(t)|;
  }

  lemma {:induction false} SameCopies(t: Tree, u: Tree)
    requires SameContent(t, u)
    ensures multiset(InOrder(u)) == multiset(InOrder(t))
    ensures |InOrder(u)| == |InOrder(t)|
  {
    hide Count, InOrder;
    forall v ensures multiset(InOrder(u))[v] == multiset(InOrder(t))[v] {
      InOrderCount(u, v);
      InOrderCount(t, v);
      assert Count(t, v) == Count(u, v);
    }
    assert |multiset(InOrder(u))| == |InOrder(u)| && |multiset(InOrder(t))| == |InOrder(t)|;
  }

  lemma {:induction false} BlackenOk(t: Tree, a: int, b: int)
    requires Ok(t, a, b)
    ensures Ok(Blacken(t), a, b) && SameContent(Blacken(t), t)
  {
  }

  lemma {:induction false} InsertValid(t: Tree, lo: I64, hi: I64, val: Val)
    requires Valid(t)
    ensures var r := Aug(Blacken(InsertInto(t, lo, hi, val)));
            && Valid(r) && |InOrder(r)| == |InOrder(t)| + 1
            && multiset(InOrder(r)) == multiset(InOrder(t)) + multiset{Interval(lo, hi, val)}
  {
    var n :| Shape(t, n);
    InsertShape(t, lo, hi, val, n);
    InsertOk(t, lo, hi, val, I64_MIN - 1, I64_MAX + 1);
    var u := InsertInto(t, lo, hi, val);
    BlackenOk(u, I64_MIN - 1, I64_MAX + 1);
    var r := Aug(Blacken(u));
    assert r == Blacken(u);
    assert Shape(r, if u.red then n + 1 else n);
    OneMoreCopy(t, r, Interval(lo, hi, val));
  }

  lemma {:induction false} DeleteValid(t: Tree, r: Tree, found: bool, x: Interval, n: int)
    requires Valid(t) && Shape(t, n) && DelShape(t, r, n) && DelContent(t, (r, found), x, I64_MIN - 1, I64_MAX + 1)
    ensures Valid(Blacken(r))
    ensures found <==> x in InOrder(t)
    ensures multiset(InOrder(Blacken(r))) == multiset(InOrder(t)) - multiset{x}
    ensures |InOrder(t)| == |InOrder(Blacken(r))| + (if found then 1 else 0)
  {
    var u := Blacken(r);
    BlackenOk(r, I64_MIN - 1, I64_MAX + 1);
    DeleteShape(t, r, n);
    DeleteCount(t, r, u, found, x);
  }

  lemma DeleteShape(t: Tree, r: Tree, n: int)
    requires !Red(t) && DelShape(t, r, n)
    ensures Shape(Blacken(r), n) || Shape(Blacken(r), n - 1)
  {
    if Ready(t) || RightRed(t, n) { assert Blacken(r) == r; }
  }

  lemma {:induction false} DeleteCount(t: Tree, r: Tree, u: Tree, found: bool, x: Interval)
    requires found <==> Count(t, x) > 0
    requires forall v :: Count(t, v) == Count(r, v) + (if found && v == x then 1 else 0)
    requires SameContent(u, r)
    ensures found <==> x in InOrder(t)
    ensures multiset(InOrder(u)) == multiset(InOrder(t)) - multiset{x}
    ensures |InOrder(t)| == |InOrder(u)| + (if found then 1 else 0)
  {
    hide Count, InOrder;
    InOrderCount(t, x);
    assert x in multiset(InOrder(t)) <==> x in InOrder(t);
    if found {
      OneMoreCopy(u, t, x);
    } else {
      SameCopies(t, u);
    }
  }
}
