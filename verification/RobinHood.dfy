/** What a Robin Hood slot array means and why its early exit is sound (src/htab.c), on sequences;
    the table object that edits such an array in place is in Htab. */
module RobinHood {
  import opened Ring

  /** A key pointer and the text its equality function compares. */
  datatype Key = Key(addr: nat, text: string)
  type Val = nat

  /** One bucket; hash 0 marks it empty. */
  datatype Slot = Slot(hash: nat, key: Key, val: Val)

  const EMPTY := Slot(0, Key(0, ""), 0)

  predicate Used(s: Slot) {
    s.hash != 0
  }

  // ---- cyclic positions ------------------------------------------------------------

  function NextIx(i: nat, cap: nat): (j: nat)
    requires i < cap
    ensures j < cap
  {
    if i + 1 == cap then 0 else i + 1
  }

  function PrevIx(i: nat, cap: nat): (j: nat)
    requires i < cap
    ensures j < cap && NextIx(j, cap) == i
  {
    if i == 0 then cap - 1 else i - 1
  }

  /** How far slot i lies after slot `from`, going round: `(i - from) & mask`. */
  function Dist(from: nat, i: nat, cap: nat): (d: nat)
    requires from < cap && i < cap
    ensures d < cap && (d == 0 <==> i == from)
  {
    if i >= from then i - from else i + cap - from
  }

  /** The slot at distance d. */
  function Ahead(from: nat, d: nat, cap: nat): (i: nat)
    requires from < cap && d < cap
    ensures i < cap && Dist(from, i, cap) == d
  {
    if from + d < cap then from + d else from + d - cap
  }

  function Home(s: Slot, cap: nat): (h: nat)
    requires cap > 0
    ensures h < cap
  {
    Wrap(s.hash, cap)
  }

  /** Displacement of the entry in slot i from its ideal bucket. */
  function Dib(t: seq<Slot>, i: nat): (d: nat)
    requires i < |t|
    ensures d < |t|
  {
    Dist(Home(t[i], |t|), i, |t|)
  }

  // ---- the invariant ------------------------------------------------------------------

  /** A displaced entry follows an occupied slot that is displaced at most one less. */
  predicate DisplacedAt(t: seq<Slot>, i: nat)
    requires i < |t|
  {
    Used(t[i]) && Dib(t, i) > 0 ==> Used(t[PrevIx(i, |t|)]) && Dib(t, PrevIx(i, |t|)) >= Dib(t, i) - 1
  }

  ghost predicate Displaced(t: seq<Slot>) {
    forall i :: 0 <= i < |t| ==> DisplacedAt(t, i)
  }

  ghost predicate UniqueTexts(t: seq<Slot>) {
    forall i, j :: 0 <= i < |t| && 0 <= j < |t| && Used(t[i]) && Used(t[j]) && t[i].key.text == t[j].key.text ==> i == j
  }

  ghost function Entries(t: seq<Slot>): set<Slot> {
    set s | s in t && Used(s)
  }

  /** The chain behind an entry: every slot from its ideal bucket to it is occupied, and displaced at least as far
      as it is from that bucket. */
  lemma {:induction false} Chain(t: seq<Slot>, j: nat, e: nat)
    requires Displaced(t) && j < |t| && Used(t[j]) && e <= Dib(t, j)
    ensures var p := Ahead(Home(t[j], |t|), e, |t|); Used(t[p]) && Dib(t, p) >= e
    decreases Dib(t, j) - e
  {
    var cap := |t|;
    var h := Home(t[j], cap);
    if e == Dib(t, j) {
      assert Ahead(h, e, cap) == j;
    } else {
      Chain(t, j, e + 1);
      var p := Ahead(h, e + 1, cap);
      assert DisplacedAt(t, p);
      assert PrevIx(p, cap) == Ahead(h, e, cap);
    }
  }

  /** Soundness of the early exit: a slot that is empty, or less displaced than the distance walked from bucket h,
      proves that nothing with bucket h lies further on. */
  lemma EarlyExit(t: seq<Slot>, h: nat, dist: nat, j: nat)
    requires Displaced(t) && h < |t| && dist < |t| && j < |t|
    requires var p := Ahead(h, dist, |t|); !Used(t[p]) || Dib(t, p) < dist
    requires Used(t[j]) && Home(t[j], |t|) == h
    ensures Dib(t, j) < dist
  {
    if Dib(t, j) >= dist {
      Chain(t, j, dist);
    }
  }

  // ---- insertion: one probe step ---------------------------------------------------------

  /** The state of the insertion loop: entry e is in hand at slot i, dist past its bucket; an empty slot z lies at or
      after i, and everything passed so far justifies e's displacement. */
  ghost predicate Probing(t: seq<Slot>, e: Slot, i: nat, dist: nat, z: nat) {
    && Displaced(t) && UniqueTexts(t)
    && Used(e) && (forall k :: 0 <= k < |t| && Used(t[k]) ==> t[k].key.text != e.key.text)
    && i < |t| && z < |t| && !Used(t[z])
    && dist == Dist(Home(e, |t|), i, |t|) <= Dist(Home(e, |t|), z, |t|)
    && (dist > 0 ==> Used(t[PrevIx(i, |t|)]) && Dib(t, PrevIx(i, |t|)) >= dist - 1)
  }

  /** Placing e in slot i keeps the displacement invariant when i is empty or held by something less displaced. */
  lemma PlaceDisplaced(t: seq<Slot>, e: Slot, i: nat, dist: nat, z: nat)
    requires Probing(t, e, i, dist, z) && (!Used(t[i]) || Dib(t, i) < dist)
    ensures Displaced(t[i := e])
  {
    var cap := |t|;
    var u := t[i := e];
    forall k | 0 <= k < cap ensures DisplacedAt(u, k) {
      assert DisplacedAt(t, k);
      if k == i && PrevIx(i, cap) == i {
        assert dist == 0;
      }
    }
  }

  lemma PlaceEntries(t: seq<Slot>, e: Slot, i: nat)
    requires i < |t| && Used(e) && UniqueTexts(t)
    requires forall k :: 0 <= k < |t| && Used(t[k]) ==> t[k].key.text != e.key.text
    ensures UniqueTexts(t[i := e])
    ensures Entries(t[i := e]) == (if Used(t[i]) then Entries(t) - {t[i]} else Entries(t)) + {e}
    ensures var u := t[i := e]; Used(t[i]) ==> forall k :: 0 <= k < |u| && Used(u[k]) ==> u[k].key.text != t[i].key.text
  {
    var u := t[i := e];
    forall s | s in Entries(t) && s != t[i] ensures s in u {
      var k :| 0 <= k < |t| && t[k] == s;
      assert u[k] == s;
    }
    assert u[i] == e;
    forall s | s in Entries(u) && s != e ensures s in t && s != t[i] {
      var k :| 0 <= k < |u| && u[k] == s;
      assert t[k] == s;
    }
    forall k | 0 <= k < |t| && Used(t[i]) && Used(u[k]) ensures u[k].key.text != t[i].key.text {
      if k != i { assert u[k] == t[k]; }
    }
  }

  /** Robin Hood swap: the richer sitting entry becomes the one in hand. */
  lemma SwapStep(t: seq<Slot>, e: Slot, i: nat, dist: nat, z: nat)
    requires Probing(t, e, i, dist, z) && Used(t[i]) && Dib(t, i) < dist
    ensures Probing(t[i := e], t[i], i, Dib(t, i), z)
    ensures Entries(t[i := e]) + {t[i]} == Entries(t) + {e}
  {
    var cap := |t|;
    var u := t[i := e];
    PlaceDisplaced(t, e, i, dist, z);
    PlaceEntries(t, e, i);
    assert t[i] in Entries(t);
    if Dib(t, i) > 0 {
      assert DisplacedAt(t, i);
    }
  }

  /** Walking past a slot whose entry is at least as displaced. */
  lemma AdvanceStep(t: seq<Slot>, e: Slot, i: nat, dist: nat, z: nat)
    requires Probing(t, e, i, dist, z) && Used(t[i]) && Dib(t, i) >= dist
    ensures Probing(t, e, NextIx(i, |t|), dist + 1, z)
    ensures Dist(NextIx(i, |t|), z, |t|) < Dist(i, z, |t|)
  {
    assert z != i;
  }

  // ---- backward-shift deletion, in closed form -----------------------------------------------

  /** u is t after the k entries behind slot i have moved back one slot each and the last vacated slot was cleared. */
  ghost predicate Shifted(t: seq<Slot>, u: seq<Slot>, i: nat, k: nat)
    requires i < |t| && k < |t|
  {
    && |u| == |t|
    && (forall p :: 0 <= p < |t| && Dist(i, p, |t|) < k ==> u[p] == t[NextIx(p, |t|)])
    && (forall p :: 0 <= p < |t| && Dist(i, p, |t|) == k ==> u[p] == EMPTY)
    && (forall p :: 0 <= p < |t| && Dist(i, p, |t|) > k ==> u[p] == t[p])
  }

  /** The k entries behind slot i are all displaced, and the one after them is not. */
  ghost predicate ShiftRange(t: seq<Slot>, i: nat, k: nat)
    requires i < |t| && k < |t|
  {
    && (forall p :: 0 <= p < |t| && 0 < Dist(i, p, |t|) <= k ==> Used(t[p]) && Dib(t, p) > 0)
    && (var next := NextIx(Ahead(i, k, |t|), |t|); !Used(t[next]) || Dib(t, next) == 0)
  }

  /** The same before the last vacated slot is cleared: k entries moved so far. */
  ghost predicate PartShifted(t: seq<Slot>, u: seq<Slot>, i: nat, k: nat)
    requires i < |t|
  {
    && |u| == |t|
    && (forall p :: 0 <= p < |t| && Dist(i, p, |t|) < k ==> u[p] == t[NextIx(p, |t|)])
    && (forall p :: 0 <= p < |t| && Dist(i, p, |t|) >= k ==> u[p] == t[p])
  }

  lemma ShiftOne(t: seq<Slot>, u: seq<Slot>, i: nat, k: nat)
    requires i < |t| && k + 1 < |t| && PartShifted(t, u, i, k)
    ensures var hole := Ahead(i, k, |t|);
            PartShifted(t, u[hole := u[NextIx(hole, |t|)]], i, k + 1) && Dist(i, NextIx(hole, |t|), |t|) == k + 1
  {
    var hole := Ahead(i, k, |t|);
    StepBack(i, hole, |t|);
    assert u[NextIx(hole, |t|)] == t[NextIx(hole, |t|)];
    assert forall p :: 0 <= p < |t| && Dist(i, p, |t|) == k ==> p == hole;
  }

  lemma ShiftDone(t: seq<Slot>, u: seq<Slot>, i: nat, k: nat)
    requires i < |t| && k < |t| && PartShifted(t, u, i, k)
    ensures Shifted(t, u[Ahead(i, k, |t|) := EMPTY], i, k)
  {
    assert forall p :: 0 <= p < |t| && Dist(i, p, |t|) == k ==> p == Ahead(i, k, |t|);
  }

  lemma ShiftDisplaced(t: seq<Slot>, u: seq<Slot>, i: nat, k: nat)
    requires Displaced(t) && i < |t| && Used(t[i]) && k < |t|
    requires ShiftRange(t, i, k) && Shifted(t, u, i, k)
    ensures Displaced(u)
  {
    forall p | 0 <= p < |u| ensures DisplacedAt(u, p) {
      ShiftDisplacedAt(t, u, i, k, p);
    }
  }

  lemma MovedBack(t: seq<Slot>, u: seq<Slot>, p: nat)
    requires |t| == |u| && p < |t| && u[p] == t[NextIx(p, |t|)] && Dib(t, NextIx(p, |t|)) > 0
    ensures Dib(u, p) == Dib(t, NextIx(p, |t|)) - 1
  {
  }

  lemma StepBack(i: nat, p: nat, cap: nat)
    requires i < cap && p < cap
    ensures Dist(i, p, cap) > 0 ==> Dist(i, PrevIx(p, cap), cap) == Dist(i, p, cap) - 1
    ensures Dist(i, p, cap) == 0 ==> Dist(i, PrevIx(p, cap), cap) == cap - 1
    ensures Dist(i, p, cap) < cap - 1 ==> Dist(i, NextIx(p, cap), cap) == Dist(i, p, cap) + 1
  {
  }

  /** Between two moves: k entries moved, all of them displaced, and the empty slot z not reached yet. */
  ghost predicate Shifting(t: seq<Slot>, u: seq<Slot>, i: nat, k: nat, z: nat)
    requires i < |t|
  {
    && PartShifted(t, u, i, k) && z < |t| && !Used(t[z]) && k < Dist(i, z, |t|)
    && forall p :: 0 <= p < |t| && 0 < Dist(i, p, |t|) <= k ==> Used(t[p]) && Dib(t, p) > 0
  }

  lemma ShiftStart(t: seq<Slot>, i: nat, z: nat)
    requires i < |t| && z < |t| && !Used(t[z]) && Used(t[i])
    ensures Shifting(t, t, i, 0, z)
  {
  }

  /** What the loop looks at next has not moved, and cannot be z while it is in use. */
  lemma ShiftNext(t: seq<Slot>, u: seq<Slot>, i: nat, k: nat, z: nat)
    requires i < |t| && k < |t| && Shifting(t, u, i, k, z)
    ensures var j := NextIx(Ahead(i, k, |t|), |t|); Dist(i, j, |t|) == k + 1 < |t| && u[j] == t[j] && (j != z ==> k + 1 < Dist(i, z, |t|))
  {
    StepBack(i, Ahead(i, k, |t|), |t|);
  }

  lemma ShiftStep(t: seq<Slot>, u: seq<Slot>, i: nat, k: nat, z: nat)
    requires i < |t| && k < |t| && Shifting(t, u, i, k, z)
    requires var j := NextIx(Ahead(i, k, |t|), |t|); j < |u| && Used(u[j]) && Dist(Home(u[j], |t|), j, |t|) != 0
    ensures var hole := Ahead(i, k, |t|); var j := NextIx(hole, |t|);
            && k + 1 < |t| && Ahead(i, k + 1, |t|) == j && hole < |u|
            && Shifting(t, u[hole := u[j]], i, k + 1, z)
  {
    ShiftNext(t, u, i, k, z);
    ShiftOne(t, u, i, k);
    var j := NextIx(Ahead(i, k, |t|), |t|);
    assert forall p :: 0 <= p < |t| && Dist(i, p, |t|) == k + 1 ==> p == j;
  }

  lemma ShiftEnd(t: seq<Slot>, u: seq<Slot>, i: nat, k: nat, z: nat)
    requires i < |t| && k < |t| && Shifting(t, u, i, k, z)
    requires var j := NextIx(Ahead(i, k, |t|), |t|); j < |u| && (!Used(u[j]) || Dist(Home(u[j], |t|), j, |t|) == 0)
    ensures Ahead(i, k, |t|) < |u| && ShiftRange(t, i, k) && Shifted(t, u[Ahead(i, k, |t|) := EMPTY], i, k)
  {
    ShiftNext(t, u, i, k, z);
    ShiftDone(t, u, i, k);
  }

  lemma ShiftDisplacedAt(t: seq<Slot>, u: seq<Slot>, i: nat, k: nat, p: nat)
    requires Displaced(t) && i < |t| && Used(t[i]) && k < |t| && p < |t|
    requires ShiftRange(t, i, k) && Shifted(t, u, i, k)
    ensures DisplacedAt(u, p)
  {
    var d := Dist(i, p, |t|);
    StepBack(i, p, |t|);
    if d < k {
      ShiftedSlot(t, u, i, k, p);
    } else if d > k {
      assert DisplacedAt(t, p);
      if d == k + 1 {
        assert p == NextIx(Ahead(i, k, |t|), |t|);
      }
    }
  }

  lemma ShiftedSlot(t: seq<Slot>, u: seq<Slot>, i: nat, k: nat, p: nat)
    requires Displaced(t) && i < |t| && Used(t[i]) && k < |t| && p < |t| && Dist(i, p, |t|) < k
    requires ShiftRange(t, i, k) && Shifted(t, u, i, k)
    ensures DisplacedAt(u, p)
  {
    var n, q := NextIx(p, |t|), PrevIx(p, |t|);
    StepBack(i, p, |t|);
    assert DisplacedAt(t, n) && DisplacedAt(t, p);
    assert Used(t[n]) && Dib(t, n) > 0;
    MovedBack(t, u, p);
    assert PrevIx(n, |t|) == p;
    if Dist(i, p, |t|) > 0 {
      assert u[q] == t[p] && Used(t[p]) && Dib(t, p) > 0;
      MovedBack(t, u, q);
    } else {
      assert k == |t| - 1 ==> NextIx(Ahead(i, k, |t|), |t|) == i;
      assert Dib(u, p) > 0 ==> u[q] == t[q];
    }
  }

  lemma ShiftOrigin(t: seq<Slot>, u: seq<Slot>, i: nat, k: nat, p: nat)
    requires i < |t| && k < |t| && p < |t| && Shifted(t, u, i, k) && Used(u[p])
    ensures Origin(i, k, p, |t|) != i && u[p] == t[Origin(i, k, p, |t|)]
  {
    StepBack(i, p, |t|);
  }

  lemma ShiftUnique(t: seq<Slot>, u: seq<Slot>, i: nat, k: nat)
    requires UniqueTexts(t) && i < |t| && k < |t| && Shifted(t, u, i, k)
    ensures UniqueTexts(u)
  {
    forall p, q | 0 <= p < |u| && 0 <= q < |u| && Used(u[p]) && Used(u[q]) && u[p].key.text == u[q].key.text ensures p == q {
      ShiftOrigin(t, u, i, k, p);
      ShiftOrigin(t, u, i, k, q);
      OriginInjective(i, k, p, q, |t|);
    }
  }

  lemma OriginInjective(i: nat, k: nat, p: nat, q: nat, cap: nat)
    requires i < cap && p < cap && q < cap && k < cap && Origin(i, k, p, cap) == Origin(i, k, q, cap)
    requires Dist(i, p, cap) != k && Dist(i, q, cap) != k
    ensures p == q
  {
  }

  lemma ShiftEntries(t: seq<Slot>, u: seq<Slot>, i: nat, k: nat)
    requires UniqueTexts(t) && i < |t| && Used(t[i]) && k < |t|
    requires ShiftRange(t, i, k) && Shifted(t, u, i, k)
    ensures Entries(u) == Entries(t) - {t[i]}
  {
    forall s | s in Entries(u) ensures s in t && s != t[i] {
      var p :| 0 <= p < |u| && u[p] == s;
      ShiftOrigin(t, u, i, k, p);
    }
    forall s | s in Entries(t) && s != t[i] ensures s in u {
      var p :| 0 <= p < |t| && t[p] == s;
      StepBack(i, p, |t|);
      if Dist(i, p, |t|) <= k {
        assert u[PrevIx(p, |t|)] == s;
      } else {
        assert u[p] == s;
      }
    }
  }

  /** Where the entry now in slot p was before the shift. */
  function Origin(i: nat, k: nat, p: nat, cap: nat): (o: nat)
    requires i < cap && p < cap
    ensures o < cap
  {
    if Dist(i, p, cap) < k then NextIx(p, cap) else p
  }

  // ---- counting -----------------------------------------------------------------------------------

  /** Distinct texts: at least as many entries as occupied slots in a prefix. */
  lemma {:induction false} PrefixCount(t: seq<Slot>, n: nat)
    requires UniqueTexts(t) && n <= |t| && forall i :: 0 <= i < n ==> Used(t[i])
    ensures |Entries(t[..n])| == n
  {
    if n > 0 {
      PrefixCount(t, n - 1);
      assert t[..n] == t[..n - 1] + [t[n - 1]];
      assert Entries(t[..n]) == Entries(t[..n - 1]) + {t[n - 1]};
      assert t[n - 1] !in t[..n - 1];
    }
  }

  /** Fewer entries than slots: some slot is empty. */
  lemma SomeEmpty(t: seq<Slot>) returns (z: nat)
    requires UniqueTexts(t) && |Entries(t)| < |t|
    ensures z < |t| && !Used(t[z])
  {
    assert t[..|t|] == t;
    if forall i :: 0 <= i < |t| ==> Used(t[i]) {
      PrefixCount(t, |t|);
    }
    z :| 0 <= z < |t| && !Used(t[z]);
  }
}
