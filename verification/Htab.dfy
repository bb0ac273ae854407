/** The hash table object of src/htab.c: an array of slots edited in place by probing insertion,
    backward-shift deletion and resizing, refining a finite map from key texts to bindings. */
module Htab {
  import opened Common
  import opened Ring
  import opened RobinHood

  datatype Binding = Binding(key: Key, val: Val)

  /** Hash 0 is the empty-slot sentinel. */
  function FixHash(h: nat): nat {
    if h != 0 then h else 1
  }

  // ---- the map a slot array stands for ----------------------------------------------------

  ghost function Texts(t: seq<Slot>): set<string> {
    set s | s in Entries(t) :: s.key.text
  }

  ghost function EntryFor(t: seq<Slot>, x: string): (s: Slot)
    requires x in Texts(t)
    ensures s in Entries(t) && s.key.text == x
  {
    var s :| s in Entries(t) && s.key.text == x; s
  }

  ghost function ModelOf(t: seq<Slot>): (m: map<string, Binding>)
    ensures m.Keys == Texts(t)
  {
    map x | x in Texts(t) :: Binding(EntryFor(t, x).key, EntryFor(t, x).val)
  }

  lemma ModelAt(t: seq<Slot>, s: Slot)
    requires UniqueTexts(t) && s in Entries(t)
    ensures s.key.text in ModelOf(t) && ModelOf(t)[s.key.text] == Binding(s.key, s.val)
  {
    var e := EntryFor(t, s.key.text);
    var i :| 0 <= i < |t| && t[i] == e;
    var j :| 0 <= j < |t| && t[j] == s;
  }

  /** The map is determined by the set of entries. */
  lemma ModelFromEntries(t: seq<Slot>, u: seq<Slot>)
    requires UniqueTexts(t) && UniqueTexts(u) && Entries(t) == Entries(u)
    ensures ModelOf(t) == ModelOf(u)
  {
    forall x | x in Texts(t) ensures ModelOf(t)[x] == ModelOf(u)[x] {
      var s := EntryFor(t, x);
      ModelAt(t, s);
      ModelAt(u, s);
    }
  }

  lemma ModelInsert(t: seq<Slot>, u: seq<Slot>, e: Slot)
    requires UniqueTexts(t) && UniqueTexts(u) && Entries(u) == Entries(t) + {e} && e.key.text !in Texts(t)
    ensures ModelOf(u) == ModelOf(t)[e.key.text := Binding(e.key, e.val)]
  {
    assert Texts(u) == Texts(t) + {e.key.text};
    ModelAt(u, e);
    forall x | x in Texts(t) ensures ModelOf(u)[x] == ModelOf(t)[x] {
      var s := EntryFor(t, x);
      ModelAt(t, s);
      ModelAt(u, s);
    }
  }

  lemma ModelRemove(t: seq<Slot>, u: seq<Slot>, e: Slot)
    requires UniqueTexts(t) && UniqueTexts(u) && e in Entries(t) && Entries(u) == Entries(t) - {e}
    ensures ModelOf(u) == ModelOf(t) - {e.key.text}
  {
    forall x | x in Texts(u) ensures x in Texts(t) && x != e.key.text && ModelOf(u)[x] == ModelOf(t)[x] {
      var s := EntryFor(u, x);
      ModelAt(u, s);
      ModelAt(t, s);
      ModelAt(t, e);
      var i :| 0 <= i < |t| && t[i] == s;
      var j :| 0 <= j < |t| && t[j] == e;
    }
    forall x | x in Texts(t) && x != e.key.text ensures x in Texts(u) {
      var s := EntryFor(t, x);
      assert s in Entries(u);
    }
  }

  lemma EntriesReplace(t: seq<Slot>, i: nat, v: Val)
    requires UniqueTexts(t) && i < |t| && Used(t[i])
    ensures var u := t[i := t[i].(val := v)];
            UniqueTexts(u) && t[i] in Entries(t) && u[i] in Entries(u) && Entries(u) == Entries(t) - {t[i]} + {u[i]}
  {
    var u := t[i := t[i].(val := v)];
    assert forall k :: 0 <= k < |t| ==> u[k].key == t[k].key && Used(u[k]) == Used(t[k]);
    assert u[i] in u;
    forall s | s in Entries(t) && s != t[i] ensures s in Entries(u) {
      var k :| 0 <= k < |t| && t[k] == s;
      assert u[k] == s;
    }
    forall s | s in Entries(u) && s != u[i] ensures s in Entries(t) && s != t[i] {
      var k :| 0 <= k < |u| && u[k] == s;
      assert t[k] == s;
    }
  }

  lemma ModelReplace(t: seq<Slot>, i: nat, v: Val)
    requires UniqueTexts(t) && i < |t| && Used(t[i])
    ensures var u := t[i := t[i].(val := v)];
            && UniqueTexts(u) && Entries(u) == Entries(t) - {t[i]} + {u[i]}
            && ModelOf(u) == ModelOf(t)[t[i].key.text := Binding(t[i].key, v)]
  {
    hide Entries, UniqueTexts;
    var u := t[i := t[i].(val := v)];
    EntriesReplace(t, i, v);
    assert Texts(u) == Texts(t) by {
      forall x | x in Texts(t) ensures x in Texts(u) {
        var s := EntryFor(t, x);
        assert s != t[i] ==> s in Entries(u);
      }
    }
    ModelAt(u, u[i]);
    forall x | x in Texts(t) && x != t[i].key.text ensures ModelOf(u)[x] == ModelOf(t)[x] {
      var s := EntryFor(t, x);
      ModelAt(t, s);
      ModelAt(u, s);
    }
  }

  // ---- raw insertion into a slot array -----------------------------------------------------

  /** Robin Hood insertion of a new key.  The table keeps its invariant and gains exactly this entry. */
  method InsertSlot(a: array<Slot>, entry: Slot)
    requires Displaced(a[..]) && UniqueTexts(a[..]) && |Entries(a[..])| < a.Length
    requires Used(entry) && entry.key.text !in Texts(a[..])
    modifies a
    ensures Displaced(a[..]) && UniqueTexts(a[..])
    ensures Entries(a[..]) == old(Entries(a[..])) + {entry}
  {
    ghost var z := SomeEmpty(a[..]);
    var cap := a.Length;
    var e := entry;
    var i, dist := Home(e, cap), 0;
    assert forall k :: 0 <= k < |a[..]| && Used(a[..][k]) ==> a[..][k] in Entries(a[..]);
    while Used(a[i])
      invariant Probing(a[..], e, i, dist, z)
      invariant Entries(a[..]) + {e} == old(Entries(a[..])) + {entry}
      decreases Dist(i, z, cap)
    {
      ghost var t := a[..];
      var sitting := Dist(Home(a[i], cap), i, cap);
      if sitting < dist {
        SwapStep(t, e, i, dist, z);
        var tmp := a[i];
        a[i] := e;
        assert a[..] == t[i := e];
        e, dist := tmp, sitting;
      }
      AdvanceStep(a[..], e, i, dist, z);
      i := NextIx(i, cap);
      dist := dist + 1;
    }
    PlaceDisplaced(a[..], e, i, dist, z);
    PlaceEntries(a[..], e, i);
    ghost var t := a[..];
    a[i] := e;
    assert a[..] == t[i := e];
  }

  /** Re-inserts every entry of an array into a fresh one of another capacity. */
  method Rehash(a: array<Slot>, newCap: nat) returns (b: array<Slot>)
    requires UniqueTexts(a[..]) && |Entries(a[..])| < newCap
    ensures fresh(b) && b.Length == newCap
    ensures Displaced(b[..]) && UniqueTexts(b[..]) && Entries(b[..]) == Entries(a[..])
  {
    hide Displaced, UniqueTexts, Entries, Texts;
    b := new Slot[newCap](_ => EMPTY);
    ghost var t := a[..];
    AllEmpty(b[..]);
    PrefixNone(t);
    var i := 0;
    while i < a.Length
      invariant 0 <= i <= a.Length && fresh(b) && b.Length == newCap && a[..] == t
      invariant Displaced(b[..]) && UniqueTexts(b[..])
      invariant Entries(b[..]) == Entries(t[..i])
    {
      PrefixStep(t, i);
      if Used(a[i]) {
        PartialCount(t, i, b[..]);
        InsertSlot(b, a[i]);
      }
      i := i + 1;
    }
    assert t[..i] == t;
  }

  lemma AllEmpty(u: seq<Slot>)
    requires forall k :: 0 <= k < |u| ==> u[k] == EMPTY
    ensures Displaced(u) && UniqueTexts(u) && Entries(u) == {}
  {
  }

  lemma PrefixNone(t: seq<Slot>)
    ensures Entries(t[..0]) == {}
  {
  }

  lemma PrefixStep(t: seq<Slot>, i: nat)
    requires i < |t|
    ensures Entries(t[..i + 1]) == if Used(t[i]) then Entries(t[..i]) + {t[i]} else Entries(t[..i])
  {
    assert t[..i + 1] == t[..i] + [t[i]];
  }

  lemma PartialCount(t: seq<Slot>, i: nat, u: seq<Slot>)
    requires UniqueTexts(t) && i < |t| && Used(t[i]) && Entries(u) == Entries(t[..i])
    ensures |Entries(u)| < |Entries(t)| && t[i].key.text !in Texts(u)
  {
    forall s | s in Entries(t[..i]) ensures s in Entries(t) && s != t[i] && s.key.text != t[i].key.text {
      var k :| 0 <= k < i && t[..i][k] == s;
      assert t[k] == s;
    }
    assert Entries(t[..i]) <= Entries(t) - {t[i]};
    SubsetSize(Entries(t[..i]), Entries(t) - {t[i]});
    assert t[i] in Entries(t);
  }

  /** Closes the hole at slot i by moving the displaced entries behind it back one step each. */
  method ShiftBack(a: array<Slot>, i: nat) returns (ghost k: nat)
    requires i < a.Length && UniqueTexts(a[..]) && |Entries(a[..])| < a.Length && Used(a[i])
    modifies a
    ensures k < a.Length && ShiftRange(old(a[..]), i, k) && Shifted(old(a[..]), a[..], i, k)
  {
    hide UniqueTexts, Entries, Shifted, ShiftRange, Shifting;
    var cap := a.Length;
    ghost var t := a[..];
    ghost var z := SomeEmpty(t);
    var hole := i;
    k := 0;
    var j := NextIx(hole, cap);
    ShiftStart(t, i, z);
    while Used(a[j]) && Dist(Home(a[j], cap), j, cap) != 0
      invariant k < cap && hole == Ahead(i, k, cap) && j == NextIx(hole, cap) && Shifting(t, a[..], i, k, z)
      decreases cap - k
    {
      ghost var u := a[..];
      ShiftStep(t, u, i, k, z);
      a[hole] := a[j];
      assert a[..] == u[hole := u[j]];
      hole := j;
      j := NextIx(hole, cap);
      k := k + 1;
    }
    ghost var u := a[..];
    ShiftEnd(t, u, i, k, z);
    a[hole] := EMPTY;
    assert a[..] == u[hole := EMPTY];
  }

  class Htab {
    const hashFn: string -> nat
    var slots: array<Slot>
    var count: nat

    ghost predicate Hashed(t: seq<Slot>) {
      forall i :: 0 <= i < |t| && Used(t[i]) ==> t[i].hash == FixHash(hashFn(t[i].key.text))
    }

    ghost predicate Valid()
      reads this, slots
    {
      && slots.Length >= 16 && IsPowerOfTwo(slots.Length)
      && Displaced(slots[..]) && UniqueTexts(slots[..]) && Hashed(slots[..])
      && count == |Entries(slots[..])| < slots.Length
    }

    ghost function Model(): map<string, Binding>
      reads this, slots
    {
      ModelOf(slots[..])
    }

    constructor (initialCap: nat, hash: string -> nat)
      ensures Valid() && fresh(slots) && Model() == map[] && hashFn == hash
    {
      hashFn := hash;
      count := 0;
      SmallPowers();
      slots := new Slot[NextPow2(initialCap, 16)](_ => EMPTY);
      new;
      assert Entries(slots[..]) == {};
    }

    /** htab_find_idx; -1 stands for SIZE_MAX. */
    method FindIdx(key: Key) returns (idx: int)
      requires Valid()
      ensures idx < 0 ==> key.text !in Model()
      ensures idx >= 0 ==> idx < slots.Length && Used(slots[idx]) && slots[idx].key.text == key.text
    {
      var cap := slots.Length;
      var hash := FixHash(hashFn(key.text));
      ghost var t := slots[..];
      var h := Wrap(hash, cap);
      var i, dist := h, 0;
      while true
        invariant dist <= cap && i < cap
        invariant i == if dist < cap then Ahead(h, dist, cap) else h
        invariant forall j :: 0 <= j < cap && Dist(h, j, cap) < dist ==> !(t[j].hash == hash && t[j].key.text == key.text)
        decreases cap - dist
      {
        if !Used(slots[i]) || Dist(Home(slots[i], cap), i, cap) < dist {
          NotFurther(t, hash, key, dist);
          return -1;
        }
        if slots[i].hash == hash && slots[i].key.text == key.text {
          return i;
        }
        i := NextIx(i, cap);
        dist := dist + 1;
      }
    }

    lemma {:induction false} NotFurther(t: seq<Slot>, hash: nat, key: Key, dist: nat)
      requires Displaced(t) && UniqueTexts(t) && Hashed(t) && dist <= |t| && |t| > 0
      requires hash == FixHash(hashFn(key.text))
      requires forall j :: 0 <= j < |t| && Dist(Wrap(hash, |t|), j, |t|) < dist ==> !(t[j].hash == hash && t[j].key.text == key.text)
      requires dist < |t| ==> var p := Ahead(Wrap(hash, |t|), dist, |t|); !Used(t[p]) || Dib(t, p) < dist
      ensures key.text !in ModelOf(t)
    {
      if key.text in Texts(t) {
        var s := EntryFor(t, key.text);
        var j :| 0 <= j < |t| && t[j] == s;
        if dist < |t| {
          EarlyExit(t, Wrap(hash, |t|), dist, j);
        }
      }
    }

    method Get(key: Key) returns (r: Option<Val>)
      requires Valid()
      ensures r == if key.text in Model() then Some(Model()[key.text].val) else None
    {
      var i := FindIdx(key);
      if i < 0 {
        return None;
      }
      ModelAt(slots[..], slots[..][i]);
      return Some(slots[i].val);
    }

    method Resize(newCap: nat)
      requires Valid() && newCap > count && newCap >= 16 && IsPowerOfTwo(newCap)
      modifies this`slots
      ensures Valid() && fresh(slots) && slots.Length == newCap
      ensures Entries(slots[..]) == old(Entries(slots[..])) && Model() == old(Model())
    {
      ghost var t := slots[..];
      slots := Rehash(slots, newCap);
      ModelFromEntries(t, slots[..]);
      SameHashes(t, slots[..]);
    }

    lemma SameHashes(t: seq<Slot>, u: seq<Slot>)
      requires Hashed(t) && Entries(u) <= Entries(t)
      ensures Hashed(u)
    {
      forall k | 0 <= k < |u| && Used(u[k]) ensures u[k].hash == FixHash(hashFn(u[k].key.text)) {
        assert u[k] in Entries(u);
        var j :| 0 <= j < |t| && t[j] == u[k];
      }
    }

    method MaybeGrow()
      requires Valid()
      modifies this`slots
      ensures Valid() && count * 4 < slots.Length * 3
      ensures slots == old(slots) || fresh(slots)
      ensures Entries(slots[..]) == old(Entries(slots[..])) && Model() == old(Model())
    {
      var cap := slots.Length;
      if count * 4 >= cap * 3 {
        assert (cap * 2) / 2 == cap;
        Resize(cap * 2);
      }
    }

    /** Inserts a key known to be absent. */
    method AddNew(key: Key, val: Val)
      requires Valid() && key.text !in Model()
      modifies this, slots
      ensures Valid() && (slots == old(slots) || fresh(slots))
      ensures Model() == old(Model())[key.text := Binding(key, val)]
    {
      hide Entries, Texts, ModelOf, Hashed, Displaced, UniqueTexts;
      MaybeGrow();
      ghost var t := slots[..];
      var e := Slot(FixHash(hashFn(key.text)), key, val);
      InsertSlot(slots, e);
      count := count + 1;
      OneMore(t, slots[..], e);
    }

    /** What one more entry with a new text makes of the map, the hashes and the number of entries. */
    lemma OneMore(t: seq<Slot>, u: seq<Slot>, e: Slot)
      requires UniqueTexts(t) && UniqueTexts(u) && Hashed(t) && e.hash == FixHash(hashFn(e.key.text))
      requires Entries(u) == Entries(t) + {e} && e.key.text !in ModelOf(t)
      ensures ModelOf(u) == ModelOf(t)[e.key.text := Binding(e.key, e.val)]
      ensures Hashed(u) && |Entries(u)| == |Entries(t)| + 1
    {
      assert e !in Entries(t) by { assert forall q :: q in Entries(t) ==> q.key.text in Texts(t); }
      ModelInsert(t, u, e);
      AlsoHashed(t, u, e);
    }

    lemma AlsoHashed(t: seq<Slot>, u: seq<Slot>, e: Slot)
      requires Hashed(t) && Entries(u) == Entries(t) + {e} && e.hash == FixHash(hashFn(e.key.text))
      ensures Hashed(u)
    {
      forall k | 0 <= k < |u| && Used(u[k]) ensures u[k].hash == FixHash(hashFn(u[k].key.text)) {
        assert u[k] in Entries(u);
        if u[k] != e {
          var j :| 0 <= j < |t| && t[j] == u[k];
        }
      }
    }

    /** Replaces the value in place, keeping the stored key pointer. */
    method Overwrite(i: nat, val: Val)
      requires Valid() && i < slots.Length && Used(slots[i])
      modifies slots
      ensures Valid()
      ensures Model() == old(Model())[old(slots[i]).key.text := Binding(old(slots[i]).key, val)]
    {
      ghost var t := slots[..];
      ModelReplace(t, i, val);
      slots[i] := slots[i].(val := val);
      ghost var u := t[i := t[i].(val := val)];
      assert slots[..] == u;
      forall k | 0 <= k < |u| ensures DisplacedAt(u, k) {
        assert DisplacedAt(t, k);
      }
      assert t[i] in Entries(t);
      if u[i] != t[i] { NotAnother(t, i, u[i]); }
    }

    lemma NotAnother(t: seq<Slot>, i: nat, s: Slot)
      requires UniqueTexts(t) && i < |t| && Used(t[i]) && s != t[i] && s.key == t[i].key && Used(s)
      ensures s !in Entries(t)
    {
    }

    /** 1 on insert, 0 on update; on update the old key pointer stays. */
    method Set(key: Key, val: Val) returns (rc: int, oldVal: Option<Val>)
      requires Valid()
      modifies this, slots
      ensures Valid() && (slots == old(slots) || fresh(slots))
      ensures old(key.text in Model()) ==>
                && rc == 0 && oldVal == Some(old(Model())[key.text].val)
                && Model() == old(Model())[key.text := Binding(old(Model())[key.text].key, val)]
      ensures old(key.text !in Model()) ==> rc == 1 && oldVal == None && Model() == old(Model())[key.text := Binding(key, val)]
    {
      var i := FindIdx(key);
      if i >= 0 {
        ModelAt(slots[..], slots[..][i]);
        oldVal := Some(slots[i].val);
        Overwrite(i, val);
        return 0, oldVal;
      }
      AddNew(key, val);
      return 1, None;
    }

    method GetOrSet(key: Key, val: Val) returns (r: Val, created: bool)
      requires Valid()
      modifies this, slots
      ensures Valid() && (slots == old(slots) || fresh(slots))
      ensures created == old(key.text !in Model())
      ensures r == if created then val else old(Model())[key.text].val
      ensures Model() == if created then old(Model())[key.text := Binding(key, val)] else old(Model())
    {
      var i := FindIdx(key);
      if i >= 0 {
        ModelAt(slots[..], slots[..][i]);
        return slots[i].val, false;
      }
      AddNew(key, val);
      return val, true;
    }

    /** Removes the entry in slot i. */
    method DelAt(i: nat)
      requires Valid() && i < slots.Length && Used(slots[i])
      modifies this`count, slots
      ensures Valid() && count == old(count) - 1
      ensures exists k :: 0 <= k < slots.Length && Shifted(old(slots[..]), slots[..], i, k)
      ensures Entries(slots[..]) == old(Entries(slots[..])) - {old(slots[i])}
      ensures Model() == old(Model()) - {old(slots[i]).key.text}
    {
      ghost var t := slots[..];
      assert t[i] in Entries(t);
      ghost var k := ShiftBack(slots, i);
      count := count - 1;
      ShiftDisplaced(t, slots[..], i, k);
      ShiftUnique(t, slots[..], i, k);
      ShiftEntries(t, slots[..], i, k);
      ModelRemove(t, slots[..], t[i]);
      SameHashes(t, slots[..]);
    }

    method Del(key: Key) returns (r: Option<Val>)
      requires Valid()
      modifies this`count, slots
      ensures Valid()
      ensures r == if old(key.text in Model()) then Some(old(Model())[key.text].val) else None
      ensures Model() == old(Model()) - {key.text}
    {
      var i := FindIdx(key);
      if i < 0 {
        return None;
      }
      ModelAt(slots[..], slots[..][i]);
      r := Some(slots[i].val);
      DelAt(i);
    }

    method Compact()
      requires Valid()
      modifies this`slots
      ensures Valid() && Model() == old(Model())
      ensures slots == old(slots) || fresh(slots)
      ensures slots.Length == 16 || slots.Length <= 4 * count + 2
    {
      SmallPowers();
      var newCap := NextPow2(count * 2 + 1, 16);
      if newCap < slots.Length {
        Resize(newCap);
      }
    }

    // ---- iteration with deletion -----------------------------------------------------

    /** Advances to the next live slot at or after the iterator's index. */
    method IterNext(it: Iter) returns (it': Iter, found: bool, s: Slot)
      requires Valid()
      ensures found ==>
                && it.idx <= it'.cur < slots.Length && it'.idx == it'.cur + 1
                && s == slots[it'.cur] && Used(s)
                && forall p :: it.idx <= p < it'.cur ==> !Used(slots[p])
      ensures !found ==> it'.cur == -1 && forall p :: it.idx <= p < slots.Length ==> !Used(slots[p])
    {
      var idx := it.idx;
      while idx < slots.Length
        invariant it.idx <= idx
        invariant forall p :: it.idx <= p < idx && p < slots.Length ==> !Used(slots[p])
      {
        var i := idx;
        idx := idx + 1;
        if Used(slots[i]) {
          return Iter(idx, i), true, slots[i];
        }
      }
      return Iter(idx, -1), false, EMPTY;
    }

    /** Deletes the element last returned and rewinds, so that whatever was shifted into its slot is looked at again. */
    method IterDel(it: Iter) returns (it': Iter, r: Option<Val>)
      requires Valid()
      modifies this`count, slots
      ensures Valid()
      ensures var live := old(0 <= it.cur < slots.Length && Used(slots[it.cur]));
        if live then
          && it' == Iter(it.cur, -1) && r == Some(old(slots[it.cur]).val) && count == old(count) - 1
          && Entries(slots[..]) == old(Entries(slots[..])) - {old(slots[it.cur])}
          && exists k :: 0 <= k < slots.Length && Shifted(old(slots[..]), slots[..], it.cur, k)
        else it' == it && r == None && slots[..] == old(slots[..]) && count == old(count)
    {
      var i := it.cur;
      if i < 0 || i >= slots.Length || !Used(slots[i]) {
        return it, None;
      }
      r := Some(slots[i].val);
      DelAt(i);
      it' := Iter(i, -1);
    }

    /** A whole iteration in which any returned element may be deleted, decided visit by visit.  It ends, and every
        entry present at the start is returned at least once, although deletion moves entries across the iterator and
        around the end of the array. */
    method Sweep(decide: (nat, Slot) -> bool) returns (seen: seq<Slot>)
      requires Valid()
      modifies this`count, slots
      ensures Valid()
      ensures forall e :: e in old(Entries(slots[..])) ==> e in seen
      ensures forall e :: e in seen ==> e in old(Entries(slots[..]))
      ensures Entries(slots[..]) == old(Entries(slots[..])) - Struck(seen, decide)
    {
      hide Entries, Struck, SeenBefore, Shifted, Displaced, UniqueTexts, Hashed, ModelOf;
      seen := [];
      var it := Iter(0, -1);
      ghost var all := Entries(slots[..]);
      NothingYet(slots[..], decide);
      while true
        invariant Valid() && Entries(slots[..]) == all - Struck(seen, decide)
        invariant forall e :: e in seen ==> e in all
        invariant forall e :: e in all ==> e in seen || e in Entries(slots[..])
        invariant SeenBefore(slots[..], it.idx, seen)
        decreases count, slots.Length - it.idx
      {
        ghost var t := slots[..];
        ghost var from := it.idx;
        var found, s;
        it, found, s := IterNext(it);
        if !found {
          AllSeen(t, from, seen);
          break;
        }
        SeenNext(t, from, it.cur, seen);
        StruckNext(seen, s, decide);
        seen := seen + [s];
        if decide(|seen|, s) {
          var i := it.cur;
          var gone;
          it, gone := IterDel(it);
          ghost var k :| 0 <= k < slots.Length && Shifted(t, slots[..], i, k);
          StillSeen(t, slots[..], i, k, seen);
        }
      }
    }
  }

  datatype Iter = Iter(idx: nat, cur: int)

  /** The entries returned on a visit at which the rule said to delete. */
  ghost function Struck(seen: seq<Slot>, decide: (nat, Slot) -> bool): set<Slot> {
    set j | 0 <= j < |seen| && decide(j + 1, seen[j]) :: seen[j]
  }

  lemma StruckNext(seen: seq<Slot>, s: Slot, decide: (nat, Slot) -> bool)
    ensures Struck(seen + [s], decide) == Struck(seen, decide) + if decide(|seen| + 1, s) then {s} else {}
  {
    var more := seen + [s];
    forall e | e in Struck(seen, decide) ensures e in Struck(more, decide) {
      var j :| 0 <= j < |seen| && decide(j + 1, seen[j]) && seen[j] == e;
      assert more[j] == e;
    }
    assert more[|seen|] == s;
  }

  /** Every live entry below the iterator has been returned. */
  ghost predicate SeenBefore(t: seq<Slot>, idx: nat, seen: seq<Slot>) {
    forall p :: 0 <= p < |t| && p < idx && Used(t[p]) ==> t[p] in seen
  }

  lemma NothingYet(t: seq<Slot>, decide: (nat, Slot) -> bool)
    ensures SeenBefore(t, 0, []) && Struck([], decide) == {}
  {
  }

  /** The entry at the next occupied slot is returned. */
  lemma SeenNext(t: seq<Slot>, from: nat, cur: nat, seen: seq<Slot>)
    requires from <= cur < |t| && Used(t[cur]) && SeenBefore(t, from, seen) && forall p :: from <= p < cur ==> !Used(t[p])
    ensures SeenBefore(t, cur + 1, seen + [t[cur]]) && t[cur] in Entries(t)
  {
  }

  lemma AllSeen(t: seq<Slot>, from: nat, seen: seq<Slot>)
    requires SeenBefore(t, from, seen) && forall p :: from <= p < |t| ==> !Used(t[p])
    ensures forall e :: e in Entries(t) ==> e in seen
  {
    forall e | e in Entries(t) ensures e in seen {
      var p :| 0 <= p < |t| && t[p] == e;
      assert p < from;
    }
  }

  /** A backward shift brings nothing unseen below the slot it starts at; what wraps to the end was seen already. */
  lemma StillSeen(t: seq<Slot>, u: seq<Slot>, i: nat, k: nat, seen: seq<Slot>)
    requires i < |t| && k < |t| && Shifted(t, u, i, k) && SeenBefore(t, i + 1, seen)
    ensures SeenBefore(u, i, seen)
  {
    forall p | 0 <= p < |u| && p < i && Used(u[p]) ensures u[p] in seen {
      ShiftOrigin(t, u, i, k, p);
      assert Origin(i, k, p, |t|) <= i;
    }
  }
}
