/** Which texts are addresses: the three forms of section 2.2 of RFC 4291 (RFC 1884 in its time), written down without any parser, and
    how they compare with what inet_pton6 of src/commio.c accepts. */
module InetGrammar {
  import opened Common
  import opened ByteOrder
  import opened InetSpec
  import opened InetRoundTrip

  // ---- the grammar ---------------------------------------------------------------------------------------------

  predicate HexText(s: string) {
    forall i :: 0 <= i < |s| ==> IsHex(Lower(s[i]))
  }

  predicate DecText(s: string) {
    forall i :: 0 <= i < |s| ==> IsDec(s[i])
  }

  /** One to four hexadecimal digits, of either case. */
  predicate Group(s: string) {
    1 <= |s| <= 4 && HexText(s)
  }

  function HexOf(s: string): nat
    requires HexText(s)
  {
    if s == "" then 0 else HexOf(s[..|s| - 1]) * 16 + HexVal(Lower(s[|s| - 1]))
  }

  function DecOf(s: string): nat
    requires DecText(s)
  {
    if s == "" then 0 else DecOf(s[..|s| - 1]) * 10 + (s[|s| - 1] as int - '0' as int)
  }

  /** One to three decimal digits with a value of one byte. */
  predicate Octet(s: string) {
    1 <= |s| <= 3 && DecText(s) && DecOf(s) < 256
  }

  predicate Groups(gs: seq<string>) {
    forall i :: 0 <= i < |gs| ==> Group(gs[i])
  }

  predicate Octets(ps: seq<string>) {
    forall i :: 0 <= i < |ps| ==> Octet(ps[i])
  }

  /** Groups, each followed by a colon. */
  function Lead(gs: seq<string>): string {
    if gs == [] then "" else gs[0] + (":" + Lead(gs[1..]))
  }

  /** Octets, each followed by a dot. */
  function Dotted(ps: seq<string>): string {
    if ps == [] then "" else Dotted(ps[..|ps| - 1]) + ps[|ps| - 1] + "."
  }

  function BytesFrom(gs: seq<string>): (b: seq<Byte>)
    requires Groups(gs)
    ensures |b| == 2 * |gs|
  {
    if gs == [] then [] else Word(HexOf(gs[0])) + BytesFrom(gs[1..])
  }

  function OctetBytes(ps: seq<string>): (b: seq<Byte>)
    requires Octets(ps)
    ensures |b| == |ps|
  {
    if ps == [] then [] else OctetBytes(ps[..|ps| - 1]) + [DecOf(ps[|ps| - 1])]
  }

  /** How an address ends: in a group, in a dotted quad, or, after "::", in nothing. */
  datatype Tail = Nothing | Hexes(group: string) | Quads(first: seq<string>, last: string)

  /** Groups, possibly "::" and more groups, and an end. */
  datatype Form = Form(left: seq<string>, gap: bool, right: seq<string>, tail: Tail)

  function TailText(t: Tail): string {
    match t
    case Nothing => ""
    case Hexes(g) => g
    case Quads(ps, p) => Dotted(ps) + p
  }

  predicate TailOk(t: Tail) {
    match t
    case Nothing => true
    case Hexes(g) => Group(g)
    case Quads(ps, p) => |ps| == 3 && Octets(ps) && Octet(p)
  }

  function TailBytes(t: Tail): (b: seq<Byte>)
    requires TailOk(t)
  {
    match t
    case Nothing => []
    case Hexes(g) => Word(HexOf(g))
    case Quads(ps, p) => OctetBytes(ps) + [DecOf(p)]
  }

  /** Eight groups' worth of text, or less with one "::". */
  predicate WellFormed(f: Form) {
    && Groups(f.left) && Groups(f.right) && TailOk(f.tail)
    && var n := 2 * |f.left| + 2 * |f.right| + |TailBytes(f.tail)|;
       if f.gap then n <= 14 && (f.tail.Nothing? ==> f.right == []) else n == 16 && f.right == [] && !f.tail.Nothing?
  }

  /** All of the text but the first of two leading colons. */
  function Body(f: Form): string {
    Lead(f.left) + ((if f.gap then ":" + Lead(f.right) else "") + TailText(f.tail))
  }

  function Text(f: Form): string {
    if f.gap && f.left == [] then ":" + Body(f) else Body(f)
  }

  function Meaning(f: Form): seq<Byte>
    requires WellFormed(f)
  {
    var l, r := BytesFrom(f.left), BytesFrom(f.right) + TailBytes(f.tail);
    l + Zeros(16 - |l| - |r|) + r
  }

  ghost predicate IsAddress(s: string) {
    exists f :: WellFormed(f) && Text(f) == s
  }

  // ---- what to look for in a text that was accepted ------------------------------------------------------------

  /** Hexadecimal digits, colons and inner dots only; at most four digits in a row, and at most three beside a dot.  `run`
      digits have just been read, `dot` says that a dot came before them. */
  predicate CleanFrom(s: string, run: nat, dot: bool) {
    if s == "" then true
    else if IsHex(Lower(s[0])) then run < (if dot then 3 else 4) && CleanFrom(s[1..], run + 1, dot)
    else if s[0] == ':' then CleanFrom(s[1..], 0, false)
    else s[0] == '.' && |s| > 1 && run <= 3 && CleanFrom(s[1..], 0, true)
  }

  predicate Clean(s: string) {
    CleanFrom(s, 0, false)
  }

  // ---- every address is accepted, with its meaning ----------------------------------------------------------------

  lemma {:induction false} HexBound(s: string)
    requires HexText(s) && |s| <= 4
    ensures HexOf(s) < (if |s| == 0 then 1 else if |s| == 1 then 16 else if |s| == 2 then 256 else if |s| == 3 then 4096 else 65536)
  {
    if s != "" { HexBound(s[..|s| - 1]); }
  }

  lemma {:induction false} HexSnoc(s: string, c: char)
    requires HexText(s) && IsHex(Lower(c))
    ensures HexText(s + [c]) && HexOf(s + [c]) == HexOf(s) * 16 + HexVal(Lower(c))
  {
    assert (s + [c])[..|s|] == s && (s + [c])[|s|] == c;
  }

  /** Reading the rest of a group. */
  lemma {:induction false} ReadHex(done: string, todo: string, rest: string, cur: string, a: Acc)
    requires HexText(done) && HexText(todo) && |done| + |todo| <= 4 && a.val == HexOf(done) && (a.saw <==> done != "")
    ensures HexText(done + todo)
    ensures Scan6(todo + rest, cur, a) == Scan6(rest, cur, a.(val := HexOf(done + todo), saw := done + todo != ""))
    decreases |todo|
  {
    hide Scan6, HexOf;
    if todo == "" {
      assert done + todo == done && todo + rest == rest;
    } else {
      var next := done + [todo[0]];
      HexSnoc(done, todo[0]);
      HexBound(next);
      assert (todo + rest)[0] == todo[0] && (todo + rest)[1..] == todo[1..] + rest;
      ScanUnfold(todo + rest, todo[1..] + rest, cur, a);
      ReadHex(next, todo[1..], rest, cur, a.(val := HexOf(next), saw := true));
      assert next + todo[1..] == done + todo;
    }
  }

  lemma {:induction false} ReadGroup(g: string, rest: string, cur: string, a: Acc)
    requires Group(g) && a.val == 0 && !a.saw
    ensures Scan6(g + rest, cur, a) == Scan6(rest, cur, a.(val := HexOf(g), saw := true))
  {
    hide Scan6;
    ReadHex("", g, rest, cur, a);
    assert "" + g == g;
  }

  /** Reading groups that colons follow. */
  lemma {:induction false} ReadLead(gs: seq<string>, rest: string, cur: string, a: Acc)
    requires Groups(gs) && rest != "" && a.val == 0 && !a.saw && |a.tp| + 2 * |gs| <= 16
    ensures Scan6(Lead(gs) + rest, cur, a) == Scan6(rest, if gs == [] then cur else rest, a.(tp := a.tp + BytesFrom(gs)))
    decreases |gs|
  {
    hide Scan6, HexOf, Word;
    if gs == [] {
      assert Lead(gs) + rest == rest && a.tp + BytesFrom(gs) == a.tp;
    } else {
      var more := Lead(gs[1..]) + rest;
      assert Lead(gs) + rest == gs[0] + (":" + more);
      ReadGroup(gs[0], ":" + more, cur, a);
      ColonStep(more, cur, a.(val := HexOf(gs[0]), saw := true));
      var b := a.(tp := a.tp + Word(HexOf(gs[0])));
      ReadLead(gs[1..], rest, more, b);
      assert b.tp + BytesFrom(gs[1..]) == a.tp + BytesFrom(gs);
      assert gs[1..] == [] ==> more == rest;
    }
  }

  lemma {:induction false} DecIsHex(s: string)
    requires DecText(s)
    ensures HexText(s)
  {
  }

  /** Reading the rest of an octet. */
  lemma {:induction false} ReadDec(done: string, todo: string, rest: string, bytes: seq<Byte>)
    requires DecText(done) && DecText(todo) && DecText(done + todo) && DecOf(done + todo) < 256 && DecOf(done) < 256 && |bytes| < 4
    ensures Scan4(todo + rest, bytes, DecOf(done), done != "") == Scan4(rest, bytes, DecOf(done + todo), done + todo != "")
    decreases |todo|
  {
    if todo == "" {
      assert done + todo == done && todo + rest == rest;
    } else {
      var next := done + [todo[0]];
      assert next[..|next| - 1] == done && next[|next| - 1] == todo[0];
      assert next + todo[1..] == done + todo;
      DecPrefix(next, todo[1..]);
      assert (todo + rest)[0] == todo[0] && (todo + rest)[1..] == todo[1..] + rest;
      ReadDec(next, todo[1..], rest, bytes);
    }
  }

  lemma {:induction false} DecPrefix(a: string, b: string)
    requires DecText(a) && DecText(b) && DecText(a + b)
    ensures DecOf(a) <= DecOf(a + b)
    decreases |b|
  {
    if b == "" {
      assert a + b == a;
    } else {
      assert (a + b)[..|a + b| - 1] == a + b[..|b| - 1];
      DecPrefix(a, b[..|b| - 1]);
    }
  }

  lemma {:induction false} ReadOctet(p: string, rest: string, bytes: seq<Byte>)
    requires Octet(p) && |bytes| < 4
    ensures Scan4(p + rest, bytes, 0, false) == Scan4(rest, bytes, DecOf(p), true)
  {
    hide Scan4;
    assert "" + p == p;
    ReadDec("", p, rest, bytes);
  }

  lemma {:induction false} ReadDotted(ps: seq<string>, rest: string)
    requires Octets(ps) && |ps| <= 3
    ensures Scan4(Dotted(ps) + rest, [], 0, false) == Scan4(rest, OctetBytes(ps), 0, false)
    decreases |ps|
  {
    hide Scan4, DecOf;
    if ps == [] {
      assert Dotted(ps) + rest == rest;
    } else {
      var n := |ps| - 1;
      assert Dotted(ps) + rest == Dotted(ps[..n]) + (ps[n] + ("." + rest));
      ReadDotted(ps[..n], ps[n] + ("." + rest));
      ReadOctet(ps[n], "." + rest, OctetBytes(ps[..n]));
      Scan4Dot(rest, OctetBytes(ps[..n]), DecOf(ps[n]));
    }
  }

  lemma {:induction false} QuadAccepted(ps: seq<string>, p: string)
    requires |ps| == 3 && Octets(ps) && Octet(p)
    ensures Pton4(Dotted(ps) + p) == Some(OctetBytes(ps) + [DecOf(p)])
  {
    hide Scan4, DecOf;
    ReadDotted(ps, p);
    assert p + "" == p;
    ReadOctet(p, "", OctetBytes(ps));
    Scan4End(OctetBytes(ps), DecOf(p));
  }

  lemma {:induction false} Scan4End(done: seq<Byte>, b: Byte)
    requires |done| == 3
    ensures Scan4("", done, b, true) == Some(done + [b])
  {
    assert (done + [b])[..4] == done + [b];
  }

  /** The end of an address, read from its start. */
  lemma {:induction false} ReadQuad(ps: seq<string>, p: string, a: Acc)
    requires |ps| == 3 && Octets(ps) && Octet(p) && a.val == 0 && !a.saw && |a.tp| + 4 <= 16
    ensures exists v :: Scan6(Dotted(ps) + p, Dotted(ps) + p, a) == Some(Acc(a.tp + (OctetBytes(ps) + [DecOf(p)]), a.colon, v, false))
  {
    hide Scan6, DecOf, Dotted, Scan4, Pton4, OctetBytes, HexOf;
    var q := Dotted(ps) + p;
    QuadAccepted(ps, p);
    var rest := QuadStarts(ps, p);
    DecIsHex(ps[0]);
    ReadGroup(ps[0], "." + rest, q, a);
    DotEnds("." + rest, rest, q, a.(val := HexOf(ps[0]), saw := true));
  }

  lemma QuadStarts(ps: seq<string>, p: string) returns (rest: string)
    requires |ps| == 3 && p != ""
    ensures Dotted(ps) + p == ps[0] + ("." + rest) && rest != ""
  {
    rest := ps[1] + "." + ps[2] + "." + p;
    assert ps[..2][..1] == ps[..1] && ps[..1][..0] == [];
    assert Dotted(ps[..1]) == ps[0] + ".";
    assert Dotted(ps[..2]) == ps[0] + "." + ps[1] + ".";
  }

  /** A dot ends the loop: the whole token has to be a quad. */
  lemma {:induction false} DotEnds(s: string, rest: string, cur: string, a: Acc)
    requires s == "." + rest && rest != ""
    ensures Scan6(s, cur, a) == if |a.tp| + 4 <= 16 && Pton4(cur).Some? then Some(a.(tp := a.tp + Pton4(cur).value, saw := false)) else None
  {
    hide Pton4;
    assert s[1..] == rest;
  }

  /** The bytes an accumulator stands for once its last group is written. */
  function Written(a: Acc): seq<Byte> {
    if a.saw then a.tp + Word(a.val) else a.tp
  }

  lemma {:induction false} ReadTail(t: Tail, a: Acc)
    requires TailOk(t) && a.val == 0 && !a.saw && |a.tp| + |TailBytes(t)| <= 16
    ensures var r := Scan6(TailText(t), TailText(t), a);
            r.Some? && r.value.colon == a.colon && Written(r.value) == a.tp + TailBytes(t)
  {
    hide Scan6, HexOf, DecOf, Dotted, OctetBytes, Word;
    match t
    case Nothing =>
      ScanNothing("", a);
      assert a.tp + TailBytes(t) == a.tp;
    case Hexes(g) =>
      assert g + "" == g;
      ReadGroup(g, "", g, a);
      ScanNothing(g, a.(val := HexOf(g), saw := true));
    case Quads(ps, p) =>
      ReadQuad(ps, p, a);
  }

  lemma FinishGap(a: Acc, l: seq<Byte>, r: seq<Byte>)
    requires Written(a) == l + r && a.colon == |l| && |l| + |r| <= 14
    ensures Finish(a) == Some(l + Zeros(16 - |l| - |r|) + r)
  {
    assert (l + r)[..|l|] == l && (l + r)[|l|..] == r;
  }

  lemma FinishFull(a: Acc)
    requires |Written(a)| == 16 && a.colon < 0
    ensures Finish(a) == Some(Written(a))
  {
  }

  const START := Acc([], -1, 0, false)

  /** Without "::". */
  lemma ReadPlain(f: Form)
    requires WellFormed(f) && !f.gap
    ensures var r := Scan6(Body(f), Body(f), START); r.Some? && Finish(r.value) == Some(Meaning(f))
  {
    hide Scan6, BytesFrom, TailBytes, TailText, Finish, Lead, Written;
    var tail := TailText(f.tail);
    TailThere(f.tail);
    assert Body(f) == Lead(f.left) + tail;
    var l := BytesFrom(f.left);
    ReadLead(f.left, tail, Body(f), START);
    var a := START.(tp := START.tp + l);
    assert a.tp == l;
    ReadTail(f.tail, a);
    var end := Scan6(tail, tail, a).value;
    FinishFull(end);
    NoRight(f);
    assert Meaning(f) == l + TailBytes(f.tail);
  }

  lemma TailThere(t: Tail)
    requires TailOk(t)
    ensures !t.Nothing? ==> TailText(t) != "" && TailText(t)[0] != ':' && 0 < |TailBytes(t)| <= 4
    ensures t.Nothing? ==> TailText(t) == "" && TailBytes(t) == []
  {
    if t.Quads? {
      hide DecOf;
      var rest := QuadStarts(t.first, t.last);
      assert TailText(t)[0] == t.first[0][0];
    }
  }

  lemma NoRight(f: Form)
    requires WellFormed(f) && f.right == []
    ensures BytesFrom(f.right) == [] && Lead(f.right) == ""
  {
  }

  /** From "::" on. */
  lemma {:induction false} ReadGap(f: Form, cur: string, a: Acc)
    requires WellFormed(f) && f.gap && a == START.(tp := BytesFrom(f.left))
    ensures var r := Scan6(":" + Lead(f.right) + TailText(f.tail), cur, a); r.Some? && Finish(r.value) == Some(Meaning(f))
  {
    hide Scan6, BytesFrom, TailBytes, TailText, Finish, Lead, Written;
    var tail := TailText(f.tail);
    TailThere(f.tail);
    var rest := Lead(f.right) + tail;
    assert ":" + Lead(f.right) + tail == ":" + rest;
    DoubleColon(rest, cur, a);
    var b := a.(colon := |a.tp|);
    var c := b.(tp := b.tp + BytesFrom(f.right));
    if f.tail.Nothing? {
      NoRight(f);
      assert rest == tail && c == b;
    } else {
      ReadLead(f.right, tail, rest, b);
      if f.right == [] { NoRight(f); assert rest == tail; }
    }
    ReadTail(f.tail, c);
    assert c.tp + TailBytes(f.tail) == BytesFrom(f.left) + (BytesFrom(f.right) + TailBytes(f.tail));
    FinishGap(Scan6(tail, tail, c).value, BytesFrom(f.left), BytesFrom(f.right) + TailBytes(f.tail));
  }

  lemma ReadBody(f: Form)
    requires WellFormed(f)
    ensures var r := Scan6(Body(f), Body(f), START); r.Some? && Finish(r.value) == Some(Meaning(f))
  {
    hide Scan6, BytesFrom, TailBytes, TailText, Finish, Lead, Meaning;
    if !f.gap {
      ReadPlain(f);
    } else {
      var rest := ":" + Lead(f.right) + TailText(f.tail);
      assert Body(f) == Lead(f.left) + rest;
      ReadLead(f.left, rest, Body(f), START);
      assert START.tp + BytesFrom(f.left) == BytesFrom(f.left);
      ReadGap(f, if f.left == [] then Body(f) else rest, START.(tp := BytesFrom(f.left)));
    }
  }

  /** A body starts with a colon exactly when the text starts with two. */
  lemma FirstChar(f: Form)
    requires WellFormed(f)
    ensures Body(f) != "" && (Body(f)[0] == ':' <==> f.gap && f.left == [])
  {
    hide TailText, TailBytes;
    TailThere(f.tail);
    if f.left != [] { assert Lead(f.left)[0] == f.left[0][0] && IsHex(Lower(f.left[0][0])); }
  }

  /** Every address is accepted, and means what the parser says. */
  lemma AddressAccepted(f: Form)
    requires WellFormed(f)
    ensures Pton6(Text(f)) == Some(Meaning(f))
  {
    hide Scan6, Body, Finish, Meaning, WellFormed;
    ReadBody(f);
    FirstChar(f);
    if f.gap && f.left == [] {
      assert Text(f)[1..] == Body(f);
    }
  }

  // ---- addresses are clean ---------------------------------------------------------------------------------------

  lemma {:induction false} CleanHex(s: string, rest: string, run: nat, dot: bool)
    requires HexText(s) && run + |s| <= if dot then 3 else 4
    ensures CleanFrom(s + rest, run, dot) == CleanFrom(rest, run + |s|, dot)
    decreases |s|
  {
    if s == "" {
      assert s + rest == rest;
    } else {
      assert (s + rest)[0] == s[0] && (s + rest)[1..] == s[1..] + rest;
      CleanHex(s[1..], rest, run + 1, dot);
    }
  }

  lemma {:induction false} CleanColon(rest: string, run: nat, dot: bool)
    ensures CleanFrom(":" + rest, run, dot) == CleanFrom(rest, 0, false)
  {
    assert (":" + rest)[0] == ':' && (":" + rest)[1..] == rest;
  }

  lemma {:induction false} CleanDot(rest: string, run: nat, dot: bool)
    ensures CleanFrom("." + rest, run, dot) <==> rest != "" && run <= 3 && CleanFrom(rest, 0, true)
  {
    assert ("." + rest)[0] == '.' && ("." + rest)[1..] == rest;
  }

  lemma {:induction false} CleanLead(gs: seq<string>, rest: string)
    requires Groups(gs)
    ensures CleanFrom(Lead(gs) + rest, 0, false) == CleanFrom(rest, 0, false)
    decreases |gs|
  {
    hide CleanFrom;
    if gs == [] {
      assert Lead(gs) + rest == rest;
    } else {
      var more := Lead(gs[1..]) + rest;
      assert Lead(gs) + rest == gs[0] + (":" + more);
      CleanHex(gs[0], ":" + more, 0, false);
      CleanColon(more, |gs[0]|, false);
      CleanLead(gs[1..], rest);
    }
  }

  lemma {:induction false} CleanDotted(ps: seq<string>, rest: string)
    requires Octets(ps) && rest != ""
    ensures CleanFrom(Dotted(ps) + rest, 0, false) == CleanFrom(rest, 0, ps != [])
    decreases |ps|
  {
    hide CleanFrom, DecOf;
    if ps == [] {
      assert Dotted(ps) + rest == rest;
    } else {
      var n := |ps| - 1;
      assert Dotted(ps) + rest == Dotted(ps[..n]) + (ps[n] + ("." + rest));
      CleanDotted(ps[..n], ps[n] + ("." + rest));
      DecIsHex(ps[n]);
      CleanHex(ps[n], "." + rest, 0, ps[..n] != []);
      CleanDot(rest, |ps[n]|, ps[..n] != []);
    }
  }

  lemma CleanTail(t: Tail)
    requires TailOk(t)
    ensures CleanFrom(TailText(t), 0, false)
  {
    match t
    case Nothing =>
    case Hexes(g) =>
      assert g + "" == g;
      CleanHex(g, "", 0, false);
    case Quads(ps, p) =>
      CleanDotted(ps, p);
      DecIsHex(p);
      assert p + "" == p;
      CleanHex(p, "", 0, true);
  }

  lemma AddressClean(f: Form)
    requires WellFormed(f)
    ensures Clean(Text(f))
  {
    hide CleanFrom, TailText;
    CleanTail(f.tail);
    var rest := (if f.gap then ":" + Lead(f.right) else "") + TailText(f.tail);
    if f.gap {
      assert rest == ":" + (Lead(f.right) + TailText(f.tail));
      CleanColon(Lead(f.right) + TailText(f.tail), 0, false);
      CleanLead(f.right, TailText(f.tail));
    } else {
      assert rest == TailText(f.tail);
    }
    CleanLead(f.left, rest);
    CleanColon(Body(f), 0, false);
  }

  // ---- what is clean and accepted is an address ---------------------------------------------------------------------

  /** The text read so far (but for the first of two leading colons): groups, perhaps "::" and more, and a token begun. */
  function Part(left: seq<string>, gap: bool, right: seq<string>, tok: string): string {
    Lead(left) + ((if gap then ":" + Lead(right) else "") + tok)
  }

  lemma {:induction false} LeadSnoc(gs: seq<string>, g: string)
    ensures Lead(gs + [g]) == Lead(gs) + (g + ":")
    decreases |gs|
  {
    if gs == [] {
      assert (gs + [g])[1..] == [];
    } else {
      assert (gs + [g])[0] == gs[0] && (gs + [g])[1..] == gs[1..] + [g];
      LeadSnoc(gs[1..], g);
    }
  }

  lemma {:induction false} BytesSnocG(gs: seq<string>, g: string)
    requires Groups(gs) && Group(g)
    ensures Groups(gs + [g]) && BytesFrom(gs + [g]) == BytesFrom(gs) + Word(HexOf(g))
    decreases |gs|
  {
    hide HexOf, Word;
    var all := gs + [g];
    assert Groups(all) by { forall i | 0 <= i < |all| ensures Group(all[i]) {} }
    if gs == [] {
      assert all[1..] == [];
    } else {
      assert all[0] == gs[0] && all[1..] == gs[1..] + [g];
      BytesSnocG(gs[1..], g);
    }
  }

  /** A token begun inside a quad. */
  ghost predicate InQuad(s: string, ps: seq<string>, tok: string) {
    && Octets(ps) && |ps| <= 3 && DecText(tok) && DecOf(tok) < 256 && |tok| <= 4 && (ps != [] ==> |tok| <= 3)
    && CleanFrom(s, |tok|, ps != []) && Scan4(s, OctetBytes(ps), DecOf(tok), tok != "").Some?
  }

  lemma {:induction false} DecSnoc(s: string, c: char)
    requires DecText(s) && IsDec(c)
    ensures DecText(s + [c]) && DecOf(s + [c]) == DecOf(s) * 10 + (c as int - '0' as int)
  {
    assert (s + [c])[..|s|] == s && (s + [c])[|s|] == c;
  }

  /** One turn of the quad's loop, at a digit. */
  lemma {:induction false} Scan4Digit(s: string, done: seq<Byte>, cur: Byte, saw: bool)
    requires s != "" && IsDec(s[0]) && Scan4(s, done, cur, saw).Some?
    ensures var v := cur * 10 + (s[0] as int - '0' as int); v < 256 && Scan4(s, done, cur, saw) == Scan4(s[1..], done, v, true)
  {
  }

  lemma {:induction false} CleanDigit(s: string, run: nat, dot: bool)
    requires s != "" && IsDec(s[0]) && CleanFrom(s, run, dot)
    ensures run < (if dot then 3 else 4) && CleanFrom(s[1..], run + 1, dot)
  {
  }

  lemma {:induction false} DigitStep(s: string, ps: seq<string>, tok: string)
    requires InQuad(s, ps, tok) && s != "" && IsDec(s[0])
    ensures var next := tok + [s[0]];
            && InQuad(s[1..], ps, next)
            && Scan4(s, OctetBytes(ps), DecOf(tok), tok != "") == Scan4(s[1..], OctetBytes(ps), DecOf(next), next != "")
  {
    hide OctetBytes, Scan4, CleanFrom, DecOf;
    DecSnoc(tok, s[0]);
    Scan4Digit(s, OctetBytes(ps), DecOf(tok), tok != "");
    CleanDigit(s, |tok|, ps != []);
  }

  lemma {:induction false} DotStep(s: string, ps: seq<string>, tok: string)
    requires InQuad(s, ps, tok) && s != "" && !IsDec(s[0])
    ensures s[0] == '.' && InQuad(s[1..], ps + [tok], "")
    ensures Scan4(s, OctetBytes(ps), DecOf(tok), tok != "") == Scan4(s[1..], OctetBytes(ps + [tok]), DecOf(""), false)
  {
    hide DecOf;
    var more := ps + [tok];
    assert more[..|ps|] == ps && more[|ps|] == tok;
    assert Octets(more) by { forall i | 0 <= i < |more| ensures Octet(more[i]) {} }
    DecNone();
  }

  lemma DecNone()
    ensures DecText("") && DecOf("") == 0
  {
  }

  lemma {:induction false} QuadEnds(ps: seq<string>, tok: string)
    requires InQuad("", ps, tok)
    ensures |ps| == 3 && Octet(tok) && Scan4("", OctetBytes(ps), DecOf(tok), tok != "") == Some(OctetBytes(ps) + [DecOf(tok)])
  {
    hide DecOf, OctetBytes;
    var b := OctetBytes(ps) + [DecOf(tok)];
    assert |b| == 4 ==> b[..4] == b;
  }

  lemma {:induction false} DottedSnoc(ps: seq<string>, tok: string, rest: string)
    ensures Dotted(ps + [tok]) + ("" + rest) == Dotted(ps) + (tok + ("." + rest))
  {
    var more := ps + [tok];
    assert more[..|ps|] == ps && more[|ps|] == tok;
  }

  /** The octets behind an accepted quad. */
  lemma {:induction false} OctetsBack(s: string, ps: seq<string>, tok: string) returns (qs: seq<string>, p: string)
    requires InQuad(s, ps, tok)
    ensures |qs| == 3 && Octets(qs) && Octet(p) && Dotted(qs) + p == Dotted(ps) + (tok + s)
    ensures Scan4(s, OctetBytes(ps), DecOf(tok), tok != "") == Some(OctetBytes(qs) + [DecOf(p)])
    decreases |s|
  {
    hide DecOf, OctetBytes, Scan4, CleanFrom, Dotted;
    if s == "" {
      qs, p := ps, tok;
      assert tok + s == tok;
      QuadEnds(ps, tok);
    } else if IsDec(s[0]) {
      DigitStep(s, ps, tok);
      qs, p := OctetsBack(s[1..], ps, tok + [s[0]]);
      assert tok + [s[0]] + s[1..] == tok + s;
    } else {
      DotStep(s, ps, tok);
      qs, p := OctetsBack(s[1..], ps + [tok], "");
      DottedSnoc(ps, tok, s[1..]);
      assert "." + s[1..] == s;
    }
  }

  lemma QuadBack(s: string) returns (ps: seq<string>, p: string)
    requires Pton4(s).Some? && CleanFrom(s, 0, false)
    ensures |ps| == 3 && Octets(ps) && Octet(p) && Dotted(ps) + p == s && Pton4(s) == Some(OctetBytes(ps) + [DecOf(p)])
  {
    hide CleanFrom, Scan4;
    DecNone();
    ps, p := OctetsBack(s, [], "");
    assert Dotted([]) + ("" + s) == s;
  }

  /** Where the loop stands: what has been read, and what the accumulator makes of it. */
  ghost predicate Reading(t: string, s: string, a: Acc, left: seq<string>, gap: bool, right: seq<string>, tok: string) {
    && Groups(left) && Groups(right) && (!gap ==> right == []) && HexText(tok) && |tok| <= 4
    && t == Part(left, gap, right, tok) + s
    && a == Acc(BytesFrom(left) + BytesFrom(right), if gap then 2 * |left| else -1, HexOf(tok), tok != "")
    && CleanFrom(s, |tok|, false)
    && (s == "" && tok == "" ==> right == [] && (gap || left == []))
    && Scan6(s, tok + s, a).Some? && Finish(Scan6(s, tok + s, a).value).Some?
  }

  ghost predicate Read(t: string, s: string, tok: string, a: Acc, f: Form) {
    WellFormed(f) && Body(f) == t && Scan6(s, tok + s, a).Some? && Finish(Scan6(s, tok + s, a).value) == Some(Meaning(f))
  }

  /** A form all of whose bytes have been written, if they come to an address. */
  lemma Closed(f: Form, a: Acc)
    requires Groups(f.left) && Groups(f.right) && TailOk(f.tail) && (!f.gap ==> f.right == [])
    requires f.tail.Nothing? ==> f.right == [] && (f.gap || f.left == [])
    requires Written(a) == BytesFrom(f.left) + BytesFrom(f.right) + TailBytes(f.tail)
    requires a.colon == (if f.gap then 2 * |f.left| else -1) && Finish(a).Some?
    ensures WellFormed(f) && Finish(a) == Some(Meaning(f))
  {
    hide BytesFrom, TailBytes, Word;
    TailSize(f.tail);
    var l, r := BytesFrom(f.left), BytesFrom(f.right) + TailBytes(f.tail);
    assert Written(a) == l + r;
    if f.gap {
      FinishGap(a, l, r);
    } else {
      FinishFull(a);
      assert Meaning(f) == l + r;
    }
  }

  lemma TailSize(t: Tail)
    requires TailOk(t)
    ensures |TailBytes(t)| == (match t case Nothing => 0 case Hexes(_) => 2 case Quads(_, _) => 4)
  {
  }

  /** The text ends after a group, or right after "::". */
  lemma EndBack(t: string, a: Acc, left: seq<string>, gap: bool, right: seq<string>, tok: string) returns (f: Form)
    requires Reading(t, "", a, left, gap, right, tok)
    ensures Read(t, "", tok, a, f)
  {
    hide BytesFrom, Word, HexOf, Lead, Scan6, Finish, CleanFrom, WellFormed, Meaning;
    f := Form(left, gap, right, if tok == "" then Nothing else Hexes(tok));
    assert tok + "" == tok;
    ScanNothing(tok, a);
    assert Written(a) == BytesFrom(left) + BytesFrom(right) + TailBytes(f.tail);
    Closed(f, a);
    assert Part(left, gap, right, tok) + "" == Part(left, gap, right, tok);
  }

  /** The text goes on with a dot: the rest of it is a quad. */
  lemma DotBack(t: string, s: string, a: Acc, left: seq<string>, gap: bool, right: seq<string>, tok: string) returns (f: Form)
    requires Reading(t, s, a, left, gap, right, tok) && s != "" && s[0] == '.'
    ensures Read(t, s, tok, a, f)
  {
    hide BytesFrom, Word, HexOf, Lead, Scan6, Finish, CleanFrom, WellFormed, Meaning, Dotted, OctetBytes, DecOf, Scan4, Pton4;
    var rest := s[1..];
    assert s == "." + rest;
    CleanDot(rest, |tok|, false);
    CleanHex(tok, s, 0, false);
    DotEnds(s, rest, tok + s, a);
    var ps, p := QuadBack(tok + s);
    f := Form(left, gap, right, Quads(ps, p));
    Closed(f, a.(tp := a.tp + Pton4(tok + s).value, saw := false));
    assert Part(left, gap, right, tok) + s == Part(left, gap, right, tok + s);
  }

  /** The text goes on with a digit. */
  lemma HexNext(t: string, s: string, a: Acc, left: seq<string>, gap: bool, right: seq<string>, tok: string)
    requires Reading(t, s, a, left, gap, right, tok) && s != "" && IsHex(Lower(s[0]))
    ensures var next := tok + [s[0]];
            && var b := Acc(a.tp, a.colon, a.val * 16 + HexVal(Lower(s[0])), true);
            && Reading(t, s[1..], b, left, gap, right, next) && Scan6(s, tok + s, a) == Scan6(s[1..], next + s[1..], b)
  {
    hide BytesFrom, Word, Lead, Scan6, Finish, HexOf;
    var next := tok + [s[0]];
    HexSnoc(tok, s[0]);
    assert next + s[1..] == tok + s;
    ScanUnfold(s, s[1..], tok + s, a);
    assert Part(left, gap, right, tok) + s == Part(left, gap, right, next) + s[1..];
  }

  /** The text goes on with the second colon of "::". */
  lemma {:induction false} GapNext(t: string, s: string, a: Acc, left: seq<string>, gap: bool, right: seq<string>, tok: string)
    requires Reading(t, s, a, left, gap, right, tok) && s != "" && s[0] == ':' && tok == ""
    ensures var b := a.(colon := |a.tp|);
            Reading(t, s[1..], b, left, true, [], "") && Scan6(s, tok + s, a) == Scan6(s[1..], "" + s[1..], b)
  {
    hide BytesFrom, Word, Lead, Scan6, Finish, HexOf, CleanFrom, Part;
    var rest := s[1..];
    assert s == ":" + rest && "" + rest == rest;
    ScanUnfold(s, rest, tok + s, a);
    assert a.colon < 0;
    CleanColon(rest, 0, false);
    NoGroups();
    PartGap(left, rest);
  }

  lemma PartGap(left: seq<string>, rest: string)
    ensures Part(left, false, [], "") + (":" + rest) == Part(left, true, [], "") + rest
  {
    hide Lead;
    NoGroups();
  }

  lemma NoGroups()
    ensures Lead([]) == "" && BytesFrom([]) == [] && HexOf("") == 0
  {
  }

  /** A group that a colon follows, put with those before it. */
  lemma PartSnoc(left: seq<string>, gap: bool, right: seq<string>, tok: string, rest: string)
    ensures Part(left, true, right, tok) + (":" + rest) == Part(left, true, right + [tok], "") + rest
    ensures Part(left, false, [], tok) + (":" + rest) == Part(left + [tok], false, [], "") + rest
  {
    hide Lead;
    LeadSnoc(left, tok);
    LeadSnoc(right, tok);
  }

  lemma {:induction false} TpSnoc(tp: seq<Byte>, left: seq<string>, right: seq<string>, tok: string)
    requires Groups(left) && Groups(right) && Group(tok) && tp == BytesFrom(left) + BytesFrom(right)
    ensures Groups(left + [tok]) && Groups(right + [tok]) && tp + Word(HexOf(tok)) == BytesFrom(left) + BytesFrom(right + [tok])
    ensures right == [] ==> tp + Word(HexOf(tok)) == BytesFrom(left + [tok]) + BytesFrom(right)
  {
    hide Word, HexOf, BytesFrom;
    BytesSnocG(left, tok);
    BytesSnocG(right, tok);
    var w := Word(HexOf(tok));
    assert tp + w == BytesFrom(left) + (BytesFrom(right) + w);
    if right == [] {
      NoGroups();
      assert tp + w == BytesFrom(left) + w + [];
    }
  }

  /** The text goes on with the colon after a group. */
  lemma {:induction false} ColonNext(t: string, s: string, a: Acc, left: seq<string>, gap: bool, right: seq<string>, tok: string)
    requires Reading(t, s, a, left, gap, right, tok) && s != "" && s[0] == ':' && tok != ""
    ensures var b := Acc(a.tp + Word(a.val), a.colon, 0, false);
            && (if gap then Reading(t, s[1..], b, left, gap, right + [tok], "") else Reading(t, s[1..], b, left + [tok], gap, right, ""))
            && Scan6(s, tok + s, a) == Scan6(s[1..], "" + s[1..], b)
  {
    hide BytesFrom, Word, Lead, Scan6, Finish, HexOf, Part, CleanFrom;
    var rest := s[1..];
    assert s == ":" + rest && "" + rest == rest;
    ScanUnfold(s, rest, tok + s, a);
    CleanColon(rest, |tok|, false);
    NoGroups();
    PartSnoc(left, gap, right, tok, rest);
    TpSnoc(a.tp, left, right, tok);
  }

  /** What is left of a text that is clean and accepted, read back into a form. */
  lemma {:induction false} Back(t: string, s: string, a: Acc, left: seq<string>, gap: bool, right: seq<string>, tok: string) returns (f: Form)
    requires Reading(t, s, a, left, gap, right, tok)
    ensures Read(t, s, tok, a, f)
    decreases |s|
  {
    hide Reading, BytesFrom, Word, HexOf, Lead, Scan6, Finish, WellFormed, Meaning, Body;
    if s == "" {
      f := EndBack(t, a, left, gap, right, tok);
    } else if IsHex(Lower(s[0])) {
      HexNext(t, s, a, left, gap, right, tok);
      f := Back(t, s[1..], Acc(a.tp, a.colon, a.val * 16 + HexVal(Lower(s[0])), true), left, gap, right, tok + [s[0]]);
    } else if s[0] == ':' && tok == "" {
      GapNext(t, s, a, left, gap, right, tok);
      f := Back(t, s[1..], a.(colon := |a.tp|), left, true, [], "");
    } else if s[0] == ':' {
      ColonNext(t, s, a, left, gap, right, tok);
      var b := Acc(a.tp + Word(a.val), a.colon, 0, false);
      if gap { f := Back(t, s[1..], b, left, gap, right + [tok], ""); } else { f := Back(t, s[1..], b, left + [tok], gap, right, ""); }
    } else {
      CleanEnds(t, s, a, left, gap, right, tok);
      f := DotBack(t, s, a, left, gap, right, tok);
    }
  }

  lemma CleanEnds(t: string, s: string, a: Acc, left: seq<string>, gap: bool, right: seq<string>, tok: string)
    requires Reading(t, s, a, left, gap, right, tok) && s != "" && !IsHex(Lower(s[0])) && s[0] != ':'
    ensures s[0] == '.'
  {
    hide BytesFrom, Word, HexOf, Lead, Scan6, Finish;
  }

  // ---- the main result --------------------------------------------------------------------------------------------

  /** A clean text that is accepted is an address, with the bytes it stands for. */
  lemma CleanIsAddress(s: string) returns (f: Form)
    requires Pton6(s).Some? && Clean(s)
    ensures WellFormed(f) && Text(f) == s && Pton6(s) == Some(Meaning(f))
  {
    hide Scan6, Finish, WellFormed, Meaning, Body, CleanFrom;
    var t := if s != "" && s[0] == ':' then s[1..] else s;
    NoGroups();
    if s != "" && s[0] == ':' {
      assert s == ":" + t;
      CleanColon(t, 0, false);
    }
    assert Part([], false, [], "") + t == t && "" + t == t;
    assert Reading(t, t, START, [], false, [], "") by { NotEmpty(t); }
    f := Back(t, t, START, [], false, [], "");
    FirstChar(f);
  }

  lemma {:induction false} NotEmpty(t: string)
    requires Scan6(t, t, START).Some? && Finish(Scan6(t, t, START).value).Some?
    ensures t != ""
  {
  }

  /** The addresses are the clean ones among the texts that are accepted. */
  lemma AcceptedIffAddress(s: string)
    ensures IsAddress(s) <==> Pton6(s).Some? && Clean(s)
  {
    hide Pton6, Clean, WellFormed, Text, Meaning;
    if IsAddress(s) {
      var f :| WellFormed(f) && Text(f) == s;
      AddressAccepted(f);
      AddressClean(f);
    }
    if Pton6(s).Some? && Clean(s) {
      var f := CleanIsAddress(s);
    }
  }

  /** One turn that a character outside the grammar, or a last dot, does not change. */
  lemma {:induction false} Skipped(s: string, rest: string, cur: string, a: Acc)
    requires s != "" && rest == s[1..] && !IsHex(Lower(s[0])) && Lower(s[0]) != ':' && (Lower(s[0]) == '.' ==> rest == "")
    ensures Scan6(s, cur, a) == Scan6(rest, cur, a)
  {
  }

  lemma {:induction false} AfterGap(rest: string)
    requires rest != ""
    ensures Pton6("::" + rest) == var r := Scan6(rest, rest, START.(colon := 0)); if r.None? then None else Finish(r.value)
  {
    hide Scan6, Finish;
    var s := "::" + rest;
    assert s[0] == ':' && s[1] == ':' && s[1..] == ":" + rest;
    DoubleColon(rest, s[1..], START);
  }

  lemma OneAtEnd(a: Acc)
    requires a == Acc([], 0, 1, true)
    ensures Finish(a) == Some(Zeros(14) + [0, 1])
  {
    var l: seq<Byte>, r: seq<Byte> := [], [0, 1];
    assert Written(a) == l + r;
    FinishGap(a, l, r);
    assert l + Zeros(14) + r == Zeros(14) + r;
  }

  /** What the parser skips: a character that belongs in no address, and a dot at the end. */
  lemma JunkAccepted()
    ensures Pton6("::1%g") == Some(Zeros(14) + [0, 1]) && !IsAddress("::1%g")
    ensures Pton6("::1.") == Some(Zeros(14) + [0, 1]) && !IsAddress("::1.")
  {
    hide Scan6, Finish, Pton6;
    var a, b := START.(colon := 0), Acc([], 0, 1, true);
    assert "::1%g" == "::" + "1%g" && "::1." == "::" + "1.";
    AfterGap("1%g");
    ScanUnfold("1%g", "%g", "1%g", a);
    Skipped("%g", "g", "1%g", b);
    Skipped("g", "", "1%g", b);
    ScanNothing("1%g", b);
    AfterGap("1.");
    ScanUnfold("1.", ".", "1.", a);
    Skipped(".", "", "1.", b);
    ScanNothing("1.", b);
    OneAtEnd(b);
    AcceptedIffAddress("::1%g");
    AcceptedIffAddress("::1.");
    UncleanJunk();
  }

  lemma UncleanJunk()
    ensures !Clean("::1%g") && !Clean("::1.")
  {
    assert !CleanFrom("%g", 1, false) && !CleanFrom(".", 1, false);
    assert "1%g"[1..] == "%g" && "1."[1..] == ".";
    assert !CleanFrom("1%g", 0, false) && !CleanFrom("1.", 0, false);
    assert "::1%g" == ":" + ":1%g" && "::1." == ":" + ":1." && ":1%g" == ":" + "1%g" && ":1." == ":" + "1.";
    CleanColon(":1%g", 0, false);
    CleanColon("1%g", 0, false);
    CleanColon(":1.", 0, false);
    CleanColon("1.", 0, false);
  }
}
