/** Internet addresses as text, from src/commio.c: what the printers produce and what the parsers accept, as functions. */
module InetSpec {
  import opened Common
  import opened ByteOrder

  // ---- numbers as digits ---------------------------------------------------------------------------------

  const XDIGITS := "0123456789abcdef"

  function Digit(d: nat): char
    requires d < 16
  {
    XDIGITS[d]
  }

  function Lower(c: char): char {
    if 'A' <= c <= 'Z' then c - 'A' + 'a' else c
  }

  predicate IsDec(c: char) {
    '0' <= c <= '9'
  }

  predicate IsHex(c: char) {
    '0' <= c <= '9' || 'a' <= c <= 'f'
  }

  function HexVal(c: char): (v: nat)
    requires IsHex(c)
    ensures v < 16
  {
    if IsDec(c) then c as int - '0' as int else c as int - 'a' as int + 10
  }

  lemma DigitVal(d: nat)
    requires d < 16
    ensures var c := Digit(d); IsHex(c) && Lower(c) == c && HexVal(c) == d && (IsDec(c) <==> d < 10) && c != ':' && c != '.'
  {
    var table := "0123456789abcdef";
    assert table[0] == '0' && table[1] == '1' && table[2] == '2' && table[3] == '3' && table[4] == '4';
    assert table[5] == '5' && table[6] == '6' && table[7] == '7' && table[8] == '8' && table[9] == '9';
    assert table[10] == 'a' && table[11] == 'b' && table[12] == 'c' && table[13] == 'd' && table[14] == 'e' && table[15] == 'f';
  }

  /** printf("%x"). */
  function Hex(w: nat): (s: string)
    ensures s != ""
    decreases w
  {
    if w < 16 then [Digit(w)] else Hex(w / 16) + [Digit(w % 16)]
  }

  /** The decimal text of an octet, as IpQuadTab holds it. */
  function Dec(b: nat): (s: string)
    ensures s != ""
    decreases b
  {
    if b < 10 then [Digit(b)] else Dec(b / 10) + [Digit(b % 10)]
  }

  function Quad(q: seq<Byte>): string
    requires |q| == 4
  {
    Dec(q[0]) + "." + (Dec(q[1]) + "." + (Dec(q[2]) + "." + Dec(q[3])))
  }

  // ---- inet_pton4 ------------------------------------------------------------------------------------------

  /** The loop: `done` are the finished octets, `cur` the one being read, `saw` whether it has a digit yet. */
  function Scan4(s: string, done: seq<Byte>, cur: Byte, saw: bool): Option<seq<Byte>>
    decreases |s|
  {
    if s == "" then if |done| + (if saw then 1 else 0) < 4 then None else Some((done + [cur])[..4])
    else if IsDec(s[0]) then
      var n: int := cur * 10 + (s[0] as int - '0' as int);
      if n > 255 || (!saw && |done| >= 4) then None else Scan4(s[1..], done, n, true)
    else if s[0] == '.' && saw then
      if |done| + 1 == 4 then None else Scan4(s[1..], done + [cur], 0, false)
    else None
  }

  function Pton4(s: string): Option<seq<Byte>> {
    Scan4(s, [], 0, false)
  }

  // ---- inet_pton6 ------------------------------------------------------------------------------------------

  /** What the loop has gathered: bytes written, where "::" stood (-1 if nowhere), and the group being read. */
  datatype Acc = Acc(tp: seq<Byte>, colon: int, val: nat, saw: bool)

  function Word(v: nat): (b: seq<Byte>)
    ensures |b| == 2
  {
    [v / 256 % 256, v % 256]
  }

  function Scan6(s: string, cur: string, a: Acc): Option<Acc>
    decreases |s|
  {
    if s == "" then Some(a)
    else
      var ch, rest := Lower(s[0]), s[1..];
      if IsHex(ch) then
        var v := a.val * 16 + HexVal(ch);
        if v > 0xffff then None else Scan6(rest, cur, a.(val := v, saw := true))
      else if ch == ':' then
        if !a.saw then if a.colon >= 0 then None else Scan6(rest, rest, a.(colon := |a.tp|))
        else if rest == "" || |a.tp| + 2 > 16 then None
        else Scan6(rest, rest, a.(tp := a.tp + Word(a.val), val := 0, saw := false))
      else if rest != "" && ch == '.' then
        if |a.tp| + 4 <= 16 && Pton4(cur).Some? then Some(a.(tp := a.tp + Pton4(cur).value, saw := false)) else None
      else Scan6(rest, cur, a)
  }

  /** One turn of the loop. */
  lemma ScanUnfold(s: string, rest: string, cur: string, a: Acc)
    requires s != "" && rest == s[1..]
    ensures Scan6(s, cur, a) ==
            var ch := Lower(s[0]);
            if IsHex(ch) then
              var v := a.val * 16 + HexVal(ch);
              if v > 0xffff then None else Scan6(rest, cur, a.(val := v, saw := true))
            else if ch == ':' then
              if !a.saw then if a.colon >= 0 then None else Scan6(rest, rest, a.(colon := |a.tp|))
              else if rest == "" || |a.tp| + 2 > 16 then None
              else Scan6(rest, rest, a.(tp := a.tp + Word(a.val), val := 0, saw := false))
            else if rest != "" && ch == '.' then
              if |a.tp| + 4 <= 16 && Pton4(cur).Some? then Some(a.(tp := a.tp + Pton4(cur).value, saw := false)) else None
            else Scan6(rest, cur, a)
  {
  }

  lemma {:induction false} ScanNothing(cur: string, a: Acc)
    ensures Scan6("", cur, a) == Some(a)
  {
  }

  /** After the loop: the last group, then the bytes after "::" moved to the end. */
  function Finish(a: Acc): Option<seq<Byte>> {
    if a.saw && |a.tp| + 2 > 16 then None
    else
      var tp := if a.saw then a.tp + Word(a.val) else a.tp;
      if a.colon >= 0 then
        if |tp| >= 16 || a.colon > |tp| then None else Some(tp[..a.colon] + Zeros(16 - |tp|) + tp[a.colon..])
      else if |tp| == 16 then Some(tp)
      else None
  }

  function Pton6(s: string): Option<seq<Byte>> {
    if s != "" && s[0] == ':' && (|s| < 2 || s[1] != ':') then None
    else
      var t := if s != "" && s[0] == ':' then s[1..] else s;
      var r := Scan6(t, t, Acc([], -1, 0, false));
      if r.None? then None else Finish(r.value)
  }

  // ---- inet_ntop6 ------------------------------------------------------------------------------------------

  type Words = w: seq<nat> | |w| == 8 && forall i :: 0 <= i < 8 ==> w[i] < 0x10000 witness [0, 0, 0, 0, 0, 0, 0, 0]

  datatype Run = Run(base: int, len: nat)

  function Better(best: Run, cur: Run): Run {
    if cur.base != -1 && (best.base == -1 || cur.len > best.len) then cur else best
  }

  /** The search for the longest run of zero words, from word i on. */
  function BestFrom(w: Words, i: nat, best: Run, cur: Run): Run
    requires i <= 8
    decreases 8 - i
  {
    if i == 8 then Better(best, cur)
    else if w[i] == 0 then BestFrom(w, i + 1, best, if cur.base == -1 then Run(i, 1) else Run(cur.base, cur.len + 1))
    else BestFrom(w, i + 1, Better(best, cur), Run(-1, cur.len))
  }

  function Best(w: Words): Run {
    var b := BestFrom(w, 0, Run(-1, 0), Run(-1, 0));
    if b.base != -1 && b.len < 2 then Run(-1, b.len) else b
  }

  predicate Embedded(w: Words, r: Run, i: nat) {
    i == 6 && r.base == 0 && (r.len == 6 || (r.len == 5 && w[5] == 0xffff))
  }

  /** The text from word i on. */
  function Emit(w: Words, r: Run, quad: string, i: nat): string
    requires i <= 8
    decreases 8 - i
  {
    if i == 8 then if r.base != -1 && r.base + r.len == 8 then ":" else ""
    else if r.base != -1 && r.base <= i < r.base + r.len then
      (if i == r.base then if i == 0 then "0:" else ":" else "") + Emit(w, r, quad, i + 1)
    else
      (if i != 0 then ":" else "") + if Embedded(w, r, i) then quad else Hex(w[i]) + Emit(w, r, quad, i + 1)
  }

  /** One turn of the writing loop. */
  lemma EmitUnfold(w: Words, r: Run, quad: string, i: nat)
    requires i < 8
    ensures Emit(w, r, quad, i) ==
            if r.base != -1 && r.base <= i < r.base + r.len then
              (if i == r.base then if i == 0 then "0:" else ":" else "") + Emit(w, r, quad, i + 1)
            else
              (if i != 0 then ":" else "") + if Embedded(w, r, i) then quad else Hex(w[i]) + Emit(w, r, quad, i + 1)
  {
    hide Hex;
  }

  function WordsOf(a: seq<Byte>): Words
    requires |a| == 16
  {
    var d: seq<int> := a;
    seq(8, i requires 0 <= i < 8 => d[2 * i] * 256 + d[2 * i + 1])
  }

  function Ntop6(a: seq<Byte>): string
    requires |a| == 16
  {
    var w := WordsOf(a);
    Emit(w, Best(w), Quad(a[12..]), 0)
  }

  // ---- the public pair ----------------------------------------------------------------------------------------

  predicate V4Mapped(a: seq<Byte>)
    requires |a| == 16
  {
    (forall i :: 0 <= i < 10 ==> a[i] == 0) && a[10] == 255 && a[11] == 255
  }

  /** Twelve zero bytes, and the rest read as a number is more than 1. */
  predicate V4Compat(a: seq<Byte>)
    requires |a| == 16
  {
    (forall i :: 0 <= i < 12 ==> a[i] == 0) && !(a[12] == a[13] == a[14] == 0 && a[15] <= 1)
  }

  /** op_inet_ntop for AF_INET6. */
  function Ntop(a: seq<Byte>): string
    requires |a| == 16
  {
    if V4Mapped(a) || V4Compat(a) then Quad(a[12..]) else Ntop6(a)
  }

  const HOSTIPLEN := 53

  /** snprintf into a buffer of HOSTIPLEN bytes. */
  function Truncated(s: string): string {
    if |s| < HOSTIPLEN then s else s[..HOSTIPLEN - 1]
  }

  /** op_inet_pton for AF_INET6. */
  function Pton(s: string): Option<seq<Byte>> {
    if Pton4(s).Some? then Pton6(Truncated("::ffff:" + s)) else Pton6(s)
  }
}

/** Parsing undoes printing. */
module InetRoundTrip {
  import opened Common
  import opened ByteOrder
  import opened InetSpec

  // ---- digits -------------------------------------------------------------------------------------------------

  /** Reading a printed group leaves its value. */
  lemma {:induction false} ScanHex(w: nat, rest: string, cur: string, a: Acc)
    requires w < 0x10000 && a.val == 0
    ensures Scan6(Hex(w) + rest, cur, a) == Scan6(rest, cur, a.(val := w, saw := true))
    decreases w
  {
    if w < 16 {
      DigitVal(w);
      assert (Hex(w) + rest)[1..] == rest;
    } else {
      var d := Digit(w % 16);
      DigitVal(w % 16);
      assert Hex(w) + rest == Hex(w / 16) + ([d] + rest);
      ScanHex(w / 16, [d] + rest, cur, a);
      assert ([d] + rest)[1..] == rest;
    }
  }

  predicate Decimal(s: string) {
    forall i :: 0 <= i < |s| ==> IsDec(s[i])
  }

  lemma {:induction false} DecDigits(b: nat)
    ensures Decimal(Dec(b)) && (b < 10 ==> |Dec(b)| == 1) && (b < 100 ==> |Dec(b)| <= 2) && (b < 1000 ==> |Dec(b)| <= 3)
    decreases b
  {
    if b < 10 {
      DigitVal(b);
    } else {
      DigitVal(b % 10);
      DecDigits(b / 10);
    }
  }

  /** Decimal digits also read as hexadecimal; up to three of them cannot overflow a group. */
  lemma {:induction false} ScanDecimal(s: string, rest: string, cur: string, a: Acc) returns (v: nat)
    requires Decimal(s) && s != "" && |s| <= 3 && (|s| == 3 ==> a.val == 0) && (|s| == 2 ==> a.val < 16) && (|s| == 1 ==> a.val < 256)
    ensures Scan6(s + rest, cur, a) == Scan6(rest, cur, a.(val := v, saw := true))
    decreases |s|
  {
    assert Lower(s[0]) == s[0];
    v := a.val * 16 + HexVal(s[0]);
    assert (s + rest)[1..] == s[1..] + rest;
    if |s| > 1 {
      v := ScanDecimal(s[1..], rest, cur, a.(val := v, saw := true));
    } else {
      assert s[1..] + rest == rest;
    }
  }

  lemma {:induction false} Scan4Dec(b: nat, rest: string, done: seq<Byte>)
    requires b < 256 && |done| < 4
    ensures Scan4(Dec(b) + rest, done, 0, false) == Scan4(rest, done, b, true)
    decreases b
  {
    if b < 10 {
      DigitVal(b);
      assert (Dec(b) + rest)[1..] == rest;
    } else {
      var d := Digit(b % 10);
      DigitVal(b % 10);
      assert Dec(b) + rest == Dec(b / 10) + ([d] + rest);
      Scan4Dec(b / 10, [d] + rest, done);
      assert ([d] + rest)[1..] == rest;
    }
  }

  lemma {:induction false} Scan4Dot(rest: string, done: seq<Byte>, b: Byte)
    requires |done| < 3
    ensures Scan4("." + rest, done, b, true) == Scan4(rest, done + [b], 0, false)
  {
    assert ("." + rest)[1..] == rest;
  }

  lemma {:induction false} OctetStep(b: Byte, rest: string, done: seq<Byte>)
    requires |done| < 3
    ensures Scan4(Dec(b) + "." + rest, done, 0, false) == Scan4(rest, done + [b], 0, false)
  {
    hide Dec, Scan4;
    assert Dec(b) + "." + rest == Dec(b) + ("." + rest);
    Scan4Dec(b, "." + rest, done);
    Scan4Dot(rest, done, b);
  }

  lemma {:induction false} LastOctet(b: Byte, done: seq<Byte>)
    requires |done| == 3
    ensures Scan4(Dec(b), done, 0, false) == Some(done + [b])
  {
    assert Dec(b) + "" == Dec(b);
    Scan4Dec(b, "", done);
    assert (done + [b])[..4] == done + [b];
  }

  /** Dotted quads. */
  lemma QuadRoundTrip(q: seq<Byte>)
    requires |q| == 4
    ensures Pton4(Quad(q)) == Some(q)
  {
    hide Dec, Scan4;
    var s3 := Dec(q[3]);
    var s2 := Dec(q[2]) + "." + s3;
    var s1 := Dec(q[1]) + "." + s2;
    var d0: seq<Byte> := [];
    var d1 := d0 + [q[0]];
    var d2 := d1 + [q[1]];
    var d3 := d2 + [q[2]];
    OctetStep(q[0], s1, d0);
    OctetStep(q[1], s2, d1);
    OctetStep(q[2], s3, d2);
    LastOctet(q[3], d3);
    assert d3 + [q[3]] == q;
  }

  /** A quad at the end of an address. */
  lemma {:induction false} ScanQuad(q: seq<Byte>, a: Acc)
    requires |q| == 4 && |a.tp| <= 12 && a.val == 0
    ensures exists v :: Scan6(Quad(q), Quad(q), a) == Some(Acc(a.tp + q, a.colon, v, false))
  {
    hide Dec, Scan4;
    var s1 := Dec(q[1]) + "." + (Dec(q[2]) + "." + Dec(q[3]));
    assert Quad(q) == Dec(q[0]) + ("." + s1);
    DecDigits(q[0]);
    var v := ScanDecimal(Dec(q[0]), "." + s1, Quad(q), a);
    QuadRoundTrip(q);
    assert ("." + s1)[1..] == s1 && Lower('.') == '.';
    assert Scan6("." + s1, Quad(q), a.(val := v, saw := true)) == Some(Acc(a.tp + q, a.colon, v, false));
  }

  // ---- words and bytes ------------------------------------------------------------------------------------------

  function BytesOf(ws: seq<nat>): (b: seq<Byte>)
    ensures |b| == 2 * |ws|
  {
    if ws == [] then [] else BytesOf(ws[..|ws| - 1]) + Word(ws[|ws| - 1])
  }

  lemma {:induction false} BytesAt(ws: seq<nat>, i: nat)
    requires i < |ws|
    ensures BytesOf(ws)[2 * i] == ws[i] / 256 % 256 && BytesOf(ws)[2 * i + 1] == ws[i] % 256
  {
    if i < |ws| - 1 { BytesAt(ws[..|ws| - 1], i); }
  }

  lemma {:induction false} BytesSnoc(ws: seq<nat>, v: nat)
    ensures BytesOf(ws + [v]) == BytesOf(ws) + Word(v)
  {
    assert (ws + [v])[..|ws|] == ws;
  }

  lemma {:induction false} BytesJoin(a: seq<nat>, b: seq<nat>)
    ensures BytesOf(a + b) == BytesOf(a) + BytesOf(b)
    decreases |b|
  {
    if b == [] {
      assert a + b == a;
    } else {
      var n := |b| - 1;
      BytesJoin(a, b[..n]);
      assert a + b == (a + b[..n]) + [b[n]];
      BytesSnoc(a + b[..n], b[n]);
    }
  }

  lemma {:induction false} ZeroWords(ws: seq<nat>)
    requires forall i :: 0 <= i < |ws| ==> ws[i] == 0
    ensures BytesOf(ws) == Zeros(2 * |ws|)
  {
    if ws != [] {
      ZeroWords(ws[..|ws| - 1]);
      assert Word(0) == [0, 0];
    }
  }

  lemma WordsBack(a: seq<Byte>)
    requires |a| == 16
    ensures BytesOf(WordsOf(a)) == a
  {
    var w := WordsOf(a);
    forall j | 0 <= j < 16 ensures BytesOf(w)[j] == a[j] {
      BytesAt(w, j / 2);
      assert w[j / 2] == a[2 * (j / 2)] as int * 256 + a[2 * (j / 2) + 1];
    }
  }

  // ---- one separator or group ----------------------------------------------------------------------------------------

  lemma {:induction false} ColonStep(rest: string, cur: string, a: Acc)
    requires a.saw && rest != "" && |a.tp| + 2 <= 16
    ensures Scan6(":" + rest, cur, a) == Scan6(rest, rest, a.(tp := a.tp + Word(a.val), val := 0, saw := false))
  {
    assert (":" + rest)[1..] == rest && Lower(':') == ':';
  }

  lemma {:induction false} DoubleColon(rest: string, cur: string, a: Acc)
    requires !a.saw && a.colon < 0
    ensures Scan6(":" + rest, cur, a) == Scan6(rest, rest, a.(colon := |a.tp|))
  {
    assert (":" + rest)[1..] == rest && Lower(':') == ':';
  }

  lemma {:induction false} GroupStep(w: nat, rest: string, cur: string, a: Acc)
    requires a.saw && |a.tp| + 2 <= 16 && w < 0x10000
    ensures Scan6(":" + (Hex(w) + rest), cur, a) == Scan6(rest, Hex(w) + rest, Acc(a.tp + Word(a.val), a.colon, w, true))
  {
    hide Scan6;
    ColonStep(Hex(w) + rest, cur, a);
    ScanHex(w, rest, Hex(w) + rest, a.(tp := a.tp + Word(a.val), val := 0, saw := false));
  }

  predicate ValidRun(w: Words, r: Run) {
    r.base == -1 || (0 <= r.base && 2 <= r.len && r.base + r.len <= 8 && forall i :: r.base <= i < r.base + r.len ==> w[i] == 0)
  }

  // ---- stretches of the text ---------------------------------------------------------------------------------------

  /** Groups from word i on, with no run and no quad ahead. */
  lemma {:induction false} PlainTail(w: Words, r: Run, quad: string, i: nat, cur: string, a: Acc)
    requires 1 <= i <= 8 && (r.base == -1 || r.base + r.len < i) && (i > 6 || !Embedded(w, r, 6))
    requires a.saw && a.val == w[i - 1] && |a.tp| + 2 * (9 - i) <= 16
    ensures Scan6(Emit(w, r, quad, i), cur, a) == Some(Acc(a.tp + BytesOf(w[i - 1..7]), a.colon, w[7], true))
    decreases 8 - i
  {
    hide Scan6, Hex, BytesOf;
    if i == 8 {
      ScanNothing(cur, a);
      NoBytes(w[7..7]);
      assert a.tp + [] == a.tp;
    } else {
      var rest := Emit(w, r, quad, i + 1);
      assert Emit(w, r, quad, i) == ":" + (Hex(w[i]) + rest);
      GroupStep(w[i], rest, cur, a);
      var b := Acc(a.tp + Word(a.val), a.colon, w[i], true);
      PlainTail(w, r, quad, i + 1, Hex(w[i]) + rest, b);
      assert w[i - 1..7] == [w[i - 1]] + w[i..7];
      FirstWord(w[i - 1], w[i..7]);
      assert a.tp + (Word(a.val) + BytesOf(w[i..7])) == b.tp + BytesOf(w[i..7]);
    }
  }

  lemma {:induction false} NoBytes(ws: seq<nat>)
    requires ws == []
    ensures BytesOf(ws) == []
  {
  }

  lemma {:induction false} FirstWord(v: nat, ws: seq<nat>)
    ensures BytesOf([v] + ws) == Word(v) + BytesOf(ws)
  {
    BytesJoin([v], ws);
    assert [v][..0] == [];
    assert BytesOf([v]) == [] + Word(v);
  }

  /** Groups before the run. */
  lemma {:induction false} HeadScan(w: Words, r: Run, quad: string, i: nat, cur: string) returns (cur': string)
    requires ValidRun(w, r) && 1 <= i <= r.base
    ensures Scan6(Emit(w, r, quad, i), cur, Acc(BytesOf(w[..i - 1]), -1, w[i - 1], true))
            == Scan6(Emit(w, r, quad, r.base), cur', Acc(BytesOf(w[..r.base - 1]), -1, w[r.base - 1], true))
    decreases r.base - i
  {
    hide Scan6, Hex, BytesOf;
    if i == r.base {
      cur' := cur;
    } else {
      var rest := Emit(w, r, quad, i + 1);
      GroupStep(w[i], rest, cur, Acc(BytesOf(w[..i - 1]), -1, w[i - 1], true));
      assert w[..i] == w[..i - 1] + [w[i - 1]];
      BytesSnoc(w[..i - 1], w[i - 1]);
      cur' := HeadScan(w, r, quad, i + 1, Hex(w[i]) + rest);
    }
  }

  lemma {:induction false} SkipRun(w: Words, r: Run, quad: string, i: nat)
    requires ValidRun(w, r) && 0 <= r.base < i <= r.base + r.len
    ensures Emit(w, r, quad, i) == Emit(w, r, quad, r.base + r.len)
    decreases r.base + r.len - i
  {
    hide Emit;
    if i < r.base + r.len {
      EmitUnfold(w, r, quad, i);
      SkipRun(w, r, quad, i + 1);
      assert "" + Emit(w, r, quad, i + 1) == Emit(w, r, quad, i + 1);
    }
  }

  /** The second colon and everything after it: `b` words were written before it. */
  lemma AfterRun(w: Words, r: Run, q: seq<Byte>, b: nat, cur: string)
    requires ValidRun(w, r) && r.base >= 0 && r.base <= b < r.base + r.len && b >= 1
    requires |q| == 4 && BytesOf(w[6..]) == q && !Embedded(w, r, 6)
    ensures var s := Scan6(Emit(w, r, Quad(q), r.base + r.len), cur, Acc(BytesOf(w[..b]), -1, 0, false));
            s.Some? && Finish(s.value) == Some(BytesOf(w))
  {
    hide Scan6, Hex, BytesOf, Quad, Finish;
    var e := r.base + r.len;
    var a := Acc(BytesOf(w[..b]), -1, 0, false);
    var a' := a.(colon := 2 * b);
    if e == 8 {
      assert Emit(w, r, Quad(q), 8) == ":" + "";
      DoubleColon("", cur, a);
      ScanNothing("", a');
      FinishEnd(w, b);
    } else {
      var rest := Emit(w, r, Quad(q), e + 1);
      assert Emit(w, r, Quad(q), e) == ":" + (Hex(w[e]) + rest);
      DoubleColon(Hex(w[e]) + rest, cur, a);
      ScanHex(w[e], rest, Hex(w[e]) + rest, a');
      PlainTail(w, r, Quad(q), e + 1, Hex(w[e]) + rest, a'.(val := w[e], saw := true));
      FinishRun(w, b, e);
    }
  }

  lemma {:induction false} FinishEnd(w: Words, b: nat)
    requires b < 8 && forall i :: b <= i < 8 ==> w[i] == 0
    ensures Finish(Acc(BytesOf(w[..b]), 2 * b, 0, false)) == Some(BytesOf(w))
  {
    assert w == w[..b] + w[b..];
    BytesJoin(w[..b], w[b..]);
    ZeroWords(w[b..]);
    var tp := BytesOf(w[..b]);
    assert tp[..2 * b] == tp && tp[2 * b..] == [] && 2 * |w[b..]| == 16 - |tp|;
    assert tp[..2 * b] + Zeros(16 - |tp|) + tp[2 * b..] == tp + Zeros(16 - |tp|);
  }

  lemma {:induction false} FinishRun(w: Words, b: nat, e: nat)
    requires b < e < 8 && forall i :: b <= i < e ==> w[i] == 0
    ensures Finish(Acc(BytesOf(w[..b]) + BytesOf(w[e..7]), 2 * b, w[7], true)) == Some(BytesOf(w))
  {
    hide BytesOf;
    var head, tail := BytesOf(w[..b]), BytesOf(w[e..]);
    assert w[e..] == w[e..7] + [w[7]];
    BytesSnoc(w[e..7], w[7]);
    var tp := head + BytesOf(w[e..7]) + Word(w[7]);
    assert tp == head + tail;
    assert tp[..2 * b] == head && tp[2 * b..] == tail;
    assert w == w[..b] + w[b..e] + w[e..];
    BytesJoin(w[..b] + w[b..e], w[e..]);
    BytesJoin(w[..b], w[b..e]);
    ZeroWords(w[b..e]);
  }

  /** An address whose text has no quad. */
  lemma {:induction false} PlainRoundTrip(w: Words, r: Run, q: seq<Byte>)
    requires ValidRun(w, r) && |q| == 4 && BytesOf(w[6..]) == q && !Embedded(w, r, 6)
    ensures Pton6(Emit(w, r, Quad(q), 0)) == Some(BytesOf(w))
  {
    hide Scan6, Hex, BytesOf, Quad, Finish, Emit;
    var text := Emit(w, r, Quad(q), 0);
    var start := Acc([], -1, 0, false);
    StartsWell(w, r, Quad(q));
    if r.base == 0 {
      LeadingRun(w, r, q, text);
    } else {
      var rest := Emit(w, r, Quad(q), 1);
      FirstGroup(w, r, Quad(q));
      ScanHex(w[0], rest, text, start);
      if r.base == -1 {
        PlainTail(w, r, Quad(q), 1, text, start.(val := w[0], saw := true));
        FinishWhole(w);
      } else {
        NoBytes(w[..0]);
        var cur := HeadScan(w, r, Quad(q), 1, text);
        InnerRun(w, r, q, cur);
      }
    }
  }

  lemma {:induction false} StartsWell(w: Words, r: Run, quad: string)
    requires ValidRun(w, r)
    ensures Emit(w, r, quad, 0) != "" && Emit(w, r, quad, 0)[0] != ':'
  {
    if r.base != 0 { HexStart(w[0]); }
  }

  lemma {:induction false} HexStart(w: nat)
    ensures Hex(w)[0] != ':'
  {
    if w < 16 { DigitVal(w); } else { HexStart(w / 16); }
  }

  lemma {:induction false} FirstGroup(w: Words, r: Run, quad: string)
    requires ValidRun(w, r) && r.base != 0
    ensures Emit(w, r, quad, 0) == Hex(w[0]) + Emit(w, r, quad, 1)
  {
    hide Hex;
    assert "" + (Hex(w[0]) + Emit(w, r, quad, 1)) == Hex(w[0]) + Emit(w, r, quad, 1);
  }

  lemma {:induction false} FinishWhole(w: Words)
    ensures Finish(Acc([] + BytesOf(w[0..7]), -1, w[7], true)) == Some(BytesOf(w))
  {
    assert w == w[..7] + [w[7]];
    BytesSnoc(w[..7], w[7]);
    assert w[0..7] == w[..7];
    assert [] + BytesOf(w[..7]) == BytesOf(w[..7]);
  }

  lemma {:induction false} RunColon(w: Words, r: Run, quad: string)
    requires ValidRun(w, r) && r.base >= 0
    ensures Emit(w, r, quad, r.base) == (if r.base == 0 then "0:" else ":") + Emit(w, r, quad, r.base + r.len)
    ensures Emit(w, r, quad, r.base + r.len) != ""
  {
    SkipRun(w, r, quad, r.base + 1);
  }

  /** A run that does not start the address. */
  lemma InnerRun(w: Words, r: Run, q: seq<Byte>, cur: string)
    requires ValidRun(w, r) && r.base >= 1 && |q| == 4 && BytesOf(w[6..]) == q
    ensures var s := Scan6(Emit(w, r, Quad(q), r.base), cur, Acc(BytesOf(w[..r.base - 1]), -1, w[r.base - 1], true));
            s.Some? && Finish(s.value) == Some(BytesOf(w))
  {
    hide Scan6, Hex, BytesOf, Quad, Finish, Emit;
    var b := r.base;
    RunColon(w, r, Quad(q));
    var rest := Emit(w, r, Quad(q), b + r.len);
    ColonStep(rest, cur, Acc(BytesOf(w[..b - 1]), -1, w[b - 1], true));
    assert w[..b] == w[..b - 1] + [w[b - 1]];
    BytesSnoc(w[..b - 1], w[b - 1]);
    AfterRun(w, r, q, b, rest);
  }

  /** A run at the start: its first word is printed as 0. */
  lemma {:induction false} LeadingRun(w: Words, r: Run, q: seq<Byte>, cur: string)
    requires ValidRun(w, r) && r.base == 0 && |q| == 4 && BytesOf(w[6..]) == q && !Embedded(w, r, 6)
    ensures var s := Scan6(Emit(w, r, Quad(q), 0), cur, Acc([], -1, 0, false));
            s.Some? && Finish(s.value) == Some(BytesOf(w))
  {
    hide Scan6, BytesOf, Quad, Finish, Emit;
    var rest := Emit(w, r, Quad(q), r.len);
    LeadingZero(w, r, Quad(q), cur);
    AfterRun(w, r, q, 1, rest);
  }

  lemma {:induction false} LeadingZero(w: Words, r: Run, quad: string, cur: string)
    requires ValidRun(w, r) && r.base == 0
    ensures var rest := Emit(w, r, quad, r.len);
            Scan6(Emit(w, r, quad, 0), cur, Acc([], -1, 0, false)) == Scan6(rest, rest, Acc(BytesOf(w[..1]), -1, 0, false))
  {
    hide Scan6, Emit;
    RunColon(w, r, quad);
    var rest := Emit(w, r, quad, r.len);
    assert "0:" + rest == Hex(0) + (":" + rest);
    ScanHex(0, ":" + rest, cur, Acc([], -1, 0, false));
    ColonStep(rest, cur, Acc([], -1, 0, true));
    assert w[..1] == [] + [w[0]] && BytesOf([]) == [];
    BytesSnoc([], w[0]);
  }

  // ---- embedded quads -----------------------------------------------------------------------------------------------

  lemma {:induction false} QuadRoundTrip6(w: Words, r: Run, q: seq<Byte>)
    requires ValidRun(w, r) && |q| == 4 && BytesOf(w[6..]) == q && Embedded(w, r, 6)
    ensures Pton6(Emit(w, r, Quad(q), 0)) == Some(BytesOf(w))
  {
    hide Scan6, BytesOf, Quad, Finish, Emit;
    var text := Emit(w, r, Quad(q), 0);
    StartsWell(w, r, Quad(q));
    LeadingZero(w, r, Quad(q), text);
    var a := Acc(BytesOf(w[..1]), 2, 0, false);
    if r.len == 6 {
      QuadNext(w, r, Quad(q));
      DoubleColon(Quad(q), ":" + Quad(q), Acc(BytesOf(w[..1]), -1, 0, false));
      ScanQuad(q, a);
      var v :| Scan6(Quad(q), Quad(q), a) == Some(Acc(a.tp + q, 2, v, false));
      FinishShifted(w, 6, v);
    } else {
      var rest := Emit(w, r, Quad(q), 6);
      var first := Hex(w[5]) + rest;
      MappedNext(w, r, Quad(q));
      QuadThere(q);
      DoubleColon(first, ":" + first, Acc(BytesOf(w[..1]), -1, 0, false));
      ScanHex(w[5], rest, first, a);
      ColonStep(Quad(q), first, a.(val := w[5], saw := true));
      var a' := Acc(a.tp + Word(w[5]), 2, 0, false);
      ScanQuad(q, a');
      var v :| Scan6(Quad(q), Quad(q), a') == Some(Acc(a'.tp + q, 2, v, false));
      FifthWord(w, q);
      assert a'.tp + q == a.tp + BytesOf(w[5..]);
      FinishShifted(w, 5, v);
    }
  }

  lemma {:induction false} QuadNext(w: Words, r: Run, quad: string)
    requires Embedded(w, r, 6)
    ensures Emit(w, r, quad, 6) == ":" + quad
  {
  }

  lemma {:induction false} MappedNext(w: Words, r: Run, quad: string)
    requires ValidRun(w, r) && Embedded(w, r, 6) && r.len == 5
    ensures Emit(w, r, quad, 5) == ":" + (Hex(w[5]) + Emit(w, r, quad, 6)) && Emit(w, r, quad, 6) == ":" + quad
  {
  }

  lemma {:induction false} FinishShifted(w: Words, e: nat, v: nat)
    requires 1 < e < 8 && forall i :: 1 <= i < e ==> w[i] == 0
    ensures Finish(Acc(BytesOf(w[..1]) + BytesOf(w[e..]), 2, v, false)) == Some(BytesOf(w))
  {
    hide BytesOf;
    var head, tail := BytesOf(w[..1]), BytesOf(w[e..]);
    var tp := head + tail;
    assert tp[..2] == head && tp[2..] == tail;
    assert w == w[..1] + w[1..e] + w[e..];
    BytesJoin(w[..1] + w[1..e], w[e..]);
    BytesJoin(w[..1], w[1..e]);
    ZeroWords(w[1..e]);
  }

  lemma FifthWord(w: Words, q: seq<Byte>)
    requires BytesOf(w[6..]) == q
    ensures BytesOf(w[5..]) == Word(w[5]) + q
  {
    hide BytesOf;
    assert w[5..] == [w[5]] + w[6..];
    FirstWord(w[5], w[6..]);
  }

  lemma QuadThere(q: seq<Byte>)
    requires |q| == 4
    ensures Quad(q) != ""
  {
  }

  // ---- the run that is left out ---------------------------------------------------------------------------------------

  predicate ZeroRun(w: Words, b: int, l: int) {
    0 <= b && 1 <= l && b + l <= 8 && forall i :: b <= i < b + l ==> w[i] == 0
  }

  /** r is the first of the longest runs among those that end by n, or there is none. */
  ghost predicate LongestBy(w: Words, r: Run, n: int) {
    if r.base == -1 then forall b, l :: ZeroRun(w, b, l) ==> b + l > n
    else ZeroRun(w, r.base, r.len) && r.base + r.len <= n
         && forall b, l :: ZeroRun(w, b, l) && b + l <= n ==> l < r.len || (l == r.len && b >= r.base)
  }

  /** The run that reaches word i starts at cur.base; nothing does when that is -1. */
  ghost predicate Reaching(w: Words, cur: Run, i: nat) {
    if cur.base == -1 then i == 0 || (i <= 8 && w[i - 1] != 0)
    else cur.base + cur.len == i && ZeroRun(w, cur.base, cur.len) && (cur.base == 0 || w[cur.base - 1] != 0)
  }

  lemma BetterIsLongest(w: Words, best: Run, cur: Run, i: nat)
    requires i <= 8 && Reaching(w, cur, i) && LongestBy(w, best, if cur.base == -1 then i else cur.base)
    ensures LongestBy(w, Better(best, cur), i)
  {
    if cur.base != -1 {
      forall b, l | ZeroRun(w, b, l) && b + l <= i ensures b + l <= cur.base || (b >= cur.base && l <= cur.len) {
      }
    }
  }

  lemma {:induction false} BestFromLongest(w: Words, i: nat, best: Run, cur: Run)
    requires i <= 8 && Reaching(w, cur, i) && LongestBy(w, best, if cur.base == -1 then i else cur.base)
    ensures LongestBy(w, BestFrom(w, i, best, cur), 8)
    decreases 8 - i
  {
    BetterIsLongest(w, best, cur, i);
    if i < 8 {
      if w[i] == 0 {
        BestFromLongest(w, i + 1, best, if cur.base == -1 then Run(i, 1) else Run(cur.base, cur.len + 1));
      } else {
        NoRunEnds(w, Better(best, cur), i);
        BestFromLongest(w, i + 1, Better(best, cur), Run(-1, cur.len));
      }
    }
  }

  lemma NoRunEnds(w: Words, r: Run, i: nat)
    requires i < 8 && w[i] != 0 && LongestBy(w, r, i)
    ensures LongestBy(w, r, i + 1)
  {
    forall b, l | ZeroRun(w, b, l) ensures b + l != i + 1 {
    }
  }

  /** The printer leaves out the first of the longest runs of at least two zero words, as section 2.2 of RFC 4291 allows, and
      nothing when there is none. */
  lemma BestIsLongest(w: Words)
    ensures ValidRun(w, Best(w))
    ensures forall b, l :: ZeroRun(w, b, l) && l >= 2 ==>
              var r := Best(w); r.base != -1 && (l < r.len || (l == r.len && b >= r.base))
  {
    BestFromLongest(w, 0, Run(-1, 0), Run(-1, 0));
  }

  // ---- the round trips ---------------------------------------------------------------------------------------------------

  lemma LastWords(a: seq<Byte>)
    requires |a| == 16
    ensures BytesOf(WordsOf(a)[6..]) == a[12..]
  {
    hide BytesOf;
    var w := WordsOf(a);
    WordsBack(a);
    assert w == w[..6] + w[6..];
    BytesJoin(w[..6], w[6..]);
  }

  /** Every address survives inet_ntop6 and inet_pton6. */
  lemma Ntop6RoundTrip(a: seq<Byte>)
    requires |a| == 16
    ensures Pton6(Ntop6(a)) == Some(a)
  {
    hide BytesOf, Emit, Pton6, Best, Quad;
    var w := WordsOf(a);
    WordsBack(a);
    LastWords(a);
    BestIsLongest(w);
    if Embedded(w, Best(w), 6) {
      QuadRoundTrip6(w, Best(w), a[12..]);
    } else {
      PlainRoundTrip(w, Best(w), a[12..]);
    }
  }

  /** A dotted quad given as an IPv6 address becomes a mapped address. */
  lemma QuadBecomesMapped(q: seq<Byte>)
    requires |q| == 4
    ensures Pton(Quad(q)) == Some(Zeros(10) + [255, 255] + q)
  {
    hide Quad, Scan6, Hex;
    QuadRoundTrip(q);
    QuadThere(q);
    QuadShort(q);
    var text := "::ffff:" + Quad(q);
    var rest := ":" + Quad(q);
    HexFfff();
    assert text[1..] == ":" + (Hex(0xffff) + rest);
    var start := Acc([], -1, 0, false);
    DoubleColon(Hex(0xffff) + rest, text[1..], start);
    ScanHex(0xffff, rest, Hex(0xffff) + rest, start.(colon := 0));
    ColonStep(Quad(q), Hex(0xffff) + rest, Acc([], 0, 0xffff, true));
    var a := Acc([] + Word(0xffff), 0, 0, false);
    ScanQuad(q, a);
    var v :| Scan6(Quad(q), Quad(q), a) == Some(Acc(a.tp + q, 0, v, false));
    assert a.tp + q == [255, 255] + q;
    var tp := [255, 255] + q;
    assert tp[..0] + Zeros(10) + tp[0..] == Zeros(10) + [255, 255] + q;
  }

  lemma QuadShort(q: seq<Byte>)
    requires |q| == 4
    ensures |Quad(q)| <= 15
  {
    hide Dec;
    DecDigits(q[0]);
    DecDigits(q[1]);
    DecDigits(q[2]);
    DecDigits(q[3]);
  }

  lemma HexFfff()
    ensures Hex(0xffff) == "ffff"
  {
    assert Hex(0xf) == "f";
    assert Hex(0xff) == "ff";
    assert Hex(0xfff) == "fff";
  }

  lemma {:induction false} NoColonInQuad(s: string, done: seq<Byte>, cur: Byte, saw: bool, i: nat)
    requires i < |s| && s[i] == ':'
    ensures Scan4(s, done, cur, saw).None?
    decreases |s|
  {
    if i > 0 {
      if IsDec(s[0]) {
        var n: int := cur * 10 + (s[0] as int - '0' as int);
        if n <= 255 { NoColonInQuad(s[1..], done, n, true, i - 1); }
      } else if s[0] == '.' && saw {
        NoColonInQuad(s[1..], done + [cur], 0, false, i - 1);
      }
    }
  }

  lemma EmitHasColon(w: Words, r: Run, quad: string) returns (i: nat)
    requires ValidRun(w, r)
    ensures i < |Emit(w, r, quad, 0)| && Emit(w, r, quad, 0)[i] == ':'
  {
    if r.base == 0 {
      i := 1;
    } else {
      FirstGroup(w, r, quad);
      i := |Hex(w[0])|;
      assert Emit(w, r, quad, 1)[0] == ':';
    }
  }

  /** Printing and parsing an IPv6 address gives it back if and only if it is not IPv4-compatible. */
  lemma RoundTripIff(a: seq<Byte>)
    requires |a| == 16
    ensures Pton(Ntop(a)) == Some(a) <==> !V4Compat(a)
  {
    if V4Mapped(a) || V4Compat(a) {
      QuadBecomesMapped(a[12..]);
      var m := Zeros(10) + [255, 255] + a[12..];
      assert m[10] == 255;
      if V4Mapped(a) { assert m == a; }
    } else {
      OthersRoundTrip(a);
    }
  }

  const COMPAT: seq<Byte> := [0, 0, 0, 0, 0, 0, 0, 0, 0, 0, 0, 0, 1, 2, 3, 4]
  const MAPPED: seq<Byte> := [0, 0, 0, 0, 0, 0, 0, 0, 0, 0, 255, 255, 1, 2, 3, 4]

  /** The IPv4-compatible address ::1.2.3.4 comes back as the mapped ::ffff:1.2.3.4. */
  lemma CompatComesBackMapped()
    ensures Pton(Ntop(COMPAT)) == Some(MAPPED) && MAPPED != COMPAT
  {
    hide Pton, Quad, Ntop6;
    assert V4Compat(COMPAT);
    assert COMPAT[12..] == [1, 2, 3, 4];
    QuadBecomesMapped([1, 2, 3, 4]);
    assert Zeros(10) + [255, 255] + [1, 2, 3, 4] == MAPPED;
    assert MAPPED[10] != COMPAT[10];
  }

  lemma OthersRoundTrip(a: seq<Byte>)
    requires |a| == 16
    ensures Pton(Ntop6(a)) == Some(a)
  {
    hide Emit, Best, Quad, Pton6, Scan4;
    Ntop6RoundTrip(a);
    var w := WordsOf(a);
    BestIsLongest(w);
    var i := EmitHasColon(w, Best(w), Quad(a[12..]));
    NoColonInQuad(Ntop6(a), [], 0, false, i);
  }
}

/** The same work done on buffers. */
module Inet {
  import opened Common
  import opened ByteOrder
  import opened InetSpec

  /** The longest run of zero words, the first of several. */
  method FindBest(w: Words) returns (best: Run)
    ensures best == Best(w)
  {
    best := Run(-1, 0);
    var cur := Run(-1, 0);
    for i := 0 to 8
      invariant BestFrom(w, i, best, cur) == BestFrom(w, 0, Run(-1, 0), Run(-1, 0))
    {
      if w[i] == 0 {
        if cur.base == -1 {
          cur := Run(i, 1);
        } else {
          cur := cur.(len := cur.len + 1);
        }
      } else if cur.base != -1 {
        if best.base == -1 || cur.len > best.len {
          best := cur;
        }
        cur := cur.(base := -1);
      }
    }
    if cur.base != -1 && (best.base == -1 || cur.len > best.len) {
      best := cur;
    }
    if best.base != -1 && best.len < 2 {
      best := best.(base := -1);
    }
  }

  /** What the loop writes for word i; stops after a quad. */
  method PrintWord(w: Words, best: Run, quad: string, i: nat) returns (s: string, stop: bool)
    requires i < 8
    ensures stop ==> s == Emit(w, best, quad, i)
    ensures !stop ==> s + Emit(w, best, quad, i + 1) == Emit(w, best, quad, i)
  {
    hide Hex, Emit;
    EmitUnfold(w, best, quad, i);
    s, stop := "", false;
    if best.base != -1 && best.base <= i < best.base + best.len {
      if i == best.base {
        if i == 0 {
          s := s + "0";
        }
        s := s + ":";
      }
      return;
    }
    if i != 0 {
      s := s + ":";
    }
    if i == 6 && best.base == 0 && (best.len == 6 || (best.len == 5 && w[5] == 0xffff)) {
      return s + quad, true;
    }
    ghost var lead := s;
    s := s + Hex(w[i]);
    assert s + Emit(w, best, quad, i + 1) == lead + (Hex(w[i]) + Emit(w, best, quad, i + 1));
  }

  lemma {:induction false} EmitEnd(w: Words, r: Run, quad: string)
    ensures Emit(w, r, quad, 8) == if r.base != -1 && r.base + r.len == 8 then ":" else ""
  {
  }

  method Print6(a: seq<Byte>) returns (text: string)
    requires |a| == 16
    ensures text == Ntop6(a)
  {
    hide Hex, Quad, Best, Emit;
    var w := WordsOf(a);
    var best := FindBest(w);
    EmitEnd(w, best, Quad(a[12..]));
    var quad := Quad(a[12..]);
    text := "";
    var i := 0;
    while i < 8
      invariant 0 <= i <= 8 && text + Emit(w, best, quad, i) == Emit(w, best, quad, 0)
    {
      var s, stop := PrintWord(w, best, quad, i);
      assert text + (s + Emit(w, best, quad, i + 1)) == text + s + Emit(w, best, quad, i + 1);
      text := text + s;
      if stop {
        return;
      }
      i := i + 1;
    }
    if best.base != -1 && best.base + best.len == 8 {
      text := text + ":";
    }
  }

  /** op_inet_ntop for AF_INET6; nothing when the text and its terminator do not fit. */
  method ToText(a: seq<Byte>, size: nat) returns (r: Option<string>)
    requires |a| == 16
    ensures var quad := V4Mapped(a) || V4Compat(a);
            r == if (if quad then size < 16 else |Ntop(a)| + 1 > size) then None else Some(Ntop(a))
  {
    if V4Mapped(a) || V4Compat(a) {
      return if size < 16 then None else Some(Quad(a[12..]));
    }
    var text := Print6(a);
    return if |text| + 1 > size then None else Some(text);
  }

  /** inet_pton4: the four-byte buffer is never overrun. */
  method Parse4(src: string) returns (r: Option<seq<Byte>>)
    ensures r == Pton4(src) && (r.Some? ==> |r.value| == 4)
  {
    var tmp := new Byte[4](_ => 0);
    var tp, i, octets, saw := 0, 0, 0, false;
    assert tmp[..0] == [];
    while i < |src|
      invariant 0 <= i <= |src| && 0 <= tp < 4 && octets == tp + (if saw then 1 else 0) && (!saw ==> tmp[tp] == 0)
      invariant Scan4(src[i..], tmp[..tp], tmp[tp], saw) == Pton4(src)
    {
      var ch := src[i];
      assert src[i..][0] == ch && src[i..][1..] == src[i + 1..];
      i := i + 1;
      if IsDec(ch) {
        var n: int := tmp[tp] * 10 + (ch as int - '0' as int);
        if n > 255 {
          return None;
        }
        ghost var done := tmp[..tp];
        tmp[tp] := n;
        assert tmp[..tp] == done;
        if !saw {
          octets := octets + 1;
          if octets > 4 {
            return None;
          }
          saw := true;
        }
      } else if ch == '.' && saw {
        if octets == 4 {
          return None;
        }
        ghost var done := tmp[..tp] + [tmp[tp]];
        assert tmp[..tp + 1] == done;
        tp := tp + 1;
        tmp[tp] := 0;
        assert tmp[..tp] == done;
        saw := false;
      } else {
        return None;
      }
    }
    assert src[i..] == "";
    if octets < 4 {
      return None;
    }
    assert (tmp[..tp] + [tmp[tp]])[..4] == tmp[..];
    return Some(tmp[..]);
  }

  /** Moves what follows "::" to the end of the buffer, leaving zeros behind. */
  method ShiftTail(tmp: array<Byte>, colon: nat, tp: nat)
    requires tmp.Length == 16 && colon <= tp < 16 && forall k :: tp <= k < 16 ==> tmp[k] == 0
    modifies tmp
    ensures tmp[..] == old(tmp[..colon]) + Zeros(16 - tp) + old(tmp[colon..tp])
  {
    var n := tp - colon;
    var i := 1;
    while i <= n
      invariant 1 <= i <= n + 1
      invariant forall k :: 0 <= k < tp - (i - 1) ==> tmp[k] == old(tmp[k])
      invariant forall k :: tp - (i - 1) <= k < 16 - (i - 1) ==> tmp[k] == 0
      invariant forall k :: 16 - (i - 1) <= k < 16 ==> tmp[k] == old(tmp[k - (16 - tp)])
    {
      tmp[16 - i] := tmp[colon + n - i];
      tmp[colon + n - i] := 0;
      i := i + 1;
    }
  }

  method PutWord(tmp: array<Byte>, tp: nat, val: nat)
    requires tmp.Length == 16 && tp + 2 <= 16
    modifies tmp
    ensures tmp[..tp + 2] == old(tmp[..tp]) + Word(val) && forall k :: tp + 2 <= k < 16 ==> tmp[k] == old(tmp[k])
  {
    tmp[tp], tmp[tp + 1] := val / 256 % 256, val % 256;
  }

  /** The end of inet_pton6. */
  method Finish6(tmp: array<Byte>, len: nat, colon: int, val: nat, saw: bool) returns (r: Option<seq<Byte>>)
    requires tmp.Length == 16 && len <= 16 && -1 <= colon <= len && forall k :: len <= k < 16 ==> tmp[k] == 0
    modifies tmp
    ensures r == Finish(Acc(old(tmp[..len]), colon, val, saw))
  {
    var tp := len;
    if saw {
      if tp + 2 > 16 {
        return None;
      }
      PutWord(tmp, tp, val);
      tp := tp + 2;
    } else {
      assert tmp[..tp] == old(tmp[..len]);
    }
    ghost var all := tmp[..tp];
    if colon >= 0 {
      if tp == 16 {
        return None;
      }
      assert tmp[..colon] == all[..colon] && tmp[colon..tp] == all[colon..];
      ShiftTail(tmp, colon, tp);
      return Some(tmp[..]);
    }
    if tp != 16 {
      return None;
    }
    assert tmp[..] == all;
    return Some(tmp[..]);
  }

  /** A dotted quad ends the address. */
  method ParseTail(quad: string, tmp: array<Byte>, tp: nat, colon: int, val: nat) returns (r: Option<seq<Byte>>)
    requires tmp.Length == 16 && tp + 4 <= 16 && -1 <= colon <= tp && forall k :: tp <= k < 16 ==> tmp[k] == 0
    modifies tmp
    ensures Pton4(quad).None? ==> r == None
    ensures Pton4(quad).Some? ==> r == Finish(Acc(old(tmp[..tp]) + Pton4(quad).value, colon, val, false))
  {
    hide Finish, Pton4;
    var q := Parse4(quad);
    if q.None? {
      return None;
    }
    var v := q.value;
    tmp[tp], tmp[tp + 1], tmp[tp + 2], tmp[tp + 3] := v[0], v[1], v[2], v[3];
    assert tmp[..tp + 4] == old(tmp[..tp]) + v;
    r := Finish6(tmp, tp + 4, colon, val, false);
  }

  /** inet_pton6: the sixteen-byte buffer is never overrun. */
  method Parse6(text: string) returns (r: Option<seq<Byte>>)
    ensures r == Pton6(text)
  {
    hide Finish, Pton4, Word, Scan6;
    var src := text;
    if src != "" && src[0] == ':' {
      if |src| < 2 || src[1] != ':' {
        return None;
      }
      src := src[1..];
    }
    var tmp := new Byte[16](_ => 0);
    var tp, colon, val, saw, i, cur := 0, -1, 0, false, 0, 0;
    ghost var start := Acc([], -1, 0, false);
    assert tmp[..0] == [] && src[0..] == src;
    while i < |src|
      invariant 0 <= cur <= i <= |src| && 0 <= tp <= 16 && -1 <= colon <= tp && val >= 0
      invariant forall k :: tp <= k < 16 ==> tmp[k] == 0
      invariant Scan6(src[i..], src[cur..], Acc(tmp[..tp], colon, val, saw)) == Scan6(src, src, start)
    {
      var ch := Lower(src[i]);
      ScanUnfold(src[i..], src[i + 1..], src[cur..], Acc(tmp[..tp], colon, val, saw));
      i := i + 1;
      if IsHex(ch) {
        val := val * 16 + HexVal(ch);
        if val > 0xffff {
          return None;
        }
        saw := true;
        continue;
      }
      if ch == ':' {
        cur := i;
        if !saw {
          if colon >= 0 {
            return None;
          }
          colon := tp;
          continue;
        } else if i == |src| {
          return None;
        }
        if tp + 2 > 16 {
          return None;
        }
        PutWord(tmp, tp, val);
        tp, saw, val := tp + 2, false, 0;
        continue;
      }
      if i < |src| && ch == '.' {
        if tp + 4 > 16 {
          return None;
        }
        r := ParseTail(src[cur..], tmp, tp, colon, val);
        return;
      }
    }
    assert src[i..] == "";
    ScanNothing(src[cur..], Acc(tmp[..tp], colon, val, saw));
    r := Finish6(tmp, tp, colon, val, saw);
  }

  /** op_inet_pton for AF_INET6. */
  method FromText(s: string) returns (r: Option<seq<Byte>>)
    ensures r == Pton(s)
  {
    var quad := Parse4(s);
    if quad.Some? {
      r := Parse6(Truncated("::ffff:" + s));
    } else {
      r := Parse6(s);
    }
  }
}
