/** Line assembly of src/linebuf.c in parsed mode: a byte stream is cut at CR/LF into lines, however it arrives. */
module Linebuf {
  const LINEBUF_SIZE := 4096 + 510

  predicate Crlf(c: char) {
    c == '\r' || c == '\n'
  }

  // ---- what the stream says, character by character (section 2.3 of RFC 1459) -----------------------------

  /** The complete non-empty fields so far, and the field not yet ended. */
  datatype Fields = Fields(lines: seq<string>, cur: string)

  function Feed(f: Fields, c: char): Fields {
    if !Crlf(c) then f.(cur := f.cur + [c])
    else if f.cur == "" then f
    else Fields(f.lines + [f.cur], "")
  }

  function FeedAll(f: Fields, s: string): Fields
    decreases |s|
  {
    if s == "" then f else Feed(FeedAll(f, s[..|s| - 1]), s[|s| - 1])
  }

  function FieldsOf(s: string): Fields {
    FeedAll(Fields([], ""), s)
  }

  lemma {:induction false} FeedConcat(f: Fields, a: string, b: string)
    ensures FeedAll(f, a + b) == FeedAll(FeedAll(f, a), b)
    decreases |b|
  {
    if b == "" {
      assert a + b == a;
    } else {
      FeedConcat(f, a, b[..|b| - 1]);
      assert (a + b)[..|a + b| - 1] == a + b[..|b| - 1];
    }
  }

  predicate NoCrlf(s: string) {
    forall i :: 0 <= i < |s| ==> !Crlf(s[i])
  }

  predicate AllCrlf(s: string) {
    forall i :: 0 <= i < |s| ==> Crlf(s[i])
  }

  lemma {:induction false} FeedContent(f: Fields, s: string)
    requires NoCrlf(s)
    ensures FeedAll(f, s) == f.(cur := f.cur + s)
    decreases |s|
  {
    if s != "" {
      var n := |s| - 1;
      FeedContent(f, s[..n]);
      assert f.cur + s == f.cur + s[..n] + [s[n]];
    } else {
      assert f.cur + s == f.cur;
    }
  }

  lemma {:induction false} FeedRun(f: Fields, s: string)
    requires AllCrlf(s) && s != ""
    ensures FeedAll(f, s) == if f.cur == "" then f else Fields(f.lines + [f.cur], "")
    decreases |s|
  {
    var n := |s| - 1;
    if n == 0 {
      assert s[..0] == "";
    } else {
      FeedRun(f, s[..n]);
    }
  }

  function Join(lines: seq<string>): string {
    if lines == [] then "" else Join(lines[..|lines| - 1]) + lines[|lines| - 1]
  }

  function Strip(s: string): string {
    if s == "" then "" else Strip(s[..|s| - 1]) + if Crlf(s[|s| - 1]) then "" else [s[|s| - 1]]
  }

  /** The fields are not empty, hold no CR or LF, and together they are the stream with its CRs and LFs left out. */
  lemma {:induction false} FieldsKeepContent(s: string)
    ensures var f := FieldsOf(s);
            && (forall i :: 0 <= i < |f.lines| ==> f.lines[i] != "" && NoCrlf(f.lines[i])) && NoCrlf(f.cur)
            && Join(f.lines) + f.cur == Strip(s)
  {
    if s != "" {
      var n := |s| - 1;
      FieldsKeepContent(s[..n]);
      var f, g := FieldsOf(s[..n]), FieldsOf(s);
      if !Crlf(s[n]) {
        assert Join(f.lines) + (f.cur + [s[n]]) == Join(f.lines) + f.cur + [s[n]];
      } else if f.cur != "" {
        assert g.lines[..|f.lines|] == f.lines;
        assert Join(g.lines) + "" == Join(f.lines) + f.cur;
      }
    }
  }

  // ---- lines that fit ------------------------------------------------------------------------------------

  /** Bytes of content of the logical line being read, and of the CR/LF run after it so far. */
  datatype Gauge = Gauge(c: nat, r: nat)

  const START := Gauge(0, 0)

  function Measure(g: Gauge, ch: char): Gauge {
    if Crlf(ch) then Gauge(g.c, g.r + 1)
    else if g.r > 0 then Gauge(1, 0)
    else Gauge(g.c + 1, 0)
  }

  function MeasureAll(g: Gauge, s: string): Gauge
    decreases |s|
  {
    if s == "" then g else Measure(MeasureAll(g, s[..|s| - 1]), s[|s| - 1])
  }

  /** A line fits with its run, or fills the buffer exactly, in which case the run may go on for one byte more than fits. */
  predicate Small(g: Gauge) {
    if g.c == LINEBUF_SIZE then g.r <= LINEBUF_SIZE + 1 else g.c + g.r <= LINEBUF_SIZE
  }

  ghost predicate Fits(g: Gauge, s: string) {
    forall k :: 0 <= k <= |s| ==> Small(MeasureAll(g, s[..k]))
  }

  lemma {:induction false} MeasureConcat(g: Gauge, a: string, b: string)
    ensures MeasureAll(g, a + b) == MeasureAll(MeasureAll(g, a), b)
    decreases |b|
  {
    if b == "" {
      assert a + b == a;
    } else {
      MeasureConcat(g, a, b[..|b| - 1]);
      assert (a + b)[..|a + b| - 1] == a + b[..|b| - 1];
    }
  }

  lemma {:induction false} MeasureContent(g: Gauge, s: string)
    requires NoCrlf(s) && s != ""
    ensures MeasureAll(g, s) == Gauge((if g.r > 0 then 0 else g.c) + |s|, 0)
    decreases |s|
  {
    var n := |s| - 1;
    if n == 0 { assert s[..0] == ""; } else { MeasureContent(g, s[..n]); }
  }

  lemma {:induction false} MeasureRun(g: Gauge, s: string)
    requires AllCrlf(s)
    ensures MeasureAll(g, s) == Gauge(g.c, g.r + |s|)
    decreases |s|
  {
    if s != "" { MeasureRun(g, s[..|s| - 1]); }
  }

  lemma {:induction false} FitsSplit(g: Gauge, a: string, b: string)
    requires Fits(g, a + b)
    ensures Fits(g, a) && Fits(MeasureAll(g, a), b) && Small(MeasureAll(g, a))
  {
    hide Small;
    forall k | 0 <= k <= |a| ensures Small(MeasureAll(g, a[..k])) { assert (a + b)[..k] == a[..k]; }
    assert a[..|a|] == a;
    forall k | 0 <= k <= |b| ensures Small(MeasureAll(MeasureAll(g, a), b[..k])) {
      assert (a + b)[..|a| + k] == a + b[..k];
      MeasureConcat(g, a, b[..k]);
    }
  }

  // ---- the scanner --------------------------------------------------------------------------------------------

  ghost predicate CrlfFrom(s: string, lo: nat, hi: nat) {
    hi <= |s| && forall i :: lo <= i < hi ==> Crlf(s[i])
  }

  ghost predicate ContentTo(s: string, hi: nat) {
    hi <= |s| && forall i :: 0 <= i < hi ==> !Crlf(s[i])
  }

  /** Where the first CR or LF is. */
  function ContentLen(s: string): (n: nat)
    ensures ContentTo(s, n) && (n < |s| ==> Crlf(s[n]))
  {
    if s == "" || Crlf(s[0]) then 0 else 1 + ContentLen(s[1..])
  }

  function RunLen(s: string): (n: nat)
    ensures CrlfFrom(s, 0, n) && (n < |s| ==> !Crlf(s[n]))
  {
    if s == "" || !Crlf(s[0]) then 0 else 1 + RunLen(s[1..])
  }

  /** One logical line: content, then a CR/LF run that is cut short only by the end of the data. */
  function PieceLen(s: string): nat {
    ContentLen(s) + RunLen(s[ContentLen(s)..])
  }

  ghost predicate Piece(data: string, c: nat, k: nat) {
    && c <= k <= |data| && ContentTo(data, c) && CrlfFrom(data, c, k)
    && (c == k ==> k == |data|) && (k < |data| ==> !Crlf(data[k]))
  }

  lemma {:induction false} PieceThere(data: string)
    ensures Piece(data, ContentLen(data), PieceLen(data)) && (data != "" ==> PieceLen(data) > 0)
  {
    hide ContentLen, RunLen;
    var c := ContentLen(data);
    var rest := data[c..];
    var n := RunLen(rest);
    forall i | c <= i < c + n ensures Crlf(data[i]) { assert rest[i - c] == data[i]; }
    if c + n < |data| { assert rest[n] == data[c + n]; }
  }

  lemma {:induction false} PieceIs(data: string, c: nat, k: nat)
    requires Piece(data, c, k)
    ensures c == ContentLen(data) && k == PieceLen(data)
  {
    hide ContentLen, RunLen, PieceLen;
    PieceThere(data);
    var d, m := ContentLen(data), PieceLen(data);
    assert (c < |data| ==> Crlf(data[c])) && (d < |data| ==> Crlf(data[d]));
    assert (k < |data| ==> !Crlf(data[k])) && (m < |data| ==> !Crlf(data[m]));
  }

  method SkipCrlf(data: string) returns (k: nat, ghost c: nat)
    ensures Piece(data, c, k) && (data != "" ==> k > 0) && c == ContentLen(data) && k == PieceLen(data)
  {
    hide ContentLen, PieceLen;
    k := 0;
    while k < |data| && !Crlf(data[k])
      invariant 0 <= k <= |data| && ContentTo(data, k)
    {
      k := k + 1;
    }
    c := k;
    while k < |data| && Crlf(data[k])
      invariant c <= k <= |data| && CrlfFrom(data, c, k) && (k == c ==> c == |data| || Crlf(data[c]))
    {
      k := k + 1;
    }
    PieceIs(data, c, k);
  }

  /** Drops trailing CR and LF. */
  method StripEnd(s: string, ghost c: nat) returns (n: nat)
    requires c <= |s| && ContentTo(s, c) && CrlfFrom(s, c, |s|)
    ensures n == c
  {
    n := |s|;
    while n > 0 && Crlf(s[n - 1])
      invariant c <= n <= |s|
    {
      n := n - 1;
    }
  }

  /** What truncation leaves of a trailing CR/LF run: it is overwritten, but still counted. */
  function Blanked(s: string): (r: string)
    ensures |r| == |s|
  {
    if s == "" || !Crlf(s[|s| - 1]) then s else Blanked(s[..|s| - 1]) + "\0"
  }

  method Blank(s: string) returns (r: string)
    ensures r == Blanked(s)
  {
    r := s;
    var n := |s|;
    assert s[..n] == s && r[n..] == "" && Blanked(s) + "" == Blanked(s);
    while n > 0 && Crlf(r[n - 1])
      invariant 0 <= n <= |s| == |r| && r[..n] == s[..n]
      invariant Blanked(s) == Blanked(s[..n]) + r[n..]
    {
      assert r[..n][n - 1] == s[n - 1] && s[..n][..n - 1] == s[..n - 1];
      assert Blanked(s[..n]) == Blanked(s[..n - 1]) + "\0";
      ghost var tail := r[n..];
      r := r[n - 1 := '\0'];
      n := n - 1;
      assert r[n..] == "\0" + tail;
    }
    assert r[..n] + r[n..] == r;
    if n > 0 { assert r[..n][n - 1] == s[n - 1] && s[..n][n - 1] == s[n - 1]; }
  }

  /** How many logical lines the data holds, a last open one included: where content starts after a run, or at all. */
  function Starts(data: string): nat {
    if data == "" then 0
    else
      var n := |data| - 1;
      Starts(data[..n]) + if n == 0 || (Crlf(data[n - 1]) && !Crlf(data[n])) then 1 else 0
  }

  lemma StartsNone()
    ensures Starts("") == 0
  {
  }

  /** Taking the first piece off takes one off the count. */
  lemma {:induction false} PieceStarts(data: string, c: nat, k: nat, n: nat)
    requires Piece(data, c, k) && 0 < k <= n <= |data|
    ensures Starts(data[..n]) == 1 + Starts(data[k..n])
    decreases n
  {
    var s := data[..n];
    assert s[..n - 1] == data[..n - 1];
    if n == k {
      if n > 1 {
        OneStart(data, c, k, n - 1);
      }
      assert data[k..n] == "";
    } else {
      PieceStarts(data, c, k, n - 1);
      var u := data[k..n];
      assert u[..|u| - 1] == data[k..n - 1] && u[|u| - 1] == data[n - 1];
      if n - 1 > k { assert u[|u| - 2] == data[n - 2]; }
    }
  }

  lemma {:induction false} OneStart(data: string, c: nat, k: nat, n: nat)
    requires Piece(data, c, k) && 0 < n <= k
    ensures Starts(data[..n]) == 1
    decreases n
  {
    assert data[..n][..n - 1] == data[..n - 1];
    if n > 1 { OneStart(data, c, k, n - 1); }
  }

  datatype Line = Line(data: string, terminated: bool)

  /** A line with one more piece: its content while the piece fits whole, otherwise all that the buffer takes, closed. */
  function Copied(line: Line, data: string): Line
    requires |line.data| <= LINEBUF_SIZE
  {
    PieceThere(data);
    var c, k := ContentLen(data), PieceLen(data);
    if |line.data| + k <= LINEBUF_SIZE then Line(line.data + data[..c], c < k)
    else Line(line.data + Blanked(data[..LINEBUF_SIZE - |line.data|]), true)
  }

  /** Appends one logical line's worth of data to a line that is not terminated; `used` bytes are consumed. */
  method Copy(line: Line, data: string) returns (r: Line, used: nat)
    requires |line.data| <= LINEBUF_SIZE && data != ""
    ensures line.terminated ==> used == 0 && r == line
    ensures !line.terminated ==> used == PieceLen(data) && r == Copied(line, data)
  {
    hide ContentLen, PieceLen, Blanked;
    if line.terminated {
      return line, 0;
    }
    ghost var c;
    used, c := SkipCrlf(data);
    var avail := LINEBUF_SIZE - |line.data|;
    if used > avail {
      var cut := Blank(data[..avail]);
      return Line(line.data + cut, true), used;
    }
    var piece := data[..used];
    if !Crlf(piece[used - 1]) {
      assert piece == data[..c];
      return Line(line.data + piece, false), used;
    }
    var n := StripEnd(piece, c);
    assert piece[..n] == data[..c];
    return Line(line.data + piece[..n], true), used;
  }

  // ---- the queue ------------------------------------------------------------------------------------------------

  /** What the queued lines hold: the complete non-empty ones, and the last one when it is not terminated. */
  function Held(list: seq<Line>): Fields {
    if list == [] then Fields([], "")
    else
      var n := |list| - 1;
      var f := Held(list[..n]);
      if !list[n].terminated then Fields(f.lines, list[n].data)
      else if list[n].data == "" then Fields(f.lines, "")
      else Fields(f.lines + [list[n].data], "")
  }

  function Total(list: seq<Line>): nat {
    if list == [] then 0 else Total(list[..|list| - 1]) + |list[|list| - 1].data|
  }

  /** Only the last line may be open, and it then holds something. */
  ghost predicate Shaped(list: seq<Line>) {
    && (forall i :: 0 <= i < |list| - 1 ==> list[i].terminated)
    && (forall i :: 0 <= i < |list| ==> |list[i].data| <= LINEBUF_SIZE && (!list[i].terminated ==> list[i].data != ""))
  }

  predicate Open(list: seq<Line>) {
    list != [] && !list[|list| - 1].terminated
  }

  lemma {:induction false} HeldClosed(list: seq<Line>)
    requires Shaped(list) && !Open(list)
    ensures Held(list).cur == ""
  {
  }

  /** The lines before the one being filled, and what that one holds. */
  function Before(list: seq<Line>): seq<Line> {
    if Open(list) then list[..|list| - 1] else list
  }

  function Begun(list: seq<Line>): Line {
    if Open(list) then list[|list| - 1] else Line("", false)
  }

  /** One piece goes to the open line, or to a new one. */
  function Added(list: seq<Line>, data: string): seq<Line>
    requires |Begun(list).data| <= LINEBUF_SIZE
  {
    Before(list) + [Copied(Begun(list), data)]
  }

  /** What op_linebuf_parse makes of a queue. */
  function Parsed(list: seq<Line>, data: string): (l: seq<Line>)
    requires Shaped(list)
    ensures Shaped(l)
    decreases |data|
  {
    if data == "" then list
    else
      AddedShaped(list, data);
      Parsed(Added(list, data), data[PieceLen(data)..])
  }

  lemma {:induction false} AddedShaped(list: seq<Line>, data: string)
    requires Shaped(list) && data != ""
    ensures 0 < PieceLen(data) <= |data|
    ensures Shaped(Added(list, data)) && (PieceLen(data) < |data| ==> !Open(Added(list, data)))
  {
    hide ContentLen, PieceLen, Blanked;
    PieceThere(data);
  }

  lemma {:induction false} HeldAdded(list: seq<Line>, line: Line)
    requires Shaped(list)
    ensures Held(Before(list) + [line]) ==
            if !line.terminated then Fields(Held(list).lines, line.data)
            else Fields(Held(list).lines + (if line.data == "" then [] else [line.data]), "")
    ensures Held(list).cur == Begun(list).data
    ensures Total(Before(list) + [line]) == Total(list) - |Begun(list).data| + |line.data|
  {
    var l := Before(list) + [line];
    assert l[..|l| - 1] == Before(list) && l[|l| - 1] == line;
    if !Open(list) { HeldClosed(list); }
  }

  /** A piece that is added whole is read as the characters it is made of. */
  lemma {:induction false} HeldPiece(list: seq<Line>, data: string)
    requires Shaped(list) && data != ""
    requires var c, k := ContentLen(data), PieceLen(data);
             c <= |data| && Copied(Begun(list), data) == Line(Begun(list).data + data[..c], c < k)
    ensures PieceLen(data) <= |data| && Held(Added(list, data)) == FeedAll(Held(list), data[..PieceLen(data)])
  {
    hide ContentLen, PieceLen, Copied, Held;
    PieceThere(data);
    var c, used, f := ContentLen(data), PieceLen(data), Held(list);
    HeldAdded(list, Copied(Begun(list), data));
    assert data[..used] == data[..c] + data[c..used];
    FeedConcat(f, data[..c], data[c..used]);
    FeedContent(f, data[..c]);
    if c < used { FeedRun(f.(cur := f.cur + data[..c]), data[c..used]); } else { assert data[c..used] == ""; }
  }

  // ---- lines that fit are the fields of the stream, however it is cut ----------------------------------------

  /** The open line is what has been measured of it; behind a closed one there is a run, or nothing at all. */
  predicate Measured(list: seq<Line>, g: Gauge) {
    if Open(list) then g == Gauge(|Begun(list).data|, 0) else g.r > 0 || g == START
  }

  lemma {:induction false} PieceMeasure(g: Gauge, data: string)
    requires data != ""
    ensures var c, k := ContentLen(data), PieceLen(data);
            c <= k <= |data| && MeasureAll(g, data[..k]) == Gauge(if c == 0 then g.c else if g.r > 0 then c else g.c + c, if c == 0 then g.r + k else k - c)
  {
    hide ContentLen, PieceLen, MeasureAll;
    PieceThere(data);
    var c, used := ContentLen(data), PieceLen(data);
    assert data[..used] == data[..c] + data[c..used];
    MeasureConcat(g, data[..c], data[c..used]);
    if c > 0 { MeasureContent(g, data[..c]); } else { assert data[..c] == ""; MeasureRun(g, ""); }
    MeasureRun(MeasureAll(g, data[..c]), data[c..used]);
  }

  /** A piece within the measure is added whole. */
  lemma {:induction false} PieceExact(list: seq<Line>, g: Gauge, data: string)
    requires Shaped(list) && data != "" && Measured(list, g) && PieceLen(data) <= |data|
    requires Small(MeasureAll(g, data[..PieceLen(data)]))
    ensures ContentLen(data) <= |data|
    ensures Copied(Begun(list), data) == Line(Begun(list).data + data[..ContentLen(data)], ContentLen(data) < PieceLen(data))
    ensures Measured(Added(list, data), MeasureAll(g, data[..PieceLen(data)]))
  {
    hide ContentLen, PieceLen, MeasureAll, Blanked;
    PieceThere(data);
    PieceMeasure(g, data);
    NothingBlank(data[..ContentLen(data)]);
  }

  lemma {:induction false} NothingBlank(s: string)
    requires NoCrlf(s)
    ensures Blanked(s) == s
  {
  }

  lemma {:induction false} ParsedFits(list: seq<Line>, g: Gauge, data: string)
    requires Shaped(list) && Measured(list, g) && Fits(g, data)
    ensures Held(Parsed(list, data)) == FeedAll(Held(list), data) && Measured(Parsed(list, data), MeasureAll(g, data))
    decreases |data|
  {
    hide Held, Added, Measured, PieceLen, Fits, Small, ContentLen, Copied;
    if data != "" {
      AddedShaped(list, data);
      var k := PieceLen(data);
      assert data == data[..k] + data[k..];
      FitsSplit(g, data[..k], data[k..]);
      ExactStep(list, g, data);
      ParsedFits(Added(list, data), MeasureAll(g, data[..k]), data[k..]);
      FeedConcat(Held(list), data[..k], data[k..]);
      MeasureConcat(g, data[..k], data[k..]);
    }
  }

  lemma {:induction false} ExactStep(list: seq<Line>, g: Gauge, data: string)
    requires Shaped(list) && data != "" && Measured(list, g) && PieceLen(data) <= |data|
    requires Small(MeasureAll(g, data[..PieceLen(data)]))
    ensures Held(Added(list, data)) == FeedAll(Held(list), data[..PieceLen(data)])
    ensures Measured(Added(list, data), MeasureAll(g, data[..PieceLen(data)]))
  {
    hide Held, Added, Measured, PieceLen, Small, ContentLen, Copied, MeasureAll;
    PieceExact(list, g, data);
    HeldPiece(list, data);
  }

  /** Taking the first line off. */
  lemma {:induction false} HeldFront(list: seq<Line>)
    requires list != [] && (|list| > 1 ==> list[0].terminated)
    ensures Held(list).lines == (if list[0].terminated && list[0].data != "" then [list[0].data] else []) + Held(list[1..]).lines
    ensures |list| > 1 || list[0].terminated ==> Held(list[1..]).cur == Held(list).cur
    ensures Total(list) == |list[0].data| + Total(list[1..])
    decreases |list|
  {
    var n := |list| - 1;
    if n > 0 {
      HeldFront(list[..n]);
      assert list[..n][1..] == list[1..][..n - 1] && list[1..][n - 1] == list[n];
    } else {
      assert list[1..] == [] && list[..0] == [];
    }
  }

  class BufHead {
    var list: seq<Line>
    var len: nat
    var numlines: nat
    ghost var all: seq<Line>        // every line ever started, as it was left
    ghost var taken: seq<string>    // every line given out by Get

    /** The queue is the end of all lines, and lines given out followed by lines queued are the lines there have been. */
    ghost predicate Valid()
      reads this
    {
      && Shaped(all) && Shaped(list) && len == Total(list) && numlines == |list|
      && Open(list) == Open(all) && Begun(list) == Begun(all)
      && taken + Held(list).lines == Held(all).lines
      && (forall i :: 0 <= i < |taken| ==> 0 < |taken[i]| <= LINEBUF_SIZE)
    }

    constructor ()
      ensures Valid() && all == [] && taken == []
    {
      list, len, numlines := [], 0, 0;
      all, taken := [], [];
    }

    /** One turn of parsing: fills the open line or starts a new one. */
    method TakePiece(data: string, fresh': bool) returns (used: nat)
      requires Valid() && data != "" && (fresh' <==> !Open(list))
      modifies this
      ensures Valid() && 0 < used == PieceLen(data) <= |data| && all == Added(old(all), data) && taken == old(taken)
      ensures (used < |data| ==> !Open(list)) && Starts(data) == 1 + Starts(data[used..])
    {
      hide Held, Starts, Total, PieceLen, ContentLen, Copied, Blanked;
      ghost var was := list;
      if fresh' {
        list := list + [Line("", false)];
        numlines := numlines + 1;
      }
      var n := |list| - 1;
      var line;
      line, used := Copy(list[n], data);
      HeldAdded(was, line);
      len := len + |line.data| - |list[n].data|;
      list := list[n := line];
      assert list == Added(was, data);
      AddedShaped(was, data);
      AddedShaped(all, data);
      HeldAdded(all, line);
      all := Added(all, data);
      PieceCounts(data);
    }

    /** Takes all of the data; the count is that of the logical lines begun or gone on with. */
    method Parse(data: string) returns (count: nat)
      requires Valid()
      modifies this
      ensures Valid() && all == Parsed(old(all), data) && taken == old(taken)
      ensures count == Starts(data)
    {
      hide Starts, Held, Total, PieceLen, Added;
      StartsNone();
      count := 0;
      if data == "" {
        return;
      }
      var rest := data;
      if list != [] && !list[|list| - 1].terminated {
        var used := TakePiece(rest, false);
        count := count + 1;
        rest := rest[used..];
      }
      while rest != ""
        invariant Valid() && Parsed(all, rest) == Parsed(old(all), data) && taken == old(taken)
        invariant count + Starts(rest) == Starts(data) && (rest != "" ==> !Open(list))
        decreases |rest|
      {
        var used := TakePiece(rest, true);
        rest := rest[used..];
        count := count + 1;
      }
    }

    method DoneLine()
      requires Valid() && list != [] && list[0].terminated
      modifies this`list, this`len, this`numlines, this`taken
      ensures Valid() && list == old(list)[1..] && taken == old(taken) + if old(list)[0].data == "" then [] else [old(list)[0].data]
    {
      hide Held, Total;
      HeldFront(list);
      len := len - |list[0].data|;
      numlines := numlines - 1;
      taken := taken + if list[0].data == "" then [] else [list[0].data];
      list := list[1..];
    }

    /** The next complete line that is not empty, as much of it as the buffer takes beside a NUL; "" when there is none.  A
        buffer of one byte takes nothing, and then every complete line is dropped. */
    method Get(buflen: nat) returns (line: string)
      requires Valid()
      modifies this
      ensures Valid() && all == old(all)
      ensures buflen == 0 ==> line == "" && taken == old(taken)
      ensures buflen == 1 ==> line == "" && taken == Held(all).lines
      ensures buflen > 1 && line != "" ==>
                |taken| == |old(taken)| + 1 && taken[..|old(taken)|] == old(taken) && line == Cut(taken[|old(taken)|], buflen - 1)
      ensures buflen > 1 && line == "" ==> taken == old(taken) == Held(all).lines
    {
      while true
        invariant Valid() && all == old(all) && (buflen != 1 ==> taken == old(taken))
        decreases |list|
      {
        if list == [] {
          return "";
        }
        var head := list[0];
        if !head.terminated {
          HeldFront(list);
          return "";
        }
        if buflen == 0 {
          return "";
        }
        line := Cut(head.data, buflen - 1);
        DoneLine();
        if line != "" {
          return;
        }
      }
    }

    /** Asks until nothing is returned. */
    method Drain(buflen: nat) returns (lines: seq<string>)
      requires Valid()
      modifies this
      ensures Valid() && all == old(all) && old(taken) <= taken
      ensures buflen <= 1 ==> lines == []
      ensures buflen > 1 ==> taken == Held(all).lines && lines == CutAll(taken[|old(taken)|..], buflen - 1)
    {
      hide Held, Shaped, Total;
      lines := [];
      ghost var was := taken;
      var line := "";
      while true
        invariant Valid() && all == old(all) && was <= taken && lines == CutAll(taken[|was|..], buflen - 1)
        invariant lines == [] || buflen > 1
        decreases |Held(all).lines| - |taken|
      {
        ghost var before := taken;
        line := Get(buflen);
        assert |taken| <= |Held(all).lines|;
        if line == "" {
          break;
        }
        CutNext(was, before, taken, buflen - 1);
        lines := lines + [line];
      }
    }
  }

  /** What fits into n bytes. */
  function Cut(s: string, n: int): string {
    if n <= 0 then "" else if |s| <= n then s else s[..n]
  }

  function CutAll(lines: seq<string>, n: int): seq<string> {
    if lines == [] then [] else CutAll(lines[..|lines| - 1], n) + [Cut(lines[|lines| - 1], n)]
  }

  lemma {:induction false} CutNext(was: seq<string>, before: seq<string>, taken: seq<string>, n: int)
    requires was <= before && |taken| == |before| + 1 && taken[..|before|] == before
    ensures was <= taken && CutAll(taken[|was|..], n) == CutAll(before[|was|..], n) + [Cut(taken[|before|], n)]
  {
    var t := taken[|was|..];
    assert t[..|t| - 1] == before[|was|..] && t[|t| - 1] == taken[|before|];
  }

  lemma {:induction false} NothingTaken(n: int)
    ensures CutAll([], n) == []
  {
  }

  lemma {:induction false} CutLast(before: seq<string>, taken: seq<string>, n: int)
    requires |taken| == |before| + 1 && taken[..|before|] == before
    ensures CutAll(taken, n) == CutAll(before, n) + [Cut(taken[|before|], n)]
  {
    CutNext([], before, taken, n);
    assert taken[0..] == taken && before[0..] == before;
  }

  lemma {:induction false} CutConcat(a: seq<string>, b: seq<string>, n: int)
    ensures CutAll(a + b, n) == CutAll(a, n) + CutAll(b, n)
    decreases |b|
  {
    if b == [] {
      assert a + b == a;
    } else {
      assert (a + b)[..|a + b| - 1] == a + b[..|b| - 1];
      CutConcat(a, b[..|b| - 1], n);
    }
  }

  /** A buffer that holds any line cuts none. */
  lemma {:induction false} NothingCut(lines: seq<string>, n: int)
    requires forall i :: 0 <= i < |lines| ==> |lines[i]| <= n
    ensures (forall i :: 0 <= i < |lines| ==> lines[i] != "") ==> CutAll(lines, n) == lines
  {
    if lines != [] { NothingCut(lines[..|lines| - 1], n); }
  }

  /** Taking the first piece off takes one off the count. */
  lemma {:induction false} PieceCounts(data: string)
    requires data != ""
    ensures PieceLen(data) <= |data| && Starts(data) == 1 + Starts(data[PieceLen(data)..])
  {
    hide Starts, PieceLen;
    PieceThere(data);
    var k := PieceLen(data);
    PieceStarts(data, ContentLen(data), k, |data|);
    assert data[..|data|] == data && data[k..|data|] == data[k..];
  }

  lemma {:induction false} FeedBehind(taken: seq<string>, f: Fields, s: string)
    ensures FeedAll(Fields(taken + f.lines, f.cur), s) == Fields(taken + FeedAll(f, s).lines, FeedAll(f, s).cur)
    decreases |s|
  {
    if s != "" {
      var n := |s| - 1;
      FeedBehind(taken, f, s[..n]);
      var g := FeedAll(f, s[..n]);
      assert taken + (g.lines + [g.cur]) == taken + g.lines + [g.cur];
    }
  }

  // ---- whole sessions --------------------------------------------------------------------------------------------

  datatype Op = Chunk(data: string) | Ask

  function StreamOf(ops: seq<Op>): string {
    if ops == [] then "" else StreamOf(ops[..|ops| - 1]) + if ops[|ops| - 1].Chunk? then ops[|ops| - 1].data else ""
  }

  /** All lines there have been after a session. */
  function LinesOf(ops: seq<Op>): (l: seq<Line>)
    ensures Shaped(l)
  {
    if ops == [] then []
    else
      var l := LinesOf(ops[..|ops| - 1]);
      if ops[|ops| - 1].Chunk? then Parsed(l, ops[|ops| - 1].data) else l
  }

  /** When the stream fits, the lines are its fields, for any cut of it into calls. */
  lemma {:induction false} LinesFit(ops: seq<Op>)
    requires Fits(START, StreamOf(ops))
    ensures Held(LinesOf(ops)) == FieldsOf(StreamOf(ops)) && Measured(LinesOf(ops), MeasureAll(START, StreamOf(ops)))
    decreases |ops|
  {
    hide Held, Measured, Fits, Shaped, Parsed, Small, Feed;
    if ops == [] {
      NoLines();
    } else {
      var n := |ops| - 1;
      var s := StreamOf(ops[..n]);
      var last := if ops[n].Chunk? then ops[n].data else "";
      FitsSplit(START, s, last);
      LinesFit(ops[..n]);
      if ops[n].Chunk? {
        ParsedFits(LinesOf(ops[..n]), MeasureAll(START, s), last);
        FeedConcat(Fields([], ""), s, last);
        MeasureConcat(START, s, last);
      } else {
        assert s + last == s;
      }
    }
  }

  lemma {:induction false} NoLines()
    ensures Held([]) == Fields([], "") == FieldsOf("") && Measured([], START)
  {
  }

  /** Any interleaving of parsing and asking: the lines given out, and those still to come when asked for until none is left,
      are the complete lines that the chunks make, and those are the complete fields of the stream in order when it fits. */
  method Session(ops: seq<Op>, buflen: nat) returns (early: seq<string>, rest: seq<string>)
    ensures buflen <= 1 ==> early + rest == []
    ensures buflen > 1 ==> early + rest == CutAll(Held(LinesOf(ops)).lines, buflen - 1)
    ensures buflen > LINEBUF_SIZE ==> early + rest == Held(LinesOf(ops)).lines
    ensures Fits(START, StreamOf(ops)) ==> Held(LinesOf(ops)).lines == FieldsOf(StreamOf(ops)).lines
  {
    hide FieldsOf, Held, Fits, Shaped, Total, CutAll, Cut, Parsed, StreamOf, Open, Begun, Measured, MeasureAll;
    if Fits(START, StreamOf(ops)) { LinesFit(ops); }
    NothingTaken(buflen - 1);
    var b := new BufHead();
    early := [];
    for i := 0 to |ops|
      invariant b.Valid() && fresh(b) && b.all == LinesOf(ops[..i])
      invariant if buflen > 1 then early == CutAll(b.taken, buflen - 1) else early == []
    {
      assert ops[..i + 1][..i] == ops[..i];
      match ops[i]
      case Chunk(data) =>
        var count := b.Parse(data);
      case Ask =>
        ghost var before := b.taken;
        var line := b.Get(buflen);
        if line != "" {
          CutLast(before, b.taken, buflen - 1);
          early := early + [line];
        }
    }
    assert ops[..|ops|] == ops;
    ghost var before := b.taken;
    rest := b.Drain(buflen);
    if buflen > 1 {
      CutParts(before, b.taken, buflen - 1);
      if buflen > LINEBUF_SIZE { NothingCut(b.taken, buflen - 1); }
    }
  }

  lemma {:induction false} CutParts(before: seq<string>, taken: seq<string>, n: int)
    requires before <= taken
    ensures CutAll(taken, n) == CutAll(before, n) + CutAll(taken[|before|..], n)
  {
    assert before + taken[|before|..] == taken;
    CutConcat(before, taken[|before|..], n);
  }

  // ---- a stream that does not fit ---------------------------------------------------------------------------------

  /** Lines that are complete stay as they are. */
  lemma {:induction false} LinesStay(list: seq<Line>, data: string)
    requires Shaped(list) && !Open(list)
    ensures Held(list).lines <= Held(Parsed(list, data)).lines
    decreases |data|
  {
    hide Held, Copied, PieceLen, Shaped;
    if data != "" {
      AddedShaped(list, data);
      HeldAdded(list, Copied(Begun(list), data));
      var more := Added(list, data);
      if Open(more) { assert data[PieceLen(data)..] == ""; } else { LinesStay(more, data[PieceLen(data)..]); }
    }
  }

  /** Every field makes a line. */
  lemma {:induction false} AtLeastFields(list: seq<Line>, data: string)
    requires Shaped(list) && !Open(list)
    ensures |Held(Parsed(list, data)).lines| >= |Held(list).lines| + |FieldsOf(data).lines|
    decreases |data|
  {
    hide Held, Copied, PieceLen, Shaped, FieldsOf, Added;
    if data == "" {
      NoLines();
    } else {
      var k := PieceLen(data);
      AddedShaped(list, data);
      PieceFields(data);
      PieceLine(list, data);
      var more := Added(list, data);
      if k < |data| {
        AtLeastFields(more, data[k..]);
      } else {
        assert data[k..] == "";
        NoLines();
      }
    }
  }

  lemma {:induction false} PieceFed(data: string)
    requires data != ""
    ensures var c, k := ContentLen(data), PieceLen(data);
            && c <= k <= |data| && (c == k ==> k == |data|)
            && FieldsOf(data[..k]) == if c == k then Fields([], data[..c]) else Fields(if c == 0 then [] else [data[..c]], "")
  {
    hide ContentLen, PieceLen, FeedAll;
    PieceThere(data);
    var c, k := ContentLen(data), PieceLen(data);
    var none := Fields([], "");
    assert data[..k] == data[..c] + data[c..k] && "" + data[..c] == data[..c];
    FeedConcat(none, data[..c], data[c..k]);
    FeedContent(none, data[..c]);
    if c < k {
      FeedRun(Fields([], data[..c]), data[c..k]);
    } else {
      assert data[..k] == data[..c];
    }
  }

  /** The fields of data, by its first piece. */
  lemma {:induction false} PieceFields(data: string)
    requires data != ""
    ensures var c, k := ContentLen(data), PieceLen(data);
            && c <= k <= |data| && (c == k ==> k == |data|)
            && FieldsOf(data).lines == (if 0 < c < k then [data[..c]] else []) + FieldsOf(data[k..]).lines
  {
    hide ContentLen, PieceLen, FeedAll;
    PieceFed(data);
    var c, k := ContentLen(data), PieceLen(data);
    if c < k {
      var f := FieldsOf(data[..k]);
      assert data == data[..k] + data[k..] && f.lines + [] == f.lines;
      FeedConcat(Fields([], ""), data[..k], data[k..]);
      FeedBehind(f.lines, Fields([], ""), data[k..]);
    } else {
      assert data[..k] == data && data[k..] == "";
      NoLines();
    }
  }

  /** What one piece adds to a closed queue: a line for a field, and a line too when the buffer overflows. */
  lemma {:induction false} PieceLine(list: seq<Line>, data: string)
    requires Shaped(list) && !Open(list) && data != ""
    ensures var c, k, more := ContentLen(data), PieceLen(data), Held(Added(list, data)).lines;
            && (0 < c < k || k > LINEBUF_SIZE ==> more == Held(list).lines + [Copied(Begun(list), data).data])
            && (k > LINEBUF_SIZE ==> |Copied(Begun(list), data).data| == LINEBUF_SIZE)
            && |more| >= |Held(list).lines| && (k > LINEBUF_SIZE ==> !Open(Added(list, data)))
  {
    hide Held, ContentLen, PieceLen, Blanked;
    PieceThere(data);
    HeldAdded(list, Copied(Begun(list), data));
  }

  /** A piece that overflows and does not fill the buffer with content makes a line that is no field. */
  lemma {:induction false} BadPiece(list: seq<Line>, data: string)
    requires Shaped(list) && !Open(list) && PieceLen(data) > LINEBUF_SIZE && ContentLen(data) != LINEBUF_SIZE && data != ""
    ensures Held(Parsed(list, data)).lines != Held(list).lines + FieldsOf(data).lines
  {
    hide Held, ContentLen, PieceLen, Copied, FieldsOf;
    AddedShaped(list, data);
    PieceFields(data);
    PieceLine(list, data);
    var c, k, more := ContentLen(data), PieceLen(data), Added(list, data);
    var rest, n := data[k..], |Held(list).lines|;
    if 0 < c < k {
      LinesStay(more, rest);
      assert Held(Parsed(list, data)).lines[n] == Held(more).lines[n];
      assert (Held(list).lines + FieldsOf(data).lines)[n] == data[..c];
    } else {
      AtLeastFields(more, rest);
    }
  }

  /** Where the line being read began. */
  lemma {:induction false} LineStart(s: string) returns (p: nat)
    ensures var g := MeasureAll(START, s);
            && p + g.c + g.r == |s| && (p > 0 ==> Crlf(s[p - 1]))
            && (forall i :: p <= i < p + g.c ==> !Crlf(s[i])) && CrlfFrom(s, p + g.c, |s|)
    decreases |s|
  {
    if s == "" {
      p := 0;
    } else {
      var n := |s| - 1;
      p := LineStart(s[..n]);
      var g := MeasureAll(START, s[..n]);
      assert forall i :: 0 <= i < n ==> s[..n][i] == s[i];
      if !Crlf(s[n]) && g.r > 0 { p := n; }
    }
  }

  /** The two ways to show it: cut before the line that is too long, or after its first CR or LF. */
  function Halves(s: string, p: nat): seq<Op>
    requires p <= |s|
  {
    [Chunk(s[..p]), Chunk(s[p..])]
  }

  lemma {:induction false} HalvesMeaning(s: string, p: nat)
    requires p <= |s|
    ensures StreamOf(Halves(s, p)) == s && LinesOf(Halves(s, p)) == Parsed(Parsed([], s[..p]), s[p..])
  {
    var ops := Halves(s, p);
    assert ops[..1] == [Chunk(s[..p])] && ops[..1][..0] == [];
    assert StreamOf(ops[..1]) == "" + s[..p];
    assert LinesOf([]) == [] && LinesOf(ops[..1]) == Parsed([], s[..p]);
    assert s[..p] + s[p..] == s;
  }

  /** A cut at the start of a line, or inside a run, behind which the buffer overflows. */
  lemma {:induction false} BadHalves(s: string, p: nat)
    requires p < |s| && Fits(START, s[..p]) && (p > 0 ==> Crlf(s[p - 1]))
    requires PieceLen(s[p..]) > LINEBUF_SIZE && ContentLen(s[p..]) != LINEBUF_SIZE
    ensures Held(LinesOf(Halves(s, p))).lines != FieldsOf(s).lines
  {
    hide Held, ContentLen, PieceLen, Fits, Parsed, FeedAll;
    var a, b := s[..p], s[p..];
    HalvesMeaning(s, p);
    NoLines();
    ParsedFits([], START, a);
    var list := Parsed([], a);
    var f := FieldsOf(a);
    assert Held(list) == f;
    ClosedAfter(a);
    NotOpen(list);
    BadPiece(list, b);
    assert s == a + b;
    FeedConcat(Fields([], ""), a, b);
    FeedBehind(f.lines, Fields([], ""), b);
    assert f.lines + [] == f.lines;
  }

  lemma {:induction false} ClosedAfter(a: string)
    requires a != "" ==> Crlf(a[|a| - 1])
    ensures FieldsOf(a).cur == ""
  {
  }

  lemma {:induction false} NotOpen(list: seq<Line>)
    requires Shaped(list) && Held(list).cur == ""
    ensures !Open(list)
  {
  }

  /** The piece that the measure says is too long, and where to cut. */
  lemma {:induction false} BadCut(s: string, k: nat) returns (p: nat)
    requires k <= |s| && !Small(MeasureAll(START, s[..k])) && forall j :: 0 <= j < k ==> Small(MeasureAll(START, s[..j]))
    ensures p < |s| && Fits(START, s[..p]) && (p > 0 ==> Crlf(s[p - 1]))
    ensures PieceLen(s[p..]) > LINEBUF_SIZE && ContentLen(s[p..]) != LINEBUF_SIZE
  {
    hide MeasureAll, ContentLen, PieceLen;
    var g := MeasureAll(START, s[..k]);
    var start := LineStart(s[..k]);
    p := if g.c == LINEBUF_SIZE then start + g.c + 1 else start;
    assert forall i :: 0 <= i < k ==> s[..k][i] == s[i];
    LongPiece(s, k, start, g, p);
    forall j | 0 <= j <= p ensures Small(MeasureAll(START, s[..p][..j])) { assert s[..p][..j] == s[..j]; }
  }

  /** Content of c and a run of r at the front are part of the first piece. */
  lemma {:induction false} FrontPiece(d: string, c: nat, r: nat)
    requires c + r <= |d| && ContentTo(d, c) && CrlfFrom(d, c, c + r)
    ensures ContentLen(d) >= c && (r > 0 ==> ContentLen(d) == c) && PieceLen(d) >= c + r
  {
    hide ContentLen, PieceLen;
    PieceThere(d);
    var m, k := ContentLen(d), PieceLen(d);
    assert (m < |d| ==> m < k && Crlf(d[m])) && (k < |d| ==> !Crlf(d[k]));
    assert r > 0 ==> Crlf(d[c]);
    assert m >= c;
  }

  lemma {:induction false} LongPiece(s: string, k: nat, start: nat, g: Gauge, p: nat)
    requires k == start + g.c + g.r <= |s| && !Small(g)
    requires (forall i :: start <= i < start + g.c ==> !Crlf(s[i])) && CrlfFrom(s, start + g.c, k)
    requires start > 0 ==> Crlf(s[start - 1])
    requires p == if g.c == LINEBUF_SIZE then start + g.c + 1 else start
    ensures p < k && (p > 0 ==> Crlf(s[p - 1])) && PieceLen(s[p..]) > LINEBUF_SIZE && ContentLen(s[p..]) != LINEBUF_SIZE
  {
    hide ContentLen, PieceLen;
    var d := s[p..];
    assert forall i :: 0 <= i < |d| ==> d[i] == s[p + i];
    if g.c == LINEBUF_SIZE { FrontPiece(d, 0, g.r - 1); } else { FrontPiece(d, g.c, g.r); }
  }

  /** For every stream: whatever the cut into calls, the lines are its complete fields if and only if it fits. */
  lemma {:induction false} FieldsIffFits(s: string)
    ensures (forall ops :: StreamOf(ops) == s ==> Held(LinesOf(ops)).lines == FieldsOf(s).lines) <==> Fits(START, s)
  {
    hide Held, LinesOf, StreamOf, FieldsOf, MeasureAll, Small, ContentLen, PieceLen;
    if Fits(START, s) {
      forall ops | StreamOf(ops) == s ensures Held(LinesOf(ops)).lines == FieldsOf(s).lines {
        LinesFit(ops);
      }
    } else {
      var k := FirstMisfit(s);
      var p := BadCut(s, k);
      BadHalves(s, p);
      HalvesMeaning(s, p);
    }
  }

  lemma {:induction false} FirstMisfit(s: string) returns (k: nat)
    requires !Fits(START, s)
    ensures k <= |s| && !Small(MeasureAll(START, s[..k])) && forall j :: 0 <= j < k ==> Small(MeasureAll(START, s[..j]))
  {
    hide MeasureAll, Small;
    var m :| 0 <= m <= |s| && !Small(MeasureAll(START, s[..m]));
    k := 0;
    while Small(MeasureAll(START, s[..k]))
      invariant k <= m && forall j :: 0 <= j < k ==> Small(MeasureAll(START, s[..j]))
      decreases m - k
    {
      k := k + 1;
    }
  }

  function As(n: nat): (s: string)
    ensures |s| == n && NoCrlf(s)
  {
    seq(n, i => 'a')
  }

  lemma {:induction false} OnePiece(list: seq<Line>, data: string, c: nat)
    requires Shaped(list) && data != "" && Piece(data, c, |data|)
    ensures ContentLen(data) == c && PieceLen(data) == |data| && Parsed(list, data) == Added(list, data)
  {
    hide ContentLen, PieceLen, Copied;
    PieceIs(data, c, |data|);
    AddedShaped(list, data);
    assert data[|data|..] == "";
    assert Parsed(Added(list, data), "") == Added(list, data);
  }

  lemma {:induction false} Overlong(data: string, c: nat)
    requires Piece(data, c, |data|) && c > LINEBUF_SIZE
    ensures Parsed([], data) == [Line(data[..LINEBUF_SIZE], true)]
  {
    hide ContentLen, PieceLen, Parsed, Blanked;
    OnePiece([], data, c);
    NothingBlank(data[..LINEBUF_SIZE]);
    assert "" + data[..LINEBUF_SIZE] == data[..LINEBUF_SIZE];
  }

  /** The same overlong line gives one line when it comes in one call, and two when its end comes in a second. */
  lemma {:induction false} LongLineSplits()
    ensures var one, two := [Chunk(As(LINEBUF_SIZE + 2) + "\n")], [Chunk(As(LINEBUF_SIZE + 1)), Chunk("a\n")];
            && StreamOf(one) == StreamOf(two)
            && Held(LinesOf(one)).lines == [As(LINEBUF_SIZE)] && Held(LinesOf(two)).lines == [As(LINEBUF_SIZE), "a"]
  {
    hide Parsed, Held, Copied, ContentLen, PieceLen;
    var n := LINEBUF_SIZE;
    var a, b, rest := As(n + 2) + "\n", As(n + 1), "a\n";
    assert a[..n] == As(n) && b[..n] == As(n) && a == b + rest;
    Overlong(a, n + 2);
    Overlong(b, n + 1);
    var list := [Line(As(n), true)];
    OnePiece(list, rest, 1);
    ShortLine(list, rest);
    OneCall(a);
    OneCall(b);
    var two := [Chunk(b), Chunk(rest)];
    assert two[..1] == [Chunk(b)];
    assert StreamOf(two) == StreamOf([Chunk(b)]) + rest && LinesOf(two) == Parsed(LinesOf([Chunk(b)]), rest);
    HeldOne(As(n));
  }

  lemma {:induction false} OneCall(data: string)
    ensures StreamOf([Chunk(data)]) == data && LinesOf([Chunk(data)]) == Parsed([], data)
  {
    hide Parsed;
    var ops := [Chunk(data)];
    assert ops[..0] == [] && StreamOf([]) == "" && LinesOf([]) == [] && "" + data == data;
  }

  lemma {:induction false} HeldOne(s: string)
    requires s != ""
    ensures Held([Line(s, true)]) == Fields([s], "")
  {
    assert [Line(s, true)][..0] == [];
  }

  lemma {:induction false} ShortLine(list: seq<Line>, data: string)
    requires Shaped(list) && !Open(list) && data == "a\n" && ContentLen(data) == 1 && PieceLen(data) == 2
    ensures Held(Added(list, data)).lines == Held(list).lines + ["a"]
  {
    hide Held, ContentLen, PieceLen, Blanked;
    assert "" + data[..1] == "a";
    HeldAdded(list, Line("a", true));
  }
}
