/** Streaming SHA-256 and SHA-512 of src/crypt.c against the one-shot definition of FIPS 180-4.  The block function is a
    parameter: nothing here depends on what it computes. */
module ShaSpec {
  import Ring
  import opened ByteOrder

  datatype Variant = Sha256 | Sha512

  type Words = seq<nat>
  type Compress = (Words, seq<Byte>) -> Words

  const U32 := 0x1_0000_0000
  const U64 := 0x1_0000_0000_0000_0000
  const U128 := 0x1_0000_0000_0000_0000_0000_0000_0000_0000

  function Block(v: Variant): nat {
    if v.Sha256? then 64 else 128
  }

  function WordBytes(v: Variant): nat {
    if v.Sha256? then 4 else 8
  }

  function Word(v: Variant): (w: nat)
    ensures w > 0
  {
    if v.Sha256? then U32 else U64
  }

  /** The modulus of the two-word byte count. */
  function TwoWords(v: Variant): nat {
    if v.Sha256? then U64 else U128
  }

  /** n & (block - 1). */
  function Low(v: Variant, n: nat): (r: nat)
    ensures r < Block(v) && r <= n
  {
    if v.Sha256? then n % 64 else n % 128
  }

  // ---- the one-shot definition ---------------------------------------------------------------------

  /** Runs the block function over the whole blocks of some data. */
  function Blocks(v: Variant, f: Compress, h: Words, data: seq<Byte>): Words
    decreases |data|
  {
    if |data| < Block(v) then h else Blocks(v, f, f(h, data[..Block(v)]), data[Block(v)..])
  }

  /** Zero bytes between the 0x80 and the length. */
  function ZeroBytes(v: Variant, n: nat): nat {
    var r := Low(v, n);
    var room := Block(v) - 2 * WordBytes(v);
    if r < room then room - 1 - r else Block(v) + room - 1 - r
  }

  /** Sections 5.1.1 and 5.1.2 of FIPS 180-4: the smallest number of zero bytes that leaves room for exactly the length field
      at the end of a block. */
  lemma ZeroBytesLeast(v: Variant, n: nat, k: nat)
    ensures Low(v, n + 1 + ZeroBytes(v, n) + 2 * WordBytes(v)) == 0
    ensures Low(v, n + 1 + k + 2 * WordBytes(v)) == 0 ==> ZeroBytes(v, n) <= k
  {
    match v
    case Sha256 => Least64(n, ZeroBytes(v, n), k);
    case Sha512 => Least128(n, ZeroBytes(v, n), k);
  }

  lemma Least64(n: nat, z: nat, k: nat)
    requires z == if n % 64 < 56 then 55 - n % 64 else 119 - n % 64
    ensures (n + 9 + z) % 64 == 0 && ((n + 9 + k) % 64 == 0 ==> z <= k)
  {
    var q := n / 64;
    assert n == 64 * q + n % 64;
  }

  lemma Least128(n: nat, z: nat, k: nat)
    requires z == if n % 128 < 112 then 111 - n % 128 else 239 - n % 128
    ensures (n + 17 + z) % 128 == 0 && ((n + 17 + k) % 128 == 0 ==> z <= k)
  {
    var q := n / 128;
    assert n == 128 * q + n % 128;
  }

  /** The length field counts bits, as two big-endian words. */
  function Padding(v: Variant, n: nat): seq<Byte> {
    [0x80] + Zeros(ZeroBytes(v, n)) + BigEndian((8 * n) % TwoWords(v), 2 * WordBytes(v))
  }

  function OneShot(v: Variant, f: Compress, init: Words, msg: seq<Byte>): Words {
    Blocks(v, f, init, msg + Padding(v, |msg|))
  }

  // ---- blocks ----------------------------------------------------------------------------------------

  predicate Whole(v: Variant, n: nat) {
    Low(v, n) == 0
  }

  /** Data of whole blocks can be processed on its own. */
  lemma {:induction false} BlocksSplit(v: Variant, f: Compress, h: Words, a: seq<Byte>, b: seq<Byte>)
    requires Whole(v, |a|)
    ensures Blocks(v, f, h, a + b) == Blocks(v, f, Blocks(v, f, h, a), b)
    decreases |a|
  {
    if |a| < Block(v) {
      assert a + b == b;
    } else {
      assert (a + b)[..Block(v)] == a[..Block(v)] && (a + b)[Block(v)..] == a[Block(v)..] + b;
      BlocksSplit(v, f, f(h, a[..Block(v)]), a[Block(v)..], b);
    }
  }

  // ---- the byte count in two words ---------------------------------------------------------------------

  /** total[0] += len with the carry test of the code. */
  function Added(v: Variant, t0: nat, t1: nat, len: nat): (nat, nat) {
    var low := (t0 + len) % Word(v);
    (low, if low < len then (t1 + 1) % Word(v) else t1)
  }

  function Count(v: Variant, t0: nat, t1: nat): nat {
    t0 + t1 * Word(v)
  }

  predicate TotalOk(v: Variant, t0: nat, t1: nat) {
    t0 < Word(v) && t1 < Word(v)
  }

  lemma AddedWord(v: Variant, t0: nat, t1: nat, len: nat)
    requires TotalOk(v, t0, t1) && len < Word(v)
    ensures var (a, b) := Added(v, t0, t1, len); TotalOk(v, a, b) && Count(v, a, b) == (Count(v, t0, t1) + len) % TwoWords(v)
  {
    match v
    case Sha256 => Added32(t0, t1, len);
    case Sha512 => Added64(t0, t1, len);
  }

  lemma Added32(t0: nat, t1: nat, len: nat)
    requires t0 < U32 && t1 < U32 && len < U32
    ensures var (a, b) := Added(Sha256, t0, t1, len); a < U32 && b < U32 && a + b * U32 == (t0 + t1 * U32 + len) % U64
  {
    WrapOnce(t0 + len, U32);
    WrapOnce(t1 + 1, U32);
    WrapOnce(t0 + t1 * U32 + len, U64);
  }

  lemma Added64(t0: nat, t1: nat, len: nat)
    requires t0 < U64 && t1 < U64 && len < U64
    ensures var (a, b) := Added(Sha512, t0, t1, len); a < U64 && b < U64 && a + b * U64 == (t0 + t1 * U64 + len) % U128
  {
    WrapOnce(t0 + len, U64);
    WrapOnce(t1 + 1, U64);
    WrapOnce(t0 + t1 * U64 + len, U128);
  }

  lemma WrapOnce(x: nat, m: nat)
    requires m > 0 && x < 2 * m
    ensures x % m == if x < m then x else x - m
  {
    if x < m { Ring.Remainder(x, m, 0, x); } else { Ring.Remainder(x, m, 1, x - m); }
  }

  /** The guard under which the carry test misses nothing: the low word is passed at most once. */
  predicate CountsRight(v: Variant, t0: nat, len: nat) {
    len < Word(v) || t0 + len < 2 * Word(v)
  }

  lemma AddedRight(v: Variant, t0: nat, t1: nat, len: nat)
    requires TotalOk(v, t0, t1) && CountsRight(v, t0, len)
    ensures var (a, b) := Added(v, t0, t1, len); TotalOk(v, a, b) && Count(v, a, b) == (Count(v, t0, t1) + len) % TwoWords(v)
  {
    if len < Word(v) {
      AddedWord(v, t0, t1, len);
    } else {
      WrapOnce(t0 + len, Word(v));
      WrapOnce(t1 + 1, Word(v));
      CarriedOnce(v, t0, t1, len);
    }
  }

  lemma CarriedOnce(v: Variant, t0: nat, t1: nat, len: nat)
    requires TotalOk(v, t0, t1) && Word(v) <= len && t0 + len < 2 * Word(v)
    ensures (t0 + len - Word(v)) + (if t1 + 1 < Word(v) then t1 + 1 else 0) * Word(v) == (Count(v, t0, t1) + len) % TwoWords(v)
  {
    WrapOnce(Count(v, t0, t1) + len, TwoWords(v));
  }

  /** SHA-256 counts a call right if and only if the guard holds. */
  lemma AddedExactly(t0: nat, t1: nat, len: nat)
    requires t0 < U32 && t1 < U32 && len < U64
    ensures var (a, b) := Added(Sha256, t0, t1, len);
            Count(Sha256, a, b) == (Count(Sha256, t0, t1) + len) % U64 <==> CountsRight(Sha256, t0, len)
  {
    var (a, b) := Added(Sha256, t0, t1, len);
    var q := (t0 + len) / U32;
    assert t0 + len == q * U32 + a;
    assert (Count(Sha256, t0, t1) + len) == a + (t1 + q) * U32;
  }

  /** One aligned call of 2^33 bytes on a new context counts as 2^32. */
  lemma CarryMissed()
    ensures Added(Sha256, 0, 0, 0x2_0000_0000) == (0, 1) && Count(Sha256, 0, 1) == 0x1_0000_0000
  {
  }

  /** The two words shifted left by three, as finish stores them. */
  function HighBits(v: Variant, t0: nat, t1: nat): nat {
    if v.Sha256? then (8 * t1) % U32 + t0 / 0x2000_0000 else (8 * t1) % U64 + t0 / 0x2000_0000_0000_0000
  }

  function LowBits(v: Variant, t0: nat): nat {
    (8 * t0) % Word(v)
  }

  lemma BitsOf(v: Variant, t0: nat, t1: nat)
    requires TotalOk(v, t0, t1)
    ensures LowBits(v, t0) < Word(v)
    ensures HighBits(v, t0, t1) * Word(v) + LowBits(v, t0) == (8 * Count(v, t0, t1)) % TwoWords(v)
  {
    match v
    case Sha256 =>
      ShiftBits(t0, U32, 0x2000_0000);
      ShiftBits(t1, U32, 0x2000_0000);
      TopBitsDrop(U32, U64, 8 * t0 % U32, t0 / 0x2000_0000, 8 * t1 % U32, t1 / 0x2000_0000);
      assert 8 * Count(v, t0, t1) == 8 * t0 + (8 * t1) * U32;
    case Sha512 =>
      ShiftBits(t0, U64, 0x2000_0000_0000_0000);
      ShiftBits(t1, U64, 0x2000_0000_0000_0000);
      TopBitsDrop(U64, U128, 8 * t0 % U64, t0 / 0x2000_0000_0000_0000, 8 * t1 % U64, t1 / 0x2000_0000_0000_0000);
      assert 8 * Count(v, t0, t1) == 8 * t0 + (8 * t1) * U64;
  }

  /** Three bits move out of a word. */
  lemma ShiftBits(t: nat, w: nat, top: nat)
    requires w == 8 * top && top > 0 && t < w
    ensures 8 * t == w * (t / top) + 8 * t % w && t / top < 8
  {
    var q, r := t / top, t % top;
    assert t == top * q + r;
    assert 8 * t == w * q + 8 * r;
    Ring.Remainder(8 * t, w, q, 8 * r);
    if q >= 8 { Ring.MulStep(top, 7, q); }
  }

  lemma TopBitsDrop(w: nat, ww: nat, lo: nat, carry: nat, hi: nat, out: nat)
    requires w > 8 && ww == w * w && lo < w && carry < 8 && hi < w && hi + carry < w
    ensures ((w * carry + lo) + (w * out + hi) * w) % ww == (hi + carry) * w + lo
  {
    var x := (hi + carry) * w + lo;
    Expand(w, out, hi);
    Gather(w, hi, carry);
    assert x < ww by { Below(w, hi + carry, lo); }
    Ring.Remainder(ww * out + x, ww, out, x);
  }

  lemma Expand(w: nat, out: nat, hi: nat)
    ensures (w * out + hi) * w == (w * w) * out + hi * w
  {
    assert (w * out + hi) * w == (w * out) * w + hi * w;
    assert (w * out) * w == (w * w) * out;
  }

  lemma Gather(w: nat, hi: nat, carry: nat)
    ensures (hi + carry) * w == hi * w + w * carry
  {
  }

  lemma Below(w: nat, h: nat, lo: nat)
    requires h < w && lo < w
    ensures h * w + lo < w * w
  {
    Ring.MulStep(w, h, w);
    assert h * w == w * h;
  }

  lemma WordPower(v: Variant)
    ensures Pow256(WordBytes(v)) == Word(v)
  {
    assert Pow256(2) == 0x1_0000;
    assert Pow256(4) == 256 * Pow256(3);
    assert Pow256(6) == 256 * Pow256(5);
    assert Pow256(8) == 256 * Pow256(7);
  }

  /** What finish writes after the padding is the length field. */
  lemma {:induction false} LengthField(v: Variant, t0: nat, t1: nat, n: nat)
    requires TotalOk(v, t0, t1) && Count(v, t0, t1) == n % TwoWords(v)
    ensures BigEndian(HighBits(v, t0, t1), WordBytes(v)) + BigEndian(LowBits(v, t0), WordBytes(v))
            == BigEndian((8 * n) % TwoWords(v), 2 * WordBytes(v))
  {
    hide BigEndian, HighBits, LowBits, Pow256;
    BitsOf(v, t0, t1);
    WordPower(v);
    BigEndianParts(HighBits(v, t0, t1), LowBits(v, t0), WordBytes(v), WordBytes(v));
    EightTimes(n, TwoWords(v));
  }

  lemma EightTimes(n: nat, m: nat)
    requires m > 0
    ensures (8 * (n % m)) % m == (8 * n) % m
  {
    var r := n % m;
    EightParts(n, m, n / m, r, (8 * r) / m, (8 * r) % m);
  }

  lemma EightParts(n: nat, m: nat, q: nat, r: nat, k: nat, s: nat)
    requires n == m * q + r && 8 * r == m * k + s && s < m
    ensures (8 * n) % m == s
  {
    assert m * (8 * q + k) == 8 * (m * q) + m * k;
    Ring.Remainder(8 * n, m, 8 * q + k, s);
  }
}

/** The context updated in place. */
module Sha {
  import Ring
  import opened ByteOrder
  import opened ShaSpec

  /** The state stands for msg: all but its last bytes, `rest`, have gone through the block function and been counted. */
  ghost predicate Holds(v: Variant, f: Compress, init: Words, msg: seq<Byte>, h: Words, t0: nat, t1: nat, rest: seq<Byte>) {
    && |rest| <= |msg| && TotalOk(v, t0, t1)
    && var n := |msg| - |rest|;
    && Whole(v, n) && msg[n..] == rest && h == Blocks(v, f, init, msg[..n]) && Count(v, t0, t1) == n % TwoWords(v)
  }

  lemma StartHolds(v: Variant, f: Compress, init: Words)
    ensures Holds(v, f, init, [], init, 0, 0, [])
  {
  }

  lemma AppendHolds(v: Variant, f: Compress, init: Words, msg: seq<Byte>, h: Words, t0: nat, t1: nat, rest: seq<Byte>, data: seq<Byte>)
    requires Holds(v, f, init, msg, h, t0, t1, rest)
    ensures Holds(v, f, init, msg + data, h, t0, t1, rest + data)
  {
    var n := |msg| - |rest|;
    assert (msg + data)[n..] == msg[n..] + data && (msg + data)[..n] == msg[..n];
  }

  /** Whole blocks at the front of the rest may be processed. */
  lemma {:induction false} ConsumeHolds(v: Variant, f: Compress, init: Words, msg: seq<Byte>, h: Words, t0: nat, t1: nat, rest: seq<Byte>, k: nat)
    requires Holds(v, f, init, msg, h, t0, t1, rest) && k <= |rest| && Whole(v, k) && CountsRight(v, t0, k)
    ensures var (a, b) := Added(v, t0, t1, k); Holds(v, f, init, msg, Blocks(v, f, h, rest[..k]), a, b, rest[k..])
  {
    var n := |msg| - |rest|;
    assert msg[..n + k] == msg[..n] + rest[..k] && msg[n + k..] == rest[k..];
    BlocksSplit(v, f, init, msg[..n], rest[..k]);
    WholeSum(v, n, k);
    AddedRight(v, t0, t1, k);
    AddMod(n, k, TwoWords(v));
  }

  lemma WholeSum(v: Variant, n: nat, k: nat)
    requires Whole(v, n)
    ensures Low(v, n + k) == Low(v, k)
  {
    match v
    case Sha256 => Shift64(n / 64, k);
    case Sha512 => Shift128(n / 128, k);
  }

  lemma Shift64(q: nat, k: nat)
    ensures (64 * q + k) % 64 == k % 64
  {
  }

  lemma Shift128(q: nat, k: nat)
    ensures (128 * q + k) % 128 == k % 128
  {
  }

  lemma AddMod(n: nat, k: nat, m: nat)
    requires m > 0
    ensures (n % m + k) % m == (n + k) % m
  {
    var x := n % m + k;
    AddParts(n, k, m, n / m, n % m, x / m, x % m);
  }

  lemma AddParts(n: nat, k: nat, m: nat, q: nat, r: nat, p: nat, s: nat)
    requires n == m * q + r && r + k == m * p + s && s < m
    ensures (n + k) % m == s
  {
    assert m * (q + p) == m * q + m * p;
    Ring.Remainder(n + k, m, q + p, s);
  }

  class Ctx {
    const v: Variant
    const f: Compress
    const init: Words
    var h: Words
    var t0: nat
    var t1: nat
    var buflen: nat
    const buffer: array<Byte>
    ghost var msg: seq<Byte>   // everything given so far

    ghost predicate Shaped()
      reads this
    {
      buffer.Length == 2 * Block(v) && buflen <= buffer.Length
    }

    ghost predicate Holding()
      reads this, buffer
    {
      Shaped() && Holds(v, f, init, msg, h, t0, t1, buffer[..buflen])
    }

    /** Between calls at most one block is held back. */
    ghost predicate Valid()
      reads this, buffer
    {
      Holding() && buflen <= Block(v)
    }

    constructor (variant: Variant, compress: Compress, start: Words)
      ensures Valid() && msg == [] && fresh(buffer) && v == variant && f == compress && init == start
    {
      hide Holds, Low, Word, TwoWords, Blocks, Count;
      v, f, init := variant, compress, start;
      h, t0, t1, buflen := start, 0, 0, 0;
      buffer := new Byte[2 * Block(variant)](_ => 0);
      msg := [];
      new;
      StartHolds(v, f, init);
      assert buffer[..0] == [];
    }

    /** Counts the bytes and runs the block function over them. */
    method ProcessBlock(data: seq<Byte>)
      requires Whole(v, |data|)
      modifies this`h, this`t0, this`t1
      ensures h == Blocks(v, f, old(h), data) && (t0, t1) == Added(v, old(t0), old(t1), |data|)
    {
      hide Blocks, Low, Word;
      CountIn(|data|);
      var rest := data;
      while rest != []
        invariant Whole(v, |rest|) && Blocks(v, f, h, rest) == Blocks(v, f, old(h), data)
        decreases |rest|
        modifies this`h
      {
        NextBlock(v, f, h, rest);
        h := f(h, rest[..Block(v)]);
        rest := rest[Block(v)..];
      }
      NoBlock(v, f, h);
    }

    /** total += len, with the carry test of the code. */
    method CountIn(len: nat)
      modifies this`t0, this`t1
      ensures (t0, t1) == Added(v, old(t0), old(t1), len)
    {
      hide Word;
      t0 := (t0 + len) % Word(v);
      if t0 < len {
        t1 := (t1 + 1) % Word(v);
      }
    }

    /** memcpy into the buffer. */
    method Copy(at: nat, data: seq<Byte>)
      requires at + |data| <= buffer.Length
      modifies buffer
      ensures buffer[..at] == old(buffer[..at]) && buffer[at..at + |data|] == data
    {
      for i := 0 to |data|
        invariant buffer[..at] == old(buffer[..at]) && buffer[at..at + i] == data[..i]
      {
        buffer[at + i] := data[i];
      }
      assert data[..|data|] == data;
    }

    /** Takes more bytes into the buffer without processing them. */
    method Hold(data: seq<Byte>)
      requires Holding() && buflen + |data| <= buffer.Length
      modifies this`buflen, this`msg, buffer
      ensures Holding() && buflen == old(buflen) + |data| && msg == old(msg) + data
    {
      AppendHolds(v, f, init, msg, h, t0, t1, buffer[..buflen], data);
      Copy(buflen, data);
      assert buffer[..buflen + |data|] == buffer[..buflen] + buffer[buflen..buflen + |data|];
      buflen := buflen + |data|;
      msg := msg + data;
    }

    /** Processes the whole blocks among the first k bytes held and moves what is left to the front. */
    method Release(k: nat)
      requires Holding() && k <= buflen && Whole(v, k) && k < Word(v)
      modifies this`h, this`t0, this`t1, this`buflen, buffer
      ensures Holding() && buflen == old(buflen) - k
    {
      ghost var rest := buffer[..buflen];
      ConsumeHolds(v, f, init, msg, h, t0, t1, rest, k);
      assert rest[..k] == buffer[..k] && rest[k..] == buffer[k..buflen];
      ProcessBlock(buffer[..k]);
      var tail := buffer[k..buflen];
      Copy(0, tail);
      buflen := |tail|;
      assert buffer[..buflen] == buffer[0..0 + |tail|];
    }

    /** Part one: complete what is in the buffer. */
    method FillBuffer(data: seq<Byte>) returns (rest: seq<Byte>)
      requires Valid() && buflen != 0
      modifies this, buffer
      ensures Valid() && |rest| <= |data| && rest == data[|data| - |rest|..] && msg == old(msg) + data[..|data| - |rest|]
      ensures rest != [] ==> buflen == 0
      ensures |rest| == Left(v, old(buflen), |data|)
    {
      hide Holds, Low, Word, Whole;
      DownFacts(v, if 2 * Block(v) - buflen > |data| then buflen + |data| else 2 * Block(v));
      var room := 2 * Block(v) - buflen;
      var add := if room > |data| then |data| else room;
      Hold(data[..add]);
      if buflen > Block(v) {
        Release(buflen - Low(v, buflen));
      }
      rest := data[add..];
    }

    /** Part two, at an unaligned pointer: copy and process block by block, leaving between 1 byte and a block. */
    method SlowBlocks(data: seq<Byte>) returns (rest: seq<Byte>)
      requires Valid() && buflen == 0 && data != []
      modifies this, buffer
      ensures Valid() && buflen == 0 && 0 < |rest| <= Block(v) && |rest| <= |data|
      ensures rest == data[|data| - |rest|..] && msg == old(msg) + data[..|data| - |rest|]
    {
      hide Holds, Low, Word, Whole;
      OneWhole(v);
      rest := data;
      while |rest| > Block(v)
        invariant Valid() && buflen == 0 && 0 < |rest| <= |data|
        invariant rest == data[|data| - |rest|..] && msg == old(msg) + data[..|data| - |rest|]
        decreases |rest|
      {
        Hold(rest[..Block(v)]);
        Release(Block(v));
        ghost var done := |data| - |rest|;
        assert data[..done + Block(v)] == data[..done] + rest[..Block(v)];
        rest := rest[Block(v)..];
      }
    }

    /** Part two, at an aligned pointer: process all whole blocks in place. */
    method FastBlocks(data: seq<Byte>) returns (rest: seq<Byte>)
      requires Valid() && buflen == 0 && CountsRight(v, t0, |data| - Low(v, |data|))
      modifies this
      ensures Valid() && buflen == 0 && |rest| < Block(v) && |rest| <= |data|
      ensures rest == data[|data| - |rest|..] && msg == old(msg) + data[..|data| - |rest|]
    {
      hide Holds, Low, Word, CountsRight, Blocks, Added;
      var k := |data| - Low(v, |data|);
      assert buffer[..0] == [];
      AppendHolds(v, f, init, msg, h, t0, t1, [], data[..k]);
      assert [] + data[..k] == data[..k];
      WholeDown(v, |data|);
      ConsumeHolds(v, f, init, msg + data[..k], h, t0, t1, data[..k], k);
      assert data[..k][..k] == data[..k] && data[..k][k..] == [];
      ProcessBlock(data[..k]);
      msg := msg + data[..k];
      rest := data[k..];
    }

    /** Part three: keep what is less than a block. */
    method KeepTail(data: seq<Byte>)
      requires Valid() && buflen == 0 && |data| <= Block(v)
      modifies this, buffer
      ensures Valid() && msg == old(msg) + data
    {
      Hold(data);
      if buflen >= Block(v) {
        Release(Block(v));
      }
    }

    /** Parts two and three, on an empty buffer. */
    method ProcessRest(data: seq<Byte>, unaligned: bool)
      requires Valid() && buflen == 0 && (unaligned || CountsRight(v, t0, |data| - Low(v, |data|)))
      modifies this, buffer
      ensures Valid() && msg == old(msg) + data
    {
      hide Holds, Low, Word;
      var rest := data;
      if |data| >= Block(v) {
        if unaligned {
          rest := SlowBlocks(data);
        } else {
          rest := FastBlocks(data);
        }
      }
      assert data == data[..|data| - |rest|] + rest;
      if rest != [] {
        KeepTail(rest);
      }
    }

    /** The state then stands for the message with the bytes appended: for any number of bytes at an unaligned pointer,
        and at an aligned one for any number that the byte counter takes. */
    method ProcessBytes(data: seq<Byte>, unaligned: bool)
      requires Valid()
      requires unaligned || AlignedCounts(v, buflen, |msg|, |data|)
      modifies this, buffer
      ensures Valid() && msg == old(msg) + data
    {
      hide Holds, Low, Word, CountsRight;
      var rest := data;
      if buflen != 0 {
        rest := FillBuffer(data);
      }
      assert data == data[..|data| - |rest|] + rest;
      if rest != [] {
        if !unaligned { EmptyCount(v, f, init, msg, h, t0, t1); }
        assert buffer[..0] == [];
        ProcessRest(rest, unaligned);
      }
    }

    /** Pads, appends the length and processes the last one or two blocks. */
    method Finish() returns (digest: Words)
      requires Valid()
      modifies this, buffer
      ensures digest == OneShot(v, f, init, old(msg))
    {
      hide BigEndian, HighBits, LowBits, Count, TwoWords, Blocks, Low;
      var bytes, room := buflen, Block(v) - 2 * WordBytes(v);
      ghost var rest := buffer[..buflen];
      ghost var h0 := h;
      CountAll(v, f, init, msg, h, t0, t1, rest);
      t0, t1 := Added(v, t0, t1, bytes).0, Added(v, t0, t1, bytes).1;
      var pad := if bytes >= room then Block(v) + room - bytes else room - bytes;
      Copy(bytes, [0x80] + Zeros(pad - 1));
      assert buffer[..bytes + pad] == buffer[..bytes] + buffer[bytes..bytes + pad];
      Copy(bytes + pad, BigEndian(HighBits(v, t0, t1), WordBytes(v)) + BigEndian(LowBits(v, t0), WordBytes(v)));
      var all := bytes + pad + 2 * WordBytes(v);
      assert buffer[..all] == buffer[..bytes + pad] + buffer[bytes + pad..all];
      PadFits(v, f, init, msg, h, rest, pad, buffer[..all], t0, t1);
      ProcessBlock(buffer[..all]);
      return h;
    }
  }

  /** How much of n bytes is left when a part-full buffer has been filled. */
  function Left(v: Variant, buflen: nat, n: nat): nat
    requires buflen <= 2 * Block(v)
  {
    if buflen == 0 then n else if n <= 2 * Block(v) - buflen then 0 else n - (2 * Block(v) - buflen)
  }

  /** The whole blocks that an aligned call hands over at once are counted right. */
  predicate AlignedCounts(v: Variant, buflen: nat, before: nat, n: nat)
    requires buflen <= 2 * Block(v)
  {
    var r := Left(v, buflen, n);
    r <= n && CountsRight(v, (before + (n - r)) % Word(v), r - Low(v, r))
  }

  /** The same said on the length of the message so far. */
  predicate Counted(v: Variant, before: nat, n: nat) {
    n < Word(v) || before % Word(v) + n < 2 * Word(v)
  }

  lemma CountedEnough(v: Variant, buflen: nat, before: nat, n: nat)
    requires buflen <= 2 * Block(v) && Counted(v, before, n)
    ensures AlignedCounts(v, buflen, before, n)
  {
    var r := Left(v, buflen, n);
    if n >= Word(v) {
      AddMod(before, n - r, Word(v));
      WrapOnce(before % Word(v) + (n - r), Word(v));
    }
  }

  /** With an empty buffer the low word is the message length. */
  lemma EmptyCount(v: Variant, f: Compress, init: Words, msg: seq<Byte>, h: Words, t0: nat, t1: nat)
    requires Holds(v, f, init, msg, h, t0, t1, [])
    ensures t0 == |msg| % Word(v)
  {
    var n, w := |msg|, Word(v);
    var q := n / TwoWords(v);
    SquareWord(v);
    LowWord(n, w, q, t0, t1);
  }

  lemma SquareWord(v: Variant)
    ensures TwoWords(v) == Word(v) * Word(v)
  {
  }

  lemma LowWord(n: nat, w: nat, q: nat, t0: nat, t1: nat)
    requires w > 0 && t0 < w && n == (w * w) * q + (t0 + t1 * w)
    ensures n % w == t0
  {
    assert (w * w) * q + t1 * w == w * (w * q + t1);
    Ring.Remainder(n, w, w * q + t1, t0);
  }

  lemma WholeDown(v: Variant, n: nat)
    ensures Whole(v, n - Low(v, n))
  {
    match v
    case Sha256 => Shift64(n / 64, 0);
    case Sha512 => Shift128(n / 128, 0);
  }

  lemma {:induction false} NextBlock(v: Variant, f: Compress, h: Words, rest: seq<Byte>)
    requires rest != [] && Whole(v, |rest|)
    ensures |rest| >= Block(v) && Whole(v, |rest| - Block(v))
    ensures Blocks(v, f, h, rest) == Blocks(v, f, f(h, rest[..Block(v)]), rest[Block(v)..])
  {
    match v
    case Sha256 => Shift64(|rest| / 64 - 1, 0);
    case Sha512 => Shift128(|rest| / 128 - 1, 0);
  }

  lemma {:induction false} NoBlock(v: Variant, f: Compress, h: Words)
    ensures Blocks(v, f, h, []) == h
  {
  }

  lemma OneWhole(v: Variant)
    ensures Whole(v, Block(v)) && Block(v) < Word(v)
  {
  }

  /** Masking a buffer length down. */
  lemma DownFacts(v: Variant, n: nat)
    requires n <= 2 * Block(v)
    ensures Low(v, n) < Block(v) && Low(v, n) <= n && Whole(v, n - Low(v, n)) && n - Low(v, n) < Word(v)
    ensures n == 2 * Block(v) ==> Low(v, n) == 0
  {
    WholeDown(v, n);
  }

  /** Adding the bytes still held completes the count. */
  lemma CountAll(v: Variant, f: Compress, init: Words, msg: seq<Byte>, h: Words, t0: nat, t1: nat, rest: seq<Byte>)
    requires Holds(v, f, init, msg, h, t0, t1, rest) && |rest| < Word(v)
    ensures var (a, b) := Added(v, t0, t1, |rest|); TotalOk(v, a, b) && Count(v, a, b) == |msg| % TwoWords(v)
  {
    AddedWord(v, t0, t1, |rest|);
    AddMod(|msg| - |rest|, |rest|, TwoWords(v));
  }

  lemma {:induction false} PadFits(v: Variant, f: Compress, init: Words, msg: seq<Byte>, h: Words, rest: seq<Byte>, pad: nat, all: seq<Byte>, t0: nat, t1: nat)
    requires |rest| <= |msg| && |rest| <= Block(v) && TotalOk(v, t0, t1) && Count(v, t0, t1) == |msg| % TwoWords(v)
    requires var n := |msg| - |rest|; Whole(v, n) && msg[n..] == rest && h == Blocks(v, f, init, msg[..n])
    requires var room := Block(v) - 2 * WordBytes(v); pad == if |rest| >= room then Block(v) + room - |rest| else room - |rest|
    requires all == rest + ([0x80] + Zeros(pad - 1)) + (BigEndian(HighBits(v, t0, t1), WordBytes(v)) + BigEndian(LowBits(v, t0), WordBytes(v)))
    ensures Whole(v, |all|) && Blocks(v, f, h, all) == OneShot(v, f, init, msg)
  {
    hide Blocks, TwoWords, Count, HighBits, LowBits, BigEndian, Low, ZeroBytes;
    var n := |msg| - |rest|;
    LengthField(v, t0, t1, |msg|);
    PadIsZeros(v, n, |rest|, pad);
    assert all == rest + Padding(v, |msg|);
    BlocksSplit(v, f, init, msg[..n], all);
    assert msg + Padding(v, |msg|) == msg[..n] + all;
  }

  /** The code's padding length against the standard's. */
  lemma PadIsZeros(v: Variant, n: nat, bytes: nat, pad: nat)
    requires Whole(v, n) && bytes <= Block(v)
    requires var room := Block(v) - 2 * WordBytes(v); pad == if bytes >= room then Block(v) + room - bytes else room - bytes
    ensures ZeroBytes(v, n + bytes) == pad - 1 && Whole(v, bytes + pad + 2 * WordBytes(v))
  {
    WholeSum(v, n, bytes);
  }

  // ---- any way of cutting the message ---------------------------------------------------------------

  function Concat(chunks: seq<seq<Byte>>): seq<Byte> {
    if chunks == [] then [] else Concat(chunks[..|chunks| - 1]) + chunks[|chunks| - 1]
  }

  /** However a message is cut into calls, aligned or not, the digest is the one-shot digest of the whole. */
  method Stream(v: Variant, f: Compress, init: Words, chunks: seq<seq<Byte>>, unaligned: seq<bool>) returns (digest: Words)
    requires |unaligned| == |chunks|
    requires forall i :: 0 <= i < |chunks| ==> unaligned[i] || Counted(v, |Concat(chunks[..i])|, |chunks[i]|)
    ensures digest == OneShot(v, f, init, Concat(chunks))
  {
    var ctx := new Ctx(v, f, init);
    for i := 0 to |chunks|
      invariant ctx.Valid() && fresh(ctx) && fresh(ctx.buffer) && ctx.v == v && ctx.f == f && ctx.init == init
      invariant ctx.msg == Concat(chunks[..i])
    {
      assert chunks[..i + 1][..i] == chunks[..i];
      if !unaligned[i] { CountedEnough(v, ctx.buflen, |ctx.msg|, |chunks[i]|); }
      ctx.ProcessBytes(chunks[i], unaligned[i]);
    }
    assert chunks[..|chunks|] == chunks;
    digest := ctx.Finish();
  }
}
