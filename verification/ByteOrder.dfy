/** Big-endian numbers as byte strings. */
module ByteOrder {
  type Byte = x: int | 0 <= x < 256

  function Zeros(n: nat): (z: seq<Byte>)
    ensures |z| == n && forall i :: 0 <= i < n ==> z[i] == 0
  {
    seq(n, i => 0)
  }

  function Pow256(n: nat): (p: nat)
    ensures p > 0
  {
    if n == 0 then 1 else 256 * Pow256(n - 1)
  }

  function BigEndian(c: nat, n: nat): (b: seq<Byte>)
    ensures |b| == n
    decreases n
  {
    if n == 0 then [] else BigEndian(c / 256, n - 1) + [c % 256]
  }

  function Value(b: seq<Byte>): nat {
    if b == [] then 0 else Value(b[..|b| - 1]) * 256 + b[|b| - 1]
  }

  lemma {:induction false} ValueOfBigEndian(c: nat, n: nat)
    requires c < Pow256(n)
    ensures Value(BigEndian(c, n)) == c
    decreases n
  {
    if n > 0 {
      ValueOfBigEndian(c / 256, n - 1);
      assert BigEndian(c, n)[..n - 1] == BigEndian(c / 256, n - 1);
    }
  }

  lemma {:induction false} BigEndianOfValue(b: seq<Byte>)
    ensures BigEndian(Value(b), |b|) == b && Value(b) < Pow256(|b|)
    decreases |b|
  {
    if b != [] { BigEndianOfValue(b[..|b| - 1]); }
  }

  /** A number in two parts is written as its parts. */
  lemma {:induction false} BigEndianParts(hi: nat, lo: nat, j: nat, k: nat)
    requires lo < Pow256(k)
    ensures BigEndian(hi * Pow256(k) + lo, j + k) == BigEndian(hi, j) + BigEndian(lo, k)
    decreases k
  {
    if k > 0 {
      var p := Pow256(k - 1);
      var n := hi * Pow256(k) + lo;
      Regroup(hi, p);
      assert n / 256 == hi * p + lo / 256 && n % 256 == lo % 256;
      BigEndianParts(hi, lo / 256, j, k - 1);
    }
  }

  lemma Regroup(hi: nat, p: nat)
    ensures hi * (256 * p) == 256 * (hi * p)
  {
  }
}
