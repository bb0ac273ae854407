/** Index arithmetic shared by the power-of-two ring structures: `x & mask`, that is x modulo the capacity,
    written by repeated subtraction so that proofs stay linear. */
module Ring {
  function Wrap(x: nat, cap: nat): (i: nat)
    requires cap > 0
    ensures i < cap
    decreases x
  {
    if x < cap then x else Wrap(x - cap, cap)
  }

  /** It is the remainder. */
  lemma {:induction false} WrapIsMod(x: nat, cap: nat)
    requires cap > 0
    ensures Wrap(x, cap) == x % cap
  {
    if x >= cap {
      WrapIsMod(x - cap, cap);
      var q, r := (x - cap) / cap, (x - cap) % cap;
      assert x == cap * (q + 1) + r;
      Remainder(x, cap, q + 1, r);
    } else {
      Remainder(x, cap, 0, x);
    }
  }

  lemma Remainder(x: nat, n: nat, q: nat, r: nat)
    requires n > 0 && x == n * q + r && r < n
    ensures x % n == r && x / n == q
  {
    var q', r' := x / n, x % n;
    assert n * q' + r' == n * q + r;
    if q' > q { MulStep(n, q, q'); }
    if q' < q { MulStep(n, q', q); }
  }

  lemma MulStep(n: nat, a: nat, b: nat)
    requires a < b
    ensures n * b >= n * a + n
  {
    assert n * b == n * a + n * (b - a);
    assert b - a >= 1;
    assert n * (b - a) >= n * 1;
  }

  /** Positions less than one lap apart use different slots. */
  lemma {:induction false} WindowDistinct(a: nat, b: nat, cap: nat)
    requires cap > 0 && a < b < a + cap
    ensures Wrap(a, cap) != Wrap(b, cap)
    decreases a
  {
    if a >= cap {
      WindowDistinct(a - cap, b - cap, cap);
    }
  }

  predicate IsPowerOfTwo(n: nat)
    decreases n
  {
    n == 1 || (n > 0 && n % 2 == 0 && IsPowerOfTwo(n / 2))
  }

  /** Smallest power of two that is at least n and at least `min`, itself a power of two. */
  function NextPow2(n: nat, min: nat): (p: nat)
    requires IsPowerOfTwo(min) && min > 0
    ensures p >= min && p >= n && IsPowerOfTwo(p)
    ensures p > min ==> p < 2 * n
    decreases n - min
  {
    if min >= n then min else assert (2 * min) / 2 == min; NextPow2(n, 2 * min)
  }

  lemma SmallPowers()
    ensures IsPowerOfTwo(8) && IsPowerOfTwo(16)
  {
    assert IsPowerOfTwo(2);
    assert IsPowerOfTwo(4);
    assert IsPowerOfTwo(8);
  }
}
