/** Fixed-width unsigned integers, and the few facts about division that the
    rings and sequence counters rely on. */
module Words {

  const TWO_16: int := 0x1_0000
  const TWO_30: int := 0x4000_0000
  const TWO_31: int := 0x8000_0000
  const TWO_32: int := 0x1_0000_0000
  const TWO_64: int := 0x1_0000_0000_0000_0000

  type U8 = x: int | 0 <= x < 0x100
  type U16 = x: int | 0 <= x < 0x1_0000
  type U32 = x: int | 0 <= x < 0x1_0000_0000
  type U64 = x: int | 0 <= x < 0x1_0000_0000_0000_0000

  datatype Option<T> = None | Some(value: T)

  function Max(x: int, y: int): (m: int) { if x < y then y else x }

  function Min(x: int, y: int): (m: int) { if x < y then x else y }

  function Wrap8(x: int): (w: U8) { x % 0x100 }

  function Wrap16(x: int): (w: U16) { x % 0x1_0000 }

  function Wrap32(x: int): (w: U32) { x % 0x1_0000_0000 }

  function Wrap64(x: int): (w: U64) { x % 0x1_0000_0000_0000_0000 }

  /** Reinterprets a 32-bit word as two's complement. */
  function Signed32(x: U32): (s: int) { if x < 0x8000_0000 then x else x - 0x1_0000_0000 }

  /** `seq_compare`: the signed 32-bit difference of two sequence numbers. */
  function SeqCompare(a: U32, b: U32): (d: int) { Signed32(Wrap32(a - b)) }

  /** Sequence numbers compare like the unbounded positions they stand for as
      long as those positions are less than half the number space apart. */
  lemma SeqCompareExact(x: int, y: int)
    requires -TWO_31 <= x - y < TWO_31
    ensures SeqCompare(Wrap32(x), Wrap32(y)) == x - y
  {
    Wrap32Sub(x, y);
  }

  lemma Wrap32Add(x: int, n: int)
    ensures Wrap32(Wrap32(x) + n) == Wrap32(x + n)
  {
  }

  lemma Wrap32Sub(x: int, y: int)
    ensures Wrap32(Wrap32(x) - Wrap32(y)) == Wrap32(x - y)
  {
  }

  /** A ring size usable with 32-bit sequence numbers. The divisors of 2^32 are
      exactly the powers of two, and the signed 32-bit size field caps it at 2^30. */
  predicate RingSize(n: int) { 0 < n <= TWO_30 && TWO_32 % n == 0 }

  lemma DivModUnique(x: int, n: int, q: int, r: int)
    requires 0 < n && x == n * q + r && 0 <= r < n
    ensures x / n == q && x % n == r
  {
    var d := x / n - q;
    assert n * d == r - x % n by {
      assert n * (x / n) + x % n == x;
    }
    if d >= 1 {
      MulAtLeast(n, d);
    } else if d <= -1 {
      MulAtLeast(n, -d);
    }
  }

  lemma WrapNegative(d: int)
    ensures Wrap32(-d) == if Wrap32(d) == 0 then 0 else TWO_32 - Wrap32(d)
  {
    var q, r := d / TWO_32, Wrap32(d);
    if r == 0 {
      DivModUnique(-d, TWO_32, -q, 0);
    } else {
      DivModUnique(-d, TWO_32, -q - 1, TWO_32 - r);
    }
  }

  lemma MulAtLeast(n: int, d: int)
    requires 0 <= n && 1 <= d
    ensures n * d >= n
  {
  }

  lemma Positive(n: int, d: int)
    requires n > 0 && n * d > 0
    ensures d >= 1 && n * d >= n
  {
  }

  /** Moving forward in a ring: either still on the same lap or one lap later. */
  lemma ModStep(x: int, k: int, n: int)
    requires 0 < n && 0 <= k < n
    ensures (x + k) % n == if x % n + k < n then x % n + k else x % n + k - n
  {
    var q, r := x / n, x % n;
    if r + k < n {
      DivModUnique(x + k, n, q, r + k);
    } else {
      assert x + k == n * (q + 1) + (r + k - n);
      DivModUnique(x + k, n, q + 1, r + k - n);
    }
  }

  /** Two positions less than a lap apart share a slot only if they are equal. */
  lemma ModInjective(x: int, y: int, n: int)
    requires 0 < n && x <= y < x + n && x % n == y % n
    ensures x == y
  {
    ModStep(x, y - x, n);
  }

  /** Reducing by a multiple of the ring size first changes nothing. */
  lemma ModOfMod(x: int, m: int, n: int)
    requires 0 < n && 0 < m && m % n == 0
    ensures (x % m) % n == x % n
  {
    var q, k := x / m, m / n;
    assert x == m * q + x % m;
    assert m == n * k;
    var r := x % m;
    assert x == n * (k * q + r / n) + r % n by {
      assert m * q == n * (k * q) by { assert (n * k) * q == n * (k * q); }
      assert r == n * (r / n) + r % n;
      assert n * (k * q) + n * (r / n) == n * (k * q + r / n);
    }
    DivModUnique(x, n, k * q + r / n, r % n);
  }
}
