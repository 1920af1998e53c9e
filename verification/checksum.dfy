/** The Internet checksum (section 2 of RFC 1071): the 16-bit definition, the fold,
    and the amd64 version that adds 64-bit words with end-around carry. */
module Checksum {
  import opened Words

  /** The sum of the 16-bit words of b, low byte first, an odd last byte as is. */
  function WordSum(b: seq<U8>): (s: nat)
  {
    if |b| == 0 then 0
    else if |b| == 1 then b[0]
    else Word16(b[0], b[1]) + WordSum(b[2..])
  }

  function Word16(lo: int, hi: int): (w: int) { lo + 0x100 * hi }

  /** Two sums that no 16-bit ones' complement fold can tell apart. */
  ghost predicate SameSum(a: int, b: int)
  {
    0 <= a && 0 <= b && a % 0xFFFF == b % 0xFFFF && (a == 0 <==> b == 0)
  }

  /** The 16-bit ones' complement value of a sum: 0 only for 0. */
  function Folded(s: nat): (c: U16) { if s == 0 then 0 else (s - 1) % 0xFFFF + 1 }

  lemma SameFolded(a: int, b: int)
    requires SameSum(a, b)
    ensures Folded(a) == Folded(b)
  {
  }

  lemma SameSumAdd(a: int, b: int, c: int, d: int)
    requires SameSum(a, b) && SameSum(c, d)
    ensures SameSum(a + c, b + d)
  {
  }

  lemma SameSumTrans(a: int, b: int, c: int)
    requires SameSum(a, b) && SameSum(b, c)
    ensures SameSum(a, c)
  {
  }

  // ------------------------------------------------------------------
  // Folding

  /** `csum_pack` */
  function Pack(sum: U64): (c: U16)
    ensures c == Folded(sum)
  {
    var s1 := sum / 0x1_0000_0000 + sum % 0x1_0000_0000;
    var s2 := s1 / 0x1_0000_0000 + s1 % 0x1_0000_0000;
    var s3 := s2 / 0x1_0000 + s2 % 0x1_0000;
    var s4 := s3 / 0x1_0000 + s3 % 0x1_0000;
    Fold32(sum);
    Fold32(s1);
    Fold16(s2);
    Fold16(s3);
    assert SameSum(s4, sum) by {
      SameSumTrans(s4, s3, s2);
      SameSumTrans(s4, s2, s1);
      SameSumTrans(s4, s1, sum);
    }
    SameFolded(s4, sum);
    s4
  }

  lemma Fold32(s: nat)
    ensures SameSum(s / 0x1_0000_0000 + s % 0x1_0000_0000, s)
  {
    var h, l := s / 0x1_0000_0000, s % 0x1_0000_0000;
    MultipleOfOnes(h + l, 65537 * h);
    assert s == h + l + 0xFFFF * (65537 * h);
  }

  lemma Fold16(s: nat)
    ensures SameSum(s / 0x1_0000 + s % 0x1_0000, s)
  {
    var h, l := s / 0x1_0000, s % 0x1_0000;
    MultipleOfOnes(h + l, h);
    assert s == h + l + 0xFFFF * h;
  }

  lemma MultipleOfOnes(x: int, k: int)
    ensures (x + 0xFFFF * k) % 0xFFFF == x % 0xFFFF
  {
  }

  // ------------------------------------------------------------------
  // The portable version

  /** `csum_part`, one 16-bit word at a time. */
  method PartSimple(buf: seq<U8>, sum: nat) returns (r: nat)
    ensures r == sum + WordSum(buf)
  {
    r := sum;
    var p, len := 0, |buf|;
    while len > 1
      invariant p + len == |buf| && 0 <= p <= |buf|
      invariant r + WordSum(buf[p..]) == sum + WordSum(buf)
    {
      assert buf[p..][2..] == buf[p + 2..];
      r := r + Word16(buf[p], buf[p + 1]);
      len, p := len - 2, p + 2;
    }
    if len != 0 {
      r := r + buf[p];
    }
  }

  // ------------------------------------------------------------------
  // Splitting sums

  lemma {:induction false} SplitEven(x: seq<U8>, y: seq<U8>)
    requires |x| % 2 == 0
    ensures WordSum(x + y) == WordSum(x) + WordSum(y)
  {
    if x == [] {
      assert x + y == y;
    } else {
      assert (x + y)[2..] == x[2..] + y;
      SplitEven(x[2..], y);
    }
  }

  /** After an odd number of bytes the next one is the high half of a word. */
  lemma {:induction false} SplitOdd(x: seq<U8>, b: U8, y: seq<U8>)
    requires |x| % 2 == 1
    ensures WordSum(x + [b] + y) == WordSum(x) + Word16(0, b) + WordSum(y)
  {
    var z := x + [b] + y;
    if |x| == 1 {
      assert z[2..] == y;
    } else {
      assert z[2..] == x[2..] + [b] + y;
      SplitOdd(x[2..], b, y);
    }
  }

  // ------------------------------------------------------------------
  // Wider words

  /** n bytes at p as a number, low byte first. */
  function Le(b: seq<U8>): (w: nat)
  {
    if |b| == 0 then 0
    else if |b| == 1 then b[0]
    else Word16(b[0], b[1]) + 0x1_0000 * Le(b[2..])
  }

  lemma {:induction false} LeSame(b: seq<U8>)
    ensures SameSum(Le(b), WordSum(b))
  {
    if |b| >= 2 {
      LeSame(b[2..]);
      var t := Le(b[2..]);
      MultipleOfOnes(t, t);
      assert 0x1_0000 * t == t + 0xFFFF * t;
      SameSumAdd(Word16(b[0], b[1]), Word16(b[0], b[1]), 0x1_0000 * t, WordSum(b[2..]));
    }
  }

  lemma Le4(b: seq<U8>)
    requires |b| == 4
    ensures Le(b) < TWO_32
  {
    var t := b[2..];
    assert t[2..] == [] && Le(t) == Word16(t[0], t[1]) + 0x1_0000 * Le(t[2..]);
  }

  lemma LeSplit(b: seq<U8>)
    requires |b| == 8
    ensures Le(b) == Le(b[..4]) + TWO_32 * Le(b[4..])
  {
    var t, lo := b[2..], b[..4];
    assert t[2..] == b[4..] && lo[2..][2..] == [];
    assert Le(b) == Word16(b[0], b[1]) + 0x1_0000 * Le(t);
    assert Le(t) == Word16(t[0], t[1]) + 0x1_0000 * Le(b[4..]);
    assert Le(lo) == Word16(b[0], b[1]) + 0x1_0000 * Le(lo[2..]);
    assert Le(lo[2..]) == Word16(b[2], b[3]);
  }

  lemma Le8(b: seq<U8>)
    requires |b| == 8
    ensures Le(b) < TWO_64
  {
    var lo, hi := b[..4], b[4..];
    LeSplit(b);
    Le4(lo);
    Le4(hi);
  }

  /** The sum of the 32-bit words of b. */
  function Sum32(b: seq<U8>): (s: nat)
    requires |b| % 4 == 0
  {
    if b == [] then 0 else Le(b[..4]) + Sum32(b[4..])
  }

  lemma {:induction false} Sum32Same(b: seq<U8>)
    requires |b| % 4 == 0
    ensures SameSum(Sum32(b), WordSum(b)) && Sum32(b) <= |b| * TWO_30
  {
    if b != [] {
      assert b == b[..4] + b[4..];
      SplitEven(b[..4], b[4..]);
      LeSame(b[..4]);
      Le4(b[..4]);
      Sum32Same(b[4..]);
      SameSumAdd(Le(b[..4]), WordSum(b[..4]), Sum32(b[4..]), WordSum(b[4..]));
    }
  }

  // ------------------------------------------------------------------
  // The amd64 version

  /** A 64-bit register and the carry flag. */
  datatype Carry = Carry(reg: U64, flag: nat)

  /** The adc instruction (add, if the flag is clear). */
  function Adc(c: Carry, w: U64): (r: Carry)
    requires c.flag <= 1
    ensures r.flag <= 1
  {
    var t := c.reg + w + c.flag;
    if t < 0x1_0000_0000_0000_0000 then Carry(t, 0) else Carry(t - 0x1_0000_0000_0000_0000, 1)
  }

  /** A register and its flag stand for a sum: up to multiples of 2^64 - 1, zero
      only for zero, and never with both at their maximum. */
  ghost predicate StandsFor(c: Carry, total: int)
  {
    && c.flag <= 1 && SameSum(c.reg + c.flag, total)
    && c.reg + c.flag < 0x1_0000_0000_0000_0000
  }

  lemma AdcStands(c: Carry, w: U64, total: int)
    requires StandsFor(c, total)
    ensures StandsFor(Adc(c, w), total + w)
  {
    var t := c.reg + c.flag + w;
    SameSumAdd(c.reg + c.flag, total, w, w);
    if t >= 0x1_0000_0000_0000_0000 {
      var r := t - 0xFFFF_FFFF_FFFF_FFFF;
      MultipleOfOnes(r, 0x1_0001_0001_0001);
      assert t == r + 0xFFFF * 0x1_0001_0001_0001;
      SameSumTrans(r, t, total + w);
    }
  }

  /** One accumulator's share of a 128-byte block: four words and a final adc of
      zero, which never carries. */
  function Chain(s: U64, w0: U64, w1: U64, w2: U64, w3: U64): (r: U64)
    ensures SameSum(r, s + w0 + w1 + w2 + w3)
  {
    AdcStands(Carry(s, 0), w0, s);
    var c1 := Adc(Carry(s, 0), w0);
    AdcStands(c1, w1, s + w0);
    var c2 := Adc(c1, w1);
    AdcStands(c2, w2, s + w0 + w1);
    var c3 := Adc(c2, w2);
    AdcStands(c3, w3, s + w0 + w1 + w2);
    var c4 := Adc(c3, w3);
    var c5 := Adc(c4, 0);
    assert c5.flag == 0;
    c5.reg
  }

  /** Add, then adc of zero. */
  function AddAround(a: U64, b: U64): (r: U64)
    ensures SameSum(r, a + b)
  {
    AdcStands(Carry(a, 0), b, a);
    Adc(Adc(Carry(a, 0), b), 0).reg
  }

  function WordAt8(b: seq<U8>, p: nat): (w: U64)
    requires p + 8 <= |b|
  {
    Le8(b[p..p + 8]);
    Le(b[p..p + 8])
  }

  /** The four words of a 32-byte row add up like its 16-bit words. */
  lemma RowSame(b: seq<U8>, p: nat)
    requires p + 32 <= |b|
    ensures SameSum(WordAt8(b, p) + WordAt8(b, p + 8) + WordAt8(b, p + 16) + WordAt8(b, p + 24), WordSum(b[p..p + 32]))
  {
    var r0, r1, r2, r3 := b[p..p + 8], b[p + 8..p + 16], b[p + 16..p + 24], b[p + 24..p + 32];
    assert b[p..p + 32] == r0 + (r1 + (r2 + r3));
    SplitEven(r0, r1 + (r2 + r3));
    SplitEven(r1, r2 + r3);
    SplitEven(r2, r3);
    LeSame(r0);
    LeSame(r1);
    LeSame(r2);
    LeSame(r3);
    hide SameSum, WordSum, Le;
    SameSumAdd(Le(r0), WordSum(r0), Le(r1), WordSum(r1));
    SameSumAdd(Le(r0) + Le(r1), WordSum(r0) + WordSum(r1), Le(r2), WordSum(r2));
    SameSumAdd(Le(r0) + Le(r1) + Le(r2), WordSum(r0) + WordSum(r1) + WordSum(r2), Le(r3), WordSum(r3));
  }

  lemma RowAdds(s: U64, b: seq<U8>, p: nat)
    requires p + 32 <= |b|
    ensures SameSum(Chain(s, WordAt8(b, p), WordAt8(b, p + 8), WordAt8(b, p + 16), WordAt8(b, p + 24)), s + WordSum(b[p..p + 32]))
  {
    hide SameSum, WordSum, WordAt8, Chain;
    var w0, w1, w2, w3 := WordAt8(b, p), WordAt8(b, p + 8), WordAt8(b, p + 16), WordAt8(b, p + 24);
    var w: int := w0 as int + w1 as int + w2 as int + w3 as int;
    RowSame(b, p);
    SameRefl(s);
    SameSumAdd(s, s, w, WordSum(b[p..p + 32]));
    SameSumTrans(Chain(s, w0, w1, w2, w3), s + w, s + WordSum(b[p..p + 32]));
  }

  /** A row goes into an accumulator. */
  function AddRow(s: U64, b: seq<U8>, p: nat): (r: U64)
    requires p + 32 <= |b|
    ensures SameSum(r, s + WordSum(b[p..p + 32]))
  {
    hide SameSum, WordSum, WordAt8, Chain;
    RowAdds(s, b, p);
    Chain(s, WordAt8(b, p), WordAt8(b, p + 8), WordAt8(b, p + 16), WordAt8(b, p + 24))
  }

  lemma {:induction false} BlockSplit(b: seq<U8>, p: nat)
    requires p + 128 <= |b|
    ensures WordSum(b[p..p + 128]) ==
            WordSum(b[p..p + 32]) + WordSum(b[p + 32..p + 64]) + WordSum(b[p + 64..p + 96]) + WordSum(b[p + 96..p + 128])
  {
    assert b[p..p + 128] == b[p..p + 32] + (b[p + 32..p + 64] + (b[p + 64..p + 96] + b[p + 96..p + 128]));
    SplitEven(b[p..p + 32], b[p + 32..p + 64] + (b[p + 64..p + 96] + b[p + 96..p + 128]));
    SplitEven(b[p + 32..p + 64], b[p + 64..p + 96] + b[p + 96..p + 128]);
    SplitEven(b[p + 64..p + 96], b[p + 96..p + 128]);
  }

  lemma SameSumAdd4(a: int, a': int, b: int, b': int, c: int, c': int, d: int, d': int)
    requires SameSum(a, a') && SameSum(b, b') && SameSum(c, c') && SameSum(d, d')
    ensures SameSum(a + b + c + d, a' + b' + c' + d')
  {
    hide SameSum;
    SameSumAdd(a, a', b, b');
    SameSumAdd(a + b, a' + b', c, c');
    SameSumAdd(a + b + c, a' + b' + c', d, d');
  }

  /** The loop over whole 128-byte blocks with four accumulators, combined at the
      end into a sum of at most 33 bits. */
  method Blocks(buf: seq<U8>, sum: U64) returns (r: U64, p: nat)
    requires |buf| >= 128
    ensures p == |buf| / 128 * 128 && r < 0x2_0000_0000
    ensures SameSum(r, sum + WordSum(buf[..p]))
  {
    hide SameSum, WordSum, AddRow, Combine;
    var s0, s1, s2, s3 := sum, 0, 0, 0;
    var len := |buf|;
    p := 0;
    NothingYet(sum, buf);
    while len >= 128
      invariant p + len == |buf| && p % 128 == 0 && 0 <= len
      invariant SameSum(s0 as int + s1 + s2 + s3, sum + WordSum(buf[..p]))
    {
      var t0, t1, t2, t3 := AddRow(s0, buf, p), AddRow(s1, buf, p + 32), AddRow(s2, buf, p + 64), AddRow(s3, buf, p + 96);
      BlockSum(buf, sum, p, s0, s1, s2, s3, t0, t1, t2, t3);
      s0, s1, s2, s3 := t0, t1, t2, t3;
      len, p := len - 128, p + 128;
    }
    r := Combine(s0, s1, s2, s3);
    SameSumTrans(r, s0 as int + s1 + s2 + s3, sum + WordSum(buf[..p]));
  }

  lemma NothingYet(sum: U64, buf: seq<U8>)
    ensures SameSum(sum, sum + WordSum(buf[..0]))
  {
  }

  lemma BlockSum(buf: seq<U8>, sum: U64, p: nat, s0: U64, s1: U64, s2: U64, s3: U64, t0: U64, t1: U64, t2: U64, t3: U64)
    requires p + 128 <= |buf| && p % 128 == 0
    requires SameSum(s0 + s1 + s2 + s3, sum + WordSum(buf[..p]))
    requires SameSum(t0, s0 + WordSum(buf[p..p + 32])) && SameSum(t1, s1 + WordSum(buf[p + 32..p + 64]))
    requires SameSum(t2, s2 + WordSum(buf[p + 64..p + 96])) && SameSum(t3, s3 + WordSum(buf[p + 96..p + 128]))
    ensures SameSum(t0 + t1 + t2 + t3, sum + WordSum(buf[..p + 128]))
  {
    hide WordSum, SameSum;
    var block := WordSum(buf[p..p + 128]);
    SameRefl(block);
    assert buf[..p + 128] == buf[..p] + buf[p..p + 128];
    SplitEven(buf[..p], buf[p..p + 128]);
    BlockSplit(buf, p);
    SameSumAdd4(t0, s0 + WordSum(buf[p..p + 32]), t1, s1 + WordSum(buf[p + 32..p + 64]),
                t2, s2 + WordSum(buf[p + 64..p + 96]), t3, s3 + WordSum(buf[p + 96..p + 128]));
    SameSumAdd(s0 + s1 + s2 + s3, sum + WordSum(buf[..p]), block, block);
    SameSumTrans(t0 + t1 + t2 + t3, s0 + s1 + s2 + s3 + block, sum + WordSum(buf[..p]) + block);
  }

  lemma HalvesFit(c: U64)
    ensures 0 <= c / 0x1_0000_0000 + c % 0x1_0000_0000 < 0x2_0000_0000
  {
  }

  /** Adds the four accumulators end-around, then the two halves of the result. */
  function Combine(s0: U64, s1: U64, s2: U64, s3: U64): (r: U64)
    ensures SameSum(r, s0 + s1 + s2 + s3) && r < 0x2_0000_0000
  {
    hide SameSum, AddAround;
    var a := AddAround(s1, s3);
    var b := AddAround(s0, s2);
    var c := AddAround(b, a);
    SameSumAdd(b, s0 + s2, a, s1 + s3);
    SameSumTrans(c, b + a, s0 + s1 + s2 + s3);
    Fold32(c);
    HalvesFit(c);
    SameSumTrans(c / 0x1_0000_0000 + c % 0x1_0000_0000, c, s0 + s1 + s2 + s3);
    c / 0x1_0000_0000 + c % 0x1_0000_0000
  }

  /** The last bytes, in pieces of 64, 32, 16, 8, 4, 2 and 1 as the bits of the
      length say; nothing overflows if the sum leaves room for them. */
  method Tail(buf: seq<U8>, sum: U64) returns (r: U64)
    requires |buf| < 128 && sum < 0x1_0000_0000_0000_0000 - 0x20_0000_0000
    ensures SameSum(r, sum + WordSum(buf)) && r <= sum + 0x20_0000_0000
  {
    hide SameSum, WordSum;
    var p := 0;
    r := sum;
    NothingYet(sum, buf);
    r, p := Piece(buf, 64, p, r, sum);
    r, p := Piece(buf, 32, p, r, sum);
    r, p := Piece(buf, 16, p, r, sum);
    r, p := Piece(buf, 8, p, r, sum);
    r, p := Piece(buf, 4, p, r, sum);
    r := LastBytes(buf, p, r, sum);
  }

  /** The part of a length made of pieces of n bytes or more. */
  function Down(len: nat, n: nat): (p: nat)
    requires n in {4, 8, 16, 32, 64, 128}
  {
    if n == 4 then len / 4 * 4 else if n == 8 then len / 8 * 8 else if n == 16 then len / 16 * 16
    else if n == 32 then len / 32 * 32 else if n == 64 then len / 64 * 64 else len / 128 * 128
  }

  /** The bit of a length that stands for a piece of n bytes. */
  predicate Bit(len: nat, n: nat)
    requires n in {4, 8, 16, 32, 64}
  {
    if n == 4 then len / 4 % 2 == 1 else if n == 8 then len / 8 % 2 == 1 else if n == 16 then len / 16 % 2 == 1
    else if n == 32 then len / 32 % 2 == 1 else len / 64 % 2 == 1
  }

  lemma DownStep(len: nat, n: nat)
    requires len < 128 && n in {4, 8, 16, 32, 64}
    ensures Down(len, n) == Down(len, 2 * n) + (if Bit(len, n) then n else 0) <= len
    ensures Down(len, 2 * n) % 4 == 0
  {
    hide Down, Bit;
    if n == 4 {
      DownStep4(len);
    } else if n == 8 {
      DownStep8(len);
    } else if n == 16 {
      DownStep16(len);
    } else if n == 32 {
      DownStep32(len);
    } else {
      DownStep64(len);
    }
  }

  lemma DownStep4(len: nat)
    requires len < 128
    ensures Down(len, 4) == Down(len, 8) + (if Bit(len, 4) then 4 else 0) <= len && Down(len, 8) % 4 == 0
  {
  }

  lemma DownStep8(len: nat)
    requires len < 128
    ensures Down(len, 8) == Down(len, 16) + (if Bit(len, 8) then 8 else 0) <= len && Down(len, 16) % 4 == 0
  {
  }

  lemma DownStep16(len: nat)
    requires len < 128
    ensures Down(len, 16) == Down(len, 32) + (if Bit(len, 16) then 16 else 0) <= len && Down(len, 32) % 4 == 0
  {
  }

  lemma DownStep32(len: nat)
    requires len < 128
    ensures Down(len, 32) == Down(len, 64) + (if Bit(len, 32) then 32 else 0) <= len && Down(len, 64) % 4 == 0
  {
  }

  lemma DownStep64(len: nat)
    requires len < 128
    ensures Down(len, 64) == Down(len, 128) + (if Bit(len, 64) then 64 else 0) <= len && Down(len, 128) % 4 == 0
  {
  }

  /** One conditional piece of n bytes, added as 32-bit words. */
  method Piece(buf: seq<U8>, n: nat, p: nat, acc: U64, ghost sum: U64) returns (r: U64, q: nat)
    requires |buf| < 128 && n in {4, 8, 16, 32, 64} && p == Down(|buf|, 2 * n)
    requires SameSum(acc, sum + WordSum(buf[..p])) && acc <= sum + p * TWO_30
    requires sum < 0x1_0000_0000_0000_0000 - 0x20_0000_0000
    ensures q == Down(|buf|, n) <= |buf|
    ensures SameSum(r, sum + WordSum(buf[..q])) && r <= sum + q * TWO_30
  {
    hide SameSum, WordSum, Down, Bit, Sum32;
    DownStep(|buf|, n);
    r, q := acc, p;
    if Bit(|buf|, n) {
      var piece := buf[p..p + n];
      assert buf[..p + n] == buf[..p] + piece;
      SplitEven(buf[..p], piece);
      Sum32Same(piece);
      SameSumAdd(acc, sum + WordSum(buf[..p]), Sum32(piece), WordSum(piece));
      r, q := acc + Sum32(piece), p + n;
    }
  }

  lemma LastLength(len: nat)
    requires len < 128
    ensures var p := Down(len, 4); p <= len < p + 4 && p % 4 == 0 && (len / 2 % 2 == 1 <==> len - p >= 2) && len % 2 == (len - p) % 2
  {
  }

  lemma LastJoin(buf: seq<U8>, p: nat, acc: U64, sum: U64)
    requires p <= |buf| && p % 2 == 0 && SameSum(acc, sum + WordSum(buf[..p]))
    ensures SameSum(acc + WordSum(buf[p..]), sum + WordSum(buf))
  {
    hide SameSum, WordSum;
    assert buf == buf[..p] + buf[p..];
    SplitEven(buf[..p], buf[p..]);
    SameRefl(WordSum(buf[p..]));
    SameSumAdd(acc, sum + WordSum(buf[..p]), WordSum(buf[p..]), WordSum(buf[p..]));
  }

  lemma SameRefl(x: int)
    requires 0 <= x
    ensures SameSum(x, x)
  {
  }

  /** The last two-byte word and the last byte. */
  method LastBytes(buf: seq<U8>, p: nat, acc: U64, ghost sum: U64) returns (r: U64)
    requires |buf| < 128 && p == Down(|buf|, 4)
    requires SameSum(acc, sum + WordSum(buf[..p])) && acc <= sum + p * TWO_30
    requires sum < 0x1_0000_0000_0000_0000 - 0x20_0000_0000
    ensures SameSum(r, sum + WordSum(buf)) && r <= sum + 0x20_0000_0000
  {
    hide SameSum, WordSum, Down;
    r := acc;
    LastLength(|buf|);
    LastJoin(buf, p, acc, sum);
    LastSum(buf[p..]);
    var q := p;
    if |buf| / 2 % 2 == 1 {
      r, q := r + Word16(buf[q], buf[q + 1]), q + 2;
    }
    if |buf| % 2 == 1 {
      r := r + buf[q];
    }
    assert r == acc + WordSum(buf[p..]);
  }

  lemma LastSum(b: seq<U8>)
    requires |b| < 4
    ensures WordSum(b) == (if |b| >= 2 then Word16(b[0], b[1]) else 0) + (if |b| % 2 == 1 then b[|b| - 1] else 0)
  {
    assert |b| >= 2 ==> |b[2..]| <= 1;
  }

  /** How much one call of csum_part can add to the running sum. */
  const PART_STEP: int := 0x22_0000_0000

  /** `csum_part` for amd64: indistinguishable from the portable version. */
  method Part(buf: seq<U8>, sum: U64) returns (r: U64)
    requires sum < 0x1_0000_0000_0000_0000 - 0x20_0000_0000
    ensures SameSum(r, sum + WordSum(buf)) && r <= sum + PART_STEP
  {
    hide WordSum, SameSum;
    if |buf| >= 128 {
      var s, p := Blocks(buf, sum);
      r := Tail(buf[p..], s);
      assert buf == buf[..p] + buf[p..];
      SplitEven(buf[..p], buf[p..]);
      SameSumAdd(s, sum + WordSum(buf[..p]), WordSum(buf[p..]), WordSum(buf[p..]));
      SameSumTrans(r, s + WordSum(buf[p..]), sum + WordSum(buf));
    } else {
      r := Tail(buf, sum);
    }
  }

  /** `csum`: both versions of csum_part fold to the same checksum. */
  method Csum(buf: seq<U8>, sum: U64) returns (c: U16)
    requires sum < 0x1_0000_0000_0000_0000 - 0x20_0000_0000
    ensures c == Folded(sum + WordSum(buf))
  {
    var s := Part(buf, sum);
    SameFolded(s, sum + WordSum(buf));
    c := Pack(s);
  }
}
