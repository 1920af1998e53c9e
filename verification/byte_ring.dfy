/** A byte ring addressed by unbounded stream positions. */
module ByteRing {
  import opened Words

  lemma SliceOfSlice(s: seq<U8>, a: nat, b: nat, i: nat, j: nat)
    requires a <= b <= |s| && i <= j <= b - a
    ensures s[a..b][i..j] == s[a + i..a + j]
  {
    var t := s[a..b];
    forall k | 0 <= k < j - i
      ensures t[i..j][k] == s[a + i..a + j][k]
    {
      assert t[i + k] == s[a + (i + k)];
    }
  }

  /** The ring slot of stream position p, for a stream whose position 0 has
      sequence number `isn`. */
  function Slot(isn: int, size: int, p: int): (k: int)
    requires 0 < size
    ensures 0 <= k < size
  {
    (isn + p) % size
  }

  /** Masking the 32-bit sequence number gives the same slot. */
  lemma SlotOfSeq(isn: int, size: int, p: int)
    requires RingSize(size)
    ensures Wrap32(isn + p) % size == Slot(isn, size, p)
  {
    ModOfMod(isn + p, TWO_32, size);
  }

  lemma SlotStep(isn: int, size: int, p: int, k: int)
    requires 0 < size && 0 <= k < size
    ensures Slot(isn, size, p + k) == var b := Slot(isn, size, p); if b + k < size then b + k else b + k - size
  {
    ModStep(isn + p, k, size);
    assert isn + p + k == isn + (p + k);
  }

  lemma SlotInjective(isn: int, size: int, p: int, q: int)
    requires 0 < size && p < q < p + size
    ensures Slot(isn, size, p) != Slot(isn, size, q)
  {
    if Slot(isn, size, p) == Slot(isn, size, q) {
      ModInjective(isn + p, isn + q, size);
    }
  }

  /** Where the region [lo, hi) crosses the end of the buffer: at the last
      position before hi whose slot is 0, if that is beyond lo. */
  lemma SplitRegion(isn: int, size: int, lo: int, hi: int)
    requires 0 < size && lo < hi <= lo + size
    ensures var cut := hi - Slot(isn, size, hi);
            if lo < cut then Slot(isn, size, lo) + (cut - lo) == size
            else Slot(isn, size, lo) + (hi - lo) == Slot(isn, size, hi)
  {
    var x, y := isn + lo, isn + hi;
    var m := y / size;
    assert y == size * m + y % size;
    if x < size * m {
      assert size * m == size * (m - 1) + size;
      DivModUnique(x, size, m - 1, x - size * (m - 1));
    } else {
      DivModUnique(x, size, m, x - size * m);
    }
  }

  /** `now` is `was` with the bytes of positions lo, lo + 1, ... overwritten. */
  ghost predicate Written(was: seq<U8>, now: seq<U8>, isn: int, lo: int, bytes: seq<U8>)
  {
    && 0 < |was| == |now|
    && (forall p :: lo <= p < lo + |bytes| ==> now[Slot(isn, |now|, p)] == bytes[p - lo])
    && (forall q :: 0 <= q < |now| && now[q] != was[q] ==> exists p :: lo <= p < lo + |bytes| && q == Slot(isn, |now|, p))
  }

  /** A position less than a lap away from the written ones keeps its byte. */
  lemma WrittenElsewhere(was: seq<U8>, now: seq<U8>, isn: int, lo: int, bytes: seq<U8>, p: int)
    requires Written(was, now, isn, lo, bytes)
    requires (p < lo && lo + |bytes| <= p + |now|) || (lo + |bytes| <= p < lo + |now|)
    ensures now[Slot(isn, |now|, p)] == was[Slot(isn, |now|, p)]
  {
    hide Slot;
    var q := Slot(isn, |now|, p);
    if now[q] != was[q] {
      var p' :| lo <= p' < lo + |bytes| && q == Slot(isn, |now|, p');
      if p < lo {
        SlotInjective(isn, |now|, p, p');
      } else {
        SlotInjective(isn, |now|, p', p);
      }
    }
  }

  /** Two copies, the second at the start of the buffer if the first reaches its
      end, write consecutive positions. */
  lemma TwoCopies(was: seq<U8>, t: seq<U8>, now: seq<U8>, isn: int, lo: int, bytes: seq<U8>, len1: nat)
    requires 0 < |was| && len1 <= |bytes| <= |was|
    requires var b := Slot(isn, |was|, lo);
             && b + len1 <= |was| && (len1 < |bytes| ==> b + len1 == |was|)
             && t == was[..b] + bytes[..len1] + was[b + |bytes[..len1]|..]
             && now == t[..0] + bytes[len1..] + t[0 + |bytes[len1..]|..]
    ensures Written(was, now, isn, lo, bytes)
  {
    hide Slot;
    var b, n := Slot(isn, |was|, lo), |was|;
    var rest := |bytes| - len1;
    forall p | lo <= p < lo + |bytes|
      ensures Slot(isn, n, p) == if p - lo < len1 then b + p - lo else p - lo - len1
    {
      SlotStep(isn, n, lo, p - lo);
    }
    forall p | lo <= p < lo + |bytes|
      ensures now[Slot(isn, n, p)] == bytes[p - lo]
    {
      if p - lo < len1 {
        assert now[b + p - lo] == t[b + p - lo] == bytes[..len1][p - lo];
      } else {
        assert now[p - lo - len1] == bytes[len1..][p - lo - len1];
      }
    }
    forall q | 0 <= q < n && now[q] != was[q]
      ensures exists p :: lo <= p < lo + |bytes| && q == Slot(isn, n, p)
    {
      if q < rest {
        assert Slot(isn, n, lo + q + len1) == q;
      } else {
        assert now[q] == t[q];
        assert b <= q < b + len1;
        assert Slot(isn, n, lo + q - b) == q;
      }
    }
  }

  /** Copies bytes into consecutive cells: memcpy. */
  method CopyIn(ring: array<U8>, at: nat, bytes: seq<U8>)
    requires at + |bytes| <= ring.Length
    modifies ring
    ensures ring[..] == old(ring[..])[..at] + bytes + old(ring[..])[at + |bytes|..]
  {
    ghost var was := ring[..];
    var k := 0;
    while k < |bytes|
      invariant 0 <= k <= |bytes|
      invariant ring[..at] == was[..at] && ring[at..at + k] == bytes[..k] && ring[at + k..] == was[at + k..]
    {
      ring[at + k] := bytes[k];
      k := k + 1;
    }
  }

  /** Fills the two pieces of a claimed region: one at `b`, one at the start. */
  method Fill(ring: array<U8>, b: nat, len1: nat, bytes: seq<U8>, ghost isn: int, ghost lo: int)
    requires 0 < ring.Length && b == Slot(isn, ring.Length, lo)
    requires len1 <= |bytes| <= ring.Length
    requires b + len1 <= ring.Length && (len1 < |bytes| ==> b + len1 == ring.Length)
    modifies ring
    ensures Written(old(ring[..]), ring[..], isn, lo, bytes)
  {
    hide Slot, Written;
    ghost var was := ring[..];
    CopyIn(ring, b, bytes[..len1]);
    ghost var mid := ring[..];
    CopyIn(ring, 0, bytes[len1..]);
    TwoCopies(was, mid, ring[..], isn, lo, bytes, len1);
  }

  /** The bytes at positions lo, lo + 1, ..., hi - 1. */
  function Window(ring: seq<U8>, isn: int, lo: int, hi: int): (bytes: seq<U8>)
    requires 0 < |ring| && lo <= hi
    ensures |bytes| == hi - lo
    ensures forall p :: lo <= p < hi ==> bytes[p - lo] == ring[Slot(isn, |ring|, p)]
  {
    seq(hi - lo, k requires 0 <= k < hi - lo => ring[Slot(isn, |ring|, lo + k)])
  }

  /** A window that does not cross the end of the buffer is one slice of it;
      one that does is the slice up to the end followed by one from the start. */
  lemma WindowSlices(ring: seq<U8>, isn: int, lo: int, hi: int)
    requires 0 < |ring| && lo <= hi <= lo + |ring|
    ensures var b := Slot(isn, |ring|, lo);
            Window(ring, isn, lo, hi) ==
              if b + (hi - lo) <= |ring| then ring[b..b + (hi - lo)] else ring[b..] + ring[..b + (hi - lo) - |ring|]
  {
    hide Slot;
    var b, n := Slot(isn, |ring|, lo), |ring|;
    forall p | lo <= p < hi
      ensures Slot(isn, n, p) == if b + p - lo < n then b + p - lo else b + p - lo - n
    {
      SlotStep(isn, n, lo, p - lo);
    }
    var w := Window(ring, isn, lo, hi);
    forall k | 0 <= k < hi - lo
      ensures w[k] == ring[if b + k < n then b + k else b + k - n]
    {
      assert w[lo + k - lo] == ring[Slot(isn, n, lo + k)];
    }
  }
}
