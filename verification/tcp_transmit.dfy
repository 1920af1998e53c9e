/** The TCP transmit ring: bytes gathered from user buffers, kept for sending and
    retransmission until acknowledged. */
module TcpTransmit {
  import opened Words
  import opened ByteRing
  import opened ChecksumIov

  lemma WrittenNone(was: seq<U8>, isn: int, lo: int)
    requires 0 < |was|
    ensures Written(was, was, isn, lo, [])
  {
  }

  /** Writes of consecutive positions add up. */
  lemma WrittenMore(was: seq<U8>, mid: seq<U8>, now: seq<U8>, isn: int, lo: int, a: seq<U8>, b: seq<U8>)
    requires Written(was, mid, isn, lo, a) && Written(mid, now, isn, lo + |a|, b) && |a| + |b| <= |was|
    ensures Written(was, now, isn, lo, a + b)
  {
    hide Slot;
    forall p | lo <= p < lo + |a + b|
      ensures now[Slot(isn, |now|, p)] == (a + b)[p - lo]
    {
      if p < lo + |a| {
        WrittenElsewhere(mid, now, isn, lo + |a|, b, p);
      }
    }
    forall q | 0 <= q < |now| && now[q] != was[q]
      ensures exists p :: lo <= p < lo + |a + b| && q == Slot(isn, |now|, p)
    {
      if now[q] != mid[q] {
        var p :| lo + |a| <= p < lo + |a| + |b| && q == Slot(isn, |now|, p);
      } else {
        var p :| lo <= p < lo + |a| && q == Slot(isn, |mid|, p);
      }
    }
  }

  /** The lap of a sequence number, its bits above the mask, and its place in it. */
  function Lap(x: int, size: int): (q: int)
    requires 0 < size
  {
    x / size
  }

  function Place(x: int, size: int): (r: int)
    requires 0 < size
    ensures 0 <= r < size
  {
    x % size
  }

  lemma LapIs(x: int, size: int, q: int, r: int)
    requires 0 < size && x == size * q + r && 0 <= r < size
    ensures Lap(x, size) == q && Place(x, size) == r
  {
    DivModUnique(x, size, q, r);
  }

  lemma LapDef(x: int, size: int)
    requires 0 < size
    ensures x == size * Lap(x, size) + Place(x, size)
  {
  }

  /** Two 32-bit sequence numbers len - 1 apart lie in the same lap of the ring
      exactly when the range does not cross the end of the buffer. */
  lemma SameLap(x: U32, len: nat, size: int)
    requires RingSize(size) && 0 < len <= size
    ensures Lap(x, size) == Lap(Wrap32(x + len - 1), size) <==> Place(x, size) + len <= size
  {
    var m := TWO_32 / size;
    assert TWO_32 == size * m;
    SameLapIn(x, len, size, m);
  }

  lemma SameLapIn(x: U32, len: nat, size: int, m: int)
    requires 0 < size <= TWO_30 && TWO_32 == size * m && 0 < len <= size
    ensures Lap(x, size) == Lap(Wrap32(x + len - 1), size) <==> Place(x, size) + len <= size
  {
    hide Lap, Place;
    LapDef(x, size);
    var q, r := Lap(x, size), Place(x, size);
    if r + len <= size {
      InLap(x, q, r, len, size, m);
      LapIs(x + len - 1, size, q, r + len - 1);
    } else if x + len - 1 < TWO_32 {
      assert size * (q + 1) == size * q + size;
      LapIs(x + len - 1, size, q + 1, r + len - 1 - size);
    } else {
      LateLap(x, q, r, size);
      var y := x + len - 1 - TWO_32;
      assert size * 0 == 0;
      LapIs(y, size, 0, y);
    }
  }

  lemma InLap(x: U32, q: int, r: int, len: nat, size: int, m: int)
    requires 0 < size && x == size * q + r && r + len <= size && 0 < len && 0 <= r && TWO_32 == size * m
    ensures x + len - 1 < TWO_32
  {
    assert size * (m - q) == size * m - size * q;
    Positive(size, m - q);
  }

  lemma LateLap(x: U32, q: int, r: int, size: int)
    requires 0 < size <= TWO_30 && x == size * q + r && 0 <= r < size && x + size >= TWO_32
    ensures q > 0
  {
  }

  /** The same test for an empty range. */
  lemma EmptyLap(x: U32, size: int)
    requires 0 < size <= TWO_30
    ensures Lap(x, size) == Lap(Wrap32(x - 1), size) <==> Place(x, size) != 0
  {
    hide Lap, Place;
    LapDef(x, size);
    var q, r := Lap(x, size), Place(x, size);
    if x == 0 {
      assert size * 0 == 0;
      LapIs(0, size, 0, 0);
      var y: U32 := Wrap32(x - 1);
      LapDef(y, size);
      LateLap(y, Lap(y, size), Place(y, size), size);
    } else if r > 0 {
      LapIs(x - 1, size, q, r - 1);
    } else {
      assert size * (q - 1) == size * q - size;
      LapIs(x - 1, size, q - 1, size - 1);
    }
  }

  /** Where the second slice of a range that crosses the end of the buffer ends. */
  lemma EndSlot(isn: int, size: int, lo: int, len: nat)
    requires RingSize(size) && len <= size && Slot(isn, size, lo) + len > size
    ensures Place(Wrap32(Wrap32(isn + lo) + len), size) == Slot(isn, size, lo) + len - size
  {
    hide Slot, Place, Wrap32, RingSize;
    SizeBound(size);
    Wrap32Add(isn + lo, len);
    assert isn + lo + len == isn + (lo + len);
    PlaceIsSlot(isn, size, lo + len);
    SlotWraps(isn, size, lo, len);
  }

  /** Position p + n when the n bytes reach or pass the end of the buffer. */
  lemma SlotWraps(isn: int, size: int, p: int, n: int)
    requires 0 < size && 0 <= n <= size && Slot(isn, size, p) + n >= size
    ensures Slot(isn, size, p + n) == Slot(isn, size, p) + n - size
  {
    if n < size {
      SlotStep(isn, size, p, n);
    } else {
      var q := (isn + p) / size;
      assert isn + p + n == size * (q + 1) + (isn + p) % size;
      DivModUnique(isn + p + n, size, q + 1, (isn + p) % size);
      assert isn + (p + n) == isn + p + n;
    }
  }

  /** The ring holds the last bytes of the stream, as many as fit. */
  ghost predicate Holds(ring: seq<U8>, isn: int, sent: seq<U8>)
    requires 0 < |ring|
  {
    forall p :: 0 <= p < |sent| && |sent| - |ring| <= p ==> ring[Slot(isn, |ring|, p)] == sent[p]
  }

  lemma HoldsMore(was: seq<U8>, now: seq<U8>, isn: int, sent: seq<U8>, bytes: seq<U8>)
    requires 0 < |was| && Holds(was, isn, sent) && Written(was, now, isn, |sent|, bytes) && |bytes| <= |was|
    ensures Holds(now, isn, sent + bytes)
  {
    hide Slot;
    forall p | 0 <= p < |sent + bytes| && |sent + bytes| - |now| <= p
      ensures now[Slot(isn, |now|, p)] == (sent + bytes)[p]
    {
      if p < |sent| {
        WrittenElsewhere(was, now, isn, |sent|, bytes, p);
      }
    }
  }

  /** Any part of the stream that is still held can be read off the ring. */
  lemma HeldWindow(ring: seq<U8>, isn: int, sent: seq<U8>, lo: nat, hi: nat)
    requires 0 < |ring| && Holds(ring, isn, sent) && lo <= hi <= |sent| <= lo + |ring|
    ensures Window(ring, isn, lo, hi) == sent[lo..hi]
  {
    hide Slot;
    var w := Window(ring, isn, lo, hi);
    forall k | 0 <= k < hi - lo
      ensures w[k] == sent[lo..hi][k]
    {
      assert w[lo + k - lo] == ring[Slot(isn, |ring|, lo + k)];
    }
  }

  /** One buffer of the list extends what has been copied. */
  lemma DoneMore(flat: seq<U8>, skipLen: nat, offs: nat, x: seq<U8>, len: nat, skip: nat)
    requires offs + |x| <= |flat| && flat[offs..offs + |x|] == x && len <= |x|
    requires skip == (if offs < skipLen then skipLen - offs else 0) && skip < len
    ensures Done(flat, skipLen, offs + len) == Done(flat, skipLen, offs) + x[skip..len]
  {
    SliceOfSlice(flat, offs, offs + |x|, skip, len);
    if skipLen <= offs {
      assert Done(flat, skipLen, offs) == flat[skipLen..offs];
      assert flat[skipLen..offs + len] == flat[skipLen..offs] + flat[offs..offs + len];
    }
  }

  lemma PlaceIsSlot(isn: int, size: int, p: int)
    requires RingSize(size)
    ensures Place(Wrap32(isn + p), size) == Slot(isn, size, p)
  {
    SlotOfSeq(isn, size, p);
  }

  lemma SizeBound(size: int)
    requires RingSize(size)
    ensures 0 < size <= TWO_30
  {
  }

  lemma FlatShort(a: seq<U8>, b: seq<U8>)
    ensures Flat([a]) == a && Flat([a, b]) == a + b
  {
    assert [a, b][1..] == [b] && [a][1..] == [] && [b][1..] == [];
  }

  /** What `exa_tcp_tx_buffer_get` chooses between. */
  ghost predicate GetsRight(ring: seq<U8>, sent: seq<U8>, isn: U32, start: U32, len: nat, lo: nat)
    requires 0 < |ring| && lo + len <= |sent|
  {
    var size, b, end := |ring|, Place(start, |ring|), Wrap32(start + len);
    var right := len > 0 || Slot(isn, size, lo) != 0;
    if Lap(start, size) == Lap(Wrap32(end as int - 1), size)
    then b + len <= size && right && Flat([ring[b..b + len]]) == sent[lo..lo + len]
    else (Flat([ring[b..], ring[..Place(end, size)]]) == sent[lo..lo + len] <==> right)
  }

  lemma GetNone(ring: seq<U8>, sent: seq<U8>, isn: U32, start: U32, lo: nat)
    requires RingSize(|ring|) && start == Wrap32(isn + lo) && lo <= |sent|
    ensures GetsRight(ring, sent, isn, start, 0, lo)
  {
    hide Slot, Flat, Lap, Place, RingSize, Wrap32;
    SizeBound(|ring|);
    var size, b, end := |ring|, Place(start, |ring|), Wrap32(start);
    PlaceIsSlot(isn, size, lo);
    Wrap32Add(isn + lo, 0);
    EmptyLap(start, size);
    FlatShort(ring[b..b], []);
    FlatShort(ring[b..], ring[..Place(end, size)]);
    assert |ring[b..] + ring[..Place(end, size)]| == size - b + Place(end, size);
  }

  lemma GetSome(ring: seq<U8>, sent: seq<U8>, isn: U32, start: U32, len: nat, lo: nat)
    requires RingSize(|ring|) && Holds(ring, isn, sent)
    requires start == Wrap32(isn + lo) && 0 < len && lo + len <= |sent| <= lo + |ring|
    ensures GetsRight(ring, sent, isn, start, len, lo)
  {
    hide Slot, Holds, Flat, Lap, Place, RingSize, Wrap32;
    SizeBound(|ring|);
    var size, b, end := |ring|, Place(start, |ring|), Wrap32(start + len);
    PlaceIsSlot(isn, size, lo);
    Wrap32Add(start + len, -1);
    HeldWindow(ring, isn, sent, lo, lo + len);
    WindowSlices(ring, isn, lo, lo + len);
    SameLap(start, len, size);
    if b + len <= size {
      FlatShort(ring[b..b + len], []);
    } else {
      EndSlot(isn, size, lo, len);
      FlatShort(ring[b..], ring[..Place(end, size)]);
    }
  }

  class Transmitter {
    /** The sequence number of the first byte. */
    const isn: U32
    const ring: array<U8>
    var sendSeq: U32
    /** Every byte written, in order. */
    ghost var sent: seq<U8>

    ghost predicate Valid()
      reads this, ring
    {
      RingSize(ring.Length) && sendSeq == Wrap32(isn + |sent|) && Holds(ring[..], isn, sent)
    }

    constructor (isn: U32, size: nat)
      requires RingSize(size)
      ensures Valid() && fresh(ring) && ring.Length == size && sent == [] && this.isn == isn
    {
      this.isn, ring, sendSeq, sent := isn, new U8[size], isn, [];
    }

    /** The copying loop of `exa_tcp_tx_buffer_write`. */
    method Gather(iov: seq<seq<U8>>, skipLen: nat, sendLen: nat, start: nat)
      requires RingSize(ring.Length) && sendLen <= ring.Length && skipLen + sendLen <= |Flat(iov)|
      requires start == Slot(isn, ring.Length, |sent|)
      modifies ring
      ensures Written(old(ring[..]), ring[..], isn, |sent|, Flat(iov)[skipLen..skipLen + sendLen])
    {
      hide Slot, RingSize, Written, Flat;
      ghost var was, lo, flat := ring[..], |sent|, Flat(iov);
      var bufOffs := start;
      var i, offs, iovLen := 0, 0, skipLen + sendLen;
      WrittenNone(was, isn, lo);
      FlatNone(iov);
      while i < |iov| && offs < iovLen
        invariant 0 <= i <= |iov| && 0 <= offs <= iovLen && 0 <= bufOffs < ring.Length
        invariant offs == Min(|Flat(iov[..i])|, iovLen)
        invariant bufOffs == Slot(isn, ring.Length, lo + |Done(flat, skipLen, offs)|)
        invariant Written(was, ring[..], isn, lo, Done(flat, skipLen, offs))
      {
        FlatSplit(iov, i);
        var len := Min(|iov[i]|, iovLen - offs);
        var skip := if offs < skipLen then skipLen - offs else 0;
        if len > skip {
          DoneMore(flat, skipLen, offs, iov[i], len, skip);
          bufOffs := CopyPiece(bufOffs, iov[i][skip..len], was, lo, Done(flat, skipLen, offs));
        }
        offs := offs + len;
        i := i + 1;
      }
      assert iov[..|iov|] == iov;
      assert Done(flat, skipLen, offs) == flat[skipLen..skipLen + sendLen];
    }

    /** One piece, in one copy or two. */
    method CopyPiece(bufOffs: nat, piece: seq<U8>, ghost was: seq<U8>, ghost lo: nat, ghost done: seq<U8>) returns (next: nat)
      requires 0 < ring.Length && bufOffs == Slot(isn, ring.Length, lo + |done|) && |done| + |piece| <= ring.Length
      requires |was| == ring.Length && Written(was, ring[..], isn, lo, done)
      modifies ring
      ensures next == Slot(isn, ring.Length, lo + |done + piece|)
      ensures Written(was, ring[..], isn, lo, done + piece)
    {
      hide Slot, Written;
      ghost var mid := ring[..];
      assert lo + |done| + |piece| == lo + |done + piece|;
      if bufOffs + |piece| < ring.Length {
        Fill(ring, bufOffs, |piece|, piece, isn, lo + |done|);
        SlotStep(isn, ring.Length, lo + |done|, |piece|);
        next := bufOffs + |piece|;
      } else {
        var l := ring.Length - bufOffs;
        Fill(ring, bufOffs, l, piece, isn, lo + |done|);
        SlotWraps(isn, ring.Length, lo + |done|, |piece|);
        next := |piece| - l;
      }
      WrittenMore(was, mid, ring[..], isn, lo, done, piece);
    }

    /** `exa_tcp_tx_buffer_write`: takes sendLen bytes of the scattered buffers
        after the first skipLen. */
    method Write(iov: seq<seq<U8>>, skipLen: nat, sendLen: nat)
      requires Valid() && sendLen <= ring.Length && skipLen + sendLen <= |Flat(iov)|
      modifies this, ring
      ensures Valid() && sent == old(sent) + Flat(iov)[skipLen..skipLen + sendLen]
    {
      hide Slot, Flat, Written, Holds, Place, Wrap32, RingSize;
      ghost var was := ring[..];
      SizeBound(ring.Length);
      PlaceIsSlot(isn, ring.Length, |sent|);
      Gather(iov, skipLen, sendLen, Place(sendSeq, ring.Length));
      ghost var bytes := Flat(iov)[skipLen..skipLen + sendLen];
      HoldsMore(was, ring[..], isn, sent, bytes);
      Wrap32Add(isn + |sent|, sendLen);
      sendSeq := Wrap32(sendSeq + sendLen);
      sent := sent + Flat(iov)[skipLen..skipLen + sendLen];
      assert isn + |sent| == isn + |old(sent)| + sendLen;
    }

    /** `exa_tcp_tx_buffer_get`, for the range that starts at stream position lo:
        one or two slices of the ring that together are the bytes asked for. Only
        an empty range that starts on a lap boundary goes wrong. */
    method Get(start: U32, len: nat, ghost lo: nat) returns (iov: seq<seq<U8>>)
      requires Valid() && start == Wrap32(isn + lo) && lo + len <= |sent| <= lo + ring.Length
      ensures Flat(iov) == sent[lo..lo + len] <==> len > 0 || Slot(isn, ring.Length, lo) != 0
    {
      hide Slot, Holds, Flat, Lap, Place, RingSize, Wrap32;
      var size := ring.Length;
      SizeBound(size);
      var end := Wrap32(start + len);
      var b := Place(start, size);
      if len == 0 {
        GetNone(ring[..], sent, isn, start, lo);
      } else {
        GetSome(ring[..], sent, isn, start, len, lo);
      }
      if Lap(start, size) == Lap(Wrap32(end as int - 1), size) {
        iov := [ring[b..b + len]];
      } else {
        iov := [ring[b..], ring[..Place(end, size)]];
      }
    }
  }
}
