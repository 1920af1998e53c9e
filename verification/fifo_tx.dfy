/** The ExaNIC transmit FIFO with its 16-bit sequence numbers and its table of
    feedback offsets: it does exactly what the unbounded model does. */
module FifoTx {
  import opened Words
  import opened TxLayout

  /** CACHE_ALIGN */
  function CacheAlign(x: nat): (n: nat)
    ensures x <= n < x + 64 && n % 64 == 0
  {
    (x + 63) / 64 * 64
  }

  /** A page-multiple buffer below 4 MiB, so that a lap holds fewer than 2^16
      chunks, and a power-of-two number of sequence numbers. */
  ghost predicate Geometry(size: nat, queueLen: nat)
  {
    && 0x1000 <= size < 0x40_0000 && size % 0x1000 == 0
    && 8 <= queueLen <= 0x8000 && TWO_16 % queueLen == 0
  }

  /** `round_down_pow2` */
  function RoundDownPow2(n: bv32): (r: bv32)
  {
    var a := n | (n >> 1);
    var b := a | (a >> 2);
    var c := b | (b >> 4);
    var d := c | (c >> 8);
    var e := d | (d >> 16);
    (e >> 1) + 1
  }

  /** It is the largest power of two that is not above n. */
  lemma RoundDown(n: bv32)
    ensures var r := RoundDownPow2(n);
            && r != 0 && (r & (r - 1)) == 0 && (n != 0 ==> r <= n && n - r < r)
  {
  }

  /** The queue length that the acquire call derives from a buffer size. */
  lemma QueueLength(size: nat, n: bv32)
    requires 0x1000 <= size < 0x40_0000 && size % 0x1000 == 0
    requires n as nat == size / 512 && 8 <= n <= 8191
    ensures Geometry(size, RoundDownPow2(n) as nat)
  {
  }

  lemma Difference16(a: int, b: int)
    requires 0 <= a - b < TWO_16
    ensures Wrap16(Wrap16(a) - Wrap16(b)) == a - b
  {
  }

  lemma NextSeq(k: nat)
    ensures Wrap16(Wrap16(k) + 1) == Wrap16(k + 1)
  {
  }

  /** The table entry of sequence number k: k & (queue_len - 1). */
  function Entry(k: nat, queueLen: nat): (i: nat)
    requires 0 < queueLen
    ensures i < queueLen
  {
    k % queueLen
  }

  /** The table holds the end offset of every chunk from the last feedback on. */
  ghost predicate Table(offsets: seq<nat>, t: Tx)
    requires 0 < |offsets|
  {
    forall k :: t.fb <= k < t.Next() ==> offsets[Entry(k, |offsets|)] == t.chunks[k].end
  }

  lemma TableSend(offsets: seq<nat>, t: Tx, n: nat, need: bool)
    requires 0 < |offsets| && Table(offsets, t) && t.fb < t.Next() < t.fb + |offsets|
    ensures Table(offsets[Entry(t.Next(), |offsets|) := t.off + n], Send(t, n, need))
  {
    var q, u := |offsets|, Send(t, n, need);
    forall k | t.fb <= k < u.Next()
      ensures offsets[Entry(t.Next(), q) := t.off + n][Entry(k, q)] == u.chunks[k].end
    {
      if k < t.Next() && Entry(k, q) == Entry(t.Next(), q) {
        ModInjective(k, t.Next(), q);
      }
    }
  }

  /** Masking the 16-bit sequence number finds the entry of the unbounded one. */
  lemma TableIndex(size: nat, queueLen: nat, k: nat)
    requires Geometry(size, queueLen)
    ensures 0 < queueLen && Entry(Wrap16(k), queueLen) == Entry(k, queueLen)
  {
    ModOfMod(k, TWO_16, queueLen);
  }

  lemma InitTable(size: nat, queueLen: nat, offsets: seq<nat>)
    requires 0 < queueLen == |offsets| && offsets[0] == size
    ensures Table(offsets, Init(size))
  {
  }

  lemma TableSame(offsets: seq<nat>, t: Tx, u: Tx)
    requires 0 < |offsets| && Table(offsets, t) && u.chunks == t.chunks && t.fb <= u.fb
    ensures Table(offsets, u)
  {
  }

  /** Both sequence numbers that a request is weighed against are recent. */
  lemma RequestBound(t: Tx, size: nat, queueLen: nat)
    requires Geometry(size, queueLen) && Inv(t, size, queueLen)
    ensures 0 <= t.Next() - t.req < TWO_16 && 0 <= t.Next() - t.roll < TWO_16
  {
  }

  /** A lap holds fewer chunks than there are sequence numbers. */
  lemma LapBound(t: Tx, size: nat, queueLen: nat)
    requires Geometry(size, queueLen) && Inv(t, size, queueLen)
    ensures 0 <= t.Next() - t.roll < TWO_16
  {
  }

  class TxFifo {
    const bufferSize: nat
    const queueLen: nat
    const feedbackOffsets: array<nat>
    var nextOffset: nat
    var feedbackSeq: U16
    var requestSeq: U16
    var rolloverSeq: U16
    var nextSeq: U16
    var needFeedback: bool
    // The slot that the hardware writes.
    var feedback: U16
    // The chunk between begin and end, if any.
    var pending: Pending
    // The unbounded state that the fields above stand for.
    var tx: Tx

    ghost predicate Valid()
      reads this, feedbackOffsets
    {
      && Geometry(bufferSize, queueLen) && feedbackOffsets.Length == queueLen
      && SessionInv(Session(tx, pending), bufferSize, queueLen)
      && (pending.Pending? ==> needFeedback == pending.need)
      && Fields()
    }

    /** The 16-bit fields and the table agree with the unbounded state. */
    ghost predicate Fields()
      requires 0 < queueLen == feedbackOffsets.Length
      reads this, feedbackOffsets
    {
      && nextOffset == tx.off
      && feedbackSeq == Wrap16(tx.fb) && requestSeq == Wrap16(tx.req) && rolloverSeq == Wrap16(tx.roll)
      && nextSeq == Wrap16(tx.Next()) && feedback == Wrap16(tx.hw)
      && Table(feedbackOffsets[..], tx)
    }

    constructor (size: nat, queueLen: nat)
      requires Geometry(size, queueLen) && 8 <= queueLen
      ensures Valid() && Session(tx, pending) == Start(size)
      ensures bufferSize == size && this.queueLen == queueLen && fresh(feedbackOffsets)
    {
      bufferSize, this.queueLen := size, queueLen;
      feedbackOffsets := new nat[queueLen](k => if k == 0 then size else 0);
      nextOffset, feedbackSeq, requestSeq, rolloverSeq, nextSeq := 0, 0, 0, 1, 1;
      needFeedback, feedback, pending, tx := false, 0, Idle, Init(size);
      new;
      hide Laid, NeedsFeedback, Table, Geometry;
      InitInv(size, queueLen);
      InitTable(size, queueLen, feedbackOffsets[..]);
    }

    /** The hardware reports chunk k in the feedback slot, if it was asked to. */
    method HardwareReport(k: nat)
      requires Valid()
      modifies this`feedback, this`tx
      ensures Valid() && tx == Report(old(tx), k)
    {
      hide Laid;
      ReportInv(tx, bufferSize, queueLen, k);
      tx := Report(tx, k);
      feedback := Wrap16(tx.hw);
    }

    /** `exanic_update_tx_feedback`, after the hardware had a chance to report
        chunk k. Feedback that was asked for is never found invalid. */
    method UpdateFeedback(k: nat) returns (ok: bool)
      requires Valid() && pending.Idle?
      modifies this`feedback, this`feedbackSeq, this`tx
      ensures Valid() && ok && tx == Poll(old(tx), k)
    {
      hide Laid, NeedsFeedback;
      HardwareReport(k);
      var seq_ := feedback;
      Difference16(tx.Next(), tx.hw);
      PollInv(old(tx), bufferSize, queueLen, k);
      ok := Wrap16(nextSeq - seq_) <= queueLen;
      if ok {
        feedbackSeq := seq_;
        tx := tx.(fb := tx.hw);
      }
    }

    /** Looking up the offset of sequence number k in the table. */
    method OffsetOf(seq_: U16, k: nat) returns (offset: nat)
      requires Valid() && seq_ == Wrap16(k) && tx.fb <= k < tx.Next()
      ensures offset == tx.chunks[k].end
    {
      TableIndex(bufferSize, queueLen, k);
      offset := feedbackOffsets[Entry(seq_, queueLen)];
    }

    /** Spins on feedback until a sequence number is free. */
    method AwaitSequence(polls: seq<nat>) returns (ok: bool, rest: seq<nat>)
      requires Valid() && pending.Idle?
      modifies this`feedback, this`feedbackSeq, this`tx
      ensures Valid() && (tx, rest) == AwaitSeq(old(tx), queueLen, polls)
      ensures ok <==> tx.Next() - tx.fb < queueLen
    {
      hide Laid, NeedsFeedback, Poll;
      rest := polls;
      Difference16(tx.Next(), tx.fb);
      while Wrap16(nextSeq - feedbackSeq) >= queueLen
        invariant Valid() && pending.Idle?
        invariant Wrap16(nextSeq - feedbackSeq) == tx.Next() - tx.fb
        invariant AwaitSeq(tx, queueLen, rest) == AwaitSeq(old(tx), queueLen, polls)
        decreases |rest|
      {
        if rest == [] {
          return false, rest;
        }
        var valid := UpdateFeedback(rest[0]);
        rest := rest[1..];
        Difference16(tx.Next(), tx.fb);
      }
      ok := true;
    }

    /** Begins a new lap if this one is full; tells whether n bytes fit now. */
    method TryPlace(n: nat) returns (fits: bool)
      requires Valid() && pending.Idle?
      modifies this`nextOffset, this`rolloverSeq, this`tx
      ensures Valid() && tx == NewLap(old(tx), bufferSize, n) && fits == Fits(tx, bufferSize, n)
    {
      hide Laid, NeedsFeedback, Table, Wrap16;
      LapBound(tx, bufferSize, queueLen);
      NewLapInv(tx, bufferSize, queueLen, n);
      Difference16(tx.Next(), tx.fb);
      Difference16(tx.Next(), tx.roll);
      if Wrap16(nextSeq - feedbackSeq) <= Wrap16(nextSeq - rolloverSeq) {
        if nextOffset + n <= bufferSize {
          return true;
        }
        nextOffset, rolloverSeq := 0, nextSeq;
        tx := tx.(off := 0, roll := tx.Next());
        TableSame(feedbackOffsets[..], old(tx), tx);
      }
      var feedbackOffset := OffsetOf(feedbackSeq, tx.fb);
      fits := nextOffset + n <= feedbackOffset;
    }

    /** Spins on feedback until there is room for n bytes. */
    method AwaitRoom(n: nat, polls: seq<nat>) returns (r: Outcome)
      requires Valid() && pending.Idle?
      modifies this`feedback, this`feedbackSeq, this`nextOffset, this`rolloverSeq, this`tx
      ensures Valid() && (r, tx) == AwaitSpace(old(tx), bufferSize, n, polls)
    {
      hide Laid, NeedsFeedback, Poll, NewLap, Fits;
      var rest := polls;
      while true
        invariant Valid() && pending.Idle?
        invariant AwaitSpace(tx, bufferSize, n, rest) == AwaitSpace(old(tx), bufferSize, n, polls)
        decreases |rest|
      {
        var fits := TryPlace(n);
        if fits {
          return Ready;
        }
        if n > MaxChunk(bufferSize) {
          return TooLarge;
        }
        if rest == [] {
          return Spinning;
        }
        var valid := UpdateFeedback(rest[0]);
        rest := rest[1..];
      }
    }

    /** Decides whether the chunk about to be sent asks for feedback. */
    method DecideFeedback(n: nat, requestOffset: nat)
      requires Valid() && pending.Idle? && requestOffset == tx.chunks[tx.req].end
      modifies this`needFeedback
      ensures Valid() && needFeedback == NeedsFeedback(tx, queueLen, n)
    {
      hide Laid, Table, Wrap16, Geometry, Inv;
      RequestBound(tx, bufferSize, queueLen);
      Difference16(tx.Next(), tx.req);
      Difference16(tx.Next(), tx.roll);
      if Wrap16(nextSeq - requestSeq) > queueLen / 2 {
        needFeedback := true;
      } else if Wrap16(nextSeq - requestSeq) > Wrap16(nextSeq - rolloverSeq) {
        needFeedback := true;
      } else {
        needFeedback := nextOffset + n - requestOffset > FEEDBACK_INTERVAL;
      }
    }

    /** `exanic_prepare_tx_chunk`, given what the hardware reports on each poll;
        Spinning if the polls run out while it still waits. */
    method PrepareChunk(chunkSize: nat, polls: seq<nat>) returns (r: Outcome)
      requires Valid() && pending.Idle?
      modifies this`feedback, this`feedbackSeq, this`nextOffset, this`rolloverSeq, this`needFeedback, this`tx
      ensures Valid()
      ensures var p := Prepare(old(tx), bufferSize, queueLen, CacheAlign(chunkSize), polls);
              r == p.outcome && tx == p.tx && (r == Ready ==> needFeedback == p.need)
    {
      hide Laid, NeedsFeedback, AwaitSeq, AwaitSpace;
      var n := CacheAlign(chunkSize);
      var requestOffset := OffsetOf(requestSeq, tx.req);
      var ok, rest := AwaitSequence(polls);
      if !ok {
        return Spinning;
      }
      r := AwaitRoom(n, rest);
      if r == Ready {
        DecideFeedback(n, requestOffset);
      }
    }

    /** `exanic_begin_transmit_frame` and `_payload`: a chunk of this size,
        header and padding included. */
    method BeginTransmit(chunkSize: nat, polls: seq<nat>) returns (ok: bool)
      requires Valid() && 0 < chunkSize
      modifies this`feedback, this`feedbackSeq, this`nextOffset, this`rolloverSeq, this`needFeedback, this`tx, this`pending
      ensures Valid()
      ensures Session(tx, pending) == Step(old(Session(tx, pending)), bufferSize, queueLen, Begin(CacheAlign(chunkSize), polls))
      ensures ok <==> old(pending).Idle? && pending.Pending?
      ensures ok ==> Free(tx, bufferSize, CacheAlign(chunkSize))
    {
      hide Laid, NeedsFeedback, Prepare;
      if pending.Pending? {
        return false;
      }
      ghost var t := tx;
      var n := CacheAlign(chunkSize);
      PrepareInv(tx, bufferSize, queueLen, n, polls);
      var r := PrepareChunk(chunkSize, polls);
      ok := r == Ready;
      if ok {
        pending := Pending(n, needFeedback);
        FitsIsFree(tx, bufferSize, queueLen, n);
      }
    }

    /** `exanic_send_tx_chunk` */
    method SendChunk(n: nat)
      requires Valid() && 64 <= n && Fits(tx, bufferSize, n) && tx.Next() - tx.fb < queueLen
      modifies this`nextOffset, this`requestSeq, this`nextSeq, this`tx, feedbackOffsets
      ensures Fields() && tx == Send(old(tx), n, needFeedback)
    {
      hide Laid, NeedsFeedback, Table, Geometry, Fits, Entry, Wrap16;
      NextSeq(tx.Next());
      TableSend(feedbackOffsets[..], tx, n, needFeedback);
      TableIndex(bufferSize, queueLen, tx.Next());
      nextOffset := nextOffset + n;
      var index := Entry(nextSeq, queueLen);
      feedbackOffsets[index] := nextOffset;
      assert feedbackOffsets[..] == old(feedbackOffsets[..])[index := nextOffset];
      if needFeedback {
        requestSeq := nextSeq;
      }
      nextSeq := Wrap16(nextSeq + 1);
      tx := Send(tx, n, needFeedback);
    }

    /** `exanic_end_transmit_frame` and `_payload`: sends a chunk no larger than
        the one prepared. */
    method EndTransmit(chunkSize: nat)
      requires Valid() && pending.Pending? && 0 < chunkSize && CacheAlign(chunkSize) <= pending.n
      modifies this`nextOffset, this`requestSeq, this`nextSeq, this`tx, this`pending, feedbackOffsets
      ensures Valid()
      ensures Session(tx, pending) == Step(old(Session(tx, pending)), bufferSize, queueLen, End(CacheAlign(chunkSize)))
    {
      hide Laid, NeedsFeedback, Table, Geometry, Prepare, CacheAlign, Send;
      var n := CacheAlign(chunkSize);
      SendInv(tx, bufferSize, queueLen, n, needFeedback);
      SendChunk(n);
      pending := Idle;
    }

    /** `exanic_abort_transmit_frame` */
    method AbortTransmit()
      requires Valid()
      modifies this`pending
      ensures Valid() && pending.Idle?
    {
      pending := Idle;
    }
  }
}
