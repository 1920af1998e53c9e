/** The lock-free reader of the ExaNIC receive ring. The hardware may run between
    any two reads of the ring, down to single payload bytes. */
module FifoRx {
  import opened Words
  import opened RxRing

  /** What a receive call reports. Waiting stands for a call still spinning on
      the rest of a frame when its polls run out; `resynced` tells whether the
      catch-up after an overflow found an end of frame. */
  datatype Status =
    | Received(size: nat)
    | Nothing
    | Waiting
    | Truncated
    | Overflow(resynced: bool)
    | BadFrame(code: nat)

  /** The error bits of a frame status: status & 0x0F. */
  function ErrorBits(status: U8): (e: nat) { status % 16 }

  /** A status is a filter region and an error code, and these are the code. */
  lemma StatusParts(region: nat, code: nat)
    requires region < 16 && code < 16
    ensures ErrorBits(16 * region + code) == code
  {
  }

  /** How far the hardware may get ahead between two looks at the ring. */
  const LAPS: nat := 255 * NUM_CHUNKS

  /** What the backward scan knows of a quiet ring when the slots from `chunk` up
      have been seen: which side of the write position it is on, and that there is
      no end of frame but the one found. */
  ghost predicate Scanned(log: seq<Chunk>, chunk: nat, found: bool, at: nat, breakAt: nat, before: bool)
  {
    var w := |log|;
    var lap := w - w % 16384;
    && NUM_CHUNKS <= w && chunk < NUM_CHUNKS
    && (before <==> lap + chunk < w)
    && breakAt == (if before then w - 1 else lap - 1)
    && (before ==> Partial(log, lap + chunk, w))
    && (found ==> at < lap && Partial(log, at + 1, lap))
    && (!found ==> Partial(log, if before then w - NUM_CHUNKS else lap - NUM_CHUNKS + chunk, lap))
  }

  lemma ScanStep(first: U8, log: seq<Chunk>, chunk: nat, found: bool, at: nat, breakAt: nat, before: bool)
    requires chunk < NUM_CHUNKS <= |log|
    requires if chunk + 1 < NUM_CHUNKS then Scanned(log, chunk + 1, found, at, breakAt, before) else !found && !before
    ensures var n := Latest(chunk, |log|);
            var turn := chunk + 1 < NUM_CHUNKS && Generation(first, n) != Generation(first, breakAt);
            var breakAt' := if chunk + 1 == NUM_CHUNKS || turn then n else breakAt;
            if log[n].length != 0 && (before || turn) then Partial(log, n + 1, |log|)
            else Scanned(log, chunk, found || log[n].length != 0, if found || log[n].length == 0 then at else n, breakAt', before || turn)
  {
    hide Generation, Latest;
    LapOf(first, chunk, |log|);
  }

  lemma ScanEnd(log: seq<Chunk>, found: bool, at: nat, breakAt: nat, before: bool)
    requires Scanned(log, 0, found, at, breakAt, before)
    ensures if found then Partial(log, at + 1, |log|) else breakAt == |log| - 1 && Partial(log, |log| - NUM_CHUNKS, |log|)
  {
  }

  class Reader {
    const hw: Hardware
    var nextChunk: nat
    var generation: U8
    var sentinelChunk: nat
    var sentinelGeneration: U8
    // The unbounded chunk numbers that the fields above stand for.
    var next: nat
    var sentinel: nat

    ghost predicate Valid()
      reads this, hw
    {
      && hw.Valid()
      && next <= |hw.log| && sentinel < next
      && nextChunk == next % 16384 && generation == Generation(hw.first, next)
      && sentinelChunk == sentinel % 16384 && sentinelGeneration == Generation(hw.first, sentinel)
    }

    /** The next chunk to read is the first of a frame. */
    ghost predicate AtFrame()
      requires Valid()
      reads this, hw
    {
      hw.log[next - 1].length != 0
    }

    /** The hardware is less than 255 laps ahead of the last frame read. */
    ghost predicate Paced()
      reads this, hw
    {
      |hw.log| <= sentinel + LAPS
    }

    /** It is less than 255 laps ahead of the next chunk. */
    ghost predicate Tracked()
      reads this, hw
    {
      |hw.log| <= next + LAPS
    }

    function Here(): (p: Place)
      reads this, hw
    {
      Place(next, sentinel, |hw.log|)
    }

    /** `exanic_acquire_rx_buffer` */
    constructor (hw: Hardware)
      requires hw.Valid()
      modifies hw
      ensures Valid() && Paced() && this.hw == hw && old(hw.log) <= hw.log && sentinel == next - 1
      ensures hw.log == old(hw.log) ==>
                if AtFrame() then Partial(hw.log, next, |hw.log|) else next == |hw.log|
    {
      this.hw := hw;
      new;
      var found := Catchup();
    }

    /** Moves to the next chunk. */
    method Advances()
      requires Valid() && next < |hw.log|
      modifies this`next, this`nextChunk, this`generation
      ensures Valid() && next == old(next) + 1
    {
      hide Generation;
      Advance(hw.first, next);
      nextChunk := nextChunk + 1;
      if nextChunk == NUM_CHUNKS {
        nextChunk := 0;
        generation := Wrap8(generation + 1);
      }
      next := next + 1;
    }

    /** Copies payload bytes while the hardware runs. What arrives is what was
        written, if in the end the slot has not been touched again. */
    method CopyPayload(slot: nat, len: nat, buf: array<U8>, at: nat, upTo: nat, ghost c: nat)
      requires hw.Valid() && c < |hw.log| <= upTo && slot == c % 16384 && len <= PAYLOAD_SIZE && at + len <= buf.Length
      modifies hw, buf
      ensures hw.Valid() && old(hw.log) <= hw.log && |hw.log| <= upTo
      ensures buf[..at] == old(buf[..at]) && buf[at + len..] == old(buf[at + len..])
      ensures |hw.log| < c + NUM_CHUNKS ==> buf[at..at + len] == hw.log[c].payload[..len]
    {
      var k := 0;
      while k < len
        invariant 0 <= k <= len && hw.Valid() && old(hw.log) <= hw.log && |hw.log| <= upTo
        invariant buf[..at] == old(buf[..at]) && buf[at + len..] == old(buf[at + len..])
        invariant |hw.log| < c + NUM_CHUNKS ==> buf[at..at + k] == hw.log[c].payload[..k]
      {
        hw.Runs(upTo);
        ghost var before := buf[at..at + k];
        if |hw.log| < c + NUM_CHUNKS {
          LatestIs(c, |hw.log|);
        }
        buf[at + k] := hw.ByteAt(slot, k);
        assert buf[at..at + k] == before;
        k := k + 1;
      }
    }

    /** Reads the info word of the next chunk. If it shows the reader's
        generation, it is that chunk's; one generation less, and the hardware has
        not got there. */
    method Peek(upTo: nat) returns (u: Info)
      requires Valid() && |hw.log| <= upTo <= next + LAPS
      modifies hw
      ensures Valid() && old(hw.log) <= hw.log && |hw.log| <= upTo
      ensures u.generation == generation <==> |hw.log| <= next + NUM_CHUNKS && next < |hw.log|
      ensures u.generation == generation ==> u.length == hw.log[next].length && u.status == hw.log[next].status
      ensures u.generation == Wrap8(generation - 1) <==> |hw.log| == next
    {
      hide Generation;
      hw.Runs(upTo);
      u := hw.InfoAt(nextChunk);
      SameGeneration(hw.first, next, Latest(nextChunk, |hw.log|));
    }

    /** `__exanic_rx_catchup`. However the hardware runs meanwhile, an end of frame
        that it finds is a real one and the reader ends up right after it. If the
        hardware is quiet, it is the most recent one; and if the whole ring holds
        none, the reader ends up where the hardware will write next. */
    method Catchup() returns (found: bool)
      requires hw.Valid()
      modifies this`nextChunk, this`generation, this`sentinelChunk, this`sentinelGeneration, this`next, this`sentinel, hw
      ensures Valid() && Paced() && old(hw.log) <= hw.log && sentinel == next - 1
      ensures old(|hw.log|) - NUM_CHUNKS < next
      ensures found ==> AtFrame()
      ensures hw.log == old(hw.log) ==>
                if found then Partial(hw.log, next, |hw.log|)
                else next == |hw.log| && Partial(hw.log, |hw.log| - NUM_CHUNKS, |hw.log|)
    {
      hide Generation;
      var at, slot, gen;
      found, at, slot, gen := FindEnd(|hw.log| + LAPS - NUM_CHUNKS);
      Advance(hw.first, at);
      sentinelChunk, sentinelGeneration, sentinel := slot, gen, at;
      nextChunk, generation, next := slot + 1, gen, at + 1;
      if nextChunk == NUM_CHUNKS {
        nextChunk, generation := 0, Wrap8(generation + 1);
      }
    }

    /** The backward scan: the chunk to restart after. */
    method FindEnd(upTo: nat) returns (found: bool, at: nat, slot: nat, gen: U8)
      requires hw.Valid() && |hw.log| <= upTo
      modifies hw
      ensures hw.Valid() && old(hw.log) <= hw.log && |hw.log| <= upTo
      ensures old(|hw.log|) - NUM_CHUNKS <= at < |hw.log| && slot == at % 16384 && gen == Generation(hw.first, at)
      ensures found ==> hw.log[at].length != 0
      ensures hw.log == old(hw.log) ==>
                if found then Partial(hw.log, at + 1, |hw.log|)
                else at == |hw.log| - 1 && Partial(hw.log, |hw.log| - NUM_CHUNKS, |hw.log|)
    {
      hide Generation, Scanned;
      ghost var w := |hw.log|;
      found, at, slot, gen := false, 0, 0, 0;
      var breakAt: nat, breakSlot, breakGen := 0, 0, 0;
      var beforeBreak := false;
      var chunk := NUM_CHUNKS;
      while 0 < chunk
        invariant 0 <= chunk <= NUM_CHUNKS && hw.Valid() && old(hw.log) <= hw.log && |hw.log| <= upTo
        invariant chunk < NUM_CHUNKS ==>
                    w - NUM_CHUNKS <= breakAt < |hw.log| && breakSlot == breakAt % 16384 && breakGen == Generation(hw.first, breakAt)
        invariant found ==>
                    && w - NUM_CHUNKS <= at < |hw.log| && slot == at % 16384 && gen == Generation(hw.first, at)
                    && hw.log[at].length != 0
        invariant chunk == NUM_CHUNKS ==> !found && !beforeBreak
        invariant hw.log == old(hw.log) && chunk < NUM_CHUNKS ==> Scanned(hw.log, chunk, found, at, breakAt, beforeBreak)
      {
        chunk := chunk - 1;
        ghost var log := hw.log;
        hw.Runs(upTo);
        var u := hw.InfoAt(chunk);
        var n := Latest(chunk, |hw.log|);
        if hw.log == old(hw.log) {
          assert log == hw.log;
          ScanStep(hw.first, hw.log, chunk, found, at, breakAt, beforeBreak);
        }
        if chunk == NUM_CHUNKS - 1 {
          breakAt, breakSlot, breakGen := n, chunk, u.generation;
        } else if u.generation != breakGen {
          beforeBreak := true;
          breakAt, breakSlot, breakGen := n, chunk, u.generation;
        }
        if u.length != 0 {
          if beforeBreak {
            found, at, slot, gen := true, n, chunk, u.generation;
            return;
          } else if !found {
            found, at, slot, gen := true, n, chunk, u.generation;
          }
        }
      }
      if hw.log == old(hw.log) {
        ScanEnd(hw.log, found, at, breakAt, beforeBreak);
      }
      if !found {
        at, slot, gen := breakAt, breakSlot, breakGen;
      }
    }

    /** Whether the hardware may have come round to the sentinel chunk, which
        precedes everything read since. */
    method Lapped(s: nat, slot: nat, gen: U8) returns (lapped: bool)
      requires hw.Valid() && s < |hw.log| && slot == s % 16384 && gen == Generation(hw.first, s)
      requires |hw.log| <= s + LAPS
      modifies hw
      ensures hw.Valid() && old(hw.log) <= hw.log && |hw.log| <= s + LAPS
      ensures lapped <==> s + NUM_CHUNKS < |hw.log|
    {
      hide Generation;
      hw.Runs(s + LAPS);
      var v := hw.InfoAt(slot);
      SameGeneration(hw.first, s, Latest(slot, |hw.log|));
      LatestSpan(s, |hw.log|);
      lapped := v.generation != gen;
    }

    /** Spins until the hardware has written the next chunk or gone past it. */
    method AwaitChunk(polls: nat) returns (arrived: bool, u: Info)
      requires Valid() && Paced()
      modifies hw
      ensures Valid() && Paced() && old(hw.log) <= hw.log
      ensures arrived ==> next < |hw.log| && (u.generation == generation <==> |hw.log| <= next + NUM_CHUNKS)
      ensures arrived && u.generation == generation ==> u.length == hw.log[next].length && u.status == hw.log[next].status
      ensures !arrived ==> |hw.log| == next
    {
      hide Generation;
      u := Peek(sentinel + LAPS);
      var left := polls;
      while u.generation == Wrap8(generation - 1)
        invariant Valid() && Paced() && old(hw.log) <= hw.log
        invariant u.generation == generation <==> next < |hw.log| <= next + NUM_CHUNKS
        invariant u.generation == Wrap8(generation - 1) <==> next == |hw.log|
        invariant u.generation == generation ==> u.length == hw.log[next].length && u.status == hw.log[next].status
        decreases left
      {
        if left == 0 {
          return false, u;
        }
        u := Peek(sentinel + LAPS);
        left := left - 1;
      }
      arrived := true;
    }

    /** `exanic_receive_frame`. A positive size means that the buffer holds
        exactly the next frame as the hardware wrote it, and the reader has moved
        past that frame; no frame is skipped without an overflow being reported. */
    method ReceiveFrame(buf: array<U8>, polls: nat) returns (st: Status)
      requires Valid() && Paced()
      modifies this`nextChunk, this`generation, this`sentinelChunk, this`sentinelGeneration, this`next, this`sentinel, hw, buf
      ensures Valid() && Paced() && old(hw.log) <= hw.log
      ensures st.Received? ==>
                && old(next) < next && IsFrame(hw.log, old(next), next - 1) && HasCode(hw.log[next - 1], 0)
                && st.size == |FrameBytes(hw.log, old(next), next - 1)| <= buf.Length
                && buf[..st.size] == FrameBytes(hw.log, old(next), next - 1)
      ensures st.Truncated? || st.BadFrame? ==> old(next) < next && IsFrame(hw.log, old(next), next - 1)
      ensures st.Truncated? ==> |FrameBytes(hw.log, old(next), next - 1)| > buf.Length
      ensures st.BadFrame? ==> 0 < st.code && HasCode(hw.log[next - 1], st.code)
      ensures st.Overflow? ==> old(sentinel) + NUM_CHUNKS < |hw.log| && old(|hw.log|) - NUM_CHUNKS < next
      ensures st.Nothing? ==> next == old(next) && |hw.log| == next
      ensures st.Waiting? ==> old(next) < next == |hw.log| && Partial(hw.log, old(next), next)
      ensures sentinel == if st.Received? || st.BadFrame? || st.Overflow? then next - 1 else old(sentinel)
      ensures !st.Waiting? && !st.Overflow? ==> old(AtFrame()) ==> AtFrame()
      ensures st.Overflow? && st.resynced ==> AtFrame()
    {
      hide Generation, FrameBytes, Body;
      var u := Peek(sentinel + LAPS);
      if u.generation == generation {
        st := ReadFrame(u, buf, polls);
      } else if u.generation == Wrap8(generation - 1) {
        st := Nothing;
      } else {
        var found := Catchup();
        st := Overflow(found);
      }
    }

    /** Reads the frame that starts at the next chunk, whose info is u. */
    method ReadFrame(first: Info, buf: array<U8>, polls: nat) returns (st: Status)
      requires Valid() && Paced() && next < |hw.log|
      requires first.generation == generation && first.length == hw.log[next].length && first.status == hw.log[next].status
      modifies this`nextChunk, this`generation, this`sentinelChunk, this`sentinelGeneration, this`next, this`sentinel, hw, buf
      ensures Valid() && Paced() && old(hw.log) <= hw.log && !st.Nothing?
      ensures st.Received? ==>
                && old(next) < next && IsFrame(hw.log, old(next), next - 1) && HasCode(hw.log[next - 1], 0)
                && st.size == |FrameBytes(hw.log, old(next), next - 1)| <= buf.Length
                && buf[..st.size] == FrameBytes(hw.log, old(next), next - 1)
      ensures st.Truncated? || st.BadFrame? ==> old(next) < next && IsFrame(hw.log, old(next), next - 1)
      ensures st.Truncated? ==> |FrameBytes(hw.log, old(next), next - 1)| > buf.Length
      ensures st.BadFrame? ==> 0 < st.code && HasCode(hw.log[next - 1], st.code)
      ensures st.Overflow? ==> old(sentinel) + NUM_CHUNKS < |hw.log| && old(|hw.log|) - NUM_CHUNKS < next
      ensures st.Overflow? && st.resynced ==> AtFrame()
      ensures st.Waiting? ==> old(next) < next == |hw.log| && Partial(hw.log, old(next), next)
      ensures sentinel == if st.Received? || st.BadFrame? || st.Overflow? then next - 1 else old(sentinel)
    {
      hide Generation, Body, FrameBytes, Partial;
      PartialNone(hw.log, next);
      ghost var f := next;
      var u, size := first, 0;
      while true
        invariant Valid() && Paced() && old(hw.log) <= hw.log
        invariant f <= next < |hw.log| && sentinel == old(sentinel) < f && size == PAYLOAD_SIZE * (next - f)
        invariant u.generation == generation && u.length == hw.log[next].length && u.status == hw.log[next].status
        invariant Partial(hw.log, f, next)
        invariant |hw.log| < f + NUM_CHUNKS && size <= buf.Length ==> buf[..size] == Body(hw.log, f, next)
        decreases sentinel + LAPS - next
      {
        var current := nextChunk;
        Advances();
        if u.length != 0 {
          st := EndFrame(u, current, size, buf, f);
          return;
        }
        PartialGrows(hw.log, hw.log, f, next - 1);
        MiddleChunk(current, size, buf, f);
        size := size + PAYLOAD_SIZE;
        var more;
        more, st, u := Onward(polls, f);
        if !more {
          return;
        }
      }
    }

    /** Waits for the next chunk of the frame that starts at f. Without one, the call
        is still waiting or the hardware has overtaken it. */
    method Onward(polls: nat, ghost f: nat) returns (more: bool, st: Status, u: Info)
      requires Valid() && Paced() && f < next && Partial(hw.log, f, next)
      modifies this`nextChunk, this`generation, this`sentinelChunk, this`sentinelGeneration, this`next, this`sentinel, hw
      ensures Valid() && Paced() && old(hw.log) <= hw.log
      ensures more ==>
                && next == old(next) < |hw.log| && sentinel == old(sentinel)
                && u.generation == generation && u.length == hw.log[next].length && u.status == hw.log[next].status
                && Partial(hw.log, f, next) && Body(hw.log, f, next) == old(Body(hw.log, f, next))
      ensures !more ==> st.Waiting? || st.Overflow?
      ensures !more && st.Waiting? ==>
                next == old(next) == |hw.log| && sentinel == old(sentinel) && Partial(hw.log, f, next)
      ensures !more && st.Overflow? ==>
                && old(sentinel) + NUM_CHUNKS < |hw.log| && old(|hw.log|) - NUM_CHUNKS < next && sentinel == next - 1
                && (st.resynced ==> AtFrame())
    {
      hide Generation, Body, Partial;
      ghost var log := hw.log;
      st := Waiting;
      more, u := AwaitChunk(polls);
      BodyGrows(log, hw.log, f, next);
      PartialGrows(log, hw.log, f, next);
      if more && u.generation != generation {
        var found := Catchup();
        more, st := false, Overflow(found);
      }
    }

    /** The last chunk of a frame, which may not fit the buffer. */
    method EndFrame(u: Info, current: nat, size: nat, buf: array<U8>, ghost f: nat) returns (st: Status)
      requires Valid() && Paced() && sentinel < f < next && size == PAYLOAD_SIZE * (next - 1 - f)
      requires current == (next - 1) % 16384 && u.generation == Generation(hw.first, next - 1)
      requires u.length == hw.log[next - 1].length != 0 && u.status == hw.log[next - 1].status && Partial(hw.log, f, next - 1)
      requires |hw.log| < f + NUM_CHUNKS && size <= buf.Length ==> buf[..size] == Body(hw.log, f, next - 1)
      modifies this`nextChunk, this`generation, this`sentinelChunk, this`sentinelGeneration, this`next, this`sentinel, hw, buf
      ensures Valid() && Paced() && old(hw.log) <= hw.log && !st.Nothing? && !st.Waiting?
      ensures !st.Overflow? ==> next == old(next) && IsFrame(hw.log, f, next - 1)
      ensures st.Received? ==>
                && HasCode(hw.log[next - 1], 0)
                && st.size == |FrameBytes(hw.log, f, next - 1)| <= buf.Length && buf[..st.size] == FrameBytes(hw.log, f, next - 1)
      ensures st.Truncated? ==> |FrameBytes(hw.log, f, next - 1)| > buf.Length
      ensures st.BadFrame? ==> 0 < st.code && HasCode(hw.log[next - 1], st.code)
      ensures st.Overflow? ==> old(sentinel) + NUM_CHUNKS < |hw.log| && old(|hw.log|) - NUM_CHUNKS < next
      ensures st.Overflow? && st.resynced ==> AtFrame()
      ensures sentinel == if st.Truncated? then old(sentinel) else next - 1
    {
      hide Generation, Body, FrameBytes, Partial;
      if size + u.length > buf.Length {
        FrameSize(hw.log, f, next - 1);
        return Truncated;
      }
      st := LastChunk(u, current, size, buf, f);
    }

    /** Copies a full chunk, if the buffer has room for it. */
    method MiddleChunk(current: nat, size: nat, buf: array<U8>, ghost f: nat)
      requires Valid() && Paced() && f < next && current == (next - 1) % 16384 && size == PAYLOAD_SIZE * (next - 1 - f)
      requires |hw.log| < f + NUM_CHUNKS && size <= buf.Length ==> buf[..size] == Body(hw.log, f, next - 1)
      requires Partial(hw.log, f, next)
      modifies hw, buf
      ensures Valid() && Paced() && old(hw.log) <= hw.log && Partial(hw.log, f, next)
      ensures |hw.log| < f + NUM_CHUNKS && size + PAYLOAD_SIZE <= buf.Length ==> buf[..size + PAYLOAD_SIZE] == Body(hw.log, f, next)
    {
      hide Generation;
      if size + PAYLOAD_SIZE <= buf.Length {
        CopyPayload(current, PAYLOAD_SIZE, buf, size, sentinel + LAPS, next - 1);
        BodyGrows(old(hw.log), hw.log, f, next - 1);
        ghost var payload := hw.log[next - 1].payload;
        assert payload[..PAYLOAD_SIZE] == payload;
        assert buf[..size + PAYLOAD_SIZE] == buf[..size] + buf[size..size + PAYLOAD_SIZE];
      }
    }

    /** Copies the last chunk, then checks the sentinel: if the hardware has not
        come round to the chunk before the frame, nothing in it was overwritten. */
    method LastChunk(u: Info, current: nat, size: nat, buf: array<U8>, ghost f: nat) returns (st: Status)
      requires Valid() && Paced() && sentinel < f < next && size == PAYLOAD_SIZE * (next - 1 - f)
      requires current == (next - 1) % 16384 && u.generation == Generation(hw.first, next - 1)
      requires u.length == hw.log[next - 1].length != 0 && u.status == hw.log[next - 1].status
      requires size + u.length <= buf.Length && Partial(hw.log, f, next - 1)
      requires |hw.log| < f + NUM_CHUNKS && size <= buf.Length ==> buf[..size] == Body(hw.log, f, next - 1)
      modifies this`nextChunk, this`generation, this`sentinelChunk, this`sentinelGeneration, this`next, this`sentinel, hw, buf
      ensures Valid() && Paced() && old(hw.log) <= hw.log
      ensures st.Overflow? || st.Received? || st.BadFrame?
      ensures st.Received? ==>
                && next == old(next) && IsFrame(hw.log, f, next - 1) && HasCode(hw.log[next - 1], 0)
                && st.size == |FrameBytes(hw.log, f, next - 1)| <= buf.Length
                && buf[..st.size] == FrameBytes(hw.log, f, next - 1)
      ensures st.BadFrame? ==> next == old(next) && IsFrame(hw.log, f, next - 1) && 0 < st.code && HasCode(hw.log[next - 1], st.code)
      ensures st.Overflow? ==> old(sentinel) + NUM_CHUNKS < |hw.log| && old(|hw.log|) - NUM_CHUNKS < next
      ensures st.Overflow? && st.resynced ==> AtFrame()
      ensures sentinel == next - 1
    {
      hide Generation;
      CopyPayload(current, u.length, buf, size, sentinel + LAPS, next - 1);
      var s, slot, gen := sentinel, sentinelChunk, sentinelGeneration;
      sentinelChunk, sentinelGeneration, sentinel := current, u.generation, next - 1;
      ghost var log := hw.log;
      var lapped := Lapped(s, slot, gen);
      BodyGrows(old(hw.log), hw.log, f, next - 1);
      if lapped {
        var found := Catchup();
        return Overflow(found);
      }
      BodySize(hw.log, f, next - 1);
      assert buf[..size + u.length] == buf[..size] + buf[size..size + u.length];
      if ErrorBits(u.status) != 0 {
        return BadFrame(ErrorBits(u.status));
      }
      st := Received(size + u.length);
    }

    /** `exanic_receive_chunk_inplace`: hands out the next chunk without copying
        it, with a number to check it by later. */
    method ReceiveChunkInplace() returns (st: Status, id: nat, more: bool)
      requires Valid() && Tracked()
      modifies this`nextChunk, this`generation, this`sentinelChunk, this`sentinelGeneration, this`next, this`sentinel, hw
      ensures Valid() && Tracked() && old(hw.log) <= hw.log
      ensures st.Received? ==>
                && next == old(next) + 1 && next <= |hw.log|
                && id == ChunkId(hw.first, old(next))
                && more == (hw.log[old(next)].length == 0)
                && st.size == (if more then PAYLOAD_SIZE else hw.log[old(next)].length)
                && (more || HasCode(hw.log[old(next)], 0))
      ensures st.BadFrame? ==> next == old(next) + 1 && AtFrame() && 0 < st.code && HasCode(hw.log[old(next)], st.code)
      ensures st.Overflow? ==> old(next) + NUM_CHUNKS < |hw.log|
      ensures st.Nothing? ==> next == old(next) && |hw.log| == next
      ensures st.Received? || st.BadFrame? || st.Nothing? || st.Overflow?
    {
      hide Generation;
      id, more := 0, false;
      var u := Peek(next + LAPS);
      if u.generation == generation {
        id := generation * NUM_CHUNKS + nextChunk;
        Advances();
        if u.length != 0 {
          if ErrorBits(u.status) != 0 {
            st := BadFrame(ErrorBits(u.status));
          } else {
            st := Received(u.length);
          }
        } else {
          more := true;
          st := Received(PAYLOAD_SIZE);
        }
      } else if u.generation == Wrap8(generation - 1) {
        st := Nothing;
      } else {
        var found := Catchup();
        st := Overflow(found);
      }
    }

    /** `exanic_receive_chunk_recheck` on a chunk handed out before. Within 255
        laps it succeeds exactly when the hardware has completed no chunk in that
        slot since; then every later chunk of the ring is untouched, and so is the
        chunk itself unless the hardware is overwriting it at this moment. */
    method Recheck(id: nat, ghost c: nat) returns (ok: bool)
      requires hw.Valid() && c < |hw.log| && id == ChunkId(hw.first, c)
      ensures |hw.log| <= c + LAPS ==> (ok <==> |hw.log| <= c + NUM_CHUNKS)
      ensures ok && |hw.log| <= c + LAPS ==> forall n :: c < n < |hw.log| ==> Intact(hw.log, hw.scribble, n)
      ensures ok && |hw.log| < c + NUM_CHUNKS ==> Intact(hw.log, hw.scribble, c)
    {
      hide Generation, Intact;
      var chunk, gen := id % NUM_CHUNKS, Wrap8(id / NUM_CHUNKS);
      ChunkIdParts(hw.first, c);
      if |hw.log| <= c + LAPS {
        SameGeneration(hw.first, c, Latest(chunk, |hw.log|));
      }
      LatestSpan(c, |hw.log|);
      ok := hw.InfoAt(chunk).generation == gen;
      forall n | c <= n < |hw.log| < n + NUM_CHUNKS
        ensures Intact(hw.log, hw.scribble, n)
      {
        IntactWhile(hw.log, hw.scribble, n);
      }
    }

    /** The chunk being overwritten when it is checked: the check succeeds. */
    method RecheckTorn(id: nat, ghost c: nat) returns (ok: bool)
      requires hw.Valid() && |hw.log| == c + NUM_CHUNKS && id == ChunkId(hw.first, c)
      requires !Intact(hw.log, hw.scribble, c)
      ensures ok
    {
      ok := Recheck(id, c);
    }

    /** Receives once for each entry of polls, into buffers of cap bytes. Call by
        call the reader moves over whole frames, in the order written; what a call
        reports is the frame it moved over, and only an overflow skips any. */
    method Run(cap: nat, polls: seq<nat>) returns (results: seq<Result>)
      requires Valid() && Paced()
      modifies this`nextChunk, this`generation, this`sentinelChunk, this`sentinelGeneration, this`next, this`sentinel, hw
      ensures Valid() && Paced() && old(hw.log) <= hw.log
      ensures Chained(results, old(Here()), Here())
      ensures forall i :: 0 <= i < |results| ==> Explained(hw.log, cap, results[i])
      ensures old(AtFrame()) && InStep(results) ==> AtFrame() && StartsAtFrames(hw.log, results)
      ensures |results| == |polls| || (results != [] && results[|results| - 1].st.Waiting?)
    {
      hide Generation, FrameBytes, Body, Explained;
      results := [];
      ghost var start, log0 := Here(), hw.log;
      var i := 0;
      while i < |polls|
        invariant 0 <= i == |results| <= |polls| && Valid() && Paced() && log0 <= hw.log
        invariant Chained(results, start, Here())
        invariant forall i :: 0 <= i < |results| ==> Explained(hw.log, cap, results[i])
        invariant old(AtFrame()) && InStep(results) ==> AtFrame() && StartsAtFrames(hw.log, results)
      {
        ghost var log, done := hw.log, results;
        var r := Receive(cap, polls[i]);
        results := results + [r];
        RunGrows(log, hw.log, cap, done, r);
        i := i + 1;
        if r.st.Waiting? {
          return;
        }
      }
    }

    /** One call of a run. */
    method Receive(cap: nat, polls: nat) returns (r: Result)
      requires Valid() && Paced()
      modifies this`nextChunk, this`generation, this`sentinelChunk, this`sentinelGeneration, this`next, this`sentinel, hw
      ensures Valid() && Paced() && old(hw.log) <= hw.log
      ensures r.before == old(Here()) && r.after == Here() && Explained(hw.log, cap, r)
      ensures old(AtFrame()) && InStep([r]) ==> AtFrame()
    {
      hide Generation, FrameBytes, Body;
      var before := Here();
      var buf := new U8[cap];
      var st := ReceiveFrame(buf, polls);
      r := Result(st, if st.Received? then buf[..st.size] else [], before, Here());
      assert [r][0] == r;
    }
  }

  /** Where reader and hardware are: the next chunk to read, the sentinel, and the
      number of chunks written. */
  datatype Place = Place(next: nat, sentinel: nat, written: nat)

  /** What one call of a run reported, and where it started and ended. */
  datatype Result = Result(st: Status, bytes: seq<U8>, before: Place, after: Place)

  /** The report is true of the chunks that the reader moved over, or says where
      the hardware is. */
  ghost predicate Explained(log: seq<Chunk>, cap: nat, r: Result)
  {
    var from, to := r.before.next, r.after.next;
    && AllFormed(log) && 0 < from && 0 < to <= r.after.written <= |log| && r.before.written <= r.after.written
    && r.after.sentinel == (if r.st.Received? || r.st.BadFrame? || r.st.Overflow? then to - 1 else r.before.sentinel)
    && match r.st
       case Received(size) =>
         && from < to && IsFrame(log, from, to - 1) && HasCode(log[to - 1], 0)
         && r.bytes == FrameBytes(log, from, to - 1) && size == |r.bytes| <= cap
       case Truncated => from < to && IsFrame(log, from, to - 1) && |FrameBytes(log, from, to - 1)| > cap
       case BadFrame(code) => from < to && IsFrame(log, from, to - 1) && 0 < code && HasCode(log[to - 1], code)
       case Nothing => from == to == r.after.written
       case Overflow(resynced) =>
         && r.before.sentinel + NUM_CHUNKS < r.after.written && r.before.written - NUM_CHUNKS < to
         && (resynced ==> log[to - 1].length != 0)
       case Waiting => from < to == r.after.written && Partial(log, from, to)
  }

  /** Each call starts where the one before ended. */
  ghost predicate Chained(results: seq<Result>, start: Place, end: Place)
  {
    if results == [] then start == end
    else
      var n := |results| - 1;
      results[n].after == end && Chained(results[..n], start, results[n].before)
  }

  /** No call is still waiting, and every overflow found its way back. */
  ghost predicate InStep(results: seq<Result>)
  {
    forall i :: 0 <= i < |results| ==> !results[i].st.Waiting? && (results[i].st.Overflow? ==> results[i].st.resynced)
  }

  ghost predicate StartsAtFrames(log: seq<Chunk>, results: seq<Result>)
  {
    forall i :: 0 <= i < |results| ==> 0 < results[i].before.next <= |log| && log[results[i].before.next - 1].length != 0
  }

  lemma ExplainedGrows(log: seq<Chunk>, more: seq<Chunk>, cap: nat, r: Result)
    requires Explained(log, cap, r) && log <= more && AllFormed(more)
    ensures Explained(more, cap, r)
  {
    hide Body, HasCode;
    if r.st.Received? || r.st.Truncated? || r.st.BadFrame? {
      BodyGrows(log, more, r.before.next, r.after.next - 1);
    }
  }

  lemma RunGrows(log: seq<Chunk>, more: seq<Chunk>, cap: nat, done: seq<Result>, r: Result)
    requires log <= more && AllFormed(more) && Explained(more, cap, r)
    requires forall i :: 0 <= i < |done| ==> Explained(log, cap, done[i])
    ensures forall i :: 0 <= i < |done + [r]| ==> Explained(more, cap, (done + [r])[i])
    ensures (done + [r])[..|done|] == done && (InStep(done + [r]) <==> InStep(done) && InStep([r]))
    ensures var from := r.before.next;
            StartsAtFrames(log, done) && from <= |log| && log[from - 1].length != 0 ==> StartsAtFrames(more, done + [r])
  {
    hide Explained;
    forall i | 0 <= i < |done + [r]|
      ensures Explained(more, cap, (done + [r])[i])
    {
      if i < |done| {
        ExplainedGrows(log, more, cap, done[i]);
      }
    }
    assert forall i :: 0 <= i < |done| ==> (done + [r])[i] == done[i];
    assert (done + [r])[|done|] == r && [r][0] == r;
    assert 0 < r.before.next by { FromPositive(more, cap, r); }
  }

  lemma FromPositive(log: seq<Chunk>, cap: nat, r: Result)
    requires Explained(log, cap, r)
    ensures 0 < r.before.next
  {
  }

  lemma ChunkIdParts(first: U8, c: nat)
    ensures ChunkId(first, c) % NUM_CHUNKS == c % 16384 && ChunkId(first, c) / NUM_CHUNKS == Generation(first, c)
  {
  }

  /** The number that identifies a chunk to its reader. */
  function ChunkId(first: U8, c: nat): (id: nat) { Generation(first, c) * NUM_CHUNKS + c % 16384 }
}
