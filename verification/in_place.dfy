/** A packet taken from the receive ring without copying it first: the chunks are
    read where they lie, while the hardware runs, and only then is the first one
    checked. */
module InPlace {
  import opened Words
  import opened RxRing
  import opened ByteRing
  import opened Checksum
  import FifoRx
  import PollBody

  // ------------------------------------------------------------------
  // What the hardware wrote, as a stream

  /** What a chunk adds to its frame. */
  ghost function Data(c: Chunk): (bytes: seq<U8>)
    requires WellFormed(c)
  {
    if c.length == 0 then c.payload else c.payload[..c.length]
  }

  /** The data of chunks f..n-1, whatever frames they belong to. */
  ghost function Stream(log: seq<Chunk>, f: nat, n: nat): (bytes: seq<U8>)
    requires AllFormed(log) && f <= n <= |log|
    ensures f == n ==> bytes == []
  {
    if f == n then [] else Stream(log, f, n - 1) + Data(log[n - 1])
  }

  lemma {:induction false} StreamGrows(log: seq<Chunk>, more: seq<Chunk>, f: nat, n: nat)
    requires AllFormed(log) && AllFormed(more) && log <= more && f <= n <= |log|
    ensures Stream(more, f, n) == Stream(log, f, n)
  {
    if f < n {
      StreamGrows(log, more, f, n - 1);
    }
  }

  lemma {:induction false} StreamSplit(log: seq<Chunk>, f: nat, m: nat, n: nat)
    requires AllFormed(log) && f <= m <= n <= |log|
    ensures Stream(log, f, n) == Stream(log, f, m) + Stream(log, m, n)
  {
    if m < n {
      StreamSplit(log, f, m, n - 1);
    }
  }

  lemma StreamOne(log: seq<Chunk>, c: nat)
    requires AllFormed(log) && c < |log|
    ensures Stream(log, c, c + 1) == Data(log[c])
  {
    hide Data;
    assert Stream(log, c, c) + Data(log[c]) == Data(log[c]);
  }

  lemma {:induction false} StreamBody(log: seq<Chunk>, f: nat, n: nat)
    requires AllFormed(log) && f <= n <= |log| && Partial(log, f, n)
    ensures Stream(log, f, n) == Body(log, f, n)
  {
    if f < n {
      StreamBody(log, f, n - 1);
    }
  }

  lemma StreamFrame(log: seq<Chunk>, f: nat, e: nat)
    requires AllFormed(log) && IsFrame(log, f, e)
    ensures Stream(log, f, e + 1) == FrameBytes(log, f, e)
  {
    StreamBody(log, f, e);
  }

  // ------------------------------------------------------------------
  // What the calls of the chunk reader return

  /** The feed tells the chunks f..n-1. */
  ghost predicate Tells(feed: seq<PollBody.Feed>, log: seq<Chunk>, f: nat, n: nat)
    requires AllFormed(log)
  {
    if feed == [] then f == n
    else
      var before, e := feed[..|feed| - 1], feed[|feed| - 1];
      if e.Chunk? then
        f < n <= |log| && Tells(before, log, f, n - 1) && e == PollBody.Chunk(Data(log[n - 1]), log[n - 1].length == 0)
      else Tells(before, log, f, n)
  }

  lemma {:induction false} TellsGrows(feed: seq<PollBody.Feed>, log: seq<Chunk>, more: seq<Chunk>, f: nat, n: nat)
    requires AllFormed(log) && AllFormed(more) && log <= more && Tells(feed, log, f, n)
    ensures Tells(feed, more, f, n)
  {
    if feed != [] {
      var k := |feed| - 1;
      TellsGrows(feed[..k], log, more, f, if feed[k].Chunk? then n - 1 else n);
    }
  }

  lemma {:induction false} TellsBytes(feed: seq<PollBody.Feed>, log: seq<Chunk>, f: nat, n: nat)
    requires AllFormed(log) && f <= |log| && Tells(feed, log, f, n)
    ensures f <= n <= |log| && PollBody.Bytes(feed) == Stream(log, f, n)
  {
    hide Data;
    if feed != [] {
      var k := |feed| - 1;
      TellsBytes(feed[..k], log, f, if feed[k].Chunk? then n - 1 else n);
    }
  }

  /** Chunks that are not the last of their frame are full. */
  lemma {:induction false} TellsMore(feed: seq<PollBody.Feed>, log: seq<Chunk>, f: nat, n: nat)
    requires AllFormed(log) && Tells(feed, log, f, n)
    ensures forall i :: 0 <= i < |feed| && feed[i].Chunk? && feed[i].more ==> |feed[i].bytes| == PAYLOAD_SIZE
    ensures n <= |log| && Partial(log, f, n) ==> forall i :: 0 <= i < |feed| && feed[i].Chunk? ==> feed[i].more
  {
    if feed != [] {
      var k := |feed| - 1;
      TellsMore(feed[..k], log, f, if feed[k].Chunk? then n - 1 else n);
      assert forall i :: 0 <= i < k ==> feed[i] == feed[..k][i];
    }
  }

  /** A beginning of the feed tells a beginning of the chunks. */
  lemma {:induction false} TellsPrefix(feed: seq<PollBody.Feed>, k: nat, log: seq<Chunk>, f: nat, n: nat) returns (m: nat)
    requires AllFormed(log) && Tells(feed, log, f, n) && k <= |feed|
    ensures m <= n && Tells(feed[..k], log, f, m)
  {
    var i := |feed| - 1;
    if k <= i {
      assert feed[..i][..k] == feed[..k];
      m := TellsPrefix(feed[..i], k, log, f, if feed[i].Chunk? then n - 1 else n);
    } else {
      assert feed[..k] == feed;
      m := n;
    }
  }

  /** Chunks of one frame are told as chunks of one frame. */
  lemma {:induction false} TellsFrame(feed: seq<PollBody.Feed>, k: nat, more: bool, log: seq<Chunk>, c: nat, m: nat)
    requires AllFormed(log) && c < |log| && k <= |feed| && Tells(feed[..k], log, c + 1, m)
    requires more == (log[c].length == 0) && 0 < m <= |log| && Partial(log, c, m - 1)
    ensures PollBody.InFrame(feed, k, more)
  {
    if 0 < k {
      var before := feed[..k - 1];
      assert feed[..k][..k - 1] == before;
      if feed[k - 1].Chunk? {
        TellsBytes(before, log, c + 1, m - 1);
        TellsMore(before, log, c + 1, m - 1);
        assert forall i :: 0 <= i < k - 1 ==> feed[i] == before[i];
        assert PollBody.Open(feed, k - 1, more);
        TellsFrame(feed, k - 1, more, log, c, m - 1);
      } else {
        TellsFrame(feed, k - 1, more, log, c, m);
      }
    }
  }

  /** The feed that makes the copy loop cross from one frame into the next is one
      that the hardware can bring about, whatever it has written before. */
  lemma ShortWritten(log: seq<Chunk>)
    requires AllFormed(log)
    ensures var more := log + [Chunk([1] + seq(119, _ => 0), 1, 0, 0), Chunk(PollBody.TWOS, 0, 0, 0)];
            AllFormed(more) && Tells(PollBody.SHORT, more, |log|, |more|)
  {
    var n, one, two := |log|, Chunk([1] + seq(119, _ => 0), 1, 0, 0), Chunk(PollBody.TWOS, 0, 0, 0);
    var more, feed := log + [one, two], PollBody.SHORT;
    assert forall k :: 0 <= k < n ==> more[k] == log[k];
    assert more[n] == one && more[n + 1] == two && Data(one) == [1] && Data(two) == PollBody.TWOS;
    assert feed[..1][..0] == [] && feed[..1][0] == feed[0];
    assert Tells(feed[..1], more, n, n + 1);
  }

  // ------------------------------------------------------------------
  // The packet

  /** The hardware marked the frame that ends in this chunk as bad. */
  ghost predicate Marked(c: Chunk) { c.length != 0 && !HasCode(c, 0) }

  /** One call of the chunk reader, and a look at what it found. */
  method Next(r: FifoRx.Reader) returns (e: PollBody.Feed, id: nat)
    requires r.Valid() && r.Tracked()
    modifies r`nextChunk, r`generation, r`sentinelChunk, r`sentinelGeneration, r`next, r`sentinel, r.hw
    ensures r.Valid() && r.Tracked() && old(r.hw.log) <= r.hw.log
    ensures e.Chunk? ==>
              && r.next == old(r.next) + 1 && id == FifoRx.ChunkId(r.hw.first, old(r.next))
              && (|r.hw.log| < old(r.next) + NUM_CHUNKS ==>
                    e == PollBody.Chunk(Data(r.hw.log[old(r.next)]), r.hw.log[old(r.next)].length == 0))
    ensures e.Quiet? ==> r.next == old(r.next) == |r.hw.log|
    ensures e.Fault? ==>
              old(r.next) + NUM_CHUNKS < |r.hw.log| || (old(r.next) < |r.hw.log| && Marked(r.hw.log[old(r.next)]))
  {
    hide Generation;
    var st, more;
    var slot := r.nextChunk;
    ghost var c := r.next;
    st, id, more := r.ReceiveChunkInplace();
    match st {
      case Received(size) =>
        var buf := new U8[size];
        r.CopyPayload(slot, size, buf, 0, r.next + FifoRx.LAPS, c);
        e := PollBody.Chunk(buf[..], more);
        if |r.hw.log| < c + NUM_CHUNKS {
          assert buf[..] == buf[0..0 + size] == r.hw.log[c].payload[..size];
          assert r.hw.log[c].payload[..PAYLOAD_SIZE] == r.hw.log[c].payload;
        }
      case Nothing =>
        e := PollBody.Quiet;
      case _ =>
        e := PollBody.Fault;
    }
  }

  /** What up to `calls` further calls return. */
  method Collect(r: FifoRx.Reader, calls: nat, ghost c: nat) returns (feed: seq<PollBody.Feed>, ghost n: nat)
    requires r.Valid() && r.Tracked() && c <= r.next
    modifies r`nextChunk, r`generation, r`sentinelChunk, r`sentinelGeneration, r`next, r`sentinel, r.hw
    ensures r.Valid() && r.Tracked() && old(r.hw.log) <= r.hw.log && |feed| <= calls
    ensures |r.hw.log| < c + NUM_CHUNKS ==> Tells(feed, r.hw.log, old(r.next), n) && Faulty(feed, r.hw.log, n)
  {
    hide Generation, Data;
    feed, n := [], r.next;
    while |feed| < calls
      invariant r.Valid() && r.Tracked() && old(r.hw.log) <= r.hw.log && |feed| <= calls
      invariant c <= n == r.next && old(r.next) <= n
      invariant |r.hw.log| < c + NUM_CHUNKS ==> Tells(feed, r.hw.log, old(r.next), n)
      invariant forall i :: 0 <= i < |feed| ==> !feed[i].Fault?
    {
      ghost var log, told := r.hw.log, feed;
      var e, id := Next(r);
      feed := feed + [e];
      assert feed[..|feed| - 1] == told;
      if |r.hw.log| < c + NUM_CHUNKS {
        TellsGrows(told, log, r.hw.log, old(r.next), n);
      }
      if e.Fault? {
        return;
      }
      n := r.next;
    }
  }

  /** An error ends the feed, and comes from a frame marked as bad. */
  ghost predicate Faulty(feed: seq<PollBody.Feed>, log: seq<Chunk>, n: nat)
  {
    forall i :: 0 <= i < |feed| && feed[i].Fault? ==> i == |feed| - 1 && n < |log| && Marked(log[n])
  }

  /** The flag is that of the last chunk told. */
  lemma {:induction false} TellsFlag(feed: seq<PollBody.Feed>, k: nat, more: bool, log: seq<Chunk>, c: nat, m: nat)
    requires AllFormed(log) && c < |log| && k <= |feed| && Tells(feed[..k], log, c + 1, m) && more == (log[c].length == 0)
    ensures c < m <= |log| && PollBody.Flag(feed, k, more) == (log[m - 1].length == 0)
  {
    hide Data;
    if 0 < k {
      assert feed[..k][..k - 1] == feed[..k - 1];
      TellsFlag(feed, k - 1, more, log, c, if feed[k - 1].Chunk? then m - 1 else m);
    }
  }

  /** Why a packet is not taken: nothing has arrived; an error; the first chunk is
      shorter than the header; the frame ends, or an error comes, before all bytes
      wanted; the calls run out before; or the hardware has overwritten the header. */
  datatype Verdict = Taken | NoPacket | BadPacket | NoHeader | BadBody | NoMore | Overwritten

  /** What a refusal means; what is said of the body holds while the first chunk has
      not been overwritten. */
  ghost predicate Reason(v: Verdict, log: seq<Chunk>, c: nat, m: nat, hdr: nat, end: nat)
    requires AllFormed(log)
  {
    var intact := c < |log| < c + NUM_CHUNKS;
    match v
    case Taken => c < |log|
    case NoPacket => |log| == c
    case BadPacket => c + NUM_CHUNKS < |log| || (c < |log| && Marked(log[c]))
    case NoHeader => intact ==> |Data(log[c])| < hdr
    case BadBody =>
      intact ==>
        c < m <= |log| && ((log[m - 1].length != 0 && |Stream(log, c, m)| < end) || (m < |log| && Marked(log[m])))
    case NoMore => intact ==> c < m <= |log| && |Stream(log, c, m)| < end
    case Overwritten => c + NUM_CHUNKS < |log|
  }

  /** A body that was not completed, in terms of what the hardware wrote. */
  lemma Incomplete(log: seq<Chunk>, c: nat, n: nat, feed: seq<PollBody.Feed>, first: PollBody.Feed,
                   hdr: nat, end: nat, st: PollBody.Outcome, lo: nat, hi: nat)
    returns (m: nat)
    requires AllFormed(log) && c < |log| < c + NUM_CHUNKS && Tells(feed, log, c + 1, n) && Faulty(feed, log, n)
    requires first == PollBody.Chunk(Data(log[c]), log[c].length == 0) && hdr <= |first.bytes| && hdr + hi <= end
    requires st != PollBody.Done && PollBody.Explained(st, feed, first.bytes[hdr..], first.more, lo, hi)
    ensures Reason(if st == PollBody.Failed then BadBody else NoMore, log, c, m, hdr, end)
  {
    hide PollBody.Bytes, Data, Tells, Stream, PollBody.Flag, Marked;
    var init := first.bytes[hdr..];
    m := n;
    TellsAfter(feed, log, c, n, hdr);
    if st == PollBody.Failed {
      var j :| 0 <= j < |feed| && PollBody.Breaks(feed, init, first.more, j, lo, hi);
      if !feed[j].Fault? {
        m := TellsPrefix(feed, j + 1, log, c + 1, n);
        TellsAfter(feed[..j + 1], log, c, m, hdr);
        TellsFlag(feed, j + 1, first.more, log, c, m);
      }
    }
  }

  /** Bytes from..to of what the hardware wrote from chunk c on, all of which lie in
      the chunks before m and not all before the last of them. */
  ghost predicate Shows(log: seq<Chunk>, c: nat, m: nat, from: nat, to: nat, bytes: seq<U8>)
    requires AllFormed(log)
  {
    && c < m <= |log| && from <= to <= |Stream(log, c, m)| && bytes == Stream(log, c, m)[from..to]
    && (c + 1 < m ==> |Stream(log, c, m - 1)| < to)
  }

  /** The wanted bytes lie in one frame, now or when the frame is complete, if and
      only if the frame is long enough; then they are that frame's bytes. */
  lemma ShowsFrame(log: seq<Chunk>, later: seq<Chunk>, c: nat, m: nat, from: nat, to: nat, bytes: seq<U8>, e: nat)
    requires AllFormed(log) && AllFormed(later) && log <= later && Shows(log, c, m, from, to, bytes)
    requires IsFrame(later, c, e)
    ensures Partial(log, c, m - 1) <==> to <= |FrameBytes(later, c, e)|
    ensures Partial(log, c, m - 1) ==> bytes == FrameBytes(later, c, e)[from..to]
  {
    hide Data, FrameBytes, Stream;
    StreamGrows(log, later, c, m);
    StreamGrows(log, later, c, m - 1);
    StreamFrame(later, c, e);
    if m <= e + 1 {
      StreamSplit(later, c, m, e + 1);
    } else {
      StreamSplit(later, c, e + 1, m - 1);
      assert log[e] == later[e];
    }
  }

  /** The body of a packet whose header ends hdr bytes into the chunk that comes
      next: `exanic_poll_recv_body` on the following chunks, then the check of the
      header chunk. If it passes, and the hardware is not just then overwriting
      that chunk, what was copied is what the hardware wrote; and the checksum is
      that of the bytes if they lie in one frame. A refusal has a reason. */
  method ReceivePacket(r: FifoRx.Reader, hdr: nat, skip: nat, buf1: array<U8>, buf2: array<U8>, csum: U64, calls: nat)
    returns (v: Verdict, acc: U64, ghost m: nat)
    requires r.Valid() && r.Tracked() && buf1 != buf2 && hdr % 2 == 0
    requires csum + PART_STEP * (calls + 2) <= TWO_64
    modifies r`nextChunk, r`generation, r`sentinelChunk, r`sentinelGeneration, r`next, r`sentinel, r.hw, buf1, buf2
    ensures r.Valid() && r.Tracked() && old(r.hw.log) <= r.hw.log
    ensures var c, log, end := old(r.next), r.hw.log, hdr + skip + buf1.Length + buf2.Length;
            v.Taken? && |log| != c + NUM_CHUNKS && |log| <= c + FifoRx.LAPS ==>
              && Shows(log, c, m, hdr + skip, end, buf1[..] + buf2[..])
              && (Partial(log, c, m - 1) ==> SameSum(acc, csum + WordSum(Stream(log, c, m)[hdr..end])))
    ensures Reason(v, r.hw.log, old(r.next), m, hdr, hdr + skip + buf1.Length + buf2.Length)
  {
    hide Generation, Data, WordSum, SameSum, Stream, Tells, Shows, Marked;
    hide PollBody.Bytes, PollBody.EvenCuts, PollBody.InFrame, PollBody.Flag, PollBody.Explained;
    acc, m := 0, 0;
    ghost var c := r.next;
    var first, id := Next(r);
    if !first.Chunk? {
      return if first.Quiet? then NoPacket else BadPacket, acc, m;
    }
    if |first.bytes| < hdr {
      return NoHeader, acc, m;
    }
    ghost var log := r.hw.log;
    var feed, n := Collect(r, calls, c);
    var init := first.bytes[hdr..];
    var st, more, k;
    st, acc, more, k := PollBody.RecvBody(feed, skip, buf1, buf2, init, csum, first.more);
    if st != PollBody.Done {
      v := if st == PollBody.Failed then BadBody else NoMore;
      if |r.hw.log| < c + NUM_CHUNKS {
        assert r.hw.log[c] == log[c];
        m := Unfinished(r.hw.log, c, n, feed, first, hdr, skip, buf1.Length, buf2.Length, st);
      }
      return;
    }
    var ok := r.Recheck(id, c);
    v := if ok then Taken else Overwritten;
    if ok && |r.hw.log| < c + NUM_CHUNKS {
      assert r.hw.log[c] == log[c];
      m := Packet(r.hw.log, c, n, feed, k, first, hdr, skip, hdr + skip + buf1.Length + buf2.Length, buf1[..] + buf2[..], acc, csum);
    }
  }

  lemma Unfinished(log: seq<Chunk>, c: nat, n: nat, feed: seq<PollBody.Feed>, first: PollBody.Feed,
                   hdr: nat, skip: nat, len1: nat, len2: nat, st: PollBody.Outcome)
    returns (m: nat)
    requires AllFormed(log) && c < |log| < c + NUM_CHUNKS && Tells(feed, log, c + 1, n) && Faulty(feed, log, n)
    requires first == PollBody.Chunk(Data(log[c]), log[c].length == 0) && hdr <= |first.bytes| && st != PollBody.Done
    requires var init, one, two := first.bytes[hdr..], skip, skip + len1;
             || PollBody.Explained(st, feed, init, first.more, 0, one)
             || PollBody.Explained(st, feed, init, first.more, one, two)
             || PollBody.Explained(st, feed, init, first.more, two, two + len2)
    ensures Reason(if st == PollBody.Failed then BadBody else NoMore, log, c, m, hdr, hdr + skip + len1 + len2)
  {
    hide PollBody.Explained, Reason, Tells, Data, Faulty;
    var init, one, two, end := first.bytes[hdr..], skip, skip + len1, hdr + skip + len1 + len2;
    if PollBody.Explained(st, feed, init, first.more, 0, one) {
      m := Incomplete(log, c, n, feed, first, hdr, end, st, 0, one);
    } else if PollBody.Explained(st, feed, init, first.more, one, two) {
      m := Incomplete(log, c, n, feed, first, hdr, end, st, one, two);
    } else {
      m := Incomplete(log, c, n, feed, first, hdr, end, st, two, two + len2);
    }
  }

  lemma Packet(log: seq<Chunk>, c: nat, n: nat, feed: seq<PollBody.Feed>, k: nat, first: PollBody.Feed,
               hdr: nat, skip: nat, end: nat, bytes: seq<U8>, acc: int, csum: int)
    returns (m: nat)
    requires AllFormed(log) && c < |log| && Tells(feed, log, c + 1, n) && k <= |feed|
    requires first == PollBody.Chunk(Data(log[c]), log[c].length == 0) && hdr % 2 == 0 && hdr <= |first.bytes|
    requires var flat := first.bytes[hdr..] + PollBody.Bytes(feed[..k]);
             && hdr + skip <= end <= hdr + |flat| && bytes == flat[skip..end - hdr]
             && (k > 0 ==> feed[k - 1].Chunk? && |first.bytes[hdr..] + PollBody.Bytes(feed[..k - 1])| < end - hdr)
             && (PollBody.EvenCuts(first.bytes[hdr..], feed, first.more) && PollBody.InFrame(feed, k, first.more) ==>
                   SameSum(acc, csum + WordSum(flat[..end - hdr])))
    ensures Shows(log, c, m, hdr + skip, end, bytes)
    ensures Partial(log, c, m - 1) ==> SameSum(acc, csum + WordSum(Stream(log, c, m)[hdr..end]))
  {
    hide WordSum, SameSum, PollBody.Bytes, Data, Tells, Stream, PollBody.EvenCuts, PollBody.InFrame, Partial;
    m := TellsPrefix(feed, k, log, c + 1, n);
    TellsAfter(feed[..k], log, c, m, hdr);
    Slices(Stream(log, c, m), first.bytes[hdr..] + PollBody.Bytes(feed[..k]), hdr, skip, end);
    if c + 1 < m {
      Least(feed, k, log, c, m);
      TellsAfter(feed[..k - 1], log, c, m - 1, hdr);
    }
    if Partial(log, c, m - 1) {
      TellsFrame(feed, k, first.more, log, c, m);
      TellsEven(feed, log, c, n, hdr);
    }
  }

  /** The header chunk, cut, and the chunks told after it. */
  lemma TellsAfter(feed: seq<PollBody.Feed>, log: seq<Chunk>, c: nat, m: nat, hdr: nat)
    requires AllFormed(log) && c < |log| && Tells(feed, log, c + 1, m) && hdr <= |Data(log[c])|
    ensures c < m <= |log| && hdr <= |Stream(log, c, m)|
    ensures Stream(log, c, m)[hdr..] == Data(log[c])[hdr..] + PollBody.Bytes(feed)
  {
    hide Data, PollBody.Bytes, Tells, Stream;
    TellsBytes(feed, log, c + 1, m);
    StreamSplit(log, c, c + 1, m);
    StreamOne(log, c);
    DropFirst(Data(log[c]), PollBody.Bytes(feed), hdr);
  }

  lemma DropFirst(a: seq<U8>, b: seq<U8>, n: nat)
    requires n <= |a|
    ensures (a + b)[n..] == a[n..] + b
  {
  }

  lemma TellsEven(feed: seq<PollBody.Feed>, log: seq<Chunk>, c: nat, n: nat, hdr: nat)
    requires AllFormed(log) && c < |log| && Tells(feed, log, c + 1, n) && hdr % 2 == 0 && hdr <= |Data(log[c])|
    ensures PollBody.EvenCuts(Data(log[c])[hdr..], feed, log[c].length == 0)
  {
    TellsMore(feed, log, c + 1, n);
  }

  lemma Slices(all: seq<U8>, flat: seq<U8>, hdr: nat, skip: nat, end: nat)
    requires hdr <= |all| && all[hdr..] == flat && hdr + skip <= end <= hdr + |flat|
    ensures end <= |all| && all[hdr + skip..end] == flat[skip..end - hdr] && all[hdr..end] == flat[..end - hdr]
  {
    assert all[hdr..|all|] == flat && flat[0..end - hdr] == flat[..end - hdr];
    SliceOfSlice(all, hdr, |all|, skip, end - hdr);
    SliceOfSlice(all, hdr, |all|, 0, end - hdr);
  }

  lemma Least(feed: seq<PollBody.Feed>, k: nat, log: seq<Chunk>, c: nat, m: nat)
    requires AllFormed(log) && c + 1 < m <= |log| && k <= |feed| && Tells(feed[..k], log, c + 1, m)
    requires k > 0 ==> feed[k - 1].Chunk?
    ensures k > 0 && Tells(feed[..k - 1], log, c + 1, m - 1)
  {
    assert k > 0 ==> feed[..k][..k - 1] == feed[..k - 1];
  }
}
