/** The fused copy-and-checksum loop that drains a packet from the receive ring
    into the two pieces of a socket buffer. */
module PollBody {
  import opened Words
  import opened ByteRing
  import opened Checksum

  /** What successive calls of the chunk reader return: a chunk and whether more
      of the frame follows, nothing yet, or an error. */
  datatype Feed = Chunk(bytes: seq<U8>, more: bool) | Quiet | Fault

  datatype Outcome = Done | Failed | Starved

  /** The bytes of the chunks in a feed, whatever frames they belong to. */
  function Bytes(feed: seq<Feed>): (b: seq<U8>)
  {
    if feed == [] then []
    else Bytes(feed[..|feed| - 1]) + (if feed[|feed| - 1].Chunk? then feed[|feed| - 1].bytes else [])
  }

  /** The more-chunks flag after n entries; a read that finds nothing leaves it. */
  function Flag(feed: seq<Feed>, n: nat, more: bool): (b: bool)
    requires n <= |feed|
  {
    if n == 0 then more
    else if feed[n - 1].Chunk? then feed[n - 1].more
    else Flag(feed, n - 1, more)
  }

  /** The current frame goes on after n entries. */
  ghost predicate Open(feed: seq<Feed>, n: nat, more: bool)
    requires n <= |feed|
  {
    more && forall k :: 0 <= k < n && feed[k].Chunk? ==> feed[k].more
  }

  /** The bytes among n entries that belong to the current frame. */
  ghost function FrameBytes(feed: seq<Feed>, n: nat, more: bool): (b: seq<U8>)
    requires n <= |feed|
  {
    if n == 0 then []
    else FrameBytes(feed, n - 1, more) + if feed[n - 1].Chunk? && Open(feed, n - 1, more) then feed[n - 1].bytes else []
  }

  /** All chunks among the first n entries belong to the current frame. */
  ghost predicate InFrame(feed: seq<Feed>, n: nat, more: bool)
    requires n <= |feed|
  {
    forall j :: 0 <= j < n && feed[j].Chunk? ==> Open(feed, j, more)
  }

  /** Frames are cut at even boundaries. */
  ghost predicate EvenCuts(init: seq<U8>, feed: seq<Feed>, more: bool)
  {
    && (more ==> |init| % 2 == 0)
    && forall k :: 0 <= k < |feed| && feed[k].Chunk? && feed[k].more ==> |feed[k].bytes| % 2 == 0
  }

  lemma {:induction false} EvenFlat(init: seq<U8>, feed: seq<Feed>, n: nat)
    requires n <= |feed| && EvenCuts(init, feed, true)
    requires forall k :: 0 <= k < n && feed[k].Chunk? ==> feed[k].more
    ensures |init + Bytes(feed[..n])| % 2 == 0
  {
    if n > 0 {
      assert feed[..n][..n - 1] == feed[..n - 1];
      EvenFlat(init, feed, n - 1);
    }
  }

  lemma BytesStep(feed: seq<Feed>, n: nat)
    requires n < |feed|
    ensures Bytes(feed[..n + 1]) == Bytes(feed[..n]) + if feed[n].Chunk? then feed[n].bytes else []
  {
    assert feed[..n + 1][..n] == feed[..n];
  }

  lemma {:induction false} FrameGrows(feed: seq<Feed>, m: nat, n: nat, more: bool)
    requires m <= n <= |feed|
    ensures |FrameBytes(feed, m, more)| <= |FrameBytes(feed, n, more)|
    ensures !Open(feed, m, more) ==> FrameBytes(feed, m, more) == FrameBytes(feed, n, more)
  {
    if m < n {
      FrameGrows(feed, m, n - 1, more);
    }
  }

  lemma {:induction false} FrameWithin(feed: seq<Feed>, n: nat, more: bool)
    requires n <= |feed|
    ensures |FrameBytes(feed, n, more)| <= |Bytes(feed[..n])|
    ensures InFrame(feed, n, more) ==> FrameBytes(feed, n, more) == Bytes(feed[..n])
  {
    if n > 0 {
      FrameWithin(feed, n - 1, more);
      BytesStep(feed, n - 1);
      assert InFrame(feed, n, more) ==> InFrame(feed, n - 1, more);
    }
  }

  lemma {:induction false} BytesGrow(feed: seq<Feed>, m: nat, n: nat)
    requires m <= n <= |feed|
    ensures |Bytes(feed[..m])| <= |Bytes(feed[..n])|
  {
    if m < n {
      BytesGrow(feed, m, n - 1);
      BytesStep(feed, n - 1);
    }
  }

  /** Reading just enough chunks stays inside the current frame exactly when the
      frame holds the bytes wanted. */
  lemma StaysInFrame(feed: seq<Feed>, n: nat, more: bool, have: nat, need: nat)
    requires n <= |feed| && need <= have + |Bytes(feed[..n])|
    requires n > 0 ==> feed[n - 1].Chunk? && have + |Bytes(feed[..n - 1])| < need
    ensures InFrame(feed, n, more) <==> need <= have + |FrameBytes(feed, |feed|, more)|
  {
    FrameWithin(feed, n, more);
    FrameGrows(feed, n, |feed|, more);
    if !InFrame(feed, n, more) {
      var j :| 0 <= j < n && feed[j].Chunk? && !Open(feed, j, more);
      FrameGrows(feed, j, |feed|, more);
      FrameWithin(feed, j, more);
      BytesGrow(feed, j, n - 1);
    }
  }

  // ------------------------------------------------------------------
  // The running checksum

  /** The accumulator covers what has been read of the wanted prefix. */
  ghost predicate Covers(acc: int, sum: int, init: seq<U8>, feed: seq<Feed>, n: nat, more: bool, need: nat)
    requires n <= |feed|
  {
    EvenCuts(init, feed, more) && InFrame(feed, n, more) ==>
      var flat := init + Bytes(feed[..n]);
      SameSum(acc, sum + WordSum(flat[..Min(|flat|, need)]))
  }

  lemma CoversChunk(acc: int, r: int, sum: int, init: seq<U8>, feed: seq<Feed>, n: nat, more: bool, need: nat)
    requires n < |feed| && Covers(acc, sum, init, feed, n, more, need)
    requires var had, bytes := |init + Bytes(feed[..n])|, if feed[n].Chunk? then feed[n].bytes else [];
             had <= need && SameSum(r, acc + WordSum(bytes[..Min(|bytes|, need - had)]))
    ensures Covers(r, sum, init, feed, n + 1, more, need)
  {
    if EvenCuts(init, feed, more) && InFrame(feed, n + 1, more) {
      hide WordSum, SameSum, Bytes;
      BytesStep(feed, n);
      var flat, flat' := init + Bytes(feed[..n]), init + Bytes(feed[..n + 1]);
      var bytes := if feed[n].Chunk? then feed[n].bytes else [];
      var piece := bytes[..Min(|bytes|, need - |flat|)];
      assert flat'[..Min(|flat'|, need)] == flat + piece;
      if feed[n].Chunk? {
        assert Open(feed, n, more);
        EvenFlat(init, feed, n);
        SplitEven(flat, piece);
      } else {
        assert piece == [] && flat + piece == flat;
        assert WordSum(piece) == 0;
      }
      assert flat[..Min(|flat|, need)] == flat;
      SameAdd(acc, sum + WordSum(flat), WordSum(piece));
      SameSumTrans(r, acc + WordSum(piece), sum + WordSum(flat) + WordSum(piece));
    }
  }

  lemma SameAdd(a: int, b: int, x: int)
    requires SameSum(a, b) && 0 <= x
    ensures SameSum(a + x, b + x)
  {
  }

  // ------------------------------------------------------------------
  // The loop

  /** Progress through the feed: entries consumed, the flag of the last chunk, the
      unused end of it, and the accumulator. */
  datatype Cursor = Cursor(n: nat, more: bool, part: seq<U8>, acc: U64)

  /** All that is common to the three phases, when `used` of `need` bytes are done. */
  ghost predicate At(c: Cursor, feed: seq<Feed>, init: seq<U8>, more: bool, sum: int, used: nat, need: nat)
  {
    && c.n <= |feed| && used <= need && c.more == Flag(feed, c.n, more)
    && (var flat := init + Bytes(feed[..c.n]); used <= |flat| && flat[used..] == c.part)
    && Covers(c.acc, sum, init, feed, c.n, more, need) && c.acc <= sum + PART_STEP * (c.n + 1)
    && (c.n > 0 ==> feed[c.n - 1].Chunk? && |init + Bytes(feed[..c.n - 1])| < need)
  }

  /** Room in the accumulator for a whole feed. */
  ghost predicate Roomy(feed: seq<Feed>, sum: int)
  {
    0 <= sum && sum + PART_STEP * (|feed| + 2) <= 0x1_0000_0000_0000_0000
  }

  /** Entry j makes the phase that wants bytes lo to hi of the stream give up: an
      error, or the end of a frame short of hi. */
  ghost predicate Breaks(feed: seq<Feed>, init: seq<U8>, more: bool, j: nat, lo: nat, hi: nat)
    requires j < |feed|
  {
    || feed[j].Fault?
    || (!Flag(feed, j + 1, more) && lo <= |init + Bytes(feed[..j])| && |init + Bytes(feed[..j + 1])| < hi)
  }

  /** A phase that does not succeed found such an entry, or the feed ran out. */
  ghost predicate Explained(st: Outcome, feed: seq<Feed>, init: seq<U8>, more: bool, lo: nat, hi: nat)
  {
    && (st == Failed ==> exists j :: 0 <= j < |feed| && Breaks(feed, init, more, j, lo, hi))
    && (st == Starved ==> |init + Bytes(feed)| < hi)
  }

  lemma Stops(st: Outcome, feed: seq<Feed>, init: seq<U8>, more: bool, j: nat, lo: nat, hi: nat)
    requires st == Failed ==> j < |feed| && Breaks(feed, init, more, j, lo, hi)
    requires st == Starved ==> |init + Bytes(feed)| < hi
    ensures Explained(st, feed, init, more, lo, hi)
  {
  }

  lemma Cut(flat: seq<U8>, bytes: seq<U8>, used: nat, want: nat)
    requires used <= |flat| < used + want <= |flat + bytes|
    ensures var take := used + want - |flat|;
            && (flat + bytes)[used..used + want] == flat[used..] + bytes[..take]
            && (flat + bytes)[used + want..] == bytes[take..]
  {
  }

  /** The inner loop of each phase: reads on until a chunk completes the next
      `want` bytes, of which the leftover of the last chunk is the beginning, and
      puts them into dst; skipped bytes have no destination. After this phase
      `rest` more bytes are wanted. */
  method Drain(feed: seq<Feed>, c0: Cursor, want: nat, rest: nat, dst: array?<U8>,
               ghost init: seq<U8>, ghost more0: bool, ghost sum: int, ghost used: nat)
    returns (st: Outcome, c: Cursor)
    requires Roomy(feed, sum) && At(c0, feed, init, more0, sum, used, used + want + rest)
    requires |c0.part| < want && (dst != null ==> dst.Length == want)
    modifies dst
    ensures st == Done ==> At(c, feed, init, more0, sum, used + want, used + want + rest) && c0.n <= c.n
    ensures st == Done && dst != null ==> dst[..] == (init + Bytes(feed[..c.n]))[used..used + want]
    ensures Explained(st, feed, init, more0, used, used + want)
  {
    hide WordSum, SameSum, Bytes, Covers, Flag, Explained;
    ghost var need := used + want + rest;
    if dst != null {
      CopyIn(dst, 0, c0.part);
    }
    var n, more, offs := c0.n, c0.more, |c0.part|;
    var acc: U64 := c0.acc;
    var remaining := want + rest - |c0.part|;
    while true
      invariant c0.n <= n <= |feed| && 0 <= offs < want
      invariant var flat := init + Bytes(feed[..n]);
                && used + offs == |flat| && remaining == need - |flat|
                && (dst != null ==> dst[..offs] == flat[used..])
      invariant Covers(acc, sum, init, feed, n, more0, need) && acc <= sum + PART_STEP * (n + 1)
      invariant more == Flag(feed, n, more0)
      decreases |feed| - n
    {
      if n == |feed| {
        assert feed[..n] == feed;
        Stops(Starved, feed, init, more0, n, used, used + want);
        return Starved, c0;
      }
      ghost var flat := init + Bytes(feed[..n]);
      var bytes;
      st, bytes, more, acc := ReadChunk(feed, n, more, remaining, acc, init, more0, sum, need);
      if st != Done {
        Stops(Failed, feed, init, more0, n, used, used + want);
        return Failed, c0;
      }
      n := n + 1;
      if offs + |bytes| >= want {
        var take := want - offs;
        Cut(flat, bytes, used, want);
        if dst != null {
          CopyIn(dst, offs, bytes[..take]);
        }
        Stops(Done, feed, init, more0, n, used, used + want);
        return Done, Cursor(n, more, bytes[take..], acc);
      }
      assert (flat + bytes)[used..] == flat[used..] + bytes;
      if dst != null {
        CopyIn(dst, offs, bytes);
      }
      offs, remaining := offs + |bytes|, remaining - |bytes|;
      if !more {
        Stops(Failed, feed, init, more0, n - 1, used, used + want);
        return Failed, c0;
      }
    }
  }

  /** One call of the chunk reader; the bytes still wanted join the checksum. */
  method ReadChunk(feed: seq<Feed>, n: nat, more: bool, remaining: nat, acc: U64,
                   ghost init: seq<U8>, ghost more0: bool, ghost sum: int, ghost need: nat)
    returns (st: Outcome, bytes: seq<U8>, more': bool, acc': U64)
    requires n < |feed| && Roomy(feed, sum) && acc <= sum + PART_STEP * (n + 1) && more == Flag(feed, n, more0)
    requires Covers(acc, sum, init, feed, n, more0, need) && need == |init + Bytes(feed[..n])| + remaining
    ensures st == (if feed[n].Fault? then Failed else Done)
    ensures st == Done ==>
              && Covers(acc', sum, init, feed, n + 1, more0, need) && acc' <= sum + PART_STEP * (n + 2)
              && init + Bytes(feed[..n + 1]) == init + Bytes(feed[..n]) + bytes
              && (bytes != [] ==> feed[n].Chunk?) && more' == Flag(feed, n + 1, more0)
  {
    hide WordSum, SameSum, Covers, Bytes;
    st, bytes, more', acc' := Done, [], more, acc;
    BytesStep(feed, n);
    match feed[n] {
      case Fault =>
        st := Failed;
        return;
      case Quiet =>
      case Chunk(b, m) =>
        bytes, more' := b, m;
    }
    acc' := Part(bytes[..Min(|bytes|, remaining)], acc);
    CoversChunk(acc, acc', sum, init, feed, n, more0, need);
  }

  /** A phase whose bytes may already be at hand. */
  method Phase(feed: seq<Feed>, c0: Cursor, want: nat, rest: nat, dst: array?<U8>,
               ghost init: seq<U8>, ghost more0: bool, ghost sum: int, ghost used: nat)
    returns (st: Outcome, c: Cursor)
    requires Roomy(feed, sum) && At(c0, feed, init, more0, sum, used, used + want + rest)
    requires dst != null ==> dst.Length == want
    modifies dst
    ensures st == Done ==> At(c, feed, init, more0, sum, used + want, used + want + rest) && c0.n <= c.n
    ensures st == Done && dst != null ==> dst[..] == (init + Bytes(feed[..c.n]))[used..used + want]
    ensures Explained(st, feed, init, more0, used, used + want)
  {
    hide WordSum, SameSum, Bytes, Covers;
    if |c0.part| >= want {
      if dst != null {
        CopyIn(dst, 0, c0.part[..want]);
      }
      ghost var flat := init + Bytes(feed[..c0.n]);
      assert flat[used..used + want] == c0.part[..want] && flat[used + want..] == c0.part[want..];
      return Done, c0.(part := c0.part[want..]);
    }
    st, c := Drain(feed, c0, want, rest, dst, init, more0, sum, used);
  }

  lemma Starts(acc: U64, sum: int, init: seq<U8>, feed: seq<Feed>, more0: bool, need: nat)
    requires SameSum(acc, sum + WordSum(init[..Min(|init|, need)])) && acc <= sum + PART_STEP
    ensures At(Cursor(0, more0, init, acc), feed, init, more0, sum, 0, need)
  {
  }

  /** What holds when all is read. */
  lemma Ends(c: Cursor, feed: seq<Feed>, init: seq<U8>, more0: bool, sum: int, need: nat)
    requires At(c, feed, init, more0, sum, need, need)
    ensures InFrame(feed, c.n, more0) <==> need <= |init| + |FrameBytes(feed, |feed|, more0)|
    ensures EvenCuts(init, feed, more0) && InFrame(feed, c.n, more0) ==>
              SameSum(c.acc, sum + WordSum((init + Bytes(feed[..c.n]))[..need]))
  {
    hide WordSum, SameSum, Bytes, FrameBytes, InFrame, EvenCuts, Flag;
    StaysInFrame(feed, c.n, more0, |init|, need);
  }

  lemma {:induction false} Prefix(feed: seq<Feed>, m: nat, n: nat)
    requires m <= n <= |feed|
    ensures Bytes(feed[..m]) <= Bytes(feed[..n])
  {
    if m < n {
      Prefix(feed, m, n - 1);
      BytesStep(feed, n - 1);
    }
  }

  /** `exanic_poll_recv_body`: on success the two buffers hold the wanted bytes of
      the initial piece and the chunks that follow it, and they are bytes of the
      current frame, with their checksum added, exactly when it holds that many. */
  method RecvBody(feed: seq<Feed>, skipLen: nat, buf1: array<U8>, buf2: array<U8>, init: seq<U8>, csum: U64, more0: bool)
    returns (st: Outcome, acc: U64, more: bool, n: nat)
    requires buf1 != buf2 && Roomy(feed, csum)
    modifies buf1, buf2
    ensures n <= |feed|
    ensures var flat := init + Bytes(feed[..n]);
            var need := skipLen + buf1.Length + buf2.Length;
            st == Done ==>
              && need <= |flat| && buf1[..] + buf2[..] == flat[skipLen..need] && more == Flag(feed, n, more0)
              && (n > 0 ==> feed[n - 1].Chunk? && |init + Bytes(feed[..n - 1])| < need)
              && (InFrame(feed, n, more0) <==> need <= |init| + |FrameBytes(feed, |feed|, more0)|)
              && (EvenCuts(init, feed, more0) && InFrame(feed, n, more0) ==> SameSum(acc, csum + WordSum(flat[..need])))
    ensures var one, two := skipLen, skipLen + buf1.Length;
            st != Done ==>
              || Explained(st, feed, init, more0, 0, one)
              || Explained(st, feed, init, more0, one, two)
              || Explained(st, feed, init, more0, two, two + buf2.Length)
  {
    hide WordSum, SameSum, Bytes, Covers, FrameBytes, InFrame, EvenCuts, Flag, Explained;
    var len1, len2 := buf1.Length, buf2.Length;
    var remaining := skipLen + len1 + len2;
    n, more := 0, more0;
    acc := Part(init[..Min(|init|, remaining)], csum);
    Starts(acc, csum, init, feed, more0, remaining);
    var c := Cursor(0, more0, init, acc);
    st, c := Phase(feed, c, skipLen, len1 + len2, null, init, more0, csum, 0);
    if st != Done {
      return;
    }
    st, c := Phase(feed, c, len1, len2, buf1, init, more0, csum, skipLen);
    if st != Done {
      return;
    }
    ghost var flat1 := init + Bytes(feed[..c.n]);
    ghost var n1 := c.n;
    st, c := Phase(feed, c, len2, 0, buf2, init, more0, csum, skipLen + len1);
    if st != Done {
      return;
    }
    n, more, acc := c.n, c.more, c.acc;
    Ends(c, feed, init, more0, csum, remaining);
    Prefix(feed, n1, n);
    ghost var flat := init + Bytes(feed[..n]);
    assert flat[skipLen..skipLen + len1] == flat1[skipLen..skipLen + len1];
    assert flat[skipLen..remaining] == flat[skipLen..skipLen + len1] + flat[skipLen + len1..remaining];
  }

  /** The end of a frame, one byte, followed by the first chunk of another frame. */
  const SHORT: seq<Feed> := [Chunk([1], false), Chunk(TWOS, true)]
  const TWOS: seq<U8> := seq(120, _ => 2)

  lemma ShortFacts()
    ensures Bytes(SHORT[..0]) == [] && Bytes(SHORT[..1]) == [1] && Bytes(SHORT[..2]) == Bytes(SHORT) == [1] + TWOS
    ensures FrameBytes(SHORT, |SHORT|, true) == [1]
  {
    BytesStep(SHORT, 0);
    BytesStep(SHORT, 1);
    assert SHORT[..0] == [] && SHORT[..2] == SHORT;
    assert FrameBytes(SHORT, 1, true) == FrameBytes(SHORT, 0, true) + [1] == [1];
    assert !Open(SHORT, 1, true) by {
      assert SHORT[0].Chunk? && !SHORT[0].more;
    }
  }

  /** Success without the guard: when the frame ends where the first buffer is
      full, the second buffer takes the first byte of the next frame. */
  method CrossesFrames() returns (st: Outcome, out: seq<U8>)
    ensures st == Done && out == [1, 2] && FrameBytes(SHORT, |SHORT|, true) == [1]
  {
    var buf1, buf2 := new U8[1], new U8[1];
    var acc, more, n;
    st, acc, more, n := RecvBody(SHORT, 0, buf1, buf2, [], 0, true);
    ShortFacts();
    out := buf1[..] + buf2[..];
    assert [] + Bytes(SHORT[..0]) == [] && [] + Bytes(SHORT[..1]) == [1] && [] + Bytes(SHORT) == [1] + TWOS;
    assert ([1] + TWOS)[0..2] == [1, 2];
  }
}
