/** The DMA ring of an ExaNIC receive port, as the hardware writes it. */
module RxRing {
  import opened Words

  const NUM_CHUNKS: nat := 16384
  const PAYLOAD_SIZE: nat := 120

  /** A chunk as written: `length` 0 means a full payload with more to come. */
  datatype Chunk = Chunk(payload: seq<U8>, length: nat, status: U8, timestamp: U32)

  /** The 64-bit word that software reads at once. */
  datatype Info = Info(length: nat, status: U8, timestamp: U32, generation: U8)

  /** The status of the chunk carries an error code, 0 for none, below the filter
      region: the sender gave up (1), the checksum was wrong (2), frames were lost
      (3). */
  predicate HasCode(c: Chunk, code: nat) { code < 16 && c.status as int == 16 * (c.status as int / 16) + code }

  ghost predicate WellFormed(c: Chunk)
  {
    |c.payload| == PAYLOAD_SIZE && c.length <= PAYLOAD_SIZE
  }

  /** The generation number of the n-th chunk ever written. */
  function Generation(first: U8, n: nat): (g: U8) { Wrap8(first + n / 16384) }

  /** The last chunk written to a slot, after w chunks. */
  function Latest(slot: nat, w: nat): (n: nat)
    requires slot < NUM_CHUNKS <= w
    ensures w - NUM_CHUNKS <= n < w && n % 16384 == slot
  {
    w - 1 - (w - 1 - slot) % 16384
  }

  lemma LatestIs(n: nat, w: nat)
    requires NUM_CHUNKS <= w && w - NUM_CHUNKS <= n < w
    ensures Latest(n % 16384, w) == n
  {
  }

  lemma LatestSpan(n: nat, w: nat)
    requires NUM_CHUNKS <= w && n < w
    ensures Latest(n % 16384, w) == n <==> w <= n + NUM_CHUNKS
    ensures n <= Latest(n % 16384, w)
  {
  }

  /** Within 255 laps, a slot shows a chunk's generation only if it still holds
      that chunk, and the generation before only if it has not been reached. */
  lemma SameGeneration(first: U8, n: nat, m: nat)
    requires n % 16384 == m % 16384 && n - NUM_CHUNKS <= m < n + 255 * NUM_CHUNKS
    ensures Generation(first, m) == Generation(first, n) <==> m == n
    ensures Generation(first, m) == Wrap8(Generation(first, n) - 1) <==> m == n - NUM_CHUNKS
  {
    var d := m / 16384 - n / 16384;
    assert m - n == 16384 * d;
  }

  lemma LapLatest(slot: nat, w: nat)
    requires slot < NUM_CHUNKS <= w
    ensures var lap := w - w % 16384; Latest(slot, w) == if lap + slot < w then lap + slot else lap - NUM_CHUNKS + slot
  {
  }

  /** After w chunks, slots below the write position belong to the current lap
      and the others to the one before; only between them the generation changes. */
  lemma LapOf(first: U8, slot: nat, w: nat)
    requires slot < NUM_CHUNKS <= w
    ensures var lap, n := w - w % 16384, Latest(slot, w);
            && NUM_CHUNKS <= lap
            && n == (if lap + slot < w then lap + slot else lap - NUM_CHUNKS + slot)
            && Generation(first, n) == Generation(first, if lap + slot < w then w - 1 else lap - 1)
            && (lap < w ==> Generation(first, w - 1) != Generation(first, lap - 1))
  {
    hide Latest;
    var lap, n := w - w % 16384, Latest(slot, w);
    LapLatest(slot, w);
    assert (lap - 1) / 16384 == (lap - NUM_CHUNKS + slot) / 16384 == lap / 16384 - 1;
    assert lap < w ==> (w - 1) / 16384 == (lap + slot) / 16384 == lap / 16384;
  }

  /** Advancing to the next chunk: the next slot, or slot 0 one generation on. */
  lemma Advance(first: U8, n: nat)
    ensures (n + 1) % 16384 == if n % 16384 + 1 == NUM_CHUNKS then 0 else n % 16384 + 1
    ensures Generation(first, n + 1) ==
              if n % 16384 + 1 == NUM_CHUNKS then Wrap8(Generation(first, n) + 1) else Generation(first, n)
  {
  }

  // ------------------------------------------------------------------
  // Frames

  /** Chunks f..e are one whole frame: only the last has a length. */
  ghost predicate IsFrame(log: seq<Chunk>, f: nat, e: nat)
  {
    f <= e < |log| && log[e].length != 0 && Partial(log, f, e)
  }

  ghost predicate Partial(log: seq<Chunk>, f: nat, c: nat)
    requires c <= |log|
  {
    forall k :: f <= k < c ==> log[k].length == 0
  }

  /** The payloads of chunks f..c-1. */
  ghost function Body(log: seq<Chunk>, f: nat, c: nat): (bytes: seq<U8>)
    requires f <= c <= |log|
    ensures f == c ==> bytes == []
  {
    if f == c then [] else Body(log, f, c - 1) + log[c - 1].payload
  }

  ghost function FrameBytes(log: seq<Chunk>, f: nat, e: nat): (bytes: seq<U8>)
    requires IsFrame(log, f, e) && WellFormed(log[e])
  {
    Body(log, f, e) + log[e].payload[..log[e].length]
  }

  lemma {:induction false} BodyGrows(log: seq<Chunk>, more: seq<Chunk>, f: nat, c: nat)
    requires f <= c <= |log| && log <= more
    ensures Body(more, f, c) == Body(log, f, c)
  {
    if f < c {
      BodyGrows(log, more, f, c - 1);
    }
  }

  lemma PartialNone(log: seq<Chunk>, f: nat)
    requires f <= |log|
    ensures Partial(log, f, f)
  {
  }

  lemma PartialGrows(log: seq<Chunk>, more: seq<Chunk>, f: nat, c: nat)
    requires c <= |log| && log <= more && Partial(log, f, c)
    ensures Partial(more, f, c)
    ensures c < |log| && log[c].length == 0 ==> Partial(more, f, c + 1)
  {
  }

  lemma {:induction false} BodySize(log: seq<Chunk>, f: nat, c: nat)
    requires f <= c <= |log| && forall k :: f <= k < c ==> WellFormed(log[k])
    ensures |Body(log, f, c)| == PAYLOAD_SIZE * (c - f)
  {
    if f < c {
      BodySize(log, f, c - 1);
    }
  }

  lemma FrameSize(log: seq<Chunk>, f: nat, e: nat)
    requires IsFrame(log, f, e) && forall k :: f <= k <= e ==> WellFormed(log[k])
    ensures |FrameBytes(log, f, e)| == PAYLOAD_SIZE * (e - f) + log[e].length
  {
    BodySize(log, f, e);
  }

  // ------------------------------------------------------------------
  // Payload bytes in the ring

  /** Payload byte k of a slot, when log has been written; the slot that comes
      next may be partly overwritten. */
  function ByteIn(log: seq<Chunk>, scribble: seq<U8>, slot: nat, k: nat): (b: U8)
    requires slot < NUM_CHUNKS <= |log| && k < PAYLOAD_SIZE == |scribble| && |log[Latest(slot, |log|)].payload| == PAYLOAD_SIZE
  {
    if slot == |log| % 16384 then scribble[k] else log[Latest(slot, |log|)].payload[k]
  }

  ghost predicate AllFormed(log: seq<Chunk>)
  {
    NUM_CHUNKS <= |log| && forall k :: 0 <= k < |log| ==> WellFormed(log[k])
  }

  /** Chunk c can be read from its slot unharmed. */
  ghost predicate Intact(log: seq<Chunk>, scribble: seq<U8>, c: nat)
    requires AllFormed(log) && c < |log| && |scribble| == PAYLOAD_SIZE
  {
    forall k :: 0 <= k < PAYLOAD_SIZE ==> ByteIn(log, scribble, c % 16384, k) == log[c].payload[k]
  }

  lemma IntactWhile(log: seq<Chunk>, scribble: seq<U8>, c: nat)
    requires AllFormed(log) && c < |log| < c + NUM_CHUNKS && |scribble| == PAYLOAD_SIZE
    ensures Intact(log, scribble, c)
  {
    LatestIs(c, |log|);
  }

  /** While the slot of chunk c still shows its generation, the chunk is unharmed
      whatever the hardware is writing, if and only if the hardware has not come
      round to that slot. */
  lemma IntactIff(log: seq<Chunk>, c: nat)
    requires AllFormed(log) && c < |log| <= c + NUM_CHUNKS
    ensures (forall s: seq<U8> :: |s| == PAYLOAD_SIZE ==> Intact(log, s, c)) <==> |log| < c + NUM_CHUNKS
  {
    LatestIs(c, |log|);
    if |log| == c + NUM_CHUNKS {
      var s := seq(PAYLOAD_SIZE, k => if k == 0 && log[c].payload[0] == 0 then 1 else 0);
      assert ByteIn(log, s, c % 16384, 0) != log[c].payload[0];
      assert !Intact(log, s, c);
    }
  }

  /** What goes wrong: the hardware is overwriting the slot of chunk c, and the
      slot still shows the generation of chunk c. */
  lemma TornPasses(first: U8, log: seq<Chunk>, scribble: seq<U8>, c: nat, k: nat)
    requires AllFormed(log) && |log| == c + NUM_CHUNKS && k < |scribble| == PAYLOAD_SIZE && scribble[k] != log[c].payload[k]
    ensures Generation(first, Latest(c % 16384, |log|)) == Generation(first, c) && !Intact(log, scribble, c)
  {
    LatestIs(c, |log|);
    assert ByteIn(log, scribble, c % 16384, k) != log[c].payload[k];
  }

  // ------------------------------------------------------------------
  // The hardware

  class Hardware {
    // Everything written so far; the first lap is the uninitialised ring, whose
    // chunks all carry a length.
    var log: seq<Chunk>
    // What the payload of the slot being overwritten looks like right now.
    var scribble: seq<U8>
    const first: U8

    ghost predicate Valid()
      reads this
    {
      && NUM_CHUNKS <= |log|
      && |scribble| == PAYLOAD_SIZE
      && forall k :: 0 <= k < |log| ==> WellFormed(log[k])
    }

    /** Reads the info word of a slot. */
    function InfoAt(slot: nat): (i: Info)
      requires Valid() && slot < NUM_CHUNKS
      reads this
      ensures var n := Latest(slot, |log|);
              i == Info(log[n].length, log[n].status, log[n].timestamp, Generation(first, n))
    {
      var n := Latest(slot, |log|);
      Info(log[n].length, log[n].status, log[n].timestamp, Generation(first, n))
    }

    /** Reads one payload byte of a slot. */
    function ByteAt(slot: nat, k: nat): (b: U8)
      requires Valid() && slot < NUM_CHUNKS && k < PAYLOAD_SIZE
      reads this
    {
      ByteIn(log, scribble, slot, k)
    }

    /** The hardware runs for a while: it overwrites payload bytes of the slot
        that comes next, and completes chunks, up to chunk number upTo. */
    method Runs(upTo: nat)
      requires Valid() && |log| <= upTo
      modifies this
      ensures Valid() && old(log) <= log && |log| <= upTo
    {
      var steps: nat :| true;
      while 0 < steps
        invariant Valid() && old(log) <= log && |log| <= upTo
      {
        var bytes: seq<U8> :| |bytes| == PAYLOAD_SIZE;
        var length: nat :| length <= PAYLOAD_SIZE;
        var status: U8 :| true;
        var timestamp: U32 :| true;
        scribble := bytes;
        var done: bool :| true;
        if done && |log| < upTo {
          log := log + [Chunk(bytes, length, status, timestamp)];
        }
        steps := steps - 1;
      }
    }
  }
}
