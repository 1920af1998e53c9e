/** The UDP receive queue: datagrams of any size in a byte ring, with a zero word
    marking the place where the writer went back to the start. */
module UdpQueue {
  import opened Words
  import opened ByteRing

  const HDR: nat := 16
  const FTR: nat := 16

  /** `exa_udp_queue_entry_size`: header and footer added, rounded up to 64. */
  function EntrySize(len: nat): (n: nat)
    ensures len + HDR + FTR <= n < len + HDR + FTR + 64 && n % 64 == 0
  {
    (len + HDR + FTR + 63) / 64 * 64
  }

  /** The endpoint fields are the twelve header bytes after the length; the
      timestamps are the sixteen footer bytes, or absent. */
  datatype Datagram = Datagram(endpoint: seq<U8>, data: seq<U8>, stamps: seq<U8>)

  /** A 32-bit word, least significant byte first. */
  function WordAt(r: seq<U8>, p: nat): (w: nat)
    requires p + 4 <= |r|
  {
    var b0: int, b1: int, b2: int, b3: int := r[p], r[p + 1], r[p + 2], r[p + 3];
    b0 + 0x100 * b1 + 0x1_0000 * b2 + 0x100_0000 * b3
  }

  function WordBytes(n: U32): (b: seq<U8>)
    ensures |b| == 4 && WordAt(b, 0) == n
  {
    var q1 := n / 0x100;
    var q2 := q1 / 0x100;
    [n % 0x100, q1 % 0x100, q2 % 0x100, q2 / 0x100]
  }

  // ------------------------------------------------------------------
  // Layout

  /** The ring holds datagram d as an entry at offset p. */
  ghost predicate Holds(r: seq<U8>, p: nat, d: Datagram)
  {
    var n := EntrySize(|d.data|);
    && p + n <= |r|
    && WordAt(r, p) == |d.data|
    && r[p + 4..p + HDR] == d.endpoint
    && r[p + HDR..p + HDR + |d.data|] == d.data
    && (d.stamps != [] ==> r[p + n - FTR..p + n] == d.stamps)
  }

  /** The ring holds the datagrams q one after another from `from` to `to`. */
  ghost predicate Chain(r: seq<U8>, from: nat, to: nat, q: seq<Datagram>)
    decreases |q|
  {
    if q == [] then from == to <= |r|
    else Holds(r, from, q[0]) && Chain(r, from + EntrySize(|q[0].data|), to, q[1..])
  }

  lemma HoldsFrame(r: seq<U8>, r': seq<U8>, p: nat, d: Datagram)
    requires Holds(r, p, d) && p + EntrySize(|d.data|) <= |r'|
    requires forall k :: p <= k < p + EntrySize(|d.data|) ==> r'[k] == r[k]
    ensures Holds(r', p, d)
  {
  }

  lemma {:induction false} ChainBounds(r: seq<U8>, from: nat, to: nat, q: seq<Datagram>)
    requires Chain(r, from, to, q)
    ensures from + 64 * |q| <= to <= |r|
    decreases |q|
  {
    hide Holds, EntrySize;
    if q != [] {
      ChainBounds(r, from + EntrySize(|q[0].data|), to, q[1..]);
    }
  }

  /** Writes outside an entry chain leave it alone. */
  lemma {:induction false} ChainFrame(r: seq<U8>, r': seq<U8>, from: nat, to: nat, q: seq<Datagram>)
    requires Chain(r, from, to, q) && |r'| == |r|
    requires forall k :: from <= k < to && k < |r| ==> r'[k] == r[k]
    ensures Chain(r', from, to, q)
    decreases |q|
  {
    hide Holds, EntrySize;
    ChainBounds(r, from, to, q);
    if q != [] {
      var next := from + EntrySize(|q[0].data|);
      ChainBounds(r, next, to, q[1..]);
      HoldsFrame(r, r', from, q[0]);
      ChainFrame(r, r', next, to, q[1..]);
    }
  }

  lemma {:induction false} ChainAppend(r: seq<U8>, from: nat, mid: nat, q: seq<Datagram>, d: Datagram)
    requires Chain(r, from, mid, q) && Holds(r, mid, d)
    ensures Chain(r, from, mid + EntrySize(|d.data|), q + [d])
    decreases |q|
  {
    hide Holds, EntrySize;
    if q == [] {
      assert ([d])[1..] == [];
      assert Chain(r, mid + EntrySize(|d.data|), mid + EntrySize(|d.data|), []) by { HoldsBound(r, mid, d); }
    } else {
      assert (q + [d])[1..] == q[1..] + [d];
      ChainAppend(r, from + EntrySize(|q[0].data|), mid, q[1..], d);
    }
  }

  lemma HoldsBound(r: seq<U8>, p: nat, d: Datagram)
    requires Holds(r, p, d)
    ensures p + EntrySize(|d.data|) <= |r|
  {
  }

  // ------------------------------------------------------------------
  // The queue

  /** Space allocated but not committed: how much, and for which endpoint. */
  datatype Pending = Nothing | Pending(max: nat, endpoint: seq<U8>)

  /** What a writer or a reader does next. */
  datatype Event =
    | Alloc(endpoint: seq<U8>, max: nat)
    | Fill(at: nat, bytes: seq<U8>)
    | Commit(len: nat, stamps: seq<U8>)
    | Abort
    | Take
    | Peek
  {
    predicate Reads() { Take? || Peek? }
  }

  /** The space of an allocation: for whom, and what is in it so far. */
  datatype Draft = Draft(endpoint: seq<U8>, space: seq<U8>)

  /** The queue without the ring: the two positions, the datagrams before and
      after the place where the writer last went back, and the allocated space. */
  datatype Fifo = Fifo(size: nat, write: nat, read: nat, older: seq<Datagram>, newer: seq<Datagram>, draft: Option<Draft>) {
    function Queue(): (q: seq<Datagram>) { older + newer }

    predicate Grants(max: nat)
    {
      if write + EntrySize(max) >= size then EntrySize(max) < read <= write
      else read <= write || write + EntrySize(max) < read
    }

    /** An empty datagram is next to be read, in front of the marker; its length
        word looks like the marker itself. */
    predicate FalseMark() { write < read && older != [] && older[0].data == [] }

    /** The reader goes back to the start at a marker, or what looks like one. */
    function Skip(): (f: Fifo)
    {
      if write < read && (older == [] || FalseMark()) then this.(read := 0, older := []) else this
    }
  }

  /** One event, where an allocation that is granted gets space that holds `blank`. */
  function Next(f: Fifo, e: Event, blank: seq<U8>): (r: Fifo)
  {
    match e
    case Alloc(endpoint, max) =>
      if f.draft.Some? || |endpoint| != 12 || !f.Grants(max) then f
      else if f.write + EntrySize(max) >= f.size then
        f.(write := 0, older := f.Queue(), newer := [], draft := Some(Draft(endpoint, blank)))
      else f.(draft := Some(Draft(endpoint, blank)))
    case Fill(at, bytes) =>
      if f.draft.None? || at + |bytes| > |f.draft.value.space| then f
      else
        var space := f.draft.value.space;
        f.(draft := Some(f.draft.value.(space := space[..at] + bytes + space[at + |bytes|..])))
    case Commit(len, stamps) =>
      if Added(f, e) == [] then f
      else f.(write := f.write + EntrySize(len), newer := f.newer + Added(f, e), draft := None)
    case Abort => f.(draft := None)
    case Take => Pop(f.Skip())
    case Peek => f.Skip()
  }

  /** The oldest datagram leaves, if there is one. */
  function Pop(f: Fifo): (r: Fifo)
  {
    if f.Queue() == [] then f
    else
      f.(read := f.read + EntrySize(|f.Queue()[0].data|),
         older := if f.older == [] then [] else f.older[1..],
         newer := if f.older == [] then f.newer[1..] else f.newer)
  }

  lemma PopNone(f: Fifo)
    requires f.Queue() == []
    ensures Pop(f) == f
  {
  }

  lemma NextRead(f: Fifo)
    ensures forall blank :: Next(f, Take, blank) == Pop(f.Skip()) && Next(f, Peek, blank) == f.Skip()
  {
  }

  lemma NextFill(f: Fifo, at: nat, bytes: seq<U8>)
    ensures forall blank :: Next(f, Fill(at, bytes), blank) ==
              if f.draft.None? || at + |bytes| > |f.draft.value.space| then f
              else var space := f.draft.value.space;
                   f.(draft := Some(Draft(f.draft.value.endpoint, space[..at] + bytes + space[at + |bytes|..])))
  {
  }

  /** What an event adds to the queue. */
  function Added(f: Fifo, e: Event): (q: seq<Datagram>)
  {
    if e.Commit? && f.draft.Some? && e.len <= |f.draft.value.space| && (e.stamps == [] || |e.stamps| == FTR) then
      [Datagram(f.draft.value.endpoint, f.draft.value.space[..e.len], e.stamps)]
    else []
  }

  /** The datagram that a read finds, if any. */
  function Head(f: Fifo): (q: seq<Datagram>)
  {
    if f.Skip().Queue() != [] then [f.Skip().Queue()[0]] else []
  }

  /** What an event delivers. */
  function Delivered(f: Fifo, e: Event): (q: seq<Datagram>) { if e.Take? then Head(f) else [] }

  /** What an event only shows. */
  function Shown(f: Fifo, e: Event): (q: seq<Datagram>) { if e.Peek? then Head(f) else [] }

  /** A peek shows what the next read delivers, and makes no difference to it. */
  lemma PeekFirst(f: Fifo, blank: seq<U8>)
    ensures var g := Next(f, Peek, blank);
            && Shown(f, Peek) == Delivered(f, Take) == Delivered(g, Take)
            && Next(g, Take, blank) == Next(f, Take, blank) && Next(g, Peek, blank) == g
  {
    hide EntrySize, Pop;
    assert f.Skip().Skip() == f.Skip();
  }

  /** The state after a run, and all that it delivers. */
  function Exec(f: Fifo, events: seq<Event>, blanks: seq<seq<U8>>): (r: (Fifo, seq<Datagram>))
    requires |blanks| == |events|
  {
    if events == [] then (f, [])
    else
      var n := |events| - 1;
      var (g, out) := Exec(f, events[..n], blanks[..n]);
      (Next(g, events[n], blanks[n]), out + Delivered(g, events[n]))
  }

  /** All that a run commits. */
  function Committed(f: Fifo, events: seq<Event>, blanks: seq<seq<U8>>): (q: seq<Datagram>)
    requires |blanks| == |events|
  {
    if events == [] then []
    else
      var n := |events| - 1;
      Committed(f, events[..n], blanks[..n]) + Added(Exec(f, events[..n], blanks[..n]).0, events[n])
  }

  /** All that the peeks of a run show. */
  function Peeked(f: Fifo, events: seq<Event>, blanks: seq<seq<U8>>): (q: seq<Datagram>)
    requires |blanks| == |events|
  {
    if events == [] then []
    else
      var n := |events| - 1;
      Peeked(f, events[..n], blanks[..n]) + Shown(Exec(f, events[..n], blanks[..n]).0, events[n])
  }

  /** Some read of the run takes an empty datagram for the marker. */
  predicate Lossy(f: Fifo, events: seq<Event>, blanks: seq<seq<U8>>)
    requires |blanks| == |events|
  {
    events != [] &&
    var n := |events| - 1;
    Lossy(f, events[..n], blanks[..n]) || (events[n].Reads() && Exec(f, events[..n], blanks[..n]).0.FalseMark())
  }

  ghost predicate NoneEmpty(q: seq<Datagram>)
  {
    forall k :: 0 <= k < |q| ==> q[k].data != []
  }

  lemma NoneEmptyConcat(q: seq<Datagram>, r: seq<Datagram>)
    ensures NoneEmpty(q + r) <==> NoneEmpty(q) && NoneEmpty(r)
  {
    if NoneEmpty(q + r) {
      assert forall k :: 0 <= k < |q| ==> q[k] == (q + r)[k];
      forall k | 0 <= k < |r|
        ensures r[k].data != []
      {
        assert r[k] == (q + r)[|q| + k];
      }
    }
  }

  /** What one event does to the queue: nothing but add at the end and deliver
      from the front, unless an empty datagram is taken for the marker. */
  lemma NextQueue(f: Fifo, e: Event, blank: seq<U8>)
    ensures var g := Next(f, e, blank);
            if e.Reads() && f.FalseMark() then |Delivered(f, e)| + |g.Queue()| < |f.Queue()| && Added(f, e) == []
            else Delivered(f, e) + g.Queue() == f.Queue() + Added(f, e)
  {
    hide EntrySize;
    var g := Next(f, e, blank);
    if e.Take? {
      var h := f.Skip();
      if h.Queue() != [] {
        assert h.Queue() == [h.Queue()[0]] + g.Queue();
      }
    }
  }

  lemma TailConcat(x: seq<Datagram>, y: seq<Datagram>)
    requires x != []
    ensures (x + y)[1..] == x[1..] + y
  {
  }

  lemma Cancel(x: seq<Datagram>, y: seq<Datagram>, z: seq<Datagram>)
    ensures x + z == y + z <==> x == y
  {
    if x + z == y + z {
      assert |x| == |y| && x == (x + z)[..|x|] && y == (y + z)[..|y|];
    }
  }

  /** In every run, the datagrams delivered, followed by those still queued, are
      exactly those that were there and those committed, in order, if and only if
      no read took an empty datagram for the marker. */
  lemma {:induction false} FifoIff(f: Fifo, events: seq<Event>, blanks: seq<seq<U8>>)
    requires |blanks| == |events|
    ensures var (g, out) := Exec(f, events, blanks);
            var all := f.Queue() + Committed(f, events, blanks);
            && (out + g.Queue() == all <==> !Lossy(f, events, blanks))
            && |out| + |g.Queue()| <= |all|
    decreases |events|
  {
    hide Next, Added, Delivered;
    if events != [] {
      var n := |events| - 1;
      FifoIff(f, events[..n], blanks[..n]);
      var (g, out) := Exec(f, events[..n], blanks[..n]);
      NextQueue(g, events[n], blanks[n]);
      var h, got, added := Next(g, events[n], blanks[n]), Delivered(g, events[n]), Added(g, events[n]);
      var all := f.Queue() + Committed(f, events[..n], blanks[..n]);
      assert f.Queue() + Committed(f, events, blanks) == all + added;
      assert (out + got) + h.Queue() == out + (got + h.Queue());
      assert out + (g.Queue() + added) == (out + g.Queue()) + added;
      Cancel(out + g.Queue(), all, added);
    }
  }

  /** A run without empty datagrams loses none. */
  lemma {:induction false} NoneLost(f: Fifo, events: seq<Event>, blanks: seq<seq<U8>>)
    requires |blanks| == |events| && NoneEmpty(f.Queue() + Committed(f, events, blanks))
    ensures !Lossy(f, events, blanks) && NoneEmpty(Exec(f, events, blanks).0.Queue())
    decreases |events|
  {
    hide Next, Added, Delivered;
    NoneEmptyConcat(f.Queue(), Committed(f, events, blanks));
    if events != [] {
      var n := |events| - 1;
      var g := Exec(f, events[..n], blanks[..n]).0;
      NoneEmptyConcat(Committed(f, events[..n], blanks[..n]), Added(g, events[n]));
      NoneEmptyConcat(f.Queue(), Committed(f, events[..n], blanks[..n]));
      NoneLost(f, events[..n], blanks[..n]);
      if g.older != [] {
        assert g.Queue()[0] == g.older[0];
      }
      NextQueue(g, events[n], blanks[n]);
      NoneEmptyConcat(g.Queue(), Added(g, events[n]));
      NoneEmptyConcat(Delivered(g, events[n]), Next(g, events[n], blanks[n]).Queue());
    }
  }

  /** From any state in which the space is granted, what is stored and committed is
      what is added: for whom, the first len of the bytes filled in, and when. */
  lemma StoreAdds(f: Fifo, endpoint: seq<U8>, max: nat, at: nat, bytes: seq<U8>, len: nat, stamps: seq<U8>, blank: seq<U8>)
    requires f.draft.None? && |endpoint| == 12 && f.Grants(max) && |blank| == max
    requires at + |bytes| <= max && len <= max && (stamps == [] || |stamps| == 16)
    ensures var g := Next(Next(f, Alloc(endpoint, max), blank), Fill(at, bytes), []);
            var d := Datagram(endpoint, (blank[..at] + bytes + blank[at + |bytes|..])[..len], stamps);
            && g.Queue() == f.Queue()
            && Next(g, Commit(len, stamps), []).Queue() == f.Queue() + [d]
  {
    hide EntrySize, Fifo.Grants;
    var g0 := Next(f, Alloc(endpoint, max), blank);
    var g := Next(g0, Fill(at, bytes), []);
    assert g.Queue() == g0.Queue() == f.Queue();
  }

  /** A datagram alone in the queue comes out as it went in, at any place. */
  lemma StoreThenTake(f: Fifo, endpoint: seq<U8>, data: seq<U8>, stamps: seq<U8>, blank: seq<U8>)
    requires f.draft.None? && |endpoint| == 12 && f.Grants(|data|) && |blank| == |data|
    requires f.Queue() == [] && data != [] && (stamps == [] || |stamps| == 16)
    ensures var events := [Alloc(endpoint, |data|), Fill(0, data), Commit(|data|, stamps), Take];
            var (g, out) := Exec(f, events, [blank, [], [], []]);
            out == [Datagram(endpoint, data, stamps)] && g.Queue() == []
  {
    hide Next, Delivered, EntrySize, Fifo.Grants, Added;
    StoreAdds(f, endpoint, |data|, 0, data, |data|, stamps, blank);
    var d := Datagram(endpoint, data, stamps);
    assert (blank[..0] + data + blank[|data|..])[..|data|] == data;
    var a, b, c := Alloc(endpoint, |data|), Fill(0, data), Commit(|data|, stamps);
    var g1 := Next(f, a, blank);
    var g2 := Next(g1, b, []);
    var g3 := Next(g2, c, []);
    assert g3.Queue() == [d];
    ExecFour(f, a, b, c, Take, blank);
    NextQueue(f, a, blank);
    NextQueue(g3, Take, []);
    OneLeft(g3, d);
    QuietEvents(f, g1, g2, a, b, c);
  }

  lemma OneLeft(f: Fifo, d: Datagram)
    requires f.Queue() == [d] && d.data != []
    ensures !f.FalseMark() && Delivered(f, Take) == [d] && Next(f, Take, []).Queue() == []
  {
    hide EntrySize;
    assert f.older != [] ==> f.older[0] == f.Queue()[0];
    assert f.older == [] ==> f.newer == f.Queue();
  }

  lemma QuietEvents(f: Fifo, g: Fifo, h: Fifo, a: Event, b: Event, c: Event)
    requires a.Alloc? && b.Fill? && c.Commit?
    ensures Delivered(f, a) == Delivered(g, b) == Delivered(h, c) == []
  {
  }

  lemma ExecNone(f: Fifo)
    ensures Exec(f, [], []) == (f, [])
  {
  }

  lemma ExecMore(f: Fifo, events: seq<Event>, blanks: seq<seq<U8>>, e: Event, blank: seq<U8>)
    requires |blanks| == |events|
    ensures var (g, out) := Exec(f, events, blanks);
            Exec(f, events + [e], blanks + [blank]) == (Next(g, e, blank), out + Delivered(g, e))
  {
    hide Next, Delivered;
    assert (events + [e])[..|events|] == events && (blanks + [blank])[..|events|] == blanks;
  }

  lemma ExecFour(f: Fifo, a: Event, b: Event, c: Event, d: Event, blank: seq<U8>)
    ensures var g1 := Next(f, a, blank);
            var g2 := Next(g1, b, []);
            var g3 := Next(g2, c, []);
            Exec(f, [a, b, c, d], [blank, [], [], []]) ==
              (Next(g3, d, []), [] + Delivered(f, a) + Delivered(g1, b) + Delivered(g2, c) + Delivered(g3, d))
  {
    hide Exec, Next, Delivered;
    var none: seq<U8> := [];
    ExecNone(f);
    ExecMore(f, [], [], a, blank);
    ExecMore(f, [a], [blank], b, none);
    ExecMore(f, [a, b], [blank, none], c, none);
    ExecMore(f, [a, b, c], [blank, none, none], d, none);
    assert [] + [a] == [a] && [a] + [b] == [a, b] && [a, b] + [c] == [a, b, c] && [a, b, c] + [d] == [a, b, c, d];
    assert [] + [blank] == [blank] && [blank] + [none] == [blank, none];
    assert [blank, none] + [none] == [blank, none, none] && [blank, none, none] + [none] == [blank, none, none, none];
  }

  lemma Aligned(a: nat, b: nat)
    requires a % 64 == 0 && b % 64 == 0
    ensures (a + b) % 64 == 0
  {
    DivModUnique(a + b, 64, a / 64 + b / 64, 0);
  }

  /** What a reader sees of datagram d: all of it, except that the footer of one
      committed without timestamps holds anything. */
  predicate Seen(d: Datagram, e: Datagram)
  {
    e.endpoint == d.endpoint && e.data == d.data && (d.stamps != [] ==> e.stamps == d.stamps)
  }

  ghost predicate SeenAll(q: seq<Datagram>, r: seq<Datagram>)
  {
    |r| == |q| && forall k :: 0 <= k < |q| ==> Seen(q[k], r[k])
  }

  class Queue {
    const size: nat
    const ring: array<U8>
    var nextWrite: nat
    var nextRead: nat
    var pending: Pending
    // The queued datagrams: those written before the writer last went back to
    // the start, up to the marker, and those written since.
    ghost var wrapped: bool
    ghost var older: seq<Datagram>
    ghost var newer: seq<Datagram>
    ghost var mark: nat

    ghost function Contents(): seq<Datagram>
      reads this
    {
      older + newer
    }

    /** The queue as the reference sees it. */
    ghost function Abstract(): Fifo
      requires Valid()
      reads this, ring
    {
      Fifo(size, nextWrite, nextRead, older, newer,
           if pending.Nothing? then None
           else Some(Draft(pending.endpoint, ring[nextWrite + HDR..nextWrite + HDR + pending.max])))
    }

    ghost predicate Valid()
      reads this, ring
    {
      && ring.Length == size && 0 < size < TWO_32 && size % 64 == 0
      && nextWrite < size && nextWrite % 64 == 0 && nextRead < size && nextRead % 64 == 0
      && Layout() && Room()
    }

    ghost predicate Layout()
      requires ring.Length == size
      reads this, ring
    {
      if wrapped then
        && nextWrite < nextRead <= mark && mark + 4 <= size && WordAt(ring[..], mark) == 0
        && Chain(ring[..], nextRead, mark, older) && Chain(ring[..], 0, nextWrite, newer)
      else
        older == [] && nextRead <= nextWrite && Chain(ring[..], nextRead, nextWrite, newer)
    }

    /** Allocated space is free, and leaves a gap before unread data. */
    ghost predicate Room()
      requires ring.Length == size
      reads this, ring
    {
      pending.Pending? ==>
        var reserve := EntrySize(pending.max);
        && nextWrite + reserve < size && (wrapped ==> nextWrite + reserve < nextRead)
        && |pending.endpoint| == 12 && ring[nextWrite + 4..nextWrite + HDR] == pending.endpoint
    }

    constructor (size: nat)
      requires 0 < size < TWO_32 && size % 64 == 0
      ensures Valid() && Contents() == [] && fresh(ring) && pending.Nothing? && this.size == size
      ensures nextWrite == nextRead == 0 && !wrapped && newer == []
    {
      this.size := size;
      ring := new U8[size](_ => 0);
      nextWrite, nextRead, pending := 0, 0, Nothing;
      wrapped, older, newer, mark := false, [], [], 0;
    }

    /** Overwrites free space; every queued entry stays. */
    method Put(at: nat, bytes: seq<U8>)
      requires Valid() && nextWrite <= at && at + |bytes| <= size
      requires wrapped ==> at + |bytes| <= nextRead
      modifies ring
      ensures ring[..] == old(ring[..])[..at] + bytes + old(ring[..])[at + |bytes|..]
      ensures Layout()
    {
      hide EntrySize, Holds, WordAt;
      ghost var r := ring[..];
      CopyIn(ring, at, bytes);
      if wrapped {
        ChainBounds(r, nextRead, mark, older);
        ChainFrame(r, ring[..], nextRead, mark, older);
        ChainFrame(r, ring[..], 0, nextWrite, newer);
        WordFrame(r, ring[..], mark);
      } else {
        ChainFrame(r, ring[..], nextRead, nextWrite, newer);
      }
    }

    /** `exa_udp_queue_write_alloc`: false if there is no room. It may move the
        writer back to the start, which stays done even if nothing is committed. */
    method WriteAlloc(endpoint: seq<U8>, max: nat) returns (ok: bool)
      requires Valid() && pending.Nothing? && |endpoint| == 12
      modifies this`nextWrite, this`pending, this`wrapped, this`older, this`newer, this`mark, ring
      ensures Valid() && Contents() == old(Contents()) && nextRead == old(nextRead)
      ensures ok ==> pending == Pending(max, endpoint)
      ensures !ok ==> pending.Nothing? && nextWrite == old(nextWrite) && wrapped == old(wrapped) && older == old(older) && newer == old(newer)
      ensures ok <==> if old(nextWrite) + EntrySize(max) >= size then EntrySize(max) < nextRead <= old(nextWrite)
                      else nextRead <= old(nextWrite) || old(nextWrite) + EntrySize(max) < nextRead
      ensures ok ==> nextWrite == if old(nextWrite) + EntrySize(max) >= size then 0 else old(nextWrite)
      ensures ok && old(nextWrite) + EntrySize(max) >= size ==> wrapped && older == old(newer) && newer == []
      ensures old(nextWrite) + EntrySize(max) < size ==> wrapped == old(wrapped) && older == old(older) && newer == old(newer)
    {
      hide EntrySize, Holds, WordAt;
      var reserve := EntrySize(max);
      if nextWrite + reserve >= size {
        if nextRead > nextWrite || nextRead <= reserve {
          return false;
        }
        WrapWriter();
      } else if nextRead > nextWrite && nextRead <= nextWrite + reserve {
        return false;
      }
      Put(nextWrite + 4, endpoint);
      assert ring[nextWrite + 4..nextWrite + HDR] == endpoint;
      pending := Pending(max, endpoint);
      ok := true;
    }

    /** Leaves a marker and goes back to the start of the ring. */
    method WrapWriter()
      requires Valid() && pending.Nothing? && 0 < nextRead <= nextWrite
      modifies this`nextWrite, this`wrapped, this`older, this`newer, this`mark, ring
      ensures Valid() && wrapped && nextWrite == 0 && older == old(newer) && newer == []
      ensures Contents() == old(Contents())
    {
      hide EntrySize, Holds;
      assert nextWrite + 4 <= size;
      ghost var r := ring[..];
      CopyIn(ring, nextWrite, [0, 0, 0, 0]);
      ChainFrame(r, ring[..], nextRead, nextWrite, newer);
      wrapped, older, newer, mark := true, newer, [], nextWrite;
      nextWrite := 0;
    }

    /** Copies payload into the allocated space. */
    method FillData(at: nat, bytes: seq<U8>)
      requires Valid() && pending.Pending? && at + |bytes| <= pending.max
      modifies ring
      ensures Valid()
      ensures var p := nextWrite + HDR + at; ring[..] == old(ring[..])[..p] + bytes + old(ring[..])[p + |bytes|..]
    {
      hide EntrySize, Holds, WordAt, Layout;
      ghost var r := ring[..];
      Put(nextWrite + HDR + at, bytes);
      Spliced(r, nextWrite + HDR + at, bytes, nextWrite + 4, nextWrite + HDR);
    }

    /** The datagram that a commit of len bytes would make of the allocated space. */
    ghost function Drafted(len: nat, stamps: seq<U8>): Datagram
      requires ring.Length == size && pending.Pending? && nextWrite + HDR + len <= size
      reads this, ring
    {
      Datagram(pending.endpoint, ring[nextWrite + HDR..nextWrite + HDR + len], stamps)
    }

    /** `exa_udp_queue_write_commit`: the datagram of len bytes joins the queue. */
    method WriteCommit(len: nat, stamps: seq<U8>)
      requires Valid() && pending.Pending? && len <= pending.max && (stamps == [] || |stamps| == FTR)
      modifies this`nextWrite, this`pending, this`newer, ring
      ensures Valid() && pending.Nothing? && nextRead == old(nextRead)
      ensures nextWrite == old(nextWrite) + EntrySize(len)
      ensures newer == old(newer) + [old(Drafted(len, stamps))]
      ensures Contents() == old(Contents()) + [old(Drafted(len, stamps))]
    {
      hide Holds, WordAt, Layout, EntrySize;
      var n := EntrySize(len);
      EntrySizeMonotone(len, pending.max);
      ghost var d := Drafted(len, stamps);
      PutEntry(len, stamps);
      Append(d, n);
    }

    /** Writes the length word and the timestamps of the entry. */
    method PutEntry(len: nat, stamps: seq<U8>)
      requires Valid() && pending.Pending? && len <= pending.max && (stamps == [] || |stamps| == FTR)
      requires nextWrite + EntrySize(len) <= nextWrite + EntrySize(pending.max) < size
      modifies ring
      ensures Layout() && Holds(ring[..], nextWrite, old(Drafted(len, stamps)))
    {
      hide Holds, WordAt, Layout, EntrySize;
      ghost var d := Drafted(len, stamps);
      PutLength(len);
      if stamps != [] {
        PutStamps(nextWrite + EntrySize(len) - FTR, stamps, len);
      }
      MakeHolds(ring[..], nextWrite, d);
    }

    /** Writes the length word; endpoint and payload stay. */
    method PutLength(len: nat)
      requires Valid() && pending.Pending? && len <= pending.max
      modifies ring
      ensures Valid() && WordAt(ring[..], nextWrite) == len
      ensures ring[nextWrite + HDR..nextWrite + HDR + len] == old(ring[nextWrite + HDR..nextWrite + HDR + len])
    {
      hide Holds, WordAt, WordBytes, Layout, EntrySize;
      ghost var r := ring[..];
      Put(nextWrite, WordBytes(len));
      Spliced(r, nextWrite, WordBytes(len), nextWrite + 4, nextWrite + HDR);
      Spliced(r, nextWrite, WordBytes(len), nextWrite + HDR, nextWrite + HDR + len);
      WordAtPut(ring[..], nextWrite, len);
    }

    /** Writes the footer; length, endpoint and payload stay. */
    method PutStamps(at: nat, stamps: seq<U8>, ghost len: nat)
      requires Valid() && nextWrite + HDR + len <= at && at + |stamps| <= size
      requires wrapped ==> at + |stamps| <= nextRead
      modifies ring
      ensures ring[at..at + |stamps|] == stamps && ring[nextWrite + 4..nextWrite + HDR] == old(ring[nextWrite + 4..nextWrite + HDR])
      ensures ring[nextWrite + HDR..nextWrite + HDR + len] == old(ring[nextWrite + HDR..nextWrite + HDR + len])
      ensures WordAt(ring[..], nextWrite) == old(WordAt(ring[..], nextWrite))
      ensures Layout()
    {
      hide EntrySize, Holds, WordAt;
      ghost var r := ring[..];
      Put(at, stamps);
      Spliced(r, at, stamps, nextWrite + 4, nextWrite + HDR);
      Spliced(r, at, stamps, nextWrite + HDR, nextWrite + HDR + len);
      WordFrame(r, ring[..], nextWrite);
    }

    /** The entry just written at the write position becomes part of the queue. */
    method Append(ghost d: Datagram, n: nat)
      requires ring.Length == size && 0 < size < TWO_32 && size % 64 == 0
      requires nextWrite % 64 == 0 && nextRead < size && nextRead % 64 == 0 && Layout()
      requires n == EntrySize(|d.data|) && nextWrite + n < size && (wrapped ==> nextWrite + n < nextRead)
      requires Holds(ring[..], nextWrite, d)
      modifies this`nextWrite, this`pending, this`newer
      ensures Valid() && pending.Nothing? && newer == old(newer) + [d] && nextWrite == old(nextWrite) + n
      ensures Contents() == old(Contents()) + [d]
    {
      hide Holds, WordAt, Chain, EntrySize;
      Aligned(nextWrite, n);
      ChainAppend(ring[..], if wrapped then 0 else nextRead, nextWrite, newer, d);
      newer := newer + [d];
      nextWrite, pending := nextWrite + n, Nothing;
    }

    /** `exa_udp_queue_write_abort` */
    method WriteAbort()
      requires Valid()
      modifies this`pending
      ensures Valid() && pending.Nothing? && Contents() == old(Contents())
    {
      pending := Nothing;
    }

    /** The read position as the reader sees it, a marker there skipped. */
    method SkipMark() returns (read: nat)
      requires Valid()
      ensures read == if wrapped && (older == [] || Abstract().FalseMark()) then 0 else nextRead
    {
      hide EntrySize;
      read := nextRead;
      if wrapped {
        ChainBounds(ring[..], nextRead, mark, older);
      }
      if nextRead > nextWrite && WordAt(ring[..], nextRead) == 0 {
        read := 0;
      }
    }

    /** `exa_udp_queue_ready` */
    method Ready() returns (ready: bool)
      requires Valid()
      ensures ready <==> if Abstract().FalseMark() then newer != [] else Contents() != []
    {
      hide EntrySize, Holds, WordAt;
      var read := SkipMark();
      ChainBounds(ring[..], if wrapped then 0 else nextRead, nextWrite, newer);
      ChainEmpty(ring[..], if wrapped then 0 else nextRead, nextWrite, newer);
      ready := read != nextWrite;
    }

    /** `exa_udp_queue_read_begin`. It finds the oldest datagram, or that there is
        none, exactly if no empty datagram is in front of the marker; if there is
        one, everything up to the marker is lost. */
    method ReadBegin() returns (d: Option<Datagram>)
      requires Valid()
      modifies this`nextRead, this`wrapped, this`older
      ensures Valid() && nextWrite == old(nextWrite) && pending == old(pending)
      ensures if old(wrapped && (older == [] || Abstract().FalseMark())) then nextRead == 0 && !wrapped && older == []
              else nextRead == old(nextRead) && wrapped == old(wrapped) && older == old(older)
      ensures Contents() == if old(Abstract().FalseMark()) then old(newer) else old(Contents())
      ensures d == None <==> Contents() == []
      ensures d.Some? ==> AtHead() && d.value.endpoint == Contents()[0].endpoint && d.value.data == Contents()[0].data
      ensures d.Some? && Contents()[0].stamps != [] ==> d.value == Contents()[0]
    {
      hide EntrySize, Holds, WordAt, Room;
      GoBack();
      ChainEmpty(ring[..], if wrapped then 0 else nextRead, nextWrite, newer);
      if nextRead == nextWrite {
        return None;
      }
      HeadHeld();
      var e := ReadEntry(Contents()[0]);
      d := Some(e);
    }

    /** The reader goes back to the start, at a marker or what looks like one. */
    method GoBack()
      requires Valid()
      modifies this`nextRead, this`wrapped, this`older
      ensures Valid()
      ensures if old(wrapped && (older == [] || Abstract().FalseMark())) then nextRead == 0 && !wrapped && older == []
              else nextRead == old(nextRead) && wrapped == old(wrapped) && older == old(older)
      ensures Contents() == if old(Abstract().FalseMark()) then old(newer) else old(Contents())
    {
      hide EntrySize, Holds, WordAt;
      var read := SkipMark();
      if wrapped && (older == [] || Abstract().FalseMark()) {
        wrapped, older := false, [];
      }
      nextRead := read;
    }

    /** The oldest datagram is at the read position. */
    ghost predicate AtHead()
      reads this
    {
      Contents() != [] && (wrapped ==> older != [])
    }

    lemma HeadHeld()
      requires Valid() && AtHead()
      ensures Holds(ring[..], nextRead, Contents()[0])
    {
    }

    /** Reads the entry at the read position. */
    method ReadEntry(ghost d: Datagram) returns (e: Datagram)
      requires Valid() && Holds(ring[..], nextRead, d)
      ensures e.endpoint == d.endpoint && e.data == d.data && (d.stamps != [] ==> e == d)
    {
      hide Layout;
      var len := WordAt(ring[..], nextRead);
      var n := EntrySize(len);
      e := Datagram(ring[nextRead + 4..nextRead + HDR], ring[nextRead + HDR..nextRead + HDR + len],
                    ring[nextRead + n - FTR..nextRead + n]);
    }

    /** `exa_udp_queue_read_end`: the oldest datagram leaves the queue. */
    method ReadEnd()
      requires Valid() && AtHead()
      modifies this`nextRead, this`older, this`newer
      ensures Valid() && Contents() == old(Contents())[1..]
      ensures older == if old(older) == [] then [] else old(older)[1..]
      ensures newer == if old(older) == [] then old(newer)[1..] else old(newer)
      ensures nextRead == old(nextRead) + EntrySize(|old(Contents())[0].data|)
    {
      hide EntrySize, Holds, WordAt, Layout, Room;
      HeadHeld();
      LengthAtHead(ring[..], nextRead, Contents()[0]);
      var len := WordAt(ring[..], nextRead);
      DropHead(EntrySize(len));
    }

    /** The read position moves past the entry there, n bytes long. */
    method DropHead(n: nat)
      requires Valid() && AtHead() && n == EntrySize(|Contents()[0].data|)
      modifies this`nextRead, this`older, this`newer
      ensures Valid() && Contents() == old(Contents())[1..]
      ensures older == if old(older) == [] then [] else old(older)[1..]
      ensures newer == if old(older) == [] then old(newer)[1..] else old(newer)
      ensures nextRead == old(nextRead) + n
    {
      hide EntrySize, WordAt, Chain;
      if wrapped {
        ChainTail(ring[..], nextRead, mark, older);
        TailConcat(older, newer);
        older := older[1..];
      } else {
        ChainTail(ring[..], nextRead, nextWrite, newer);
        assert Contents() == newer;
        newer := newer[1..];
      }
      nextRead := nextRead + n;
    }

    /** Any interleaving of writer and reader does to the queue, delivers and shows
        exactly what the reference does, and an allocation that is granted gets all
        the space it asks for. */
    method Run(events: seq<Event>) returns (received: seq<Datagram>, peeked: seq<Datagram>, blanks: seq<seq<U8>>)
      requires Valid()
      modifies this`nextWrite, this`nextRead, this`pending, this`wrapped, this`older, this`newer, this`mark, ring
      ensures Valid() && |blanks| == |events|
      ensures forall i :: 0 <= i < |events| && events[i].Alloc? ==> |blanks[i]| == events[i].max
      ensures Abstract() == Exec(old(Abstract()), events, blanks).0
      ensures SeenAll(Exec(old(Abstract()), events, blanks).1, received)
      ensures SeenAll(Peeked(old(Abstract()), events, blanks), peeked)
    {
      hide Layout, Room, EntrySize, Next, Delivered, Shown, Seen;
      received, peeked, blanks := [], [], [];
      ghost var start := Abstract();
      assert events[..0] == [];
      var i := 0;
      while i < |events|
        invariant 0 <= i <= |events| && Valid() && |blanks| == i
        invariant Abstract() == Exec(start, events[..i], blanks).0
        invariant forall k :: 0 <= k < i && events[k].Alloc? ==> |blanks[k]| == events[k].max
        invariant SeenAll(Exec(start, events[..i], blanks).1, received)
        invariant SeenAll(Peeked(start, events[..i], blanks), peeked)
      {
        var got, seen, blank := Step(events[i]);
        assert events[..i + 1][..i] == events[..i] && (blanks + [blank])[..i] == blanks;
        received, peeked, blanks := received + got, peeked + seen, blanks + [blank];
        i := i + 1;
      }
      assert events[..|events|] == events;
    }

    lemma Facts()
      requires Valid()
      ensures (wrapped <==> nextWrite < nextRead) && (!wrapped ==> older == [])
      ensures pending.Pending? ==> nextWrite + HDR + pending.max <= size && |pending.endpoint| == 12
    {
      hide Chain, WordAt, EntrySize;
    }

    method Allocate(endpoint: seq<U8>, max: nat) returns (blank: seq<U8>)
      requires Valid()
      modifies this`nextWrite, this`pending, this`wrapped, this`older, this`newer, this`mark, ring
      ensures Valid() && |blank| == max && Abstract() == Next(old(Abstract()), Alloc(endpoint, max), blank)
    {
      hide Layout, Room, EntrySize, Contents;
      Facts();
      blank := seq(max, _ => 0);
      if pending.Nothing? && |endpoint| == 12 {
        var ok := WriteAlloc(endpoint, max);
        Facts();
        if ok {
          blank := ring[nextWrite + HDR..nextWrite + HDR + max];
        }
      }
    }

    method FillIn(at: nat, bytes: seq<U8>)
      requires Valid()
      modifies ring
      ensures Valid() && forall blank :: Abstract() == Next(old(Abstract()), Fill(at, bytes), blank)
    {
      hide Layout, Room, EntrySize, Next;
      Facts();
      ghost var f := Abstract();
      if pending.Pending? && at + |bytes| <= pending.max {
        FillSpace(at, bytes);
      }
      NextFill(f, at, bytes);
    }

    method FillSpace(at: nat, bytes: seq<U8>)
      requires Valid() && pending.Pending? && at + |bytes| <= pending.max && nextWrite + HDR + pending.max <= size
      modifies ring
      ensures Valid()
      ensures var p, n := nextWrite + HDR, pending.max;
              var space := old(ring[p..p + n]);
              ring[p..p + n] == space[..at] + bytes + space[at + |bytes|..]
    {
      hide Layout, Room, EntrySize;
      Inside(ring[..], nextWrite + HDR, pending.max, at, bytes);
      FillData(at, bytes);
    }

    method Finish(len: nat, stamps: seq<U8>)
      requires Valid()
      modifies this`nextWrite, this`pending, this`newer, ring
      ensures Valid() && forall blank :: Abstract() == Next(old(Abstract()), Commit(len, stamps), blank)
    {
      hide Layout, Room, EntrySize;
      Facts();
      if pending.Pending? && len <= pending.max && (stamps == [] || |stamps| == FTR) {
        assert ring[nextWrite + HDR..nextWrite + HDR + pending.max][..len] == ring[nextWrite + HDR..nextWrite + HDR + len];
        WriteCommit(len, stamps);
      }
    }

    method TakeOne() returns (got: seq<Datagram>)
      requires Valid()
      modifies this`nextRead, this`wrapped, this`older, this`newer
      ensures Valid() && forall blank :: Abstract() == Next(old(Abstract()), Take, blank)
      ensures SeenAll(Delivered(old(Abstract()), Take), got)
    {
      hide Layout, Room, EntrySize, Next, Fifo.Skip, Pop;
      NextRead(Abstract());
      got := Look();
      if got != [] {
        Remove();
      } else {
        PopNone(Abstract());
      }
    }

    /** A read with MSG_PEEK, which ends with `exa_udp_queue_read_abort`. */
    method PeekOne() returns (seen: seq<Datagram>)
      requires Valid()
      modifies this`nextRead, this`wrapped, this`older
      ensures Valid() && forall blank :: Abstract() == Next(old(Abstract()), Peek, blank)
      ensures SeenAll(Shown(old(Abstract()), Peek), seen)
    {
      hide Layout, Room, EntrySize, Next, Fifo.Skip, Pop;
      NextRead(Abstract());
      seen := Look();
    }

    /** The reader at the head of the queue, and what it sees there. */
    method Look() returns (got: seq<Datagram>)
      requires Valid()
      modifies this`nextRead, this`wrapped, this`older
      ensures Valid() && Abstract() == old(Abstract()).Skip()
      ensures SeenAll(Head(old(Abstract())), got) && (got != [] ==> AtHead())
      ensures got == [] <==> Abstract().Queue() == []
    {
      hide Layout, Room, EntrySize;
      Facts();
      var d := ReadBegin();
      Facts();
      got := if d.Some? then [d.value] else [];
    }

    method Remove()
      requires Valid() && AtHead()
      modifies this`nextRead, this`older, this`newer
      ensures Valid() && Abstract() == Pop(old(Abstract()))
    {
      hide Layout, Room, EntrySize;
      ReadEnd();
    }

    /** One event of a run: what it delivers or shows, and what granted space holds. */
    method Step(e: Event) returns (got: seq<Datagram>, seen: seq<Datagram>, blank: seq<U8>)
      requires Valid()
      modifies this`nextWrite, this`nextRead, this`pending, this`wrapped, this`older, this`newer, this`mark, ring
      ensures Valid() && Abstract() == Next(old(Abstract()), e, blank)
      ensures e.Alloc? ==> |blank| == e.max
      ensures SeenAll(Delivered(old(Abstract()), e), got) && SeenAll(Shown(old(Abstract()), e), seen)
    {
      hide Layout, Room, EntrySize;
      got, seen, blank := [], [], [];
      match e {
        case Alloc(endpoint, max) =>
          blank := Allocate(endpoint, max);
        case Fill(at, bytes) =>
          FillIn(at, bytes);
        case Commit(len, stamps) =>
          Finish(len, stamps);
        case Abort =>
          WriteAbort();
        case Take =>
          got := TakeOne();
        case Peek =>
          seen := PeekOne();
      }
    }
  }

  /** Puts one datagram of the given length into the queue. */
  method Store(q: Queue, len: nat)
    requires q.Valid() && q.pending.Nothing? && q.nextWrite + EntrySize(len) < q.size && !q.wrapped
    modifies q, q.ring
    ensures q.Valid() && q.pending.Nothing? && !q.wrapped
    ensures q.nextRead == old(q.nextRead) && q.nextWrite == old(q.nextWrite) + EntrySize(len)
    ensures |q.newer| == |old(q.newer)| + 1 && q.newer[..|old(q.newer)|] == old(q.newer) && |q.newer[|old(q.newer)|].data| == len
  {
    hide EntrySize, Chain;
    var ok := q.WriteAlloc(seq(12, _ => 0), len);
    q.WriteCommit(len, []);
  }

  /** Takes one datagram out of a queue whose writer has not gone back. */
  method Retrieve(q: Queue)
    requires q.Valid() && q.pending.Nothing? && !q.wrapped && q.newer != []
    modifies q
    ensures q.Valid() && q.pending.Nothing? && !q.wrapped && q.newer == old(q.newer)[1..]
    ensures q.nextWrite == old(q.nextWrite) && q.nextRead == old(q.nextRead) + EntrySize(|old(q.newer)[0].data|)
  {
    hide EntrySize, Chain;
    assert q.Contents() == q.newer;
    var d := q.ReadBegin();
    assert q.Contents() == q.newer;
    q.ReadEnd();
    assert q.Contents() == q.newer;
  }

  lemma SmallEntries()
    ensures EntrySize(0) == EntrySize(1) == EntrySize(2) == EntrySize(7) == 64
  {
  }

  /** In a 256-byte ring, an empty datagram that is next to be read when the
      writer has gone back to the start is never delivered: the read that should
      return it returns the datagram of seven bytes stored after it. */
  method EmptyDatagramLost() returns (q: Queue, d: Option<Datagram>)
    ensures fresh(q) && d.Some? && |d.value.data| == 7 && |q.Contents()| == 1
  {
    hide Chain, EntrySize, Queue.Layout, Queue.Room;
    SmallEntries();
    q := new Queue(256);
    Store(q, 1);
    Store(q, 2);
    Store(q, 0);
    Retrieve(q);
    Retrieve(q);
    var ok := q.WriteAlloc(seq(12, _ => 0), 7);
    q.WriteCommit(7, []);
    assert q.older[0].data == [];
    assert q.Abstract().FalseMark();
    d := q.ReadBegin();
  }

  /** A slice of r after bytes are written inside it. */
  lemma Inside(r: seq<U8>, p: nat, n: nat, at: nat, bytes: seq<U8>)
    requires p + n <= |r| && at + |bytes| <= n
    ensures var r' := r[..p + at] + bytes + r[p + at + |bytes|..];
            var s := r[p..p + n];
            r'[p..p + n] == s[..at] + bytes + s[at + |bytes|..]
  {
    var s, r' := r[p..p + n], r[..p + at] + bytes + r[p + at + |bytes|..];
    var x, y := r'[p..p + n], s[..at] + bytes + s[at + |bytes|..];
    forall k | 0 <= k < n
      ensures x[k] == y[k]
    {
      assert x[k] == r'[p + k] && s[k] == r[p + k];
    }
  }

  /** Bytes written into r at `at` are there, and a slice apart from them stays. */
  lemma Spliced(r: seq<U8>, at: nat, bytes: seq<U8>, from: nat, to: nat)
    requires at + |bytes| <= |r| && from <= to <= |r| && (to <= at || at + |bytes| <= from)
    ensures var r' := r[..at] + bytes + r[at + |bytes|..];
            r'[at..at + |bytes|] == bytes && r'[from..to] == r[from..to]
  {
    var r' := r[..at] + bytes + r[at + |bytes|..];
    forall k | 0 <= k < |bytes|
      ensures r'[at..at + |bytes|][k] == bytes[k]
    {
      assert r'[at + k] == bytes[k];
    }
    forall k | 0 <= k < to - from
      ensures r'[from..to][k] == r[from..to][k]
    {
      assert r'[from + k] == r[from + k];
    }
  }

  lemma MakeHolds(r: seq<U8>, p: nat, d: Datagram)
    requires p + EntrySize(|d.data|) <= |r|
    requires WordAt(r, p) == |d.data| && r[p + 4..p + HDR] == d.endpoint && r[p + HDR..p + HDR + |d.data|] == d.data
    requires d.stamps != [] ==> r[p + EntrySize(|d.data|) - FTR..p + EntrySize(|d.data|)] == d.stamps
    ensures Holds(r, p, d)
  {
  }

  lemma ChainTail(r: seq<U8>, from: nat, to: nat, q: seq<Datagram>)
    requires Chain(r, from, to, q) && q != []
    ensures var next := from + EntrySize(|q[0].data|); next <= to && Chain(r, next, to, q[1..])
  {
    hide Holds, EntrySize;
    ChainBounds(r, from + EntrySize(|q[0].data|), to, q[1..]);
  }

  lemma LengthAtHead(r: seq<U8>, p: nat, d: Datagram)
    requires Holds(r, p, d)
    ensures p + 4 <= |r| && WordAt(r, p) == |d.data|
  {
  }

  lemma EntrySizeMonotone(m: nat, n: nat)
    requires m <= n
    ensures EntrySize(m) <= EntrySize(n)
  {
  }

  lemma WordAtPut(r: seq<U8>, p: nat, n: U32)
    requires p + 4 <= |r| && r[p..p + 4] == WordBytes(n)
    ensures WordAt(r, p) == n
  {
  }

  lemma ChainEmpty(r: seq<U8>, from: nat, to: nat, q: seq<Datagram>)
    requires Chain(r, from, to, q)
    ensures from == to <==> q == []
  {
    hide Holds, EntrySize;
    ChainBounds(r, from, to, q);
  }

  lemma WordFrame(r: seq<U8>, r': seq<U8>, p: nat)
    requires p + 4 <= |r| == |r'| && forall k :: p <= k < p + 4 ==> r'[k] == r[k]
    ensures WordAt(r', p) == WordAt(r, p)
  {
  }
}
