/** The TCP receive buffer: segments of one sender's stream, arriving in any
    order, reach the reader as a prefix of that stream. */
module TcpReceive {
  import opened Words
  import opened ByteRing
  import opened Reassembly
  import opened SegmentArray

  // ------------------------------------------------------------------
  // What the ring must hold

  /** The ring carries the sender's byte at stream position p. */
  ghost predicate Carries(ring: seq<U8>, isn: int, sent: seq<U8>, p: int)
    requires 0 < |ring|
  {
    0 <= p < |sent| && ring[Slot(isn, |ring|, p)] == sent[p]
  }

  /** Every byte that is acknowledged and unread, or queued, is the sender's;
      bytes in `hole` are exempt while a claimed range is being filled. */
  ghost predicate Sound(ring: seq<U8>, isn: int, sent: seq<U8>, read: int, q: Queue, hole: Range)
    requires 0 < |ring|
  {
    forall p :: read <= p && !hole.Has(p) && (p < q.recv || Covered(q.segs, p)) ==> Carries(ring, isn, sent, p)
  }

  lemma SoundBut(ring: seq<U8>, isn: int, sent: seq<U8>, read: int, q: Queue, hole: Range)
    requires 0 < |ring| && Sound(ring, isn, sent, read, q, EMPTY)
    ensures Sound(ring, isn, sent, read, q, hole)
  {
  }

  /** No byte beyond the window is spoken for. */
  ghost predicate InWindow(q: Queue, end: int)
  {
    q.recv <= end && forall k :: 0 <= k < |q.segs| ==> q.segs[k].hi <= end
  }

  lemma InWindowCovers(q: Queue, end: int, p: int)
    requires InWindow(q, end) && (p < q.recv || Covered(q.segs, p))
    ensures p < end
  {
  }

  /** Filling a range disturbs no other byte in the window. */
  lemma FillSound(was: seq<U8>, now: seq<U8>, isn: int, sent: seq<U8>, read: int, q: Queue, hole: Range, lo: int, bytes: seq<U8>)
    requires Written(was, now, isn, lo, bytes) && Sound(was, isn, sent, read, q, hole)
    requires read <= lo && lo + |bytes| <= read + |was| && InWindow(q, read + |was|)
    ensures forall p :: read <= p && !hole.Has(p) && !Range(lo, lo + |bytes|).Has(p) && (p < q.recv || Covered(q.segs, p)) ==>
              Carries(now, isn, sent, p)
    ensures forall p :: lo <= p < lo + |bytes| && 0 <= p < |sent| && bytes[p - lo] == sent[p] ==> Carries(now, isn, sent, p)
  {
    hide Slot;
    forall p | read <= p && !hole.Has(p) && !Range(lo, lo + |bytes|).Has(p) && (p < q.recv || Covered(q.segs, p))
      ensures Carries(now, isn, sent, p)
    {
      InWindowCovers(q, read + |was|, p);
      assert Carries(was, isn, sent, p);
      WrittenElsewhere(was, now, isn, lo, bytes, p);
    }
  }

  /** Storing the sender's bytes from the end of the acknowledged data up to
      `working` makes them known, and disturbs no byte beyond. */
  lemma StoreSound(was: seq<U8>, now: seq<U8>, isn: int, sent: seq<U8>, read: int, q: Queue, hole: Range, working: int)
    requires 0 <= read <= q.recv <= working <= |sent| && working <= read + |was| && InWindow(q, read + |was|)
    requires Written(was, now, isn, q.recv, sent[q.recv..working]) && Sound(was, isn, sent, read, q, hole)
    ensures Sound(now, isn, sent, read, q.(recv := working), hole)
    ensures forall p :: working <= p < read + |was| && Carries(was, isn, sent, p) ==> Carries(now, isn, sent, p)
  {
    hide Slot;
    var bytes := sent[q.recv..working];
    FillSound(was, now, isn, sent, read, q, hole, q.recv, bytes);
    forall p | working <= p < read + |was| && Carries(was, isn, sent, p)
      ensures Carries(now, isn, sent, p)
    {
      WrittenElsewhere(was, now, isn, q.recv, bytes, p);
    }
  }

  lemma CommitKeepsSound(ring: seq<U8>, isn: int, sent: seq<U8>, read: int, q: Queue, lo: int, hi: int)
    requires 0 < |ring| && |q.segs| <= MAX_SEGMENTS
    requires Sound(ring, isn, sent, read, q, Range(lo, hi)) && forall p :: lo <= p < hi ==> Carries(ring, isn, sent, p)
    ensures Sound(ring, isn, sent, read, CommitRange(q, lo, hi), EMPTY)
  {
    hide Slot, Carries, CommitRange;
    var r := CommitRange(q, lo, hi);
    forall p | read <= p && (p < r.recv || Covered(r.segs, p))
      ensures Carries(ring, isn, sent, p)
    {
      if q.recv <= p || Covered(r.segs, p) {
        CommitSound(q, lo, hi, p);
      }
    }
  }

  /** The effect of committing [lo, hi) while the kernel is working on the bytes
      before it: the range is queued, and nothing is acknowledged. */
  function QueueRange(q: Queue, lo: int, hi: int): (r: Queue)
    requires |q.segs| <= MAX_SEGMENTS
    ensures |r.segs| <= MAX_SEGMENTS
  {
    Queue(q.recv, Insert(Prune(q.segs, q.recv), lo, hi))
  }

  lemma QueueKeepsSound(ring: seq<U8>, isn: int, sent: seq<U8>, read: int, q: Queue, lo: int, hi: int)
    requires 0 < |ring| && |q.segs| <= MAX_SEGMENTS
    requires Sound(ring, isn, sent, read, q, Range(lo, hi)) && forall p :: lo <= p < hi ==> Carries(ring, isn, sent, p)
    ensures Sound(ring, isn, sent, read, QueueRange(q, lo, hi), EMPTY)
  {
    hide Slot, Carries, Insert, Prune;
    var s, r := Prune(q.segs, q.recv), QueueRange(q, lo, hi);
    forall p | read <= p && (p < r.recv || Covered(r.segs, p))
      ensures Carries(ring, isn, sent, p)
    {
      InsertSound(s, lo, hi, p);
      PruneSound(q.segs, q.recv, p);
    }
  }

  lemma QueueKeepsShape(q: Queue, lo: int, hi: int, end: int, at: int)
    requires |q.segs| <= MAX_SEGMENTS && Ordered(q.segs, q.recv) && Short(q.segs) && Near(q.segs, at) && InWindow(q, end)
    requires q.recv < at <= lo < hi <= end <= q.recv + TWO_30
    ensures var r := QueueRange(q, lo, hi);
            && Ordered(r.segs, r.recv) && Short(r.segs) && Near(r.segs, at) && InWindow(r, end)
            && (Above(q.segs, q.recv) ==> Above(r.segs, r.recv))
  {
    hide Insert, Prune, Near, Short;
    var s := Prune(q.segs, q.recv);
    PruneOrdered(q.segs, q.recv);
    PruneEndsBy(q.segs, q.recv, end);
    InsertOrdered(s, lo, hi, q.recv, end);
    PruneNear(q.segs, q.recv, at);
    InsertNear(s, lo, hi, at);
    InsertEndsBy(s, lo, hi, end);
    if Above(q.segs, q.recv) {
      InsertAbove(s, lo, hi, q.recv);
    }
  }

  lemma AbortKeepsSound(ring: seq<U8>, isn: int, sent: seq<U8>, read: int, q: Queue, t: seq<Range>, lo: int, hi: int)
    requires 0 < |ring| && (lo == hi || q.recv <= lo)
    requires Sound(ring, isn, sent, read, q, Range(lo, hi))
    requires Avoids(t, lo, hi) && forall k :: 0 <= k < |t| ==> t[k] in q.segs
    ensures Sound(ring, isn, sent, read, q.(segs := t), EMPTY)
  {
  }

  ghost predicate EndsBy(s: seq<Range>, end: int)
  {
    forall k :: 0 <= k < |s| ==> s[k].hi <= end
  }

  lemma InsertEndsBy(s: seq<Range>, lo: int, hi: int, end: int)
    requires |s| <= MAX_SEGMENTS && EndsBy(s, end) && hi <= end
    ensures EndsBy(Insert(s, lo, hi), end)
  {
  }

  lemma PruneEndsBy(s: seq<Range>, recv: int, end: int)
    requires EndsBy(s, end)
    ensures EndsBy(Prune(s, recv), end)
  {
  }

  lemma CommitInWindow(q: Queue, lo: int, hi: int, end: int)
    requires |q.segs| <= MAX_SEGMENTS && InWindow(q, end) && hi <= end
    ensures InWindow(CommitRange(q, lo, hi), end)
  {
    hide Insert, Prune, Reach;
    var s := Prune(q.segs, q.recv);
    PruneEndsBy(q.segs, q.recv, end);
    InsertEndsBy(s, lo, hi, end);
  }

  lemma PruneNear(s: seq<Range>, recv: int, at: int)
    requires Near(s, at) && NonEmpty(s)
    ensures Near(Prune(s, recv), at)
  {
  }

  /** Ranges near a position are near an earlier one too, if they end by then. */
  lemma NearBack(q: Queue, at: int, end: int)
    requires Near(q.segs, at) && InWindow(q, end) && q.recv <= at && end <= q.recv + TWO_30
    ensures Near(q.segs, q.recv)
  {
  }

  lemma InsertNear(s: seq<Range>, lo: int, hi: int, recv: int)
    requires |s| <= MAX_SEGMENTS && Near(s, recv) && recv <= lo < hi <= recv + TWO_30
    ensures Near(Insert(s, lo, hi), recv)
  {
    hide Before, Reach, Place, Widen;
  }

  lemma AbortKeepsShape(q: Queue, lo: int, hi: int, end: int, at: int)
    requires Ordered(q.segs, q.recv) && Short(q.segs) && InWindow(q, end) && Near(q.segs, at)
    ensures var t := AbortRange(q.segs, lo, hi);
            && Ordered(t, q.recv) && Short(t) && InWindow(q.(segs := t), end) && Near(t, at)
            && (Above(q.segs, q.recv) ==> Above(t, q.recv))
  {
    hide AbortRange;
    AbortOrdered(q.segs, lo, hi, q.recv);
  }

  lemma OrderedNonEmpty(s: seq<Range>, recv: int)
    requires Ordered(s, recv)
    ensures NonEmpty(s)
  {
  }

  /** Giving back fewer bytes meets no more ranges. */
  lemma AtMostOneLess(s: seq<Range>, lo: int, lo': int, hi: int)
    requires lo <= lo'
    ensures AtMostOne(s, lo, hi) ==> AtMostOne(s, lo', hi)
  {
  }

  /** What the removal loop leaves is a list of genuine bytes if at most one queued
      range met the aborted ones. */
  lemma AbortKeeps(ring: seq<U8>, a: seq<Segment>, isn: int, sent: seq<U8>, read: int, q: Queue, lo: int, hi: int, at: int)
    requires 0 < |ring| && |q.segs| <= MAX_SEGMENTS && NonEmpty(q.segs) && (lo == hi || q.recv <= lo)
    requires Sound(ring, isn, sent, read, q, Range(lo, hi)) && HoldsSlots(a, AbortSlots(q.segs, lo, hi), isn, at)
    ensures var t := AbortRange(q.segs, lo, hi);
            AtMostOne(q.segs, lo, hi) ==> Represents(a, t, isn) && Sound(ring, isn, sent, read, q.(segs := t), EMPTY)
  {
    hide AbortRange, AbortSlots, Sound, AtMostOne, HoldsSlots, Represents;
    if AtMostOne(q.segs, lo, hi) {
      var t := AbortRange(q.segs, lo, hi);
      AbortSafe(q.segs, lo, hi);
      SlotsRepresent(a, t, isn, at);
      AbortKeepsSound(ring, isn, sent, read, q, t, lo, hi);
    }
  }

  /** Acknowledged data never runs past what was sent. */
  lemma CommitWithinSent(ring: seq<U8>, isn: int, sent: seq<U8>, read: int, q: Queue)
    requires 0 < |ring| && read <= q.recv && Sound(ring, isn, sent, read, q, EMPTY)
    ensures q.recv == read || q.recv <= |sent|
  {
    assert q.recv == read || Carries(ring, isn, sent, q.recv - 1);
  }

  lemma CommitShape(q: Queue, lo: int, hi: int, read: int, size: nat)
    requires |q.segs| <= MAX_SEGMENTS && Ordered(q.segs, q.recv) && Short(q.segs) && Near(q.segs, q.recv)
    requires InWindow(q, read + size) && read <= q.recv <= lo < hi <= read + size && size <= TWO_30
    ensures var r := CommitRange(q, lo, hi);
            && q.recv <= r.recv && Ordered(r.segs, r.recv) && Short(r.segs) && Near(r.segs, r.recv) && InWindow(r, read + size)
            && (Above(q.segs, q.recv) ==> Above(r.segs, r.recv))
  {
    hide CommitRange, Short;
    CommitGrows(q, lo, hi);
    CommitOrdered(q, lo, hi, read + size);
    CommitInWindow(q, lo, hi, read + size);
  }

  /** The 32-bit space check accepts exactly the ends inside the window. */
  lemma WindowTest(isn: int, x: int, read: int, size: int)
    requires -TWO_31 < x - read < TWO_31 && 0 < size <= TWO_30
    ensures Wrap32(Seq(isn, x) - Seq(isn, read)) <= size <==> read <= x <= read + size
  {
  }

  lemma SeqDifference(isn: int, x: int, y: int)
    requires 0 <= x - y < TWO_32
    ensures Wrap32(Seq(isn, x) - Seq(isn, y)) == x - y
  {
  }

  lemma RestAtMost(x: int, n: int)
    requires 0 <= x && 0 < n
    ensures x % n <= x
  {
    MulNonNegative(n, x / n);
  }

  lemma WrapLess(x: int, k: int)
    requires 0 <= k <= Wrap32(x)
    ensures Wrap32(x - k) == Wrap32(x) - k
  {
  }

  /** Rounding the end of a region down to a multiple of the ring size. */
  lemma CutSeq(isn: int, size: int, hi: int)
    requires RingSize(size)
    ensures var end := Seq(isn, hi);
            && end % size == Slot(isn, size, hi)
            && 0 <= end - end % size < TWO_32 && end - end % size == Seq(isn, hi - Slot(isn, size, hi))
  {
    SlotOfSeq(isn, size, hi);
    RestAtMost(Seq(isn, hi), size);
    WrapLess(isn + hi, Slot(isn, size, hi));
    assert isn + hi - Slot(isn, size, hi) == isn + (hi - Slot(isn, size, hi));
  }

  lemma MulNonNegative(x: int, y: int)
    requires 0 <= x && 0 <= y
    ensures 0 <= x * y
  {
  }

  lemma SeqEqual(isn: int, x: int, y: int)
    requires -TWO_32 < x - y < TWO_32
    ensures Seq(isn, x) == Seq(isn, y) <==> x == y
  {
  }

  lemma FirstOfTwo(s: seq<U8>, at: nat, len1: nat, len2: nat, m: nat)
    requires at + len1 <= |s| && len2 <= |s| && m <= len1 + len2
    ensures (s[at..at + len1] + s[..len2])[..m] == if m <= len1 then s[at..at + m] else s[at..at + len1] + s[..m - len1]
  {
    var x := (s[at..at + len1] + s[..len2])[..m];
    var y := if m <= len1 then s[at..at + m] else s[at..at + len1] + s[..m - len1];
    forall k | 0 <= k < m
      ensures x[k] == y[k]
    {
    }
  }

  /** Sound unread data, read back through the ring, is the sender's. */
  lemma WindowIsSent(ring: seq<U8>, isn: int, sent: seq<U8>, read: int, q: Queue)
    requires 0 < |ring| && 0 <= read <= q.recv <= |sent| && Sound(ring, isn, sent, read, q, EMPTY)
    ensures Window(ring, isn, read, q.recv) == sent[read..q.recv]
  {
    hide Slot, Window;
    var w := Window(ring, isn, read, q.recv);
    forall k | 0 <= k < q.recv - read
      ensures w[k] == sent[read..q.recv][k]
    {
      var p := read + k;
      assert Carries(ring, isn, sent, p);
      assert w[p - read] == ring[Slot(isn, |ring|, p)];
    }
  }

  /** The kernel receives in-order bytes on its own: it claims them, and later
      acknowledges them. */
  datatype Turn = Claims(n: nat) | Acks

  /** One thing that can happen to a connection: a segment arrives (its checksum
      matches or not; the kernel takes turns while it is claimed, and may acknowledge
      while it is stored), the kernel takes a turn in between, or the application
      reads. */
  datatype Event =
    | Arrive(pos: int, bytes: seq<U8>, intact: bool, turns: seq<Turn>, acks: bool)
    | Kernel(turn: Turn)
    | Read(n: nat)

  // ------------------------------------------------------------------
  // The reference: what a run does to the reader's position and to what is known

  /** The reader's position, what is known, and where the bytes end that the
      kernel is working on. */
  datatype Model = Model(read: int, q: Queue, working: int)

  /** The kernel may claim n more in-order bytes: it has acknowledged those before,
      they fit the window, and no queued range falls 2^30 bytes behind. */
  predicate KernelFits(m: Model, size: nat, sent: nat, n: nat)
  {
    && m.working == m.q.recv
    && m.q.recv + n <= m.read + size && m.q.recv + n <= sent
    && forall k :: 0 <= k < |m.q.segs| ==> m.q.recv + n - TWO_30 < m.q.segs[k].lo
  }

  /** A turn of the kernel; a claim that it may not make is not made. */
  function KernelNext(m: Model, size: nat, sent: nat, turn: Turn): (r: Model)
    ensures r.q.segs == m.q.segs && r.read == m.read
  {
    if turn.Acks? then m.(q := m.q.(recv := m.working))
    else if KernelFits(m, size, sent, turn.n) then m.(working := m.q.recv + turn.n)
    else m
  }

  /** The next of the kernel's turns, if there is one, and those after it. */
  function OneTurn(m: Model, size: nat, sent: nat, turns: seq<Turn>): (r: (Model, seq<Turn>))
    ensures r.0.q.segs == m.q.segs && r.0.read == m.read
  {
    if turns == [] then (m, []) else (KernelNext(m, size, sent, turns[0]), turns[1..])
  }

  /** The compare-and-swap loop that last saw the kernel's claim end at `seen`: it
      stops when the claim has not moved, or has moved past the segment. */
  function Spins(m: Model, size: nat, sent: nat, turns: seq<Turn>, seen: int, end: int): (r: Model)
    ensures r.q.segs == m.q.segs && r.read == m.read
    decreases |turns|
  {
    if m.working == seen || end <= m.working || turns == [] then m
    else Spins(KernelNext(m, size, sent, turns[0]), size, sent, turns[1..], m.working, end)
  }

  /** The kernel's side of a claim for a segment that ends at `end`. */
  function Raced(m: Model, size: nat, sent: nat, turns: seq<Turn>, end: int): (r: Model)
    ensures r.q.segs == m.q.segs && r.read == m.read
  {
    if end < m.read || m.read + size < end then m
    else
      var (m1, rest) := OneTurn(m, size, sent, turns);
      if end <= m.working then m1 else Spins(m1, size, sent, rest, m.working, end)
  }

  /** The kernel's side of a whole segment: while it is claimed, and while what was
      claimed is stored. */
  function Attended(m: Model, size: nat, sent: nat, e: Event): (r: Model)
    requires e.Arrive?
    ensures r.q.segs == m.q.segs && r.read == m.read
  {
    var end := e.pos + |e.bytes|;
    var m1 := if |e.bytes| == 0 then m else Raced(m, size, sent, e.turns, end);
    if e.acks && ClaimedFrom(m1, size, e.pos, end) < end then KernelNext(m1, size, sent, Acks) else m1
  }

  /** The bytes of a segment that are claimed: none before `lo`, and none at all
      if the segment brings nothing new or does not fit. */
  function ClaimedFrom(m: Model, size: nat, pos: int, end: int): (lo: int)
  {
    if pos < end && m.working < end <= m.read + size then Max(pos, m.working) else end
  }

  /** The network delivers segments of the sender's stream, none more than 2^30
      behind or 2^31 ahead of the reader; a damaged frame may carry anything, but
      meets at most one queued range. */
  predicate Arrivable(m: Model, size: nat, sent: seq<U8>, pos: int, bytes: seq<U8>, intact: bool)
  {
    var end := pos + |bytes|;
    && |bytes| < TWO_16
    && -TWO_30 < end - m.read < TWO_31
    && (intact ==> 0 <= pos && end <= |sent| && bytes == sent[pos..end])
    && (!intact ==> AtMostOne(m.q.segs, ClaimedFrom(m, size, pos, end), end))
  }

  predicate Possible(m: Model, size: nat, sent: seq<U8>, e: Event)
  {
    match e
    case Arrive(pos, bytes, intact, turns, acks) => Arrivable(m, size, sent, pos, bytes, intact)
    case Kernel(turn) => true
    case Read(n) => true
  }

  /** What is known after [lo, hi) is committed. */
  function Committed(q: Queue, working: int, lo: int, hi: int): (r: Queue)
    requires |q.segs| <= MAX_SEGMENTS
    ensures |r.segs| <= MAX_SEGMENTS
  {
    if q.recv == working then CommitRange(q, lo, hi) else QueueRange(q, lo, hi)
  }

  /** A commit of the sender's bytes keeps the list in shape and every byte known. */
  lemma CommitKeeps(ring: seq<U8>, isn: int, sent: seq<U8>, read: int, q: Queue, working: int, lo: int, hi: int)
    requires 0 < |ring| <= TWO_30 && |q.segs| <= MAX_SEGMENTS && Ordered(q.segs, q.recv) && Short(q.segs)
    requires Near(q.segs, working) && InWindow(q, read + |ring|)
    requires 0 <= read <= q.recv <= working <= lo < hi <= read + |ring| && working <= |sent|
    requires Sound(ring, isn, sent, read, q, Range(lo, hi)) && forall p :: lo <= p < hi ==> Carries(ring, isn, sent, p)
    ensures var r := Committed(q, working, lo, hi);
            var at := Max(working, r.recv);
            && q.recv <= r.recv && at <= |sent| && at <= read + |ring| && (q.recv == working ==> r.recv == at)
            && (q.recv < working ==> r.recv == q.recv)
            && Ordered(r.segs, r.recv) && Short(r.segs) && Near(r.segs, at) && InWindow(r, read + |ring|)
            && (Above(q.segs, q.recv) ==> Above(r.segs, r.recv))
            && Sound(ring, isn, sent, read, r, EMPTY)
  {
    hide Slot, Carries, CommitRange, Insert, Prune, Near, Sound;
    if q.recv == working {
      CommitShape(q, lo, hi, read, |ring|);
      CommitKeepsSound(ring, isn, sent, read, q, lo, hi);
      CommitWithinSent(ring, isn, sent, read, Committed(q, working, lo, hi));
    } else {
      QueueKeepsShape(q, lo, hi, read + |ring|, working);
      QueueKeepsSound(ring, isn, sent, read, q, lo, hi);
    }
  }

  /** What is known after the segment [pos, end): it counts if it brings something
      new and fits the window. An abort that claimed nothing still runs the
      removal loop, for the empty range at its end. */
  function Arrived(m: Model, size: nat, pos: int, end: int, intact: bool): (r: Queue)
    requires |m.q.segs| <= MAX_SEGMENTS
  {
    var lo := ClaimedFrom(m, size, pos, end);
    if !intact then m.q.(segs := AbortRange(m.q.segs, lo, end))
    else if lo < end then Committed(m.q, m.working, lo, end)
    else m.q
  }

  function Next(m: Model, size: nat, sent: seq<U8>, e: Event): (r: Model)
    ensures |m.q.segs| <= MAX_SEGMENTS ==> |r.q.segs| <= MAX_SEGMENTS
  {
    if |m.q.segs| > MAX_SEGMENTS || !Possible(m, size, sent, e) then m
    else
      match e
      case Arrive(pos, bytes, intact, turns, acks) =>
        var a := Attended(m, size, |sent|, e);
        var q := Arrived(a, size, pos, pos + |bytes|, intact);
        Model(m.read, q, Max(a.working, q.recv))
      case Kernel(turn) => KernelNext(m, size, |sent|, turn)
      case Read(n) => m.(read := Min(m.read + n, m.q.recv))
  }

  function Exec(m: Model, size: nat, sent: seq<U8>, events: seq<Event>): (r: Model)
  {
    if events == [] then m else Next(Exec(m, size, sent, events[..|events| - 1]), size, sent, events[|events| - 1])
  }

  // ------------------------------------------------------------------
  // Nothing that arrives in the window is forgotten

  /** Event e, when it happens, brings the byte at p: it is claimed for an intact
      segment, or the kernel acknowledges it. */
  ghost predicate Brings(m: Model, size: nat, sent: seq<U8>, e: Event, p: int)
  {
    match e
    case Arrive(pos, bytes, intact, turns, acks) =>
      && Possible(m, size, sent, e)
      && var a, end := Attended(m, size, |sent|, e), pos + |bytes|;
         p < a.q.recv || (intact && a.working < end <= a.read + size && Max(pos, a.working) <= p < end)
    case Kernel(turn) => turn.Acks? && p < m.working
    case Read(n) => false
  }

  /** Event e throws something away: it pushes a range out of a full list, or it
      is a damaged segment over a queued range. */
  ghost predicate Loses(m: Model, size: nat, sent: seq<U8>, e: Event)
    requires |m.q.segs| <= MAX_SEGMENTS
  {
    && e.Arrive? && Possible(m, size, sent, e)
    && var a, end := Attended(m, size, |sent|, e), e.pos + |e.bytes|;
       var lo := ClaimedFrom(a, size, e.pos, end);
       if e.intact then lo < end && Discards(a.q, lo, end).lo < Discards(a.q, lo, end).hi
       else !Avoids(m.q.segs, lo, end)
  }

  ghost predicate Brought(m: Model, size: nat, sent: seq<U8>, events: seq<Event>, p: int)
  {
    && events != []
    && var before := events[..|events| - 1];
       Brought(m, size, sent, before, p) || Brings(Exec(m, size, sent, before), size, sent, events[|events| - 1], p)
  }

  /** A run in which nothing is thrown away. */
  ghost predicate Lossless(m: Model, size: nat, sent: seq<U8>, events: seq<Event>)
  {
    events != [] ==>
      var before, e := events[..|events| - 1], events[|events| - 1];
      var b := Exec(m, size, sent, before);
      Lossless(m, size, sent, before) && (|b.q.segs| <= MAX_SEGMENTS ==> !Loses(b, size, sent, e))
  }

  /** The list is in order. */
  ghost predicate Tidy(m: Model)
  {
    |m.q.segs| <= MAX_SEGMENTS && Canonical(m.q.segs) && m.q.recv <= m.working
  }

  /** A connection as it starts. */
  const FRESH: Model := Model(0, Queue(0, []), 0)

  ghost predicate Knows(m: Model, p: int) { p < m.q.recv || Covered(m.q.segs, p) }

  /** What the kernel does, it does to the bytes up to its claim. */
  ghost predicate Follows(m: Model, r: Model)
  {
    r.q.segs == m.q.segs && r.read == m.read && m.q.recv <= r.q.recv <= r.working && m.working <= r.working
  }

  lemma KernelFollows(m: Model, size: nat, sent: nat, turn: Turn)
    requires m.q.recv <= m.working
    ensures Follows(m, KernelNext(m, size, sent, turn))
  {
  }

  lemma {:induction false} SpinsFollows(m: Model, size: nat, sent: nat, turns: seq<Turn>, seen: int, end: int)
    requires m.q.recv <= m.working
    ensures Follows(m, Spins(m, size, sent, turns, seen, end))
    decreases |turns|
  {
    hide KernelNext;
    if m.working != seen && m.working < end && turns != [] {
      KernelFollows(m, size, sent, turns[0]);
      SpinsFollows(KernelNext(m, size, sent, turns[0]), size, sent, turns[1..], m.working, end);
    }
  }

  lemma AttendedFollows(m: Model, size: nat, sent: nat, e: Event)
    requires e.Arrive? && m.q.recv <= m.working
    ensures Follows(m, Attended(m, size, sent, e))
  {
    hide KernelNext, Spins;
    if e.turns != [] {
      KernelFollows(m, size, sent, e.turns[0]);
    }
    var end := e.pos + |e.bytes|;
    var (m1, rest) := OneTurn(m, size, sent, e.turns);
    SpinsFollows(m1, size, sent, rest, m.working, end);
    KernelFollows(if |e.bytes| == 0 then m else Raced(m, size, sent, e.turns, end), size, sent, Acks);
  }

  lemma NextKnows(m: Model, size: nat, sent: seq<U8>, e: Event, p: int)
    requires Tidy(m) && !Loses(m, size, sent, e)
    ensures Tidy(Next(m, size, sent, e))
    ensures Knows(Next(m, size, sent, e), p) <==> Knows(m, p) || Brings(m, size, sent, e, p)
  {
    hide Committed, AtMostOne, Canonical, Discards, Avoids, Attended, AbortRange;
    if e.Arrive? && Possible(m, size, sent, e) {
      AttendedFollows(m, size, |sent|, e);
      var a, end := Attended(m, size, |sent|, e), e.pos + |e.bytes|;
      var lo := ClaimedFrom(a, size, e.pos, end);
      if !e.intact {
        AvoidsNone(m.q.segs, lo, end);
      } else if lo < end {
        CommitMore(a.q, a.working, lo, end, p);
      }
    }
  }

  lemma AvoidsNone(s: seq<Range>, lo: int, hi: int)
    requires Avoids(s, lo, hi)
    ensures AbortRange(s, lo, hi) == s
  {
  }

  /** A commit that pushes nothing out adds exactly what it commits. */
  lemma CommitMore(q: Queue, working: int, lo: int, hi: int, p: int)
    requires |q.segs| <= MAX_SEGMENTS && Canonical(q.segs) && q.recv <= working <= lo < hi
    requires Discards(q, lo, hi).lo >= Discards(q, lo, hi).hi
    ensures var r := Committed(q, working, lo, hi);
            && q.recv <= r.recv && Canonical(r.segs)
            && (p < r.recv || Covered(r.segs, p) <==> p < q.recv || Covered(q.segs, p) || lo <= p < hi)
  {
    hide CommitRange, Lost, Prune, Insert;
    CommitGrows(q, lo, hi);
    CommitCanonical(q, lo, hi);
    PruneCanonical(q.segs, q.recv);
    InsertCanonical(Prune(q.segs, q.recv), lo, hi);
    if q.recv <= p {
      CommitExact(q, lo, hi, p);
      PruneExact(q.segs, q.recv, p);
      InsertExact(Prune(q.segs, q.recv), lo, hi, p);
    }
  }

  lemma {:induction false} ExecKnows(m: Model, size: nat, sent: seq<U8>, events: seq<Event>, p: int)
    requires Tidy(m) && Lossless(m, size, sent, events)
    ensures Tidy(Exec(m, size, sent, events))
    ensures Knows(Exec(m, size, sent, events), p) <==> Knows(m, p) || Brought(m, size, sent, events, p)
    decreases |events|
  {
    hide Next, Loses, Brings, Canonical;
    if events != [] {
      var before, e := events[..|events| - 1], events[|events| - 1];
      ExecKnows(m, size, sent, before, p);
      NextKnows(Exec(m, size, sent, before), size, sent, e, p);
    }
  }

  /** Nothing is acknowledged that was not brought, whatever the kernel does. */
  lemma {:induction false} OnlyBrought(size: nat, sent: seq<U8>, events: seq<Event>, p: int)
    requires Lossless(FRESH, size, sent, events)
    ensures 0 <= p < Exec(FRESH, size, sent, events).q.recv ==> Brought(FRESH, size, sent, events, p)
  {
    hide Exec, Brought, Lossless;
    ExecKnows(FRESH, size, sent, events, p);
  }

  /** The kernel stays out of a run. */
  ghost predicate Undisturbed(events: seq<Event>)
  {
    forall i :: 0 <= i < |events| ==> Alone(events[i])
  }

  predicate Alone(e: Event) { !e.Kernel? && (e.Arrive? ==> e.turns == [] && !e.acks) }

  lemma NextAbove(m: Model, size: nat, sent: seq<U8>, e: Event)
    requires Tidy(m) && Above(m.q.segs, m.q.recv) && m.working == m.q.recv && Alone(e) && !Loses(m, size, sent, e)
    ensures var r := Next(m, size, sent, e); Above(r.q.segs, r.q.recv) && r.working == r.q.recv
  {
    hide CommitRange, AtMostOne, Above, Avoids, Discards, AbortRange;
    if e.Arrive? && Possible(m, size, sent, e) {
      var end := e.pos + |e.bytes|;
      var lo := ClaimedFrom(m, size, e.pos, end);
      if !e.intact {
        AvoidsNone(m.q.segs, lo, end);
      } else if lo < end {
        CommitGrows(m.q, lo, end);
        CommitCanonical(m.q, lo, end);
      }
    }
  }

  lemma {:induction false} ExecAbove(m: Model, size: nat, sent: seq<U8>, events: seq<Event>)
    requires Tidy(m) && Above(m.q.segs, m.q.recv) && m.working == m.q.recv
    requires Undisturbed(events) && Lossless(m, size, sent, events)
    ensures var r := Exec(m, size, sent, events); Above(r.q.segs, r.q.recv) && r.working == r.q.recv
    decreases |events|
  {
    hide Next, Loses, Canonical, Above, Alone;
    if events != [] {
      var before, e := events[..|events| - 1], events[|events| - 1];
      assert forall i :: 0 <= i < |before| ==> before[i] == events[i];
      ExecAbove(m, size, sent, before);
      ExecKnows(m, size, sent, before, 0);
      NextAbove(Exec(m, size, sent, before), size, sent, e);
    }
  }

  /** Completeness: after any run of a fresh connection without the kernel, in which
      nothing is thrown away, the acknowledged data ends exactly at the first byte
      that no segment in the window has brought. */
  lemma {:induction false} Complete(size: nat, sent: seq<U8>, events: seq<Event>, k: int)
    requires 0 <= k && Undisturbed(events) && Lossless(FRESH, size, sent, events)
    ensures k <= Exec(FRESH, size, sent, events).q.recv <==> forall p :: 0 <= p < k ==> Brought(FRESH, size, sent, events, p)
  {
    hide Exec, Brought, Lossless, Undisturbed;
    var r := Exec(FRESH, size, sent, events);
    ExecAbove(FRESH, size, sent, events);
    forall p | 0 <= p
      ensures Tidy(r) && (Knows(r, p) <==> Brought(FRESH, size, sent, events, p))
    {
      ExecKnows(FRESH, size, sent, events, p);
    }
    ExecKnows(FRESH, size, sent, events, r.q.recv);
  }

  /** So a read gets as many bytes as it asks for, or all up to the first that no
      segment has brought. */
  lemma ReadGets(size: nat, sent: seq<U8>, events: seq<Event>, n: nat)
    requires Undisturbed(events) && Lossless(FRESH, size, sent, events)
    ensures var m := Exec(FRESH, size, sent, events);
            var r := Exec(FRESH, size, sent, events + [Read(n)]);
            && m.read <= r.read <= m.read + n && r.q == m.q
            && (r.read < m.read + n ==> !Brought(FRESH, size, sent, events, r.read))
  {
    hide Brought, Lossless, Undisturbed;
    var m := Exec(FRESH, size, sent, events);
    assert (events + [Read(n)])[..|events|] == events;
    ExecKnows(FRESH, size, sent, events, 0);
    ReadBehind(size, sent, events);
    Complete(size, sent, events, m.q.recv + 1);
    Complete(size, sent, events, m.q.recv);
  }

  lemma NextReads(m: Model, size: nat, sent: seq<U8>, e: Event)
    requires Tidy(m) && m.read <= m.q.recv && !Loses(m, size, sent, e)
    ensures var r := Next(m, size, sent, e); m.read <= r.read <= r.q.recv
  {
    hide Canonical, AbortRange, KernelFits, Possible, Discards, Raced;
    if e.Arrive? && Possible(m, size, sent, e) && e.intact {
      var a, end := Attended(m, size, |sent|, e), e.pos + |e.bytes|;
      var lo := ClaimedFrom(a, size, e.pos, end);
      AttendedFollows(m, size, |sent|, e);
      if lo < end {
        CommitMore(a.q, a.working, lo, end, 0);
      }
    } else if e.Arrive? {
      AttendedFollows(m, size, |sent|, e);
    }
  }

  /** Nothing is read that is not acknowledged. */
  lemma {:induction false} ReadBehind(size: nat, sent: seq<U8>, events: seq<Event>)
    requires Lossless(FRESH, size, sent, events)
    ensures var m := Exec(FRESH, size, sent, events); 0 <= m.read <= m.q.recv
    decreases |events|
  {
    if events != [] {
      var before := events[..|events| - 1];
      ReadBehind(size, sent, before);
      ExecKnows(FRESH, size, sent, before, 0);
      NextReads(Exec(FRESH, size, sent, before), size, sent, events[|events| - 1]);
    }
  }

  /** The kernel brings the next n bytes if and only if they fit the window and it
      may; nothing else changes. */
  lemma KernelBrings(m: Model, size: nat, sent: seq<U8>, n: nat)
    requires |m.q.segs| <= MAX_SEGMENTS && m.working == m.q.recv
    ensures var r := Next(Next(m, size, sent, Kernel(Claims(n))), size, sent, Kernel(Acks));
            var end := m.q.recv + n;
            if end <= m.read + size && end <= |sent| && (forall k :: 0 <= k < |m.q.segs| ==> end - TWO_30 < m.q.segs[k].lo)
            then r == Model(m.read, Queue(end, m.q.segs), end)
            else r == m
  {
  }

  // ------------------------------------------------------------------
  // The receive buffer

  /** A byte range claimed for one segment: where its two pieces go in the ring,
      how much of the segment is old news, and the processing pointer it replaced. */
  datatype Claim = NoClaim | Claim(prevSeq: U32, skip: nat, buf1: nat, len1: nat, len2: nat)

  class Receiver {
    const size: nat
    const ring: array<U8>
    const recvSeg: array<Segment>
    var readSeq: U32
    var recvSeq: U32
    var procSeq: U32

    // The sender's stream, and the unbounded positions in it that the 32-bit
    // fields stand for.
    const sent: seq<U8>
    const isn: U32
    var read: int
    var recv: int
    ghost var proc: int
    var segs: seq<Range>
    // The end of the bytes that the kernel has claimed, and how many it has
    // claimed so far.
    var working: int
    ghost var kernelBytes: nat

    ghost function Known(): Queue
      reads this
    {
      Queue(recv, segs)
    }

    /** The fields are consistent; `proc` may be ahead while a range is claimed. */
    ghost predicate Shape()
      reads this, ring, recvSeg
    {
      && RingSize(size) && ring.Length == size && recvSeg.Length == MAX_SEGMENTS
      && 0 <= read <= recv <= working <= |sent| && working <= read + size
      && readSeq == Seq(isn, read) && recvSeq == Seq(isn, recv) && procSeq == Seq(isn, proc)
      && Represents(recvSeg[..], segs, isn)
      && Near(segs, working) && Ordered(segs, recv) && Short(segs)
      && InWindow(Known(), read + size)
      && (kernelBytes == 0 ==> recv == working && Above(segs, recv))
    }

    /** No range is claimed and every byte spoken for is the sender's. */
    ghost predicate Valid()
      reads this, ring, recvSeg
    {
      Shape() && proc == working && Sound(ring[..], isn, sent, read, Known(), EMPTY)
    }

    /** [lo, hi) is claimed and may hold anything. */
    ghost predicate Claimed(lo: int, hi: int)
      reads this, ring, recvSeg
    {
      && Shape() && working <= lo < hi == proc && hi <= read + size
      && Sound(ring[..], isn, sent, read, Known(), Range(lo, hi))
    }

    constructor (size: nat, sent: seq<U8>, isn: U32)
      requires RingSize(size)
      ensures Valid() && fresh(ring) && fresh(recvSeg)
      ensures this.size == size && this.sent == sent && this.isn == isn
      ensures read == recv == working == 0 && segs == [] && kernelBytes == 0
    {
      this.size, this.sent, this.isn := size, sent, isn;
      ring := new U8[size](_ => 0);
      recvSeg := new Segment[MAX_SEGMENTS](_ => Segment(0, 0));
      readSeq, recvSeq, procSeq := isn, isn, isn;
      read, recv, proc, working, segs, kernelBytes := 0, 0, 0, 0, [], 0;
    }

    predicate KernelMay(n: nat)
      reads this
    {
      KernelFits(Model(read, Queue(recv, segs), working), size, |sent|, n)
    }

    /** The kernel claims the next n bytes. */
    method KernelClaims(n: nat)
      requires Valid() && KernelMay(n)
      modifies this`procSeq, this`proc, this`working, this`kernelBytes
      ensures Valid() && working == recv + n
    {
      hide Slot, Seq, Sound;
      proc, working, kernelBytes := recv + n, recv + n, kernelBytes + n;
      procSeq := Seq(isn, working);
    }

    /** The kernel has stored the bytes it claimed and acknowledges them, whether
        or not a range beyond them has been claimed meanwhile. */
    method KernelAcks(ghost hole: Range)
      requires Shape() && Sound(ring[..], isn, sent, read, Known(), hole)
      modifies this`recvSeq, this`recv, ring
      ensures Shape() && Sound(ring[..], isn, sent, read, Known(), hole) && recv == working
      ensures forall p :: working <= p < read + size && old(Carries(ring[..], isn, sent, p)) ==> Carries(ring[..], isn, sent, p)
    {
      hide Slot, Seq, Carries, Sound, Near, Ordered, Short, Represents;
      var b, n := Slot(isn, size, recv), working - recv;
      ghost var was, q := ring[..], Known();
      Fill(ring, b, if n < size - b then n else size - b, sent[recv..working], isn, recv);
      StoreSound(was, ring[..], isn, sent, read, q, hole, working);
      OrderedLater(segs, recv, working);
      recv := working;
      recvSeq := Seq(isn, recv);
    }

    /** The kernel's next turn, or none. */
    method KernelTurn(turns: seq<Turn>) returns (rest: seq<Turn>)
      requires Valid()
      modifies this`recvSeq, this`recv, this`procSeq, this`proc, this`working, this`kernelBytes, ring
      ensures Valid() && old(recv) <= recv && old(working) <= working
      ensures (State(), rest) == OneTurn(old(State()), size, |sent|, turns)
    {
      hide Slot, Seq, Carries, Sound, Shape, KernelNext;
      rest := turns;
      if turns != [] {
        rest := turns[1..];
        KernelActs(turns[0]);
      }
    }

    method KernelActs(turn: Turn)
      requires Valid()
      modifies this`recvSeq, this`recv, this`procSeq, this`proc, this`working, this`kernelBytes, ring
      ensures Valid() && old(recv) <= recv && old(working) <= working
      ensures State() == KernelNext(old(State()), size, |sent|, turn)
    {
      hide Slot, Seq, Carries, Sound;
      if turn.Acks? {
        KernelAcks(EMPTY);
      } else if KernelMay(turn.n) {
        KernelClaims(turn.n);
      }
    }

    /** `proc_seq_update`: a compare-and-swap loop against the kernel. */
    method ProcSeqUpdate(oldSeq: U32, newSeq: U32, turns: seq<Turn>, ghost oldPos: int, newPos: int)
      returns (ok: bool, prevSeq: U32)
      requires Valid() && oldSeq == Seq(isn, oldPos) && newSeq == Seq(isn, newPos)
      requires read <= oldPos <= working && oldPos < newPos <= read + size
      modifies this`recvSeq, this`recv, this`procSeq, this`proc, this`working, this`kernelBytes, ring
      ensures old(recv) <= recv && old(working) <= working
      ensures State() == Spins(old(State()), size, |sent|, turns, oldPos, newPos)
      ensures !ok ==> Valid() && newPos <= working
      ensures ok ==> Shape() && proc == newPos && working < newPos && prevSeq == Seq(isn, working)
      ensures ok ==> Sound(ring[..], isn, sent, read, Known(), EMPTY)
    {
      hide Slot, Seq, Carries, Words.SeqCompare, KernelNext;
      prevSeq := oldSeq;
      var rest := turns;
      ghost var pos := oldPos;
      while true
        invariant Valid() && prevSeq == Seq(isn, pos)
        invariant read <= pos <= working && pos < newPos && old(recv) <= recv && old(working) <= working
        invariant Spins(State(), size, |sent|, rest, pos, newPos) == Spins(old(State()), size, |sent|, turns, oldPos, newPos)
        decreases newPos - pos
      {
        var cur := procSeq;
        SeqEqual(isn, pos, proc);
        if cur == prevSeq {
          procSeq, proc := newSeq, newPos;
          return true, prevSeq;
        }
        prevSeq, pos := cur, proc;
        CompareTo(isn, newPos, pos);
        if SeqCompare(newSeq, prevSeq) <= 0 {
          return false, prevSeq;
        }
        rest := KernelTurn(rest);
      }
    }

    /** `exa_tcp_rx_buffer_alloc` for a segment at stream position pos. It claims
        the part of the segment that is new, or rejects a segment that brings
        nothing new or does not fit the window. */
    method Alloc(segSeq: U32, segLen: nat, turns: seq<Turn>, pos: int) returns (c: Claim)
      requires Valid() && segSeq == Seq(isn, pos) && 0 < segLen < TWO_16
      requires -TWO_31 < pos + segLen - read < TWO_31
      modifies this`recvSeq, this`recv, this`procSeq, this`proc, this`working, this`kernelBytes, ring
      ensures old(recv) <= recv && old(working) <= working
      ensures State() == Raced(old(State()), size, |sent|, turns, pos + segLen)
      ensures c.NoClaim? ==> Valid() && (pos + segLen <= working || read + size < pos + segLen)
      ensures c.Claim? ==>
                var lo := Max(pos, working);
                && Claimed(lo, pos + segLen) && Sound(ring[..], isn, sent, read, Known(), EMPTY)
                && c.prevSeq == Seq(isn, working) && c.skip == lo - pos
                && ClaimFits(c, lo, pos + segLen)
    {
      hide Slot, Seq, Carries, Words.SeqCompare, Words.Wrap32, Spins, KernelNext;
      var segEnd := Wrap32(segSeq + segLen);
      SeqAdd(isn, pos, segLen);
      WindowTest(isn, pos + segLen, read, size);
      if Wrap32(segEnd - readSeq) > size {
        return NoClaim;
      }
      var proc0 := procSeq;
      ghost var pos0 := proc;
      var rest := KernelTurn(turns);
      CompareTo(isn, pos + segLen, pos0);
      if SeqCompare(segEnd, proc0) <= 0 {
        return NoClaim;
      }
      var ok, prevSeq := ProcSeqUpdate(proc0, segEnd, rest, pos0, pos + segLen);
      if !ok {
        return NoClaim;
      }
      c := Carve(segSeq, segEnd, prevSeq, pos, pos + segLen);
    }

    /** The pieces of the claimed range lie where the ring keeps [lo, hi). */
    ghost predicate ClaimFits(c: Claim, lo: int, hi: int)
      requires c.Claim? && 0 < size
    {
      && c.len1 + c.len2 == hi - lo
      && c.buf1 == Slot(isn, size, lo)
      && c.buf1 + c.len1 <= size && (0 < c.len2 ==> c.buf1 + c.len1 == size)
    }

    /** Works out what to skip and where the claimed bytes go. */
    method Carve(segSeq: U32, segEnd: U32, prevSeq: U32, ghost pos: int, ghost end: int) returns (c: Claim)
      requires RingSize(size) && segSeq == Seq(isn, pos) && segEnd == Seq(isn, end) && prevSeq == Seq(isn, working)
      requires working < end <= working + size && pos < end < pos + TWO_16
      ensures c.Claim? && c.prevSeq == prevSeq && c.skip == Max(pos, working) - pos
      ensures ClaimFits(c, Max(pos, working), end)
    {
      hide Slot, Seq, Words.SeqCompare, Words.Wrap32;
      var wrapSeq := segEnd - segEnd % size;
      ghost var lo, cut := Max(pos, working), end - Slot(isn, size, end);
      CutSeq(isn, size, end);
      SplitRegion(isn, size, lo, end);
      CompareTo(isn, pos, working);
      var skip, allocSeq := 0, segSeq;
      if SeqCompare(segSeq, prevSeq) < 0 {
        SeqDifference(isn, working, pos);
        skip, allocSeq := Wrap32(prevSeq - segSeq), prevSeq;
      }
      CompareTo(isn, lo, cut);
      CutSeq(isn, size, lo);
      assert allocSeq % size == Slot(isn, size, lo);
      if SeqCompare(allocSeq, wrapSeq) < 0 {
        SeqDifference(isn, cut, lo);
        SeqDifference(isn, end, cut);
        c := Claim(prevSeq, skip, allocSeq % size, Wrap32(wrapSeq - allocSeq), Wrap32(segEnd - wrapSeq));
      } else {
        SeqDifference(isn, end, lo);
        c := Claim(prevSeq, skip, allocSeq % size, Wrap32(segEnd - allocSeq), 0);
      }
    }

    /** Fills a claimed range. A frame that turns out to be bad may leave any
        bytes at all there. */
    method FillClaim(c: Claim, bytes: seq<U8>, ghost lo: int, ghost hi: int)
      requires Claimed(lo, hi) && c.Claim? && ClaimFits(c, lo, hi) && |bytes| == hi - lo
      requires Sound(ring[..], isn, sent, read, Known(), EMPTY)
      modifies ring
      ensures Claimed(lo, hi)
      ensures hi <= |sent| && 0 <= lo && bytes == sent[lo..hi] ==>
                forall p :: lo <= p < hi ==> Carries(ring[..], isn, sent, p)
    {
      hide Slot, Seq, Carries;
      Fill(ring, c.buf1, c.len1, bytes, isn, lo);
      FillSound(old(ring[..]), ring[..], isn, sent, read, Known(), EMPTY, lo, bytes);
      if hi <= |sent| && 0 <= lo && bytes == sent[lo..hi] {
        forall p | lo <= p < hi
          ensures Carries(ring[..], isn, sent, p)
        {
          assert bytes[p - lo] == sent[p];
        }
      }
    }

    /** `exa_tcp_rx_buffer_commit`. */
    method Commit(seq_: U32, len: nat, prevSeq: U32, lo: int)
      requires len == 0 ==> Valid()
      requires 0 < len ==> Claimed(lo, lo + len) && seq_ == Seq(isn, lo) && prevSeq == Seq(isn, working)
      requires 0 < len ==> forall p :: lo <= p < lo + len ==> Carries(ring[..], isn, sent, p)
      modifies this`recvSeq, this`procSeq, this`recv, this`proc, this`working, this`segs, recvSeg
      ensures Valid() && working == Max(old(working), recv)
      ensures Known() == if len == 0 then old(Known()) else Committed(old(Known()), old(working), lo, lo + len)
    {
      hide Slot, Seq, Carries, Near, Sound, InWindow, Committed, Above, Represents;
      if len == 0 {
        return;
      }
      RepresentsSize(recvSeg[..], segs, isn);
      ghost var q, at := Known(), working;
      NearBack(q, working, read + size);
      CommitList(seq_, len, prevSeq, lo);
      CommitKeeps(ring[..], isn, sent, read, q, at, lo, lo + len);
    }

    /** The bookkeeping of a commit. */
    method CommitList(seq_: U32, len: nat, prevSeq: U32, lo: int)
      requires recvSeg.Length == MAX_SEGMENTS && Represents(recvSeg[..], segs, isn) && Near(segs, recv) && NonEmpty(segs)
      requires recvSeq == Seq(isn, recv) && prevSeq == Seq(isn, working) && seq_ == Seq(isn, lo) && procSeq == Seq(isn, proc)
      requires 0 < len && recv <= working <= lo && lo + len == proc <= recv + TWO_30
      modifies this`recvSeq, this`procSeq, this`recv, this`proc, this`working, this`segs, recvSeg
      ensures Known() == Committed(old(Known()), old(working), lo, lo + len)
      ensures proc == working == (if old(recv) == old(working) then recv else old(working))
      ensures recvSeq == Seq(isn, recv) && procSeq == Seq(isn, proc)
      ensures Represents(recvSeg[..], segs, isn)
    {
      hide Seq, Near, Prune, Insert, Absorb, NonEmpty, Represents;
      RepresentsSize(recvSeg[..], segs, isn);
      PruneNear(segs, recv, recv);
      PruneSegments(recvSeg, recvSeq, isn, segs, recv);
      segs := Prune(segs, recv);
      SeqEqual(isn, recv, lo);
      if recvSeq == seq_ {
        procSeq := AbsorbSegments(recvSeg, procSeq, isn, segs, recv, proc);
        var q := Absorb(segs, lo + len);
        proc, recv, working, segs := q.recv, q.recv, q.recv, q.segs;
        recvSeq := procSeq;
      } else {
        InsertSegment(recvSeg, seq_, len, isn, segs, recv, lo);
        InsertNear(segs, lo, lo + len, recv);
        segs := Insert(segs, lo, lo + len);
        PromoteFirst(prevSeq);
      }
    }

    /** Acknowledges the first queued range if the kernel has caught up with it;
        otherwise gives the processing pointer back. */
    method PromoteFirst(prevSeq: U32)
      requires recvSeg.Length == MAX_SEGMENTS && Represents(recvSeg[..], segs, isn) && Near(segs, recv)
      requires recvSeq == Seq(isn, recv) && prevSeq == Seq(isn, working) && recv <= working <= recv + TWO_30
      modifies this`recvSeq, this`procSeq, this`recv, this`proc, this`working, this`segs, recvSeg
      ensures Known() == if old(recv) == old(working) then Promote(old(segs), old(recv)) else old(Known())
      ensures proc == working == (if old(recv) == old(working) then recv else old(working))
      ensures recvSeq == Seq(isn, recv) && procSeq == Seq(isn, proc)
      ensures Represents(recvSeg[..], segs, isn)
    {
      hide Seq, Words.SeqCompare;
      SeqEqual(isn, recv, working);
      Compare(recvSeg[..], segs, isn, recv, recv);
      if segs != [] {
        SeqEqual(isn, segs[0].lo, recv);
      }
      if recvSeg[0].begin == recvSeq && recvSeg[0].end != recvSeg[0].begin && recvSeq == prevSeq {
        recvSeq, procSeq := recvSeg[0].end, recvSeg[0].end;
        ShiftDown(recvSeg, 0, 1, isn, segs);
        assert segs[..0] + segs[1..] == segs[1..];
        recv, proc, working, segs := segs[0].hi, segs[0].hi, segs[0].hi, segs[1..];
      } else {
        procSeq, proc := prevSeq, working;
      }
    }

    /** `exa_tcp_rx_buffer_abort`. It gives the claimed range back. The list
        afterwards is what the loop leaves in the six slots; if at most one queued
        range met the aborted bytes, that is a list of genuine bytes. */
    method Abort(seq_: U32, len: nat, prevSeq: U32, lo: int)
      requires len == 0 ==> Valid() && working - TWO_31 < lo < working + TWO_31
      requires 0 < len ==> Claimed(lo, lo + len) && prevSeq == Seq(isn, working)
      requires seq_ == Seq(isn, lo)
      modifies this`procSeq, this`proc, this`segs, recvSeg
      ensures HoldsSlots(recvSeg[..], AbortSlots(old(segs), lo, lo + len), isn, working)
      ensures AtMostOne(old(segs), lo, lo + len) ==>
                Valid() && segs == AbortRange(old(segs), lo, lo + len)
    {
      hide Slot, Seq, Carries, AbortRange, AbortSlots, HoldsSlots, Near, Represents, AtMostOne, InWindow, Sound, Above, Ordered, Short;
      RepresentsSize(recvSeg[..], segs, isn);
      ghost var q := Known();
      OrderedNonEmpty(segs, recv);
      assert Sound(ring[..], isn, sent, read, q, Range(lo, lo + len)) by {
        if len == 0 {
          SoundBut(ring[..], isn, sent, read, q, Range(lo, lo));
        }
      }
      AbortSegments(recvSeg, seq_, len, isn, segs, working, lo);
      AbortKeeps(ring[..], recvSeg[..], isn, sent, read, q, lo, lo + len, working);
      if 0 < len {
        procSeq, proc := prevSeq, working;
      }
      segs := AbortRange(segs, lo, lo + len);
      AbortKeepsShape(q, lo, lo + len, read + size, working);
    }

    /** `exa_tcp_rx_buffer_read_begin`: the unread data, in two pieces. */
    method ReadBegin() returns (buf1: nat, len1: nat, len2: nat)
      requires Valid()
      ensures buf1 + len1 <= size && len2 <= size && len1 + len2 == recv - read
      ensures ring[buf1..buf1 + len1] + ring[..len2] == sent[read..recv]
    {
      hide Seq, Slot, Carries, Near, Ordered, Short, Represents, Sound, Above, InWindow, Window, Words.Wrap32;
      SeqDifference(isn, recv, read);
      CutSeq(isn, size, read);
      WindowIsSent(ring[..], isn, sent, read, Known());
      WindowSlices(ring[..], isn, read, recv);
      buf1 := readSeq % size;
      var avail := Wrap32(recvSeq - readSeq);
      if avail <= size - buf1 {
        len1, len2 := avail, 0;
      } else {
        len1 := size - buf1;
        len2 := avail - len1;
      }
    }

    /** `exa_tcp_rx_buffer_read_end`: the application has taken n bytes. */
    method ReadEnd(n: nat)
      requires Valid() && n <= recv - read
      modifies this`readSeq, this`read
      ensures Valid() && read == old(read) + n
    {
      hide Seq, Slot, Carries, Near;
      SeqAdd(isn, read, n);
      readSeq := Wrap32(readSeq + n);
      read := read + n;
    }

    /** Copies the first m bytes of the two pieces to the application. */
    method CopyOut(buf1: nat, len1: nat, len2: nat, m: nat) returns (out: seq<U8>)
      requires buf1 + len1 <= ring.Length && len2 <= ring.Length && m <= len1 + len2
      ensures out == (ring[buf1..buf1 + len1] + ring[..len2])[..m]
    {
      FirstOfTwo(ring[..], buf1, len1, len2, m);
      if m <= len1 {
        out := ring[buf1..buf1 + m];
      } else {
        out := ring[buf1..buf1 + len1] + ring[..m - len1];
      }
    }

    /** A read of at most n bytes returns the next bytes of the sender's stream. */
    method Take(n: nat) returns (out: seq<U8>)
      requires Valid()
      modifies this`readSeq, this`read
      ensures Valid() && read == Min(old(read) + n, recv) >= old(read)
      ensures out == sent[old(read)..read]
    {
      hide Seq, Slot, Carries, Near, Ordered, Short, Represents, Sound, InWindow, RingSize, Above;
      var buf1, len1, len2 := ReadBegin();
      var m := if n < len1 + len2 then n else len1 + len2;
      out := CopyOut(buf1, len1, len2, m);
      assert sent[read..recv][..m] == sent[read..read + m];
      ReadEnd(m);
    }

    /** The connection as the reference sees it. */
    ghost function State(): Model
      reads this
    {
      Model(read, Known(), working)
    }

    /** A segment is received, as the poll loop does it: claim, fill, then commit
        or abort. */
    method ReceiveSegment(pos: int, bytes: seq<U8>, intact: bool, turns: seq<Turn>, acks: bool)
      requires Valid() && Arrivable(State(), size, sent, pos, bytes, intact)
      modifies this`recvSeq, this`recv, this`procSeq, this`proc, this`working, this`segs, this`kernelBytes, ring, recvSeg
      ensures Valid() && old(recv) <= recv
      ensures State() == Next(old(State()), size, sent, Arrive(pos, bytes, intact, turns, acks))
    {
      hide Seq, Slot, Carries, Near, Ordered, Short, Represents, Sound, Committed, AbortRange, AtMostOne, InWindow, Above, Words.Wrap32, Raced;
      RepresentsSize(recvSeg[..], segs, isn);
      var seq_, end := Seq(isn, pos), pos + |bytes|;
      ghost var from := ClaimedFrom(State(), size, pos, end);
      var c := NoClaim;
      if |bytes| != 0 {
        c := Alloc(seq_, |bytes|, turns, pos);
      }
      if c.Claim? {
        AtMostOneLess(segs, from, Max(pos, working), end);
        Store(c, seq_, pos, bytes, intact, acks);
      } else {
        SeqAdd(isn, pos, |bytes|);
        AtMostOneLess(segs, from, end, end);
        Settle(Wrap32(seq_ + |bytes|), 0, 0, end, intact);
      }
    }

    /** The claimed part of a segment is stored and settled; the kernel may finish
        its own data in between. */
    method Store(c: Claim, seq_: U32, pos: int, bytes: seq<U8>, intact: bool, acks: bool)
      requires var lo, end := Max(pos, working), pos + |bytes|;
               && c.Claim? && c.skip == lo - pos && Claimed(lo, end) && ClaimFits(c, lo, end) && c.prevSeq == Seq(isn, working)
               && Sound(ring[..], isn, sent, read, Known(), EMPTY) && seq_ == Seq(isn, pos) && |segs| <= MAX_SEGMENTS
               && (intact ==> 0 <= pos && end <= |sent| && bytes == sent[pos..end])
               && (!intact ==> AtMostOne(segs, lo, end))
      modifies this`recvSeq, this`recv, this`procSeq, this`proc, this`working, this`segs, ring, recvSeg
      ensures Valid() && old(recv) <= recv && working == Max(old(working), recv)
      ensures var lo, end := Max(pos, old(working)), pos + |bytes|;
              var q := if acks then old(Known()).(recv := old(working)) else old(Known());
              Known() == if intact then Committed(q, old(working), lo, end) else q.(segs := AbortRange(q.segs, lo, end))
    {
      hide Seq, Slot, Carries, Near, Ordered, Short, Represents, Sound, Committed, AbortRange, AtMostOne, InWindow, Above, Words.Wrap32;
      ghost var lo, end := Max(pos, working), pos + |bytes|;
      FillClaim(c, bytes[c.skip..], lo, end);
      SeqAdd(isn, pos, c.skip);
      assert intact ==> bytes[c.skip..] == sent[lo..end];
      if acks {
        KernelAcks(Range(lo, end));
      }
      Settle(Wrap32(seq_ + c.skip), c.len1 + c.len2, c.prevSeq, pos + c.skip, intact);
    }

    /** The end of a segment: what was claimed is committed or given back. */
    method Settle(seq_: U32, len: nat, prevSeq: U32, lo: int, intact: bool)
      requires if len == 0 then Valid() && working - TWO_31 < lo < working + TWO_31
               else Claimed(lo, lo + len) && prevSeq == Seq(isn, working)
      requires seq_ == Seq(isn, lo) && |segs| <= MAX_SEGMENTS
      requires intact ==> forall p :: lo <= p < lo + len ==> Carries(ring[..], isn, sent, p)
      requires !intact ==> AtMostOne(segs, lo, lo + len)
      modifies this`recvSeq, this`recv, this`procSeq, this`proc, this`working, this`segs, recvSeg
      ensures Valid() && old(recv) <= recv && working == Max(old(working), recv)
      ensures Known() == if !intact then old(Known()).(segs := AbortRange(old(segs), lo, lo + len))
                         else if len == 0 then old(Known()) else Committed(old(Known()), old(working), lo, lo + len)
    {
      hide Seq, Slot, Carries, Near, Represents, Sound, CommitRange, AbortRange, AtMostOne, InWindow;
      if intact {
        if 0 < len {
          CommitGrows(Known(), lo, lo + len);
        }
        Commit(seq_, len, prevSeq, lo);
      } else {
        Abort(seq_, len, prevSeq, lo);
      }
    }

    /** Any run, of any length, hands the application exactly the sender's bytes,
        in order: from a fresh connection, a prefix of the stream. What is read and
        known afterwards is what the reference says. */
    method Run(events: seq<Event>) returns (out: seq<U8>)
      requires Valid()
      modifies this`readSeq, this`read, this`recvSeq, this`recv, this`procSeq, this`proc, this`working, this`segs, this`kernelBytes, ring, recvSeg
      ensures Valid() && old(read) <= read && out == sent[old(read)..read]
      ensures State() == Exec(old(State()), size, sent, events)
    {
      hide Seq, Slot, Carries, Near, Ordered, Short, Represents, Sound, InWindow, Possible, Next;
      out := [];
      var i := 0;
      assert events[..0] == [];
      while i < |events|
        invariant 0 <= i <= |events|
        invariant Valid() && old(read) <= read && out == sent[old(read)..read]
        invariant State() == Exec(old(State()), size, sent, events[..i])
      {
        assert events[..i + 1][..i] == events[..i];
        var more := Step(events[i]);
        out := out + more;
        i := i + 1;
      }
      assert events[..|events|] == events;
    }

    method Step(e: Event) returns (out: seq<U8>)
      requires Valid()
      modifies this`readSeq, this`read, this`recvSeq, this`recv, this`procSeq, this`proc, this`working, this`segs, this`kernelBytes, ring, recvSeg
      ensures Valid() && old(read) <= read && out == sent[old(read)..read]
      ensures State() == Next(old(State()), size, sent, e)
    {
      hide Seq, Slot, Carries, Near, Ordered, Short, Represents, Sound, InWindow, Arrivable, Arrived, Attended, KernelNext;
      RepresentsSize(recvSeg[..], segs, isn);
      out := [];
      if Possible(Model(read, Queue(recv, segs), working), size, sent, e) {
        match e {
          case Arrive(pos, bytes, intact, turns, acks) =>
            ReceiveSegment(pos, bytes, intact, turns, acks);
          case Kernel(turn) =>
            KernelActs(turn);
          case Read(n) =>
            out := Take(n);
        }
      }
    }
  }
}
