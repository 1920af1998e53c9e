/** The six-entry array of 32-bit segments that holds the out-of-order list,
    and the in-place loops that edit it. */
module SegmentArray {
  import opened Words
  import opened Reassembly

  datatype Segment = Segment(begin: U32, end: U32)

  /** The sequence number of stream position p. */
  function Seq(isn: int, p: int): (w: U32) { (isn + p) % 0x1_0000_0000 }

  /** The array holds the list s in its first slots; the others are empty. */
  ghost predicate Represents(a: seq<Segment>, s: seq<Range>, isn: int)
  {
    && |a| == MAX_SEGMENTS && |s| <= MAX_SEGMENTS
    && (forall k :: 0 <= k < |s| ==> a[k] == Segment(Seq(isn, s[k].lo), Seq(isn, s[k].hi)))
    && (forall k :: |s| <= k < |a| ==> a[k].begin == a[k].end)
  }

  /** All queued positions are within 2^30 of `at`, so that any two of them
      compare correctly as 32-bit sequence numbers. */
  ghost predicate Near(s: seq<Range>, at: int)
  {
    forall k :: 0 <= k < |s| ==> at - TWO_30 < s[k].lo < s[k].hi <= at + TWO_30
  }

  lemma RepresentsSize(a: seq<Segment>, s: seq<Range>, isn: int)
    requires Represents(a, s, isn)
    ensures |s| <= |a| == MAX_SEGMENTS
  {
  }

  lemma SeqAdd(isn: int, p: int, n: int)
    ensures Wrap32(Seq(isn, p) + n) == Seq(isn, p + n)
  {
    Wrap32Add(isn + p, n);
  }

  lemma Compare(a: seq<Segment>, s: seq<Range>, isn: int, at: int, x: int)
    requires Represents(a, s, isn) && Near(s, at) && at <= x <= at + TWO_30
    ensures forall k :: 0 <= k < |s| ==>
              && a[k].begin != a[k].end
              && SeqCompare(a[k].begin, Seq(isn, x)) == s[k].lo - x
              && SeqCompare(a[k].end, Seq(isn, x)) == s[k].hi - x
              && SeqCompare(Seq(isn, x), a[k].begin) == x - s[k].lo
              && SeqCompare(Seq(isn, x), a[k].end) == x - s[k].hi
  {
    forall k | 0 <= k < |s|
      ensures
        && a[k].begin != a[k].end
        && SeqCompare(a[k].begin, Seq(isn, x)) == s[k].lo - x
        && SeqCompare(a[k].end, Seq(isn, x)) == s[k].hi - x
        && SeqCompare(Seq(isn, x), a[k].begin) == x - s[k].lo
        && SeqCompare(Seq(isn, x), a[k].end) == x - s[k].hi
    {
      SeqCompareExact(isn + s[k].lo, isn + x);
      SeqCompareExact(isn + s[k].hi, isn + x);
      SeqCompareExact(isn + x, isn + s[k].lo);
      SeqCompareExact(isn + x, isn + s[k].hi);
    }
  }

  lemma NearTail(s: seq<Range>, i: nat, at: int)
    requires Near(s, at) && i <= |s|
    ensures Near(s[i..], at)
  {
  }

  lemma CompareTo(isn: int, x: int, y: int)
    requires -TWO_31 <= x - y < TWO_31
    ensures SeqCompare(Seq(isn, x), Seq(isn, y)) == x - y
  {
    SeqCompareExact(isn + x, isn + y);
  }

  /** Moves the entries from `from` on down to `to` and clears the rest. */
  method ShiftDown(a: array<Segment>, to: nat, from: nat, ghost isn: int, ghost s: seq<Range>)
    requires Represents(a[..], s, isn) && to <= from <= |s|
    modifies a
    ensures Represents(a[..], s[..to] + s[from..], isn)
  {
    hide Seq, Represents;
    RepresentsSize(a[..], s, isn);
    ghost var was := a[..];
    var i, j := from, to;
    while i < a.Length
      invariant from <= i <= a.Length && j == i - from + to
      invariant forall k :: 0 <= k < j ==> a[k] == was[if k < to then k else k + (from - to)]
      invariant forall k :: i <= k < a.Length ==> a[k] == was[k]
    {
      a[j] := a[i];
      i, j := i + 1, j + 1;
    }
    while j < a.Length
      invariant a.Length - from + to <= j <= a.Length
      invariant forall k :: 0 <= k < a.Length - from + to ==> a[k] == was[if k < to then k else k + (from - to)]
      invariant forall k :: a.Length - from + to <= k < j ==> a[k] == Segment(0, 0)
    {
      a[j] := Segment(0, 0);
      j := j + 1;
    }
    ShiftRepresents(was, a[..], to, from, isn, s);
  }

  lemma ShiftRepresents(was: seq<Segment>, now: seq<Segment>, to: nat, from: nat, isn: int, s: seq<Range>)
    requires Represents(was, s, isn) && to <= from <= |s| && |now| == |was|
    requires forall k :: 0 <= k < |was| - from + to ==> now[k] == was[if k < to then k else k + (from - to)]
    requires forall k :: |was| - from + to <= k < |was| ==> now[k] == Segment(0, 0)
    ensures Represents(now, s[..to] + s[from..], isn)
  {
  }

  /** Drops entries that were acknowledged through the kernel. */
  method PruneSegments(a: array<Segment>, recvSeq: U32, ghost isn: int, ghost s: seq<Range>, ghost recv: int)
    requires Represents(a[..], s, isn) && Near(s, recv) && recvSeq == Seq(isn, recv)
    modifies a
    ensures Represents(a[..], Prune(s, recv), isn)
  {
    hide Words.SeqCompare, Seq, Reassembly.Processed, Near;
    Compare(a[..], s, isn, recv, recv);
    if a[0].end != a[0].begin && SeqCompare(a[0].end, recvSeq) <= 0 {
      var i := 1;
      while i < MAX_SEGMENTS && a[i].end != a[i].begin && SeqCompare(a[i].end, recvSeq) <= 0
        invariant 1 <= i <= |s|
        invariant forall k :: 0 <= k < i ==> s[k].hi <= recv
      {
        i := i + 1;
      }
      assert i == Processed(s, 0, recv);
      ShiftDown(a, 0, i, isn, s);
      assert s[..0] + s[i..] == s[i..];
      NearTail(s, i, recv);
      ClipFirst(a, recvSeq, isn, s[i..], recv);
    }
  }

  /** Clips a first entry that starts in acknowledged data. */
  method ClipFirst(a: array<Segment>, recvSeq: U32, ghost isn: int, ghost s: seq<Range>, ghost recv: int)
    requires Represents(a[..], s, isn) && Near(s, recv) && recvSeq == Seq(isn, recv)
    modifies a
    ensures Represents(a[..], if s != [] && s[0].lo < recv then [Range(recv, s[0].hi)] + s[1..] else s, isn)
  {
    hide Words.SeqCompare, Seq;
    Compare(a[..], s, isn, recv, recv);
    if a[0].end != a[0].begin && SeqCompare(a[0].begin, recvSeq) < 0 {
      a[0] := a[0].(begin := recvSeq);
    }
  }

  /** Merges every entry that acknowledged data up to procSeq now meets. */
  method AbsorbSegments(a: array<Segment>, procSeq: U32, ghost isn: int, ghost s: seq<Range>, ghost at: int, ghost proc: int)
    returns (newSeq: U32)
    requires Represents(a[..], s, isn) && Near(s, at) && at <= proc <= at + TWO_30 && procSeq == Seq(isn, proc)
    modifies a
    ensures Represents(a[..], Absorb(s, proc).segs, isn)
    ensures newSeq == Seq(isn, Absorb(s, proc).recv)
  {
    hide Words.SeqCompare, Seq, Reassembly.Reach, Near;
    newSeq := procSeq;
    Compare(a[..], s, isn, at, proc);
    if a[0].end != a[0].begin && SeqCompare(a[0].begin, procSeq) <= 0 {
      var i := 1;
      while i < MAX_SEGMENTS && a[i].end != a[i].begin && SeqCompare(a[i].begin, procSeq) <= 0
        invariant 1 <= i <= |s|
        invariant forall k :: 0 <= k < i ==> s[k].lo <= proc
      {
        i := i + 1;
      }
      assert i == Reach(s, 0, proc);
      if SeqCompare(procSeq, a[i - 1].end) < 0 {
        newSeq := a[i - 1].end;
      }
      assert newSeq == Seq(isn, Max(proc, s[i - 1].hi));
      ShiftDown(a, 0, i, isn, s);
      assert s[..0] + s[i..] == s[i..];
    }
  }

  /** Makes room for a new entry at index i, discarding the last one. */
  method PlaceSegment(a: array<Segment>, i: nat, seg: Segment, ghost isn: int, ghost s: seq<Range>, ghost r: Range)
    requires Represents(a[..], s, isn) && i < |s|
    requires seg == Segment(Seq(isn, r.lo), Seq(isn, r.hi))
    modifies a
    ensures Represents(a[..], Place(s, i, r), isn)
  {
    hide Words.SeqCompare, Seq;
    var j := MAX_SEGMENTS - 1;
    while j > i
      invariant i <= j < MAX_SEGMENTS
      invariant forall k :: 0 <= k <= j ==> a[k] == old(a[k])
      invariant forall k :: j < k < MAX_SEGMENTS ==> a[k] == old(a[k - 1])
    {
      a[j] := a[j - 1];
      j := j - 1;
    }
    a[i] := seg;
  }

  /** Widens entry i to take in [lo, hi) and merges the entries it then meets. */
  method WidenSegment(a: array<Segment>, i: nat, seq_: U32, end: U32, ghost isn: int, ghost s: seq<Range>,
                      ghost at: int, ghost lo: int, ghost hi: int)
    requires Represents(a[..], s, isn) && Near(s, at) && i < |s|
    requires at <= lo <= hi <= at + TWO_30 && seq_ == Seq(isn, lo) && end == Seq(isn, hi)
    modifies a
    ensures Represents(a[..], Widen(s, i, lo, hi), isn)
  {
    hide Words.SeqCompare, Seq, Reassembly.Reach, Reassembly.Widen;
    Compare(a[..], s, isn, at, lo);
    Compare(a[..], s, isn, at, hi);
    ghost var wide := Max(s[i].hi, hi);
    if SeqCompare(seq_, a[i].begin) < 0 {
      a[i] := a[i].(begin := seq_);
    }
    if SeqCompare(a[i].end, end) < 0 {
      a[i] := a[i].(end := end);
    }
    ghost var s' := s[i := Range(Min(s[i].lo, lo), wide)];
    assert Represents(a[..], s', isn);
    WidenTail(a, i, isn, s', at, wide);
    WidenAgain(s, s', i, lo, hi);
  }

  lemma WidenAgain(s: seq<Range>, s': seq<Range>, i: nat, lo: int, hi: int)
    requires i < |s| && s' == s[i := Range(Min(s[i].lo, lo), Max(s[i].hi, hi))]
    ensures Widen(s', i, s'[i].lo, s'[i].hi) == Widen(s, i, lo, hi)
  {
    var wide := Max(s[i].hi, hi);
    ReachSame(s, s', i + 1, wide);
    hide Reassembly.Reach;
    var j := Reach(s, i + 1, wide);
    assert s'[..i] == s[..i] && s'[j..] == s[j..];
  }

  lemma {:induction false} ReachSame(s: seq<Range>, t: seq<Range>, from: nat, end: int)
    requires from <= |s| == |t| && s[from..] == t[from..]
    ensures Reach(s, from, end) == Reach(t, from, end)
    decreases |s| - from
  {
  }

  lemma WidenIs(s: seq<Range>, s': seq<Range>, i: nat, j: nat, wide: int)
    requires i < j <= |s| && s[i].hi == wide && j == Reach(s, i + 1, wide)
    requires s' == s[i := Range(s[i].lo, Max(wide, s[j - 1].hi))]
    ensures s'[..i + 1] + s'[j..] == Widen(s, i, s[i].lo, wide)
  {
  }

  /** The merge loop of a widened entry i that now ends at `wide`. */
  method WidenTail(a: array<Segment>, i: nat, ghost isn: int, ghost s: seq<Range>, ghost at: int, ghost wide: int)
    requires Represents(a[..], s, isn) && Near(s, at) && i < |s| && s[i].hi == wide && at <= wide <= at + TWO_30
    modifies a
    ensures Represents(a[..], Widen(s, i, s[i].lo, wide), isn)
  {
    hide Words.SeqCompare, Seq, Reassembly.Reach, Near, Reassembly.Widen;
    Compare(a[..], s, isn, at, wide);
    var j := i + 1;
    while j < MAX_SEGMENTS && a[j].end != a[j].begin && SeqCompare(a[j].begin, a[i].end) <= 0
      invariant i + 1 <= j <= |s|
      invariant forall k :: i + 1 <= k < j ==> s[k].lo <= wide
    {
      j := j + 1;
    }
    assert j == Reach(s, i + 1, wide);
    if SeqCompare(a[i].end, a[j - 1].end) < 0 {
      a[i] := a[i].(end := a[j - 1].end);
    }
    ghost var s' := s[i := Range(s[i].lo, Max(wide, s[j - 1].hi))];
    assert Represents(a[..], s', isn);
    ShiftDown(a, i + 1, j, isn, s');
    WidenIs(s, s', i, j, wide);
  }

  /** Finds where a segment starting at seq_ belongs. */
  method FindPlace(a: array<Segment>, seq_: U32, ghost isn: int, ghost s: seq<Range>, ghost at: int, ghost lo: int)
    returns (i: nat)
    requires Represents(a[..], s, isn) && Near(s, at) && at <= lo <= at + TWO_30 && seq_ == Seq(isn, lo)
    ensures i == Before(s, 0, lo)
  {
    hide Words.SeqCompare, Seq, Reassembly.Before, Near;
    Compare(a[..], s, isn, at, lo);
    i := 0;
    while i < MAX_SEGMENTS && a[i].end != a[i].begin && SeqCompare(a[i].end, seq_) < 0
      invariant 0 <= i <= |s|
      invariant forall k :: 0 <= k < i ==> s[k].hi < lo
    {
      i := i + 1;
    }
  }

  /** Adds the segment [seq_, seq_ + len) to the list. */
  method InsertSegment(a: array<Segment>, seq_: U32, len: nat, ghost isn: int, ghost s: seq<Range>, ghost at: int, ghost lo: int)
    requires Represents(a[..], s, isn) && Near(s, at) && 0 < len
    requires at <= lo && lo + len <= at + TWO_30 && seq_ == Seq(isn, lo)
    modifies a
    ensures Represents(a[..], Insert(s, lo, lo + len), isn)
  {
    hide Words.SeqCompare, Seq, Reassembly.Before, Reassembly.Widen, Reassembly.Place, Near;
    ghost var hi := lo + len;
    var end: U32 := Wrap32(seq_ + len);
    SeqAdd(isn, lo, len);
    Compare(a[..], s, isn, at, hi);
    var i := FindPlace(a, seq_, isn, s, at, lo);
    if i >= MAX_SEGMENTS {
      // too many out-of-order segments: this one is dropped
    } else if a[i].end == a[i].begin {
      a[i] := Segment(seq_, end);
    } else if SeqCompare(end, a[i].begin) < 0 {
      PlaceSegment(a, i, Segment(seq_, end), isn, s, Range(lo, hi));
    } else {
      WidenSegment(a, i, seq_, end, isn, s, at, lo, hi);
    }
  }

  /** The array holds the slots t, each either empty or near `at`. */
  ghost predicate HoldsSlots(a: seq<Segment>, t: seq<Range>, isn: int, at: int)
  {
    && |a| == |t| == MAX_SEGMENTS
    && forall k :: 0 <= k < |t| ==> HoldsSlot(a[k], t[k], isn, at)
  }

  ghost predicate HoldsSlot(seg: Segment, r: Range, isn: int, at: int)
  {
    if r.lo < r.hi then
      && at - TWO_30 < r.lo && r.hi <= at + TWO_30
      && seg == Segment(Seq(isn, r.lo), Seq(isn, r.hi)) && seg.begin != seg.end
    else r == EMPTY && seg.begin == seg.end
  }

  lemma SlotsHeld(a: seq<Segment>, s: seq<Range>, isn: int, at: int)
    requires Represents(a, s, isn) && Near(s, at)
    ensures HoldsSlots(a, Slots(s), isn, at)
  {
  }

  /** If the slots are a proper list again, so is the array. */
  lemma SlotsRepresent(a: seq<Segment>, s: seq<Range>, isn: int, at: int)
    requires |s| <= MAX_SEGMENTS && NonEmpty(s) && HoldsSlots(a, Slots(s), isn, at)
    ensures Represents(a, s, isn)
  {
  }

  /** The overlap test of the abort loop on one non-empty slot. */
  lemma OverlapTest(seg: Segment, r: Range, isn: int, at: int, lo: int, len: int)
    requires HoldsSlot(seg, r, isn, at) && r.lo < r.hi
    requires AbortableAt(at, lo, len)
    ensures SeqCompare(Seq(isn, lo), seg.end) < 0 && SeqCompare(seg.begin, Wrap32(Seq(isn, lo) + len)) < 0
            <==> Overlaps(r, lo, lo + len)
  {
    SeqAdd(isn, lo, len);
    if 0 < len {
      CompareTo(isn, lo, r.hi);
      CompareTo(isn, r.lo, lo + len);
    } else {
      EmptyOverlapTest(isn + lo, isn + r.lo, isn + r.hi);
    }
  }

  lemma EmptyOverlapTest(x: int, lo: int, hi: int)
    requires 0 < hi - lo < TWO_31 && -TWO_31 - TWO_30 <= x - hi && x - lo <= TWO_31 + TWO_30
    ensures SeqCompare(Wrap32(x), Wrap32(hi)) < 0 && SeqCompare(Wrap32(lo), Wrap32(x)) < 0 <==> lo < x < hi
  {
    Wrap32Sub(x, hi);
    Wrap32Sub(lo, x);
  }

  /** An aborted range: one claimed inside the window, or an empty one anywhere
      in the half of the sequence space around it. */
  ghost predicate AbortableAt(at: int, lo: int, len: int)
  {
    if len == 0 then at - TWO_31 < lo < at + TWO_31 else at <= lo && 0 < len && lo + len <= at + TWO_30
  }

  /** The abort loop. */
  method AbortSegments(a: array<Segment>, seq_: U32, len: nat, ghost isn: int, ghost s: seq<Range>, ghost at: int, ghost lo: int)
    requires Represents(a[..], s, isn) && Near(s, at) && seq_ == Seq(isn, lo)
    requires AbortableAt(at, lo, len)
    modifies a
    ensures HoldsSlots(a[..], AbortSlots(s, lo, lo + len), isn, at)
  {
    hide Words.SeqCompare, Seq, Reassembly.Scan, Reassembly.Slots, Reassembly.Overlaps, Words.Wrap32;
    ghost var t := Slots(s);
    SlotsHeld(a[..], s, isn, at);
    var i, j := 0, 0;
    while i < MAX_SEGMENTS && a[i].end != a[i].begin
      invariant 0 <= j <= i <= MAX_SEGMENTS + 1
      invariant HoldsSlots(a[..], t, isn, at)
      invariant Scan(t, i, j, lo, lo + len) == AbortSlots(s, lo, lo + len)
      decreases MAX_SEGMENTS - i
    {
      assert HoldsSlot(a[i], t[i], isn, at);
      ScanStep(t, i, j, lo, lo + len);
      OverlapTest(a[i], t[i], isn, at, lo, len);
      if SeqCompare(seq_, a[i].end) < 0 && SeqCompare(a[i].begin, Wrap32(seq_ + len)) < 0 {
        i := i + 1;
      }
      if j < i {
        t := t[j := if i < MAX_SEGMENTS then t[i] else EMPTY];
        a[j] := if i < MAX_SEGMENTS then a[i] else Segment(0, 0);
      }
      i, j := i + 1, j + 1;
    }
    assert i < MAX_SEGMENTS ==> HoldsSlot(a[i], t[i], isn, at);
    ScanStep(t, i, j, lo, lo + len);
  }
}
