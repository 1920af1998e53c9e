/** The out-of-order segment list of the TCP receive path, on unbounded stream
    positions: what committing or aborting a byte range does to it. */
module Reassembly {
  import opened Words

  const MAX_SEGMENTS: nat := 6

  /** The half-open range of stream positions [lo, hi). */
  datatype Range = Range(lo: int, hi: int) {
    predicate Has(p: int) { lo <= p < hi }
  }

  ghost predicate Covered(s: seq<Range>, p: int)
  {
    exists k :: 0 <= k < |s| && s[k].Has(p)
  }

  predicate NonEmpty(s: seq<Range>)
  {
    forall k :: 0 <= k < |s| ==> s[k].lo < s[k].hi
  }

  /** Sorted, non-empty, and separated by strict gaps. */
  ghost predicate Canonical(s: seq<Range>)
  {
    && NonEmpty(s)
    && forall k, l :: 0 <= k < l < |s| ==> s[k].hi < s[l].lo
  }

  /** Every queued range lies strictly beyond the acknowledged data. */
  ghost predicate Above(s: seq<Range>, recv: int)
  {
    forall k :: 0 <= k < |s| ==> recv < s[k].lo
  }

  // ------------------------------------------------------------------
  // The scans

  /** First index at or after `from` whose range ends beyond `recv`. */
  function Processed(s: seq<Range>, from: nat, recv: int): (n: nat)
    requires from <= |s|
    ensures from <= n <= |s|
    ensures forall k :: from <= k < n ==> s[k].hi <= recv
    ensures n < |s| ==> recv < s[n].hi
    decreases |s| - from
  {
    if from == |s| || recv < s[from].hi then from else Processed(s, from + 1, recv)
  }

  /** First index at or after `from` whose range does not end before `lo`. */
  function Before(s: seq<Range>, from: nat, lo: int): (n: nat)
    requires from <= |s|
    ensures from <= n <= |s|
    ensures forall k :: from <= k < n ==> s[k].hi < lo
    ensures n < |s| ==> lo <= s[n].hi
    decreases |s| - from
  {
    if from == |s| || lo <= s[from].hi then from else Before(s, from + 1, lo)
  }

  /** First index at or after `from` whose range starts beyond `end`. */
  function Reach(s: seq<Range>, from: nat, end: int): (n: nat)
    requires from <= |s|
    ensures from <= n <= |s|
    ensures forall k :: from <= k < n ==> s[k].lo <= end
    ensures n < |s| ==> end < s[n].lo
    decreases |s| - from
  {
    if from == |s| || end < s[from].lo then from else Reach(s, from + 1, end)
  }

  // ------------------------------------------------------------------
  // Committing a range

  datatype Queue = Queue(recv: int, segs: seq<Range>)

  /** Removes ranges that another receiver has already acknowledged. */
  function Prune(s: seq<Range>, recv: int): (t: seq<Range>)
    ensures |t| <= |s|
  {
    var n := Processed(s, 0, recv);
    if n == 0 || n == |s| || recv <= s[n].lo then s[n..]
    else [Range(recv, s[n].hi)] + s[n + 1..]
  }

  /** Extends acknowledged data that now ends at `end` over the ranges it meets. */
  function Absorb(s: seq<Range>, end: int): (q: Queue)
    ensures |q.segs| <= |s|
  {
    var n := Reach(s, 0, end);
    Queue(if n == 0 then end else Max(end, s[n - 1].hi), s[n..])
  }

  /** Puts a new range at index i; the list keeps at most six. */
  function Place(s: seq<Range>, i: nat, r: Range): (t: seq<Range>)
    requires i <= |s| <= MAX_SEGMENTS && i < MAX_SEGMENTS
    ensures |t| == Min(|s| + 1, MAX_SEGMENTS) && t[i] == r
    ensures forall k :: 0 <= k < i ==> t[k] == s[k]
    ensures forall k :: i < k < |t| ==> t[k] == s[k - 1]
  {
    if |s| < MAX_SEGMENTS then s[..i] + [r] + s[i..] else s[..i] + [r] + s[i..|s| - 1]
  }

  /** Widens entry i to take in [lo, hi) and every later entry that then meets it. */
  function Widen(s: seq<Range>, i: nat, lo: int, hi: int): (t: seq<Range>)
    requires i < |s|
    ensures var end := Max(s[i].hi, hi);
            var j := Reach(s, i + 1, end);
            && |t| == |s| - (j - i - 1)
            && t[i] == Range(Min(s[i].lo, lo), Max(end, s[j - 1].hi))
            && (forall k :: 0 <= k < i ==> t[k] == s[k])
            && (forall k :: i < k < |t| ==> t[k] == s[k + j - i - 1])
  {
    var end := Max(s[i].hi, hi);
    var j := Reach(s, i + 1, end);
    s[..i] + [Range(Min(s[i].lo, lo), Max(end, s[j - 1].hi))] + s[j..]
  }

  /** Adds [lo, hi) to the list, merging what it meets; a seventh range is dropped. */
  function Insert(s: seq<Range>, lo: int, hi: int): (t: seq<Range>)
    requires |s| <= MAX_SEGMENTS
    ensures |t| <= MAX_SEGMENTS
  {
    var i := Before(s, 0, lo);
    if i == MAX_SEGMENTS then s
    else if i == |s| || hi < s[i].lo then Place(s, i, Range(lo, hi))
    else Widen(s, i, lo, hi)
  }

  /** Promotes the first range if acknowledged data now reaches it exactly. */
  function Promote(s: seq<Range>, recv: int): (q: Queue)
    ensures |q.segs| <= |s|
  {
    if s != [] && s[0].lo == recv then Queue(s[0].hi, s[1..]) else Queue(recv, s)
  }

  /** The effect of committing the bytes [lo, hi). */
  function CommitRange(q: Queue, lo: int, hi: int): (r: Queue)
    requires |q.segs| <= MAX_SEGMENTS
    ensures |r.segs| <= MAX_SEGMENTS
  {
    var s := Prune(q.segs, q.recv);
    if lo == q.recv then Absorb(s, hi) else Promote(Insert(s, lo, hi), q.recv)
  }

  // ------------------------------------------------------------------
  // Nothing is invented: every position the result claims was claimed before
  // or is part of the committed range. No ordering of the list is needed.

  lemma {:induction false} PruneSound(s: seq<Range>, recv: int, p: int)
    ensures Covered(Prune(s, recv), p) ==> Covered(s, p)
  {
  }

  lemma {:induction false} InsertSound(s: seq<Range>, lo: int, hi: int, p: int)
    requires |s| <= MAX_SEGMENTS
    ensures Covered(Insert(s, lo, hi), p) ==> Covered(s, p) || lo <= p < hi
  {
  }

  lemma {:induction false} AbsorbSound(s: seq<Range>, lo: int, hi: int, p: int)
    requires lo <= p < Absorb(s, hi).recv || Covered(Absorb(s, hi).segs, p)
    ensures Covered(s, p) || lo <= p < hi
  {
  }

  lemma {:induction false} PromoteSound(s: seq<Range>, recv: int, p: int)
    requires recv <= p < Promote(s, recv).recv || Covered(Promote(s, recv).segs, p)
    ensures Covered(s, p)
  {
  }

  lemma {:induction false} CommitSound(q: Queue, lo: int, hi: int, p: int)
    requires |q.segs| <= MAX_SEGMENTS
    requires var r := CommitRange(q, lo, hi); q.recv <= p < r.recv || Covered(r.segs, p)
    ensures Covered(q.segs, p) || lo <= p < hi
  {
    hide Insert, Prune, Reach, Lost;
    var s := Prune(q.segs, q.recv);
    PruneSound(q.segs, q.recv, p);
    if lo == q.recv {
      AbsorbSound(s, lo, hi, p);
    } else {
      PromoteSound(Insert(s, lo, hi), q.recv, p);
      InsertSound(s, lo, hi, p);
    }
  }

  lemma {:induction false} PruneNonEmpty(s: seq<Range>, recv: int)
    requires NonEmpty(s)
    ensures NonEmpty(Prune(s, recv))
  {
  }

  lemma {:induction false} InsertNonEmpty(s: seq<Range>, lo: int, hi: int)
    requires |s| <= MAX_SEGMENTS && NonEmpty(s) && lo < hi
    ensures NonEmpty(Insert(s, lo, hi))
  {
  }

  /** Acknowledged data never shrinks and no range becomes empty. */
  lemma {:induction false} CommitGrows(q: Queue, lo: int, hi: int)
    requires |q.segs| <= MAX_SEGMENTS && NonEmpty(q.segs) && q.recv <= lo < hi
    ensures q.recv <= CommitRange(q, lo, hi).recv && NonEmpty(CommitRange(q, lo, hi).segs)
  {
    hide Insert, Prune, Reach, Lost;
    var s := Prune(q.segs, q.recv);
    PruneNonEmpty(q.segs, q.recv);
    if lo != q.recv {
      InsertNonEmpty(s, lo, hi);
    }
  }

  // ------------------------------------------------------------------
  // The list stays canonical, and coverage is exact

  lemma {:induction false} PlaceCanonical(s: seq<Range>, i: nat, r: Range)
    requires i <= |s| <= MAX_SEGMENTS && i < MAX_SEGMENTS
    requires Canonical(s) && r.lo < r.hi
    requires i > 0 ==> s[i - 1].hi < r.lo
    requires i < |s| ==> r.hi < s[i].lo
    ensures Canonical(Place(s, i, r))
  {
    hide Place;
    var t := Place(s, i, r);
    forall k, l | 0 <= k < l < |t|
      ensures t[k].hi < t[l].lo
    {
      assert k < i - 1 ==> s[k].hi < s[i - 1].lo;
      assert i < |s| && i + 1 < l ==> s[i].hi < s[l - 1].lo;
    }
  }

  lemma {:induction false} WidenCanonical(s: seq<Range>, i: nat, lo: int, hi: int)
    requires i < |s| && Canonical(s) && lo < hi
    requires i > 0 ==> s[i - 1].hi < lo
    ensures Canonical(Widen(s, i, lo, hi))
  {
    hide Reach, Widen;
    var t := Widen(s, i, lo, hi);
    var j := Reach(s, i + 1, Max(s[i].hi, hi));
    forall k, l | 0 <= k < l < |t|
      ensures t[k].hi < t[l].lo
    {
      assert k < i - 1 ==> s[k].hi < s[i - 1].lo;
      if i < l {
        assert t[l] == s[l + j - i - 1];
        assert j < l + j - i - 1 ==> s[j].hi < s[l + j - i - 1].lo;
        assert s[j - 1].hi < s[l + j - i - 1].lo;
      }
    }
  }

  lemma {:induction false} InsertCanonical(s: seq<Range>, lo: int, hi: int)
    requires |s| <= MAX_SEGMENTS && Canonical(s) && lo < hi
    ensures Canonical(Insert(s, lo, hi))
  {
    hide Before, Reach, Widen, Place;
    var i := Before(s, 0, lo);
    if i < MAX_SEGMENTS {
      if i == |s| || hi < s[i].lo {
        PlaceCanonical(s, i, Range(lo, hi));
      } else {
        WidenCanonical(s, i, lo, hi);
      }
    }
  }

  /** Commit keeps the list sorted with strict gaps; after an in-order commit
      nothing left in the list could still be merged (the source's assertion). */
  lemma {:induction false} CommitCanonical(q: Queue, lo: int, hi: int)
    requires |q.segs| <= MAX_SEGMENTS && Canonical(q.segs) && q.recv <= lo < hi
    ensures Canonical(CommitRange(q, lo, hi).segs)
    ensures lo == q.recv || Above(q.segs, q.recv) ==> Above(CommitRange(q, lo, hi).segs, CommitRange(q, lo, hi).recv)
  {
    hide Insert, Prune, Reach, Lost;
    var s := Prune(q.segs, q.recv);
    PruneCanonical(q.segs, q.recv);
    if lo == q.recv {
      AbsorbCanonical(s, hi);
    } else {
      InsertCanonical(s, lo, hi);
      if Above(q.segs, q.recv) {
        InsertAbove(s, lo, hi, q.recv);
      }
    }
  }

  lemma {:induction false} PruneCanonical(s: seq<Range>, recv: int)
    requires Canonical(s)
    ensures Canonical(Prune(s, recv))
    ensures Above(s, recv) ==> Prune(s, recv) == s
  {
  }

  lemma {:induction false} AbsorbCanonical(s: seq<Range>, end: int)
    requires Canonical(s)
    ensures var q := Absorb(s, end); Canonical(q.segs) && Above(q.segs, q.recv)
  {
  }

  lemma {:induction false} InsertAbove(s: seq<Range>, lo: int, hi: int, recv: int)
    requires |s| <= MAX_SEGMENTS && Above(s, recv) && recv < lo
    ensures Above(Insert(s, lo, hi), recv)
  {
  }

  /** The range a commit discards: with six ranges queued, a range that touches
      none of them pushes out the highest of the seven. */
  function Lost(s: seq<Range>, lo: int, hi: int): (r: Range)
    requires |s| <= MAX_SEGMENTS
  {
    var i := Before(s, 0, lo);
    if |s| < MAX_SEGMENTS || (i < |s| && s[i].lo <= hi) then Range(lo, lo)
    else if i == MAX_SEGMENTS then Range(lo, hi)
    else s[MAX_SEGMENTS - 1]
  }

  lemma {:induction false} WidenKeeps(s: seq<Range>, i: nat, lo: int, hi: int, k: nat, p: int)
    requires i < |s| && Canonical(s) && k < |s| && s[k].Has(p)
    ensures Covered(Widen(s, i, lo, hi), p)
  {
    hide Reach, Widen;
    var t := Widen(s, i, lo, hi);
    var j := Reach(s, i + 1, Max(s[i].hi, hi));
    if k < i {
      assert t[k].Has(p);
    } else if k < j {
      assert s[k].hi <= s[j - 1].hi && s[i].lo <= s[k].lo;
      assert t[i].Has(p);
    } else {
      assert t[k - j + i + 1].Has(p);
    }
  }

  lemma PlaceKeeps(s: seq<Range>, i: nat, r: Range, k: nat, p: int)
    requires i <= |s| <= MAX_SEGMENTS && i < MAX_SEGMENTS && k < |s| && s[k].Has(p)
    requires |s| < MAX_SEGMENTS || k < |s| - 1
    ensures Covered(Place(s, i, r), p)
  {
    hide Place;
    assert Place(s, i, r)[if k < i then k else k + 1].Has(p);
  }

  lemma {:induction false} InsertKeeps(s: seq<Range>, lo: int, hi: int, p: int)
    requires |s| <= MAX_SEGMENTS && Canonical(s) && lo < hi
    requires (Covered(s, p) || lo <= p < hi) && !Lost(s, lo, hi).Has(p)
    ensures Covered(Insert(s, lo, hi), p)
  {
    hide Before, Reach, Widen, Place, Canonical;
    var i, t := Before(s, 0, lo), Insert(s, lo, hi);
    if i < MAX_SEGMENTS {
      if lo <= p < hi {
        assert t[i].Has(p);
      } else {
        var k :| 0 <= k < |s| && s[k].Has(p);
        if i < |s| && s[i].lo <= hi {
          WidenKeeps(s, i, lo, hi, k, p);
        } else {
          PlaceKeeps(s, i, Range(lo, hi), k, p);
        }
      }
    }
  }

  lemma {:induction false} InsertDrops(s: seq<Range>, lo: int, hi: int, p: int)
    requires |s| <= MAX_SEGMENTS && Canonical(s) && lo < hi
    requires Lost(s, lo, hi).Has(p)
    ensures !Covered(Insert(s, lo, hi), p)
  {
  }

  lemma {:induction false} AbsorbKeeps(s: seq<Range>, hi: int, k: nat, p: int)
    requires Canonical(s) && k < |s| && s[k].Has(p)
    ensures p < Absorb(s, hi).recv || Covered(Absorb(s, hi).segs, p)
  {
  }

  /** Removing what was acknowledged elsewhere forgets nothing else, whatever the
      list. */
  lemma {:induction false} PruneExact(s: seq<Range>, recv: int, p: int)
    requires recv <= p
    ensures Covered(Prune(s, recv), p) <==> Covered(s, p)
  {
    hide Processed;
    PruneSound(s, recv, p);
    var n, t := Processed(s, 0, recv), Prune(s, recv);
    if k :| 0 <= k < |s| && s[k].Has(p) {
      assert n <= k;
      assert t[k - n].Has(p);
    }
  }

  lemma {:induction false} AbsorbExact(s: seq<Range>, lo: int, hi: int, p: int)
    requires Canonical(s) && lo < hi && lo <= p
    ensures var r := Absorb(s, hi); p < r.recv || Covered(r.segs, p) <==> Covered(s, p) || p < hi
  {
    hide Reach;
    if p < Absorb(s, hi).recv || Covered(Absorb(s, hi).segs, p) {
      AbsorbSound(s, lo, hi, p);
    }
    if k :| 0 <= k < |s| && s[k].Has(p) {
      AbsorbKeeps(s, hi, k, p);
    }
  }

  lemma {:induction false} InsertExact(s: seq<Range>, lo: int, hi: int, p: int)
    requires |s| <= MAX_SEGMENTS && Canonical(s) && lo < hi
    ensures Covered(Insert(s, lo, hi), p) <==> (Covered(s, p) || lo <= p < hi) && !Lost(s, lo, hi).Has(p)
  {
    hide Insert, Lost;
    InsertSound(s, lo, hi, p);
    if Lost(s, lo, hi).Has(p) {
      InsertDrops(s, lo, hi, p);
    } else if Covered(s, p) || lo <= p < hi {
      InsertKeeps(s, lo, hi, p);
    }
  }

  lemma {:induction false} PromoteExact(s: seq<Range>, recv: int, p: int)
    requires recv <= p
    ensures var r := Promote(s, recv); p < r.recv || Covered(r.segs, p) <==> Covered(s, p)
  {
    var r := Promote(s, recv);
    if p < r.recv || Covered(r.segs, p) {
      PromoteSound(s, recv, p);
    }
    if k :| 0 <= k < |s| && s[k].Has(p) {
      if r.segs == s {
        assert r.segs[k].Has(p);
      } else if 0 < k {
        assert r.segs[k - 1].Has(p);
      }
    }
  }

  /** What a commit of [lo, hi) throws away. */
  function Discards(q: Queue, lo: int, hi: int): (r: Range)
    requires |q.segs| <= MAX_SEGMENTS
  {
    if lo == q.recv then Range(lo, lo) else Lost(Prune(q.segs, q.recv), lo, hi)
  }

  /** Wherever another receiver has brought the acknowledged data, a commit makes
      known exactly the new bytes, less a discarded range. */
  lemma {:induction false} CommitExact(q: Queue, lo: int, hi: int, p: int)
    requires |q.segs| <= MAX_SEGMENTS && Canonical(q.segs) && q.recv <= lo < hi && q.recv <= p
    ensures var r := CommitRange(q, lo, hi);
            p < r.recv || Covered(r.segs, p) <==> (Covered(q.segs, p) || lo <= p < hi) && !Discards(q, lo, hi).Has(p)
  {
    hide Insert, Prune, Absorb, Promote, Lost;
    var s := Prune(q.segs, q.recv);
    PruneCanonical(q.segs, q.recv);
    PruneExact(q.segs, q.recv, p);
    if lo == q.recv {
      AbsorbExact(s, lo, hi, p);
    } else {
      InsertExact(s, lo, hi, p);
      PromoteExact(Insert(s, lo, hi), q.recv, p);
    }
  }

  /** A range is thrown away only from a full list, and only if the new one touches
      none of the six; then it is the highest of the seven. */
  lemma {:induction false} LostIff(s: seq<Range>, lo: int, hi: int)
    requires |s| <= MAX_SEGMENTS && Canonical(s) && lo < hi
    ensures var r := Lost(s, lo, hi);
            && (r.lo < r.hi <==> |s| == 6 && forall k :: 0 <= k < |s| ==> s[k].hi < lo || hi < s[k].lo)
            && (r.lo < r.hi ==> (r == Range(lo, hi) || r == s[|s| - 1]) && lo <= r.lo && s[|s| - 1].lo <= r.lo)
  {
    hide Before;
    var i := Before(s, 0, lo);
    if i < |s| && hi < s[i].lo {
      forall k | 0 <= k < |s|
        ensures s[k].hi < lo || hi < s[k].lo
      {
        assert i < k ==> s[i].hi < s[k].lo;
      }
    }
  }

  /** A commit that touches or fills the gap acknowledges every byte known without
      interruption from there, and only such. */
  lemma {:induction false} AcknowledgesAll(q: Queue, lo: int, hi: int)
    requires |q.segs| <= MAX_SEGMENTS && Canonical(q.segs) && q.recv <= lo < hi
    ensures var r := CommitRange(q, lo, hi);
            && (!Covered(r.segs, r.recv) <==> lo == q.recv || !Straddled(q))
            && (forall p :: q.recv <= p < r.recv ==> Covered(q.segs, p) || lo <= p < hi)
  {
    hide CommitRange;
    CommitStops(q, lo, hi);
    var r := CommitRange(q, lo, hi);
    forall p | q.recv <= p < r.recv
      ensures Covered(q.segs, p) || lo <= p < hi
    {
      CommitSound(q, lo, hi, p);
    }
  }

  /** Another receiver has brought the acknowledged data into the first queued
      range, and not past it. */
  predicate Straddled(q: Queue) { q.segs != [] && q.segs[0].lo < q.recv < q.segs[0].hi }

  lemma {:induction false} CommitStops(q: Queue, lo: int, hi: int)
    requires |q.segs| <= MAX_SEGMENTS && Canonical(q.segs) && q.recv <= lo < hi
    ensures var r := CommitRange(q, lo, hi); !Covered(r.segs, r.recv) <==> lo == q.recv || !Straddled(q)
  {
    hide Insert, Reach, Processed;
    var s := Prune(q.segs, q.recv);
    PruneCanonical(q.segs, q.recv);
    if lo == q.recv {
      AbsorbCanonical(s, hi);
    } else {
      var t := Insert(s, lo, hi);
      InsertCanonical(s, lo, hi);
      InsertFirst(s, lo, hi);
    }
  }

  /** The first entry after an insertion starts where the first of all starts. */
  lemma {:induction false} InsertFirst(s: seq<Range>, lo: int, hi: int)
    requires |s| <= MAX_SEGMENTS && Canonical(s) && lo < hi
    ensures var t := Insert(s, lo, hi);
            t != [] && t[0].lo == (if s == [] then lo else Min(s[0].lo, lo)) && (s != [] && s[0].lo < lo ==> s[0].hi <= t[0].hi)
  {
    hide Before, Reach, Widen, Place;
  }

  // ------------------------------------------------------------------
  // Aborting a range

  const EMPTY: Range := Range(0, 0)

  /** The list as the six array slots hold it. */
  function Slots(s: seq<Range>): (t: seq<Range>)
    requires |s| <= MAX_SEGMENTS
    ensures |t| == MAX_SEGMENTS
  {
    s + seq(MAX_SEGMENTS - |s|, _ => EMPTY)
  }

  /** The entries in front of the first empty slot. */
  function Live(t: seq<Range>): (s: seq<Range>)
    ensures |s| <= |t| && s == t[..|s|] && NonEmpty(s)
    ensures |s| < |t| ==> t[|s|].lo >= t[|s|].hi
  {
    if t == [] || t[0].lo >= t[0].hi then [] else [t[0]] + Live(t[1..])
  }

  predicate Overlaps(r: Range, lo: int, hi: int) { lo < r.hi && r.lo < hi }

  /** The abort loop over the slots, from read index i and write index j. */
  function Scan(t: seq<Range>, i: nat, j: nat, lo: int, hi: int): (u: seq<Range>)
    requires |t| == MAX_SEGMENTS && j <= i
    ensures |u| == MAX_SEGMENTS
    ensures forall k :: 0 <= k < j && k < MAX_SEGMENTS ==> u[k] == t[k]
    decreases MAX_SEGMENTS - i
  {
    if i >= MAX_SEGMENTS || t[i].lo >= t[i].hi then t
    else
      var i' := if Overlaps(t[i], lo, hi) then i + 1 else i;
      var t' := if j == i' then t else t[j := if i' < MAX_SEGMENTS then t[i'] else EMPTY];
      Scan(t', i' + 1, j + 1, lo, hi)
  }

  lemma ScanStep(t: seq<Range>, i: nat, j: nat, lo: int, hi: int)
    requires |t| == MAX_SEGMENTS && j <= i
    ensures i >= MAX_SEGMENTS || t[i].lo >= t[i].hi ==> Scan(t, i, j, lo, hi) == t
    ensures i < MAX_SEGMENTS && t[i].lo < t[i].hi ==>
              var i' := if Overlaps(t[i], lo, hi) then i + 1 else i;
              var t' := if j == i' then t else t[j := if i' < MAX_SEGMENTS then t[i'] else EMPTY];
              Scan(t, i, j, lo, hi) == Scan(t', i' + 1, j + 1, lo, hi)
  {
  }

  /** At most one queued range meets the aborted bytes [lo, hi). */
  predicate AtMostOne(s: seq<Range>, lo: int, hi: int)
  {
    forall k, l :: 0 <= k < l < |s| ==> !Overlaps(s[k], lo, hi) || !Overlaps(s[l], lo, hi)
  }

  ghost predicate Avoids(s: seq<Range>, lo: int, hi: int)
  {
    forall k :: 0 <= k < |s| ==> !Overlaps(s[k], lo, hi)
  }

  /** Number of live entries in the slots. */
  ghost predicate LiveEnd(t: seq<Range>, n: nat)
  {
    && n <= |t| == MAX_SEGMENTS
    && (forall k :: 0 <= k < n ==> t[k].lo < t[k].hi)
    && (forall k :: n <= k < |t| ==> t[k] == EMPTY)
  }

  lemma {:induction false} ScanSkips(t: seq<Range>, n: nat, i: nat, r: nat, lo: int, hi: int)
    requires LiveEnd(t, n) && i <= r <= n
    requires forall k :: i <= k < r ==> !Overlaps(t[k], lo, hi)
    ensures Scan(t, i, i, lo, hi) == Scan(t, r, r, lo, hi)
    decreases r - i
  {
    if i < r {
      ScanSkips(t, n, i + 1, r, lo, hi);
    }
  }

  lemma {:induction false} ScanShifts(t: seq<Range>, n: nat, i: nat, lo: int, hi: int)
    requires |t| == MAX_SEGMENTS && 0 < i <= n <= MAX_SEGMENTS
    requires forall k :: i <= k < n ==> t[k].lo < t[k].hi && !Overlaps(t[k], lo, hi)
    requires n < MAX_SEGMENTS ==> t[n] == EMPTY
    ensures var u := Scan(t, i, i - 1, lo, hi);
            && (forall k :: 0 <= k < i - 1 || n - 1 <= k < MAX_SEGMENTS ==> u[k] == t[k])
            && (forall k :: i - 1 <= k < n - 1 ==> u[k] == t[k + 1])
    decreases n - i
  {
    if i < n {
      var t' := t[i - 1 := t[i]];
      assert Scan(t, i, i - 1, lo, hi) == Scan(t', i + 1, i, lo, hi);
      ScanShifts(t', n, i + 1, lo, hi);
    }
  }

  /** What the abort loop leaves when exactly entry r meets the aborted bytes:
      r is gone, but unless it was the last entry the last one is now held twice. */
  function WithoutEntry(s: seq<Range>, r: nat): (t: seq<Range>)
    requires r < |s|
    ensures |t| <= |s|
  {
    s[..r] + s[r + 1..] + if r + 1 == |s| then [] else [s[|s| - 1]]
  }

  function AbortSlots(s: seq<Range>, lo: int, hi: int): (u: seq<Range>)
    requires |s| <= MAX_SEGMENTS
    ensures |u| == MAX_SEGMENTS
  {
    Scan(Slots(s), 0, 0, lo, hi)
  }

  lemma {:induction false} AbortNone(s: seq<Range>, lo: int, hi: int)
    requires |s| <= MAX_SEGMENTS && NonEmpty(s) && Avoids(s, lo, hi)
    ensures AbortSlots(s, lo, hi) == Slots(s)
  {
    ScanSkips(Slots(s), |s|, 0, |s|, lo, hi);
  }

  lemma {:induction false} AbortInner(s: seq<Range>, r: nat, lo: int, hi: int)
    requires |s| <= MAX_SEGMENTS && NonEmpty(s) && r + 1 < |s|
    requires Overlaps(s[r], lo, hi)
    requires forall k :: 0 <= k < |s| && k != r ==> !Overlaps(s[k], lo, hi)
    ensures var u := AbortSlots(s, lo, hi);
            && (forall k :: 0 <= k < r || |s| - 1 <= k < MAX_SEGMENTS ==> u[k] == Slots(s)[k])
            && (forall k :: r <= k < |s| - 1 ==> u[k] == s[k + 1])
  {
    hide Scan;
    var t, n := Slots(s), |s|;
    ScanSkips(t, n, 0, r, lo, hi);
    var t' := t[r := t[r + 1]];
    ScanStep(t, r, r, lo, hi);
    assert AbortSlots(s, lo, hi) == Scan(t', r + 2, r + 1, lo, hi);
    ScanShifts(t', n, r + 2, lo, hi);
  }

  lemma {:induction false} AbortOne(s: seq<Range>, r: nat, lo: int, hi: int)
    requires |s| <= MAX_SEGMENTS && NonEmpty(s) && r < |s|
    requires Overlaps(s[r], lo, hi)
    requires forall k :: 0 <= k < |s| && k != r ==> !Overlaps(s[k], lo, hi)
    ensures AbortSlots(s, lo, hi) == Slots(WithoutEntry(s, r))
  {
    if r + 1 < |s| {
      hide AbortSlots;
      AbortInner(s, r, lo, hi);
      var u, w := AbortSlots(s, lo, hi), Slots(WithoutEntry(s, r));
      forall k | 0 <= k < MAX_SEGMENTS
        ensures u[k] == w[k]
      {
      }
    } else {
      AbortLast(s, lo, hi);
    }
  }

  lemma {:induction false} AbortLast(s: seq<Range>, lo: int, hi: int)
    requires 0 < |s| <= MAX_SEGMENTS && NonEmpty(s) && Overlaps(s[|s| - 1], lo, hi)
    requires forall k :: 0 <= k < |s| - 1 ==> !Overlaps(s[k], lo, hi)
    ensures AbortSlots(s, lo, hi) == Slots(WithoutEntry(s, |s| - 1))
  {
    hide Scan, Overlaps;
    var r, t := |s| - 1, Slots(s);
    ScanSkips(t, |s|, 0, r, lo, hi);
    ScanStep(t, r, r, lo, hi);
    var t' := t[r := EMPTY];
    ScanStep(t', r + 2, r + 1, lo, hi);
    assert AbortSlots(s, lo, hi) == t';
    assert t' == Slots(WithoutEntry(s, r));
  }

  lemma {:induction false} AbortTwo(s: seq<Range>, r: nat, lo: int, hi: int)
    requires |s| <= MAX_SEGMENTS && NonEmpty(s) && r + 1 < |s|
    requires forall k :: 0 <= k < r ==> !Overlaps(s[k], lo, hi)
    requires Overlaps(s[r], lo, hi) && Overlaps(s[r + 1], lo, hi)
    ensures var live := Live(AbortSlots(s, lo, hi));
            && !Avoids(live, lo, hi)
            && r < |live| && live[..r] == s[..r] && live[r] == s[r + 1]
  {
    hide Scan;
    var t, u := Slots(s), AbortSlots(s, lo, hi);
    ScanSkips(t, |s|, 0, r, lo, hi);
    ScanStep(t, r, r, lo, hi);
    assert forall k :: 0 <= k < r ==> u[k] == s[k];
    assert u[r] == s[r + 1];
    var live := Live(u);
    assert r < |live| && live[r] == s[r + 1];
  }

  lemma {:induction false} LivePrefix(t: seq<Range>, n: nat)
    requires n <= |t| && NonEmpty(t[..n])
    requires n < |t| ==> t[n] == EMPTY
    ensures Live(t) == t[..n]
  {
  }

  lemma {:induction false} LiveSlots(s: seq<Range>)
    requires |s| <= MAX_SEGMENTS && NonEmpty(s)
    ensures Live(Slots(s)) == s
  {
    assert Slots(s)[..|s|] == s;
    LivePrefix(Slots(s), |s|);
  }

  /** First entry that meets the bytes [lo, hi). */
  function FirstHit(s: seq<Range>, from: nat, lo: int, hi: int): (r: nat)
    requires from <= |s|
    ensures from <= r <= |s|
    ensures forall k :: from <= k < r ==> !Overlaps(s[k], lo, hi)
    ensures r < |s| ==> Overlaps(s[r], lo, hi)
    decreases |s| - from
  {
    if from == |s| || Overlaps(s[from], lo, hi) then from else FirstHit(s, from + 1, lo, hi)
  }

  /** The list an abort leaves when at most one queued range meets the bytes. */
  function AbortRange(s: seq<Range>, lo: int, hi: int): (t: seq<Range>)
    ensures |t| <= |s|
  {
    var r := FirstHit(s, 0, lo, hi);
    if r == |s| then s else WithoutEntry(s, r)
  }

  /** With at most one hit the abort loop leaves a proper list of ranges that
      were queued before and that avoid the aborted bytes. */
  lemma {:induction false} AbortSafe(s: seq<Range>, lo: int, hi: int)
    requires |s| <= MAX_SEGMENTS && NonEmpty(s) && AtMostOne(s, lo, hi)
    ensures var t := AbortRange(s, lo, hi);
            && AbortSlots(s, lo, hi) == Slots(t)
            && Avoids(t, lo, hi)
            && (forall k :: 0 <= k < |t| ==> t[k] in s)
  {
    var r := FirstHit(s, 0, lo, hi);
    if r == |s| {
      AbortNone(s, lo, hi);
    } else {
      AbortOne(s, r, lo, hi);
    }
  }

  /** And it takes nothing else away: known afterwards are exactly the positions of
      the queued ranges that did not meet the aborted bytes. */
  lemma {:induction false} AbortExact(s: seq<Range>, lo: int, hi: int, p: int)
    requires |s| <= MAX_SEGMENTS && NonEmpty(s) && AtMostOne(s, lo, hi)
    ensures Covered(Live(AbortSlots(s, lo, hi)), p) <==> exists k :: 0 <= k < |s| && s[k].Has(p) && !Overlaps(s[k], lo, hi)
  {
    hide AbortSlots, FirstHit, Overlaps;
    AbortSafe(s, lo, hi);
    var r, t := FirstHit(s, 0, lo, hi), AbortRange(s, lo, hi);
    assert NonEmpty(t);
    LiveSlots(t);
    if k :| 0 <= k < |s| && s[k].Has(p) && !Overlaps(s[k], lo, hi) {
      if r < |s| {
        assert t[if k < r then k else k - 1] == s[k];
      } else {
        assert t[k] == s[k];
      }
    }
    if l :| 0 <= l < |t| && t[l].Has(p) {
      var k :| 0 <= k < |s| && s[k] == t[l];
    }
  }

  /** Two ranges that meet the aborted bytes have only such ranges between them. */
  lemma {:induction false} SecondHit(s: seq<Range>, lo: int, hi: int)
    requires Canonical(s) && !AtMostOne(s, lo, hi)
    ensures var r := FirstHit(s, 0, lo, hi); r + 1 < |s| && Overlaps(s[r + 1], lo, hi)
  {
    var k, l :| 0 <= k < l < |s| && Overlaps(s[k], lo, hi) && Overlaps(s[l], lo, hi);
    var r := FirstHit(s, 0, lo, hi);
    assert r + 1 < l ==> s[r + 1].hi < s[l].lo;
    assert s[r].hi < s[r + 1].lo;
  }

  /** The abort loop does its job - nothing left in the list meets the aborted
      bytes - exactly when at most one queued range met them. */
  lemma {:induction false} AbortSafeIff(s: seq<Range>, lo: int, hi: int)
    requires |s| <= MAX_SEGMENTS && Canonical(s)
    ensures Avoids(Live(AbortSlots(s, lo, hi)), lo, hi) <==> AtMostOne(s, lo, hi)
  {
    if AtMostOne(s, lo, hi) {
      AbortSafe(s, lo, hi);
      var t := AbortRange(s, lo, hi);
      assert NonEmpty(t);
      LiveSlots(t);
    } else {
      SecondHit(s, lo, hi);
      AbortTwo(s, FirstHit(s, 0, lo, hi), lo, hi);
    }
  }

  /** The abort loop only ever moves entries down. */
  lemma {:induction false} ScanMoves(t: seq<Range>, i: nat, j: nat, lo: int, hi: int, k: nat) returns (l: nat)
    requires |t| == MAX_SEGMENTS && j <= i && j <= k < MAX_SEGMENTS
    ensures k <= l <= MAX_SEGMENTS
    ensures Scan(t, i, j, lo, hi)[k] == if l < MAX_SEGMENTS then t[l] else EMPTY
    decreases MAX_SEGMENTS - i
  {
    if i >= MAX_SEGMENTS || t[i].lo >= t[i].hi {
      l := k;
    } else {
      var i' := if Overlaps(t[i], lo, hi) then i + 1 else i;
      var t' := if j == i' then t else t[j := if i' < MAX_SEGMENTS then t[i'] else EMPTY];
      if k == j {
        l := i';
      } else {
        l := ScanMoves(t', i' + 1, j + 1, lo, hi, k);
      }
    }
  }

  /** The byte at p is acknowledged by an in-order commit up to x that did not
      bring it. */
  ghost predicate Acknowledges(q: Queue, x: int, p: int)
    requires |q.segs| <= MAX_SEGMENTS
  {
    q.recv < x <= p < CommitRange(q, q.recv, x).recv
  }

  lemma {:induction false} TwoHits(q: Queue, r: nat, lo: int, hi: int)
    requires |q.segs| <= MAX_SEGMENTS && Canonical(q.segs) && Above(q.segs, q.recv) && r + 1 < |q.segs|
    requires forall k :: 0 <= k < r ==> !Overlaps(q.segs[k], lo, hi)
    requires Overlaps(q.segs[r], lo, hi) && Overlaps(q.segs[r + 1], lo, hi)
    ensures var x := q.segs[r + 1].lo;
            lo <= x < hi && Acknowledges(q.(segs := Live(AbortSlots(q.segs, lo, hi))), x, x)
  {
    hide Scan, CommitRange, Live;
    var s, x := q.segs, q.segs[r + 1].lo;
    AbortTwo(s, r, lo, hi);
    var live := Live(AbortSlots(s, lo, hi));
    forall k | 0 <= k < r
      ensures live[k] == s[k]
    {
      assert live[..r][k] == s[..r][k];
    }
    forall k | r < k < |live| && live[k].lo <= x
      ensures live[k].hi == s[r + 1].hi
    {
      var l := ScanMoves(Slots(s), 0, 0, lo, hi, k);
      assert live[k] == s[l];
    }
    CommitReaches(q.(segs := live), r, x, s[r + 1].hi);
  }

  lemma {:induction false} CommitReaches(q: Queue, r: nat, x: int, end: int)
    requires r < |q.segs| <= MAX_SEGMENTS && q.recv < q.segs[0].hi
    requires forall k :: 0 <= k <= r ==> q.segs[k].lo <= x
    requires forall k :: r <= k < |q.segs| && q.segs[k].lo <= x ==> q.segs[k].hi == end
    ensures end <= CommitRange(q, q.recv, x).recv
  {
    assert Prune(q.segs, q.recv) == q.segs;
  }

  /** No byte of an aborted range is acknowledged by a commit that did not bring
      it - whatever that commit is - exactly when at most one queued range met
      the aborted bytes. */
  lemma {:induction false} AbortHarmlessIff(q: Queue, lo: int, hi: int)
    requires |q.segs| <= MAX_SEGMENTS && Canonical(q.segs) && Above(q.segs, q.recv)
    ensures var t := q.(segs := Live(AbortSlots(q.segs, lo, hi)));
            AtMostOne(q.segs, lo, hi) <==> forall x, p :: Acknowledges(t, x, p) ==> !(lo <= p < hi)
  {
    hide Scan, CommitRange;
    var s, t := q.segs, q.(segs := Live(AbortSlots(q.segs, lo, hi)));
    if AtMostOne(s, lo, hi) {
      AbortSafeIff(s, lo, hi);
      forall x, p | Acknowledges(t, x, p)
        ensures !(lo <= p < hi)
      {
        CommitSound(t, t.recv, x, p);
      }
    } else {
      var r := FirstHit(s, 0, lo, hi);
      SecondHit(s, lo, hi);
      TwoHits(q, r, lo, hi);
    }
  }

  // ------------------------------------------------------------------
  // Lists in which an abort has left an entry twice

  /** Sorted, except that an entry may be followed by copies of itself; a prune
      may have cut the first copy at the acknowledged data and not the others. */
  ghost predicate Ordered(s: seq<Range>, recv: int)
  {
    && NonEmpty(s)
    && forall k, l :: 0 <= k < l < |s| ==> Precedes(s[k], s[l], recv)
  }

  ghost predicate Precedes(a: Range, b: Range, recv: int)
  {
    a.hi < b.lo || (a.hi == b.hi && (a.lo == b.lo || b.lo <= a.lo <= recv))
  }

  /** Only the first range may be as long as the window. */
  ghost predicate Short(s: seq<Range>)
  {
    forall k :: 1 <= k < |s| ==> s[k].hi - s[k].lo < TWO_30
  }

  lemma {:induction false} PruneOrdered(s: seq<Range>, recv: int)
    requires Ordered(s, recv) && Short(s)
    ensures var t := Prune(s, recv); Ordered(t, recv) && Short(t) && (t != [] ==> recv < t[0].hi)
    ensures Above(s, recv) ==> Prune(s, recv) == s
  {
    hide Processed;
    if Above(s, recv) {
      PruneAbove(s, recv);
    }
    var n, t := Processed(s, 0, recv), Prune(s, recv);
    forall k | 0 <= k < |t|
      ensures t[k].hi == s[n + k].hi && (t[k] == s[n + k] || (k == 0 && s[n].lo <= t[0].lo <= recv))
    {
    }
    forall k, l | 0 <= k < l < |t|
      ensures Precedes(t[k], t[l], recv)
    {
      assert Precedes(s[n + k], s[n + l], recv);
    }
  }

  lemma {:induction false} PruneAbove(s: seq<Range>, recv: int)
    requires NonEmpty(s) && Above(s, recv)
    ensures Prune(s, recv) == s
  {
    hide Processed;
    assert s != [] ==> s[0].lo < s[0].hi;
    assert s[0..] == s;
  }

  lemma {:induction false} PlaceOrdered(s: seq<Range>, i: nat, r: Range, recv: int)
    requires i <= |s| <= MAX_SEGMENTS && i < MAX_SEGMENTS && Ordered(s, recv) && recv < r.lo < r.hi
    requires forall k :: 0 <= k < i ==> s[k].hi < r.lo
    requires i < |s| ==> r.hi < s[i].lo
    ensures Ordered(Place(s, i, r), recv)
  {
    hide Place;
    var t := Place(s, i, r);
    forall k, l | 0 <= k < l < |t|
      ensures Precedes(t[k], t[l], recv)
    {
      if k < i < l || i < k {
        assert Precedes(s[if k < i then k else k - 1], s[l - 1], recv);
      } else if k == i && i + 1 < l {
        assert Precedes(s[i], s[l - 1], recv);
      }
    }
  }

  /** What is beyond a position that an ordered list has passed. */
  lemma {:induction false} BeyondOrdered(s: seq<Range>, j: nat, l: nat, end: int, recv: int)
    requires 0 < j <= l < |s| && Ordered(s, recv) && recv <= end && s[j - 1].lo <= end < s[j].lo
    ensures end < s[l].lo && s[j - 1].hi < s[l].lo
  {
    assert Precedes(s[j - 1], s[l], recv);
    assert j < l ==> Precedes(s[j], s[l], recv);
  }

  lemma {:induction false} WidenOrdered(s: seq<Range>, i: nat, lo: int, hi: int, recv: int)
    requires i < |s| && Ordered(s, recv) && recv < lo < hi && lo <= s[i].hi
    requires forall k :: 0 <= k < i ==> s[k].hi < lo
    ensures Ordered(Widen(s, i, lo, hi), recv)
  {
    hide Reach, Widen;
    var t, end := Widen(s, i, lo, hi), Max(s[i].hi, hi);
    var j := Reach(s, i + 1, end);
    forall k, l | 0 <= k < l < |t|
      ensures Precedes(t[k], t[l], recv)
    {
      if l == i {
        assert Precedes(s[k], s[i], recv);
      } else if k == i {
        BeyondOrdered(s, j, l + j - i - 1, end, recv);
      } else {
        assert Precedes(s[if k < i then k else k + j - i - 1], s[if l < i then l else l + j - i - 1], recv);
      }
    }
  }

  lemma {:induction false} InsertOrdered(s: seq<Range>, lo: int, hi: int, recv: int, end: int)
    requires |s| <= MAX_SEGMENTS && Ordered(s, recv) && Short(s) && (s != [] ==> recv < s[0].hi)
    requires recv < lo < hi <= end <= recv + TWO_30 && forall k :: 0 <= k < |s| ==> s[k].hi <= end
    ensures Ordered(Insert(s, lo, hi), recv) && Short(Insert(s, lo, hi))
  {
    hide Before, Reach, Widen, Place;
    var i := Before(s, 0, lo);
    if i < MAX_SEGMENTS {
      if i == |s| || hi < s[i].lo {
        PlaceOrdered(s, i, Range(lo, hi), recv);
      } else {
        WidenOrdered(s, i, lo, hi, recv);
        WidenShort(s, i, lo, hi, recv, end);
      }
    }
  }

  /** Only entry i grows, and if it is not the first it starts beyond `recv`. */
  lemma {:induction false} WidenShort(s: seq<Range>, i: nat, lo: int, hi: int, recv: int, end: int)
    requires i < |s| && Ordered(s, recv) && Short(s) && recv < s[0].hi && recv < lo
    requires hi <= end <= recv + TWO_30 && forall k :: 0 <= k < |s| ==> s[k].hi <= end
    requires 0 < i ==> s[0].hi < lo <= s[i].hi
    ensures Short(Widen(s, i, lo, hi))
  {
    hide Reach, Widen, NonEmpty;
    var t := Widen(s, i, lo, hi);
    assert 0 < i ==> Precedes(s[0], s[i], recv);
    assert t[i].hi <= end;
    forall k | 1 <= k < |t|
      ensures t[k].hi - t[k].lo < TWO_30
    {
    }
  }

  lemma {:induction false} AbsorbOrdered(s: seq<Range>, end: int, recv: int)
    requires Ordered(s, recv) && Short(s) && recv < end
    ensures var q := Absorb(s, end);
            end <= q.recv && Ordered(q.segs, q.recv) && Short(q.segs) && Above(q.segs, q.recv)
  {
    hide Reach;
    var n, q := Reach(s, 0, end), Absorb(s, end);
    forall k | 0 <= k < |q.segs|
      ensures q.recv < q.segs[k].lo
    {
      if 0 < n {
        BeyondOrdered(s, n, n + k, end, recv);
      } else if 0 < k {
        assert Precedes(s[0], s[k], recv);
      }
    }
    OrderedTail(s, n, recv, q.recv);
  }

  lemma {:induction false} OrderedTail(s: seq<Range>, n: nat, recv: int, recv': int)
    requires n <= |s| && Ordered(s, recv) && Short(s) && recv <= recv'
    ensures Ordered(s[n..], recv') && Short(s[n..])
  {
    var t := s[n..];
    forall k, l | 0 <= k < l < |t|
      ensures Precedes(t[k], t[l], recv')
    {
      assert Precedes(s[n + k], s[n + l], recv);
    }
  }

  lemma {:induction false} OrderedLater(s: seq<Range>, recv: int, recv': int)
    requires Ordered(s, recv) && recv <= recv'
    ensures Ordered(s, recv')
  {
  }

  /** Commit keeps the order, and leaves nothing far behind. */
  lemma {:induction false} CommitOrdered(q: Queue, lo: int, hi: int, end: int)
    requires |q.segs| <= MAX_SEGMENTS && Ordered(q.segs, q.recv) && Short(q.segs) && q.recv <= lo < hi <= end <= q.recv + TWO_30
    requires forall k :: 0 <= k < |q.segs| ==> q.recv - TWO_30 < q.segs[k].lo && q.segs[k].hi <= end
    ensures var r := CommitRange(q, lo, hi);
            && Ordered(r.segs, r.recv) && Short(r.segs)
            && (forall k :: 0 <= k < |r.segs| ==> r.recv - TWO_30 < r.segs[k].lo)
            && (Above(q.segs, q.recv) ==> Above(r.segs, r.recv))
  {
    hide Insert, Prune, Absorb;
    var s := Prune(q.segs, q.recv);
    PruneOrdered(q.segs, q.recv);
    PruneWithin(q.segs, q.recv, q.recv - TWO_30, end);
    if lo == q.recv {
      AbsorbOrdered(s, hi, q.recv);
    } else {
      var t := Insert(s, lo, hi);
      InsertOrdered(s, lo, hi, q.recv, end);
      InsertWithin(s, lo, hi, q.recv - TWO_30, end);
      if Above(q.segs, q.recv) {
        InsertAbove(s, lo, hi, q.recv);
      }
      PromoteOrdered(t, q.recv);
    }
  }

  lemma {:induction false} PromoteOrdered(t: seq<Range>, recv: int)
    requires Ordered(t, recv) && Short(t) && forall k :: 0 <= k < |t| ==> recv - TWO_30 < t[k].lo
    ensures var r := Promote(t, recv);
            && Ordered(r.segs, r.recv) && Short(r.segs)
            && (forall k :: 0 <= k < |r.segs| ==> r.recv - TWO_30 < r.segs[k].lo)
            && (Above(t, recv) ==> r == Queue(recv, t))
  {
    if t != [] && t[0].lo == recv {
      OrderedTail(t, 1, recv, t[0].hi);
      forall k | 0 <= k < |t| - 1
        ensures t[0].hi - TWO_30 < t[1..][k].lo
      {
        assert Precedes(t[0], t[k + 1], recv);
      }
    }
  }

  lemma {:induction false} PruneWithin(s: seq<Range>, recv: int, from: int, end: int)
    requires from < recv && forall k :: 0 <= k < |s| ==> from < s[k].lo && s[k].hi <= end
    ensures forall k :: 0 <= k < |Prune(s, recv)| ==> from < Prune(s, recv)[k].lo && Prune(s, recv)[k].hi <= end
  {
  }

  lemma {:induction false} InsertWithin(s: seq<Range>, lo: int, hi: int, from: int, end: int)
    requires |s| <= MAX_SEGMENTS && from < lo && hi <= end && forall k :: 0 <= k < |s| ==> from < s[k].lo && s[k].hi <= end
    ensures var t := Insert(s, lo, hi); forall k :: 0 <= k < |t| ==> from < t[k].lo && t[k].hi <= end
  {
  }

  /** An abort that meets at most one range keeps the order, with the last entry
      twice if the one removed was not the last. */
  lemma {:induction false} AbortOrdered(s: seq<Range>, lo: int, hi: int, recv: int)
    requires Ordered(s, recv) && Short(s)
    ensures var t := AbortRange(s, lo, hi);
            Ordered(t, recv) && Short(t) && forall k :: 0 <= k < |t| ==> t[k] in s
  {
    hide FirstHit, WithoutEntry, Precedes;
    var r, t := FirstHit(s, 0, lo, hi), AbortRange(s, lo, hi);
    if r < |s| {
      forall k | 0 <= k < |t|
        ensures t[k] == s[Origin(|s|, r, k)]
      {
        WithoutAt(s, r, k);
      }
      forall k, l | 0 <= k < l < |t|
        ensures Precedes(t[k], t[l], recv)
      {
        OriginPrecedes(s, r, k, l, recv);
      }
    }
  }

  lemma {:induction false} OriginPrecedes(s: seq<Range>, r: nat, k: nat, l: nat, recv: int)
    requires Ordered(s, recv) && r < |s| && k < l < |s|
    ensures Precedes(s[Origin(|s|, r, k)], s[Origin(|s|, r, l)], recv)
  {
    hide Precedes;
    CopyPrecedes(s[Origin(|s|, r, k)], recv);
  }

  /** Where entry k comes from when entry r is removed from n of them. */
  function Origin(n: nat, r: nat, k: nat): (i: nat)
    requires r < n
  {
    if k < r then k else if k + 1 < n then k + 1 else n - 1
  }

  lemma {:induction false} WithoutAt(s: seq<Range>, r: nat, k: nat)
    requires r < |s| && k < |WithoutEntry(s, r)|
    ensures WithoutEntry(s, r)[k] == s[Origin(|s|, r, k)]
    ensures r + 1 == |s| ==> |WithoutEntry(s, r)| == r
  {
  }

  lemma {:induction false} CopyPrecedes(a: Range, recv: int)
    ensures Precedes(a, a, recv)
  {
  }

  /** An abort of no bytes at all still runs the loop: it throws a queued range away
      if and only if its position lies strictly inside one. */
  lemma {:induction false} EmptyAbortIff(s: seq<Range>, p: int)
    requires |s| <= MAX_SEGMENTS && Canonical(s)
    ensures var t := Live(AbortSlots(s, p, p));
            && t == AbortRange(s, p, p)
            && (t == s <==> forall k :: 0 <= k < |s| ==> !(s[k].lo < p < s[k].hi))
  {
    hide AbortSlots, FirstHit;
    assert AtMostOne(s, p, p) by {
      forall k, l | 0 <= k < l < |s|
        ensures !Overlaps(s[k], p, p) || !Overlaps(s[l], p, p)
      {
        assert s[k].hi < s[l].lo;
      }
    }
    AbortSafe(s, p, p);
    var r, t := FirstHit(s, 0, p, p), AbortRange(s, p, p);
    assert NonEmpty(t);
    LiveSlots(t);
    if r < |s| {
      assert Overlaps(s[r], p, p) && s[r] !in t;
    }
  }

  /** The smallest failure: two queued ranges inside the aborted bytes. */
  lemma {:induction false} AbortCounterexample()
    ensures var s := [Range(10, 20), Range(30, 40)];
            Canonical(s) && Live(AbortSlots(s, 5, 50)) == [Range(30, 40), Range(30, 40)]
  {
  }
}
