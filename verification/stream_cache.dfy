/** The growable stream buffer, as a queue of bytes. */
module StreamCaches {
  import opened ByteRing
  import opened Words

  /** The buffer holds the last bytes given, of which those before `used` are
      the last bytes taken. */
  ghost predicate Holds(buf: seq<U8>, used: nat, offset: nat, given: seq<U8>, taken: seq<U8>)
  {
    && used <= offset <= |buf| && offset <= |given|
    && given[|given| - offset..] == buf[..offset]
    && taken == given[..|given| - offset + used]
  }

  lemma Queue(buf: seq<U8>, used: nat, offset: nat, given: seq<U8>, taken: seq<U8>)
    requires Holds(buf, used, offset, given, taken)
    ensures used <= offset <= |buf| && taken + buf[used..offset] == given
  {
    var base := |given| - offset;
    SliceOfSlice(given, base, |given|, used, offset);
    assert buf[..offset][used..offset] == buf[used..offset];
    assert given == given[..base + used] + given[base + used..];
  }

  lemma HoldsMore(buf: seq<U8>, now: seq<U8>, used: nat, offset: nat, given: seq<U8>, taken: seq<U8>, data: seq<U8>)
    requires Holds(buf, used, offset, given, taken) && offset + |data| <= |now|
    requires now[..offset] == buf[..offset] && now[offset..offset + |data|] == data
    ensures Holds(now, used, offset + |data|, given + data, taken)
  {
    assert now[..offset + |data|] == now[..offset] + now[offset..offset + |data|];
    assert (given + data)[|given| - offset..] == given[|given| - offset..] + data;
  }

  /** The queue moved to the front of a buffer. */
  lemma HoldsFront(buf: seq<U8>, now: seq<U8>, used: nat, offset: nat, given: seq<U8>, taken: seq<U8>)
    requires Holds(buf, used, offset, given, taken) && offset - used <= |now|
    requires now[..offset - used] == buf[used..offset]
    ensures Holds(now, 0, offset - used, given, taken)
  {
    SliceOfSlice(given, |given| - offset, |given|, used, offset);
    assert buf[..offset][used..offset] == buf[used..offset];
  }

  /** Moving the read position, either way. */
  lemma HoldsShift(buf: seq<U8>, used: nat, offset: nat, given: seq<U8>, taken: seq<U8>, n: int)
    requires Holds(buf, used, offset, given, taken) && 0 <= used + n <= offset
    ensures |taken| + n <= |given| && Holds(buf, used + n, offset, given, given[..|taken| + n])
  {
  }

  lemma Overwritten(buf: seq<U8>, now: seq<U8>, at: nat, bytes: seq<U8>)
    requires at + |bytes| <= |buf| && now == buf[..at] + bytes + buf[at + |bytes|..]
    ensures now[..at] == buf[..at] && now[at..at + |bytes|] == bytes && |now| == |buf|
  {
  }

  /** The queue after an append. */
  lemma Rest(queue: seq<U8>, now: seq<U8>, taken: seq<U8>, given: seq<U8>, data: seq<U8>)
    requires taken + queue == given && taken + now == given + data
    ensures now == queue + data
  {
    assert now == (taken + now)[|taken|..] && queue == (taken + queue)[|taken|..];
    assert (given + data)[|taken|..] == given[|taken|..] + data;
  }

  /** Nothing is left. */
  lemma HoldsNone(buf: seq<U8>, given: seq<U8>)
    ensures Holds(buf, 0, 0, given, given)
  {
  }

  // ------------------------------------------------------------------
  // The positions, and what they cost

  /** The numbers of a cache, and how many bytes it has shifted in place. */
  datatype Plan = Plan(cap: nat, used: nat, offset: nat, moved: nat) {
    predicate Sane() { used <= offset <= cap }
  }

  /** Room for size more bytes: shifted in place if what is left fits beside them
      and in front of itself, else in a larger buffer. */
  function Appended(p: Plan, size: nat): (r: Plan)
    requires p.Sane()
    ensures r.Sane() && r.offset - r.used == p.offset - p.used + size
  {
    var len := p.offset - p.used;
    if size <= p.cap - p.offset then p.(offset := p.offset + size)
    else if size + len <= p.cap && len <= p.used then Plan(p.cap, 0, len + size, p.moved + len)
    else Plan(if size < p.cap / 2 then p.cap + size * 2 else p.cap + size, 0, len + size, p.moved)
  }

  function Rotated(p: Plan, n: int): (r: Plan)
    requires p.Sane() && p.used + n >= 0
    ensures r.Sane()
  {
    if n >= p.offset - p.used then p.(used := 0, offset := 0) else p.(used := p.used + n)
  }

  function Merged(p: Plan, size: nat): (r: Plan)
    requires p.Sane()
    ensures r.Sane()
  {
    if size == 0 then p
    else Appended(if p.offset == 0 || p.used >= p.offset then p.(used := 0, offset := 0) else p, size)
  }

  class StreamCache {
    var cap: nat
    var offset: nat
    var used: nat
    var buffer: array<U8>

    /** All bytes ever given, all bytes taken so far, and the bytes shifted within
        the buffer to make room. */
    ghost var given: seq<U8>
    ghost var taken: seq<U8>
    ghost var moved: nat

    ghost function Numbers(): Plan
      reads this
    {
      Plan(cap, used, offset, moved)
    }

    ghost predicate Valid()
      reads this, buffer
    {
      cap == buffer.Length && Holds(buffer[..], used, offset, given, taken)
    }

    constructor (size: nat)
      ensures Valid() && fresh(buffer) && given == taken == [] && Numbers() == Plan(size, 0, 0, 0)
    {
      cap, offset, used, buffer := size, 0, 0, new U8[size];
      given, taken, moved := [], [], 0;
    }

    function Free(): (n: nat)
      requires offset <= cap
      reads this
    {
      cap - offset
    }

    function Len(): (n: nat)
      requires used <= offset
      reads this
    {
      offset - used
    }

    function Bytes(): (b: seq<U8>)
      requires used <= offset <= buffer.Length
      reads this, buffer
    {
      buffer[used..offset]
    }

    /** Shifts the queue to the front of the buffer. */
    method Compact()
      requires Valid() && Len() <= used
      modifies this`used, this`offset, this`moved, buffer
      ensures Valid() && used == 0 && Bytes() == old(Bytes()) && moved == old(moved) + Len()
    {
      hide Holds;
      ghost var buf := buffer[..];
      Queue(buf, used, offset, given, taken);
      var len := Len();
      CopyIn(buffer, 0, Bytes());
      Overwritten(buf, buffer[..], 0, buf[used..offset]);
      HoldsFront(buf, buffer[..], used, offset, given, taken);
      used, offset, moved := 0, len, moved + len;
    }

    /** Moves the queue to a larger buffer. */
    method Grow(size: nat)
      requires Valid()
      modifies this`used, this`offset, this`cap, this`buffer
      ensures Valid() && fresh(buffer) && used == 0 && Bytes() == old(Bytes())
      ensures cap == if size < old(cap) / 2 then old(cap) + size * 2 else old(cap) + size
    {
      hide Holds;
      Queue(buffer[..], used, offset, given, taken);
      var newCap := if size < cap / 2 then cap + size * 2 else cap + size;
      var newBuffer := new U8[newCap];
      CopyIn(newBuffer, 0, Bytes());
      HoldsFront(buffer[..], newBuffer[..], used, offset, given, taken);
      offset := offset - used;
      used, buffer, cap := 0, newBuffer, newCap;
    }

    /** Makes room for size more bytes, in place or in a larger buffer. */
    method MakeRoom(size: nat)
      requires Valid() && size > Free()
      modifies this, buffer
      ensures Valid() && fresh({buffer} - {old(buffer)}) && size <= Free()
      ensures given == old(given) && taken == old(taken) && Bytes() == old(Bytes())
      ensures Numbers().(offset := offset + size) == Appended(old(Numbers()), size)
    {
      hide Holds;
      Queue(buffer[..], used, offset, given, taken);
      if size + Len() <= cap && Len() <= used {
        Compact();
      } else {
        Grow(size);
      }
    }

    method Append(data: seq<U8>)
      requires Valid()
      modifies this, buffer
      ensures Valid() && fresh({buffer} - {old(buffer)})
      ensures given == old(given) + data && taken == old(taken) && Bytes() == old(Bytes()) + data
      ensures Numbers() == Appended(old(Numbers()), |data|)
    {
      hide Holds;
      Queue(buffer[..], used, offset, given, taken);
      if |data| <= 0 {
        assert data == [];
        return;
      }
      if |data| > Free() {
        MakeRoom(|data|);
      }
      Put(data);
    }

    /** Copies the data behind the queue. */
    method Put(data: seq<U8>)
      requires Valid() && |data| <= Free()
      modifies this`offset, this`given, buffer
      ensures Valid() && offset == old(offset) + |data| && given == old(given) + data && Bytes() == old(Bytes()) + data
    {
      hide Holds;
      ghost var buf := buffer[..];
      Queue(buf, used, offset, given, taken);
      ghost var queue := Bytes();
      CopyIn(buffer, offset, data);
      Overwritten(buf, buffer[..], offset, data);
      HoldsMore(buf, buffer[..], used, offset, given, taken, data);
      offset, given := offset + |data|, given + data;
      Queue(buffer[..], used, offset, given, taken);
      Rest(queue, buffer[used..offset], taken, old(given), data);
    }

    /** Takes n bytes, or all there are, then appends; a negative n gives back the
        last -n bytes taken, as long as the buffer still has them. */
    method Rotate(n: int, data: seq<U8>)
      requires Valid() && used + n >= 0
      modifies this, buffer
      ensures Valid() && fresh({buffer} - {old(buffer)}) && given == old(given) + data
      ensures taken == if n >= old(Len()) then old(given)
                       else old(given)[..|old(taken)| + n]
      ensures Numbers() == Appended(Rotated(old(Numbers()), n), |data|)
    {
      hide Holds;
      Queue(buffer[..], used, offset, given, taken);
      if n >= Len() {
        HoldsNone(buffer[..], given);
        taken := given;
        used, offset := 0, 0;
      } else {
        HoldsShift(buffer[..], used, offset, given, taken, n);
        taken, used := given[..|taken| + n], used + n;
      }
      Append(data);
    }

    /** Appends and returns the whole queue. */
    method Merge(data: seq<U8>) returns (bytes: seq<U8>)
      requires Valid()
      modifies this, buffer
      ensures Valid() && fresh({buffer} - {old(buffer)}) && given == old(given) + data && taken == old(taken)
      ensures bytes == Bytes() && taken + bytes == given
      ensures Numbers() == Merged(old(Numbers()), |data|)
    {
      hide Holds;
      Queue(buffer[..], used, offset, given, taken);
      if |data| <= 0 {
        assert data == [];
        return Bytes();
      }
      if offset <= 0 || used >= offset {
        HoldsNone(buffer[..], given);
        offset, used := 0, 0;
      }
      Append(data);
      Queue(buffer[..], used, offset, given, taken);
      return Bytes();
    }
  }

  // ------------------------------------------------------------------
  // Whole runs

  datatype Op = Merge(data: seq<U8>) | Rotate(n: nat, data: seq<U8>)

  /** What a run of operations gives. */
  function Given(ops: seq<Op>): (b: seq<U8>)
  {
    if ops == [] then [] else Given(ops[..|ops| - 1]) + ops[|ops| - 1].data
  }

  /** How much of it the run takes: each Rotate its count, or all there is. */
  function Consumed(ops: seq<Op>): (n: nat)
    ensures n <= |Given(ops)|
  {
    if ops == [] then 0
    else
      var (prev, last) := (ops[..|ops| - 1], ops[|ops| - 1]);
      if last.Merge? then Consumed(prev) else Min(Consumed(prev) + last.n, |Given(prev)|)
  }

  /** The numbers after a run that starts with a buffer of `size` bytes. */
  function Planned(size: nat, ops: seq<Op>): (p: Plan)
    ensures p.Sane()
  {
    if ops == [] then Plan(size, 0, 0, 0)
    else
      var (prev, last) := (Planned(size, ops[..|ops| - 1]), ops[|ops| - 1]);
      if last.Merge? then Merged(prev, |last.data|) else Appended(Rotated(prev, last.n), |last.data|)
  }

  /** Every shift in place is paid for by bytes taken since the one before: over a
      whole run no more bytes are shifted than are taken. */
  lemma {:induction false} ShiftsPaid(size: nat, ops: seq<Op>)
    ensures var p := Planned(size, ops);
            p.offset - p.used == |Given(ops)| - Consumed(ops) && p.moved + p.used <= Consumed(ops)
  {
    if ops != [] {
      ShiftsPaid(size, ops[..|ops| - 1]);
    }
  }

  /** Never more than `most` bytes are outstanding. */
  ghost predicate AtMost(ops: seq<Op>, most: nat)
  {
    |Given(ops)| - Consumed(ops) <= most && (ops != [] ==> AtMost(ops[..|ops| - 1], most))
  }

  /** However long a run is, its buffer stays within four times what was outstanding
      at most, unless it was larger to begin with. */
  lemma {:induction false} CapBounded(size: nat, ops: seq<Op>, most: nat)
    requires AtMost(ops, most)
    ensures size <= Planned(size, ops).cap <= Max(size, 4 * most)
  {
    if ops != [] {
      CapBounded(size, ops[..|ops| - 1], most);
      ShiftsPaid(size, ops);
    }
  }

  /** What the run says of the cache. */
  ghost predicate Follows(c: StreamCache, size: nat, ops: seq<Op>)
    reads c
  {
    && c.given == Given(ops) && c.taken == Given(ops)[..Consumed(ops)] && c.Numbers() == Planned(size, ops)
  }

  method Step(c: StreamCache, op: Op, ghost size: nat, ghost ops: seq<Op>)
    requires c.Valid() && Follows(c, size, ops)
    modifies c, c.buffer
    ensures c.Valid() && fresh({c.buffer} - {old(c.buffer)}) && Follows(c, size, ops + [op])
  {
    hide Holds;
    assert (ops + [op])[..|ops|] == ops;
    ShiftsPaid(size, ops);
    match op {
      case Merge(data) => var _ := c.Merge(data);
      case Rotate(n, data) => c.Rotate(n, data);
    }
  }

  /** Every run: the queue is what was given less what the Rotate counts took,
      however often the buffer was shifted or replaced; and no more bytes were
      shifted in place than were taken. */
  method Run(size: nat, ops: seq<Op>) returns (c: StreamCache)
    ensures fresh(c) && fresh(c.buffer) && c.Valid() && Follows(c, size, ops)
    ensures c.Bytes() == Given(ops)[Consumed(ops)..] && c.moved <= Consumed(ops)
    ensures forall most: nat :: AtMost(ops, most) ==> c.cap <= Max(size, 4 * most)
  {
    hide Given, Consumed, Planned, Holds;
    c := new StreamCache(size);
    NothingYet(c, size);
    var i := 0;
    assert ops[..0] == [];
    while i < |ops|
      invariant 0 <= i <= |ops| && fresh(c) && fresh(c.buffer) && c.Valid() && Follows(c, size, ops[..i])
    {
      assert ops[..i + 1] == ops[..i] + [ops[i]];
      Step(c, ops[i], size, ops[..i]);
      i := i + 1;
    }
    assert ops[..|ops|] == ops;
    ShiftsPaid(size, ops);
    forall most: nat | AtMost(ops, most)
      ensures c.cap <= Max(size, 4 * most)
    {
      CapBounded(size, ops, most);
    }
    Queue(c.buffer[..], c.used, c.offset, c.given, c.taken);
  }

  lemma NothingYet(c: StreamCache, size: nat)
    requires c.given == [] && c.taken == [] && c.Numbers() == Plan(size, 0, 0, 0)
    ensures Follows(c, size, [])
  {
  }
}
