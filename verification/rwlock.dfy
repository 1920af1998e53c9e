/** The ticket read/write lock: three 8-bit counters in one word, shared by up to
    255 threads, as a step relation over all interleavings. */
module RwLock {
  import opened Words

  /** The lock word: releases so far, admissions so far, tickets so far. */
  datatype Word = Word(wr: U8, rd: U8, tkt: U8)

  /** Where a thread is. Tickets are unbounded; the code sees them modulo 256. */
  datatype Local =
    | Idle
    | WaitWrite(t: nat)
    | HoldWrite(t: nat)
    | Unlocking(t: nat, wr: U8, rd: U8)
    | WaitRead(t: nat)
    | SeenRead(t: nat)
    | HoldRead
    | TryWrite(tkt: U8)
    | TryRead(wr: U8, tkt: U8)

  /** The word and the threads, with the unbounded counters behind the word, the
      owner of each ticket, and the tickets in the order they were admitted. */
  datatype State = State(word: Word, threads: seq<Local>, wr: nat, rd: nat, owner: seq<nat>, admitted: seq<nat>) {
    function Tkt(): (n: nat) { |owner| }
  }

  /** One atomic access to the lock word. */
  datatype Action =
    | TakeWrite | EnterWrite | LoadUnlock | StoreUnlock | Downgrade
    | TakeRead | SeeRead | StoreRead | ReadUnlock
    | LoadTryWrite | SwapTryWrite | LoadTryRead | SwapTryRead

  function Inc(x: U8): (y: U8) { Wrap8(x + 1) }

  /** What thread state i allows, looking only at 8-bit values. */
  predicate Enabled(s: State, i: nat, a: Action)
    requires i < |s.threads|
  {
    var l := s.threads[i];
    match a
    case TakeWrite => l.Idle?
    case EnterWrite => l.WaitWrite? && s.word.wr == Wrap8(l.t) && s.word.rd == Wrap8(l.t)
    case LoadUnlock => l.HoldWrite?
    case StoreUnlock => l.Unlocking?
    case Downgrade => l.HoldWrite?
    case TakeRead => l.Idle?
    case SeeRead => l.WaitRead? && s.word.rd == Wrap8(l.t)
    case StoreRead => l.SeenRead?
    case ReadUnlock => l.HoldRead?
    case LoadTryWrite => l.Idle?
    case SwapTryWrite => l.TryWrite?
    case LoadTryRead => l.Idle?
    case SwapTryRead => l.TryRead?
  }

  function Apply(s: State, i: nat, a: Action): (r: State)
    requires i < |s.threads| && Enabled(s, i, a)
  {
    var l := s.threads[i];
    var w := s.word;
    match a
    case TakeWrite =>
      s.(word := w.(tkt := Inc(w.tkt)), threads := s.threads[i := WaitWrite(s.Tkt())], owner := s.owner + [i])
    case EnterWrite =>
      s.(threads := s.threads[i := HoldWrite(l.t)], admitted := s.admitted + [l.t])
    case LoadUnlock =>
      s.(threads := s.threads[i := Unlocking(l.t, w.wr, w.rd)])
    case StoreUnlock =>
      s.(word := w.(wr := Inc(l.wr), rd := Inc(l.rd)), threads := s.threads[i := Idle], wr := s.wr + 1, rd := s.rd + 1)
    case Downgrade =>
      s.(word := w.(rd := Inc(w.rd)), threads := s.threads[i := HoldRead], rd := s.rd + 1)
    case TakeRead =>
      s.(word := w.(tkt := Inc(w.tkt)), threads := s.threads[i := WaitRead(s.Tkt())], owner := s.owner + [i])
    case SeeRead =>
      s.(threads := s.threads[i := SeenRead(l.t)], admitted := s.admitted + [l.t])
    case StoreRead =>
      s.(word := w.(rd := Wrap8(l.t + 1)), threads := s.threads[i := HoldRead], rd := s.rd + 1)
    case ReadUnlock =>
      s.(word := w.(wr := Inc(w.wr)), threads := s.threads[i := Idle], wr := s.wr + 1)
    case LoadTryWrite =>
      s.(threads := s.threads[i := TryWrite(w.tkt)])
    case SwapTryWrite =>
      if w == Word(l.tkt, l.tkt, l.tkt) then
        s.(word := w.(tkt := Inc(l.tkt)), threads := s.threads[i := HoldWrite(s.Tkt())],
           owner := s.owner + [i], admitted := s.admitted + [s.Tkt()])
      else s.(threads := s.threads[i := Idle])
    case LoadTryRead =>
      s.(threads := s.threads[i := TryRead(w.wr, w.tkt)])
    case SwapTryRead =>
      if w == Word(l.wr, l.tkt, l.tkt) then
        s.(word := w.(rd := Inc(l.tkt), tkt := Inc(l.tkt)), threads := s.threads[i := HoldRead],
           rd := s.rd + 1, owner := s.owner + [i], admitted := s.admitted + [s.Tkt()])
      else s.(threads := s.threads[i := Idle])
  }

  function Init(n: nat): (s: State)
  {
    State(Word(0, 0, 0), seq(n, _ => Idle), 0, 0, [], [])
  }

  /** Any interleaving: each entry names a thread and what it does next. */
  function Exec(s: State, steps: seq<(nat, Action)>): (r: State)
    decreases |steps|
  {
    if steps == [] then s
    else
      var (i, a) := steps[0];
      Exec(if i < |s.threads| && Enabled(s, i, a) then Apply(s, i, a) else s, steps[1..])
  }

  // ------------------------------------------------------------------
  // Counting threads

  predicate Reads(l: Local) { l.HoldRead? }

  /** Waiting for the lock or holding it. */
  predicate Engaged(l: Local) { !l.Idle? && !l.TryWrite? && !l.TryRead? }

  function One(b: bool): (n: nat) { if b then 1 else 0 }

  function CountReads(ts: seq<Local>): (n: nat)
    ensures n <= |ts|
  {
    if ts == [] then 0 else One(Reads(ts[0])) + CountReads(ts[1..])
  }

  function CountEngaged(ts: seq<Local>): (n: nat)
    ensures n <= |ts|
  {
    if ts == [] then 0 else One(Engaged(ts[0])) + CountEngaged(ts[1..])
  }

  lemma {:induction false} CountUpdate(ts: seq<Local>, i: nat, l: Local)
    requires i < |ts|
    ensures CountReads(ts[i := l]) == CountReads(ts) - One(Reads(ts[i])) + One(Reads(l))
    ensures CountEngaged(ts[i := l]) == CountEngaged(ts) - One(Engaged(ts[i])) + One(Engaged(l))
  {
    var us := ts[i := l];
    if i == 0 {
      assert us[1..] == ts[1..];
    } else {
      assert us[1..] == ts[1..][i - 1 := l];
      CountUpdate(ts[1..], i - 1, l);
    }
  }

  lemma {:induction false} CountNone(n: nat)
    ensures CountReads(seq(n, _ => Idle)) == 0 && CountEngaged(seq(n, _ => Idle)) == 0
  {
    if n > 0 {
      assert seq(n, _ => Idle)[1..] == seq(n - 1, _ => Idle);
      CountNone(n - 1);
    }
  }

  // ------------------------------------------------------------------
  // The invariant

  predicate Ticketed(l: Local) { l.WaitWrite? || l.HoldWrite? || l.Unlocking? || l.WaitRead? || l.SeenRead? }

  /** Past the gate, but the admission counter does not show it yet. */
  predicate Entering(l: Local) { l.HoldWrite? || l.Unlocking? || l.SeenRead? }

  ghost predicate LocalInv(s: State, i: nat)
    requires i < |s.threads|
  {
    var l := s.threads[i];
    && (Ticketed(l) ==> s.rd <= l.t < s.Tkt() && s.owner[l.t] == i)
    && (Entering(l) ==> l.t == s.rd && |s.admitted| == s.rd + 1)
    && (l.HoldWrite? || l.Unlocking? ==> s.wr == s.rd)
    && (l.Unlocking? ==> l.wr == s.word.wr && l.rd == s.word.rd)
  }

  /** The owner of an outstanding ticket is using it. */
  ghost predicate Owned(s: State, t: nat)
    requires t < s.Tkt()
  {
    var i := s.owner[t];
    i < |s.threads| && Ticketed(s.threads[i]) && s.threads[i].t == t
  }

  ghost predicate Inv(s: State)
  {
    && |s.threads| <= 255
    && s.wr <= s.rd <= s.Tkt()
    && s.word == Word(Wrap8(s.wr), Wrap8(s.rd), Wrap8(s.Tkt()))
    && CountEngaged(s.threads) == s.Tkt() - s.wr
    && CountReads(s.threads) == s.rd - s.wr
    && (forall i :: 0 <= i < |s.threads| ==> LocalInv(s, i))
    && (forall t :: s.rd <= t < s.Tkt() ==> Owned(s, t))
    && s.rd <= |s.admitted| <= s.rd + 1
    && (forall k :: 0 <= k < |s.admitted| ==> s.admitted[k] == k)
    && (|s.admitted| == s.rd + 1 ==> s.rd < s.Tkt() && Owned(s, s.rd) && Entering(s.threads[s.owner[s.rd]]))
  }

  lemma ByteEqual(x: int, y: int)
    requires -256 < x - y < 256
    ensures Wrap8(x) == Wrap8(y) <==> x == y
  {
  }

  lemma ByteInc(x: nat)
    ensures Inc(Wrap8(x)) == Wrap8(x + 1)
  {
  }

  lemma {:induction false} InitInv(n: nat)
    requires n <= 255
    ensures Inv(Init(n))
  {
    CountNone(n);
  }

  /** Taking a ticket. */
  lemma TakeInv(s: State, i: nat, a: Action)
    requires Inv(s) && i < |s.threads| && Enabled(s, i, a) && (a.TakeWrite? || a.TakeRead?)
    ensures Inv(Apply(s, i, a))
  {
    hide Wrap8, Inc;
    ByteInc(s.Tkt());
    CountUpdate(s.threads, i, Apply(s, i, a).threads[i]);
    var r := Apply(s, i, a);
    forall j | 0 <= j < |r.threads|
      ensures LocalInv(r, j)
    {
      assert LocalInv(s, j) && LocalInv(s, i);
    }
    forall t | r.rd <= t < r.Tkt()
      ensures Owned(r, t)
    {
      assert t == s.Tkt() || Owned(s, t);
    }
  }

  /** Passing the gate with a ticket: the byte comparison admits only the ticket
      whose turn it is. */
  lemma EnterInv(s: State, i: nat, a: Action)
    requires Inv(s) && i < |s.threads| && Enabled(s, i, a) && (a.EnterWrite? || a.SeeRead?)
    ensures Inv(Apply(s, i, a))
  {
    hide Wrap8, Inc;
    var l := s.threads[i];
    assert LocalInv(s, i);
    assert s.Tkt() - s.wr <= 255;
    ByteEqual(l.t, s.rd);
    ByteEqual(l.t, s.wr);
    CountUpdate(s.threads, i, Apply(s, i, a).threads[i]);
    var r := Apply(s, i, a);
    forall j | 0 <= j < |r.threads|
      ensures LocalInv(r, j)
    {
      assert LocalInv(s, j) && LocalInv(s, i);
    }
    forall t | r.rd <= t < r.Tkt()
      ensures Owned(r, t)
    {
      assert t == s.Tkt() || Owned(s, t);
    }
  }

  /** The ticket whose turn it is is used up. */
  lemma AdmitInv(s: State, i: nat, a: Action)
    requires Inv(s) && i < |s.threads| && Enabled(s, i, a) && (a.StoreUnlock? || a.Downgrade? || a.StoreRead?)
    ensures Inv(Apply(s, i, a))
  {
    hide Wrap8, Inc;
    assert LocalInv(s, i);
    ByteInc(s.rd);
    ByteInc(s.wr);
    CountUpdate(s.threads, i, Apply(s, i, a).threads[i]);
    var r := Apply(s, i, a);
    forall j | 0 <= j < |r.threads|
      ensures LocalInv(r, j)
    {
      assert LocalInv(s, j) && LocalInv(s, i);
    }
    forall t | r.rd <= t < r.Tkt()
      ensures Owned(r, t)
    {
      assert t == s.Tkt() || Owned(s, t);
    }
  }

  /** A reader leaves; it cannot have shared the lock with a writer. */
  lemma LeaveInv(s: State, i: nat)
    requires Inv(s) && i < |s.threads| && Enabled(s, i, ReadUnlock)
    ensures Inv(Apply(s, i, ReadUnlock))
  {
    hide Wrap8, Inc;
    ByteInc(s.wr);
    CountUpdate(s.threads, i, Idle);
    var r := Apply(s, i, ReadUnlock);
    forall j | 0 <= j < |r.threads|
      ensures LocalInv(r, j)
    {
      assert LocalInv(s, j) && LocalInv(s, i);
    }
    forall t | r.rd <= t < r.Tkt()
      ensures Owned(r, t)
    {
      assert t == s.Tkt() || Owned(s, t);
    }
  }

  /** Loads that precede a store or a compare-and-swap. */
  lemma LoadInv(s: State, i: nat, a: Action)
    requires Inv(s) && i < |s.threads| && Enabled(s, i, a) && (a.LoadUnlock? || a.LoadTryWrite? || a.LoadTryRead?)
    ensures Inv(Apply(s, i, a))
  {
    hide Wrap8, Inc;
    assert LocalInv(s, i);
    CountUpdate(s.threads, i, Apply(s, i, a).threads[i]);
    var r := Apply(s, i, a);
    forall j | 0 <= j < |r.threads|
      ensures LocalInv(r, j)
    {
      assert LocalInv(s, j) && LocalInv(s, i);
    }
    forall t | r.rd <= t < r.Tkt()
      ensures Owned(r, t)
    {
      assert t == s.Tkt() || Owned(s, t);
    }
  }

  /** A compare-and-swap that fails changes nothing but its thread. */
  lemma SwapFails(s: State, i: nat, r: State)
    requires Inv(s) && i < |s.threads| && (s.threads[i].TryWrite? || s.threads[i].TryRead?)
    requires r == s.(threads := s.threads[i := Idle])
    ensures Inv(r)
  {
    hide Wrap8;
    CountUpdate(s.threads, i, Idle);
    forall j | 0 <= j < |r.threads|
      ensures LocalInv(r, j)
    {
      assert LocalInv(s, j);
    }
    forall t | r.rd <= t < r.Tkt()
      ensures Owned(r, t)
    {
      assert Owned(s, t);
    }
  }

  /** One that succeeds finds nobody waiting, and no writer: whatever happened
      since the load, no outstanding ticket fits 256 others. */
  lemma SwapFinds(s: State, i: nat)
    requires Inv(s) && i < |s.threads| && (s.threads[i].TryWrite? || s.threads[i].TryRead?)
    ensures s.word.rd == s.word.tkt <==> s.rd == s.Tkt()
    ensures s.word.wr == s.word.tkt <==> s.wr == s.Tkt()
    ensures s.rd == s.Tkt() ==> forall j :: 0 <= j < |s.threads| ==> !Ticketed(s.threads[j])
  {
    CountUpdate(s.threads, i, HoldRead);
    ByteEqual(s.Tkt(), s.rd);
    ByteEqual(s.Tkt(), s.wr);
    if s.rd == s.Tkt() {
      forall j | 0 <= j < |s.threads|
        ensures !Ticketed(s.threads[j])
      {
        assert LocalInv(s, j);
      }
    }
  }

  lemma SwapInv(s: State, i: nat, a: Action)
    requires Inv(s) && i < |s.threads| && Enabled(s, i, a) && (a.SwapTryWrite? || a.SwapTryRead?)
    ensures Inv(Apply(s, i, a))
  {
    hide Wrap8, Inc;
    var r := Apply(s, i, a);
    if r == s.(threads := s.threads[i := Idle]) {
      SwapFails(s, i, r);
    } else {
      SwapFinds(s, i);
      CountUpdate(s.threads, i, r.threads[i]);
      ByteInc(s.Tkt());
      ByteInc(s.rd);
    }
  }

  lemma StepInv(s: State, i: nat, a: Action)
    requires Inv(s) && i < |s.threads| && Enabled(s, i, a)
    ensures Inv(Apply(s, i, a))
  {
    hide Inv, Apply;
    match a
    case TakeWrite => TakeInv(s, i, a);
    case TakeRead => TakeInv(s, i, a);
    case EnterWrite => EnterInv(s, i, a);
    case SeeRead => EnterInv(s, i, a);
    case StoreUnlock => AdmitInv(s, i, a);
    case Downgrade => AdmitInv(s, i, a);
    case StoreRead => AdmitInv(s, i, a);
    case ReadUnlock => LeaveInv(s, i);
    case LoadUnlock => LoadInv(s, i, a);
    case LoadTryWrite => LoadInv(s, i, a);
    case LoadTryRead => LoadInv(s, i, a);
    case SwapTryWrite => SwapInv(s, i, a);
    case SwapTryRead => SwapInv(s, i, a);
  }

  lemma {:induction false} ExecInv(s: State, steps: seq<(nat, Action)>)
    requires Inv(s)
    ensures Inv(Exec(s, steps))
    decreases |steps|
  {
    hide Inv, Apply, Enabled;
    if steps != [] {
      var (i, a) := steps[0];
      if i < |s.threads| && Enabled(s, i, a) {
        StepInv(s, i, a);
        ExecInv(Apply(s, i, a), steps[1..]);
      } else {
        ExecInv(s, steps[1..]);
      }
    }
  }

  // ------------------------------------------------------------------
  // What the lock promises

  predicate Writes(l: Local) { l.HoldWrite? || l.Unlocking? }

  /** A writer excludes every other writer and every reader. */
  ghost predicate Exclusive(s: State)
  {
    forall i, j :: 0 <= i < |s.threads| && 0 <= j < |s.threads| && i != j &&
                   (s.threads[i].HoldWrite? || s.threads[i].Unlocking?) ==>
      !s.threads[j].HoldWrite? && !s.threads[j].Unlocking? && !s.threads[j].HoldRead?
  }

  lemma CountReadsPositive(ts: seq<Local>, i: nat)
    requires i < |ts| && Reads(ts[i])
    ensures 0 < CountReads(ts)
  {
    CountUpdate(ts, i, Idle);
  }

  /** What holds in every reachable state: a writer is alone; tickets are
      admitted in the order they were taken; the distance between the ticket and
      release bytes is the number of threads waiting or holding; and the bytes
      are the unbounded counters modulo 256. */
  ghost predicate Promise(s: State)
  {
    && Exclusive(s)
    && (forall k :: 0 <= k < |s.admitted| ==> s.admitted[k] == k)
    && Wrap8(s.word.tkt - s.word.wr) == CountEngaged(s.threads) == s.Tkt() - s.wr
    && s.word == Word(Wrap8(s.wr), Wrap8(s.rd), Wrap8(s.Tkt()))
  }

  lemma InvPromises(s: State)
    requires Inv(s)
    ensures Promise(s)
  {
    hide Wrap8;
    forall i, j | 0 <= i < |s.threads| && 0 <= j < |s.threads| && i != j && Writes(s.threads[i])
      ensures !Writes(s.threads[j]) && !Reads(s.threads[j])
    {
      assert LocalInv(s, i) && LocalInv(s, j);
      if Reads(s.threads[j]) {
        CountReadsPositive(s.threads, j);
      }
    }
    ByteDifference(s.Tkt(), s.wr);
  }

  lemma ByteDifference(x: int, y: int)
    requires 0 <= x - y < 256
    ensures Wrap8(Wrap8(x) - Wrap8(y)) == x - y
  {
  }

  /** For every interleaving of up to 255 threads. */
  lemma {:induction false} MutualExclusion(n: nat, steps: seq<(nat, Action)>)
    requires n <= 255
    ensures Promise(Exec(Init(n), steps))
  {
    hide Inv, Exec, Promise;
    InitInv(n);
    ExecInv(Init(n), steps);
    InvPromises(Exec(Init(n), steps));
  }

  /** `exa_write_locked` and `exa_read_locked` */
  predicate WriteLocked(w: Word) { w.tkt != w.wr && w.wr == w.rd }

  predicate ReadLocked(w: Word) { Inc(w.tkt) != w.rd && w.rd != w.wr }

  /** The assertions in unlock and downgrade never fail. */
  lemma AssertionsHold(s: State, i: nat)
    requires Inv(s) && i < |s.threads|
    ensures Writes(s.threads[i]) ==> WriteLocked(s.word)
    ensures Reads(s.threads[i]) ==> ReadLocked(s.word)
  {
    assert LocalInv(s, i);
    hide Wrap8, Inc;
    ByteEqual(s.Tkt(), s.wr);
    ByteEqual(s.rd, s.wr);
    if Reads(s.threads[i]) {
      CountReadsPositive(s.threads, i);
      ByteInc(s.Tkt());
      ByteEqual(s.Tkt() + 1, s.rd);
    }
  }

  /** Some thread that has or awaits the lock can move, other than by taking a
      ticket: no deadlock. */
  lemma NoDeadlock(s: State)
    requires Inv(s) && s.wr < s.Tkt()
    ensures exists i, a :: 0 <= i < |s.threads| && Engaged(s.threads[i]) && Enabled(s, i, a)
  {
    assert s.rd < s.Tkt() ==> Owned(s, s.rd);
    if s.rd < s.Tkt() && (s.wr == s.rd || !s.threads[s.owner[s.rd]].WaitWrite?) {
      var i := s.owner[s.rd];
      var l := s.threads[i];
      var a := if l.WaitWrite? then EnterWrite else if l.HoldWrite? then LoadUnlock else if l.Unlocking? then StoreUnlock
               else if l.WaitRead? then SeeRead else StoreRead;
      assert Engaged(s.threads[i]) && Enabled(s, i, a);
    } else {
      var i := SomeReader(s.threads);
      assert Engaged(s.threads[i]) && Enabled(s, i, ReadUnlock);
    }
  }

  lemma {:induction false} SomeReader(ts: seq<Local>) returns (i: nat)
    requires 0 < CountReads(ts)
    ensures i < |ts| && Reads(ts[i])
  {
    if Reads(ts[0]) {
      i := 0;
    } else {
      i := SomeReader(ts[1..]);
      i := i + 1;
    }
  }

  // ------------------------------------------------------------------
  // And when it lets a thread in

  /** No thread waits for the lock or holds it. */
  ghost predicate Free(s: State) { forall j :: 0 <= j < |s.threads| ==> !Engaged(s.threads[j]) }

  /** Only readers hold the lock, and nobody waits. */
  ghost predicate Shared(s: State) { forall j :: 0 <= j < |s.threads| && Engaged(s.threads[j]) ==> Reads(s.threads[j]) }

  lemma {:induction false} CountEngagedNone(ts: seq<Local>)
    ensures CountEngaged(ts) == 0 <==> forall j :: 0 <= j < |ts| ==> !Engaged(ts[j])
  {
    if ts != [] {
      CountEngagedNone(ts[1..]);
      assert forall j :: 0 < j < |ts| ==> ts[j] == ts[1..][j - 1];
      assert forall j :: 0 <= j < |ts[1..]| ==> ts[1..][j] == ts[j + 1];
    }
  }

  lemma {:induction false} CountsAgree(ts: seq<Local>)
    ensures CountReads(ts) <= CountEngaged(ts)
    ensures CountReads(ts) == CountEngaged(ts) <==> forall j :: 0 <= j < |ts| && Engaged(ts[j]) ==> Reads(ts[j])
  {
    if ts != [] {
      CountsAgree(ts[1..]);
      assert forall j :: 0 < j < |ts| ==> ts[j] == ts[1..][j - 1];
      assert forall j :: 0 <= j < |ts[1..]| ==> ts[1..][j] == ts[j + 1];
    }
  }

  /** The counters tell both. */
  lemma FreeIff(s: State)
    requires Inv(s)
    ensures Free(s) <==> s.wr == s.Tkt()
    ensures Shared(s) <==> s.rd == s.Tkt()
  {
    CountEngagedNone(s.threads);
    CountsAgree(s.threads);
  }

  /** The tests on the lock word, from the outside and at any time: the one for
      reading tells whether a reader holds the lock, the one for writing whether
      somebody waits or holds and no reader holds. */
  lemma LockedIff(s: State)
    requires Inv(s)
    ensures ReadLocked(s.word) <==> exists j :: 0 <= j < |s.threads| && s.threads[j].HoldRead?
    ensures WriteLocked(s.word) <==> !Free(s) && forall j :: 0 <= j < |s.threads| ==> !s.threads[j].HoldRead?
  {
    hide Wrap8, Inc;
    FreeIff(s);
    CountsAgree(s.threads);
    ByteEqual(s.Tkt(), s.wr);
    ByteEqual(s.rd, s.wr);
    ByteInc(s.Tkt());
    if 0 < CountReads(s.threads) {
      var j := SomeReader(s.threads);
      ByteEqual(s.Tkt() + 1, s.rd);
    }
    forall j | 0 <= j < |s.threads| && s.threads[j].HoldRead?
      ensures 0 < CountReads(s.threads)
    {
      CountReadsPositive(s.threads, j);
    }
  }

  ghost predicate HeldForWriting(s: State)
  {
    exists j :: 0 <= j < |s.threads| && (s.threads[j].HoldWrite? || s.threads[j].Unlocking?)
  }

  /** So the test for writing is right if and only if somebody holds the lock or
      nobody waits for it. */
  lemma WriteLockedIff(s: State)
    requires Inv(s)
    ensures (WriteLocked(s.word) <==> HeldForWriting(s)) <==>
            HeldForWriting(s) || Free(s) || exists j :: 0 <= j < |s.threads| && s.threads[j].HoldRead?
  {
    hide WriteLocked;
    LockedIff(s);
    InvPromises(s);
  }

  /** A reader that has taken the only ticket makes it say that a writer is there. */
  lemma WaitingLooksWritten(s: State, i: nat)
    requires Inv(s) && i < |s.threads| && s.threads[i].Idle? && Free(s)
    ensures var r := Apply(s, i, TakeRead);
            WriteLocked(r.word) && forall j :: 0 <= j < |r.threads| ==> !Reads(r.threads[j]) && !Writes(r.threads[j])
  {
    hide Wrap8;
    FreeIff(s);
    ByteInc(s.Tkt());
    ByteEqual(s.Tkt() + 1, s.wr);
    ByteEqual(s.rd, s.wr);
  }

  /** The swap of the write trylock, whatever happened since the load: it takes the
      lock if and only if it is free and no ticket has been taken since, modulo 256;
      otherwise nothing but the thread changes. */
  lemma TryWriteIff(s: State, i: nat)
    requires Inv(s) && i < |s.threads| && s.threads[i].TryWrite?
    ensures var r, got := Apply(s, i, SwapTryWrite), Free(s) && s.threads[i].tkt == s.word.tkt;
            && r.threads == s.threads[i := if got then HoldWrite(s.Tkt()) else Idle]
            && (!got ==> r == s.(threads := r.threads))
  {
    SwapFinds(s, i);
    FreeIff(s);
  }

  /** The same for the read trylock, which readers do not keep out; a release since
      the load makes it fail. */
  lemma TryReadIff(s: State, i: nat)
    requires Inv(s) && i < |s.threads| && s.threads[i].TryRead?
    ensures var r, l := Apply(s, i, SwapTryRead), s.threads[i];
            var got := Shared(s) && l.tkt == s.word.tkt && l.wr == s.word.wr;
            && r.threads == s.threads[i := if got then HoldRead else Idle]
            && (!got ==> r == s.(threads := r.threads))
  {
    SwapFinds(s, i);
    FreeIff(s);
  }

  lemma ExecTwo(s: State, i: nat, a: Action, b: Action)
    requires i < |s.threads| && Enabled(s, i, a)
    ensures i < |Apply(s, i, a).threads|
    ensures Enabled(Apply(s, i, a), i, b) ==> Exec(s, [(i, a), (i, b)]) == Apply(Apply(s, i, a), i, b)
  {
    hide Enabled, Apply;
    var t := Apply(s, i, a);
    assert [(i, a), (i, b)][1..] == [(i, b)] && [(i, b)][1..] == [];
    assert Exec(t, [(i, b)]) == Exec(if i < |t.threads| && Enabled(t, i, b) then Apply(t, i, b) else t, []);
    SameThreads(s, i, a);
  }

  lemma SameThreads(s: State, i: nat, a: Action)
    requires i < |s.threads| && Enabled(s, i, a)
    ensures |Apply(s, i, a).threads| == |s.threads|
  {
  }

  /** A thread that only tries does not count. */
  lemma TryingIsIdle(s: State, i: nat, l: Local)
    requires i < |s.threads| && s.threads[i].Idle? && !Engaged(l)
    ensures var t := s.(threads := s.threads[i := l]); (Free(t) <==> Free(s)) && (Shared(t) <==> Shared(s))
  {
    var t := s.(threads := s.threads[i := l]);
    assert forall j :: 0 <= j < |s.threads| ==> t.threads[j] == if j == i then l else s.threads[j];
  }

  /** Undisturbed, the trylocks succeed exactly when they may, and one that fails
      leaves everything as it was. */
  lemma TryWriteAlone(s: State, i: nat)
    requires Inv(s) && i < |s.threads| && s.threads[i].Idle?
    ensures var r := Exec(s, [(i, LoadTryWrite), (i, SwapTryWrite)]);
            if Free(s) then r.threads == s.threads[i := HoldWrite(s.Tkt())] else r == s
  {
    hide Inv, Free, Exec;
    var l := TryWrite(s.word.tkt);
    var t := s.(threads := s.threads[i := l]);
    LoadInv(s, i, LoadTryWrite);
    TryWriteIff(t, i);
    TryingIsIdle(s, i, l);
    ExecTwo(s, i, LoadTryWrite, SwapTryWrite);
    assert s.threads[i := l][i := Idle] == s.threads;
  }

  lemma TryReadAlone(s: State, i: nat)
    requires Inv(s) && i < |s.threads| && s.threads[i].Idle?
    ensures var r := Exec(s, [(i, LoadTryRead), (i, SwapTryRead)]);
            if Shared(s) then r.threads == s.threads[i := HoldRead] else r == s
  {
    hide Inv, Shared, Exec;
    var l := TryRead(s.word.wr, s.word.tkt);
    var t := s.(threads := s.threads[i := l]);
    LoadInv(s, i, LoadTryRead);
    TryReadIff(t, i);
    TryingIsIdle(s, i, l);
    ExecTwo(s, i, LoadTryRead, SwapTryRead);
    assert s.threads[i := l][i := Idle] == s.threads;
  }

  lemma ExecOne(s: State, i: nat, a: Action, rest: seq<(nat, Action)>)
    requires i < |s.threads| && Enabled(s, i, a)
    ensures Exec(s, [(i, a)] + rest) == Exec(Apply(s, i, a), rest)
  {
    hide Apply, Enabled;
    assert ([(i, a)] + rest)[1..] == rest;
  }

  /** Undisturbed, a writer gets a free lock at once, and gives it up or keeps it as
      a reader. */
  lemma WriteLockAlone(s: State, i: nat)
    requires Inv(s) && i < |s.threads| && s.threads[i].Idle? && Free(s)
    ensures var r := Exec(s, [(i, TakeWrite), (i, EnterWrite)]);
            Inv(r) && r.threads == s.threads[i := HoldWrite(s.Tkt())]
  {
    hide Exec, Inv;
    var t := Apply(s, i, TakeWrite);
    StepInv(s, i, TakeWrite);
    GateIff(t, i);
    assert Enabled(t, i, EnterWrite);
    StepInv(t, i, EnterWrite);
    ExecTwo(s, i, TakeWrite, EnterWrite);
  }

  lemma WriteUnlock(s: State, i: nat)
    requires Inv(s) && i < |s.threads| && s.threads[i].HoldWrite?
    ensures var r := Exec(s, [(i, LoadUnlock), (i, StoreUnlock)]); Inv(r) && r.threads == s.threads[i := Idle]
    ensures var r := Exec(s, [(i, Downgrade)]); Inv(r) && r.threads == s.threads[i := HoldRead]
  {
    hide Inv;
    var t := Apply(s, i, LoadUnlock);
    StepInv(s, i, LoadUnlock);
    StepInv(t, i, StoreUnlock);
    StepInv(s, i, Downgrade);
    ExecTwo(s, i, LoadUnlock, StoreUnlock);
    ExecOne(s, i, Downgrade, []);
    assert [(i, Downgrade)] + [] == [(i, Downgrade)];
  }

  /** A reader gets the lock at once while only readers hold it. */
  lemma ReadLockAlone(s: State, i: nat)
    requires Inv(s) && i < |s.threads| && s.threads[i].Idle? && Shared(s)
    ensures var r := Exec(s, [(i, TakeRead), (i, SeeRead), (i, StoreRead)]);
            Inv(r) && r.threads == s.threads[i := HoldRead]
  {
    hide Exec, Inv;
    var t := Apply(s, i, TakeRead);
    StepInv(s, i, TakeRead);
    GateIff(t, i);
    assert Enabled(t, i, SeeRead);
    var u := Apply(t, i, SeeRead);
    StepInv(t, i, SeeRead);
    StepInv(u, i, StoreRead);
    ExecTwo(t, i, SeeRead, StoreRead);
    ExecOne(s, i, TakeRead, [(i, SeeRead), (i, StoreRead)]);
    assert [(i, TakeRead)] + [(i, SeeRead), (i, StoreRead)] == [(i, TakeRead), (i, SeeRead), (i, StoreRead)];
  }

  /** Waiting with a later ticket than t. */
  predicate Behind(l: Local, t: nat) { (l.WaitWrite? || l.WaitRead?) && t < l.t }

  /** The gate of a writer opens if and only if nobody holds the lock and nobody
      came before it; that of a reader also while readers hold it. */
  lemma GateIff(s: State, i: nat)
    requires Inv(s) && i < |s.threads|
    ensures s.threads[i].WaitWrite? ==>
              (Enabled(s, i, EnterWrite) <==>
                 forall j :: 0 <= j < |s.threads| && j != i && Engaged(s.threads[j]) ==> Behind(s.threads[j], s.threads[i].t))
    ensures s.threads[i].WaitRead? ==>
              (Enabled(s, i, SeeRead) <==>
                 forall j :: 0 <= j < |s.threads| && j != i && Engaged(s.threads[j]) ==>
                   Reads(s.threads[j]) || Behind(s.threads[j], s.threads[i].t))
  {
    var l := s.threads[i];
    assert LocalInv(s, i);
    if l.WaitWrite? || l.WaitRead? {
      ByteEqual(l.t, s.rd);
      ByteEqual(l.t, s.wr);
      if l.t == s.rd {
        FirstInLine(s, i);
      } else {
        assert Owned(s, s.rd);
      }
      if 0 < CountReads(s.threads) {
        var j := SomeReader(s.threads);
        assert Engaged(s.threads[j]) && j != i;
      }
      forall j | 0 <= j < |s.threads| && Reads(s.threads[j])
        ensures 0 < CountReads(s.threads)
      {
        CountReadsPositive(s.threads, j);
      }
    }
  }

  /** Behind the ticket whose turn it is are all others that hold one. */
  lemma FirstInLine(s: State, i: nat)
    requires Inv(s) && i < |s.threads| && (s.threads[i].WaitWrite? || s.threads[i].WaitRead?) && s.threads[i].t == s.rd
    ensures forall j :: 0 <= j < |s.threads| && j != i && Engaged(s.threads[j]) ==>
              Reads(s.threads[j]) || Behind(s.threads[j], s.threads[i].t)
  {
    assert LocalInv(s, i);
    forall j | 0 <= j < |s.threads| && j != i && Engaged(s.threads[j]) && !Reads(s.threads[j])
      ensures Behind(s.threads[j], s.threads[i].t)
    {
      assert LocalInv(s, j);
    }
  }

  /** How many steps a thread is from having done with the lock, at most. */
  function Remaining(l: Local): (n: nat)
  {
    match l
    case WaitWrite(_) => 4
    case HoldWrite(_) => 3
    case Unlocking(_, _, _) => 1
    case WaitRead(_) => 3
    case SeenRead(_) => 2
    case HoldRead => 1
    case _ => 0
  }

  function Work(ts: seq<Local>): (n: nat)
  {
    if ts == [] then 0 else Remaining(ts[0]) + Work(ts[1..])
  }

  lemma {:induction false} WorkUpdate(ts: seq<Local>, i: nat, l: Local)
    requires i < |ts|
    ensures Work(ts[i := l]) == Work(ts) - Remaining(ts[i]) + Remaining(l)
  {
    var us := ts[i := l];
    if i == 0 {
      assert us[1..] == ts[1..];
    } else {
      assert us[1..] == ts[1..][i - 1 := l];
      WorkUpdate(ts[1..], i - 1, l);
    }
  }

  /** Every step of a thread that waits or holds brings the lock closer to being
      free; with NoDeadlock, it becomes free when no tickets are taken. */
  lemma WorkFalls(s: State, i: nat, a: Action)
    requires Inv(s) && i < |s.threads| && Engaged(s.threads[i]) && Enabled(s, i, a)
    ensures Work(Apply(s, i, a).threads) < Work(s.threads)
  {
    WorkUpdate(s.threads, i, Apply(s, i, a).threads[i]);
  }

  /** From every state the threads under way can run until the lock is free. */
  lemma {:induction false} Drains(s: State) returns (steps: seq<(nat, Action)>)
    requires Inv(s)
    ensures Inv(Exec(s, steps)) && Free(Exec(s, steps))
    decreases Work(s.threads)
  {
    FreeIff(s);
    steps := [];
    if s.wr != s.Tkt() {
      NoDeadlock(s);
      hide Inv, Apply, Enabled, Free, Work;
      var i, a :| 0 <= i < |s.threads| && Engaged(s.threads[i]) && Enabled(s, i, a);
      WorkFalls(s, i, a);
      StepInv(s, i, a);
      steps := Drains(Apply(s, i, a));
      assert ([(i, a)] + steps)[1..] == steps;
      steps := [(i, a)] + steps;
    }
  }

  /** A reader that comes while only readers hold the lock joins them. */
  lemma ReaderJoins(s: State, i: nat)
    requires Inv(s) && i < |s.threads| && s.threads[i].Idle? && Shared(s)
    ensures var r := Exec(s, [(i, LoadTryRead), (i, SwapTryRead)]);
            Inv(r) && Shared(r) && r.threads == s.threads[i := HoldRead]
  {
    hide Inv, Exec;
    TryReadAlone(s, i);
    ExecInv(s, [(i, LoadTryRead), (i, SwapTryRead)]);
    var r := Exec(s, [(i, LoadTryRead), (i, SwapTryRead)]);
    assert forall j :: 0 <= j < |s.threads| ==> r.threads[j] == if j == i then HoldRead else s.threads[j];
  }

  /** Any number of readers hold the lock at once. */
  lemma {:induction false} ReadersShare(n: nat, k: nat) returns (steps: seq<(nat, Action)>)
    requires k <= n <= 255
    ensures var r := Exec(Init(n), steps);
            Inv(r) && Shared(r) && r.threads == seq(n, j => if j < k then HoldRead else Idle)
    decreases k
  {
    if k == 0 {
      InitInv(n);
      steps := [];
      assert Init(n).threads == seq(n, j => if j < k then HoldRead else Idle);
    } else {
      hide Inv, Shared, Apply, Enabled;
      steps := ReadersShare(n, k - 1);
      var s, more := Exec(Init(n), steps), [(k - 1, LoadTryRead), (k - 1, SwapTryRead)];
      ReaderJoins(s, k - 1);
      ExecConcat(Init(n), steps, more);
      steps := steps + more;
      assert s.threads[k - 1 := HoldRead] == seq(n, j => if j < k then HoldRead else Idle);
    }
  }

  lemma {:induction false} ExecConcat(s: State, a: seq<(nat, Action)>, b: seq<(nat, Action)>)
    ensures Exec(s, a + b) == Exec(Exec(s, a), b)
    decreases |a|
  {
    hide Apply, Enabled;
    if a == [] {
      assert a + b == b;
    } else {
      assert (a + b)[1..] == a[1..] + b;
      var (i, x) := a[0];
      ExecConcat(if i < |s.threads| && Enabled(s, i, x) then Apply(s, i, x) else s, a[1..], b);
    }
  }
}
