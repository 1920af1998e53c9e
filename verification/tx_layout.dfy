/** The ExaNIC transmit ring on unbounded sequence numbers: where chunks are
    placed, when the sender must wait, and for what. */
module TxLayout {

  const FEEDBACK_INTERVAL: nat := 512

  /** A chunk handed to the hardware: its place in the buffer, and whether the
      hardware was asked to report when it is done with it. */
  datatype Chunk = Chunk(start: nat, end: nat, requested: bool)

  /** Sequence numbers index `chunks`; entry 0 stands for an empty buffer.
      fb: last feedback seen; hw: last feedback written by the hardware;
      req: last feedback asked for; roll: first chunk of the current lap;
      off: where the next chunk goes. */
  datatype Tx = Tx(chunks: seq<Chunk>, fb: nat, hw: nat, req: nat, roll: nat, off: nat) {
    function Next(): (n: nat) { |chunks| }
  }

  datatype Outcome = Ready | TooLarge | Spinning

  datatype Prepared = Prepared(outcome: Outcome, tx: Tx, need: bool)

  function Init(size: nat): (t: Tx)
  {
    Tx([Chunk(0, size, true)], 0, 0, 0, 1, 0)
  }

  /** `exanic_max_tx_chunk_size` */
  function MaxChunk(size: nat): (n: int) { size / 2 - FEEDBACK_INTERVAL }

  // ------------------------------------------------------------------
  // Steps

  /** The hardware finishes chunk k and reports it, if it was asked to. */
  function Report(t: Tx, k: nat): (u: Tx)
  {
    if t.hw <= k < t.Next() && t.chunks[k].requested then t.(hw := k) else t
  }

  /** The hardware may report chunk k; then the sender reads the feedback slot. */
  function Poll(t: Tx, k: nat): (u: Tx)
  {
    var u := Report(t, k);
    u.(fb := u.hw)
  }

  /** The next chunk of n bytes fits without waiting. */
  predicate Fits(t: Tx, size: nat, n: nat)
    requires t.fb < t.Next()
  {
    if t.roll <= t.fb then t.off + n <= size else t.off + n <= t.chunks[t.fb].end
  }

  /** Starts a new lap if this one has no room and no earlier lap is in flight. */
  function NewLap(t: Tx, size: nat, n: nat): (u: Tx)
  {
    if t.roll <= t.fb && size < t.off + n then t.(off := 0, roll := t.Next()) else t
  }

  /** Spins until a sequence number is free; returns the polls not used. */
  function AwaitSeq(t: Tx, queueLen: nat, polls: seq<nat>): (r: (Tx, seq<nat>))
    ensures r.0.chunks == t.chunks && r.0.req == t.req && |r.1| <= |polls|
    decreases |polls|
  {
    if t.Next() - t.fb < queueLen || polls == [] then (t, polls)
    else AwaitSeq(Poll(t, polls[0]), queueLen, polls[1..])
  }

  /** Spins until there is space for n bytes. */
  function AwaitSpace(t: Tx, size: nat, n: nat, polls: seq<nat>): (r: (Outcome, Tx))
    requires t.fb < t.Next() && t.hw < t.Next()
    ensures r.1.chunks == t.chunks && r.1.req == t.req && r.1.fb < r.1.Next()
    ensures r.0 == Ready ==> Fits(r.1, size, n)
    ensures r.0 == Spinning ==> r.1.fb < r.1.roll && r.1.chunks[r.1.fb].end < r.1.off + n && n <= MaxChunk(size)
    ensures r.0 == TooLarge ==> MaxChunk(size) < n
    decreases |polls|
  {
    var u := NewLap(t, size, n);
    if Fits(u, size, n) then (Ready, u)
    else if MaxChunk(size) < n then (TooLarge, u)
    else if polls == [] then (Spinning, u)
    else AwaitSpace(Poll(u, polls[0]), size, n, polls[1..])
  }

  /** Feedback is requested when the last request was too long ago, counted in
      sequence numbers, in laps or in bytes. */
  predicate NeedsFeedback(t: Tx, queueLen: nat, n: nat)
    requires t.req < t.Next()
  {
    || t.Next() - t.req > queueLen / 2
    || t.req < t.roll
    || t.off + n - t.chunks[t.req].end > FEEDBACK_INTERVAL
  }

  /** `exanic_prepare_tx_chunk`, given what the hardware reports on each poll. */
  function Prepare(t: Tx, size: nat, queueLen: nat, n: nat, polls: seq<nat>): (p: Prepared)
    requires Inv(t, size, queueLen)
  {
    var (u, rest) := AwaitSeq(t, queueLen, polls);
    AwaitSeqInv(t, size, queueLen, polls);
    if u.Next() - u.fb >= queueLen then Prepared(Spinning, u, false)
    else
      var (outcome, v) := AwaitSpace(u, size, n, rest);
      AwaitSpaceInv(u, size, queueLen, n, rest);
      Prepared(outcome, v, outcome == Ready && NeedsFeedback(v, queueLen, n))
  }

  /** `exanic_send_tx_chunk` */
  function Send(t: Tx, n: nat, need: bool): (u: Tx)
  {
    t.(chunks := t.chunks + [Chunk(t.off, t.off + n, need)],
       off := t.off + n,
       req := if need then t.Next() else t.req)
  }

  // ------------------------------------------------------------------
  // What every step keeps

  ghost predicate Inv(t: Tx, size: nat, queueLen: nat)
  {
    && Laid(t, size)
    && t.fb <= t.hw <= t.req < t.Next()
    && t.chunks[t.hw].requested && t.chunks[t.req].requested
    && (forall k :: t.req < k < t.Next() ==> !t.chunks[k].requested)
    && t.Next() - t.fb <= queueLen
  }

  /** The chunks not known to be finished lie one after another: those of the
      current lap end by `off`; those of the lap before start beyond it. */
  ghost predicate Laid(t: Tx, size: nat)
  {
    && t.fb < t.Next() && t.roll <= t.Next() && t.off <= size
    && 64 * (t.Next() - t.roll) <= t.off
    && (forall k :: t.fb <= k < t.Next() ==> t.chunks[k].start <= t.chunks[k].end <= size)
    && (forall j, k :: t.fb <= j < k < t.Next() && (k < t.roll || t.roll <= j) ==> t.chunks[j].end <= t.chunks[k].start)
    && (forall k :: t.fb <= k < t.Next() && t.roll <= k ==> t.chunks[k].end <= t.off)
    && (t.fb < t.roll ==> t.off <= t.chunks[t.fb].end)
  }

  lemma InitInv(size: nat, queueLen: nat)
    requires 1 <= queueLen
    ensures Inv(Init(size), size, queueLen)
  {
  }

  lemma ReportInv(t: Tx, size: nat, queueLen: nat, k: nat)
    requires Inv(t, size, queueLen)
    ensures Inv(Report(t, k), size, queueLen)
  {
  }

  lemma PollInv(t: Tx, size: nat, queueLen: nat, k: nat)
    requires Inv(t, size, queueLen)
    ensures Inv(Poll(t, k), size, queueLen)
  {
    var u := Report(t, k);
    assert t.fb < u.hw < t.roll ==> t.chunks[t.fb].end <= t.chunks[u.hw].start;
  }

  lemma NewLapInv(t: Tx, size: nat, queueLen: nat, n: nat)
    requires Inv(t, size, queueLen)
    ensures Inv(NewLap(t, size, n), size, queueLen)
  {
  }

  lemma {:induction false} AwaitSeqInv(t: Tx, size: nat, queueLen: nat, polls: seq<nat>)
    requires Inv(t, size, queueLen)
    ensures Inv(AwaitSeq(t, queueLen, polls).0, size, queueLen)
    decreases |polls|
  {
    if t.Next() - t.fb >= queueLen && polls != [] {
      PollInv(t, size, queueLen, polls[0]);
      AwaitSeqInv(Poll(t, polls[0]), size, queueLen, polls[1..]);
    }
  }

  lemma {:induction false} AwaitSpaceInv(t: Tx, size: nat, queueLen: nat, n: nat, polls: seq<nat>)
    requires Inv(t, size, queueLen)
    ensures Inv(AwaitSpace(t, size, n, polls).1, size, queueLen)
    ensures AwaitSpace(t, size, n, polls).1.fb >= t.fb
    decreases |polls|
  {
    hide Laid;
    var u := NewLap(t, size, n);
    NewLapInv(t, size, queueLen, n);
    if !Fits(u, size, n) && n <= MaxChunk(size) && polls != [] {
      PollInv(u, size, queueLen, polls[0]);
      AwaitSpaceInv(Poll(u, polls[0]), size, queueLen, n, polls[1..]);
    }
  }

  lemma SendLaid(t: Tx, size: nat, n: nat, need: bool)
    requires Laid(t, size) && Fits(t, size, n) && 64 <= n
    ensures Laid(Send(t, n, need), size)
  {
    var u := Send(t, n, need);
    assert forall k :: 0 <= k < t.Next() ==> u.chunks[k] == t.chunks[k];
  }

  lemma SendInv(t: Tx, size: nat, queueLen: nat, n: nat, need: bool)
    requires Inv(t, size, queueLen) && Fits(t, size, n) && 64 <= n && t.Next() - t.fb < queueLen
    ensures Inv(Send(t, n, need), size, queueLen)
  {
    hide Laid, Fits;
    SendLaid(t, size, n, need);
    var u := Send(t, n, need);
    assert forall k :: 0 <= k < t.Next() ==> u.chunks[k] == t.chunks[k];
  }

  // ------------------------------------------------------------------
  // Safety

  /** The space offered lies in the buffer and meets no chunk that the hardware
      may still be reading. */
  ghost predicate Free(t: Tx, size: nat, n: nat)
  {
    && t.off + n <= size
    && forall k :: t.hw < k < t.Next() ==> t.chunks[k].end <= t.off || t.off + n <= t.chunks[k].start
  }

  lemma FitsIsFree(t: Tx, size: nat, queueLen: nat, n: nat)
    requires Inv(t, size, queueLen) && Fits(t, size, n)
    ensures Free(t, size, n)
  {
  }

  lemma PrepareInv(t: Tx, size: nat, queueLen: nat, n: nat, polls: seq<nat>)
    requires Inv(t, size, queueLen)
    ensures var p := Prepare(t, size, queueLen, n, polls);
            && Inv(p.tx, size, queueLen)
            && (p.outcome == Ready ==> Fits(p.tx, size, n) && p.tx.Next() - p.tx.fb < queueLen)
            && (p.outcome == Ready ==> p.need == NeedsFeedback(p.tx, queueLen, n))
  {
    hide Laid;
    var (u, rest) := AwaitSeq(t, queueLen, polls);
    AwaitSeqInv(t, size, queueLen, polls);
    if u.Next() - u.fb < queueLen {
      AwaitSpaceInv(u, size, queueLen, n, rest);
    }
  }

  // ------------------------------------------------------------------
  // Progress

  /** The last request is recent: at most half the sequence numbers and at most
      FEEDBACK_INTERVAL bytes ago, or right before a lap that has just begun and
      far enough into the buffer for any chunk of permitted size. */
  ghost predicate Progressive(t: Tx, size: nat, queueLen: nat)
    requires t.req < t.Next()
  {
    && t.Next() - t.req <= queueLen / 2 + 1
    && if t.roll <= t.req then t.off <= t.chunks[t.req].end + FEEDBACK_INTERVAL
       else t.roll == t.Next() && t.off == 0 && MaxChunk(size) <= t.chunks[t.req].end
  }

  lemma InitProgressive(size: nat, queueLen: nat)
    ensures Progressive(Init(size), size, queueLen)
  {
  }

  lemma PollProgressive(t: Tx, size: nat, queueLen: nat, k: nat)
    requires Inv(t, size, queueLen) && Progressive(t, size, queueLen)
    ensures Progressive(Poll(t, k), size, queueLen)
  {
  }

  lemma {:induction false} AwaitSeqProgressive(t: Tx, size: nat, queueLen: nat, polls: seq<nat>)
    requires Inv(t, size, queueLen) && Progressive(t, size, queueLen)
    ensures Progressive(AwaitSeq(t, queueLen, polls).0, size, queueLen)
    decreases |polls|
  {
    hide Laid;
    if t.Next() - t.fb >= queueLen && polls != [] {
      PollInv(t, size, queueLen, polls[0]);
      PollProgressive(t, size, queueLen, polls[0]);
      AwaitSeqProgressive(Poll(t, polls[0]), size, queueLen, polls[1..]);
    }
  }

  /** Starting a lap is harmless if the chunk then fits or is of permitted size. */
  lemma NewLapProgressive(t: Tx, size: nat, queueLen: nat, n: nat)
    requires Inv(t, size, queueLen) && Progressive(t, size, queueLen)
    requires Fits(NewLap(t, size, n), size, n) || n <= MaxChunk(size)
    ensures Progressive(NewLap(t, size, n), size, queueLen)
  {
  }

  lemma {:induction false} AwaitSpaceProgressive(t: Tx, size: nat, queueLen: nat, n: nat, polls: seq<nat>)
    requires Inv(t, size, queueLen) && Progressive(t, size, queueLen)
    ensures var (outcome, u) := AwaitSpace(t, size, n, polls);
            outcome != TooLarge ==> u.req < u.Next() && Progressive(u, size, queueLen)
    decreases |polls|
  {
    hide Laid;
    var u := NewLap(t, size, n);
    NewLapInv(t, size, queueLen, n);
    if Fits(u, size, n) || n <= MaxChunk(size) {
      NewLapProgressive(t, size, queueLen, n);
      if !Fits(u, size, n) && polls != [] {
        PollInv(u, size, queueLen, polls[0]);
        PollProgressive(u, size, queueLen, polls[0]);
        AwaitSpaceProgressive(Poll(u, polls[0]), size, queueLen, n, polls[1..]);
      }
    }
  }

  /** Whenever prepare is left spinning, some feedback that was requested has not
      arrived yet: it never waits for feedback nobody asked for. */
  lemma PrepareProgress(t: Tx, size: nat, queueLen: nat, n: nat, polls: seq<nat>)
    requires Inv(t, size, queueLen) && Progressive(t, size, queueLen) && 4 <= queueLen
    ensures var p := Prepare(t, size, queueLen, n, polls);
            && (p.outcome != TooLarge ==> p.tx.req < p.tx.Next() && Progressive(p.tx, size, queueLen))
            && (p.outcome == Spinning ==> p.tx.fb < p.tx.req)
  {
    hide Laid;
    var (u, rest) := AwaitSeq(t, queueLen, polls);
    AwaitSeqInv(t, size, queueLen, polls);
    AwaitSeqProgressive(t, size, queueLen, polls);
    if u.Next() - u.fb < queueLen {
      AwaitSpaceInv(u, size, queueLen, n, rest);
      AwaitSpaceProgressive(u, size, queueLen, n, rest);
    }
  }

  /** Once the last request is answered, nothing of permitted size has to wait. */
  lemma AnsweredFits(t: Tx, size: nat, queueLen: nat, n: nat)
    requires Inv(t, size, queueLen) && Progressive(t, size, queueLen) && t.fb == t.req && n <= MaxChunk(size)
    ensures Fits(NewLap(t, size, n), size, n)
  {
  }

  lemma PollAnswers(t: Tx, size: nat, queueLen: nat)
    requires Inv(t, size, queueLen)
    ensures Poll(t, t.req) == t.(hw := t.req, fb := t.req)
  {
  }

  lemma ArrivalMakesRoom(t: Tx, size: nat, queueLen: nat, n: nat, polls: seq<nat>)
    requires Inv(t, size, queueLen) && Progressive(t, size, queueLen) && n <= MaxChunk(size)
    requires polls == [t.req] || t.fb == t.req
    ensures AwaitSpace(t, size, n, polls).0 == Ready
  {
    hide Laid, Progressive, Poll;
    var u := NewLap(t, size, n);
    NewLapInv(t, size, queueLen, n);
    if t.fb == t.req {
      AnsweredFits(t, size, queueLen, n);
    } else if !Fits(u, size, n) {
      NewLapProgressive(t, size, queueLen, n);
      PollAnswers(u, size, queueLen);
      PollInv(u, size, queueLen, t.req);
      PollProgressive(u, size, queueLen, t.req);
      AnsweredFits(Poll(u, t.req), size, queueLen, n);
      assert polls[1..] == [];
    }
  }

  /** The arrival of the last requested feedback lets any chunk of permitted size
      be prepared. */
  lemma ArrivalFinishes(t: Tx, size: nat, queueLen: nat, n: nat)
    requires Inv(t, size, queueLen) && Progressive(t, size, queueLen) && 4 <= queueLen && n <= MaxChunk(size)
    ensures Prepare(t, size, queueLen, n, [t.req]).outcome == Ready
  {
    hide Laid, Poll, AwaitSpace, NeedsFeedback;
    PollAnswers(t, size, queueLen);
    if t.Next() - t.fb < queueLen {
      ArrivalMakesRoom(t, size, queueLen, n, [t.req]);
    } else {
      var u := Poll(t, t.req);
      PollInv(t, size, queueLen, t.req);
      PollProgressive(t, size, queueLen, t.req);
      assert [t.req][1..] == [] && AwaitSeq(t, queueLen, [t.req]) == (u, []);
      ArrivalMakesRoom(u, size, queueLen, n, []);
    }
  }

  lemma SendProgressive(t: Tx, size: nat, queueLen: nat, n: nat, m: nat)
    requires Inv(t, size, queueLen) && m <= n
    ensures Progressive(Send(t, m, NeedsFeedback(t, queueLen, n)), size, queueLen)
  {
  }

  // ------------------------------------------------------------------
  // Whole runs

  datatype Pending = Idle | Pending(n: nat, need: bool)

  datatype Session = Session(tx: Tx, pending: Pending)

  /** A call into the transmit interface, or the hardware at work. Transmitting
      a whole frame is a Begin followed by an End. */
  datatype Op = Begin(n: nat, polls: seq<nat>) | End(m: nat) | Cancel | HardwareReports(k: nat)

  function Step(s: Session, size: nat, queueLen: nat, op: Op): (r: Session)
    requires SessionInv(s, size, queueLen)
    ensures SessionInv(r, size, queueLen)
  {
    hide Laid, Prepare;
    match op
    case Begin(n, polls) =>
      if s.pending.Pending? || n < 64 then s
      else
        var p := Prepare(s.tx, size, queueLen, n, polls);
        PrepareInv(s.tx, size, queueLen, n, polls);
        Session(p.tx, if p.outcome == Ready then Pending(n, p.need) else Idle)
    case End(m) =>
      if s.pending.Pending? && 64 <= m <= s.pending.n then
        SendInv(s.tx, size, queueLen, m, s.pending.need);
        Session(Send(s.tx, m, s.pending.need), Idle)
      else s
    case Cancel => s.(pending := Idle)
    case HardwareReports(k) =>
      ReportInv(s.tx, size, queueLen, k);
      s.(tx := Report(s.tx, k))
  }

  /** In particular, a chunk that has been prepared may be written. */
  ghost predicate SessionInv(s: Session, size: nat, queueLen: nat)
  {
    && Inv(s.tx, size, queueLen)
    && (s.pending.Pending? ==>
          && Fits(s.tx, size, s.pending.n) && s.tx.Next() - s.tx.fb < queueLen
          && s.pending.need == NeedsFeedback(s.tx, queueLen, s.pending.n))
  }

  function Run(s: Session, size: nat, queueLen: nat, ops: seq<Op>): (r: Session)
    requires SessionInv(s, size, queueLen)
    ensures SessionInv(r, size, queueLen)
    decreases |ops|
  {
    if ops == [] then s else Run(Step(s, size, queueLen, ops[0]), size, queueLen, ops[1..])
  }

  /** No Begin of the run is turned down for its size. */
  ghost predicate NoneTooLarge(s: Session, size: nat, queueLen: nat, ops: seq<Op>)
    requires SessionInv(s, size, queueLen)
    decreases |ops|
  {
    ops == [] ||
    (&& (ops[0].Begin? && s.pending.Idle? && 64 <= ops[0].n ==>
           Prepare(s.tx, size, queueLen, ops[0].n, ops[0].polls).outcome != TooLarge)
     && NoneTooLarge(Step(s, size, queueLen, ops[0]), size, queueLen, ops[1..]))
  }

  function Start(size: nat): (s: Session) { Session(Init(size), Idle) }

  /** In every reachable state, a prepared chunk lies in the buffer, apart from
      every chunk whose completion the hardware has not reported. */
  lemma {:induction false} RunSafe(size: nat, queueLen: nat, ops: seq<Op>)
    requires 1 <= queueLen
    ensures SessionInv(Start(size), size, queueLen)
    ensures var s := Run(Start(size), size, queueLen, ops);
            s.pending.Pending? ==> Free(s.tx, size, s.pending.n)
  {
  }

  lemma StepProgressive(s: Session, size: nat, queueLen: nat, op: Op)
    requires SessionInv(s, size, queueLen) && Progressive(s.tx, size, queueLen) && 4 <= queueLen
    requires op.Begin? && s.pending.Idle? && 64 <= op.n ==>
               Prepare(s.tx, size, queueLen, op.n, op.polls).outcome != TooLarge
    ensures Progressive(Step(s, size, queueLen, op).tx, size, queueLen)
  {
    hide Laid, Prepare, NeedsFeedback;
    match op
    case Begin(n, polls) =>
      PrepareProgress(s.tx, size, queueLen, n, polls);
    case End(m) =>
      if s.pending.Pending? && 64 <= m <= s.pending.n {
        SendProgressive(s.tx, size, queueLen, s.pending.n, m);
      }
    case Cancel =>
    case HardwareReports(k) =>
  }

  lemma {:induction false} RunProgressive(s: Session, size: nat, queueLen: nat, ops: seq<Op>)
    requires SessionInv(s, size, queueLen) && Progressive(s.tx, size, queueLen) && 4 <= queueLen
    requires NoneTooLarge(s, size, queueLen, ops)
    ensures Progressive(Run(s, size, queueLen, ops).tx, size, queueLen)
    decreases |ops|
  {
    hide Laid, Prepare, Step;
    if ops != [] {
      StepProgressive(s, size, queueLen, ops[0]);
      RunProgressive(Step(s, size, queueLen, ops[0]), size, queueLen, ops[1..]);
    }
  }

  /** After every run in which no chunk was turned down, a preparation that is
      left spinning waits for feedback that was requested, and the arrival of the
      last one requested lets it finish. */
  lemma RunWaits(size: nat, queueLen: nat, ops: seq<Op>, n: nat, polls: seq<nat>)
    requires 4 <= queueLen && SessionInv(Start(size), size, queueLen) && NoneTooLarge(Start(size), size, queueLen, ops)
    ensures var t := Run(Start(size), size, queueLen, ops).tx;
            var p := Prepare(t, size, queueLen, n, polls);
            p.outcome == Spinning ==>
              && Inv(p.tx, size, queueLen) && p.tx.fb < p.tx.req && p.tx.chunks[p.tx.req].requested
              && (n <= MaxChunk(size) ==> Prepare(p.tx, size, queueLen, n, [p.tx.req]).outcome == Ready)
  {
    hide Laid, Prepare, Step, Run, NoneTooLarge;
    InitProgressive(size, queueLen);
    RunProgressive(Start(size), size, queueLen, ops);
    var t := Run(Start(size), size, queueLen, ops).tx;
    var p := Prepare(t, size, queueLen, n, polls);
    PrepareInv(t, size, queueLen, n, polls);
    PrepareProgress(t, size, queueLen, n, polls);
    if p.outcome == Spinning && n <= MaxChunk(size) {
      ArrivalFinishes(p.tx, size, queueLen, n);
    }
  }

  /** Every chunk asked for is of permitted size. */
  ghost predicate AllPermitted(size: nat, ops: seq<Op>)
  {
    forall i :: 0 <= i < |ops| && ops[i].Begin? ==> ops[i].n <= size / 2 - 512
  }

  lemma {:induction false} PermittedFit(s: Session, size: nat, queueLen: nat, ops: seq<Op>)
    requires SessionInv(s, size, queueLen) && AllPermitted(size, ops)
    ensures NoneTooLarge(s, size, queueLen, ops)
    decreases |ops|
  {
    hide Laid, Step, NeedsFeedback;
    if ops != [] {
      PermittedFit(Step(s, size, queueLen, ops[0]), size, queueLen, ops[1..]);
    }
  }

  /** In every run whose chunks are all of permitted size, waiting is always for
      feedback that was requested, and ends when the last one requested arrives. */
  lemma RunProgress(size: nat, queueLen: nat, ops: seq<Op>, n: nat, polls: seq<nat>)
    requires 4 <= queueLen && SessionInv(Start(size), size, queueLen) && AllPermitted(size, ops) && n <= size / 2 - 512
    ensures var t := Run(Start(size), size, queueLen, ops).tx;
            var p := Prepare(t, size, queueLen, n, polls);
            && p.outcome != TooLarge
            && (p.outcome == Spinning ==>
                  && Inv(p.tx, size, queueLen) && p.tx.fb < p.tx.req && p.tx.chunks[p.tx.req].requested
                  && Prepare(p.tx, size, queueLen, n, [p.tx.req]).outcome == Ready)
  {
    PermittedFit(Start(size), size, queueLen, ops);
    RunWaits(size, queueLen, ops, n, polls);
  }

  /** Once the last request is answered, every read of the slot finds the answer. */
  lemma AnyPoll(t: Tx, size: nat, queueLen: nat, n: nat, k: nat)
    requires Inv(t, size, queueLen) && t.hw == t.req
    ensures Prepare(t, size, queueLen, n, [k]) == Prepare(t, size, queueLen, n, [t.req])
  {
    hide Laid, NeedsFeedback, Fits;
    var u := NewLap(t, size, n);
    assert [k][1..] == [] == [t.req][1..];
    assert Poll(t, k) == Poll(t, t.req) && Poll(u, k) == Poll(u, t.req);
    assert AwaitSeq(t, queueLen, [k]).0 == AwaitSeq(t, queueLen, [t.req]).0;
    assert AwaitSpace(t, size, n, [k]) == AwaitSpace(t, size, n, [t.req]);
  }

  /** Feedback that arrives between two calls is not missed: the next chunk of
      permitted size is ready at the latest when the slot has been read once,
      whatever else the card reports by then. */
  lemma ReportCounts(size: nat, queueLen: nat, ops: seq<Op>, n: nat, k: nat)
    requires 4 <= queueLen && SessionInv(Start(size), size, queueLen) && AllPermitted(size, ops) && 64 <= n <= size / 2 - 512
    ensures var s := Run(Start(size), size, queueLen, ops);
            s.pending.Idle? ==>
              var r := Step(Step(s, size, queueLen, HardwareReports(s.tx.req)), size, queueLen, Begin(n, [k]));
              r.pending.Pending? && r.pending.n == n
  {
    hide Laid, Prepare, Run, NoneTooLarge, AwaitSeq, AwaitSpace;
    var s := Run(Start(size), size, queueLen, ops);
    PermittedFit(Start(size), size, queueLen, ops);
    InitProgressive(size, queueLen);
    RunProgressive(Start(size), size, queueLen, ops);
    var t := Report(s.tx, s.tx.req);
    ReportInv(s.tx, size, queueLen, s.tx.req);
    ArrivalFinishes(t, size, queueLen, n);
    AnyPoll(t, size, queueLen, n, k);
  }

  // ------------------------------------------------------------------
  // No waste: where chunks go, and how often feedback is asked for

  /** Chunks not known to be finished follow each other without gaps, except where a
      lap begins; and the first chunk of a lap asks for feedback. */
  ghost predicate Tight(t: Tx, size: nat)
  {
    && t.fb < t.Next() && t.req < t.Next() && 0 < size
    && (if t.roll < t.Next() then t.off == t.chunks[t.Next() - 1].end else t.off == 0)
    && (forall k :: 0 <= k < t.Next() ==> t.chunks[k].start < t.chunks[k].end)
    && (forall k :: t.fb < k < t.Next() && k != t.roll ==> t.chunks[k].start == t.chunks[k - 1].end)
    && (t.req < t.roll ==> t.roll == t.Next())
  }

  lemma NewLapTight(t: Tx, size: nat, n: nat)
    requires Tight(t, size)
    ensures Tight(NewLap(t, size, n), size)
  {
  }

  lemma PollTight(t: Tx, size: nat, queueLen: nat, k: nat)
    requires Inv(t, size, queueLen) && Tight(t, size)
    ensures Tight(Report(t, k), size) && Tight(Poll(t, k), size)
  {
    hide Laid;
  }

  lemma {:induction false} AwaitSeqTight(t: Tx, size: nat, queueLen: nat, polls: seq<nat>)
    requires Inv(t, size, queueLen) && Tight(t, size)
    ensures Tight(AwaitSeq(t, queueLen, polls).0, size)
    decreases |polls|
  {
    hide Laid, Tight;
    if t.Next() - t.fb >= queueLen && polls != [] {
      PollInv(t, size, queueLen, polls[0]);
      PollTight(t, size, queueLen, polls[0]);
      AwaitSeqTight(Poll(t, polls[0]), size, queueLen, polls[1..]);
    }
  }

  lemma {:induction false} AwaitSpaceTight(t: Tx, size: nat, queueLen: nat, n: nat, polls: seq<nat>)
    requires Inv(t, size, queueLen) && Tight(t, size)
    ensures Tight(AwaitSpace(t, size, n, polls).1, size)
    decreases |polls|
  {
    hide Laid, Tight;
    var u := NewLap(t, size, n);
    NewLapInv(t, size, queueLen, n);
    NewLapTight(t, size, n);
    if !Fits(u, size, n) && n <= MaxChunk(size) && polls != [] {
      PollInv(u, size, queueLen, polls[0]);
      PollTight(u, size, queueLen, polls[0]);
      AwaitSpaceTight(Poll(u, polls[0]), size, queueLen, n, polls[1..]);
    }
  }

  lemma PrepareTight(t: Tx, size: nat, queueLen: nat, n: nat, polls: seq<nat>)
    requires Inv(t, size, queueLen) && Tight(t, size)
    ensures Tight(Prepare(t, size, queueLen, n, polls).tx, size)
  {
    hide Laid, Tight;
    var (u, rest) := AwaitSeq(t, queueLen, polls);
    AwaitSeqInv(t, size, queueLen, polls);
    AwaitSeqTight(t, size, queueLen, polls);
    if u.Next() - u.fb < queueLen {
      AwaitSpaceTight(u, size, queueLen, n, rest);
    }
  }

  lemma SendTight(t: Tx, size: nat, queueLen: nat, n: nat, m: nat)
    requires Inv(t, size, queueLen) && Tight(t, size) && 64 <= m <= n
    ensures Tight(Send(t, m, NeedsFeedback(t, queueLen, n)), size)
  {
    hide Laid;
    var u := Send(t, m, NeedsFeedback(t, queueLen, n));
    assert forall k :: 0 <= k < t.Next() ==> u.chunks[k] == t.chunks[k];
    assert u.chunks[t.Next()] == Chunk(t.off, t.off + m, NeedsFeedback(t, queueLen, n));
  }

  /** The space at the next position lies in the buffer and meets no chunk that is
      not known to be finished. */
  ghost predicate Clear(t: Tx, size: nat, n: nat)
  {
    && t.off + n <= size
    && forall k :: t.fb < k < t.Next() ==> t.chunks[k].end <= t.off || t.off + n <= t.chunks[k].start
  }

  /** Space is used whenever it is clear; only when exactly the previous lap is
      known to be finished, no more than it had used. */
  lemma FitsIff(t: Tx, size: nat, queueLen: nat, n: nat)
    requires Inv(t, size, queueLen) && Tight(t, size) && 0 < n
    ensures Fits(t, size, n) <==> Clear(t, size, n) && (t.fb + 1 == t.roll ==> t.off + n <= t.chunks[t.fb].end)
  {
    if t.fb + 1 < t.roll {
      assert t.chunks[t.fb + 1].start == t.chunks[t.fb].end;
    }
  }

  /** What preparing does without waiting. */
  lemma PrepareAtOnce(t: Tx, size: nat, queueLen: nat, n: nat)
    requires Inv(t, size, queueLen) && Tight(t, size) && 0 < n
    ensures var p := Prepare(t, size, queueLen, n, []);
            var room := Clear(t, size, n) && (t.fb + 1 == t.roll ==> t.off + n <= t.chunks[t.fb].end);
            if t.Next() - t.fb >= queueLen then p.outcome == Spinning && p.tx == t
            else if room then p.outcome == Ready && p.tx == t
            else if t.roll <= t.fb then
              p.tx == t.(off := 0, roll := t.Next())
              && p.outcome == (if n <= t.chunks[t.fb].end then Ready else if n > size / 2 - 512 then TooLarge else Spinning)
            else p.tx == t && p.outcome == if n > size / 2 - 512 then TooLarge else Spinning
  {
    hide Laid, NeedsFeedback, Tight, Clear;
    FitsIff(t, size, queueLen, n);
    OwnLap(t, size, queueLen, n);
  }

  lemma OwnLap(t: Tx, size: nat, queueLen: nat, n: nat)
    requires Inv(t, size, queueLen)
    ensures t.roll <= t.fb ==> (Clear(t, size, n) <==> t.off + n <= size)
  {
  }

  /** Requests j and k, with none between, are in different laps, or more than 512
      bytes or half the sequence numbers apart. */
  predicate Apart(c: seq<Chunk>, j: nat, k: nat, queueLen: nat)
    requires j < k < |c|
  {
    c[k].start < c[j].end || c[k].end - c[j].end > 512 || k - j > queueLen / 2
  }

  ghost predicate Successive(c: seq<Chunk>, j: nat, k: nat)
    requires j < k < |c|
  {
    c[j].requested && c[k].requested && forall i :: j < i < k ==> !c[i].requested
  }

  ghost predicate Sparse(c: seq<Chunk>, queueLen: nat)
  {
    forall j, k :: 0 <= j < k < |c| && Successive(c, j, k) ==> Apart(c, j, k, queueLen)
  }

  lemma SendSparse(t: Tx, size: nat, queueLen: nat, n: nat)
    requires Inv(t, size, queueLen) && Tight(t, size) && Sparse(t.chunks, queueLen) && 64 <= n
    ensures Sparse(Send(t, n, NeedsFeedback(t, queueLen, n)).chunks, queueLen)
  {
    hide Laid;
    var u := Send(t, n, NeedsFeedback(t, queueLen, n));
    var c, last := u.chunks, t.Next();
    assert forall k :: 0 <= k < last ==> c[k] == t.chunks[k];
    forall j, k | 0 <= j < k < |c| && Successive(c, j, k)
      ensures Apart(c, j, k, queueLen)
    {
      if k < last {
        assert Successive(t.chunks, j, k);
      } else {
        assert j == t.req;
      }
    }
  }

  /** Every chunk of the run is sent as long as it was prepared. */
  ghost predicate SentWhole(s: Session, size: nat, queueLen: nat, ops: seq<Op>)
    requires SessionInv(s, size, queueLen)
    decreases |ops|
  {
    ops == [] ||
    (&& (ops[0].End? && s.pending.Pending? ==> ops[0].m == s.pending.n)
     && SentWhole(Step(s, size, queueLen, ops[0]), size, queueLen, ops[1..]))
  }

  lemma StepTight(s: Session, size: nat, queueLen: nat, op: Op)
    requires SessionInv(s, size, queueLen) && Tight(s.tx, size)
    ensures Tight(Step(s, size, queueLen, op).tx, size)
    ensures Sparse(s.tx.chunks, queueLen) && (op.End? && s.pending.Pending? ==> op.m == s.pending.n) ==>
              Sparse(Step(s, size, queueLen, op).tx.chunks, queueLen)
  {
    hide Laid, Prepare, NeedsFeedback, Tight, Sparse;
    match op
    case Begin(n, polls) =>
      PrepareTight(s.tx, size, queueLen, n, polls);
      PrepareChunks(s.tx, size, queueLen, n, polls);
    case End(m) =>
      if s.pending.Pending? && 64 <= m <= s.pending.n {
        SendTight(s.tx, size, queueLen, s.pending.n, m);
        if Sparse(s.tx.chunks, queueLen) && m == s.pending.n {
          SendSparse(s.tx, size, queueLen, m);
        }
      }
    case Cancel =>
    case HardwareReports(k) =>
      PollTight(s.tx, size, queueLen, k);
  }

  lemma PrepareChunks(t: Tx, size: nat, queueLen: nat, n: nat, polls: seq<nat>)
    requires Inv(t, size, queueLen)
    ensures Prepare(t, size, queueLen, n, polls).tx.chunks == t.chunks
  {
    hide Laid;
    AwaitSeqInv(t, size, queueLen, polls);
  }

  lemma {:induction false} RunTightFrom(s: Session, size: nat, queueLen: nat, ops: seq<Op>)
    requires SessionInv(s, size, queueLen) && Tight(s.tx, size)
    ensures Tight(Run(s, size, queueLen, ops).tx, size)
    ensures Sparse(s.tx.chunks, queueLen) && SentWhole(s, size, queueLen, ops) ==>
              Sparse(Run(s, size, queueLen, ops).tx.chunks, queueLen)
    decreases |ops|
  {
    hide Laid, Step, Tight, Sparse;
    if ops != [] {
      StepTight(s, size, queueLen, ops[0]);
      RunTightFrom(Step(s, size, queueLen, ops[0]), size, queueLen, ops[1..]);
    }
  }

  /** After every run the layout is tight, so the two statements above apply; and if
      chunks are sent as long as they were prepared, no more feedback is asked for
      than every 512 bytes or every half queue, and once a lap. */
  lemma RunTight(size: nat, queueLen: nat, ops: seq<Op>)
    requires 1 <= queueLen && 0 < size && SessionInv(Start(size), size, queueLen)
    ensures Tight(Run(Start(size), size, queueLen, ops).tx, size)
    ensures SentWhole(Start(size), size, queueLen, ops) ==> Sparse(Run(Start(size), size, queueLen, ops).tx.chunks, queueLen)
  {
    hide Run, SentWhole;
    RunTightFrom(Start(size), size, queueLen, ops);
  }

  // ------------------------------------------------------------------
  // When progress fails

  lemma {:induction false} AwaitSpaceStuck(t: Tx, size: nat, queueLen: nat, n: nat, polls: seq<nat>)
    requires Inv(t, size, queueLen) && t.fb == t.req && n <= MaxChunk(size)
    ensures AwaitSpace(t, size, n, polls).0 == if Fits(NewLap(t, size, n), size, n) then Ready else Spinning
    decreases |polls|
  {
    var u := NewLap(t, size, n);
    NewLapInv(t, size, queueLen, n);
    if !Fits(u, size, n) && polls != [] {
      assert Poll(u, polls[0]) == u == NewLap(u, size, n);
      AwaitSpaceStuck(u, size, queueLen, n, polls[1..]);
    }
  }

  /** With every requested feedback already seen, a chunk of permitted size waits
      for ever exactly when there is no sequence number or no space for it now. */
  lemma StuckIff(t: Tx, size: nat, queueLen: nat, n: nat, polls: seq<nat>)
    requires Inv(t, size, queueLen) && t.fb == t.req && n <= MaxChunk(size)
    ensures Prepare(t, size, queueLen, n, polls).outcome == Spinning <==>
            t.Next() - t.fb >= queueLen || !Fits(NewLap(t, size, n), size, n)
  {
    hide Laid;
    AwaitSeqStuck(t, size, queueLen, polls);
    if t.Next() - t.fb < queueLen {
      AwaitSpaceStuck(t, size, queueLen, n, polls);
    }
  }

  lemma {:induction false} AwaitSeqStuck(t: Tx, size: nat, queueLen: nat, polls: seq<nat>)
    requires Inv(t, size, queueLen) && t.fb == t.req
    ensures AwaitSeq(t, queueLen, polls).0 == t
    ensures t.Next() - t.fb < queueLen ==> AwaitSeq(t, queueLen, polls).1 == polls
    decreases |polls|
  {
    if t.Next() - t.fb >= queueLen && polls != [] {
      assert Poll(t, polls[0]) == t;
      AwaitSeqStuck(t, size, queueLen, polls[1..]);
    }
  }

  /** A rejected oversized chunk can leave a lap begun with nothing sent in it.
      Then every chunk of permitted size can still be sent once all requested
      feedback is in, exactly if the last request ended far enough into the buffer. */
  lemma AfterRejection(t: Tx, size: nat, queueLen: nat, n: nat, polls: seq<nat>)
    requires Inv(t, size, queueLen) && t.fb == t.req && t.Next() - t.fb < queueLen
    requires t.roll == t.Next() && t.off == 0 && n <= MaxChunk(size)
    ensures Prepare(t, size, queueLen, n, polls).outcome == Spinning <==> t.chunks[t.req].end < n
  {
    hide Prepare;
    StuckIff(t, size, queueLen, n, polls);
  }

  /** The state reached in a 4096-byte buffer with 8 sequence numbers by sending
      chunks of 1536, 1088, 64 and 1152 bytes and then asking for 4096 bytes. */
  const WEDGED: Tx := Tx([Chunk(0, 4096, true), Chunk(0, 1536, true), Chunk(1536, 2624, true), Chunk(0, 64, true),
                          Chunk(64, 1216, true)], 4, 4, 4, 5, 0)

  /** From there a chunk of 1280 bytes, well below the maximum, waits for ever. */
  lemma {:induction false} Wedged(polls: seq<nat>) returns (ops: seq<Op>)
    ensures Reaches(Session(WEDGED, Idle), ops) && ops != [] && ops[|ops| - 1] == Begin(4096, [])
    ensures 1280 <= MaxChunk(4096) && Inv(WEDGED, 4096, 8) && WEDGED.fb == WEDGED.req
    ensures Prepare(WEDGED, 4096, 8, 1280, polls).outcome == Spinning
  {
    ops := WedgeRun();
    AfterRejection(WEDGED, 4096, 8, 1280, polls);
  }

  /** In a buffer of 4096 bytes with 8 sequence numbers, ops lead to s. */
  ghost predicate Reaches(s: Session, ops: seq<Op>)
  {
    SessionInv(Start(4096), 4096, 8) && Run(Start(4096), 4096, 8, ops) == s && SessionInv(s, 4096, 8)
  }

  /** A Begin that needs no feedback. */
  lemma BeginsAtOnce(s: Session, size: nat, queueLen: nat, n: nat, u: Tx)
    requires SessionInv(s, size, queueLen) && s.pending.Idle? && 64 <= n && s.tx.Next() - s.tx.fb < queueLen
    requires u == NewLap(s.tx, size, n) && Fits(u, size, n)
    ensures Step(s, size, queueLen, Begin(n, [])) == Session(u, Pending(n, NeedsFeedback(u, queueLen, n)))
  {
  }

  /** A Begin that needs one feedback. */
  lemma BeginsAfter(s: Session, size: nat, queueLen: nat, n: nat, k: nat, u: Tx)
    requires SessionInv(s, size, queueLen) && s.pending.Idle? && 64 <= n <= MaxChunk(size) && s.tx.Next() - s.tx.fb < queueLen
    requires NewLap(s.tx, size, n) == s.tx && !Fits(s.tx, size, n)
    requires u == NewLap(Poll(s.tx, k), size, n) && u.fb < u.Next() && Fits(u, size, n)
    ensures Step(s, size, queueLen, Begin(n, [k])) == Session(u, Pending(n, NeedsFeedback(u, queueLen, n)))
  {
    hide Laid, NeedsFeedback;
    assert [k][1..] == [];
    PollInv(s.tx, size, queueLen, k);
    assert AwaitSpace(s.tx, size, n, [k]) == AwaitSpace(Poll(s.tx, k), size, n, []) == (Ready, u);
    assert AwaitSeq(s.tx, queueLen, [k]) == (s.tx, [k]);
  }

  /** A Begin that is turned down. */
  lemma BeginsNever(s: Session, size: nat, queueLen: nat, n: nat, u: Tx)
    requires SessionInv(s, size, queueLen) && s.pending.Idle? && 64 <= n && s.tx.Next() - s.tx.fb < queueLen
    requires u == NewLap(s.tx, size, n) && !Fits(u, size, n) && MaxChunk(size) < n
    ensures Step(s, size, queueLen, Begin(n, [])) == Session(u, Idle)
  {
  }

  lemma {:induction false} RunSnoc(s: Session, size: nat, queueLen: nat, ops: seq<Op>, op: Op)
    requires SessionInv(s, size, queueLen)
    ensures Run(s, size, queueLen, ops + [op]) == Step(Run(s, size, queueLen, ops), size, queueLen, op)
    decreases |ops|
  {
    hide SessionInv, Step;
    if ops != [] {
      assert (ops + [op])[1..] == ops[1..] + [op];
      RunSnoc(Step(s, size, queueLen, ops[0]), size, queueLen, ops[1..], op);
    }
  }

  lemma ReachesMore(s: Session, ops: seq<Op>, op: Op, t: Session)
    requires Reaches(s, ops) && Step(s, 4096, 8, op) == t
    ensures Reaches(t, ops + [op])
  {
    hide Step, Run, SessionInv;
    RunSnoc(Start(4096), 4096, 8, ops, op);
  }

  lemma {:induction false} WedgeFirstLap() returns (s: Session, ops: seq<Op>)
    ensures Reaches(s, ops) && s == Session(Tx(WEDGED.chunks[..3], 0, 0, 2, 1, 2624), Idle)
  {
    hide Laid, Run;
    InitInv(4096, 8);
    var c := WEDGED.chunks;
    s, ops := Start(4096), [];
    ReachesStart();
    BeginsAtOnce(s, 4096, 8, 1536, s.tx);
    var t := Session(s.tx, Pending(1536, true));
    ReachesMore(s, ops, Begin(1536, []), t);
    ops := ops + [Begin(1536, [])];
    s := Session(Tx(c[..2], 0, 0, 1, 1, 1536), Idle);
    ReachesMore(t, ops, End(1536), s);
    ops := ops + [End(1536)];
    BeginsAtOnce(s, 4096, 8, 1088, s.tx);
    t := Session(s.tx, Pending(1088, true));
    ReachesMore(s, ops, Begin(1088, []), t);
    ops := ops + [Begin(1088, [])];
    s := Session(Tx(c[..3], 0, 0, 2, 1, 2624), Idle);
    ReachesMore(t, ops, End(1088), s);
    ops := ops + [End(1088)];
  }

  lemma ReachesStart()
    ensures Reaches(Start(4096), [])
  {
    hide Laid;
    InitInv(4096, 8);
  }

  lemma {:induction false} WedgeSecondLap() returns (s: Session, ops: seq<Op>)
    ensures Reaches(s, ops) && s == Session(Tx(WEDGED.chunks, 2, 2, 4, 3, 1216), Idle)
  {
    hide Laid, Run;
    var c := WEDGED.chunks;
    s, ops := WedgeFirstLap();
    var u := Tx(c[..3], 2, 2, 2, 3, 0);
    BeginsAfter(s, 4096, 8, 1536, 2, u);
    var t := Session(u, Pending(1536, true));
    ReachesMore(s, ops, Begin(1536, [2]), t);
    ops := ops + [Begin(1536, [2])];
    s := Session(Tx(c[..4], 2, 2, 3, 3, 64), Idle);
    ReachesMore(t, ops, End(64), s);
    ops := ops + [End(64)];
    BeginsAtOnce(s, 4096, 8, 1536, s.tx);
    t := Session(s.tx, Pending(1536, true));
    ReachesMore(s, ops, Begin(1536, []), t);
    ops := ops + [Begin(1536, [])];
    s := Session(Tx(c, 2, 2, 4, 3, 1216), Idle);
    ReachesMore(t, ops, End(1152), s);
    ops := ops + [End(1152)];
  }

  lemma {:induction false} WedgeRun() returns (ops: seq<Op>)
    ensures Reaches(Session(WEDGED, Idle), ops) && ops != [] && ops[|ops| - 1] == Begin(4096, [])
  {
    hide Laid, Run;
    var s;
    s, ops := WedgeSecondLap();
    var u := s.tx.(fb := 4, hw := 4);
    BeginsAfter(s, 4096, 8, 1536, 4, u);
    var t := Session(u, Pending(1536, true));
    ReachesMore(s, ops, Begin(1536, [4]), t);
    ops := ops + [Begin(1536, [4])];
    s := Session(u, Idle);
    ReachesMore(t, ops, Cancel, s);
    ops := ops + [Cancel];
    BeginsNever(s, 4096, 8, 4096, WEDGED);
    ReachesMore(s, ops, Begin(4096, []), Session(WEDGED, Idle));
    ops := ops + [Begin(4096, [])];
  }
}
