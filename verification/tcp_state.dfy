/** A TCP connection from ESTABLISHED on: receive calls, shutdowns, resets and
    senders racing on the state word and on the acknowledged sequence number. A
    step relation in which every shared access is a step of its own. */
module TcpState {
  import opened Words

  datatype Tcp = Closed | Established | CloseWait | FinWait1 | FinWait2 | Closing | LastAck | TimeWait

  predicate LocallyClosed(st: Tcp) { !st.Established? && !st.CloseWait? }

  predicate PeerClosed(st: Tcp) { !st.Established? && !st.FinWait1? && !st.FinWait2? }

  predicate FinAcked(st: Tcp) { st.FinWait2? || st.TimeWait? || st.Closed? }

  /** What a packet says: an acknowledgement, and whether the peer is done after
      stream position end. Positions are unbounded; the code sees them modulo 2^32. */
  datatype Packet = Packet(hasAck: bool, ack: nat, fin: bool, end: nat)

  /** A packet being received, and what was true of it when it arrived: it brought
      the peer's FIN in order, and it acknowledged our FIN. */
  datatype Call = Call(hasAck: bool, ack: nat, fin: bool, end: nat, finDue: bool, ackDue: bool)

  /** Where a thread is. */
  datatype Thread =
    | Idle
    | Shut
    | ShutSwap(from: Tcp)
    | Ack(p: Call)
    | AckSwap(p: Call, was: nat)
    | Conn(p: Call)
    | TestFin(p: Call, from: Tcp)
    | TestAck(p: Call, from: Tcp, fin: bool)
    | TestSent(p: Call, from: Tcp, fin: bool, sent: nat)
    | ConnSwap(p: Call, from: Tcp, to: Tcp)
  {
    predicate InShut() { Shut? || ShutSwap? }
    predicate HasPacket() { Ack? || AckSwap? || Conn? || TestFin? || TestAck? || TestSent? || ConnSwap? }
    predicate FinDue() { HasPacket() && p.finDue }
    predicate AckDue() { HasPacket() && p.ackDue }
  }

  /** Shared words and threads, with histories that the code does not see: a
      shutdown began, one returned, a reset happened; where the FINs that arrived
      stand in the stream; a call returned whose packet brought the FIN in order, one
      whose packet acknowledged our FIN; a FIN came into order only while its call
      was under way; a packet arrived that acknowledged our FIN, and one that
      acknowledged more than we had sent. */
  datatype State = State(st: Tcp, sendSeq: nat, sendAck: nat, recvSeq: nat, threads: seq<Thread>,
                         began: bool, shut: bool, reset: bool, fins: set<nat>, finDone: bool, ackDone: bool,
                         late: bool, confirmed: bool, excess: bool)

  datatype Action =
    | StartShutdown(i: nat) | LoadShutdown(i: nat) | SwapShutdown(i: nat)
    | Arrive(i: nat, p: Packet) | LoadAck(i: nat) | SwapAck(i: nat)
    | LoadState(i: nat) | ReadFin(i: nat) | ReadSent(i: nat) | ReadAck(i: nat) | SwapState(i: nat)
    | Send(n: nat) | Deliver(n: nat) | Reset

  // ------------------------------------------------------------------
  // The steps

  /** The FIN of p is in order. */
  predicate FinNow(s: State, p: Call)
  {
    p.fin && SeqCompare(Wrap32(p.end), Wrap32(s.recvSeq)) <= 0
  }

  /** p acknowledges, and our FIN, which follows byte number `sent`, has been
      acknowledged. */
  predicate AckNow(s: State, p: Call, sent: nat)
  {
    p.hasAck && SeqCompare(Wrap32(sent), Wrap32(s.sendAck)) < 0
  }

  /** The sequence number after our last byte, and after our FIN if it is sent. */
  function Sent(s: State): (n: nat) { s.sendSeq + if LocallyClosed(s.st) then 1 else 0 }

  function Put(s: State, i: nat, t: Thread): (r: State)
    requires i < |s.threads|
    ensures r.st == s.st && r.sendAck == s.sendAck
  {
    s.(threads := s.threads[i := t])
  }

  /** A receive call returns. */
  function Return(s: State, i: nat, p: Call): (r: State)
    requires i < |s.threads|
    ensures r.st == s.st && r.sendAck == s.sendAck
  {
    Put(s, i, Idle).(finDone := s.finDone || p.finDue, ackDone := s.ackDone || p.ackDue)
  }

  /** The acknowledgement loop goes round or ends. */
  function AckLoop(p: Call, v: nat): (t: Thread)
  {
    if SeqCompare(Wrap32(v), Wrap32(p.ack)) < 0 then AckSwap(p, v) else Conn(p)
  }

  /** A call goes on, knowing whether the FIN of its packet is in order. */
  function AfterFin(s: State, i: nat, fin: bool): (r: State)
    requires i < |s.threads| && s.threads[i].TestFin?
    ensures r.st == s.st && r.sendAck == s.sendAck
  {
    var t := s.threads[i];
    if t.from.FinWait1? then Put(s, i, TestAck(t.p, t.from, fin))
    else if fin then Put(s, i, ConnSwap(t.p, t.from, if t.from.Established? then CloseWait else TimeWait))
    else Return(s, i, t.p)
  }

  /** A call goes on, knowing whether our FIN has been acknowledged. */
  function AfterAck(s: State, i: nat, ack: bool): (r: State)
    requires i < |s.threads| && s.threads[i].TestSent?
    ensures r.st == s.st && r.sendAck == s.sendAck
  {
    var t := s.threads[i];
    if !ack && !t.fin then Return(s, i, t.p)
    else
      Put(s, i, ConnSwap(t.p, t.from,
                         if t.from.LastAck? then Closed
                         else if t.from.FinWait1? && !ack then Closing
                         else if t.from.FinWait1? && !t.fin then FinWait2
                         else TimeWait))
  }

  /** A packet as it arrives. */
  function Received(s: State, p: Packet): (c: Call)
  {
    Call(p.hasAck, p.ack, p.fin, p.end, p.fin && p.end <= s.recvSeq, p.hasAck && s.sendSeq < p.ack <= Sent(s))
  }

  /** The FIN of the packet that t is receiving stands beyond lo and not beyond hi. */
  predicate FinBetween(t: Thread, lo: nat, hi: nat) { t.HasPacket() && t.p.fin && lo < t.p.end <= hi }

  function Step(s: State, a: Action): (r: State)
  {
    match a
    case StartShutdown(i) =>
      if i >= |s.threads| || !s.threads[i].Idle? then s else Put(s, i, Shut).(began := true)
    case LoadShutdown(i) =>
      if i >= |s.threads| || !s.threads[i].Shut? then s
      else if LocallyClosed(s.st) then Put(s, i, Idle).(shut := true)
      else Put(s, i, ShutSwap(s.st))
    case SwapShutdown(i) =>
      if i >= |s.threads| || !s.threads[i].ShutSwap? then s
      else if s.st != s.threads[i].from then Put(s, i, Shut)
      else Put(s, i, Idle).(st := if s.st.Established? then FinWait1 else LastAck, shut := true)
    case Arrive(i, p) =>
      if i >= |s.threads| || !s.threads[i].Idle? then s
      else
        var c := Received(s, p);
        Put(s, i, if p.hasAck then Ack(c) else Conn(c)).(
          fins := if p.fin then s.fins + {p.end} else s.fins,
          confirmed := s.confirmed || c.ackDue,
          excess := s.excess || (p.hasAck && p.ack > Sent(s)))
    case LoadAck(i) =>
      if i >= |s.threads| || !s.threads[i].Ack? then s
      else Put(s, i, AckLoop(s.threads[i].p, s.sendAck))
    case SwapAck(i) =>
      if i >= |s.threads| || !s.threads[i].AckSwap? then s
      else
        var t := s.threads[i];
        if Wrap32(s.sendAck) == Wrap32(t.was) then s.(sendAck := t.p.ack)
        else Put(s, i, AckLoop(t.p, s.sendAck))
    case LoadState(i) =>
      if i >= |s.threads| || !s.threads[i].Conn? then s
      else
        var t := s.threads[i];
        if s.st.Established? || s.st.FinWait1? || s.st.FinWait2? then Put(s, i, TestFin(t.p, s.st))
        else if s.st.Closing? || s.st.LastAck? then Put(s, i, TestAck(t.p, s.st, false))
        else Return(s, i, t.p)
    case ReadFin(i) =>
      if i >= |s.threads| || !s.threads[i].TestFin? then s else AfterFin(s, i, FinNow(s, s.threads[i].p))
    case ReadSent(i) =>
      if i >= |s.threads| || !s.threads[i].TestAck? then s
      else
        var t := s.threads[i];
        Put(s, i, TestSent(t.p, t.from, t.fin, s.sendSeq))
    case ReadAck(i) =>
      if i >= |s.threads| || !s.threads[i].TestSent? then s
      else AfterAck(s, i, AckNow(s, s.threads[i].p, s.threads[i].sent))
    case SwapState(i) =>
      if i >= |s.threads| || !s.threads[i].ConnSwap? then s
      else
        var t := s.threads[i];
        if s.st != t.from then Put(s, i, Conn(t.p))
        else Return(s.(st := t.to), i, t.p)
    case Send(n) => if LocallyClosed(s.st) then s else s.(sendSeq := s.sendSeq + n)
    case Deliver(n) =>
      s.(recvSeq := s.recvSeq + n,
         late := s.late || exists i :: 0 <= i < |s.threads| && FinBetween(s.threads[i], s.recvSeq, s.recvSeq + n))
    case Reset => s.(st := Closed, reset := true)
  }

  // ------------------------------------------------------------------
  // The invariant

  /** Sequence numbers that are compared are less than 2^31 apart. */
  predicate Windowed(s: State)
  {
    && -TWO_31 <= s.sendSeq - s.sendAck < TWO_31
    && forall i :: 0 <= i < |s.threads| ==> Recent(s, s.threads[i])
  }

  predicate Recent(s: State, t: Thread)
  {
    && (t.HasPacket() ==> -TWO_31 <= t.p.end - s.recvSeq < TWO_31)
    && (t.Ack? || t.AckSwap? ==> -TWO_31 <= s.sendAck - t.p.ack < TWO_31)
    && (t.AckSwap? ==> s.sendAck - t.was < TWO_31)
  }

  /** No flag of a is lost in b. */
  predicate Leq(a: Tcp, b: Tcp)
  {
    && (LocallyClosed(a) ==> LocallyClosed(b))
    && (PeerClosed(a) ==> PeerClosed(b))
    && (FinAcked(a) ==> FinAcked(b))
  }

  /** The transitions of section 3.3.2 of RFC 9293, with its second note. */
  predicate Edge(a: Tcp, b: Tcp)
  {
    match a
    case Established => b.FinWait1? || b.CloseWait?
    case CloseWait => b.LastAck?
    case FinWait1 => b.FinWait2? || b.Closing? || b.TimeWait?
    case FinWait2 => b.TimeWait?
    case Closing => b.TimeWait?
    case LastAck => b.Closed?
    case TimeWait => false
    case Closed => false
  }

  predicate FinHere(s: State, p: Call) { p.fin && p.end <= s.recvSeq }

  /** The packet's acknowledgement has been stored. */
  predicate Stored(s: State, p: Call) { p.hasAck ==> p.ack <= s.sendAck }

  /** What a receive call knows once it has read the state. */
  predicate FromOk(s: State, p: Call, from: Tcp)
  {
    Leq(from, s.st) && (p.ackDue ==> LocallyClosed(from))
  }

  predicate SwapOk(s: State, t: Thread)
    requires t.ConnSwap?
  {
    && LocallyClosed(t.from) == LocallyClosed(t.to) && Leq(t.from, t.to) && Edge(t.from, t.to)
    && (t.p.finDue ==> PeerClosed(t.to)) && (PeerClosed(t.to) ==> PeerClosed(t.from) || FinHere(s, t.p))
    && (t.p.ackDue ==> FinAcked(t.to))
    && (FinAcked(t.to) ==> LocallyClosed(t.from) && (FinAcked(t.from) || s.sendAck > s.sendSeq))
  }

  /** What is true of a packet from its arrival on. */
  predicate PacketOk(s: State, p: Call)
  {
    && (p.hasAck ==> (s.excess || p.ack <= Sent(s)) && (p.ack > s.sendSeq ==> s.confirmed || s.excess))
    && (p.ackDue ==> p.hasAck && p.ack > s.sendSeq && LocallyClosed(s.st))
    && (p.fin ==> p.end in s.fins)
    && (p.finDue ==> FinHere(s, p)) && (FinHere(s, p) ==> p.finDue || s.late)
  }

  /** What a receive call knows once its acknowledgement is dealt with. */
  predicate ConnOk(s: State, p: Call) { PacketOk(s, p) && Stored(s, p) }

  predicate TestOk(s: State, p: Call, from: Tcp, fin: bool)
  {
    || (from.FinWait1? && (p.finDue ==> fin) && (fin ==> FinHere(s, p)))
    || ((from.Closing? || from.LastAck?) && !fin)
  }

  predicate LocalOk(s: State, t: Thread)
  {
    match t
    case Idle => true
    case Shut => s.began
    case ShutSwap(from) => s.began && !LocallyClosed(from)
    case Ack(p) => PacketOk(s, p) && p.hasAck
    case AckSwap(p, was) => PacketOk(s, p) && p.hasAck && was <= s.sendAck && was < p.ack
    case Conn(p) => ConnOk(s, p)
    case TestFin(p, from) =>
      ConnOk(s, p) && FromOk(s, p, from) && (from.Established? || from.FinWait1? || from.FinWait2?)
    case TestAck(p, from, fin) => ConnOk(s, p) && FromOk(s, p, from) && TestOk(s, p, from, fin)
    case TestSent(p, from, fin, sent) =>
      ConnOk(s, p) && FromOk(s, p, from) && TestOk(s, p, from, fin) && sent == s.sendSeq
    case ConnSwap(p, from, to) => ConnOk(s, p) && FromOk(s, p, from) && SwapOk(s, t)
  }

  ghost predicate SomeShut(s: State) { exists i :: 0 <= i < |s.threads| && s.threads[i].InShut() }

  ghost predicate SomeFin(s: State) { exists i :: 0 <= i < |s.threads| && s.threads[i].FinDue() }

  ghost predicate SomeAck(s: State) { exists i :: 0 <= i < |s.threads| && s.threads[i].AckDue() }

  /** A FIN has arrived, and everything before it. */
  ghost predicate FinInOrder(s: State) { exists e :: e in s.fins && e <= s.recvSeq }

  /** The state word says neither less nor more than has happened. */
  ghost predicate Encodes(s: State)
  {
    && (s.reset ==> s.st.Closed?)
    && (s.shut ==> LocallyClosed(s.st))
    && (s.finDone ==> PeerClosed(s.st))
    && (s.ackDone ==> FinAcked(s.st))
    && (!s.reset && LocallyClosed(s.st) ==> s.began)
    && (!s.reset && PeerClosed(s.st) ==> FinInOrder(s))
    && (!s.reset && FinAcked(s.st) ==> s.sendAck > s.sendSeq)
    && (s.sendAck > s.sendSeq ==> s.confirmed || s.excess)
    && (s.confirmed ==> LocallyClosed(s.st))
  }

  ghost predicate Inv(s: State)
  {
    && Encodes(s) && (s.excess || s.sendAck <= Sent(s))
    && (forall i :: 0 <= i < |s.threads| ==> LocalOk(s, s.threads[i]))
    && (s.began ==> s.shut || SomeShut(s))
    && (!s.reset && PeerClosed(s.st) ==> s.late || s.finDone || SomeFin(s))
    && (s.confirmed ==> s.ackDone || SomeAck(s))
  }

  // ------------------------------------------------------------------
  // Every step keeps it

  /** s' can follow s. */
  predicate Later(s: State, s': State)
  {
    && Leq(s.st, s'.st) && s.sendSeq <= s'.sendSeq && (LocallyClosed(s.st) ==> s.sendSeq == s'.sendSeq)
    && s.sendAck <= s'.sendAck && s.recvSeq <= s'.recvSeq && (s.began ==> s'.began) && s.fins <= s'.fins
    && (s.confirmed ==> s'.confirmed) && (s.excess ==> s'.excess) && (s.late ==> s'.late)
  }

  lemma LocalKeeps(s: State, s': State, t: Thread)
    requires LocalOk(s, t) && Later(s, s') && (FinBetween(t, s.recvSeq, s'.recvSeq) ==> s'.late)
    ensures LocalOk(s', t)
  {
  }

  /** A step of thread i. */
  lemma ThreadStep(s: State, s': State, i: nat, t: Thread)
    requires Inv(s) && Later(s, s') && i < |s.threads| && s'.threads == s.threads[i := t]
    requires s.sendSeq == s'.sendSeq && s.recvSeq == s'.recvSeq
    requires LocalOk(s', t) && Encodes(s') && (s'.excess || s'.sendAck <= Sent(s'))
    requires (s.shut ==> s'.shut) && (s.finDone ==> s'.finDone) && (s.ackDone ==> s'.ackDone)
    requires s.threads[i].InShut() ==> t.InShut() || s'.shut
    requires s.threads[i].FinDue() ==> t.FinDue() || s'.finDone
    requires s.threads[i].AckDue() ==> t.AckDue() || s'.ackDone
    requires s'.began ==> s.began || t.InShut()
    requires !s'.reset && PeerClosed(s'.st) ==> (!s.reset && PeerClosed(s.st)) || s'.late || s'.finDone
    requires s'.confirmed ==> s.confirmed || t.AckDue()
    ensures Inv(s')
  {
    hide LocalOk, Later, Encodes, Sent, PeerClosed;
    assert s.late ==> s'.late by { LaterLate(s, s'); }
    forall j | 0 <= j < |s'.threads|
      ensures LocalOk(s', s'.threads[j])
    {
      assert LocalOk(s, s.threads[j]);
      if j != i {
        LocalKeeps(s, s', s.threads[j]);
      }
    }
    assert s'.threads[i] == t;
    if SomeShut(s) {
      var j :| 0 <= j < |s.threads| && s.threads[j].InShut();
      assert j != i ==> s'.threads[j].InShut();
    }
    if SomeFin(s) {
      var j :| 0 <= j < |s.threads| && s.threads[j].FinDue();
      assert j != i ==> s'.threads[j].FinDue();
    }
    if SomeAck(s) {
      var j :| 0 <= j < |s.threads| && s.threads[j].AckDue();
      assert j != i ==> s'.threads[j].AckDue();
    }
  }

  lemma LaterLate(s: State, s': State)
    requires Later(s, s')
    ensures s.late ==> s'.late
  {
  }

  /** In the window the 32-bit tests mean what they should. */
  lemma FinExact(s: State, t: Thread)
    requires Recent(s, t) && t.HasPacket()
    ensures FinNow(s, t.p) <==> FinHere(s, t.p)
  {
    hide Wrap32, SeqCompare;
    SeqCompareExact(t.p.end, s.recvSeq);
  }

  lemma AckExact(s: State, p: Call)
    requires -TWO_31 <= s.sendSeq - s.sendAck < TWO_31
    ensures AckNow(s, p, s.sendSeq) <==> p.hasAck && s.sendAck > s.sendSeq
  {
  }

  lemma AckLoopExact(s: State, t: Thread)
    requires Recent(s, t) && LocalOk(s, t) && (t.Ack? || t.AckSwap?)
    ensures AckLoop(t.p, s.sendAck) == if s.sendAck < t.p.ack then AckSwap(t.p, s.sendAck) else Conn(t.p)
    ensures t.AckSwap? && Wrap32(s.sendAck) == Wrap32(t.was) ==> s.sendAck == t.was
  {
    SeqCompareExact(s.sendAck, t.p.ack);
    if t.AckSwap? && Wrap32(s.sendAck) == Wrap32(t.was) {
      ModInjective(t.was, s.sendAck, TWO_32);
    }
  }

  lemma Facts(s: State, i: nat)
    requires Inv(s)
    ensures Encodes(s) && (s.excess || s.sendAck <= Sent(s)) && (i < |s.threads| ==> LocalOk(s, s.threads[i]))
  {
  }

  lemma StartShutdownInv(s: State, i: nat)
    requires Inv(s)
    ensures Inv(Step(s, StartShutdown(i)))
  {
    hide Inv;
    if i < |s.threads| && s.threads[i].Idle? {
      Facts(s, i);
      ThreadStep(s, Put(s, i, Shut).(began := true), i, Shut);
    }
  }

  lemma LoadShutdownInv(s: State, i: nat)
    requires Inv(s)
    ensures Inv(Step(s, LoadShutdown(i)))
  {
    hide Inv;
    if i < |s.threads| && s.threads[i].Shut? {
      Facts(s, i);
      if LocallyClosed(s.st) {
        ThreadStep(s, Put(s, i, Idle).(shut := true), i, Idle);
      } else {
        PutInv(s, i, ShutSwap(s.st));
      }
    }
  }

  lemma SwapShutdownInv(s: State, i: nat)
    requires Inv(s)
    ensures Inv(Step(s, SwapShutdown(i)))
  {
    hide Inv;
    if i < |s.threads| && s.threads[i].ShutSwap? {
      Facts(s, i);
      if s.st != s.threads[i].from {
        PutInv(s, i, Shut);
      } else {
        ThreadStep(s, Put(s, i, Idle).(st := if s.st.Established? then FinWait1 else LastAck, shut := true), i, Idle);
      }
    }
  }

  /** Thread i moves on and nothing else changes. */
  lemma PutInv(s: State, i: nat, t: Thread)
    requires Inv(s) && i < |s.threads| && LocalOk(s, t)
    requires (s.threads[i].InShut() ==> t.InShut()) && (s.threads[i].FinDue() ==> t.FinDue())
    requires s.threads[i].AckDue() ==> t.AckDue()
    ensures Inv(Put(s, i, t))
  {
    hide Inv;
    Facts(s, i);
    ThreadStep(s, Put(s, i, t), i, t);
  }

  /** A receive call may return when its FIN and its acknowledgement have taken effect. */
  lemma ReturnInv(s: State, i: nat, p: Call)
    requires Inv(s) && i < |s.threads| && s.threads[i].HasPacket() && s.threads[i].p == p
    requires (p.finDue ==> PeerClosed(s.st)) && (p.ackDue ==> FinAcked(s.st))
    ensures Inv(Return(s, i, p))
  {
    hide Inv;
    Facts(s, i);
    ThreadStep(s, Return(s, i, p), i, Idle);
  }

  lemma ArriveInv(s: State, i: nat, p: Packet)
    requires Inv(s)
    ensures Inv(Step(s, Arrive(i, p)))
  {
    hide Inv;
    if i < |s.threads| && s.threads[i].Idle? {
      Facts(s, i);
      var c := Received(s, p);
      ThreadStep(s, Step(s, Arrive(i, p)), i, if p.hasAck then Ack(c) else Conn(c));
    }
  }

  lemma AckLoopInv(s: State, i: nat)
    requires Inv(s) && Windowed(s) && i < |s.threads| && (s.threads[i].Ack? || s.threads[i].AckSwap?)
    ensures Inv(Put(s, i, AckLoop(s.threads[i].p, s.sendAck)))
  {
    hide Inv, AckLoop;
    Facts(s, i);
    AckLoopExact(s, s.threads[i]);
    PutInv(s, i, AckLoop(s.threads[i].p, s.sendAck));
  }

  lemma LoadAckInv(s: State, i: nat)
    requires Inv(s) && Windowed(s)
    ensures Inv(Step(s, LoadAck(i)))
  {
    hide Inv, AckLoop, Windowed;
    if i < |s.threads| && s.threads[i].Ack? {
      AckLoopInv(s, i);
    }
  }

  lemma SwapAckInv(s: State, i: nat)
    requires Inv(s) && Windowed(s)
    ensures Inv(Step(s, SwapAck(i)))
  {
    hide Inv, AckLoop, Wrap32;
    if i < |s.threads| && s.threads[i].AckSwap? {
      var t := s.threads[i];
      Facts(s, i);
      AckLoopExact(s, t);
      if Wrap32(s.sendAck) == Wrap32(t.was) {
        var s' := s.(sendAck := t.p.ack);
        assert s.threads == s.threads[i := t];
        ThreadStep(s, s', i, t);
      } else {
        AckLoopInv(s, i);
      }
    }
  }

  lemma LoadInv(s: State, i: nat)
    requires Inv(s)
    ensures Inv(Step(s, LoadState(i)))
  {
    hide Inv;
    if i < |s.threads| && s.threads[i].Conn? {
      Facts(s, i);
      var t := s.threads[i];
      if s.st.Established? || s.st.FinWait1? || s.st.FinWait2? {
        PutInv(s, i, TestFin(t.p, s.st));
      } else if s.st.Closing? || s.st.LastAck? {
        PutInv(s, i, TestAck(t.p, s.st, false));
      } else {
        ReturnInv(s, i, t.p);
      }
    }
  }

  lemma FinInv(s: State, i: nat)
    requires Inv(s) && Windowed(s)
    ensures Inv(Step(s, ReadFin(i)))
  {
    hide Inv, FinNow, FinHere, AfterFin;
    if i < |s.threads| && s.threads[i].TestFin? {
      FinExact(s, s.threads[i]);
      if FinNow(s, s.threads[i].p) {
        FoundInv(s, i);
      } else {
        NotFoundInv(s, i);
      }
    }
  }

  lemma FoundInv(s: State, i: nat)
    requires Inv(s) && i < |s.threads| && s.threads[i].TestFin? && FinHere(s, s.threads[i].p)
    ensures Inv(AfterFin(s, i, true))
  {
    hide Inv, Encodes;
    Facts(s, i);
    var t := s.threads[i];
    PutInv(s, i, if t.from.FinWait1? then TestAck(t.p, t.from, true)
                 else ConnSwap(t.p, t.from, if t.from.Established? then CloseWait else TimeWait));
  }

  lemma NotFoundInv(s: State, i: nat)
    requires Inv(s) && i < |s.threads| && s.threads[i].TestFin? && !FinHere(s, s.threads[i].p)
    ensures Inv(AfterFin(s, i, false))
  {
    hide Inv;
    Facts(s, i);
    var t := s.threads[i];
    if t.from.FinWait1? {
      PutInv(s, i, TestAck(t.p, t.from, false));
    } else {
      ReturnInv(s, i, t.p);
    }
  }

  /** Having closed, we send no more: the number read stays the right one. */
  lemma SentInv(s: State, i: nat)
    requires Inv(s)
    ensures Inv(Step(s, ReadSent(i)))
  {
    hide Inv;
    if i < |s.threads| && s.threads[i].TestAck? {
      Facts(s, i);
      var t := s.threads[i];
      PutInv(s, i, TestSent(t.p, t.from, t.fin, s.sendSeq));
    }
  }

  lemma TestInv(s: State, i: nat)
    requires Inv(s) && Windowed(s)
    ensures Inv(Step(s, ReadAck(i)))
  {
    hide Inv, AckNow;
    if i < |s.threads| && s.threads[i].TestSent? {
      Facts(s, i);
      var t := s.threads[i];
      AckExact(s, t.p);
      var ack := AckNow(s, t.p, t.sent);
      if !ack && !t.fin {
        ReturnInv(s, i, t.p);
      } else {
        PutInv(s, i, ConnSwap(t.p, t.from,
                              if t.from.LastAck? then Closed
                              else if t.from.FinWait1? && !ack then Closing
                              else if t.from.FinWait1? && !t.fin then FinWait2
                              else TimeWait));
      }
    }
  }

  lemma SwapInv(s: State, i: nat)
    requires Inv(s)
    ensures Inv(Step(s, SwapState(i)))
  {
    hide Inv;
    if i < |s.threads| && s.threads[i].ConnSwap? {
      Facts(s, i);
      var t := s.threads[i];
      if s.st != t.from {
        PutInv(s, i, Conn(t.p));
      } else {
        ThreadStep(s, Return(s.(st := t.to), i, t.p), i, Idle);
      }
    }
  }

  lemma OtherInv(s: State, a: Action)
    requires Inv(s) && (a.Send? || a.Deliver? || a.Reset?)
    ensures Inv(Step(s, a))
  {
    hide LocalOk;
    var s' := Step(s, a);
    forall j | 0 <= j < |s'.threads|
      ensures LocalOk(s', s'.threads[j])
    {
      LocalKeeps(s, s', s.threads[j]);
    }
  }

  lemma StepInv(s: State, a: Action)
    requires Inv(s) && Windowed(s)
    ensures Inv(Step(s, a))
  {
    hide *;
    match a
    case StartShutdown(i) => StartShutdownInv(s, i);
    case LoadShutdown(i) => LoadShutdownInv(s, i);
    case SwapShutdown(i) => SwapShutdownInv(s, i);
    case Arrive(i, p) => ArriveInv(s, i, p);
    case LoadAck(i) => LoadAckInv(s, i);
    case SwapAck(i) => SwapAckInv(s, i);
    case LoadState(i) => LoadInv(s, i);
    case ReadFin(i) => FinInv(s, i);
    case ReadSent(i) => SentInv(s, i);
    case ReadAck(i) => TestInv(s, i);
    case SwapState(i) => SwapInv(s, i);
    case _ => OtherInv(s, a);
  }

  // ------------------------------------------------------------------
  // Whole runs

  /** Every state of the run is in the window. */
  ghost predicate Timely(s: State, run: seq<Action>)
    decreases |run|
  {
    run != [] ==> Windowed(s) && Timely(Step(s, run[0]), run[1..])
  }

  function Exec(s: State, run: seq<Action>): (r: State)
    decreases |run|
  {
    if run == [] then s else Exec(Step(s, run[0]), run[1..])
  }

  function Initial(n: nat, mine: nat, theirs: nat): (s: State)
  {
    State(Established, mine, mine, theirs, seq(n, i => Idle), false, false, false, {}, false, false, false, false, false)
  }

  lemma {:induction false} ExecInv(s: State, run: seq<Action>)
    requires Inv(s) && Timely(s, run)
    ensures Inv(Exec(s, run))
    decreases |run|
  {
    if run != [] {
      StepInv(s, run[0]);
      ExecInv(Step(s, run[0]), run[1..]);
    }
  }

  predicate Forward(s: State, s': State)
  {
    (s'.st == s.st || Edge(s.st, s'.st) || s'.reset) && Leq(s.st, s'.st) && (s.st.Closed? ==> s'.st.Closed?)
    && s.sendAck <= s'.sendAck
  }

  lemma SwapForward(s: State, a: Action)
    requires Inv(s) && (a.SwapState? || a.SwapShutdown?)
    ensures Forward(s, Step(s, a))
  {
    hide Inv;
    Facts(s, a.i);
  }

  lemma AckForward(s: State, i: nat)
    requires Inv(s) && Windowed(s)
    ensures Forward(s, Step(s, SwapAck(i)))
  {
    hide Inv, AckLoop, Wrap32;
    Facts(s, i);
    if i < |s.threads| && s.threads[i].AckSwap? {
      AckLoopExact(s, s.threads[i]);
    }
  }

  lemma OtherForward(s: State, a: Action)
    requires !a.SwapState? && !a.SwapAck? && !a.SwapShutdown? && !a.Reset?
    ensures Step(s, a).st == s.st && Step(s, a).sendAck == s.sendAck
  {
    hide AckLoop, FinNow, AckNow, Put, Return, LocallyClosed, Sent, AfterFin, AfterAck, Received, FinBetween;
  }

  /** Every step of the state word is an edge of the diagram or a reset, loses no
      flag, and never leaves CLOSED; the acknowledged position never moves back. */
  lemma StepForward(s: State, a: Action)
    requires Inv(s) && Windowed(s)
    ensures Forward(s, Step(s, a))
  {
    hide Inv, Windowed;
    if a.SwapState? || a.SwapShutdown? {
      SwapForward(s, a);
    } else if a.SwapAck? {
      AckForward(s, a.i);
    } else if !a.Reset? {
      hide Step;
      OtherForward(s, a);
    }
  }

  lemma {:induction false} RunForward(s: State, run: seq<Action>)
    requires Inv(s) && Timely(s, run)
    ensures var s' := Exec(s, run);
            Leq(s.st, s'.st) && (s.st.Closed? ==> s'.st.Closed?) && s.sendAck <= s'.sendAck
    decreases |run|
  {
    if run != [] {
      hide Inv, Step;
      StepForward(s, run[0]);
      StepInv(s, run[0]);
      RunForward(Step(s, run[0]), run[1..]);
    }
  }

  /** A run in which the connection is reset ends closed, whatever calls were under
      way. */
  lemma {:induction false} ResetEnds(s: State, run: seq<Action>, k: nat)
    requires Inv(s) && Timely(s, run) && k < |run| && run[k].Reset?
    ensures Exec(s, run).st.Closed?
    decreases |run|
  {
    hide Inv, Windowed;
    StepInv(s, run[0]);
    if k == 0 {
      RunForward(Step(s, Reset), run[1..]);
    } else {
      ResetEnds(Step(s, run[0]), run[1..], k - 1);
    }
  }

  /** After any run no close, FIN or acknowledgement that a finished call dealt
      with is missing from the state word, and none that never happened is in it. */
  lemma NothingLost(n: nat, mine: nat, theirs: nat, run: seq<Action>)
    requires Timely(Initial(n, mine, theirs), run)
    ensures Encodes(Exec(Initial(n, mine, theirs), run))
  {
    ExecInv(Initial(n, mine, theirs), run);
  }

  /** With no call under way and no reset, the state word is exactly the three
      facts: we closed, the peer's FIN was accepted, our FIN was acknowledged. */
  lemma QuiescentExact(n: nat, mine: nat, theirs: nat, run: seq<Action>)
    requires Timely(Initial(n, mine, theirs), run)
    ensures var s := Exec(Initial(n, mine, theirs), run);
            !s.reset && (forall i :: 0 <= i < |s.threads| ==> s.threads[i].Idle?) ==>
              && (LocallyClosed(s.st) <==> s.shut)
              && (!s.late ==> (PeerClosed(s.st) <==> s.finDone))
              && (!s.excess ==> (FinAcked(s.st) <==> s.ackDone) && (FinAcked(s.st) <==> s.confirmed))
  {
    ExecInv(Initial(n, mine, theirs), run);
  }

  /** What makes the state word say that our FIN is acknowledged: a packet that
      acknowledged it, or one that acknowledged more than was sent. */
  lemma FinAckedCause(n: nat, mine: nat, theirs: nat, run: seq<Action>)
    requires Timely(Initial(n, mine, theirs), run)
    ensures var s := Exec(Initial(n, mine, theirs), run);
            !s.reset && FinAcked(s.st) ==> s.confirmed || s.excess
  {
    ExecInv(Initial(n, mine, theirs), run);
  }

  // ------------------------------------------------------------------
  // Runs of one thread that go wrong

  /** Some run within the window leads from one state to the other. */
  ghost predicate Reaches(from: State, s: State)
  {
    exists run :: Timely(from, run) && Exec(from, run) == s
  }

  lemma ReachesSelf(s: State)
    ensures Reaches(s, s)
  {
    assert Timely(s, []) && Exec(s, []) == s;
  }

  lemma {:induction false} ExecMore(s: State, run: seq<Action>, a: Action)
    requires Timely(s, run) && Windowed(Exec(s, run))
    ensures Timely(s, run + [a]) && Exec(s, run + [a]) == Step(Exec(s, run), a)
    decreases |run|
  {
    hide Step, Windowed;
    if run == [] {
      assert [a][1..] == [] && run + [a] == [a];
    } else {
      assert (run + [a])[1..] == run[1..] + [a];
      ExecMore(Step(s, run[0]), run[1..], a);
    }
  }

  lemma ReachesMore(from: State, s: State, a: Action, s': State)
    requires Reaches(from, s) && |s.threads| == 1 && Recent(s, s.threads[0]) && -TWO_31 <= s.sendSeq - s.sendAck < TWO_31
    requires Step(s, a) == s'
    ensures Reaches(from, s')
  {
    hide Step, Recent;
    var run :| Timely(from, run) && Exec(from, run) == s;
    ExecMore(from, run, a);
  }

  // What the steps of a receive call do when there is only one thread.

  lemma PutOne(s: State, t: Thread)
    requires |s.threads| == 1
    ensures Put(s, 0, t) == s.(threads := [t])
  {
  }

  lemma ArriveOne(s: State, p: Packet)
    requires s.threads == [Idle] && p.hasAck && !p.fin
    ensures var c := Received(s, p);
            Step(s, Arrive(0, p)) ==
              s.(threads := [Ack(c)], confirmed := s.confirmed || c.ackDue, excess := s.excess || p.ack > Sent(s))
  {
    hide Put, Sent;
    PutOne(s, Ack(Received(s, p)));
  }

  lemma LoadAckOne(s: State, p: Call)
    requires s.threads == [Ack(p)]
    ensures Step(s, LoadAck(0)) == s.(threads := [AckLoop(p, s.sendAck)])
  {
    hide Put, AckLoop;
    PutOne(s, AckLoop(p, s.sendAck));
  }

  lemma SwapAckOne(s: State, p: Call, was: nat)
    requires s.threads == [AckSwap(p, was)]
    ensures Step(s, SwapAck(0)) ==
              if Wrap32(s.sendAck) == Wrap32(was) then s.(sendAck := p.ack) else s.(threads := [AckLoop(p, s.sendAck)])
  {
    hide Put, AckLoop, Wrap32;
    PutOne(s, AckLoop(p, s.sendAck));
  }

  lemma LoadStateOne(s: State, p: Call)
    requires s.threads == [Conn(p)] && (s.st.Established? || s.st.FinWait1?)
    ensures Step(s, LoadState(0)) == s.(threads := [TestFin(p, s.st)])
  {
    hide Put;
    PutOne(s, TestFin(p, s.st));
  }

  lemma NoFin(s: State, p: Call)
    requires !p.fin
    ensures !FinNow(s, p)
  {
  }

  lemma ReadFinOne(s: State, p: Call)
    requires s.threads == [TestFin(p, s.st)] && !p.fin && p.hasAck && (s.st.Established? || s.st.FinWait1?)
    ensures Step(s, ReadFin(0)) ==
              if s.st.FinWait1? then s.(threads := [TestAck(p, FinWait1, false)])
              else s.(threads := [Idle], finDone := s.finDone || p.finDue, ackDone := s.ackDone || p.ackDue)
  {
    hide AfterFin, FinNow;
    NoFin(s, p);
    AfterFinOne(s, p);
  }

  lemma AfterFinOne(s: State, p: Call)
    requires s.threads == [TestFin(p, s.st)] && p.hasAck && (s.st.Established? || s.st.FinWait1?)
    ensures AfterFin(s, 0, false) ==
              if s.st.FinWait1? then s.(threads := [TestAck(p, FinWait1, false)])
              else s.(threads := [Idle], finDone := s.finDone || p.finDue, ackDone := s.ackDone || p.ackDue)
  {
    hide Put;
    PutOne(s, TestAck(p, FinWait1, false));
    PutOne(s, Idle);
  }

  lemma ReadSentOne(s: State, p: Call)
    requires s.threads == [TestAck(p, FinWait1, false)]
    ensures Step(s, ReadSent(0)) == s.(threads := [TestSent(p, FinWait1, false, s.sendSeq)])
  {
    hide Put;
    PutOne(s, TestSent(p, FinWait1, false, s.sendSeq));
  }

  lemma ReadAckOne(s: State, p: Call)
    requires s.threads == [TestSent(p, FinWait1, false, s.sendSeq)] && p.hasAck && 0 < s.sendAck - s.sendSeq <= TWO_31
    ensures Step(s, ReadAck(0)) == s.(threads := [ConnSwap(p, FinWait1, FinWait2)])
  {
    hide Put;
    AckExact(s, p);
    PutOne(s, ConnSwap(p, FinWait1, FinWait2));
  }

  lemma SwapStateOne(s: State, p: Call)
    requires s.threads == [ConnSwap(p, FinWait1, FinWait2)] && s.st.FinWait1?
    ensures var r := Step(s, SwapState(0));
            r.st.FinWait2? && r.excess == s.excess && r.confirmed == s.confirmed && r.reset == s.reset
  {
    hide Put;
    PutOne(s.(st := FinWait2), Idle);
  }

  lemma AheadLoop(p: Call, v: nat)
    requires 0 < p.ack - v < TWO_31
    ensures AckLoop(p, v) == AckSwap(p, v) && AckLoop(p, p.ack) == Conn(p) && Wrap32(p.ack) != Wrap32(v)
  {
    SeqCompareExact(v, p.ack);
    SeqCompareExact(p.ack, p.ack);
    if Wrap32(p.ack) == Wrap32(v) {
      ModInjective(v, p.ack, TWO_32);
    }
  }

  /** A packet's acknowledgement is stored, if it is ahead of the last one. */
  lemma StoreAck(from: State, s: State, p: Packet)
    requires Reaches(from, s) && s.threads == [Idle] && -TWO_31 <= s.sendSeq - s.sendAck < TWO_31
    requires p.hasAck && !p.fin && p.end == s.recvSeq
    requires 0 < p.ack - s.sendAck < TWO_31 && -TWO_31 <= s.sendSeq - p.ack < TWO_31
    ensures var c := Received(s, p);
            var s' := s.(confirmed := s.confirmed || c.ackDue, excess := s.excess || p.ack > Sent(s));
            Reaches(from, s'.(sendAck := p.ack, threads := [Conn(c)]))
  {
    hide Reaches, AckLoop, Wrap32, Step, Sent;
    var c := Received(s, p);
    AheadLoop(c, s.sendAck);
    ArriveOne(s, p);
    var s1 := Step(s, Arrive(0, p));
    ReachesMore(from, s, Arrive(0, p), s1);
    LoadAckOne(s1, c);
    var s2 := s1.(threads := [AckSwap(c, s.sendAck)]);
    ReachesMore(from, s1, LoadAck(0), s2);
    SwapAckOne(s2, c, s.sendAck);
    var s3 := s2.(sendAck := p.ack);
    ReachesMore(from, s2, SwapAck(0), s3);
    SwapAckOne(s3, c, s.sendAck);
    ReachesMore(from, s3, SwapAck(0), s3.(threads := [Conn(c)]));
  }

  /** A receive call of which nothing remains but the acknowledgement. */
  lemma AckCall(from: State, s: State, ack: nat)
    requires Reaches(from, s) && s.threads == [Idle] && s.st.Established?
    requires s.sendAck < ack <= s.sendSeq < s.sendAck + TWO_31
    ensures Reaches(from, s.(sendAck := ack))
  {
    hide Reaches, Step;
    var p := Packet(true, ack, false, s.recvSeq);
    StoreAck(from, s, p);
    var c := Received(s, p);
    var s1 := s.(sendAck := ack, threads := [Conn(c)]);
    LoadStateOne(s1, c);
    var s2 := s1.(threads := [TestFin(c, Established)]);
    ReachesMore(from, s1, LoadState(0), s2);
    ReadFinOne(s2, c);
    ReachesMore(from, s2, ReadFin(0), s.(sendAck := ack));
  }

  /** A connection that has closed and hears of more than it sent takes its FIN for
      acknowledged. */
  lemma ExcessReached(mine: nat, theirs: nat, ack: nat)
    requires mine + 1 < ack < mine + TWO_31
    ensures exists s :: Reaches(Initial(1, mine, theirs), s) && s.st.FinWait2? && s.excess && !s.confirmed && !s.reset
  {
    hide Reaches;
    var s := Initial(1, mine, theirs);
    assert s.threads == [Idle];
    ReachesSelf(s);
    var s1 := s.(began := true, threads := [Shut]);
    ReachesMore(s, s, StartShutdown(0), s1);
    var s2 := s1.(threads := [ShutSwap(Established)]);
    ReachesMore(s, s1, LoadShutdown(0), s2);
    var s3 := s2.(st := FinWait1, shut := true, threads := [Idle]);
    ReachesMore(s, s2, SwapShutdown(0), s3);
    var p := Packet(true, ack, false, theirs);
    StoreAck(s, s3, p);
    var c := Received(s3, p);
    ExcessMoves(s, s3.(sendAck := ack, excess := true, threads := [Conn(c)]), c);
  }

  lemma ExcessMoves(from: State, s: State, p: Call)
    requires Reaches(from, s) && s.threads == [Conn(p)] && s.st.FinWait1? && p.hasAck && !p.fin && p.end == s.recvSeq
    requires 0 < s.sendAck - s.sendSeq <= TWO_31 && s.excess && !s.confirmed && !s.reset
    ensures exists s' :: Reaches(from, s') && s'.st.FinWait2? && s'.excess && !s'.confirmed && !s'.reset
  {
    hide Reaches, Step;
    LoadStateOne(s, p);
    var s1 := s.(threads := [TestFin(p, FinWait1)]);
    ReachesMore(from, s, LoadState(0), s1);
    ReadFinOne(s1, p);
    var s2 := s.(threads := [TestAck(p, FinWait1, false)]);
    ReachesMore(from, s1, ReadFin(0), s2);
    ReadSentOne(s2, p);
    var s3 := s.(threads := [TestSent(p, FinWait1, false, s.sendSeq)]);
    ReachesMore(from, s2, ReadSent(0), s3);
    ReadAckOne(s3, p);
    var s4 := s.(threads := [ConnSwap(p, FinWait1, FinWait2)]);
    ReachesMore(from, s3, ReadAck(0), s4);
    SwapStateOne(s4, p);
    ReachesMore(from, s4, SwapState(0), Step(s4, SwapState(0)));
  }

  /** A FIN that is n bytes early: the call that brings it finds it out of order. */
  lemma FinArrives(mine: nat, theirs: nat, n: nat)
    requires 0 < n < TWO_31
    ensures var p := Call(false, 0, true, theirs + n, false, false);
            var s := Initial(1, mine, theirs);
            Reaches(s, s.(threads := [TestFin(p, Established)], fins := {theirs + n}))
  {
    hide Reaches;
    var s, p := Initial(1, mine, theirs), Call(false, 0, true, theirs + n, false, false);
    assert s.threads == [Idle];
    ReachesSelf(s);
    var s1 := s.(threads := [Conn(p)], fins := {theirs + n});
    PutOne(s, Conn(p));
    assert s.fins + {theirs + n} == {theirs + n};
    ReachesMore(s, s, Arrive(0, Packet(false, 0, true, theirs + n)), s1);
    LoadStateOne(s1, p);
    ReachesMore(s, s1, LoadState(0), s1.(threads := [TestFin(p, Established)]));
  }

  /** If the bytes before it come while its call is under way, it counts. */
  lemma LateFinCounts(mine: nat, theirs: nat, n: nat)
    requires 0 < n < TWO_31
    ensures exists s :: Reaches(Initial(1, mine, theirs), s) && s.threads == [Idle] && s.st.CloseWait? && s.late && !s.finDone
  {
    hide Reaches;
    var s, p := Initial(1, mine, theirs), Call(false, 0, true, theirs + n, false, false);
    FinArrives(mine, theirs, n);
    var s1 := s.(threads := [TestFin(p, Established)], fins := {theirs + n});
    var s2 := s1.(recvSeq := theirs + n, late := true);
    assert FinBetween(s1.threads[0], theirs, theirs + n);
    ReachesMore(s, s1, Deliver(n), s2);
    FinExact(s2, s2.threads[0]);
    var s3 := s2.(threads := [ConnSwap(p, Established, CloseWait)]);
    PutOne(s2, ConnSwap(p, Established, CloseWait));
    ReachesMore(s, s2, ReadFin(0), s3);
    PutOne(s3.(st := CloseWait), Idle);
    ReachesMore(s, s3, SwapState(0), s3.(st := CloseWait, threads := [Idle]));
  }

  /** If they come after it has returned, it does not: the peer has to send it
      again. */
  lemma EarlyFinForgotten(mine: nat, theirs: nat, n: nat)
    requires 0 < n < TWO_31
    ensures exists s :: Reaches(Initial(1, mine, theirs), s) && s.threads == [Idle] && s.st.Established? && FinInOrder(s)
  {
    hide Reaches;
    var s, p := Initial(1, mine, theirs), Call(false, 0, true, theirs + n, false, false);
    FinArrives(mine, theirs, n);
    var s1 := s.(threads := [TestFin(p, Established)], fins := {theirs + n});
    FinExact(s1, s1.threads[0]);
    var s2 := s1.(threads := [Idle]);
    PutOne(s1, Idle);
    ReachesMore(s, s1, ReadFin(0), s2);
    var s3 := s2.(recvSeq := theirs + n);
    ReachesMore(s, s2, Deliver(n), s3);
    assert theirs + n in s3.fins;
  }

  /** Outside the window the acknowledgement loop takes an old acknowledgement for
      a new one and moves backwards: exactly when it is 2^31 or more behind. */
  lemma StaleAckIff(v: nat, p: Call)
    requires p.ack <= v
    ensures AckLoop(p, v).AckSwap? <==> (v - p.ack) % TWO_32 >= TWO_31
  {
    Wrap32Sub(v, p.ack);
  }

  lemma StaleAckMovesBack(s: State, p: Call)
    requires s.threads == [Ack(p)] && p.ack <= s.sendAck && (s.sendAck - p.ack) % TWO_32 >= TWO_31
    ensures var s' := Exec(s, [LoadAck(0), SwapAck(0)]);
            s'.sendAck == p.ack && s'.sendAck < s.sendAck
  {
    StaleAckIff(s.sendAck, p);
    var s1 := Step(s, LoadAck(0));
    assert [LoadAck(0), SwapAck(0)][1..] == [SwapAck(0)] && [SwapAck(0)][1..] == [];
    assert s1.threads == [AckSwap(p, s.sendAck)];
  }

  /** A state as it supposes is reached in the window: 2^31 bytes are sent and
      acknowledged, then a packet from the beginning turns up again. */
  lemma StaleReached(mine: nat, theirs: nat)
    ensures var p := Call(true, mine, false, theirs, false, false);
            exists s :: Reaches(Initial(1, mine, theirs), s) && s.threads == [Ack(p)] && s.sendAck == mine + TWO_31
  {
    hide Reaches;
    var s := Initial(1, mine, theirs);
    assert s.threads == [Idle];
    ReachesSelf(s);
    var n := TWO_31 - 1;
    var s1 := s.(sendSeq := mine + n);
    ReachesMore(s, s, Send(n), s1);
    AckCall(s, s1, mine + n);
    var s2 := s1.(sendAck := mine + n);
    var s3 := s2.(sendSeq := mine + n + 1);
    ReachesMore(s, s2, Send(1), s3);
    AckCall(s, s3, mine + n + 1);
    var s4 := s3.(sendAck := mine + n + 1);
    var p := Packet(true, mine, false, theirs);
    ArriveOne(s4, p);
    ReachesMore(s, s4, Arrive(0, p), s4.(threads := [Ack(Received(s4, p))]));
  }
}
