/** Socket removal: unlinking from a hash chain that a poller may be walking, and
    the grace period that must pass before the socket is reused. A step relation
    over all interleavings of one poll lock and any number of removers. */
module Reclaim {
  import opened Words

  datatype Link = Nil | To(i: nat)

  /** Where the owner of a socket is. Request numbers are unbounded; the code
      sees them modulo 2^32. */
  datatype Local =
    | Free
    | Linked
    | Unlinked
    | Loaded(seen: U32)
    | Waiting(r: nat)
    | SawLock(r: nat)

  /** The holder of the poll lock, if any: between packets, at a socket of the
      chain (looking at it or delivering to it), or about to store an ack. */
  datatype Poller = Off | Polling | Walking(cur: Link) | Acking(v: nat)

  /** The chain's pointers, owners, poller and counters, with four histories: the
      chain as a sequence, what the walk can still reach, what was linked when it
      began, and what it has passed. */
  datatype State = State(head: Link, next: seq<Link>, owners: seq<Local>, poller: Poller, req: nat, ack: nat,
                         chain: seq<nat>, ahead: seq<nat>, start: set<nat>, passed: set<nat>)

  datatype Action =
    | Insert(i: nat) | Unlink(i: nat) | LoadReq(i: nat) | SwapReq(i: nat) | ReadLock(i: nat) | ReadAck(i: nat)
    | TakeLock | DropLock | LoadHead | Follow | EndWalk | LoadAck | StoreAck

  // ------------------------------------------------------------------
  // Pointer chains

  /** Following next from cur visits exactly p. */
  predicate Path(next: seq<Link>, cur: Link, p: seq<nat>)
    decreases |p|
  {
    if p == [] then cur == Nil
    else cur == To(p[0]) && p[0] < |next| && Path(next, next[p[0]], p[1..])
  }

  predicate Distinct(p: seq<nat>)
  {
    p == [] || (p[0] !in p[1..] && Distinct(p[1..]))
  }

  function Members(p: seq<nat>): (m: set<nat>)
    ensures forall i :: i in m <==> i in p
  {
    set i | i in p
  }

  /** The element before i. */
  function Pred(p: seq<nat>, i: nat): (q: nat)
    requires p != [] && i in p[1..]
    ensures q in p
  {
    if p[1] == i then p[0] else Pred(p[1..], i)
  }

  /** p without the element that follows q. */
  function Splice(p: seq<nat>, q: nat): (r: seq<nat>)
  {
    if |p| < 2 then p
    else if p[0] == q then [q] + p[2..]
    else [p[0]] + Splice(p[1..], q)
  }

  lemma {:induction false} PathElsewhere(next: seq<Link>, cur: Link, p: seq<nat>, q: nat, v: Link)
    requires Path(next, cur, p) && q !in p && q < |next|
    ensures Path(next[q := v], cur, p)
    decreases |p|
  {
    if p != [] {
      PathElsewhere(next, next[p[0]], p[1..], q, v);
    }
  }

  /** Redirecting q past x takes x out of every path through q, and leaves the
      other paths, even those that still start at or before x, as they were. */
  lemma {:induction false} PathSplice(next: seq<Link>, cur: Link, p: seq<nat>, q: nat, x: nat)
    requires Path(next, cur, p) && Distinct(p) && q < |next| && x < |next| && next[q] == To(x)
    ensures var p' := Splice(p, q);
            && Path(next[q := next[x]], cur, p') && Distinct(p')
            && (forall k :: k in p' ==> k in p) && (forall k :: k in p ==> k in p' || k == x)
    decreases |p|
  {
    if p != [] {
      if p[0] == q {
        assert p[1..] != [] && p[1] == x && p[1..][1..] == p[2..];
        PathElsewhere(next, next[x], p[2..], q, next[x]);
        assert ([q] + p[2..])[1..] == p[2..];
      } else {
        PathSplice(next, next[p[0]], p[1..], q, x);
        var t := Splice(p[1..], q);
        assert ([p[0]] + t)[1..] == t;
        assert p == [p[0]] + p[1..];
      }
    }
  }

  /** Unlinking from the chain itself removes exactly i. */
  lemma {:induction false} PredLinks(next: seq<Link>, cur: Link, p: seq<nat>, i: nat)
    requires Path(next, cur, p) && Distinct(p) && p != [] && i in p[1..]
    ensures var q := Pred(p, i); q < |next| && next[q] == To(i) && i !in Splice(p, q)
    decreases |p|
  {
    if p[1] == i {
      assert p[1..][1..] == p[2..];
    } else {
      PredLinks(next, next[p[0]], p[1..], i);
      assert p[1..][0] == p[1] && i in p[1..][1..];
      var t := p[1..];
      assert Pred(p, i) in t;
    }
  }

  /** `__exa_hashtable_find`: the walk that finds the predecessor. */
  method Find(next: seq<Link>, head: Link, i: nat, ghost chain: seq<nat>) returns (found: bool, prev: Link)
    requires Path(next, head, chain)
    ensures found <==> i in chain
    ensures found && Distinct(chain) ==> prev == if chain[0] == i then Nil else To(Pred(chain, i))
  {
    var cur;
    prev, cur := Nil, head;
    ghost var rest := chain;
    ghost var whole := chain;
    while cur != Nil
      invariant Path(next, cur, rest)
      invariant i in chain <==> i in rest
      invariant prev == Nil ==> rest == chain && whole == chain
      invariant prev != Nil ==> whole != [] && prev == To(whole[0]) && rest == whole[1..]
      invariant prev != Nil && Distinct(chain) && i in rest ==> chain[0] != i && Pred(chain, i) == Pred(whole, i)
      decreases |rest|
    {
      if cur.i == i {
        return true, prev;
      }
      prev, cur := cur, next[cur.i];
      whole, rest := rest, rest[1..];
    }
    return false, Nil;
  }

  // ------------------------------------------------------------------
  // The steps

  /** The test of the waiting loop on 32-bit words. */
  predicate Passes(ack: nat, r: nat)
  {
    SeqCompare(Wrap32(ack), Wrap32(r)) > 0
  }

  function Step(s: State, a: Action): (r: State)
    requires Shape(s)
  {
    match a
    case Insert(i) =>
      if i >= |s.owners| || !s.owners[i].Free? then s
      else s.(next := s.next[i := s.head], head := To(i), owners := s.owners[i := Linked], chain := [i] + s.chain)
    case Unlink(i) =>
      if i >= |s.owners| || !s.owners[i].Linked? then s
      else if s.chain[0] == i then
        s.(head := s.next[i], owners := s.owners[i := Unlinked], chain := s.chain[1..])
      else
        var q := Pred(s.chain, i);
        s.(next := s.next[q := s.next[i]], owners := s.owners[i := Unlinked],
           chain := Splice(s.chain, q), ahead := Splice(s.ahead, q))
    case LoadReq(i) =>
      if i >= |s.owners| || !s.owners[i].Unlinked? then s
      else s.(owners := s.owners[i := Loaded(Wrap32(s.req))])
    case SwapReq(i) =>
      if i >= |s.owners| || !s.owners[i].Loaded? then s
      else if s.owners[i].seen != Wrap32(s.req) then s.(owners := s.owners[i := Unlinked])
      else s.(owners := s.owners[i := Waiting(s.req)], req := s.req + 1)
    case ReadLock(i) =>
      if i >= |s.owners| || !s.owners[i].Waiting? then s
      else s.(owners := s.owners[i := if s.poller.Off? then Free else SawLock(s.owners[i].r)])
    case ReadAck(i) =>
      if i >= |s.owners| || !s.owners[i].SawLock? then s
      else s.(owners := s.owners[i := if Passes(s.ack, s.owners[i].r) then Free else Waiting(s.owners[i].r)])
    case TakeLock => if s.poller.Off? then s.(poller := Polling) else s
    case DropLock => if s.poller.Polling? then s.(poller := Off) else s
    case LoadHead =>
      if !s.poller.Polling? then s
      else s.(poller := Walking(s.head), ahead := s.chain, start := Members(s.chain), passed := {})
    case Follow =>
      if !s.poller.Walking? || s.poller.cur == Nil then s
      else var c := s.poller.cur.i;
           s.(poller := Walking(s.next[c]), ahead := s.ahead[1..], passed := s.passed + {c})
    case EndWalk =>
      if !s.poller.Walking? then s
      else s.(poller := Polling, ahead := [], start := {}, passed := {})
    case LoadAck => if s.poller.Polling? then s.(poller := Acking(s.req)) else s
    case StoreAck => if s.poller.Acking? then s.(poller := Polling, ack := s.poller.v) else s
  }

  function Exec(s: State, run: seq<Action>): (r: State)
    requires Inv(s) && Timely(s, run)
    ensures Inv(r) && |r.owners| == |s.owners|
    decreases |run|
  {
    if run == [] then s
    else StepInv(s, run[0]); Exec(Step(s, run[0]), run[1..])
  }

  /** No remover reads the ack when more than 2^31 requests are ahead of it. */
  predicate InTime(s: State, a: Action)
  {
    a.ReadAck? && a.i < |s.owners| && s.owners[a.i].SawLock? ==> s.owners[a.i].r - s.ack <= TWO_31
  }

  predicate Timely(s: State, run: seq<Action>)
    requires Inv(s)
    decreases |run|
  {
    run != [] ==> InTime(s, run[0]) && (StepInv(s, run[0]); Timely(Step(s, run[0]), run[1..]))
  }

  // ------------------------------------------------------------------
  // The invariant

  predicate Shape(s: State)
  {
    && |s.next| == |s.owners|
    && Path(s.next, s.head, s.chain) && Distinct(s.chain)
    && (forall i :: i in s.chain ==> i < |s.owners|)
    && (forall i :: 0 <= i < |s.owners| ==> (i in s.chain <==> s.owners[i].Linked?))
    && (if s.poller.Walking? then Path(s.next, s.poller.cur, s.ahead) && Distinct(s.ahead) else s.ahead == [] && s.start == {})
    && (forall i :: i in s.ahead ==> i < |s.owners|)
  }

  /** The request of this owner has been seen by the end of some poll section. */
  predicate Heard(s: State, l: Local)
  {
    (l.Waiting? || l.SawLock?) && (s.ack > l.r || (s.poller.Acking? && s.poller.v > l.r))
  }

  predicate Counters(s: State)
  {
    && s.ack <= s.req && (s.poller.Acking? ==> s.ack <= s.poller.v <= s.req)
    && forall i :: 0 <= i < |s.owners| && (s.owners[i].Waiting? || s.owners[i].SawLock?) ==> s.owners[i].r < s.req
  }

  /** Owner i may reuse its socket, or is about to be told so. */
  predicate Out(s: State, i: nat)
    requires i < |s.owners|
  {
    s.owners[i].Free? || Heard(s, s.owners[i])
  }

  predicate Inv(s: State)
  {
    && Shape(s) && Counters(s)
    && (forall i :: 0 <= i < |s.owners| && Out(s, i) ==> i !in s.ahead && i !in s.start)
    && (forall i :: i in s.chain && i in s.start ==> i in s.passed || i in s.ahead)
  }

  /** Nothing linked, nobody polling. */
  function Initial(n: nat): (s: State)
    ensures Inv(s) && |s.owners| == n
  {
    State(Nil, seq(n, i => Nil), seq(n, i => Free), Off, 0, 0, [], [], {}, {})
  }

  /** The 32-bit test passes early exactly when more than half the number space
      of requests is ahead of the ack. */
  lemma EarlyIff(ack: nat, r: nat)
    requires ack <= r
    ensures Passes(ack, r) <==> (r - ack) % TWO_32 > TWO_31
  {
    Wrap32Sub(ack, r);
    WrapNegative(r - ack);
    assert -(r - ack) == ack - r && Wrap32(r - ack) == (r - ack) % TWO_32;
    hide Wrap32;
  }

  lemma InsertInv(s: State, i: nat)
    requires Inv(s)
    ensures Inv(Step(s, Insert(i)))
  {
    if i < |s.owners| && s.owners[i].Free? {
      var t := Step(s, Insert(i));
      assert Out(s, i);
      PathElsewhere(s.next, s.head, s.chain, i, s.head);
      assert t.chain[1..] == s.chain;
      if s.poller.Walking? {
        PathElsewhere(s.next, s.poller.cur, s.ahead, i, s.head);
      }
      forall j | 0 <= j < |t.owners| && Out(t, j)
        ensures j !in t.ahead && j !in t.start
      {
        assert Out(s, j);
      }
    }
  }

  lemma UnlinkShape(s: State, i: nat)
    requires Shape(s) && i < |s.owners| && s.owners[i].Linked?
    ensures var t := Step(s, Unlink(i));
            && Shape(t) && (forall k :: k in t.ahead ==> k in s.ahead) && (forall k :: k in s.ahead ==> k in t.ahead || k == i)
            && (forall k :: k in t.chain <==> k in s.chain && k != i)
  {
    var c := s.chain;
    assert c == [c[0]] + c[1..];
    if c[0] == i {
      assert forall k :: k in c[1..] <==> k in c && k != i;
    } else {
      var q := Pred(c, i);
      PredLinks(s.next, s.head, c, i);
      PathSplice(s.next, s.head, c, q, i);
      if s.poller.Walking? {
        PathSplice(s.next, s.poller.cur, s.ahead, q, i);
      }
    }
  }

  lemma UnlinkInv(s: State, i: nat)
    requires Inv(s)
    ensures Inv(Step(s, Unlink(i)))
  {
    if i < |s.owners| && s.owners[i].Linked? {
      UnlinkShape(s, i);
      hide Shape, Step, Path, Distinct, Splice, Pred;
      var t := Step(s, Unlink(i));
      UnlinkFrame(s, i);
      forall j | 0 <= j < |t.owners| && Out(t, j)
        ensures j !in t.ahead && j !in t.start
      {
        assert Out(s, j);
      }
    }
  }

  lemma UnlinkFrame(s: State, i: nat)
    requires Shape(s) && i < |s.owners| && s.owners[i].Linked?
    ensures var t := Step(s, Unlink(i));
            t.(head := s.head, next := s.next, chain := s.chain, ahead := s.ahead) == s.(owners := s.owners[i := Unlinked])
  {
  }

  /** A step that changes only one owner, and not into or out of the chain. */
  lemma OwnerInv(s: State, t: State, i: nat, l: Local)
    requires Inv(s) && i < |s.owners| && !s.owners[i].Linked? && !l.Linked?
    requires t == s.(owners := s.owners[i := l], req := t.req) && s.req <= t.req
    requires l.Waiting? || l.SawLock? ==> l.r < t.req
    requires Out(t, i) ==> i !in s.ahead && i !in s.start
    ensures Inv(t)
  {
  }

  lemma RequestInv(s: State, a: Action)
    requires Inv(s) && (a.LoadReq? || a.SwapReq? || a.ReadLock? || a.ReadAck?) && InTime(s, a)
    ensures Inv(Step(s, a))
  {
    hide Path, Distinct;
    var t := Step(s, a);
    if a.i < |s.owners| && t != s {
      if a.ReadAck? {
        var r := s.owners[a.i].r;
        if s.ack <= r {
          EarlyIff(s.ack, r);
        }
        assert t.owners[a.i].Free? ==> Out(s, a.i);
        assert Heard(t, t.owners[a.i]) ==> Out(s, a.i);
      } else if a.ReadLock? {
        assert Heard(t, t.owners[a.i]) ==> Out(s, a.i);
      }
      OwnerInv(s, t, a.i, t.owners[a.i]);
    }
  }

  lemma PollInv(s: State, a: Action)
    requires Inv(s) && (a.TakeLock? || a.DropLock? || a.LoadHead? || a.Follow? || a.EndWalk? || a.LoadAck? || a.StoreAck?)
    ensures Inv(Step(s, a))
  {
    var t := Step(s, a);
    assert forall k :: k in t.ahead ==> k in s.ahead || t.ahead == s.chain;
    forall j | 0 <= j < |t.owners| && Out(t, j)
      ensures j !in t.ahead && j !in t.start
    {
      assert Out(s, j) || t.ahead == [];
    }
  }

  lemma StepInv(s: State, a: Action)
    requires Inv(s) && InTime(s, a)
    ensures Inv(Step(s, a))
  {
    hide Inv, Step, Shape;
    match a
    case Insert(i) => InsertInv(s, i);
    case Unlink(i) => UnlinkInv(s, i);
    case LoadReq(i) => RequestInv(s, a);
    case SwapReq(i) => RequestInv(s, a);
    case ReadLock(i) => RequestInv(s, a);
    case ReadAck(i) => RequestInv(s, a);
    case _ => PollInv(s, a);
  }

  lemma {:induction false} SpliceIs(p: seq<nat>, i: nat, k: nat)
    requires Distinct(p) && 0 < k < |p| && p[k] == i
    ensures i in p[1..] && Splice(p, Pred(p, i)) == p[..k] + p[k + 1..]
  {
    assert p[1..][k - 1] == i;
    if k == 1 {
      assert p[..1] == [p[0]];
    } else {
      DistinctAt(p, 1, k);
      SpliceIs(p[1..], i, k - 1);
      assert Pred(p[1..], i) in p[1..];
      assert p[..k] == [p[0]] + p[1..][..k - 1] && p[1..][k..] == p[k + 1..];
    }
  }

  lemma {:induction false} DistinctAt(p: seq<nat>, j: nat, k: nat)
    requires Distinct(p) && j < k < |p|
    ensures p[j] != p[k]
  {
    if j == 0 {
      assert p[1..][k - 1] == p[k];
    } else {
      DistinctAt(p[1..], j - 1, k - 1);
    }
  }

  /** Inserting puts the socket in front; unlinking takes out exactly it, wherever it
      is, and keeps the order of the others. */
  lemma ChainChanges(s: State, i: nat)
    requires Inv(s) && i < |s.owners|
    ensures s.owners[i].Free? ==>
              var r := Step(s, Insert(i)); r.chain == [i] + s.chain && r.owners == s.owners[i := Linked]
    ensures s.owners[i].Linked? ==>
              var r := Step(s, Unlink(i));
              && r.owners == s.owners[i := Unlinked]
              && exists k :: 0 <= k < |s.chain| && s.chain[k] == i && r.chain == s.chain[..k] + s.chain[k + 1..]
  {
    if s.owners[i].Linked? {
      var k :| 0 <= k < |s.chain| && s.chain[k] == i;
      if k == 0 {
        assert s.chain[..0] + s.chain[1..] == s.chain[1..];
      } else {
        DistinctAt(s.chain, 0, k);
        SpliceIs(s.chain, i, k);
      }
    }
  }

  /** The wait of an owner whose request is less than 2^31 requests old ends exactly
      when it finds the poll lock free, or its request acknowledged. */
  lemma WaitIff(s: State, i: nat)
    requires Inv(s) && i < |s.owners| && (s.owners[i].Waiting? || s.owners[i].SawLock?)
    requires -TWO_31 <= s.ack - s.owners[i].r < TWO_31
    ensures s.owners[i].Waiting? ==>
              Step(s, ReadLock(i)).owners[i] == if s.poller.Off? then Free else SawLock(s.owners[i].r)
    ensures s.owners[i].SawLock? ==>
              Step(s, ReadAck(i)).owners[i] == if s.ack > s.owners[i].r then Free else Waiting(s.owners[i].r)
  {
    SeqCompareExact(s.ack, s.owners[i].r);
  }

  /** A request takes the next number, if no other came between load and swap. */
  lemma RequestTakes(s: State, i: nat)
    requires Inv(s) && i < |s.owners| && s.owners[i].Unlinked?
    ensures var t := Step(s, LoadReq(i));
            Inv(t) && Step(t, SwapReq(i)) == s.(owners := s.owners[i := Waiting(s.req)], req := s.req + 1)
  {
    StepInv(s, LoadReq(i));
    var t := Step(s, LoadReq(i));
    assert t.owners[i := Waiting(s.req)] == s.owners[i := Waiting(s.req)];
  }

  /** Grace period: whatever the interleaving, the socket under the poller is
      never one whose owner has returned from the wait, nor can the poller still
      get to such a socket. */
  lemma GracePeriod(n: nat, run: seq<Action>)
    requires Timely(Initial(n), run)
    ensures var s := Exec(Initial(n), run);
            && (forall i :: 0 <= i < n && s.owners[i].Free? ==> i !in s.ahead)
            && (s.poller.Walking? && s.poller.cur.To? ==> s.poller.cur.i in s.ahead)
  {
  }

  /** A walk that reaches the end of the chain has passed every socket that was
      linked when it began and still is. */
  lemma WalkComplete(n: nat, run: seq<Action>)
    requires Timely(Initial(n), run)
    ensures var s := Exec(Initial(n), run);
            s.poller == Walking(Nil) ==> forall i :: i in s.chain && i in s.start ==> i in s.passed
  {
  }

  /** A walk that is left alone follows the chain to its end, past every item on the
      way. */
  lemma {:induction false} WalkEnds(s: State)
    requires Inv(s) && s.poller.Walking?
    ensures var run := seq(|s.ahead|, _ => Follow);
            && Timely(s, run)
            && Exec(s, run) == s.(poller := Walking(Nil), ahead := [], passed := s.passed + Members(s.ahead))
    decreases |s.ahead|
  {
    hide Counters, Distinct;
    var run := seq(|s.ahead|, _ => Follow);
    if s.ahead == [] {
      assert Members(s.ahead) == {};
    } else {
      var t := Step(s, Follow);
      StepInv(s, Follow);
      assert run[1..] == seq(|t.ahead|, _ => Follow);
      WalkEnds(t);
      assert s.ahead == [s.ahead[0]] + s.ahead[1..];
      assert Members(s.ahead) == {s.ahead[0]} + Members(s.ahead[1..]);
      assert s.passed + {s.ahead[0]} + Members(s.ahead[1..]) == s.passed + Members(s.ahead);
    }
  }

  /** So a poll section finds whatever is linked. */
  lemma PollFinds(s: State)
    requires Inv(s) && s.poller.Polling?
    ensures var run := [LoadHead] + seq(|s.chain|, _ => Follow);
            && Timely(s, run)
            && var r := Exec(s, run);
               r.poller == Walking(Nil) && r.chain == s.chain && r.passed == Members(s.chain)
  {
    hide Counters, Distinct;
    var t := Step(s, LoadHead);
    StepInv(s, LoadHead);
    WalkEnds(t);
    var run := [LoadHead] + seq(|s.chain|, _ => Follow);
    assert run[1..] == seq(|t.ahead|, _ => Follow);
    assert {} + Members(s.chain) == Members(s.chain);
  }

  /** The wait does end: the next acknowledgement after the request lets the owner
      go, unless 2^31 further requests came first. */
  lemma WaitEnds(s: State, i: nat)
    requires Inv(s) && s.poller.Polling? && i < |s.owners| && s.owners[i].SawLock? && s.req - s.owners[i].r < TWO_31
    ensures InTime(s, LoadAck) && Inv(Step(s, LoadAck))
    ensures var s1 := Step(s, LoadAck); InTime(s1, StoreAck) && Inv(Step(s1, StoreAck))
    ensures Step(Step(Step(s, LoadAck), StoreAck), ReadAck(i)).owners[i].Free?
  {
    StepInv(s, LoadAck);
    StepInv(Step(s, LoadAck), StoreAck);
    SeqCompareExact(s.req, s.owners[i].r);
  }

  // ------------------------------------------------------------------
  // What goes wrong past 2^31 requests

  ghost predicate Reachable(n: nat, s: State)
  {
    exists run :: Timely(Initial(n), run) && Exec(Initial(n), run) == s
  }

  lemma {:induction false} Extend(s: State, run: seq<Action>, a: Action)
    requires Inv(s) && Timely(s, run) && InTime(Exec(s, run), a)
    ensures Timely(s, run + [a]) && Exec(s, run + [a]) == Step(Exec(s, run), a)
    decreases |run|
  {
    hide Step, InTime;
    if run == [] {
      assert run + [a] == [a];
      assert [a][1..] == [];
      StepInv(s, a);
      var t := Step(s, a);
      assert Timely(t, []) && Exec(t, []) == t;
    } else {
      StepInv(s, run[0]);
      assert (run + [a])[1..] == run[1..] + [a];
      Extend(Step(s, run[0]), run[1..], a);
    }
  }

  lemma ReachStep(n: nat, s: State, a: Action)
    requires Reachable(n, s) && InTime(s, a)
    ensures Inv(s) && Reachable(n, Step(s, a))
  {
    var run :| Timely(Initial(n), run) && Exec(Initial(n), run) == s;
    Extend(Initial(n), run, a);
  }

  /** Socket 1 linked, socket 0 not, k requests so far and none acknowledged. */
  function Closed(x: Link, k: nat): (s: State)
  {
    State(To(1), [x, Nil], [Free, Linked], Off, k, 0, [1], [], {}, {})
  }

  /** Socket 0 opens and closes once more while nobody polls. */
  lemma CloseAgain(x: Link, k: nat)
    requires Reachable(2, Closed(x, k))
    ensures Reachable(2, Closed(To(1), k + 1))
  {
    hide Reachable, Inv, Timely, Exec;
    var s := Closed(x, k);
    ReachStep(2, s, Insert(0));
    var s1 := State(To(0), [To(1), Nil], [Linked, Linked], Off, k, 0, [0, 1], [], {}, {});
    assert Step(s, Insert(0)) == s1;
    ReachStep(2, s1, Unlink(0));
    var s2 := s1.(head := To(1), owners := [Unlinked, Linked], chain := [1]);
    assert Step(s1, Unlink(0)) == s2;
    ReachStep(2, s2, LoadReq(0));
    var s3 := s2.(owners := [Loaded(Wrap32(k)), Linked]);
    assert Step(s2, LoadReq(0)) == s3;
    ReachStep(2, s3, SwapReq(0));
    var s4 := s3.(owners := [Waiting(k), Linked], req := k + 1);
    assert Step(s3, SwapReq(0)) == s4;
    ReachStep(2, s4, ReadLock(0));
    assert Step(s4, ReadLock(0)) == Closed(To(1), k + 1);
  }

  lemma {:induction false} CloseOften(k: nat)
    ensures Reachable(2, Closed(if k == 0 then Nil else To(1), k))
  {
    if k == 0 {
      var s := Initial(2);
      assert Timely(s, []) && Exec(s, []) == s;
      ReachStep(2, s, Insert(1));
      assert Step(s, Insert(1)) == Closed(Nil, 0);
    } else {
      CloseOften(k - 1);
      CloseAgain(if k == 1 then Nil else To(1), k - 1);
    }
  }

  /** Socket 1 just unlinked under the poller. */
  function Caught(k: nat): (s: State)
  {
    State(Nil, [To(1), Nil], [Free, Unlinked], Walking(To(1)), k, 0, [], [1], {1}, {})
  }

  lemma CatchIt(k: nat)
    requires Reachable(2, Closed(To(1), k))
    ensures Reachable(2, Caught(k))
  {
    hide Reachable, Inv, Timely, Exec;
    var s := Closed(To(1), k);
    ReachStep(2, s, TakeLock);
    var s1 := s.(poller := Polling);
    assert Step(s, TakeLock) == s1;
    ReachStep(2, s1, LoadHead);
    var s2 := s1.(poller := Walking(To(1)), ahead := [1], start := {1});
    assert Step(s1, LoadHead) == s2;
    ReachStep(2, s2, Unlink(1));
    assert Step(s2, Unlink(1)) == Caught(k);
  }

  /** After 2^31 + 1 closes without a poll, a remover passes the test at once and
      its socket counts as free while the poller is still at it. */
  lemma EarlyReturn()
    ensures exists s :: Reachable(2, s) && Inv(s) && s.owners[1].SawLock? && s.owners[1].r - s.ack == TWO_31 + 1
                        && Step(s, ReadAck(1)).owners[1].Free? && Step(s, ReadAck(1)).poller == Walking(To(1))
  {
    hide Reachable, Inv, Timely, Exec;
    var k := TWO_31 + 1;
    CloseOften(k);
    CatchIt(k);
    var s3 := Caught(k);
    ReachStep(2, s3, LoadReq(1));
    var s4 := s3.(owners := [Free, Loaded(Wrap32(k))]);
    assert Step(s3, LoadReq(1)) == s4;
    ReachStep(2, s4, SwapReq(1));
    var s5 := s4.(owners := [Free, Waiting(k)], req := k + 1);
    assert Step(s4, SwapReq(1)) == s5;
    ReachStep(2, s5, ReadLock(1));
    var s6 := s5.(owners := [Free, SawLock(k)]);
    assert Step(s5, ReadLock(1)) == s6;
    ReachStep(2, s6, TakeLock);
    EarlyIff(0, k);
    assert Step(s6, ReadAck(1)).owners[1].Free?;
  }
}
