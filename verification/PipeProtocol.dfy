/** Any number of readers and writers at one pipe, under every interleaving the
    scheduler allows: bytes come out in the order they went in, and nobody
    sleeps through a wakeup. */
module PipeProtocol {
  import opened Common
  import opened Physical
  import opened Scheduling
  import opened Threads
  import opened Pipes

  /** A call in progress: it keeps the size or the bytes it came with. */
  datatype Call = ReadCall(size: nat) | WriteCall(data: seq<Byte>)

  /** The two wait queues of the pipe. */
  datatype Ends = Ends(readable: Queue, writable: Queue)

  /** `accepted` and `delivered` record all bytes ever written and read. */
  datatype Sys = Sys(pipe: PipeView, sched: View, calls: map<Tid, Call>, accepted: seq<Byte>, delivered: seq<Byte>)

  datatype Move = Enter(call: Call) | Turn | Close(readEnd: bool) | Other(event: Event)

  function QueueOf(e: Ends, call: Call): Queue {
    if call.ReadCall? then e.readable else e.writable
  }

  /** Each call is made through an open end, and asks for something. */
  predicate Proper(p: PipeView, call: Call) {
    match call
    case ReadCall(size) => size > 0 && p.reader
    case WriteCall(data) => data != [] && p.writer
  }

  function OutcomeOf(p: PipeView, call: Call): Outcome
    requires |p.bytes| <= CAPACITY
  {
    match call
    case ReadCall(size) => ReadOutcome(p, size)
    case WriteCall(data) => WriteOutcome(p, data)
  }

  /** The call must wait: nothing to read from an open pipe, or no room in one. */
  predicate MustWait(p: PipeView, call: Call) {
    match call
    case ReadCall(_) => p.bytes == [] && p.writer
    case WriteCall(_) => |p.bytes| == CAPACITY && p.reader
  }

  ghost predicate TurnTaken(e: Ends, s: Sys, s': Sys)
    requires s.sched.current in s.calls && |s.pipe.bytes| <= CAPACITY
  {
    var call := s.calls[s.sched.current];
    match OutcomeOf(s.pipe, call)
    case Sleeps =>
      s' == s.(sched := s'.sched) && Next(s.sched, Block(QueueOf(e, call)), s'.sched)
    case Reads(bytes) =>
      && s' == s.(sched := s'.sched, pipe := s.pipe.(bytes := s.pipe.bytes[|bytes|..]),
                  calls := s.calls - {s.sched.current}, delivered := s.delivered + bytes)
      && Next(s.sched, WakeAll(e.writable), s'.sched)
    case Writes(n) =>
      && call.WriteCall? && n <= |call.data|
      && s' == s.(sched := s'.sched, pipe := s.pipe.(bytes := s.pipe.bytes + call.data[..n]),
                  calls := s.calls - {s.sched.current}, accepted := s.accepted + call.data[..n])
      && Next(s.sched, WakeAll(e.readable), s'.sched)
    case BrokenPipe =>
      s' == s.(calls := s.calls - {s.sched.current})
  }

  /** An end is closed by its last reference, so never under a call through it. */
  predicate Unused(calls: map<Tid, Call>, readEnd: bool) {
    forall t :: t in calls ==> calls[t].ReadCall? != readEnd
  }

  function Closed(p: PipeView, readEnd: bool): PipeView {
    if readEnd then p.(reader := false) else p.(writer := false)
  }

  /** What the rest of the kernel may do meanwhile: anything that leaves the two
      queues alone, except that a thread inside a call does nothing else. */
  predicate Elsewhere(e: Ends, s: Sys, event: Event) {
    && (event.Block? || event.Wake? || event.WakeAll? ==> event.queue != e.readable && event.queue != e.writable)
    && (event.Exit? || event.Sleep? || event.Block? ==> s.sched.current !in s.calls)
  }

  /** An end is closed and both sides are woken. */
  ghost predicate Shut(e: Ends, s: Sys, readEnd: bool, s': Sys) {
    && s' == s.(pipe := Closed(s.pipe, readEnd), sched := s'.sched)
    && exists u :: Next(s.sched, WakeAll(e.readable), u) && Next(u, WakeAll(e.writable), s'.sched)
  }

  ghost predicate PNext(e: Ends, s: Sys, m: Move, s': Sys) {
    match m
    case Enter(call) =>
      && s.sched.current !in s.calls && s.sched.current != s.sched.idle && Proper(s.pipe, call)
      && s' == s.(calls := s.calls[s.sched.current := call])
    case Turn =>
      s.sched.current in s.calls && |s.pipe.bytes| <= CAPACITY && TurnTaken(e, s, s')
    case Close(readEnd) =>
      Unused(s.calls, readEnd) && Shut(e, s, readEnd, s')
    case Other(event) =>
      Elsewhere(e, s, event) && s' == s.(sched := s'.sched) && Next(s.sched, event, s'.sched)
  }

  // ----- the invariant

  /** Bytes read so far, then the ring, are the bytes accepted so far. */
  predicate Fifo(s: Sys) {
    s.delivered + s.pipe.bytes == s.accepted && |s.pipe.bytes| <= CAPACITY
  }

  /** The threads inside calls are alive, and asleep only on their own queue. */
  predicate CallersOk(e: Ends, v: View, calls: map<Tid, Call>) {
    && e.readable != e.writable && e.readable in v.queues && e.writable in v.queues
    && (forall t :: t in calls ==> t in v.threads && t in v.state && t != v.idle && v.state[t] != DEAD)
    && (forall t :: t in calls ==> t in v.state && v.state[t] == SLEEPING ==> t in v.queues[QueueOf(e, calls[t])])
    && (forall t :: t in v.queues[e.readable] ==> t in calls && calls[t].ReadCall?)
    && (forall t :: t in v.queues[e.writable] ==> t in calls && calls[t].WriteCall?)
  }

  /** Whoever is on a queue must still wait. */
  predicate NoLostWakeup(e: Ends, p: PipeView, v: View)
    requires e.readable in v.queues && e.writable in v.queues
  {
    && (v.queues[e.readable] != [] ==> p.bytes == [] && p.writer)
    && (v.queues[e.writable] != [] ==> |p.bytes| == CAPACITY && p.reader)
  }

  ghost predicate PInv(e: Ends, s: Sys) {
    && Inv(s.sched) && Fifo(s) && CallersOk(e, s.sched, s.calls) && NoLostWakeup(e, s.pipe, s.sched)
    && forall t :: t in s.calls ==> Proper(s.pipe, s.calls[t])
  }

  // ----- what scheduler steps do to the threads inside calls

  /** Threads live on, and the ones asleep were asleep before. */
  predicate Mild(v: View, r: View, except: set<Tid>) {
    && r.idle == v.idle
    && forall t :: t in v.threads && t in v.state && v.state[t] != DEAD && t !in except ==>
                     && t in r.threads && t in r.state && r.state[t] != DEAD
                     && (r.state[t] == SLEEPING ==> v.state[t] == SLEEPING)
  }

  lemma SwitchMild(v: View)
    requires Listed(v)
    ensures Mild(v, Switched(v), {}) && Switched(v).queues == v.queues
    ensures forall t ::
              t in v.state && v.state[t] == SLEEPING ==> t in Switched(v).state && Switched(v).state[t] == SLEEPING
  {
    hide Pick, Distinct;
  }

  lemma BlockMild(v: View, q: Queue, r: View)
    requires Inv(v) && Next(v, Block(q), r)
    ensures Inv(r) && Mild(v, r, {v.current}) && r.queues == v.queues[q := v.queues[q] + [v.current]]
    ensures v.current in r.threads && v.current in r.state && r.state[v.current] == SLEEPING
  {
    hide Inv, QueuesOk, Switched, Distinct, Poised, Pick;
    InvParts(v);
    StepKeeps(v, Block(q), r);
    BlockListed(v, q);
    SwitchMild(Blocked(v, q));
    SwitchTimed(Blocked(v, q), v.current, 0);
  }

  lemma WakeMild(v: View, q: Queue, r: View)
    requires Inv(v) && Next(v, WakeAll(q), r)
    ensures Inv(r) && Mild(v, r, {}) && r.queues == v.queues[q := []]
    ensures forall t :: t in v.threads && t in r.state && t in v.queues[q] ==> r.state[t] == RUNNABLE
    ensures r.threads == v.threads
  {
    hide QueuesOk, WokenAll, Distinct;
    WakeAllKeeps(v, q);
  }

  lemma PreemptMild(v: View)
    requires Listed(v)
    ensures Mild(v, Preempted(v), {}) && Preempted(v).queues == v.queues && Listed(Preempted(v))
  {
    hide Distinct;
  }

  lemma YieldMild(v: View)
    requires Listed(v)
    ensures Mild(v, Yielded(v), {}) && Yielded(v).queues == v.queues
  {
    hide Switched, Listed, Preempted;
    PreemptMild(v);
    SwitchMild(Preempted(v));
  }

  lemma ClockMild(v: View)
    requires Listed(v)
    ensures Mild(v, Clocked(v), {}) && Clocked(v).queues == v.queues
  {
    hide Distinct;
  }

  lemma ReapMild(v: View)
    requires Listed(v)
    ensures Mild(v, Reaped(v), {}) && Reaped(v).queues == v.queues
  {
    hide Distinct, Living;
    LivingParts(v, v.threads);
  }

  lemma WokenMild(v: View, q: Queue)
    requires Inv(v) && q in v.queues && v.queues[q] != []
    ensures Mild(v, Woken(v, q), {}) && Woken(v, q).queues == v.queues[q := v.queues[q][1..]]
  {
    hide QueuesOk, Distinct;
  }

  lemma ExitMild(v: View, u: View)
    requires Listed(v) && Listed(u) && CurrentChanged(v, u)
    ensures Mild(v, Switched(u), {v.current}) && Switched(u).queues == v.queues
  {
    hide Switched, Distinct;
    SwitchMild(u);
  }

  predicate CurrentChanged(v: View, u: View) {
    u.idle == v.idle && u.threads == v.threads && u.queues == v.queues
    && forall t :: t in v.state && t != v.current ==> t in u.state && u.state[t] == v.state[t]
  }

  lemma LeaveListed(v: View, ticks: nat)
    requires Inv(v) && v.current != v.idle
    ensures Listed(v) && Listed(SleepSet(v, ticks)) && CurrentChanged(v, SleepSet(v, ticks))
    ensures Listed(SetState(v, v.current, DEAD)) && CurrentChanged(v, SetState(v, v.current, DEAD))
  {
    hide QueuesOk, Distinct;
  }

  function Leaver(v: View, event: Event): set<Tid> {
    if event.Exit? || event.Sleep? || event.Block? then {v.current} else {}
  }

  predicate Spares(event: Event, q: Queue) {
    event.Block? || event.Wake? || event.WakeAll? ==> event.queue != q
  }

  /** Steps that are not about a queue leave it and its threads alone. */
  lemma OtherMild(v: View, event: Event, r: View)
    requires Inv(v) && Next(v, event, r)
    ensures Inv(r) && Mild(v, r, Leaver(v, event))
    ensures forall q :: q in v.queues && Spares(event, q) ==> q in r.queues && r.queues[q] == v.queues[q]
  {
    hide Inv, Listed, Switched, Mild, Preempted, Yielded, Clocked, Reaped, Woken, WokenAll, Blocked, SetState, SleepSet;
    StepKeeps(v, event, r);
    InvParts(v);
    MildWeakens(v, r, v.current);
    match event
    case Yield => YieldMild(v);
    case Sleep(ticks) =>
      if ticks == 0 { YieldMild(v); } else { LeaveListed(v, ticks); ExitMild(v, SleepSet(v, ticks)); }
    case Block(q) => BlockMild(v, q, r);
    case Wake(q) => if v.queues[q] != [] { WokenMild(v, q); } else { MildItself(v); }
    case WakeAll(q) => WakeMild(v, q, r);
    case Tick => ClockKeeps(v); InvParts(Clocked(v)); ClockMild(v); YieldMild(Clocked(v)); MildTwice(v, Clocked(v), r);
    case Exit => LeaveListed(v, 0); ExitMild(v, SetState(v, v.current, DEAD));
    case Reap => ReapMild(v);
    case Create(t) => CreateMild(v, t);
  }

  lemma MildItself(v: View)
    ensures Mild(v, v, {})
  {
  }

  lemma MildWeakens(v: View, r: View, t: Tid)
    ensures Mild(v, r, {}) ==> Mild(v, r, {t})
  {
  }

  lemma MildTwice(v: View, u: View, r: View)
    requires Mild(v, u, {}) && Mild(u, r, {})
    ensures Mild(v, r, {})
  {
  }

  lemma CreateMild(v: View, t: Tid)
    requires t !in v.threads
    ensures Mild(v, Created(v, t), {}) && Created(v, t).queues == v.queues
  {
  }

  // ----- every move keeps the invariant

  lemma SameFifo(s: Sys, s': Sys)
    requires Fifo(s) && s'.pipe.bytes == s.pipe.bytes && s'.accepted == s.accepted && s'.delivered == s.delivered
    ensures Fifo(s')
  {
  }

  lemma EnterKeeps(e: Ends, s: Sys, call: Call, s': Sys)
    requires PInv(e, s) && PNext(e, s, Enter(call), s')
    ensures PInv(e, s')
  {
    hide QueuesOk, Fifo, Distinct;
    assert s.sched.state[s.sched.current] == RUNNING;
    SameFifo(s, s');
  }

  lemma SleepTurn(e: Ends, s: Sys, s': Sys)
    requires PInv(e, s) && PNext(e, s, Turn, s') && OutcomeOf(s.pipe, s.calls[s.sched.current]).Sleeps?
    ensures PInv(e, s')
  {
    hide Inv, Fifo, Next;
    var call := s.calls[s.sched.current];
    BlockMild(s.sched, QueueOf(e, call), s'.sched);
    assert MustWait(s.pipe, call);
    SameFifo(s, s');
  }

  lemma ReturnTurn(e: Ends, s: Sys, s': Sys)
    requires PInv(e, s) && PNext(e, s, Turn, s') && !OutcomeOf(s.pipe, s.calls[s.sched.current]).Sleeps?
    ensures PInv(e, s')
  {
    hide Inv, Next, Mild, CallersOk;
    var t, call := s.sched.current, s.calls[s.sched.current];
    var outcome := OutcomeOf(s.pipe, call);
    CallerLeaves(e, s);
    if outcome.Reads? {
      WakeMild(s.sched, e.writable, s'.sched);
      WakeCallers(e, s.sched, s'.sched, s.calls - {t}, e.writable);
    } else if outcome.Writes? {
      WakeMild(s.sched, e.readable, s'.sched);
      WakeCallers(e, s.sched, s'.sched, s.calls - {t}, e.readable);
    }
    QueuesKnown(e, s);
  }

  lemma QueuesKnown(e: Ends, s: Sys)
    requires PInv(e, s)
    ensures e.readable != e.writable && e.readable in s.sched.queues && e.writable in s.sched.queues
  {
  }

  /** A running thread is on no queue, so it may leave its call. */
  lemma CallerLeaves(e: Ends, s: Sys)
    requires PInv(e, s)
    ensures CallersOk(e, s.sched, s.calls - {s.sched.current})
  {
    hide Distinct;
    assert !Waits(s.sched, s.sched.current, e.readable) && !Waits(s.sched, s.sched.current, e.writable);
  }

  lemma WakeCallers(e: Ends, v: View, r: View, calls: map<Tid, Call>, q: Queue)
    requires CallersOk(e, v, calls) && Mild(v, r, {}) && (q == e.readable || q == e.writable)
             && r.queues == v.queues[q := []]
    requires r.threads == v.threads
             && forall t :: t in v.threads && t in r.state && t in v.queues[q] ==> r.state[t] == RUNNABLE
    ensures CallersOk(e, r, calls)
  {
  }

  lemma CloseKeeps(e: Ends, s: Sys, readEnd: bool, s': Sys)
    requires PInv(e, s) && PNext(e, s, Close(readEnd), s')
    ensures PInv(e, s')
  {
    hide Inv, Next, Mild, CallersOk, Fifo;
    var u :| Next(s.sched, WakeAll(e.readable), u) && Next(u, WakeAll(e.writable), s'.sched);
    QueuesKnown(e, s);
    WakeMild(s.sched, e.readable, u);
    WakeCallers(e, s.sched, u, s.calls, e.readable);
    WakeMild(u, e.writable, s'.sched);
    WakeCallers(e, u, s'.sched, s.calls, e.writable);
    SameFifo(s, s');
  }

  lemma OtherKeeps(e: Ends, s: Sys, event: Event, s': Sys)
    requires PInv(e, s) && PNext(e, s, Other(event), s')
    ensures PInv(e, s')
  {
    hide Inv, Next, Fifo, Sound;
    OtherMild(s.sched, event, s'.sched);
    assert Spares(event, e.readable) && Spares(event, e.writable);
    assert forall t :: t in s.calls ==> t !in Leaver(s.sched, event);
    SameFifo(s, s');
  }

  /** The invariant survives every move. */
  lemma MoveKeeps(e: Ends, s: Sys, m: Move, s': Sys)
    requires PInv(e, s) && PNext(e, s, m, s')
    ensures PInv(e, s')
  {
    hide PInv, TurnTaken;
    match m
    case Enter(call) => EnterKeeps(e, s, call, s');
    case Turn => if OutcomeOf(s.pipe, s.calls[s.sched.current]).Sleeps? { SleepTurn(e, s, s'); }
                 else { ReturnTurn(e, s, s'); }
    case Close(readEnd) => CloseKeeps(e, s, readEnd, s');
    case Other(event) => OtherKeeps(e, s, event, s');
  }

  /** A new pipe satisfies it. */
  lemma FreshPipe(e: Ends, sched: View)
    requires Inv(sched) && e.readable != e.writable && e.readable in sched.queues && e.writable in sched.queues
    requires sched.queues[e.readable] == [] && sched.queues[e.writable] == []
    ensures PInv(e, Sys(PipeView([], true, true), sched, map[], [], []))
  {
    hide Inv;
  }

  /** Nobody is inside a call of a pipe without ends, or on one of its queues: its body
      can be freed. */
  lemma BodyUnused(e: Ends, s: Sys)
    requires PInv(e, s) && !s.pipe.reader && !s.pipe.writer
    ensures s.calls == map[] && e.readable in s.sched.queues && e.writable in s.sched.queues
    ensures s.sched.queues[e.readable] == [] && s.sched.queues[e.writable] == []
  {
    hide Inv;
    assert forall t :: t !in s.calls;
    HasMember(s.sched.queues[e.readable]);
    HasMember(s.sched.queues[e.writable]);
  }

  lemma HasMember(q: seq<Tid>)
    ensures q != [] ==> exists t :: t in q
  {
    if q != [] {
      assert q[0] in q;
    }
  }

  // ----- theorems over runs

  ghost predicate PRun(e: Ends, states: seq<Sys>, moves: seq<Move>) {
    && |states| == |moves| + 1
    && forall i :: 0 <= i < |moves| ==> PNext(e, states[i], moves[i], states[i + 1])
  }

  /** In every run, the bytes read are the first of the bytes written, in order,
      and the ring holds the others. */
  lemma {:induction false} RunKeepsOrder(e: Ends, states: seq<Sys>, moves: seq<Move>, n: nat)
    requires PRun(e, states, moves) && PInv(e, states[0]) && n < |states|
    ensures PInv(e, states[n])
    ensures states[n].delivered + states[n].pipe.bytes == states[n].accepted && |states[n].pipe.bytes| <= CAPACITY
    decreases n
  {
    hide PInv, PNext;
    if n > 0 {
      RunKeepsOrder(e, states, moves, n - 1);
      MoveKeeps(e, states[n - 1], moves[n - 1], states[n]);
    }
    InvFifo(e, states[n]);
  }

  lemma InvFifo(e: Ends, s: Sys)
    ensures PInv(e, s) ==> Fifo(s)
  {
  }

  /** A thread that sleeps inside a call must wait: it would only sleep again if it
      took its turn now. */
  lemma SleeperMustWait(e: Ends, s: Sys, t: Tid)
    requires PInv(e, s) && t in s.calls && s.sched.state[t] == SLEEPING
    ensures MustWait(s.pipe, s.calls[t]) && OutcomeOf(s.pipe, s.calls[t]).Sleeps?
  {
    hide Inv;
  }

  /** Readers and writers never all sleep: with a call in progress at each end,
      a thread can go on. */
  lemma NoDeadlock(e: Ends, s: Sys, r: Tid, w: Tid)
    requires PInv(e, s) && r in s.calls && s.calls[r].ReadCall? && w in s.calls && s.calls[w].WriteCall?
    ensures s.sched.state[r] != SLEEPING || s.sched.state[w] != SLEEPING
  {
    hide PInv;
    CallersKnown(e, s, r);
    CallersKnown(e, s, w);
    if s.sched.state[r] == SLEEPING && s.sched.state[w] == SLEEPING {
      SleeperMustWait(e, s, r);
      SleeperMustWait(e, s, w);
    }
  }

  lemma CallersKnown(e: Ends, s: Sys, t: Tid)
    requires PInv(e, s) && t in s.calls
    ensures t in s.sched.state && s.sched.state[t] != DEAD
  {
  }

  /** A read returns no bytes exactly when the writer has closed and every byte
      accepted has been delivered. */
  lemma EndOfFile(e: Ends, s: Sys, s': Sys)
    requires PInv(e, s) && PNext(e, s, Turn, s') && s.calls[s.sched.current].ReadCall?
    ensures var outcome := OutcomeOf(s.pipe, s.calls[s.sched.current]);
            outcome == Reads([]) <==> !s.pipe.writer && s.delivered == s.accepted
  {
    hide Inv, Next, CallersOk, NoLostWakeup;
    assert Proper(s.pipe, s.calls[s.sched.current]);
    assert s.delivered == s.accepted <==> s.pipe.bytes == [] by {
      assert |s.delivered| + |s.pipe.bytes| == |s.accepted|;
    }
  }

  /** After the writer has closed nothing more is accepted. */
  lemma {:induction false} ClosedForGood(e: Ends, states: seq<Sys>, moves: seq<Move>, n: nat)
    requires PRun(e, states, moves) && PInv(e, states[0]) && n < |states| && !states[0].pipe.writer
    ensures !states[n].pipe.writer && states[n].accepted == states[0].accepted
    decreases n
  {
    hide PInv, PNext;
    if n > 0 {
      ClosedForGood(e, states, moves, n - 1);
      RunKeepsOrder(e, states, moves, n - 1);
      StaysClosed(e, states[n - 1], moves[n - 1], states[n]);
    }
  }

  lemma StaysClosed(e: Ends, s: Sys, m: Move, s': Sys)
    requires PInv(e, s) && PNext(e, s, m, s') && !s.pipe.writer
    ensures !s'.pipe.writer && s'.accepted == s.accepted
  {
    hide Inv, Next, CallersOk, NoLostWakeup, Fifo;
    if m.Turn? {
      assert Proper(s.pipe, s.calls[s.sched.current]);
    }
  }

  /** So end of file is final: once a read has found it, so does every later read. */
  lemma EndOfFileIsFinal(e: Ends, states: seq<Sys>, moves: seq<Move>, n: nat)
    requires PRun(e, states, moves) && PInv(e, states[0]) && n < |moves|
    requires !states[0].pipe.writer && states[0].delivered == states[0].accepted
    requires moves[n].Turn? && states[n].sched.current in states[n].calls
             && states[n].calls[states[n].sched.current].ReadCall?
    ensures |states[n].pipe.bytes| <= CAPACITY
            && OutcomeOf(states[n].pipe, states[n].calls[states[n].sched.current]) == Reads([])
  {
    hide PInv, PNext;
    RunKeepsOrder(e, states, moves, n);
    ClosedForGood(e, states, moves, n);
    NoNewBytes(e, states, moves, n);
    EndOfFile(e, states[n], states[n + 1]);
  }

  /** Delivered bytes only grow. */
  lemma {:induction false} NoNewBytes(e: Ends, states: seq<Sys>, moves: seq<Move>, n: nat)
    requires PRun(e, states, moves) && PInv(e, states[0]) && n < |states|
    requires !states[0].pipe.writer && states[0].delivered == states[0].accepted
    ensures states[n].delivered == states[n].accepted
    decreases n
  {
    hide PInv, PNext;
    RunKeepsOrder(e, states, moves, n);
    ClosedForGood(e, states, moves, n);
    if n > 0 {
      NoNewBytes(e, states, moves, n - 1);
      RunKeepsOrder(e, states, moves, n - 1);
      DeliveredGrows(e, states[n - 1], moves[n - 1], states[n]);
      ClosedForGood(e, states, moves, n - 1);
    }
  }

  lemma DeliveredGrows(e: Ends, s: Sys, m: Move, s': Sys)
    requires PInv(e, s) && PNext(e, s, m, s')
    ensures |s.delivered| <= |s'.delivered| && s'.delivered[..|s.delivered|] == s.delivered
    ensures |s.accepted| <= |s'.accepted| && s'.accepted[..|s.accepted|] == s.accepted
  {
    hide Inv, Next, CallersOk, NoLostWakeup, Fifo;
  }

  /** A write fails exactly when the reader has closed. */
  lemma BrokenExactly(e: Ends, s: Sys)
    requires PInv(e, s) && s.sched.current in s.calls && s.calls[s.sched.current].WriteCall?
    ensures OutcomeOf(s.pipe, s.calls[s.sched.current]).BrokenPipe? <==> !s.pipe.reader
  {
    hide Inv, CallersOk, NoLostWakeup;
    assert Proper(s.pipe, s.calls[s.sched.current]);
  }

  // ----- how much each call moves

  /** The smaller of what a caller asks for and what there is. */
  predicate AsMuchAs(n: nat, asked: nat, there: nat) {
    n <= asked && n <= there && (n == asked || n == there)
  }

  /** A reader's turn, without its outcome: it waits for the first byte, or goes with the
      oldest bytes, as many as it asked for or all there are. */
  ghost predicate ReadMoves(s: Sys, size: nat, n: nat, s': Sys) {
    && AsMuchAs(n, size, |s.pipe.bytes|) && (n == 0 ==> !s.pipe.writer)
    && s'.delivered == s.delivered + s.pipe.bytes[..n] && s'.pipe == s.pipe.(bytes := s.pipe.bytes[n..])
    && s'.accepted == s.accepted && s'.calls == s.calls - {s.sched.current}
  }

  /** A writer's turn: as many of its bytes as there is room for. */
  ghost predicate WriteMoves(s: Sys, data: seq<Byte>, n: nat, s': Sys) {
    && |s.pipe.bytes| <= CAPACITY && AsMuchAs(n, |data|, CAPACITY - |s.pipe.bytes|) && n > 0
    && s'.accepted == s.accepted + data[..n] && s'.pipe == s.pipe.(bytes := s.pipe.bytes + data[..n])
    && s'.delivered == s.delivered && s'.calls == s.calls - {s.sched.current}
  }

  predicate SameTraffic(s: Sys, s': Sys) {
    s'.delivered == s.delivered && s'.accepted == s.accepted && s'.pipe == s.pipe
  }

  /** What every turn does, by what its caller came with. */
  lemma TurnMoves(e: Ends, s: Sys, s': Sys)
    requires PInv(e, s) && PNext(e, s, Turn, s')
    ensures match s.calls[s.sched.current] {
              case ReadCall(size) =>
                if s.pipe.bytes == [] && s.pipe.writer then SameTraffic(s, s') && s'.calls == s.calls
                else exists n: nat :: ReadMoves(s, size, n, s')
              case WriteCall(data) =>
                if !s.pipe.reader then SameTraffic(s, s') && s'.calls == s.calls - {s.sched.current}
                else if |s.pipe.bytes| == CAPACITY then SameTraffic(s, s') && s'.calls == s.calls
                else exists n: nat :: WriteMoves(s, data, n, s')
            }
  {
    hide Inv, Next, CallersOk, NoLostWakeup;
    assert Proper(s.pipe, s.calls[s.sched.current]);
    match s.calls[s.sched.current]
    case ReadCall(size) =>
      if !(s.pipe.bytes == [] && s.pipe.writer) {
        assert ReadMoves(s, size, Min(size, |s.pipe.bytes|), s');
      }
    case WriteCall(data) =>
      if s.pipe.reader && |s.pipe.bytes| < CAPACITY {
        assert WriteMoves(s, data, Min(|data|, CAPACITY - |s.pipe.bytes|), s');
      }
  }

  /** The thread entered that call somewhere in the first `n` moves, or was in it at the
      start, and has not returned since. */
  ghost predicate CameWith(states: seq<Sys>, moves: seq<Move>, n: nat, t: Tid, call: Call)
    requires n <= |moves| < |states|
  {
    || (t in states[0].calls && states[0].calls[t] == call && forall j :: 0 <= j <= n ==> t in states[j].calls)
    || exists k :: 0 <= k < n && Entered(states, moves, k, n, t, call)
  }

  ghost predicate Entered(states: seq<Sys>, moves: seq<Move>, k: nat, n: nat, t: Tid, call: Call)
    requires k < n <= |moves| < |states|
  {
    && moves[k] == Enter(call) && states[k].sched.current == t
    && forall j :: k < j <= n ==> t in states[j].calls
  }

  /** A call is what its thread entered with: nothing changes it on the way. */
  lemma {:induction false} CallsAreEntered(e: Ends, states: seq<Sys>, moves: seq<Move>, n: nat, t: Tid)
    requires PRun(e, states, moves) && PInv(e, states[0]) && n < |states| && t in states[n].calls
    ensures CameWith(states, moves, n, t, states[n].calls[t])
    decreases n
  {
    hide PInv, PNext;
    if n > 0 {
      RunKeepsOrder(e, states, moves, n - 1);
      CallsKept(e, states[n - 1], moves[n - 1], states[n], t);
      if t in states[n - 1].calls {
        CallsAreEntered(e, states, moves, n - 1, t);
        var m, call := n - 1, states[n].calls[t];
        forall k | 0 <= k < m && Entered(states, moves, k, m, t, call) ensures Entered(states, moves, k, n, t, call) {
        }
      } else {
        assert Entered(states, moves, n - 1, n, t, states[n].calls[t]);
      }
    }
  }

  lemma CallsKept(e: Ends, s: Sys, m: Move, s': Sys, t: Tid)
    requires PInv(e, s) && PNext(e, s, m, s') && t in s'.calls
    ensures if t in s.calls then s'.calls[t] == s.calls[t] else t == s.sched.current && m == Enter(s'.calls[t])
  {
    hide Inv, Next, CallersOk, NoLostWakeup;
  }

  /** In every run bytes are delivered only to a reader at its turn, never more than it
      came for, and it gets all it asked for or all there was. */
  lemma DeliveredAsAsked(e: Ends, states: seq<Sys>, moves: seq<Move>, n: nat)
    requires PRun(e, states, moves) && PInv(e, states[0]) && n < |moves|
             && states[n + 1].delivered != states[n].delivered
    ensures |states[n + 1].delivered| > |states[n].delivered| && moves[n].Turn?
    ensures exists size: nat ::
              && CameWith(states, moves, n, states[n].sched.current, ReadCall(size))
              && AsMuchAs(|states[n + 1].delivered| - |states[n].delivered|, size, |states[n].pipe.bytes|)
  {
    hide PInv, PNext;
    RunKeepsOrder(e, states, moves, n);
    OnlyTurns(e, states[n], moves[n], states[n + 1]);
    TurnMoves(e, states[n], states[n + 1]);
    CallsAreEntered(e, states, moves, n, states[n].sched.current);
  }

  /** The same of bytes accepted from a writer and the room there was. */
  lemma AcceptedAsAsked(e: Ends, states: seq<Sys>, moves: seq<Move>, n: nat)
    requires PRun(e, states, moves) && PInv(e, states[0]) && n < |moves| && states[n + 1].accepted != states[n].accepted
    ensures |states[n + 1].accepted| > |states[n].accepted| && moves[n].Turn?
    ensures exists data: seq<Byte> ::
              && CameWith(states, moves, n, states[n].sched.current, WriteCall(data))
              && AsMuchAs(|states[n + 1].accepted| - |states[n].accepted|, |data|, CAPACITY - |states[n].pipe.bytes|)
              && states[n + 1].accepted[|states[n].accepted|..] <= data
  {
    hide PInv, PNext;
    RunKeepsOrder(e, states, moves, n);
    OnlyTurns(e, states[n], moves[n], states[n + 1]);
    TurnMoves(e, states[n], states[n + 1]);
    CallsAreEntered(e, states, moves, n, states[n].sched.current);
  }

  lemma OnlyTurns(e: Ends, s: Sys, m: Move, s': Sys)
    requires PNext(e, s, m, s')
    ensures m.Turn? ==> s.sched.current in s.calls
    ensures !m.Turn? ==> s'.delivered == s.delivered && s'.accepted == s.accepted
  {
    hide Next;
  }
}
