/** The thread scheduler and its wait queues: a round-robin scan over one list of
    threads, timed sleepers woken by the clock tick, and queues of sleepers. */
module Scheduling {
  import opened Common

  type Tid = nat
  type Queue = nat

  datatype State = RUNNING | RUNNABLE | SLEEPING | DEAD

  datatype View = View(
    threads: seq<Tid>,
    state: map<Tid, State>,
    wake: map<Tid, nat>,
    idle: Tid,
    current: Tid,
    tick: nat,
    queues: map<Queue, seq<Tid>>)

  // ----- invariant

  /** Every thread is listed once and has a state; the idle thread can always run. */
  predicate Listed(v: View) {
    && Distinct(v.threads) && v.idle in v.threads && v.current in v.threads
    && (forall t :: t in v.threads ==> t in v.state && t in v.wake)
    && (forall t :: t in v.state ==> t in v.threads) && (forall t :: t in v.wake ==> t in v.threads)
    && (v.state[v.idle] == RUNNING || v.state[v.idle] == RUNNABLE)
    && v.tick < WORD64 && forall t :: t in v.threads ==> v.wake[t] < WORD64
  }

  predicate Waits(v: View, t: Tid, q: Queue) {
    q in v.queues && t in v.queues[q]
  }

  /** Asleep until somebody wakes its queue. */
  predicate Parked(v: View, t: Tid)
    requires Listed(v)
  {
    t in v.threads && v.state[t] == SLEEPING && v.wake[t] == 0
  }

  /** The queues hold only sleepers without a wake tick, each of them once. */
  ghost predicate QueuesOk(v: View)
    requires Listed(v)
  {
    && (forall q :: q in v.queues ==> Distinct(v.queues[q]))
    && (forall t, q :: Waits(v, t, q) ==> Parked(v, t))
    && (forall t, p, q :: Waits(v, t, p) && Waits(v, t, q) ==> p == q)
  }

  /** Only sleepers have a wake tick. */
  predicate TimersOk(v: View)
    requires Listed(v)
  {
    forall t :: t in v.threads && v.wake[t] != 0 ==> v.state[t] == SLEEPING
  }

  /** A sleeper is on at most one queue, once, and then without a wake tick; nobody
      else is on a queue or has a wake tick. */
  ghost predicate SleepersOk(v: View)
    requires Listed(v)
  {
    QueuesOk(v) && TimersOk(v)
  }

  /** Between two steps: exactly the current thread is running. */
  ghost predicate Inv(v: View) {
    Listed(v) && SleepersOk(v) && forall t :: t in v.threads ==> (v.state[t] == RUNNING <==> t == v.current)
  }

  /** A thread asleep with no wake tick and on no queue. */
  predicate Lost(v: View, t: Tid) {
    && t in v.threads && t in v.state && t in v.wake && v.state[t] == SLEEPING && v.wake[t] == 0
    && forall q :: q in v.queues ==> t !in v.queues[q]
  }

  /** Every sleeper has a queue or a wake tick. */
  ghost predicate NoneLost(v: View) {
    forall t :: !Lost(v, t)
  }

  /** When a switch is due: nobody is running. */
  ghost predicate Poised(v: View) {
    Listed(v) && SleepersOk(v) && forall t :: t in v.threads ==> v.state[t] != RUNNING
  }

  // ----- choosing the next thread

  function IndexOf(s: seq<Tid>, t: Tid): (i: nat)
    requires t in s
    ensures i < |s| && s[i] == t
  {
    if s[0] == t then 0 else 1 + IndexOf(s[1..], t)
  }

  lemma DistinctIndex(s: seq<Tid>, i: nat)
    requires Distinct(s) && i < |s|
    ensures IndexOf(s, s[i]) == i
  {
  }

  /** The `k`-th thread of the scan, which starts after the current one and ends with it. */
  function Scanned(v: View, k: nat): (t: Tid)
    requires v.current in v.threads && k < |v.threads|
    ensures t in v.threads
  {
    v.threads[Wrapped(IndexOf(v.threads, v.current) + 1 + k, |v.threads|)]
  }

  /** A position that has gone round the end of the list at most once. */
  function Wrapped(p: nat, n: nat): (r: nat)
    requires p < 2 * n
    ensures r < n
  {
    if p < n then p else p - n
  }

  predicate Ready(v: View, t: Tid) {
    t in v.state && v.state[t] == RUNNABLE && t != v.idle
  }

  predicate NoneReady(v: View, from: nat, to: nat)
    requires v.current in v.threads && to <= |v.threads|
  {
    forall k :: from <= k < to ==> !Ready(v, Scanned(v, k))
  }

  function PickFrom(v: View, k: nat): (t: Tid)
    requires Listed(v) && k <= |v.threads|
    ensures t in v.threads && (t == v.idle || Ready(v, t))
    decreases |v.threads| - k
  {
    if k == |v.threads| then v.idle
    else if Ready(v, Scanned(v, k)) then Scanned(v, k)
    else PickFrom(v, k + 1)
  }

  /** Where the scan stops: at the first thread that is ready, or at the end. */
  lemma {:induction false} ScanStops(v: View, k: nat) returns (stop: nat)
    requires Listed(v) && k <= |v.threads|
    ensures k <= stop <= |v.threads| && NoneReady(v, k, stop)
    ensures stop < |v.threads| ==> Ready(v, Scanned(v, stop)) && PickFrom(v, k) == Scanned(v, stop)
    ensures stop == |v.threads| ==> PickFrom(v, k) == v.idle
    decreases |v.threads| - k
  {
    hide Scanned, Ready;
    stop := k;
    if k < |v.threads| && !Ready(v, Scanned(v, k)) {
      stop := ScanStops(v, k + 1);
    }
  }

  /** The first runnable thread of the scan other than the idle one, or else the idle one. */
  function Pick(v: View): (t: Tid)
    requires Listed(v)
    ensures t in v.threads && (t == v.idle || Ready(v, t))
  {
    PickFrom(v, 0)
  }

  // ----- whose turn it is, by position

  /** Ready to run, and not the idle thread. */
  predicate Waiting(state: map<Tid, State>, idle: Tid, t: Tid) {
    t in state && state[t] == RUNNABLE && t != idle
  }

  /** The thread `d` places after position `c`, going round the list. */
  function Further(threads: seq<Tid>, c: nat, d: nat): Tid
    requires threads != []
  {
    threads[(c + d) % |threads|]
  }

  /** Going round from position `c`, the first thread that waits to run is `d` places on. */
  predicate TurnOf(threads: seq<Tid>, state: map<Tid, State>, idle: Tid, c: nat, d: nat)
    requires threads != []
  {
    && 0 < d <= |threads| && Waiting(state, idle, Further(threads, c, d))
    && forall e: nat :: 0 < e < d ==> !Waiting(state, idle, Further(threads, c, e))
  }

  /** The thread whose turn it is after `from`; the idle thread if nobody waits. */
  ghost predicate InTurn(threads: seq<Tid>, state: map<Tid, State>, idle: Tid, from: Tid, t: Tid)
    requires threads != []
  {
    if forall u :: u in threads ==> !Waiting(state, idle, u) then t == idle
    else
      exists c: nat, d: nat :: c < |threads| && threads[c] == from && TurnOf(threads, state, idle, c, d)
                               && t == Further(threads, c, d)
  }

  lemma RoundOnce(p: nat, n: nat)
    requires 0 < n && p < 2 * n
    ensures Wrapped(p, n) == p % n
  {
  }

  lemma ScannedAt(v: View, k: nat, d: nat)
    requires Listed(v) && k < |v.threads| && d == k + 1
    ensures Scanned(v, k) == Further(v.threads, IndexOf(v.threads, v.current), d)
  {
    hide IndexOf, Distinct;
    RoundOnce(IndexOf(v.threads, v.current) + 1 + k, |v.threads|);
  }

  /** Every thread is met on the way round. */
  lemma MetAt(threads: seq<Tid>, c: nat, i: nat) returns (d: nat)
    requires c < |threads| && i < |threads|
    ensures 0 < d <= |threads| && Further(threads, c, d) == threads[i]
  {
    d := if i > c then i - c else i + |threads| - c;
    assert (c + d) % |threads| == i;
  }

  /** The scan picks the thread whose turn it is. */
  lemma PickInTurn(v: View)
    requires Listed(v)
    ensures InTurn(v.threads, v.state, v.idle, v.current, Pick(v))
  {
    hide Scanned, PickFrom, IndexOf, Distinct, Further;
    var stop := ScanStops(v, 0);
    var n, c := |v.threads|, IndexOf(v.threads, v.current);
    if stop < n {
      forall e: nat | 0 < e < stop + 1 ensures !Waiting(v.state, v.idle, Further(v.threads, c, e)) {
        ScannedAt(v, e - 1, e);
        assert !Ready(v, Scanned(v, e - 1));
      }
      ScannedAt(v, stop, stop + 1);
      assert TurnOf(v.threads, v.state, v.idle, c, stop + 1);
      assert Scanned(v, stop) in v.threads;
    } else {
      forall u | u in v.threads ensures !Waiting(v.state, v.idle, u) {
        var i :| 0 <= i < n && v.threads[i] == u;
        var d := MetAt(v.threads, c, i);
        ScannedAt(v, d - 1, d);
        assert !Ready(v, Scanned(v, d - 1));
      }
    }
  }

  /** A switch runs the thread whose turn it is, and changes nothing else. */
  lemma SwitchInTurn(v: View)
    requires Listed(v)
    ensures var r := Switched(v);
            && InTurn(v.threads, v.state, v.idle, v.current, r.current)
            && r == v.(current := r.current, state := r.state)
            && r.current in v.state && r.state == v.state[r.current := RUNNING]
  {
    hide Pick, InTurn, Distinct;
    PickInTurn(v);
    if Pick(v) == v.current && v.state[v.current] != RUNNABLE {
      assert v.state[v.current := RUNNING] == v.state;
    }
  }

  // ----- the operations on values

  function Switched(v: View): (r: View)
    requires Listed(v)
  {
    var next := Pick(v);
    if next == v.current then
      if v.state[v.current] == RUNNABLE then v.(state := v.state[v.current := RUNNING]) else v
    else
      v.(current := next, state := v.state[next := RUNNING])
  }

  function SetState(v: View, t: Tid, s: State): View {
    v.(state := v.state[t := s])
  }

  function Preempted(v: View): View
    requires Listed(v)
  {
    if v.state[v.current] == RUNNING then SetState(v, v.current, RUNNABLE) else v
  }

  function Yielded(v: View): View
    requires Listed(v)
  {
    Switched(Preempted(v))
  }

  function SleepSet(v: View, ticks: nat): View {
    SetState(v, v.current, SLEEPING).(wake := v.wake[v.current := (v.tick + ticks) % WORD64])
  }

  function Blocked(v: View, q: Queue): View
    requires q in v.queues
  {
    SetState(v, v.current, SLEEPING).(queues := v.queues[q := v.queues[q] + [v.current]])
  }

  /** The first sleeper of a queue becomes runnable. */
  function Woken(v: View, q: Queue): View
    requires q in v.queues && v.queues[q] != []
  {
    var t := v.queues[q][0];
    var w := v.(queues := v.queues[q := v.queues[q][1..]]);
    if t in v.state && v.state[t] == SLEEPING then SetState(w, t, RUNNABLE) else w
  }

  /** All sleepers of a queue become runnable. */
  function WokenAll(v: View, q: Queue): View
    requires q in v.queues
    decreases if q in v.queues then |v.queues[q]| else 0
  {
    if v.queues[q] == [] then v else WokenAll(Woken(v, q), q)
  }

  /** A timed sleeper whose tick has come. */
  predicate Due(v: View, t: Tid, tick: nat)
    requires t in v.state && t in v.wake
  {
    v.state[t] == SLEEPING && v.wake[t] != 0 && v.wake[t] <= tick
  }

  /** The clock: count, and wake every timed sleeper that is due. */
  function Clocked(v: View): (r: View)
    requires Listed(v)
  {
    var tick := (v.tick + 1) % WORD64;
    v.(tick := tick,
       state := map t | t in v.state :: if Due(v, t, tick) then RUNNABLE else v.state[t],
       wake := map t | t in v.wake :: if Due(v, t, tick) then 0 else v.wake[t])
  }

  predicate Reapable(v: View, t: Tid) {
    t in v.state && t != v.current && t != v.idle && v.state[t] == DEAD
  }

  function Living(v: View, s: seq<Tid>): seq<Tid> {
    if s == [] then [] else (if Reapable(v, s[0]) then [] else [s[0]]) + Living(v, s[1..])
  }

  lemma {:induction false} LivingParts(v: View, s: seq<Tid>)
    ensures forall t :: t in Living(v, s) <==> t in s && !Reapable(v, t)
    ensures Distinct(s) ==> Distinct(Living(v, s))
  {
    hide Reapable;
    if s != [] {
      LivingParts(v, s[1..]);
      assert Distinct(s) ==> Distinct(s[1..]) && s[0] !in s[1..];
    }
  }

  /** Whoever lives keeps its place in the order. */
  lemma {:induction false} LivingOrder(v: View, s: seq<Tid>, t: Tid)
    ensures Living(v, s + [t]) ==
              Living(v, s) + if t in v.state && v.state[t] == DEAD && t != v.current && t != v.idle then [] else [t]
  {
    if s == [] {
      assert s + [t] == [t];
    } else {
      LivingOrder(v, s[1..], t);
      assert (s + [t])[1..] == s[1..] + [t];
    }
  }

  function Reaped(v: View): View {
    v.(threads := Living(v, v.threads),
       state := map t | t in v.state && !Reapable(v, t) :: v.state[t],
       wake := map t | t in v.wake && !Reapable(v, t) :: v.wake[t])
  }

  function Created(v: View, t: Tid): View {
    v.(threads := v.threads + [t], state := v.state[t := RUNNABLE], wake := v.wake[t := 0])
  }

  // ----- every operation keeps the invariant

  lemma SwitchKeeps(v: View)
    requires Poised(v)
    ensures Inv(Switched(v))
  {
    hide Pick, QueuesOk, Distinct;
    QueuesSame(v, Switched(v));
  }

  /** The queues are the same, and whoever was parked on them still is. */
  lemma QueuesSame(v: View, r: View)
    requires Listed(v) && QueuesOk(v) && Listed(r) && r.queues == v.queues
    requires forall t, q :: Waits(v, t, q) && Parked(v, t) ==> Parked(r, t)
    ensures QueuesOk(r)
  {
    hide Listed, Distinct;
    forall t, q | Waits(r, t, q) ensures Parked(r, t) { assert Waits(v, t, q) && Parked(v, t); ParkedListed(v, t); }
    forall t, p, q | Waits(r, t, p) && Waits(r, t, q) ensures p == q { assert Waits(v, t, p) && Waits(v, t, q); }
  }

  lemma ParkedListed(v: View, t: Tid)
    requires Listed(v)
    ensures Parked(v, t) ==> t in v.threads
  {
  }

  lemma PreemptKeeps(v: View)
    requires Inv(v)
    ensures Poised(Preempted(v))
  {
    hide QueuesOk, Distinct;
    QueuesSame(v, Preempted(v));
  }

  lemma YieldKeeps(v: View)
    requires Inv(v)
    ensures Inv(Yielded(v))
  {
    hide SleepersOk, Switched;
    PreemptKeeps(v);
    SwitchKeeps(Preempted(v));
  }

  lemma SleepKeeps(v: View, ticks: nat)
    requires Inv(v) && v.current != v.idle
    ensures Poised(SleepSet(v, ticks))
  {
    hide QueuesOk, Distinct;
    QueuesSame(v, SleepSet(v, ticks));
  }

  lemma BlockListed(v: View, q: Queue)
    requires Inv(v) && v.current != v.idle && q in v.queues
    ensures Listed(v) && Listed(Blocked(v, q)) && TimersOk(Blocked(v, q)) && v.current in v.threads
    ensures forall t :: t in v.threads ==> Blocked(v, q).state[t] != RUNNING
  {
    hide QueuesOk, Distinct;
  }

  lemma BlockParked(v: View, q: Queue, t: Tid)
    requires Inv(v) && v.current != v.idle && q in v.queues && Listed(Blocked(v, q)) && t in v.threads
    ensures Parked(Blocked(v, q), t) == (Parked(v, t) || t == v.current) && !Parked(v, v.current)
  {
    hide QueuesOk, Distinct;
  }

  lemma BlockKeeps(v: View, q: Queue)
    requires Inv(v) && v.current != v.idle && q in v.queues
    ensures Poised(Blocked(v, q))
  {
    hide Listed;
    BlockListed(v, q);
    var r := Blocked(v, q);
    forall t | t in r.threads ensures Parked(r, t) == (Parked(v, t) || t == v.current) { BlockParked(v, q, t); }
    BlockParked(v, q, v.current);
    assert !Waits(v, v.current, q);
    assert Waits(r, v.current, q);
    forall t, p | Waits(r, t, p) ensures Parked(r, t) {
      assert Waits(v, t, p) || t == v.current;
      ParkedListed(v, t);
    }
    forall t, p, p' | Waits(r, t, p) && Waits(r, t, p') ensures p == p' {
      assert (Waits(v, t, p) || (t == v.current && p == q)) && (Waits(v, t, p') || (t == v.current && p' == q));
      ParkedListed(v, t);
    }
  }

  lemma WakeListed(v: View, q: Queue)
    requires Inv(v) && q in v.queues && v.queues[q] != [] && Parked(v, v.queues[q][0])
    ensures var r := Woken(v, q);
            && Listed(v) && Listed(r) && TimersOk(r) && v.queues[q][0] in v.threads
            && v.state[v.queues[q][0]] == SLEEPING
            && r.threads == v.threads && r.current == v.current
            && (forall t :: t in v.threads ==> (r.state[t] == RUNNING <==> t == v.current))
            && (forall t :: Parked(r, t) <==> Parked(v, t) && t != v.queues[q][0])
  {
    hide QueuesOk, Distinct;
  }

  lemma WakeKeeps(v: View, q: Queue)
    requires Inv(v) && q in v.queues && v.queues[q] != []
    ensures Inv(Woken(v, q)) && v.queues[q][0] in v.threads && v.state[v.queues[q][0]] == SLEEPING
  {
    hide Listed;
    var r, first := Woken(v, q), v.queues[q][0];
    assert Waits(v, first, q);
    WakeListed(v, q);
    forall t, p | Waits(r, t, p) ensures Waits(v, t, p) && t != first && Parked(r, t) {
      if p == q {
        var i :| 0 <= i < |r.queues[q]| && r.queues[q][i] == t;
        assert v.queues[q][i + 1] == t && v.queues[q][0] != v.queues[q][i + 1];
      }
      assert Waits(v, t, p);
    }
  }

  /** Waking all empties the queue and makes its sleepers, and nobody else, runnable. */
  lemma {:induction false} WakeAllKeeps(v: View, q: Queue)
    requires Inv(v) && q in v.queues
    ensures Inv(WokenAll(v, q)) && WokenAll(v, q).queues == v.queues[q := []] && WokenAll(v, q).threads == v.threads
    ensures forall t :: t in v.threads ==> WokenAll(v, q).state[t] == if t in v.queues[q] then RUNNABLE else v.state[t]
    ensures WokenAll(v, q) == v.(queues := v.queues[q := []], state := WokenAll(v, q).state)
    decreases |v.queues[q]|
  {
    hide Inv, Woken;
    if v.queues[q] != [] {
      WakeKeeps(v, q);
      WokenShape(v, q);
      WakeAllKeeps(Woken(v, q), q);
    }
  }

  lemma WokenShape(v: View, q: Queue)
    requires Inv(v) && q in v.queues && v.queues[q] != []
    ensures Woken(v, q) == v.(queues := v.queues[q := v.queues[q][1..]], state := v.state[v.queues[q][0] := RUNNABLE])
    ensures forall t :: t in v.queues[q] <==> t == v.queues[q][0] || t in v.queues[q][1..]
    ensures v.queues[q][0] in v.threads && Listed(v)
    ensures v.queues[q][0] !in v.queues[q][1..]
  {
    assert Waits(v, v.queues[q][0], q);
    assert v.queues[q] == [v.queues[q][0]] + v.queues[q][1..];
  }

  lemma ClockKeeps(v: View)
    requires Inv(v)
    ensures Inv(Clocked(v))
  {
    hide QueuesOk, Distinct;
    QueuesSame(v, Clocked(v));
  }

  lemma ExitKeeps(v: View)
    requires Inv(v) && v.current != v.idle
    ensures Poised(SetState(v, v.current, DEAD))
  {
    hide QueuesOk, Distinct;
    QueuesSame(v, SetState(v, v.current, DEAD));
  }

  lemma ReapKeeps(v: View)
    requires Inv(v)
    ensures Inv(Reaped(v))
  {
    hide QueuesOk, Distinct, Living;
    LivingParts(v, v.threads);
    QueuesSame(v, Reaped(v));
  }

  lemma CreateListed(v: View, t: Tid)
    requires Listed(v) && t !in v.threads
    ensures Listed(Created(v, t))
  {
    hide Distinct;
    DistinctMore(v.threads, t);
  }

  lemma CreateKeeps(v: View, t: Tid)
    requires Inv(v) && t !in v.threads
    ensures Inv(Created(v, t))
  {
    hide QueuesOk, Distinct;
    CreateListed(v, t);
    QueuesSame(v, Created(v, t));
  }

  // ----- runs

  datatype Event =
    | Yield
    | Sleep(ticks: nat)
    | Block(queue: Queue)
    | Wake(queue: Queue)
    | WakeAll(queue: Queue)
    | Tick
    | Exit
    | Reap
    | Create(thread: Tid)

  /** One step of the machine. The idle thread only reaps and yields. */
  ghost predicate Next(v: View, e: Event, r: View) {
    && Listed(v)
    && match e
       case Yield => r == Yielded(v)
       case Sleep(ticks) =>
         && v.current != v.idle && ticks < WORD64
         && r == if ticks == 0 then Yielded(v) else Switched(SleepSet(v, ticks))
       case Block(q) => v.current != v.idle && q in v.queues && r == Switched(Blocked(v, q))
       case Wake(q) => q in v.queues && r == if v.queues[q] == [] then v else Woken(v, q)
       case WakeAll(q) => q in v.queues && r == WokenAll(v, q)
       case Tick => r == Yielded(Clocked(v))
       case Exit => v.current != v.idle && r == Switched(SetState(v, v.current, DEAD))
       case Reap => r == Reaped(v)
       case Create(t) => t !in v.threads && r == Created(v, t)
  }

  /** The one thing a caller must not do: sleep until a tick whose 64-bit number is 0. */
  predicate Sound(v: View, e: Event) {
    e.Sleep? && e.ticks > 0 ==> (v.tick + e.ticks) % WORD64 != 0
  }

  /** Every step of every thread keeps the invariant. */
  lemma StepKeeps(v: View, e: Event, r: View)
    requires Inv(v) && Next(v, e, r)
    ensures Inv(r)
  {
    hide SleepersOk, Switched, Woken, WokenAll, Clocked, Reaped, Blocked, Preempted;
    match e
    case Yield => YieldKeeps(v);
    case Sleep(ticks) =>
      if ticks == 0 {
        YieldKeeps(v);
      } else {
        SleepKeeps(v, ticks);
        SwitchKeeps(SleepSet(v, ticks));
      }
    case Block(q) => BlockKeeps(v, q); SwitchKeeps(Blocked(v, q));
    case Wake(q) => if v.queues[q] != [] { WakeKeeps(v, q); }
    case WakeAll(q) => WakeAllKeeps(v, q);
    case Tick => ClockKeeps(v); YieldKeeps(Clocked(v));
    case Exit => ExitKeeps(v); SwitchKeeps(SetState(v, v.current, DEAD));
    case Reap => ReapKeeps(v);
    case Create(t) => CreateKeeps(v, t);
  }

  // ----- lost threads

  lemma SwitchLost(v: View, t: Tid)
    requires Listed(v)
    ensures Lost(Switched(v), t) <==> Lost(v, t)
  {
    hide Pick, Distinct;
  }

  /** A thread that leaves and joins no queue. */
  lemma SameQueues(v: View, r: View, t: Tid)
    requires r.queues.Keys == v.queues.Keys && forall q :: q in v.queues ==> (t in r.queues[q] <==> t in v.queues[q])
    requires t in v.threads <==> t in r.threads
    requires t in v.threads ==>
               t in v.state && t in v.wake && t in r.state && t in r.wake && r.state[t] == v.state[t]
               && r.wake[t] == v.wake[t]
    ensures Lost(r, t) <==> Lost(v, t)
  {
  }

  lemma YieldLost(v: View, t: Tid)
    requires Inv(v)
    ensures Listed(v) && (Lost(Yielded(v), t) <==> Lost(v, t))
  {
    hide Switched, Distinct, QueuesOk;
    SwitchLost(Preempted(v), t);
  }

  lemma SleepLost(v: View, ticks: nat, t: Tid)
    requires Inv(v) && v.current != v.idle
    ensures Listed(SleepSet(v, ticks))
    ensures Lost(Switched(SleepSet(v, ticks)), t) <==> Lost(v, t) || (t == v.current && (v.tick + ticks) % WORD64 == 0)
  {
    hide Switched, Distinct;
    SwitchLost(SleepSet(v, ticks), t);
    forall q | q in v.queues ensures v.current !in v.queues[q] { assert !Waits(v, v.current, q); }
  }

  lemma BlockLost(v: View, q: Queue, t: Tid)
    requires Inv(v) && v.current != v.idle && q in v.queues
    ensures Listed(Blocked(v, q)) && (Lost(Switched(Blocked(v, q)), t) <==> Lost(v, t))
  {
    hide Switched, Distinct, QueuesOk;
    BlockListed(v, q);
    SwitchLost(Blocked(v, q), t);
    var r := Blocked(v, q);
    assert v.current in r.queues[q];
    if t != v.current {
      SameQueues(v, r, t);
    }
  }

  lemma ExitLost(v: View, t: Tid)
    requires Inv(v) && v.current != v.idle
    ensures Listed(SetState(v, v.current, DEAD)) && (Lost(Switched(SetState(v, v.current, DEAD)), t) <==> Lost(v, t))
  {
    hide Switched, Distinct, QueuesOk;
    SwitchLost(SetState(v, v.current, DEAD), t);
  }

  lemma WakeLost(v: View, q: Queue, t: Tid)
    requires Inv(v) && q in v.queues
    ensures v.queues[q] != [] ==> (Lost(Woken(v, q), t) <==> Lost(v, t))
    ensures Lost(WokenAll(v, q), t) <==> Lost(v, t)
  {
    hide Inv, WokenAll, Woken;
    WakeAllKeeps(v, q);
    InvParts(v);
    InvParts(WokenAll(v, q));
    if v.queues[q] != [] {
      WokenShape(v, q);
      if t != v.queues[q][0] {
        SameQueues(v, Woken(v, q), t);
      }
    }
    if t !in v.queues[q] {
      SameQueues(v, WokenAll(v, q), t);
    }
  }

  lemma ClockLost(v: View, t: Tid)
    requires Listed(v)
    ensures Lost(Clocked(v), t) <==> Lost(v, t)
  {
    hide Distinct;
  }

  lemma ReapLost(v: View, t: Tid)
    requires Listed(v)
    ensures Lost(Reaped(v), t) <==> Lost(v, t)
  {
    hide Distinct, Living;
    LivingParts(v, v.threads);
  }

  /** A step loses a thread exactly when that thread goes to sleep until tick number 0,
      and no step ever finds a lost thread again. */
  lemma LostStep(v: View, e: Event, r: View, t: Tid)
    requires Inv(v) && Next(v, e, r)
    ensures Lost(r, t) <==> Lost(v, t) || (!Sound(v, e) && t == v.current)
  {
    hide Inv, Lost, Switched, Woken, WokenAll, Clocked, Reaped, Blocked, Yielded, SleepSet, SetState;
    match e
    case Yield => YieldLost(v, t);
    case Sleep(ticks) => if ticks == 0 { YieldLost(v, t); } else { SleepLost(v, ticks, t); }
    case Block(q) => BlockLost(v, q, t);
    case Wake(q) => WakeLost(v, q, t);
    case WakeAll(q) => WakeLost(v, q, t);
    case Tick => ClockKeeps(v); ClockLost(v, t); YieldLost(Clocked(v), t);
    case Exit => ExitLost(v, t);
    case Reap => ReapLost(v, t);
    case Create(u) => CreateLost(v, u, t);
  }

  lemma CreateLost(v: View, u: Tid, t: Tid)
    requires u !in v.threads
    ensures Lost(Created(v, u), t) <==> Lost(v, t)
  {
  }

  ghost predicate Run(views: seq<View>, events: seq<Event>) {
    && |views| == |events| + 1
    && forall i :: 0 <= i < |events| ==> Next(views[i], events[i], views[i + 1])
  }

  /** Exactly one thread runs, and sleepers are where they should be, at every
      moment of every run. */
  lemma {:induction false} RunKeeps(views: seq<View>, events: seq<Event>, n: nat)
    requires Run(views, events) && Inv(views[0]) && n < |views|
    ensures Inv(views[n])
    decreases n
  {
    hide Inv, Next;
    if n > 0 {
      RunKeeps(views, events, n - 1);
      StepKeeps(views[n - 1], events[n - 1], views[n]);
    }
  }

  /** The thread lost itself at some step of the run. */
  ghost predicate LostItself(views: seq<View>, events: seq<Event>, t: Tid, n: nat)
    requires n <= |events| < |views|
  {
    exists i :: 0 <= i < n && !Sound(views[i], events[i]) && views[i].current == t
  }

  /** In every run the threads that are lost are exactly those that once went to sleep
      until tick number 0. */
  lemma {:induction false} RunLoses(views: seq<View>, events: seq<Event>, t: Tid, n: nat)
    requires Run(views, events) && Inv(views[0]) && n < |views|
    ensures Lost(views[n], t) <==> Lost(views[0], t) || LostItself(views, events, t, n)
    decreases n
  {
    hide Inv, Next, Sound, Lost;
    if n > 0 {
      RunLoses(views, events, t, n - 1);
      RunKeeps(views, events, n - 1);
      LostStep(views[n - 1], events[n - 1], views[n], t);
      if LostItself(views, events, t, n) && !LostItself(views, events, t, n - 1) {
        var i :| 0 <= i < n && !Sound(views[i], events[i]) && views[i].current == t;
        assert i == n - 1;
      }
    }
  }

  // ----- timed sleep

  /** Thread `t` sleeps until tick `w`. */
  predicate Timed(v: View, t: Tid, w: nat) {
    t in v.threads && t in v.state && t in v.wake && v.state[t] == SLEEPING && v.wake[t] == w && w != 0
  }

  predicate Up(v: View, t: Tid) {
    t in v.threads && t in v.state && (v.state[t] == RUNNABLE || v.state[t] == RUNNING)
  }

  /** Only a clock tick that has reached `w` ends a timed sleep, and it does. */
  lemma TimedStep(v: View, e: Event, r: View, t: Tid, w: nat)
    requires Inv(v) && Next(v, e, r) && Timed(v, t, w)
    ensures r.tick == if e.Tick? then (v.tick + 1) % WORD64 else v.tick
    ensures if e.Tick? && w <= r.tick then Up(r, t) else Timed(r, t, w)
  {
    hide Inv, Switched, Timed, Up, Clocked, WokenAll, Woken, Reaped, Created;
    CurrentRuns(v);
    var k := v.wake[v.current];
    assert v.wake == v.wake[v.current := k];
    match e
    case Yield => StillTimed(v, Preempted(v), RUNNABLE, k, t, w);
    case Sleep(ticks) =>
      if ticks == 0 {
        StillTimed(v, Preempted(v), RUNNABLE, k, t, w);
      } else {
        StillTimed(v, SleepSet(v, ticks), SLEEPING, (v.tick + ticks) % WORD64, t, w);
      }
    case Block(q) => StillTimed(v, Blocked(v, q), SLEEPING, k, t, w);
    case Tick => ClockKeeps(v); InvParts(v); InvParts(Clocked(v)); ClockTimed(v, t, w);
    case Exit => StillTimed(v, SetState(v, v.current, DEAD), DEAD, k, t, w);
    case Wake(q) => WakeTimed(v, q, t, w);
    case WakeAll(q) => WakeTimed(v, q, t, w);
    case Reap => ReapTimed(v, t, w);
    case Create(u) => CreateTimed(v, u, t, w);
  }

  lemma CurrentRuns(v: View)
    requires Inv(v)
    ensures v.current in v.state && v.state[v.current] == RUNNING
  {
  }

  lemma InvParts(v: View)
    ensures Inv(v) ==> Listed(v)
  {
  }

  /** Only the state and the wake tick of the current thread changed. */
  predicate CurrentOnly(v: View, u: View, s: State, k: nat) {
    && u.threads == v.threads && u.idle == v.idle && u.current == v.current && u.tick == v.tick
    && u.state == v.state[v.current := s] && u.wake == v.wake[v.current := k] && k < WORD64
    && (v.current == v.idle ==> s == RUNNABLE)
  }

  /** Whatever happens to the current thread before a switch, a sleeper sleeps on. */
  lemma StillTimed(v: View, u: View, s: State, k: nat, t: Tid, w: nat)
    requires Inv(v) && Timed(v, t, w) && CurrentOnly(v, u, s, k)
    ensures Listed(u) && Timed(Switched(u), t, w) && Switched(u).tick == v.tick
  {
    hide Switched, SleepersOk;
    assert v.state[v.current] == RUNNING;
    SwitchTimed(u, t, w);
  }

  lemma WakeTimed(v: View, q: Queue, t: Tid, w: nat)
    requires Inv(v) && Timed(v, t, w) && q in v.queues
    ensures v.queues[q] != [] ==> Timed(Woken(v, q), t, w) && Woken(v, q).tick == v.tick
    ensures Timed(WokenAll(v, q), t, w) && WokenAll(v, q).tick == v.tick
  {
    hide Inv, WokenAll;
    NotCurrent(v, t, w);
    WakeAllKeeps(v, q);
    InvParts(WokenAll(v, q));
  }

  lemma ReapTimed(v: View, t: Tid, w: nat)
    requires Inv(v) && Timed(v, t, w)
    ensures Timed(Reaped(v), t, w) && Reaped(v).tick == v.tick
  {
    hide Inv, Distinct, Living;
    LivingParts(v, v.threads);
    NotCurrent(v, t, w);
  }

  lemma CreateTimed(v: View, u: Tid, t: Tid, w: nat)
    requires Timed(v, t, w) && u !in v.threads
    ensures Timed(Created(v, u), t, w) && Created(v, u).tick == v.tick
  {
  }

  lemma NotCurrent(v: View, t: Tid, w: nat)
    requires Inv(v) && Timed(v, t, w)
    ensures t != v.current && t != v.idle && Listed(v) && forall q :: q in v.queues ==> t !in v.queues[q]
  {
    forall q | q in v.queues ensures t !in v.queues[q] { assert !Waits(v, t, q); }
  }

  lemma SwitchTimed(v: View, t: Tid, w: nat)
    requires Listed(v)
    ensures Timed(v, t, w) ==> Timed(Switched(v), t, w)
    ensures Up(v, t) ==> Up(Switched(v), t)
    ensures Switched(v).tick == v.tick && Switched(v).threads == v.threads
  {
    hide Pick;
  }

  lemma ClockTimed(v: View, t: Tid, w: nat)
    requires Inv(v) && Timed(v, t, w) && Listed(v) && Listed(Clocked(v))
    ensures var r := Yielded(Clocked(v));
            && r.tick == (v.tick + 1) % WORD64
            && if w <= r.tick then Up(r, t) else Timed(r, t, w)
  {
    hide Switched, SleepersOk, Distinct;
    var u := Preempted(Clocked(v));
    assert u.tick == (v.tick + 1) % WORD64 && u.threads == v.threads && Listed(u);
    assert u.state[t] == Clocked(v).state[t] && u.wake[t] == Clocked(v).wake[t];
    SwitchTimed(u, t, w);
  }

  function Ticks(events: seq<Event>): (n: nat)
    ensures n <= |events|
  {
    if events == [] then 0 else Ticks(events[..|events| - 1]) + if events[|events| - 1].Tick? then 1 else 0
  }

  /** After `k` more ticks, counted from `T`, tick `w` has come. */
  predicate Comes(T: nat, w: nat, k: nat) {
    w != 0 && w <= (T + k) % WORD64
  }

  /** The `k`-th tick is the first at which `w` has come. */
  predicate ComesFirst(T: nat, w: nat, k: nat) {
    k >= 1 && Comes(T, w, k) && forall j :: 1 <= j < k ==> !Comes(T, w, j)
  }

  /** How long `scheduler_sleep(ticks)` really sleeps: `ticks` ticks exactly when
      the sum does not leave 64 bits, or the counter itself is about to wrap. */
  lemma SleepLength(T: nat, ticks: nat)
    requires T < WORD64 && 0 < ticks < WORD64
    ensures ComesFirst(T, (T + ticks) % WORD64, ticks) <==> T + ticks < WORD64 || (T == WORD64 - 1 && ticks >= 2)
  {
    var w := (T + ticks) % WORD64;
    if T + ticks < WORD64 || (T == WORD64 - 1 && ticks >= 2) {
      forall j | 1 <= j < ticks ensures !Comes(T, w, j) {
        assert T + ticks < WORD64 ==> (T + j) % WORD64 == T + j;
        assert T == WORD64 - 1 ==> (T + j) % WORD64 == j - 1;
      }
    } else if w != 0 {
      assert Comes(T, w, 1);
    }
  }

  lemma TicksStep(events: seq<Event>, n: nat)
    requires n < |events|
    ensures Ticks(events[..n + 1]) == Ticks(events[..n]) + if events[n].Tick? then 1 else 0
  {
    assert events[..n + 1][..n] == events[..n];
  }

  /** In every run a timed sleeper sleeps on while its tick has not come. */
  lemma {:induction false} SleepsOn(views: seq<View>, events: seq<Event>, t: Tid, w: nat, n: nat)
    requires Run(views, events) && Inv(views[0]) && n < |views| && Timed(views[0], t, w)
    requires forall j :: 1 <= j <= Ticks(events[..n]) ==> !Comes(views[0].tick, w, j)
    ensures Timed(views[n], t, w) && views[n].tick == (views[0].tick + Ticks(events[..n])) % WORD64
    decreases n
  {
    hide Next, Sound, Timed, Inv, Comes;
    if n == 0 {
      StartTick(views[0]);
    } else {
      TicksStep(events, n - 1);
      SleepsOn(views, events, t, w, n - 1);
      RunKeeps(views, events, n - 1);
      TimedStep(views[n - 1], events[n - 1], views[n], t, w);
      NextTick(views[0].tick, Ticks(events[..n - 1]), w);
      TimedMeans(views[n - 1], t, w);
    }
  }

  lemma StartTick(v: View)
    requires Inv(v)
    ensures v.tick == v.tick % WORD64
  {
  }

  lemma TimedMeans(v: View, t: Tid, w: nat)
    ensures Timed(v, t, w) ==> w != 0
  {
  }

  lemma NextTick(T: nat, k: nat, w: nat)
    ensures ((T + k) % WORD64 + 1) % WORD64 == (T + (k + 1)) % WORD64
    ensures Comes(T, w, k + 1) <==> w != 0 && w <= (T + (k + 1)) % WORD64
  {
  }

  /** In every run a timed sleeper is up right after the first tick that has come. */
  lemma WakesThen(views: seq<View>, events: seq<Event>, t: Tid, w: nat, n: nat)
    requires Run(views, events) && Inv(views[0]) && n < |events| && Timed(views[0], t, w)
    requires events[n].Tick? && ComesFirst(views[0].tick, w, Ticks(events[..n + 1]))
    ensures Up(views[n + 1], t)
  {
    hide Next, Sound, Timed, Inv, Comes;
    TicksStep(events, n);
    SleepsOn(views, events, t, w, n);
    RunKeeps(views, events, n);
    TimedStep(views[n], events[n], views[n + 1], t, w);
    NextTick(views[0].tick, Ticks(events[..n]), w);
  }

  lemma {:induction false} TicksGrow(events: seq<Event>, i: nat, n: nat)
    requires i <= n <= |events|
    ensures Ticks(events[..i]) <= Ticks(events[..n])
    decreases n
  {
    if i < n {
      TicksGrow(events, i, n - 1);
      TicksStep(events, n - 1);
    }
  }

  lemma {:induction false} FirstTick(events: seq<Event>, n: nat) returns (m: nat)
    requires n < |events| && Ticks(events[..n + 1]) >= 1
    ensures m <= n && events[m].Tick? && Ticks(events[..m]) == 0 && Ticks(events[..m + 1]) == 1
    decreases n
  {
    TicksStep(events, n);
    if Ticks(events[..n]) == 0 {
      m := n;
    } else {
      m := FirstTick(events, n - 1);
    }
  }

  predicate Asleep(v: View, t: Tid) {
    t in v.state && v.state[t] == SLEEPING
  }

  /** The sleep ends with the tick of the `n`-th event and not before. */
  ghost predicate SleepsUntil(views: seq<View>, t: Tid, n: nat)
    requires n + 1 < |views|
  {
    Up(views[n + 1], t) && forall i :: 0 <= i <= n ==> Asleep(views[i], t)
  }

  lemma SleepStarts(v: View, ticks: nat, r: View)
    requires Inv(v) && Next(v, Sleep(ticks), r) && ticks > 0 && (v.tick + ticks) % WORD64 != 0
    ensures Timed(r, v.current, (v.tick + ticks) % WORD64) && r.tick == v.tick && v.tick < WORD64
  {
    hide Switched, Distinct, QueuesOk;
    SwitchTimed(SleepSet(v, ticks), v.current, (v.tick + ticks) % WORD64);
  }

  lemma SleepIsExact(views: seq<View>, events: seq<Event>, t: Tid, w: nat, n: nat)
    requires Run(views, events) && Inv(views[0]) && n < |events| && Timed(views[0], t, w)
    requires events[n].Tick? && ComesFirst(views[0].tick, w, Ticks(events[..n + 1]))
    ensures SleepsUntil(views, t, n)
  {
    hide Next, Inv, Comes;
    WakesThen(views, events, t, w, n);
    TicksStep(events, n);
    forall i | 0 <= i <= n ensures Asleep(views[i], t) {
      TicksGrow(events, i, n);
      SleepsOn(views, events, t, w, i);
    }
  }

  lemma SleepIsShort(views: seq<View>, events: seq<Event>, t: Tid, w: nat, n: nat)
    requires Run(views, events) && Inv(views[0]) && n < |events| && Timed(views[0], t, w)
    requires Ticks(events[..n + 1]) > 1 && Comes(views[0].tick, w, 1)
    ensures !SleepsUntil(views, t, n)
  {
    hide Next, Inv, Comes;
    var m := FirstTick(events, n);
    WakesThen(views, events, t, w, m);
    assert m < n;
    assert Up(views[m + 1], t) && !Asleep(views[m + 1], t);
  }

  lemma LostIsAsleep(v: View, t: Tid)
    ensures Lost(v, t) ==> !Up(v, t)
  {
  }

  /** A thread that sleeps for `ticks` ticks is up right after the `ticks`-th later tick,
      and asleep until then, whatever all threads do meanwhile, exactly when the sum does
      not leave 64 bits or the counter itself is about to wrap. */
  lemma SleepLasts(v: View, ticks: nat, views: seq<View>, events: seq<Event>, n: nat)
    requires Run(views, events) && Inv(v) && 0 < ticks && Next(v, Sleep(ticks), views[0])
    requires n < |events| && events[n].Tick? && Ticks(events[..n + 1]) == ticks
    ensures SleepsUntil(views, v.current, n) <==> v.tick + ticks < WORD64 || (v.tick == WORD64 - 1 && ticks >= 2)
  {
    hide Next, Inv, Lost, Up, SleepsUntil;
    var t, w := v.current, (v.tick + ticks) % WORD64;
    StepKeeps(v, Sleep(ticks), views[0]);
    TickBound(v, ticks, views[0]);
    if w == 0 {
      LostStep(v, Sleep(ticks), views[0], t);
      RunLoses(views, events, t, n + 1);
      LostIsAsleep(views[n + 1], t);
      NotUntil(views, t, n);
    } else {
      SleepStarts(v, ticks, views[0]);
      SleepLength(v.tick, ticks);
      if v.tick + ticks < WORD64 || (v.tick == WORD64 - 1 && ticks >= 2) {
        SleepIsExact(views, events, t, w, n);
      } else {
        SleepIsShort(views, events, t, w, n);
      }
    }
  }

  lemma TickBound(v: View, ticks: nat, r: View)
    requires Next(v, Sleep(ticks), r)
    ensures v.tick < WORD64 && ticks < WORD64
  {
  }

  lemma NotUntil(views: seq<View>, t: Tid, n: nat)
    requires n + 1 < |views| && !Up(views[n + 1], t)
    ensures !SleepsUntil(views, t, n)
  {
  }

  // ----- two sleeps that go wrong

  function Boot(bootstrap: Tid, idle: Tid, queues: set<Queue>): View {
    View([bootstrap, idle], map[bootstrap := RUNNING, idle := RUNNABLE], map[bootstrap := 0, idle := 0], idle,
         bootstrap, 0,
         map q | q in queues :: [])
  }

  lemma BootSound(bootstrap: Tid, idle: Tid, queues: set<Queue>)
    requires bootstrap != idle
    ensures Inv(Boot(bootstrap, idle, queues)) && NoneLost(Boot(bootstrap, idle, queues))
  {
    hide Distinct;
    var v := Boot(bootstrap, idle, queues);
    TwoDistinct(bootstrap, idle);
    DistinctNone<Tid>();
    assert forall t: Tid :: t in v.threads <==> t == bootstrap || t == idle;
    assert forall t, q :: !Waits(v, t, q);
  }

  lemma TwoDistinct(a: Tid, b: Tid)
    requires a != b
    ensures Distinct([a, b])
  {
  }

  function BootAt(tick: nat): View {
    Boot(1, 2, {}).(tick := tick)
  }

  lemma BootListed(tick: nat)
    requires tick < WORD64
    ensures Listed(BootAt(tick)) && Inv(BootAt(tick))
  {
    hide Distinct;
    BootSound(1, 2, {});
    assert forall t, q :: !Waits(BootAt(tick), t, q);
  }

  lemma BootClock(tick: nat)
    requires tick < WORD64 && Listed(BootAt(tick))
    ensures Clocked(BootAt(tick)) == BootAt((tick + 1) % WORD64)
  {
    hide Listed;
    assert Clocked(BootAt(tick)).state == BootAt(tick).state;
    assert Clocked(BootAt(tick)).wake == BootAt(tick).wake;
  }

  lemma BootYields(tick: nat)
    requires tick < WORD64 && Listed(BootAt(tick))
    ensures Yielded(BootAt(tick)) == BootAt(tick)
  {
    hide Pick, Distinct;
    var u := Preempted(BootAt(tick));
    PickFirst(u, 1, 2);
    assert Yielded(BootAt(tick)).state == BootAt(tick).state;
  }

  /** After boot the clock changes nothing but its count. */
  lemma BootTicks(tick: nat)
    requires tick < WORD64
    ensures Next(BootAt(tick), Tick, BootAt((tick + 1) % WORD64))
  {
    hide Listed, Inv, Yielded, Clocked, BootAt;
    BootListed(tick);
    BootListed((tick + 1) % WORD64);
    BootClock(tick);
    BootYields((tick + 1) % WORD64);
  }

  /** The machine left alone for some ticks. */
  lemma ClockRuns(k: nat) returns (views: seq<View>, events: seq<Event>)
    requires k < WORD64
    ensures |events| == k && Run(views, events) && views[0] == Boot(1, 2, {}) && views[k] == BootAt(k)
  {
    hide Next;
    views, events := seq(k + 1, i requires 0 <= i <= k => BootAt(i)), seq(k, _ => Tick);
    forall i | 0 <= i < k ensures Next(views[i], events[i], views[i + 1]) {
      BootTicks(i);
    }
  }

  lemma PickFirst(u: View, bootstrap: Tid, idle: Tid)
    requires Listed(u) && u.threads == [bootstrap, idle] && u.current == bootstrap && u.idle == idle
             && bootstrap != idle
    requires u.state[bootstrap] == RUNNABLE
    ensures Pick(u) == bootstrap
  {
    assert IndexOf(u.threads, bootstrap) == 0;
    assert Scanned(u, 0) == idle && Scanned(u, 1) == bootstrap;
    assert PickFrom(u, 0) == PickFrom(u, 1);
  }

  /** A run from boot that loses a thread: after one tick it sleeps for all but one of
      the ticks there are. */
  lemma LostRun() returns (views: seq<View>, events: seq<Event>)
    ensures |events| == 2 && Run(views, events) && views[0] == Boot(1, 2, {}) && events[1] == Sleep(WORD64 - 1)
    ensures Lost(views[2], 1) && !Sound(views[1], events[1])
  {
    hide Switched, Yielded, Clocked, Lost, Listed, SleepSet, Inv;
    BootTicks(0);
    BootListed(1);
    var u := BootAt(1);
    SleepLost(u, WORD64 - 1, 1);
    views := [BootAt(0), u, Switched(SleepSet(u, WORD64 - 1))];
    events := [Tick, Sleep(WORD64 - 1)];
  }

  /** A run from boot that cuts a sleep short: two ticks before the clock wraps a thread
      sleeps for four, and is up after one. */
  lemma ShortRun() returns (views: seq<View>, events: seq<Event>, r: View, u: View)
    ensures Run(views, events) && views[0] == Boot(1, 2, {}) && |events| == WORD64 - 2
    ensures Next(views[WORD64 - 2], Sleep(4), r) && Next(r, Tick, u) && views[WORD64 - 2].current == 1 && Up(u, 1)
  {
    hide Run, Switched, Yielded, Clocked, Listed, SleepSet, Up, Inv, Timed;
    views, events := ClockRuns(WORD64 - 2);
    var v := BootAt(WORD64 - 2);
    BootListed(WORD64 - 2);
    SleepLost(v, 4, 1);
    r := Switched(SleepSet(v, 4));
    StepKeeps(v, Sleep(4), r);
    InvParts(r);
    SleepStarts(v, 4, r);
    u := Clocked(r);
    ClockKeeps(r);
    InvParts(u);
    u := Yielded(u);
    TimedStep(r, Tick, u, 1, 2);
  }

  // ----- fairness

  /** How many threads the scan passes before it comes to `t`. */
  function Distance(v: View, t: Tid): (d: nat)
    requires v.current in v.threads && t in v.threads
    ensures d < |v.threads| && Scanned(v, d) == t
  {
    var c, i := IndexOf(v.threads, v.current), IndexOf(v.threads, t);
    if i > c then i - c - 1 else i + |v.threads| - c - 1
  }

  /** While `t` is ready, every switch either runs it or brings the scan nearer to it. */
  lemma SwitchNearer(v: View, t: Tid)
    requires Listed(v) && Ready(v, t) && t in v.threads && t != v.current
    ensures var r := Switched(v); r.current == t || Distance(r, t) < Distance(v, t)
  {
    hide PickFrom, Ready, Scanned, IndexOf;
    var d := Distance(v, t);
    var stop := ScanStops(v, 0);
    assert stop <= d;
    if stop < d {
      Advance(v, t, stop);
    }
  }

  /** Moving the current thread to an earlier place of the scan. */
  lemma Advance(v: View, t: Tid, k: nat)
    requires Listed(v) && t in v.threads && t != v.current && k < Distance(v, t)
    ensures forall r: View ::
              r.threads == v.threads && r.current == Scanned(v, k) ==>
                r.current != v.current && Distance(r, t) < Distance(v, t)
  {
    var n := |v.threads|;
    var c, i := IndexOf(v.threads, v.current), IndexOf(v.threads, t);
    var p := Wrapped(c + 1 + k, n);
    DistinctIndex(v.threads, p);
  }

  /** The steps that end in a switch. */
  predicate Switches(e: Event) {
    e.Yield? || e.Sleep? || e.Block? || e.Tick? || e.Exit?
  }

  function SwitchCount(events: seq<Event>): nat {
    if events == [] then 0 else SwitchCount(events[..|events| - 1]) + if Switches(events[|events| - 1]) then 1 else 0
  }

  /** What a step has made of the threads when its switch is due: nobody else lost its turn. */
  lemma BeforeSwitch(v: View, e: Event, r: View, t: Tid) returns (u: View)
    requires Inv(v) && Next(v, e, r) && Switches(e) && Ready(v, t) && t != v.current
    ensures Listed(u) && u.threads == v.threads && u.current == v.current && Ready(u, t) && r == Switched(u)
  {
    hide Switched, Listed, Inv, Clocked;
    InvParts(v);
    match e
    case Yield => u := Preempted(v); PreemptReady(v, t);
    case Sleep(ticks) =>
      u := if ticks == 0 then Preempted(v) else SleepSet(v, ticks);
      PreemptReady(v, t);
      LeaveReady(v, ticks, t);
    case Block(q) => BlockListed(v, q); u := Blocked(v, q);
    case Tick => ClockKeeps(v); ClockReady(v, t); u := Preempted(Clocked(v)); PreemptReady(Clocked(v), t);
    case Exit => u := SetState(v, v.current, DEAD); LeaveReady(v, 0, t);
  }

  lemma PreemptReady(v: View, t: Tid)
    requires Listed(v) && Ready(v, t)
    ensures Listed(Preempted(v)) && Ready(Preempted(v), t)
  {
    hide Distinct;
  }

  lemma ClockReady(v: View, t: Tid)
    requires Inv(v) && Ready(v, t)
    ensures Listed(v) && Listed(Clocked(v)) && Ready(Clocked(v), t) && Clocked(v).threads == v.threads
            && Clocked(v).current == v.current
  {
    hide Distinct, QueuesOk;
  }

  lemma LeaveReady(v: View, ticks: nat, t: Tid)
    requires Listed(v) && Ready(v, t) && t != v.current
    ensures v.current != v.idle ==> Listed(SleepSet(v, ticks)) && Ready(SleepSet(v, ticks), t)
    ensures v.current != v.idle ==> Listed(SetState(v, v.current, DEAD)) && Ready(SetState(v, v.current, DEAD), t)
  {
    hide Distinct;
  }

  lemma StaysReady(u: View, t: Tid)
    requires Listed(u) && Ready(u, t)
    ensures Switched(u).threads == u.threads && (Switched(u).current == t || Ready(Switched(u), t))
    ensures Switched(u).current in u.threads
  {
    hide Pick, Distinct;
  }

  /** A ready thread stays ready until it runs, and every switch brings its turn nearer. */
  lemma FairStep(v: View, e: Event, r: View, t: Tid)
    requires Inv(v) && Next(v, e, r) && !e.Create? && !e.Reap? && Ready(v, t) && t != v.current
    ensures v.current in v.threads && t in v.threads && r.current in r.threads && r.threads == v.threads
    ensures r.current == t || (Ready(r, t) && Distance(r, t) + (if Switches(e) then 1 else 0) <= Distance(v, t))
  {
    hide Inv, Switched, Distance, Ready;
    ReadyListed(v, t);
    if Switches(e) {
      var u := BeforeSwitch(v, e, r, t);
      SwitchNearer(u, t);
      StaysReady(u, t);
      SameDistance(v, u, t);
    } else {
      WakeStays(v, e, r, t);
      SameDistance(v, r, t);
    }
  }

  lemma ReadyListed(v: View, t: Tid)
    requires Inv(v) && Ready(v, t)
    ensures v.current in v.threads && t in v.threads && Listed(v)
  {
  }

  lemma SameDistance(v: View, u: View, t: Tid)
    requires v.current in v.threads && t in v.threads && u.threads == v.threads && u.current == v.current
    ensures Distance(u, t) == Distance(v, t)
  {
  }

  lemma WakeStays(v: View, e: Event, r: View, t: Tid)
    requires Inv(v) && Next(v, e, r) && (e.Wake? || e.WakeAll?) && Ready(v, t)
    ensures r.threads == v.threads && r.current == v.current && Ready(r, t)
  {
    hide Inv, WokenAll, Woken;
    ReadyListed(v, t);
    WakeAllKeeps(v, e.queue);
    InvParts(WokenAll(v, e.queue));
    if v.queues[e.queue] != [] {
      WokenShape(v, e.queue);
    }
  }

  lemma {:induction false} RunsOrNears(views: seq<View>, events: seq<Event>, t: Tid, n: nat)
    requires Run(views, events) && Inv(views[0]) && n < |views| && Ready(views[0], t)
    requires forall i :: 0 <= i < n ==> !events[i].Create? && !events[i].Reap? && views[i].current != t
    ensures t in views[0].threads && views[0].current in views[0].threads
    ensures views[n].threads == views[0].threads && views[n].current in views[n].threads
    ensures views[n].current == t
            || (Ready(views[n], t) && Distance(views[n], t) + SwitchCount(events[..n]) <= Distance(views[0], t))
    decreases n
  {
    hide Inv, Next, Ready, Distance;
    ReadyListed(views[0], t);
    if n > 0 {
      RunsOrNears(views, events, t, n - 1);
      RunKeeps(views, events, n - 1);
      FairStep(views[n - 1], events[n - 1], views[n], t);
      assert events[..n][..n - 1] == events[..n - 1];
    }
  }

  /** In every run over a fixed set of n threads, a ready thread runs within n - 1 switches. */
  lemma RunsSoon(views: seq<View>, events: seq<Event>, t: Tid, n: nat)
    requires Run(views, events) && Inv(views[0]) && n < |views| && Ready(views[0], t)
    requires forall i :: 0 <= i < n ==> !events[i].Create? && !events[i].Reap?
    requires SwitchCount(events[..n]) >= |views[0].threads| - 1
    ensures exists i :: 0 <= i <= n && views[i].current == t
  {
    hide Inv, Next, Ready, Distance;
    if forall i :: 0 <= i <= n ==> views[i].current != t {
      RunsOrNears(views, events, t, n);
      NotLast(views[0], t);
    }
  }

  lemma NotLast(v: View, t: Tid)
    requires v.current in v.threads && t in v.threads && t != v.current
    ensures Distance(v, t) <= |v.threads| - 2
  {
  }
}
