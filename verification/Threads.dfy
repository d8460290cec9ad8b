/** The scheduler's state in place: the thread list, the states and the wait
    queues that the kernel changes step by step. */
module Threads {
  import opened Common
  import opened Scheduling

  class Scheduler {
    var threads: seq<Tid>
    var state: map<Tid, State>
    var wake: map<Tid, nat>
    var idle: Tid
    var current: Tid
    var tick: nat
    var preemptions: nat
    var queues: map<Queue, seq<Tid>>

    function V(): View
      reads this
    {
      View(threads, state, wake, idle, current, tick, queues)
    }

    /** The boot thread runs; the idle thread is ready. */
    constructor (bootstrap: Tid, idleThread: Tid, waitQueues: set<Queue>)
      requires bootstrap != idleThread
      ensures V() == Boot(bootstrap, idleThread, waitQueues) && Inv(V()) && NoneLost(V())
    {
      threads := [bootstrap, idleThread];
      state := map[bootstrap := RUNNING, idleThread := RUNNABLE];
      wake := map[bootstrap := 0, idleThread := 0];
      idle, current, tick, preemptions := idleThread, bootstrap, 0, 0;
      queues := map q | q in waitQueues :: [];
      new;
      BootSound(bootstrap, idleThread, waitQueues);
    }

    /** Walks the circular list once, from the node after the current thread. */
    method PickNext() returns (next: Tid)
      requires Listed(V())
      ensures next == Pick(V()) && InTurn(threads, state, idle, current, next)
    {
      hide Listed, Pick, PickFrom, Scanned, IndexOf, Ready, InTurn;
      PickInTurn(V());
      ListedParts(V());
      PickStarts(V());
      var n := |threads|;
      var start := IndexOf(threads, current) + 1;
      var node, more := start, true;
      ghost var k := 0;
      while more
        invariant 0 <= k <= n && node <= n && (more <==> k < n)
        invariant node == (if start + k <= n then start + k else start + k - n)
        invariant Pick(V()) == PickFrom(V(), k)
        decreases n - k
      {
        if node == n {
          node := 0;
        }
        PickNode(V(), k, node);
        var thread := threads[node];
        if state[thread] == RUNNABLE && thread != idle {
          return thread;
        }
        node := node + 1;
        k := k + 1;
        more := node != start;
      }
      // The scan ended with the current thread, so it need not be looked at again.
      PickEnds(V());
      next := idle;
    }

    method Switch()
      requires Listed(V())
      modifies this`state, this`current
      ensures V() == Switched(old(V())) && InTurn(threads, old(state), idle, old(current), current)
      ensures state == old(state)[current := RUNNING]
    {
      hide InTurn, Pick;
      SwitchInTurn(V());
      var previous := current;
      var next := PickNext();
      if next == previous {
        if state[previous] == RUNNABLE {
          state := state[previous := RUNNING];
        }
        return;
      }
      state := state[next := RUNNING];
      current := next;
    }

    method Yield()
      requires Inv(V())
      modifies this`state, this`current
      ensures V() == Yielded(old(V())) && Inv(V())
      ensures InTurn(threads, old(state)[old(current) := RUNNABLE], idle, old(current), current)
      ensures state == old(state)[old(current) := RUNNABLE][current := RUNNING]
    {
      hide Inv, Listed, Switched, InTurn;
      InvParts(V());
      ListedParts(V());
      CurrentRuns(V());
      YieldKeeps(V());
      PreemptListed(V());
      if state[current] == RUNNING {
        state := state[current := RUNNABLE];
      }
      Switch();
    }

    /** Sleeps for a number of ticks; see `SleepLasts` for how long that really is. */
    method Sleep(ticks: nat)
      requires Inv(V()) && current != idle && ticks < WORD64
      modifies this`state, this`current, this`wake
      ensures Next(old(V()), Event.Sleep(ticks), V()) && Inv(V())
      ensures forall t ::
                Lost(V(), t) <==> Lost(old(V()), t) || (t == old(current) && ticks > 0 && (tick + ticks) % WORD64 == 0)
      ensures var rests := old(state)[old(current) := if ticks > 0 then SLEEPING else RUNNABLE];
              && InTurn(threads, rests, idle, old(current), current) && state == rests[current := RUNNING]
              && wake == if ticks > 0 then old(wake)[old(current) := (tick + ticks) % WORD64] else old(wake)
    {
      hide Inv, Listed, Switched, Yielded, SleepResult, Lost, InTurn;
      ghost var v := V();
      InvParts(v);
      ListedParts(v);
      SleepListed(v, ticks);
      SleepMeans(v, ticks);
      ghost var r := if ticks == 0 then Yielded(v) else SleepResult(v, ticks);
      StepKeeps(v, Event.Sleep(ticks), r);
      forall t ensures Lost(r, t) <==> Lost(v, t) || (t == v.current && ticks > 0 && (v.tick + ticks) % WORD64 == 0) {
        LostStep(v, Event.Sleep(ticks), r, t);
      }
      if ticks == 0 {
        Yield();
        return;
      }
      wake := wake[current := (tick + ticks) % WORD64];
      state := state[current := SLEEPING];
      Switch();
    }

    /** Puts the current thread on a queue; the caller then switches. */
    method BlockCurrent(q: Queue)
      requires Inv(V()) && current != idle && q in queues
      modifies this`state, this`queues
      ensures V() == Blocked(old(V()), q) && Poised(V())
      ensures state == old(state)[current := SLEEPING] && queues == old(queues)[q := old(queues[q]) + [current]]
    {
      BlockKeeps(V(), q);
      state := state[current := SLEEPING];
      queues := queues[q := queues[q] + [current]];
    }

    method WakeOne(q: Queue) returns (woke: bool)
      requires Inv(V()) && q in queues
      modifies this`state, this`queues
      ensures woke <==> old(queues[q]) != []
      ensures V() == if woke then Woken(old(V()), q) else old(V())
      ensures woke ==>
                && state == old(state)[old(queues[q])[0] := RUNNABLE] && queues == old(queues)[q := old(queues[q])[1..]]
      ensures Inv(V())
    {
      if queues[q] == [] {
        return false;
      }
      WakeKeeps(V(), q);
      var thread := queues[q][0];
      queues := queues[q := queues[q][1..]];
      if state[thread] == SLEEPING {
        state := state[thread := RUNNABLE];
      }
      return true;
    }

    /** Empties a queue and makes exactly its sleepers runnable. */
    method WakeAll(q: Queue)
      requires Inv(V()) && q in queues
      modifies this`state, this`queues
      ensures Inv(V()) && V() == WokenAll(old(V()), q)
      ensures queues == old(queues)[q := []]
      ensures forall t :: t in threads ==> state[t] == if t in old(queues[q]) then RUNNABLE else old(state)[t]
    {
      hide Inv, WokenAll, Woken;
      WakeAllKeeps(V(), q);
      InvParts(V());
      InvParts(WokenAll(V(), q));
      ghost var v := V();
      var woke := true;
      while woke
        invariant Inv(V()) && q in queues && WokenAll(V(), q) == WokenAll(v, q) && (!woke ==> queues[q] == [])
        decreases |queues[q]|, woke
      {
        ghost var u := V();
        UnrollWake(u, q);
        if queues[q] != [] { WokenShape(u, q); }
        woke := WakeOne(q);
      }
      UnrollWake(V(), q);
    }

    /** The clock interrupt. */
    method Tick()
      requires Inv(V())
      modifies this`state, this`current, this`wake, this`tick, this`preemptions
      ensures V() == Yielded(Clocked(old(V()))) && Inv(V())
      ensures preemptions == (old(preemptions) + 1) % WORD64 && tick == (old(tick) + 1) % WORD64
      ensures wake == (map t | t in old(wake) :: if Rises(old(V()), tick, t) then 0 else old(wake)[t])
      ensures InTurn(threads, Risen(old(V()), tick), idle, old(current), current)
      ensures state == Risen(old(V()), tick)[current := RUNNING]
    {
      hide Inv, Yielded, Clocked, TendedAll, Tended, Listed, InTurn, Risen, Rises;
      ghost var v := V();
      TickMeans(v);
      ClockKeeps(v);
      InvParts(v);
      InvParts(Clocked(v));
      ClockByThread(v);
      ListedParts(v);
      tick := (tick + 1) % WORD64;
      WakeSleepers();
      Preempt();
    }

    /** The running thread goes back among the runnable ones, and the next one runs. */
    method Preempt()
      requires Inv(V())
      modifies this`state, this`current, this`preemptions
      ensures V() == Yielded(old(V())) && Inv(V()) && preemptions == (old(preemptions) + 1) % WORD64
    {
      hide Inv, Switched, Listed;
      YieldKeeps(V());
      InvParts(V());
      ListedParts(V());
      CurrentRuns(V());
      PreemptListed(V());
      if state[current] == RUNNING {
        state := state[current := RUNNABLE];
        preemptions := (preemptions + 1) % WORD64;
      }
      Switch();
    }

    method WakeSleepers()
      requires forall t :: t in threads ==> t in state && t in wake
      modifies this`state, this`wake
      ensures V() == TendedAll(old(V()), threads)
    {
      hide TendedAll;
      ghost var v := V();
      var i := 0;
      assert threads[0..] == threads;
      while i < |threads|
        invariant 0 <= i <= |threads| && forall t :: t in threads ==> t in state && t in wake
        invariant TendedAll(V(), threads[i..]) == TendedAll(v, threads)
      {
        var thread := threads[i];
        TendedNext(V(), threads, i);
        if state[thread] == SLEEPING && wake[thread] != 0 && wake[thread] <= tick {
          wake := wake[thread := 0];
          state := state[thread := RUNNABLE];
        }
        i := i + 1;
      }
      TendedNone(V(), threads[i..]);
    }

    method Exit()
      requires Inv(V()) && current != idle
      modifies this`state, this`current
      ensures Next(old(V()), Event.Exit, V()) && Inv(V())
      ensures InTurn(threads, old(state)[old(current) := DEAD], idle, old(current), current)
      ensures state == old(state)[old(current) := DEAD][current := RUNNING]
    {
      hide Inv, Poised, Listed, Switched, InTurn;
      ghost var v := V();
      InvParts(v);
      ListedParts(v);
      ExitKeeps(v);
      PoisedParts(SetState(v, v.current, DEAD));
      SwitchKeeps(SetState(v, v.current, DEAD));
      state := state[current := DEAD];
      Switch();
    }

    /** Forgets the dead threads. */
    method Reap() returns (reaped: seq<Tid>)
      requires Inv(V())
      modifies this`threads, this`state, this`wake
      ensures V() == Reaped(old(V())) && Inv(V())
      ensures forall t :: t in reaped <==>
                            t in old(threads) && t in old(state) && old(state)[t] == DEAD && t != current && t != idle
      ensures Distinct(reaped) && (forall t :: t in threads <==> t in old(threads) && t !in reaped)
    {
      hide Inv, Living;
      ReapKeeps(V());
      InvParts(V());
      LivingParts(V(), threads);
      threads, state, wake, reaped := Sift(V());
    }

    /** A new thread, if `room` says that its record and its stack can be had. */
    method Create(thread: Tid, room: bool) returns (ok: bool)
      requires Inv(V()) && thread !in threads
      modifies this`threads, this`state, this`wake
      ensures ok == room && Inv(V())
      ensures if ok then Next(old(V()), Event.Create(thread), V()) else V() == old(V())
      ensures ok ==>
                && threads == old(threads) + [thread] && state == old(state)[thread := RUNNABLE]
                && wake == old(wake)[thread := 0]
    {
      if !room {
        return false;
      }
      ok := true;
      CreateKeeps(V(), thread);
      state := state[thread := RUNNABLE];
      wake := wake[thread := 0];
      threads := threads + [thread];
    }
  }

  // ----- the scan, node by node

  lemma PickStarts(v: View)
    requires Listed(v)
    ensures Pick(v) == PickFrom(v, 0)
  {
  }

  lemma PickNode(v: View, k: nat, node: nat)
    requires Listed(v) && k < |v.threads| && node == Wrapped(IndexOf(v.threads, v.current) + 1 + k, |v.threads|)
    ensures var t := v.threads[node];
            PickFrom(v, k) == if v.state[t] == RUNNABLE && t != v.idle then t else PickFrom(v, k + 1)
  {
    hide IndexOf, Distinct;
    assert v.threads[node] == Scanned(v, k);
  }

  lemma PickEnds(v: View)
    requires Listed(v)
    ensures PickFrom(v, |v.threads|) == v.idle
  {
  }

  /** A sleeper with a wake time that is not after the tick. */
  predicate Rises(v: View, tick: nat, t: Tid) {
    t in v.state && t in v.wake && v.state[t] == SLEEPING && 0 < v.wake[t] <= tick
  }

  /** The states before the switch of a tick: sleepers have risen and the current thread
      has stopped running. */
  function Risen(v: View, tick: nat): map<Tid, State> {
    map t | t in v.state :: if Rises(v, tick, t) || t == v.current then RUNNABLE else v.state[t]
  }

  lemma ClockRises(v: View)
    requires Listed(v) && v.state[v.current] == RUNNING
    ensures var c := Clocked(v);
            && c.wake == (map t | t in v.wake :: if Rises(v, c.tick, t) then 0 else v.wake[t])
            && c.state[v.current := RUNNABLE] == Risen(v, c.tick)
  {
    hide Distinct;
  }

  /** A tick wakes the timed sleepers whose time has come, and then it is the next one's turn. */
  lemma TickMeans(v: View)
    requires Inv(v)
    ensures Listed(v) && Listed(Clocked(v))
    ensures var r, tick := Yielded(Clocked(v)), (v.tick + 1) % WORD64;
            && r.tick == tick && r.wake == (map t | t in v.wake :: if Rises(v, tick, t) then 0 else v.wake[t])
            && InTurn(v.threads, Risen(v, tick), v.idle, v.current, r.current)
            && r.state == Risen(v, tick)[r.current := RUNNING]
  {
    hide Inv, Listed, Switched, InTurn, Risen, Rises;
    ClockKeeps(v);
    InvParts(v);
    InvParts(Clocked(v));
    ListedParts(v);
    CurrentRuns(v);
    CurrentRuns(Clocked(v));
    PreemptListed(Clocked(v));
    ClockRises(v);
    SwitchInTurn(Preempted(Clocked(v)));
  }

  // ----- the clock, thread by thread

  /** One thread of the clock's loop. */
  function Tended(v: View, t: Tid): View
    requires t in v.state && t in v.wake
  {
    if Due(v, t, v.tick) then v.(state := v.state[t := RUNNABLE], wake := v.wake[t := 0]) else v
  }

  function TendedAll(v: View, s: seq<Tid>): (r: View)
    requires forall t :: t in s ==> t in v.state && t in v.wake
    ensures r.state.Keys == v.state.Keys && r.wake.Keys == v.wake.Keys && r == v.(state := r.state, wake := r.wake)
    decreases s
  {
    if s == [] then v else TendedAll(Tended(v, s[0]), s[1..])
  }

  lemma {:induction false} TendedAllAt(v: View, s: seq<Tid>, t: Tid)
    requires Distinct(s) && (forall t :: t in s ==> t in v.state && t in v.wake) && t in v.state && t in v.wake
    ensures TendedAll(v, s).state[t] == if t in s && Due(v, t, v.tick) then RUNNABLE else v.state[t]
    ensures TendedAll(v, s).wake[t] == if t in s && Due(v, t, v.tick) then 0 else v.wake[t]
    decreases s
  {
    if s != [] {
      TendedAllAt(Tended(v, s[0]), s[1..], t);
      if t == s[0] { assert t !in s[1..]; }
    }
  }

  /** Tending every thread is the clock's effect. */
  lemma ClockByThread(v: View)
    requires Listed(v)
    ensures TendedAll(v.(tick := (v.tick + 1) % WORD64), v.threads) == Clocked(v)
  {
    hide TendedAll;
    ListedParts(v);
    var u := v.(tick := (v.tick + 1) % WORD64);
    var r := TendedAll(u, v.threads);
    forall t | t in v.state ensures r.state[t] == Clocked(v).state[t] { TendedAllAt(u, v.threads, t); }
    forall t | t in v.wake ensures r.wake[t] == Clocked(v).wake[t] { TendedAllAt(u, v.threads, t); }
    assert r.state == Clocked(v).state && r.wake == Clocked(v).wake;
  }

  lemma TendedNext(v: View, s: seq<Tid>, i: nat)
    requires i < |s| && forall t :: t in s ==> t in v.state && t in v.wake
    ensures (forall t :: t in s[i..] ==> t in s) && s[i] in s && Tended(v, s[i]).state.Keys == v.state.Keys
            && Tended(v, s[i]).wake.Keys == v.wake.Keys
    ensures TendedAll(v, s[i..]) == TendedAll(Tended(v, s[i]), s[i + 1..])
  {
    assert s[i..][0] == s[i] && s[i..][1..] == s[i + 1..];
  }

  lemma TendedNone(v: View, s: seq<Tid>)
    ensures s == [] ==> TendedAll(v, s) == v
  {
  }

  // ----- reaping, thread by thread

  /** Takes the dead threads out of the list. */
  method Sift(v: View) returns (kept: seq<Tid>, state: map<Tid, State>, wake: map<Tid, nat>, reaped: seq<Tid>)
    requires Listed(v)
    ensures kept == Living(v, v.threads) && state == Reaped(v).state && wake == Reaped(v).wake
    ensures Distinct(reaped) && forall t :: t in reaped <==> t in v.threads && Reapable(v, t)
  {
    hide Listed, Living, Dropped, Reaped, Set, Kept;
    kept, state, wake, reaped := [], v.state, v.wake, [];
    NoneDropped(v);
    var i := 0;
    while i < |v.threads|
      invariant 0 <= i <= |v.threads| && Kept(v, i, kept)
      invariant Dropped(v, i, reaped) && state == v.state - Set(reaped) && wake == v.wake - Set(reaped)
    {
      var thread := v.threads[i];
      DropNext(v, i, reaped, thread);
      KeptNext(v, i, kept, thread);
      if thread != v.current && thread != v.idle && state[thread] == DEAD {
        state := state - {thread};
        wake := wake - {thread};
        reaped := reaped + [thread];
      } else {
        kept := kept + [thread];
      }
      i := i + 1;
    }
    DroppedAll(v, kept, reaped);
  }

  function Set(s: seq<Tid>): set<Tid> {
    set t | t in s
  }

  /** Among the first `i` threads, exactly the dead ones are in `reaped`. */
  predicate Dropped(v: View, i: nat, reaped: seq<Tid>)
    requires i <= |v.threads|
  {
    Distinct(reaped) && (forall t :: t in reaped ==> t in v.threads[..i])
    && forall t :: t in v.threads[..i] ==> (t in reaped <==> Reapable(v, t))
  }

  /** Of the first `i` threads exactly the others are in `kept`, in order. */
  predicate Kept(v: View, i: nat, kept: seq<Tid>)
    requires i <= |v.threads|
  {
    kept + Living(v, v.threads[i..]) == Living(v, v.threads)
  }

  lemma KeptNext(v: View, i: nat, kept: seq<Tid>, t: Tid)
    requires i < |v.threads| && Kept(v, i, kept) && t == v.threads[i]
    ensures Kept(v, i + 1, if Reapable(v, t) then kept else kept + [t])
  {
    hide Reapable;
    assert v.threads[i..][0] == t && v.threads[i..][1..] == v.threads[i + 1..];
    assert kept + [t] + Living(v, v.threads[i + 1..]) == kept + ([t] + Living(v, v.threads[i + 1..]));
  }

  lemma NoneDropped(v: View)
    ensures Dropped(v, 0, []) && Kept(v, 0, []) && v.state - Set([]) == v.state && v.wake - Set([]) == v.wake
  {
    assert v.threads[0..] == v.threads;
  }

  lemma DropNext(v: View, i: nat, reaped: seq<Tid>, t: Tid)
    requires Listed(v) && i < |v.threads| && Dropped(v, i, reaped) && t == v.threads[i]
    ensures t in v.state - Set(reaped) && (v.state - Set(reaped))[t] == v.state[t]
    ensures Dropped(v, i + 1, if Reapable(v, t) then reaped + [t] else reaped)
    ensures v.state - Set(reaped) - {t} == v.state - Set(reaped + [t])
            && v.wake - Set(reaped) - {t} == v.wake - Set(reaped + [t])
  {
    hide Listed;
    ListedParts(v);
    DroppedMore(v, i, reaped, t);
    SetMore(v.state, reaped, t);
    SetMore(v.wake, reaped, t);
  }

  lemma DroppedMore(v: View, i: nat, reaped: seq<Tid>, t: Tid)
    requires Distinct(v.threads) && i < |v.threads| && Dropped(v, i, reaped) && t == v.threads[i]
    ensures t !in reaped && Dropped(v, i + 1, if Reapable(v, t) then reaped + [t] else reaped)
  {
    hide Reapable;
    assert v.threads[..i + 1] == v.threads[..i] + [t];
    assert t !in v.threads[..i];
  }

  lemma SetMore<T>(m: map<Tid, T>, s: seq<Tid>, t: Tid)
    ensures m - Set(s) - {t} == m - Set(s + [t])
  {
    assert Set(s + [t]) == Set(s) + {t};
  }

  lemma DroppedAll(v: View, kept: seq<Tid>, reaped: seq<Tid>)
    requires Listed(v) && Dropped(v, |v.threads|, reaped) && Kept(v, |v.threads|, kept)
    ensures kept == Living(v, v.threads) && v.state - Set(reaped) == Reaped(v).state
            && v.wake - Set(reaped) == Reaped(v).wake
    ensures Distinct(reaped) && forall t :: t in reaped <==> t in v.threads && Reapable(v, t)
  {
    hide Listed, Reapable, Distinct;
    ListedParts(v);
    assert v.threads[..|v.threads|] == v.threads && v.threads[|v.threads|..] == [];
    assert v.state - Set(reaped) == Reaped(v).state;
    assert v.wake - Set(reaped) == Reaped(v).wake;
  }

  lemma ListedParts(v: View)
    requires Listed(v)
    ensures v.current in v.threads && v.idle in v.threads && Distinct(v.threads)
    ensures forall t :: t in v.threads ==> t in v.state && t in v.wake
    ensures forall t :: t in v.state ==> t in v.threads
    ensures forall t :: t in v.wake ==> t in v.threads
  {
  }

  lemma PoisedParts(v: View)
    ensures Poised(v) ==> Listed(v)
  {
  }

  lemma PreemptListed(v: View)
    requires Listed(v)
    ensures Listed(Preempted(v))
  {
    hide Distinct;
  }

  function SleepResult(v: View, ticks: nat): View
    requires Listed(v) && v.current != v.idle
  {
    SleepListed(v, ticks);
    Switched(SleepSet(v, ticks))
  }

  lemma SleepMeans(v: View, ticks: nat)
    requires Listed(v) && v.current != v.idle && Listed(SleepSet(v, ticks))
    ensures SleepResult(v, ticks) == Switched(SleepSet(v, ticks))
  {
    hide Listed, Switched;
  }

  lemma SleepListed(v: View, ticks: nat)
    requires Listed(v) && v.current != v.idle
    ensures Listed(SleepSet(v, ticks))
  {
    hide Distinct;
  }

  lemma UnrollWake(v: View, q: Queue)
    requires q in v.queues
    ensures WokenAll(v, q) == if v.queues[q] == [] then v else WokenAll(Woken(v, q), q)
  {
  }
}
