/** What waitpid reports, over every run from boot: the status a child exited with, to
    its parent or to the first process, once. */
module ExitStatus {
  import opened Common
  import opened Family

  /** The process has not exited so far. */
  predicate StillIn(past: seq<Event>, p: Pid) {
    forall i :: 0 <= i < |past| ==> !(past[i].Exit? && past[i].leaver == p)
  }

  /** It exited with that status, and with no other. */
  predicate LeftWith(past: seq<Event>, p: Pid, status: int) {
    && Exit(p, status) in past
    && forall i :: 0 <= i < |past| && past[i].Exit? && past[i].leaver == p ==> past[i].status == status
  }

  /** A record tells what its process did. */
  predicate Tells(past: seq<Event>, p: Pid, r: Proc) {
    match r.state
    case RUNNING => StillIn(past, p)
    case ZOMBIE => LeftWith(past, p, r.status)
    case REAPABLE => LeftWith(past, p, r.status) && ThreadGone(p) in past
  }

  /** Numbers not given out yet have no past. */
  predicate Fresh(past: seq<Event>, next: Pid) {
    forall i :: 0 <= i < |past| && past[i].Exit? ==> past[i].leaver < next
  }

  ghost predicate Told(v: View, past: seq<Event>) {
    Fresh(past, v.next) && forall p :: p in v.procs ==> p < v.next && Tells(past, p, v.procs[p])
  }

  /** One event more that is not the exit of `p`. */
  lemma TellsOn(past: seq<Event>, p: Pid, r: Proc, e: Event)
    requires Tells(past, p, r) && !(e.Exit? && e.leaver == p)
    ensures Tells(past + [e], p, r)
  {
    assert forall x :: x in past ==> x in past + [e];
  }

  lemma TellsExit(past: seq<Event>, p: Pid, status: int)
    requires StillIn(past, p)
    ensures LeftWith(past + [Exit(p, status)], p, status)
  {
    assert (past + [Exit(p, status)])[|past|] == Exit(p, status);
  }

  lemma TellsGone(past: seq<Event>, p: Pid, r: Proc)
    requires Tells(past, p, r) && r.state == ZOMBIE
    ensures Tells(past + [ThreadGone(p)], p, r.(state := REAPABLE))
  {
    TellsOn(past, p, r, ThreadGone(p));
    assert (past + [ThreadGone(p)])[|past|] == ThreadGone(p);
  }

  lemma FreshOn(past: seq<Event>, next: Pid, e: Event, next': Pid)
    requires Fresh(past, next) && next <= next' && (e.Exit? ==> e.leaver < next)
    ensures Fresh(past + [e], next')
  {
  }

  lemma FreshStill(past: seq<Event>, next: Pid)
    requires Fresh(past, next)
    ensures StillIn(past, next)
  {
  }

  /** What an event does to the lives in the table: it ends one, or makes one reapable,
      or begins one, and leaves the others alone. */
  predicate Lives(v: View, e: Event, w: View, p: Pid) {
    p in w.procs ==>
      if p !in v.procs then e.Fork? && p == v.next && w.next == v.next + 1 && w.procs[p].state == RUNNING
      else if e.Exit? && e.leaver == p then
        v.procs[p].state == RUNNING && w.procs[p].state == ZOMBIE && w.procs[p].status == e.status
      else if e.ThreadGone? && e.gone == p then
        v.procs[p].state == ZOMBIE && w.procs[p].state == REAPABLE && w.procs[p].status == v.procs[p].status
      else SameLife(v.procs[p], w.procs[p])
  }

  /** Of every step, also where the family is no longer sound. */
  lemma StepLives(v: View, e: Event, w: View)
    requires Next(v, e, w) && forall p :: p in v.procs ==> p < v.next
    ensures v.next <= w.next && (e.Exit? ==> e.leaver in v.procs) && forall p :: Lives(v, e, w, p)
  {
    hide Found, Without, Reapables;
    match e
    case Exit(leaver, status) =>
      var procs := v.procs[leaver := v.procs[leaver].(state := ZOMBIE, status := status)];
      LivesMoved(procs, leaver, v.init, |procs[leaver].children|);
    case _ =>
  }

  lemma StepTells(v: View, past: seq<Event>, e: Event, w: View)
    requires Told(v, past) && Next(v, e, w)
    ensures Told(w, past + [e])
  {
    hide Next, Tells, Fresh, StillIn, LeftWith;
    StepLives(v, e, w);
    FreshOn(past, v.next, e, w.next);
    FreshStill(past, v.next);
    forall p | p in w.procs ensures p < w.next && Tells(past + [e], p, w.procs[p]) {
      assert Lives(v, e, w, p);
      TellsNext(v, past, e, w, p);
    }
  }

  lemma TellsNext(v: View, past: seq<Event>, e: Event, w: View, p: Pid)
    requires Told(v, past) && p in w.procs && Lives(v, e, w, p) && v.next <= w.next
    ensures p < w.next && Tells(past + [e], p, w.procs[p])
  {
    hide StillIn, LeftWith;
    if p !in v.procs {
      FreshStill(past, v.next);
      TellsOn(past, p, w.procs[p], e);
    } else if e.Exit? && e.leaver == p {
      TellsExit(past, p, e.status);
    } else if e.ThreadGone? && e.gone == p {
      TellsGone(past, p, v.procs[p]);
    } else {
      TellsOn(past, p, v.procs[p], e);
    }
  }

  /** In every run from boot each record tells what its process did. */
  lemma {:induction false} RunTells(views: seq<View>, events: seq<Event>, n: nat)
    requires Run(views, events) && views[0] == First() && n < |views|
    ensures Told(views[n], events[..n])
    decreases n
  {
    hide Next, Tells, Fresh;
    if n == 0 {
      FirstTells();
    } else {
      RunTells(views, events, n - 1);
      StepTells(views[n - 1], events[..n - 1], events[n - 1], views[n]);
      assert events[..n] == events[..n - 1] + [events[n - 1]];
    }
  }

  lemma FirstTells()
    ensures Told(First(), [])
  {
  }

  // ----- who reports

  /** The process forked that child itself. */
  ghost predicate ForkedBy(views: seq<View>, events: seq<Event>, n: nat, p: Pid, c: Pid)
    requires n <= |events| < |views|
  {
    exists k :: 0 <= k < n && events[k] == Fork(p) && views[k].next == c
  }

  /** Lists hold a process's own children, but for the first process, which adopts. */
  ghost predicate OwnChildren(views: seq<View>, events: seq<Event>, n: nat)
    requires n <= |events| < |views|
  {
    (views[n].init == 1 || views[n].init == 0)
    && forall p, c :: IsChild(views[n].procs, p, c) && p != 1 ==> ForkedBy(views, events, n, p, c)
  }

  /** A list gets a child from a fork or, if it is the first process's, from an exit. */
  lemma StepChildren(v: View, e: Event, w: View)
    requires Next(v, e, w)
    ensures w.init == v.init || w.init == 0
    ensures forall p, c ::
              IsChild(w.procs, p, c) && !IsChild(v.procs, p, c) && p != v.init ==> e == Fork(p) && c == v.next
  {
    hide Found, Reapables;
    match e
    case Wait(p, target, options, copies, answer) =>
      if answer.Done? { WithoutParts(v.procs[p].children, answer.child); }
    case _ =>
  }

  lemma {:induction false} RunChildren(views: seq<View>, events: seq<Event>, n: nat)
    requires Run(views, events) && views[0] == First() && n < |views|
    ensures OwnChildren(views, events, n)
    decreases n
  {
    hide Next, IsChild;
    if n == 0 {
      FirstAlone();
    } else {
      RunChildren(views, events, n - 1);
      StepChildren(views[n - 1], events[n - 1], views[n]);
      forall p, c | IsChild(views[n].procs, p, c) && p != 1 ensures ForkedBy(views, events, n, p, c) {
        ForkedStill(views, events, n, p, c);
        NoZero(views, events, n);
      }
    }
  }

  lemma FirstAlone()
    ensures forall p, c :: !IsChild(First().procs, p, c)
  {
  }

  lemma ForkedStill(views: seq<View>, events: seq<Event>, n: nat, p: Pid, c: Pid)
    requires 0 < n <= |events| < |views|
    ensures ForkedBy(views, events, n, p, c) <==>
              ForkedBy(views, events, n - 1, p, c) || (events[n - 1] == Fork(p) && views[n - 1].next == c)
  {
  }

  // ----- the answers

  /** Nobody has number 0. */
  lemma {:induction false} NoZero(views: seq<View>, events: seq<Event>, n: nat)
    requires Run(views, events) && views[0] == First() && n < |views|
    ensures 0 !in views[n].procs && forall c :: !IsChild(views[n].procs, 0, c)
    decreases n
  {
    hide Next;
    if n > 0 {
      NoZero(views, events, n - 1);
      RunTells(views, events, n - 1);
      StepLives(views[n - 1], events[n - 1], views[n]);
      assert Lives(views[n - 1], events[n - 1], views[n], 0);
      NextPositive(views, events, n - 1);
    }
  }

  lemma {:induction false} NextPositive(views: seq<View>, events: seq<Event>, n: nat)
    requires Run(views, events) && views[0] == First() && n < |views|
    ensures views[n].next >= 2
    decreases n
  {
    hide Next;
    if n > 0 {
      NextPositive(views, events, n - 1);
      RunTells(views, events, n - 1);
      StepLives(views[n - 1], events[n - 1], views[n]);
    }
  }

  /** A record that is gone does not come back. */
  lemma {:induction false} GoneForGood(views: seq<View>, events: seq<Event>, n: nat, m: nat, c: Pid)
    requires Run(views, events) && views[0] == First() && n <= m < |views|
    requires c !in views[n].procs && c < views[n].next
    ensures c !in views[m].procs && c < views[m].next
    decreases m
  {
    hide Next;
    if m > n {
      GoneForGood(views, events, n, m - 1, c);
      RunTells(views, events, m - 1);
      StepLives(views[m - 1], events[m - 1], views[m]);
      assert Lives(views[m - 1], events[m - 1], views[m], c);
    }
  }

  /** What an answer needs and does. */
  lemma DoneMeans(v: View, e: Event, w: View)
    requires Next(v, e, w) && e.Wait? && e.answer.Done?
    ensures In(v.procs, e.answer.child, REAPABLE) && v.procs[e.answer.child].status == e.answer.status
    ensures e.waiter in v.procs && IsChild(v.procs, e.waiter, e.answer.child) && e.answer.child !in w.procs
    ensures w.next == v.next
  {
    hide Without, FirstReapable;
  }

  predicate Reports(e: Event, c: Pid) {
    e.Wait? && e.answer.Done? && e.answer.child == c
  }

  /** In every run from boot: if waitpid reports a child and a status, that child exited
      with that status and no other, and its thread was gone; the child is the caller's
      own, or the caller is the first process; and nobody ever hears of that child
      again. */
  lemma StatusIsExit(views: seq<View>, events: seq<Event>, n: nat)
    requires Run(views, events) && views[0] == First() && n < |events| && events[n].Wait? && events[n].answer.Done?
    ensures var c := events[n].answer.child;
            && Exit(c, events[n].answer.status) in events[..n] && ThreadGone(c) in events[..n]
            && (forall i :: 0 <= i < n && events[i].Exit? && events[i].leaver == c ==>
                              events[i].status == events[n].answer.status)
            && (events[n].waiter == 1 || ForkedBy(views, events, n, events[n].waiter, c))
            && forall m :: 0 <= m < |events| && Reports(events[m], c) ==> m == n
  {
    hide Next, IsChild;
    var c := events[n].answer.child;
    RunTells(views, events, n);
    RunChildren(views, events, n);
    DoneMeans(views[n], events[n], views[n + 1]);
    forall m | 0 <= m < |events| && Reports(events[m], c) ensures m == n {
      ReportedOnce(views, events, n, m, c);
      ReportedOnce(views, events, m, n, c);
    }
  }

  lemma ReportedOnce(views: seq<View>, events: seq<Event>, n: nat, m: nat, c: Pid)
    requires Run(views, events) && views[0] == First() && n < |events| && m < |events|
    requires Reports(events[n], c) && Reports(events[m], c)
    ensures n >= m
  {
    hide Next;
    RunTells(views, events, n);
    DoneMeans(views[n], events[n], views[n + 1]);
    DoneMeans(views[m], events[m], views[m + 1]);
    if n < m {
      GoneForGood(views, events, n + 1, m, c);
    }
  }

  /** And every exit is heard by a parent that asks: with a reapable child it waits for,
      waitpid reports one at once. */
  lemma AskedIsTold(v: View, e: Event, w: View, c: Pid)
    requires Inv(v) && Next(v, e, w) && e.Wait? && e.options == 0 && e.copies && (e.target == -1 || e.target == c)
    requires IsChild(v.procs, e.waiter, c) && In(v.procs, c, REAPABLE)
    ensures e.answer.Done? && (e.target == c ==> e.answer == Done(c, v.procs[c].status))
  {
    hide Inv, Outcome, Waited;
    AnswersExactly(v, e.waiter, e.target, e.options, e.copies);
    ChildPositive(v, e.waiter, c);
  }

  lemma ChildPositive(v: View, p: Pid, c: Pid)
    requires Inv(v) && IsChild(v.procs, p, c)
    ensures c > 0
  {
  }

  function Child(state: State, owners: set<Pid>): View {
    View(map[1 := Proc(0, [2], RUNNING, 0), 2 := Proc(1, [], state, 7)], 1, 3, map[], owners, [])
  }

  lemma ChildDies()
    ensures Exited(Two(), 2, 7) == Child(ZOMBIE, {1, 2}) && Reaped(Child(ZOMBIE, {1, 2}), 2) == Child(REAPABLE, {1})
  {
    var none: seq<Pid> := [];
    assert none[..0] == none && none[0..] == none && [2] + none == [2];
    assert Exited(Two(), 2, 7).procs == Child(ZOMBIE, {1, 2}).procs;
    assert Reaped(Child(ZOMBIE, {1, 2}), 2).asleep == map[];
  }

  /** The first process forks a child, which exits with 7, and hears of it. */
  lemma StatusRun() returns (views: seq<View>, events: seq<Event>)
    ensures |events| == 4 && Run(views, events) && views[0] == First()
    ensures events == [Fork(1), Exit(2, 7), ThreadGone(2), Wait(1, -1, 0, true, Done(2, 7))]
    ensures 2 in views[3].procs && 2 !in views[4].procs
  {
    hide Forked, Exited, Reaped, Without;
    ChainGrows();
    ChildDies();
    var gone := Child(REAPABLE, {1});
    assert FirstReapable(gone.procs, [2]) == 2;
    views := [First(), Two(), Child(ZOMBIE, {1, 2}), gone, Waited(gone, 1, -1, 0, true)];
    events := [Fork(1), Exit(2, 7), ThreadGone(2), Wait(1, -1, 0, true, Done(2, 7))];
  }
}
