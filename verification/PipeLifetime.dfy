/** The pipe protocol and the reference counts of its two ends together: a thread inside
    a call holds a reference of its own, so no end is closed under a call, and the body
    is freed only when nobody can sleep on it. */
module PipeLifetime {
  import opened Common
  import opened Physical
  import opened Scheduling
  import opened Pipes
  import opened PipeProtocol
  import F = Files
  import D = Descriptors

  /** One pipe with its readers and writers, and the descriptors of all processes. A
      process has one thread, of the same number. */
  datatype Both = Both(sys: Sys, files: F.View)

  datatype Act = Io(move: Move) | Descriptor(call: D.Call)

  /** The end exists and is open. */
  predicate Open(v: F.View, p: F.PipeId, reading: bool) {
    p in v.pipes && F.IsOpen(v.pipes[p], reading)
  }

  /** The transfer that a thread has under way goes through that end. */
  predicate Through(v: F.View, t: Tid, p: F.PipeId, reading: bool) {
    var h := F.Transfer(t);
    h in v.held && v.held[h] in v.kind && v.kind[v.held[h]] == F.End(p, reading)
  }

  predicate Asks(call: Call) {
    match call
    case ReadCall(size) => size > 0
    case WriteCall(data) => data != []
  }

  /** One end or both are closed, in either order. */
  ghost predicate Shuts(e: Ends, s: Sys, read: bool, write: bool, s': Sys) {
    if read && write then exists u: Sys, first: bool :: Shut(e, s, first, u) && Shut(e, u, !first, s')
    else if read then Shut(e, s, true, s')
    else if write then Shut(e, s, false, s')
    else s' == s
  }

  /** A thread enters a call only with a transfer through the end. Any process may make
      any descriptor call meanwhile, but nobody touches the reference of a thread inside
      a call; whatever ends that closes are closed in the pipe. */
  ghost predicate JNext(e: Ends, p: F.PipeId, b: Both, a: Act, b': Both) {
    match a
    case Io(Enter(call)) =>
      var t := b.sys.sched.current;
      && t !in b.sys.calls && t != b.sys.sched.idle && Asks(call) && Through(b.files, t, p, call.ReadCall?)
      && b' == b.(sys := b.sys.(calls := b.sys.calls[t := call]))
    case Io(Close(_)) => false
    case Io(move) => PNext(e, b.sys, move, b'.sys) && b'.files == b.files
    case Descriptor(call) =>
      && D.Next(b.files, call, b'.files)
      && (forall t :: t in b.sys.calls && F.Transfer(t) in b.files.held ==>
                        F.Transfer(t) in b'.files.held && b'.files.held[F.Transfer(t)] == b.files.held[F.Transfer(t)])
      && Shuts(e, b.sys, Open(b.files, p, true) && !Open(b'.files, p, true),
               Open(b.files, p, false) && !Open(b'.files, p, false), b'.sys)
  }

  ghost predicate JInv(e: Ends, p: F.PipeId, b: Both) {
    && PInv(e, b.sys) && F.Inv(b.files, D.NONE) && p < b.files.next
    && b.sys.pipe.reader == Open(b.files, p, true) && b.sys.pipe.writer == Open(b.files, p, false)
    && forall t :: t in b.sys.calls ==> Through(b.files, t, p, b.sys.calls[t].ReadCall?)
  }

  // ----- references keep ends open

  /** A transfer through an end keeps it open. */
  lemma ThroughIsOpen(v: F.View, t: Tid, p: F.PipeId, reading: bool)
    requires F.Inv(v, D.NONE) && Through(v, t, p, reading)
    ensures Open(v, p, reading)
  {
    hide F.RecordOk, F.CountsOk;
  }

  /** A transfer goes on through the same end whatever else is called. */
  lemma ThroughStays(v: F.View, w: F.View, t: Tid, p: F.PipeId, reading: bool)
    requires D.Sound(v, w) && Through(v, t, p, reading)
    requires F.Transfer(t) in w.held && w.held[F.Transfer(t)] == v.held[F.Transfer(t)]
    ensures Through(w, t, p, reading)
  {
    hide F.RecordOk, F.PipesOk;
    D.HeldAlive(w.held, w.refs, D.NONE, F.Transfer(t));
  }

  /** A closed end is never open again. */
  lemma NeverReopened(v: F.View, w: F.View, p: F.PipeId, reading: bool)
    requires F.Inv(v, D.NONE) && D.Sound(v, w) && p < v.next && Open(w, p, reading)
    ensures Open(v, p, reading)
  {
    hide F.RecordOk, F.CountsOk;
    assert F.HasEnd(w.kind, p, reading);
    var f :| f in w.kind && w.kind[f] == F.End(p, reading);
    assert f in v.kind && v.kind[f] == F.End(p, reading);
  }

  // ----- the two together

  lemma ShutKeeps(e: Ends, s: Sys, readEnd: bool, s': Sys)
    requires PInv(e, s) && Unused(s.calls, readEnd) && Shut(e, s, readEnd, s')
    ensures PInv(e, s') && s'.calls == s.calls && s'.pipe == Closed(s.pipe, readEnd)
  {
    hide PInv;
    CloseKeeps(e, s, readEnd, s');
  }

  lemma ShutsKeep(e: Ends, s: Sys, read: bool, write: bool, s': Sys)
    requires PInv(e, s) && Shuts(e, s, read, write, s') && (read ==> Unused(s.calls, true))
             && (write ==> Unused(s.calls, false))
    ensures PInv(e, s') && s'.calls == s.calls
    ensures s'.pipe == s.pipe.(reader := s.pipe.reader && !read, writer := s.pipe.writer && !write)
  {
    hide PInv, Shut, Unused;
    if read && write {
      var u: Sys, first: bool :| Shut(e, s, first, u) && Shut(e, u, !first, s');
      ShutKeeps(e, s, first, u);
      ShutKeeps(e, u, !first, s');
    } else if read {
      ShutKeeps(e, s, true, s');
    } else if write {
      ShutKeeps(e, s, false, s');
    }
  }

  /** No end is closed while a call goes through it. */
  lemma ClosesUnused(b: Both, w: F.View, p: F.PipeId, reading: bool)
    requires F.Inv(b.files, D.NONE) && D.Sound(b.files, w) && !Open(w, p, reading)
    requires forall t :: t in b.sys.calls ==> Through(w, t, p, b.sys.calls[t].ReadCall?)
    ensures Unused(b.sys.calls, reading)
  {
    hide F.Inv, F.Later, Through, Open;
    forall t | t in b.sys.calls ensures b.sys.calls[t].ReadCall? != reading {
      ThroughIsOpen(w, t, p, b.sys.calls[t].ReadCall?);
    }
  }

  lemma DescriptorKeeps(e: Ends, p: F.PipeId, b: Both, call: D.Call, b': Both)
    requires JInv(e, p, b) && JNext(e, p, b, Descriptor(call), b')
    ensures JInv(e, p, b')
  {
    hide PInv, F.Inv, D.Next, Shuts, Open, Unused;
    var v, w := b.files, b'.files;
    D.CallKeeps(v, call, w);
    forall t | t in b.sys.calls ensures Through(w, t, p, b.sys.calls[t].ReadCall?) {
      ThroughStays(v, w, t, p, b.sys.calls[t].ReadCall?);
    }
    if !Open(w, p, true) { ClosesUnused(b, w, p, true); } else { NeverReopened(v, w, p, true); }
    if !Open(w, p, false) { ClosesUnused(b, w, p, false); } else { NeverReopened(v, w, p, false); }
    ShutsKeep(e, b.sys, Open(v, p, true) && !Open(w, p, true), Open(v, p, false) && !Open(w, p, false), b'.sys);
  }

  lemma IoKeeps(e: Ends, p: F.PipeId, b: Both, move: Move, b': Both)
    requires JInv(e, p, b) && JNext(e, p, b, Io(move), b')
    ensures JInv(e, p, b')
  {
    hide PInv, F.Inv, Open, Through, TurnTaken;
    if move.Enter? {
      var t := b.sys.sched.current;
      ThroughIsOpen(b.files, t, p, move.call.ReadCall?);
      MoveKeeps(e, b.sys, move, b'.sys);
    } else {
      MoveKeeps(e, b.sys, move, b'.sys);
      SameEnds(e, b.sys, move, b'.sys);
    }
  }

  /** Reading and writing open and close nothing, and only end calls. */
  lemma SameEnds(e: Ends, s: Sys, m: Move, s': Sys)
    requires PNext(e, s, m, s') && (m.Turn? || m.Other?)
    ensures s'.pipe.reader == s.pipe.reader && s'.pipe.writer == s.pipe.writer
    ensures forall t :: t in s'.calls ==> t in s.calls && s'.calls[t] == s.calls[t]
  {
    hide Next;
  }

  lemma JKeeps(e: Ends, p: F.PipeId, b: Both, a: Act, b': Both)
    requires JInv(e, p, b) && JNext(e, p, b, a, b')
    ensures JInv(e, p, b')
  {
    hide JInv, JNext;
    match a
    case Io(move) => IoKeeps(e, p, b, move, b');
    case Descriptor(call) => DescriptorKeeps(e, p, b, call, b');
  }

  ghost predicate JRun(e: Ends, p: F.PipeId, states: seq<Both>, acts: seq<Act>) {
    && |states| == |acts| + 1
    && forall i :: 0 <= i < |acts| ==> JNext(e, p, states[i], acts[i], states[i + 1])
  }

  /** In every run of all readers, writers and descriptor calls: once the body of the pipe
      is freed, nobody is inside a call of it and nobody sleeps on its queues. */
  lemma {:induction false} FreedUnused(e: Ends, p: F.PipeId, states: seq<Both>, acts: seq<Act>, n: nat)
    requires JRun(e, p, states, acts) && JInv(e, p, states[0]) && n < |states|
    ensures JInv(e, p, states[n])
    ensures p !in states[n].files.pipes ==>
              && states[n].sys.calls == map[] && e.readable in states[n].sys.sched.queues
              && e.writable in states[n].sys.sched.queues
              && states[n].sys.sched.queues[e.readable] == [] && states[n].sys.sched.queues[e.writable] == []
    decreases n
  {
    hide JInv, JNext;
    if n > 0 {
      FreedUnused(e, p, states, acts, n - 1);
      JKeeps(e, p, states[n - 1], acts[n - 1], states[n]);
    }
    if p !in states[n].files.pipes {
      GoneIsShut(e, p, states[n]);
      BodyUnused(e, states[n].sys);
    }
  }

  lemma GoneIsShut(e: Ends, p: F.PipeId, b: Both)
    requires JInv(e, p, b) && p !in b.files.pipes
    ensures PInv(e, b.sys) && !b.sys.pipe.reader && !b.sys.pipe.writer
  {
    hide PInv, F.Inv;
  }

  /** Where such runs begin: with the descriptor call that makes the pipe. */
  lemma Born(e: Ends, sched: View, v: F.View, a: F.Holder, b: F.Holder, w: F.View)
    requires F.Inv(v, D.NONE) && D.Next(v, D.MakePipe(a, b), w)
    requires Inv(sched) && e.readable != e.writable && e.readable in sched.queues && e.writable in sched.queues
    requires sched.queues[e.readable] == [] && sched.queues[e.writable] == []
    ensures JInv(e, v.next, Both(Sys(PipeView([], true, true), sched, map[], [], []), w))
  {
    hide F.Inv, Inv, F.Later;
    D.PipeKeeps(v, a, b);
    FreshPipe(e, sched);
    D.PipeShape(v);
  }
}
