/** The descriptor calls: close, dup, dup2, open, pipe, fork, exit, and the
    reference that a blocking transfer holds. */
module Descriptors {
  import opened Common
  import opened Files

  const NONE: multiset<FileId> := multiset{}

  // ----- the calls on values

  /** Empties a holder, dropping its reference. */
  function Let(v: View, h: Holder): View {
    if h in v.held then Dropped(Emptied(v, h), v.held[h]) else v
  }

  /** Lets `to` hold what `from` holds, in place of what it held. */
  function Copied(v: View, from: Holder, to: Holder): View
    requires from in v.held && v.held[from] in v.refs
  {
    var f := v.held[from];
    Stored(Let(Gotten(v, f), to), to, f)
  }

  function Opened(v: View, h: Holder): View {
    Stored(Made(v, Plain), h, v.next)
  }

  /** The pipe body with its read end, whose reference is in hand. */
  function HalfPipe(v: View): View {
    var p, f := v.next, v.next + 1;
    v.(refs := v.refs[f := 1], kind := v.kind[f := End(p, true)], pipes := v.pipes[p := Ends(true, false)],
       live := v.live + 1, next := f + 1)
  }

  function WholePipe(v: View, p: PipeId): View {
    var f := v.next;
    v.(refs := v.refs[f := 1], kind := v.kind[f := End(p, false)], pipes := v.pipes[p := Ends(true, true)],
       live := v.live + 1, next := f + 1)
  }

  function Piped(v: View, a: Holder, b: Holder): View {
    var w := WholePipe(HalfPipe(v), v.next);
    Stored(Stored(w, a, v.next + 1), b, v.next + 2)
  }

  /** The child's slots from `i` on become those of the parent. */
  function Inherited(v: View, parent: Pid, child: Pid, i: nat): View
    decreases FD_COUNT - i
  {
    if i >= FD_COUNT then v
    else
      var from, to := Slot(parent, i), Slot(child, i);
      Inherited(if from in v.held && v.held[from] in v.refs then Copied(v, from, to) else v, parent, child, i + 1)
  }

  function LetAll(v: View, pid: Pid, i: nat): View
    decreases FD_COUNT - i
  {
    if i >= FD_COUNT then v else LetAll(Let(v, Slot(pid, i)), pid, i + 1)
  }

  // ----- each keeps the invariant

  /** A step between two sound moments. */
  ghost predicate Sound(v: View, w: View) {
    Inv(w, NONE) && Later(v, w)
  }

  lemma LetKeeps(v: View, hand: multiset<FileId>, h: Holder)
    requires Inv(v, hand)
    ensures Inv(Let(v, h), hand) && Later(v, Let(v, h)) && Let(v, h).held == v.held - {h}
    ensures h in v.held ==>
              v.held[h] in v.refs && Let(v, h).released ==
                if v.refs[v.held[h]] > 1 then v.released else v.released + [v.held[h]]
  {
    hide Inv, Later, Released;
    InvNames(v, hand);
    if h in v.held {
      var f := v.held[h];
      EmptyKeeps(v, hand, h);
      DropKeeps(Emptied(v, h), hand + multiset{f}, f);
      assert hand + multiset{f} - multiset{f} == hand;
      InvNames(Emptied(v, h), hand + multiset{f});
      DropLater(Emptied(v, h), f);
      EmptiedLater(v, h, Let(v, h));
      DropHeld(Emptied(v, h), f);
    } else {
      LaterItself(v);
      assert v.held - {h} == v.held;
    }
  }

  lemma DropHeld(v: View, f: FileId)
    ensures Dropped(v, f).held == v.held
    ensures CanRelease(v, f) ==> Dropped(v, f).released == if v.refs[f] > 1 then v.released else v.released + [f]
    ensures forall g :: g in v.refs && g != f ==> g in Dropped(v, f).refs && Dropped(v, f).refs[g] == v.refs[g]
  {
  }

  lemma EmptiedLater(v: View, h: Holder, w: View)
    requires Later(Emptied(v, h), w)
    ensures Later(v, w)
  {
  }

  lemma CopyKeeps(v: View, from: Holder, to: Holder)
    requires Inv(v, NONE) && from in v.held && from != to
    ensures v.held[from] in v.refs && Sound(v, Copied(v, from, to))
            && Copied(v, from, to).held == v.held[to := v.held[from]]
  {
    hide Later, Released, Let, CountsOk, PipesOk, RecordOk;
    var f := v.held[from];
    HeldAlive(v.held, v.refs, NONE, from);
    var g := Gotten(v, f);
    GetKeeps(v, NONE, f);
    JustOne(f);
    LetKeeps(g, multiset{f}, to);
    StoreKeeps(Let(g, to), multiset{f}, to, f);
    GottenLater(v, f, Let(g, to));
    StoredLater(v, Let(g, to), to, f);
    assert (v.held - {to})[to := f] == v.held[to := f];
  }

  lemma HeldAlive(held: map<Holder, FileId>, refs: map<FileId, nat>, hand: multiset<FileId>, h: Holder)
    requires CountsOk(held, refs, hand) && h in held
    ensures held[h] in refs
  {
  }

  lemma GottenLater(v: View, f: FileId, w: View)
    requires f in v.refs && Later(Gotten(v, f), w)
    ensures Later(v, w)
  {
  }

  lemma StoredLater(v: View, w: View, h: Holder, f: FileId)
    requires Later(v, w)
    ensures Later(v, Stored(w, h, f))
  {
  }

  lemma OpenKeeps(v: View, h: Holder)
    requires Inv(v, NONE) && h !in v.held
    ensures Sound(v, Opened(v, h)) && Opened(v, h).held == v.held[h := v.next]
  {
    hide Inv, Later, Made;
    MakeKeeps(v, NONE);
    assert NONE + multiset{v.next} == multiset{v.next};
    MadeShape(v);
    InvNames(v, NONE);
    StoreKeeps(Made(v, Plain), multiset{v.next}, h, v.next);
    assert multiset{v.next} - multiset{v.next} == NONE;
    StoredLater(v, Made(v, Plain), h, v.next);
  }

  lemma MadeShape(v: View)
    ensures Made(v, Plain).held == v.held
    ensures v.next !in v.kind ==> Later(v, Made(v, Plain))
    ensures Inv(v, NONE) ==> Later(v, Made(v, Plain))
  {
    if Inv(v, NONE) { Unborn(v, NONE); }
  }

  lemma HalfKeeps(v: View)
    requires Inv(v, NONE)
    ensures Inv(HalfPipe(v), multiset{v.next + 1}) && Later(v, HalfPipe(v))
            && HalfPipe(v).pipes[v.next] == Ends(true, false)
  {
    hide CountsOk, PipesOk, RecordOk, Later;
    UnbornToo(v);
    HalfCounts(v);
    PipesOpened(v.kind, v.pipes, v.next, v.next + 1);
    HalfRecords(v);
    HalfLater(v);
  }

  lemma HalfCounts(v: View)
    requires CountsOk(v.held, v.refs, NONE) && v.next + 1 !in v.refs && v.live == |v.refs| && v.kind.Keys == v.refs.Keys
    ensures var w := HalfPipe(v);
            CountsOk(w.held, w.refs, multiset{v.next + 1}) && w.live == |w.refs| && w.kind.Keys == w.refs.Keys
  {
    hide CountsOk;
    var f := v.next + 1;
    CountMade(v.held, v.refs, NONE, f);
    JustOne(f);
    SizeMore(v.refs, f, 1);
    KeysMore(v.refs, f, 1);
    KeysMore(v.kind, f, End(v.next, true));
  }

  lemma JustOne(f: FileId)
    ensures NONE + multiset{f} == multiset{f} && multiset{f} - multiset{f} == NONE
  {
  }

  lemma KeysMore<T>(m: map<nat, T>, k: nat, x: T)
    ensures m[k := x].Keys == m.Keys + {k}
  {
  }

  lemma HalfRecords(v: View)
    requires RecordOk(v.refs.Keys, v.released, v.next) && RecordOk(v.pipes.Keys, v.freed, v.next)
    ensures var w := HalfPipe(v); RecordOk(w.refs.Keys, w.released, w.next) && RecordOk(w.pipes.Keys, w.freed, w.next)
  {
    hide RecordOk;
    var p, f, w := v.next, v.next + 1, HalfPipe(v);
    assert w.refs.Keys == v.refs.Keys + {f} && w.pipes.Keys == v.pipes.Keys + {p};
    RecordNew(v.refs.Keys, v.released, v.next, f, w.next);
    RecordNew(v.pipes.Keys, v.freed, v.next, p, w.next);
  }

  lemma HalfLater(v: View)
    requires v.next + 1 !in v.refs && v.next + 1 !in v.kind
    ensures Later(v, HalfPipe(v))
  {
    SameLater(v, HalfPipe(v));
  }

  lemma UnbornToo(v: View)
    requires Inv(v, NONE)
    ensures v.next !in v.pipes && v.next !in v.refs && v.next + 1 !in v.refs && v.next + 1 !in v.kind
  {
  }

  lemma RecordNew(alive: set<nat>, record: seq<nat>, next: nat, x: nat, next': nat)
    requires RecordOk(alive, record, next) && next <= x < next'
    ensures RecordOk(alive + {x}, record, next')
    ensures RecordOk(alive, record, next')
  {
  }

  lemma WholeKeeps(v: View, p: PipeId, r: FileId)
    requires Inv(v, multiset{r}) && p in v.pipes && v.pipes[p] == Ends(true, false)
    ensures Inv(WholePipe(v, p), multiset{r, v.next})
  {
    hide CountsOk, PipesOk, RecordOk;
    var f, w := v.next, WholePipe(v, p);
    Unborn(v, multiset{r});
    CountMade(v.held, v.refs, multiset{r}, f);
    assert multiset{r} + multiset{f} == multiset{r, f};
    SizeMore(v.refs, f, 1);
    PipesJoined(v.kind, v.pipes, p, f);
    assert w.refs.Keys == v.refs.Keys + {f} && w.kind.Keys == v.kind.Keys + {f} && w.pipes.Keys == v.pipes.Keys;
    RecordNew(v.refs.Keys, v.released, v.next, f, w.next);
    RecordNew(v.pipes.Keys, v.freed, v.next, f, w.next);
    InvNames(v, multiset{r});
  }

  lemma KindBelow(v: View)
    requires Inv(v, NONE)
    ensures forall f :: f in v.kind ==> f < v.next
  {
    assert v.kind.Keys == v.refs.Keys;
  }

  lemma WholeLater(v: View)
    requires Inv(v, NONE)
    ensures Later(v, WholePipe(HalfPipe(v), v.next))
  {
    hide Inv, CountsOk, PipesOk;
    UnbornToo(v);
    KindBelow(v);
    SameLater(v, WholePipe(HalfPipe(v), v.next));
  }

  lemma PipeKeeps(v: View, a: Holder, b: Holder)
    requires Inv(v, NONE) && a !in v.held && b !in v.held && a != b
    ensures Sound(v, Piped(v, a, b)) && Piped(v, a, b).held == v.held[a := v.next + 1][b := v.next + 2]
  {
    hide Inv, Later;
    var r, w := v.next + 1, v.next + 2;
    var half := HalfPipe(v);
    var whole := WholePipe(half, v.next);
    HalfKeeps(v);
    WholeKeeps(half, v.next, r);
    WholeLater(v);
    StoreKeeps(whole, multiset{r, w}, a, r);
    assert multiset{r, w} - multiset{r} == multiset{w};
    StoreKeeps(Stored(whole, a, r), multiset{w}, b, w);
    assert multiset{w} - multiset{w} == NONE;
    StoredLater(v, whole, a, r);
    StoredLater(v, Stored(whole, a, r), b, w);
  }

  /** When the second description cannot be made, dropping the first one frees the
      pipe body as well, and everything is as it was. */
  lemma PipeUndone(v: View)
    requires Inv(v, NONE)
    ensures var w := Dropped(HalfPipe(v), v.next + 1);
            && Sound(v, w) && w.held == v.held && w.refs == v.refs && w.kind == v.kind && w.pipes == v.pipes
            && w.live == v.live
            && w.released == v.released + [v.next + 1] && w.freed == v.freed + [v.next]
  {
    hide Inv, Later, HalfPipe;
    var f, half := v.next + 1, HalfPipe(v);
    HalfUndone(v);
    HalfKeeps(v);
    CanDrop(half, multiset{f}, f);
    DropKeeps(half, multiset{f}, f);
    assert multiset{f} - multiset{f} == NONE;
    InvNames(v, NONE);
    InvNames(half, multiset{f});
    DropLater(half, f);
    InvNames(Dropped(half, f), NONE);
    LaterTwice(v, half, Dropped(half, f));
  }

  lemma HalfUndone(v: View)
    requires Inv(v, NONE)
    ensures var w := Dropped(HalfPipe(v), v.next + 1);
            && w.held == v.held && w.refs == v.refs && w.kind == v.kind && w.pipes == v.pipes && w.live == v.live
            && w.released == v.released + [v.next + 1] && w.freed == v.freed + [v.next]
  {
    hide Inv;
    UnbornToo(v);
    var f, half := v.next + 1, HalfPipe(v);
    assert half.refs - {f} == v.refs && half.kind - {f} == v.kind && half.pipes - {v.next} == v.pipes;
  }

  /** From slot `i` on, the child has what the parent has; all other holders are as before. */
  predicate Inherits(v: map<Holder, FileId>, w: map<Holder, FileId>, parent: Pid, child: Pid, i: nat) {
    && (forall h :: h in v ==> h in w && w[h] == v[h])
    && (forall h ::
          h in w && h !in v ==>
            h.Slot? && h.pid == child && i <= h.fd < FD_COUNT && Slot(parent, h.fd) in v
            && w[h] == v[Slot(parent, h.fd)])
    && (forall j :: i <= j < FD_COUNT && Slot(parent, j) in v ==> Slot(child, j) in w)
  }

  lemma InheritsNone(v: map<Holder, FileId>, parent: Pid, child: Pid)
    ensures Inherits(v, v, parent, child, FD_COUNT)
  {
  }

  lemma InheritsMore(v: map<Holder, FileId>, w: map<Holder, FileId>, parent: Pid, child: Pid, i: nat)
    requires i < FD_COUNT && parent != child && forall j :: i <= j < FD_COUNT ==> Slot(child, j) !in v
    requires
      var u := if Slot(parent, i) in v then v[Slot(child, i) := v[Slot(parent, i)]] else v;
      Inherits(u, w, parent, child, i + 1)
    ensures Inherits(v, w, parent, child, i)
  {
  }

  lemma {:induction false} InheritKeeps(v: View, parent: Pid, child: Pid, i: nat)
    requires Inv(v, NONE) && parent != child && i <= FD_COUNT
             && forall j :: i <= j < FD_COUNT ==> Slot(child, j) !in v.held
    ensures Sound(v, Inherited(v, parent, child, i))
            && Inherits(v.held, Inherited(v, parent, child, i).held, parent, child, i)
    decreases FD_COUNT - i
  {
    hide Inv, Later, Copied, Inherits;
    if i == FD_COUNT {
      InheritsNone(v.held, parent, child);
      LaterItself(v);
    } else {
      var from, to := Slot(parent, i), Slot(child, i);
      LaterItself(v);
      var u := v;
      if from in v.held {
        CopyKeeps(v, from, to);
        u := Copied(v, from, to);
      }
      InheritKeeps(u, parent, child, i + 1);
      var w := Inherited(u, parent, child, i + 1);
      InheritsMore(v.held, w.held, parent, child, i);
      InvNames(v, NONE);
      InvNames(u, NONE);
      InvNames(w, NONE);
      LaterTwice(v, u, w);
    }
  }

  /** The slots of a process from `i` on are empty; all other holders are as before. */
  predicate Vacated(v: map<Holder, FileId>, w: map<Holder, FileId>, pid: Pid, i: nat) {
    && (forall h :: h in w ==> h in v && w[h] == v[h])
    && (forall h :: h in v ==> (h in w <==> !(h.Slot? && h.pid == pid && i <= h.fd < FD_COUNT)))
  }

  lemma {:induction false} LetAllKeeps(v: View, pid: Pid, i: nat)
    requires Inv(v, NONE) && i <= FD_COUNT
    ensures Sound(v, LetAll(v, pid, i)) && Vacated(v.held, LetAll(v, pid, i).held, pid, i)
    decreases FD_COUNT - i
  {
    hide Inv, Later, Let;
    if i == FD_COUNT {
      LaterItself(v);
    } else {
      var u := Let(v, Slot(pid, i));
      LetKeeps(v, NONE, Slot(pid, i));
      LetAllKeeps(u, pid, i + 1);
      var w := LetAll(u, pid, i + 1);
      InvNames(v, NONE);
      InvNames(u, NONE);
      InvNames(w, NONE);
      LaterTwice(v, u, w);
    }
  }

  // ----- runs

  datatype Call =
    | Close(h: Holder)
    | Dup(from: Holder, to: Holder)
    | Open(h: Holder)
    | MakePipe(a: Holder, b: Holder)
    | FailPipe
    | Fork(parent: Pid, child: Pid)
    | Exit(pid: Pid)

  /** Any call of any process. A transfer begins by copying its slot's reference
      to itself and ends by closing it. */
  ghost predicate Next(v: View, c: Call, w: View) {
    match c
    case Close(h) => h in v.held && w == Let(v, h)
    case Dup(from, to) => from in v.held && v.held[from] in v.refs && from != to && w == Copied(v, from, to)
    case Open(h) => h !in v.held && w == Opened(v, h)
    case MakePipe(a, b) => a !in v.held && b !in v.held && a != b && w == Piped(v, a, b)
    case FailPipe => w == Dropped(HalfPipe(v), v.next + 1)
    case Fork(parent, child) =>
      parent != child && (forall j :: 0 <= j < FD_COUNT ==> Slot(child, j) !in v.held)
      && w == Inherited(v, parent, child, 0)
    case Exit(pid) => w == LetAll(v, pid, 0)
  }

  lemma CallKeeps(v: View, c: Call, w: View)
    requires Inv(v, NONE) && Next(v, c, w)
    ensures Sound(v, w)
  {
    hide Inv, Later, Let, Copied, Opened, Piped, Dropped, HalfPipe, Inherited, LetAll;
    match c
    case Close(h) => LetKeeps(v, NONE, h);
    case Dup(from, to) => CopyKeeps(v, from, to);
    case Open(h) => OpenKeeps(v, h);
    case MakePipe(a, b) => PipeKeeps(v, a, b);
    case FailPipe => PipeUndone(v);
    case Fork(parent, child) => InheritKeeps(v, parent, child, 0);
    case Exit(pid) => LetAllKeeps(v, pid, 0);
  }

  ghost predicate Run(views: seq<View>, calls: seq<Call>) {
    && |views| == |calls| + 1
    && forall i :: 0 <= i < |calls| ==> Next(views[i], calls[i], views[i + 1])
  }

  /** In every run, at every moment, each count is the number of holders; and what
      was alive earlier is alive or has been released. */
  lemma {:induction false} RunKeeps(views: seq<View>, calls: seq<Call>, m: nat, n: nat)
    requires Run(views, calls) && Inv(views[0], NONE) && m <= n < |views|
    ensures Inv(views[m], NONE) && Inv(views[n], NONE) && Later(views[m], views[n])
    decreases n
  {
    hide Inv, Later, Next;
    if n == 0 {
      LaterItself(views[0]);
    } else if m == n {
      RunKeeps(views, calls, n - 1, n - 1);
      CallKeeps(views[n - 1], calls[n - 1], views[n]);
      LaterItself(views[n]);
    } else {
      RunKeeps(views, calls, m, n - 1);
      CallKeeps(views[n - 1], calls[n - 1], views[n]);
      InvNames(views[m], NONE);
      InvNames(views[n - 1], NONE);
      InvNames(views[n], NONE);
      LaterTwice(views[m], views[n - 1], views[n]);
    }
  }

  /** A description is released exactly once: it is alive until it stands in the
      record, and it stands there once. */
  lemma ReleasedOnce(views: seq<View>, calls: seq<Call>, m: nat, n: nat, f: FileId)
    requires Run(views, calls) && Inv(views[0], NONE) && m <= n < |views| && f in views[m].refs
    ensures f in views[n].refs <==> f !in views[n].released
    ensures multiset(views[n].released)[f] <= 1
  {
    hide Next, CountsOk, PipesOk;
    RunKeeps(views, calls, m, n);
    OnceMeans(views[n].released, f);
  }

  /** The same for pipe bodies. */
  lemma FreedOnce(views: seq<View>, calls: seq<Call>, m: nat, n: nat, p: PipeId)
    requires Run(views, calls) && Inv(views[0], NONE) && m <= n < |views| && p in views[m].pipes
    ensures p in views[n].pipes <==> p !in views[n].freed
    ensures multiset(views[n].freed)[p] <= 1
  {
    hide Next, CountsOk, PipesOk;
    RunKeeps(views, calls, m, n);
    OnceMeans(views[n].freed, p);
  }

  lemma {:induction false} OnceMeans(s: seq<nat>, x: nat)
    requires Distinct(s)
    ensures multiset(s)[x] <= 1
  {
    if s != [] {
      var rest: seq<nat> := s[..|s| - 1];
      assert s == rest + [s[|s| - 1]];
      OnceMeans(rest, x);
      assert x in multiset(rest) <==> x in rest;
    }
  }

  /** While a transfer is under way, its description lives, and if that is a pipe's
      end then the end is open and the body is there: a thread that sleeps on a
      pipe's queue cannot lose the pipe. */
  lemma TransferPins(v: View, pid: Pid)
    requires Inv(v, NONE) && Transfer(pid) in v.held
    ensures var f := v.held[Transfer(pid)];
            && f in v.refs && f in v.kind
            && (v.kind[f].End? ==> v.kind[f].pipe in v.pipes && IsOpen(v.pipes[v.kind[f].pipe], v.kind[f].reading))
  {
    hide RecordOk;
    HeldAlive(v.held, v.refs, NONE, Transfer(pid));
  }

  /** A pipe end closes only in a step after which nobody, also no transfer, holds it. */
  lemma EndClosesUnused(v: View, c: Call, w: View, p: PipeId, r: bool, h: Holder)
    requires Inv(v, NONE) && Next(v, c, w) && p in v.pipes && IsOpen(v.pipes[p], r)
             && (p in w.pipes ==> !IsOpen(w.pipes[p], r))
    requires h in v.held && v.held[h] in v.kind && v.kind[v.held[h]] == End(p, r)
    ensures h !in w.held || w.held[h] != v.held[h]
  {
    hide Next, Inv;
    CallKeeps(v, c, w);
    if h in w.held && w.held[h] == v.held[h] {
      StillOpen(v, w, v.held[h]);
    }
  }

  lemma StillOpen(v: View, w: View, f: FileId)
    requires Inv(w, NONE) && Later(v, w) && f in v.kind && v.kind[f].End? && exists h :: h in w.held && w.held[h] == f
    ensures v.kind[f].pipe in w.pipes && IsOpen(w.pipes[v.kind[f].pipe], v.kind[f].reading)
  {
    hide RecordOk;
    var h :| h in w.held && w.held[h] == f;
    HeldAlive(w.held, w.refs, NONE, h);
    assert f in w.kind && w.kind[f] == v.kind[f];
  }

  // ----- the table in place

  datatype Reply = Fd(fd: nat) | BadFd | NoSlot | NoMemory | Fault

  class FileTable {
    var held: map<Holder, FileId>
    var refs: map<FileId, nat>
    var kind: map<FileId, Kind>
    var pipes: map<PipeId, Ends>
    var live: nat
    var next: nat
    ghost var released: seq<FileId>
    ghost var freed: seq<PipeId>

    ghost function V(): View
      reads this
    {
      View(held, refs, kind, pipes, live, next, released, freed)
    }

    constructor ()
      ensures Inv(V(), NONE) && held == map[] && live == 0
    {
      held, refs, kind, pipes, live, next, released, freed := map[], map[], map[], map[], 0, 0, [], [];
    }

    /** Takes another reference: every count is still the number of holders plus the
        references in hand, of which there is one more now. */
    method Get(f: FileId, ghost hand: multiset<FileId>)
      requires Inv(V(), hand) && f in refs
      modifies this`refs
      ensures Inv(V(), hand + multiset{f}) && V() == Gotten(old(V()), f)
    {
      hide Inv;
      GetKeeps(V(), hand, f);
      refs := refs[f := refs[f] + 1];
    }

    /** Gives a reference in hand back; the last one releases the description. */
    method Put(f: FileId, ghost hand: multiset<FileId>)
      requires Inv(V(), hand) && f in hand
      modifies this
      ensures Inv(V(), hand - multiset{f}) && V() == Dropped(old(V()), f)
      ensures f !in refs <==> old(f in refs && refs[f] == 1)
      ensures f !in refs ==> forall h :: h in held ==> held[h] != f
    {
      hide Inv;
      DropKeeps(V(), hand, f);
      Countable(V(), hand, f);
      SameHolders(V(), f);
      if refs[f] - 1 != 0 {
        refs := refs[f := refs[f] - 1];
        return;
      }
      if kind[f].End? {
        ReleaseEnd(kind[f].pipe, kind[f].reading);
      }
      live := live - 1;
      refs, kind := refs - {f}, kind - {f};
      released := released + [f];
    }

    /** The pipe's release operation: close one end, and free the body with the second. */
    method ReleaseEnd(p: PipeId, reading: bool)
      requires p in pipes
      modifies this`pipes, this`freed
      ensures pipes == AfterClose(old(pipes), End(p, reading))
      ensures freed == if p in pipes then old(freed) else old(freed) + [p]
    {
      if reading {
        pipes := pipes[p := pipes[p].(reader := false)];
      } else {
        pipes := pipes[p := pipes[p].(writer := false)];
      }
      var last := !pipes[p].reader && !pipes[p].writer;
      if last {
        assert pipes - {p} == old(pipes) - {p};
        pipes := pipes - {p};
        freed := freed + [p];
      }
    }

    /** Empties a holder and drops what it held. */
    method LetGo(h: Holder)
      requires Inv(V(), NONE) && h in held
      modifies this
      ensures V() == Let(old(V()), h) && Sound(old(V()), V()) && held == old(held) - {h}
    {
      hide Inv, Later, Dropped;
      LetKeeps(V(), NONE, h);
      ghost var v := V();
      var f := held[h];
      EmptyKeeps(v, NONE, h);
      held := held - {h};
      assert NONE + multiset{f} == multiset{f} && multiset{f} - multiset{f} == NONE;
      Put(f, multiset{f});
    }

    method Close(pid: Pid, fd: nat) returns (ok: bool)
      requires Inv(V(), NONE)
      modifies this
      ensures ok <==> fd < FD_COUNT && Slot(pid, fd) in old(held)
      ensures ok ==>
                Next(old(V()), Call.Close(Slot(pid, fd)), V()) && Sound(old(V()), V())
                && held == old(held) - {Slot(pid, fd)}
      ensures !ok ==> V() == old(V())
    {
      hide Inv, Later;
      if fd >= FD_COUNT || Slot(pid, fd) !in held {
        return false;
      }
      LetGo(Slot(pid, fd));
      return true;
    }

    /** The lowest free slot not below `from`. */
    method EmptySlot(pid: Pid, from: nat) returns (found: bool, fd: nat)
      ensures found ==>
                from <= fd < FD_COUNT && Slot(pid, fd) !in held && forall j :: from <= j < fd ==> Slot(pid, j) in held
      ensures !found ==> forall j :: from <= j < FD_COUNT ==> Slot(pid, j) in held
    {
      fd := from;
      while fd < FD_COUNT
        invariant from <= fd && forall j :: from <= j < fd && j < FD_COUNT ==> Slot(pid, j) in held
      {
        if Slot(pid, fd) !in held {
          return true, fd;
        }
        fd := fd + 1;
      }
      return false, fd;
    }

    /** Makes `to` hold the description of `from`, whatever it held before. */
    method CopyTo(from: Holder, to: Holder)
      requires Inv(V(), NONE) && from in held && from != to
      modifies this
      ensures held == old(held)[to := old(held[from])] && Sound(old(V()), V())
      ensures Next(old(V()), Call.Dup(from, to), V())
    {
      hide Inv, Later, Dropped;
      ghost var v := V();
      CopyKeeps(v, from, to);
      var f := held[from];
      KnownFile(v, from);
      assert NONE + multiset{f} == multiset{f};
      Get(f, NONE);
      if to in held {
        var previous := held[to];
        EmptyKeeps(V(), multiset{f}, to);
        held := held - {to};
        Put(previous, multiset{f} + multiset{previous});
      }
      held := held[to := f];
    }

    method Dup2(pid: Pid, fd: nat, to: nat) returns (r: Reply)
      requires Inv(V(), NONE)
      modifies this
      ensures r == if fd >= FD_COUNT || Slot(pid, fd) !in old(held) || to >= FD_COUNT then BadFd else Fd(to)
      ensures r.Fd? && fd != to ==> held == old(held)[Slot(pid, to) := old(held[Slot(pid, fd)])] && Sound(old(V()), V())
      ensures r.BadFd? || fd == to ==> V() == old(V())
    {
      hide Inv, Later;
      if fd >= FD_COUNT || Slot(pid, fd) !in held || to >= FD_COUNT {
        return BadFd;
      }
      if to != fd {
        CopyTo(Slot(pid, fd), Slot(pid, to));
      }
      return Fd(to);
    }

    method Dup(pid: Pid, fd: nat) returns (r: Reply)
      requires Inv(V(), NONE)
      modifies this
      ensures r.BadFd? <==> fd >= FD_COUNT || Slot(pid, fd) !in old(held)
      ensures r.NoSlot? <==> !r.BadFd? && forall j :: 0 <= j < FD_COUNT ==> Slot(pid, j) in old(held)
      ensures r.Fd? ==>
                && r.fd < FD_COUNT && Slot(pid, r.fd) !in old(held)
                && (forall j :: 0 <= j < r.fd ==> Slot(pid, j) in old(held))
                && fd < FD_COUNT && Slot(pid, fd) in old(held)
                && held == old(held)[Slot(pid, r.fd) := old(held)[Slot(pid, fd)]] && Sound(old(V()), V())
      ensures !r.Fd? ==> V() == old(V())
      ensures !r.NoMemory?
    {
      hide Inv, Later;
      if fd >= FD_COUNT || Slot(pid, fd) !in held {
        return BadFd;
      }
      var found, slot := EmptySlot(pid, 0);
      if !found {
        return NoSlot;
      }
      CopyTo(Slot(pid, fd), Slot(pid, slot));
      return Fd(slot);
    }

    /** Opens a file into the lowest free slot; `made` says whether the description could be made. */
    method OpenInto(pid: Pid, made: bool) returns (r: Reply)
      requires Inv(V(), NONE)
      modifies this
      ensures r.NoSlot? <==> forall j :: 0 <= j < FD_COUNT ==> Slot(pid, j) in old(held)
      ensures r.Fd? ==>
                && made && r.fd < FD_COUNT && Slot(pid, r.fd) !in old(held)
                && (forall j :: 0 <= j < r.fd ==> Slot(pid, j) in old(held))
                && held == old(held)[Slot(pid, r.fd) := old(next)] && old(next) !in old(refs) && Sound(old(V()), V())
                && kind == old(kind)[old(next) := Plain]
      ensures !r.Fd? ==> V() == old(V())
      ensures !r.BadFd? && (r.NoMemory? ==> !made)
    {
      hide Inv, Later;
      var found, slot := EmptySlot(pid, 0);
      if !found {
        return NoSlot;
      }
      if !made {
        return NoMemory;
      }
      Unborn(V(), NONE);
      OpenKeeps(V(), Slot(pid, slot));
      var f := next;
      refs, kind, live, next := refs[f := 1], kind[f := Plain], live + 1, next + 1;
      held := held[Slot(pid, slot) := f];
      return Fd(slot);
    }

    /** Makes a pipe into the two lowest free slots. `pair` says whether the two numbers
        can be stored for the caller; `body`, `first` and `second` say
        which of the three allocations succeed; if one fails nothing has changed. */
    method PipeInto(pid: Pid, pair: bool, body: bool, first: bool, second: bool)
      returns (r: Reply, reader: nat, writer: nat)
      requires Inv(V(), NONE)
      modifies this
      ensures r.Fd? || r.NoSlot? || r.NoMemory? || r.Fault?
      ensures r.Fault? <==> !pair
      ensures r.NoSlot? <==>
                pair && forall i, j :: 0 <= i < j < FD_COUNT ==> Slot(pid, i) in old(held) || Slot(pid, j) in old(held)
      ensures r.Fd? ==>
                && reader < writer < FD_COUNT && Slot(pid, reader) !in old(held) && Slot(pid, writer) !in old(held)
                && (forall j :: 0 <= j < writer && j != reader ==> Slot(pid, j) in old(held))
                && held == old(held)[Slot(pid, reader) := old(next) + 1][Slot(pid, writer) := old(next) + 2]
                && old(next) in pipes && pipes == old(pipes)[old(next) := Ends(true, true)] && Sound(old(V()), V())
                && kind == old(kind)[old(next) + 1 := End(old(next), true)][old(next) + 2 := End(old(next), false)]
      ensures !r.Fd? ==>
                held == old(held) && refs == old(refs) && kind == old(kind) && pipes == old(pipes) && live == old(live)
                && Inv(V(), NONE)
      ensures !r.Fault? && !r.NoSlot? ==> (r.Fd? <==> body && first && second)
    {
      hide Inv, Later, HalfPipe, WholePipe;
      ghost var v := V();
      var found;
      reader, writer := 0, 0;
      if !pair {
        return Fault, reader, writer;
      }
      found, reader := EmptySlot(pid, 0);
      if !found {
        return NoSlot, reader, writer;
      }
      found, writer := EmptySlot(pid, reader + 1);
      if !found {
        return NoSlot, reader, writer;
      }
      PipeKeeps(v, Slot(pid, reader), Slot(pid, writer));
      PipeShape(v);
      var made, f, g := CreatePipe(body, first, second);
      if !made {
        return NoMemory, reader, writer;
      }
      held := held[Slot(pid, reader) := f];
      held := held[Slot(pid, writer) := g];
      r := Fd(reader);
    }

    /** A pipe body and its two descriptions, each with one reference for the caller. */
    method CreatePipe(body: bool, first: bool, second: bool) returns (ok: bool, reader: FileId, writer: FileId)
      requires Inv(V(), NONE)
      modifies this
      ensures ok <==> body && first && second
      ensures ok ==>
                && V() == WholePipe(HalfPipe(old(V())), old(next)) && reader == old(next) + 1
                && writer == old(next) + 2 && refs == old(refs)[reader := 1][writer := 1]
                && kind == old(kind)[reader := End(old(next), true)][writer := End(old(next), false)]
                && pipes == old(pipes)[old(next) := Ends(true, true)]
      ensures !ok ==> Inv(V(), NONE)
      ensures !ok ==>
                held == old(held) && refs == old(refs) && kind == old(kind) && pipes == old(pipes) && live == old(live)
    {
      hide Inv, Later, Dropped, HalfPipe, WholePipe;
      ghost var v := V();
      reader, writer := 0, 0;
      if !body || !first {
        return false, reader, writer;
      }
      PipeUndone(v);
      HalfKeeps(v);
      PipeShape(v);
      var p := next;
      reader := MakeReader();
      if !second {
        Put(reader, multiset{reader});
        return false, reader, writer;
      }
      writer := MakeWriter(p);
      ok := true;
    }

    /** The body of a new pipe and the description of its read end. */
    method MakeReader() returns (reader: FileId)
      modifies this
      ensures V() == HalfPipe(old(V())) && reader == old(next) + 1 && next == reader + 1
    {
      var p := next;
      reader := next + 1;
      refs, kind, live, next := refs[reader := 1], kind[reader := End(p, true)], live + 1, next + 2;
      pipes := pipes[p := Ends(true, false)];
    }

    /** The description of the write end. */
    method MakeWriter(p: PipeId) returns (writer: FileId)
      modifies this
      ensures V() == WholePipe(old(V()), p) && writer == old(next)
    {
      writer := next;
      refs, kind, live, next := refs[writer := 1], kind[writer := End(p, false)], live + 1, next + 1;
      pipes := pipes[p := Ends(true, true)];
    }

    /** Fork: the child's slots share the parent's descriptions. */
    method Inherit(parent: Pid, child: Pid)
      requires Inv(V(), NONE) && parent != child && forall j :: 0 <= j < FD_COUNT ==> Slot(child, j) !in held
      modifies this
      ensures V() == Inherited(old(V()), parent, child, 0) && Sound(old(V()), V())
              && Inherits(old(held), held, parent, child, 0)
    {
      hide Inv, Later, Inherits, Copied, Inherited;
      ghost var v := V();
      InheritKeeps(v, parent, child, 0);
      LaterItself(v);
      var i := 0;
      while i < FD_COUNT
        invariant 0 <= i <= FD_COUNT && Inv(V(), NONE)
                  && Inherited(V(), parent, child, i) == Inherited(v, parent, child, 0)
        invariant forall j :: i <= j < FD_COUNT ==> Slot(child, j) !in held
      {
        InheritedUnfolds(V(), parent, child, i);
        if Slot(parent, i) in held {
          CopyTo(Slot(parent, i), Slot(child, i));
        }
        i := i + 1;
      }
      InheritedUnfolds(V(), parent, child, i);
    }

    /** Exit: every slot of the process is let go. */
    method CloseAll(pid: Pid)
      requires Inv(V(), NONE)
      modifies this
      ensures V() == LetAll(old(V()), pid, 0) && Sound(old(V()), V()) && Vacated(old(held), held, pid, 0)
    {
      hide Inv, Later, Vacated, Let;
      ghost var v := V();
      LetAllKeeps(v, pid, 0);
      var i := 0;
      while i < FD_COUNT
        invariant 0 <= i <= FD_COUNT && Inv(V(), NONE) && LetAll(V(), pid, i) == LetAll(v, pid, 0)
      {
        if Slot(pid, i) in held {
          LetGo(Slot(pid, i));
        } else {
          LetNothing(V(), Slot(pid, i));
        }
        i := i + 1;
      }
    }

    /** A transfer takes its own reference before it may block. */
    method Begin(pid: Pid, fd: nat, allowed: bool) returns (ok: bool)
      requires Inv(V(), NONE) && Transfer(pid) !in held
      modifies this
      ensures ok <==> fd < FD_COUNT && Slot(pid, fd) in old(held) && allowed
      ensures ok ==> held == old(held)[Transfer(pid) := old(held)[Slot(pid, fd)]] && Sound(old(V()), V())
      ensures !ok ==> V() == old(V())
    {
      hide Inv, Later;
      if fd >= FD_COUNT || Slot(pid, fd) !in held || !allowed {
        return false;
      }
      CopyTo(Slot(pid, fd), Transfer(pid));
      return true;
    }

    method Finish(pid: Pid)
      requires Inv(V(), NONE) && Transfer(pid) in held
      modifies this
      ensures held == old(held) - {Transfer(pid)} && Sound(old(V()), V())
    {
      LetGo(Transfer(pid));
    }
  }

  lemma InheritedUnfolds(v: View, parent: Pid, child: Pid, i: nat)
    ensures i >= FD_COUNT ==> Inherited(v, parent, child, i) == v
    ensures i < FD_COUNT ==>
              var from, to := Slot(parent, i), Slot(child, i);
              Inherited(v, parent, child, i)
                == Inherited(if from in v.held && v.held[from] in v.refs then Copied(v, from, to) else v, parent, child,
                             i + 1)
  {
    hide Copied;
  }

  lemma Countable(v: View, hand: multiset<FileId>, f: FileId)
    requires Inv(v, hand) && f in hand
    ensures CanRelease(v, f) && v.refs[f] > 0
  {
    CanDrop(v, hand, f);
    InHand(v.held, v.refs, hand, f);
  }

  lemma SameHolders(v: View, f: FileId)
    ensures Dropped(v, f).held == v.held
  {
  }

  lemma KnownFile(v: View, h: Holder)
    requires Inv(v, NONE) && h in v.held
    ensures v.held[h] in v.refs
  {
    HeldAlive(v.held, v.refs, NONE, h);
  }

  lemma PipeShape(v: View)
    ensures var w := WholePipe(HalfPipe(v), v.next);
            && w.held == v.held && w.pipes == v.pipes[v.next := Ends(true, true)]
            && w.refs == v.refs[v.next + 1 := 1][v.next + 2 := 1]
            && w.kind == v.kind[v.next + 1 := End(v.next, true)][v.next + 2 := End(v.next, false)]
  {
  }

  lemma LetNothing(v: View, h: Holder)
    ensures h !in v.held ==> Let(v, h) == v
  {
  }
}
