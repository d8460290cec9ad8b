/** Open files: descriptor slots, references held by blocking transfers, and the
    lifetime of descriptions and pipes. */
module Files {
  import opened Common

  const FD_COUNT: nat := 32

  type Pid = nat
  type FileId = nat
  type PipeId = nat

  /** Who owns a reference: a descriptor slot, or a transfer that is under way. */
  datatype Holder = Slot(pid: Pid, fd: nat) | Transfer(pid: Pid)

  datatype Kind = Plain | End(pipe: PipeId, reading: bool)

  datatype Ends = Ends(reader: bool, writer: bool)

  /** `refs` has an entry for every live description. `released` and `freed` record
      the descriptions released and the pipe bodies freed, in order. */
  datatype View = View(
    held: map<Holder, FileId>,
    refs: map<FileId, nat>,
    kind: map<FileId, Kind>,
    pipes: map<PipeId, Ends>,
    live: nat,
    next: nat,
    released: seq<FileId>,
    freed: seq<PipeId>)

  function Holders(held: map<Holder, FileId>, f: FileId): set<Holder> {
    set h | h in held && held[h] == f
  }

  // ----- invariant

  /** Every count is the number of holders, plus the references in `hand`: those
      an operation has taken and not yet stored. */
  ghost predicate CountsOk(held: map<Holder, FileId>, refs: map<FileId, nat>, hand: multiset<FileId>) {
    && (forall h :: h in held ==> held[h] in refs)
    && (forall f :: f in hand ==> f in refs)
    && (forall f :: f in refs ==> refs[f] == |Holders(held, f)| + hand[f] && refs[f] > 0)
  }

  predicate IsOpen(e: Ends, reading: bool) {
    if reading then e.reader else e.writer
  }

  function Shut(e: Ends, reading: bool): Ends {
    if reading then e.(reader := false) else e.(writer := false)
  }

  /** An end of a pipe is open exactly while its one description lives, and the
      body exists exactly while an end is open. */
  ghost predicate PipesOk(kind: map<FileId, Kind>, pipes: map<PipeId, Ends>) {
    && (forall f :: f in kind && kind[f].End? ==> kind[f].pipe in pipes && IsOpen(pipes[kind[f].pipe], kind[f].reading))
    && (forall f, g :: f in kind && g in kind && kind[f].End? && kind[f] == kind[g] ==> f == g)
    && (forall p :: p in pipes && pipes[p].reader ==> HasEnd(kind, p, true))
    && (forall p :: p in pipes && pipes[p].writer ==> HasEnd(kind, p, false))
    && (forall p :: p in pipes ==> pipes[p].reader || pipes[p].writer)
  }

  ghost predicate HasEnd(kind: map<FileId, Kind>, p: PipeId, reading: bool) {
    exists f :: f in kind && kind[f] == End(p, reading)
  }

  /** Names are new, and nothing is in the record twice or while it lives. */
  predicate RecordOk(alive: set<nat>, record: seq<nat>, next: nat) {
    && Distinct(record) && (forall x :: x in alive ==> x < next && x !in record)
    && (forall x :: x in record ==> x < next)
  }

  ghost predicate Inv(v: View, hand: multiset<FileId>) {
    && CountsOk(v.held, v.refs, hand) && v.live == |v.refs| && v.kind.Keys == v.refs.Keys
    && PipesOk(v.kind, v.pipes)
    && RecordOk(v.refs.Keys, v.released, v.next) && RecordOk(v.pipes.Keys, v.freed, v.next)
  }

  // ----- primitive steps on values

  function Gotten(v: View, f: FileId): View
    requires f in v.refs
  {
    v.(refs := v.refs[f := v.refs[f] + 1])
  }

  predicate CanRelease(v: View, f: FileId) {
    f in v.refs && f in v.kind && v.live > 0 && (v.kind[f].End? ==> v.kind[f].pipe in v.pipes)
  }

  function AfterClose(pipes: map<PipeId, Ends>, k: Kind): map<PipeId, Ends>
    requires k.End? ==> k.pipe in pipes
  {
    if k.Plain? then pipes
    else
      var ends := Shut(pipes[k.pipe], k.reading);
      if !ends.reader && !ends.writer then pipes - {k.pipe} else pipes[k.pipe := ends]
  }

  /** The last reference is gone: release the description, and with its second end the pipe. */
  function Released(v: View, f: FileId): View
    requires CanRelease(v, f)
  {
    var k := v.kind[f];
    var pipes := AfterClose(v.pipes, k);
    v.(refs := v.refs - {f}, kind := v.kind - {f}, live := v.live - 1, released := v.released + [f], pipes := pipes,
       freed := if k.End? && k.pipe !in pipes then v.freed + [k.pipe] else v.freed)
  }

  function Dropped(v: View, f: FileId): View {
    if !CanRelease(v, f) then v
    else if v.refs[f] > 1 then v.(refs := v.refs[f := v.refs[f] - 1])
    else Released(v, f)
  }

  function Stored(v: View, h: Holder, f: FileId): View {
    v.(held := v.held[h := f])
  }

  function Emptied(v: View, h: Holder): View {
    v.(held := v.held - {h})
  }

  /** A new description with one reference, in the hand of its maker. */
  function Made(v: View, k: Kind): View {
    v.(refs := v.refs[v.next := 1], kind := v.kind[v.next := k], live := v.live + 1, next := v.next + 1)
  }

  // ----- counting

  lemma HoldersMore(held: map<Holder, FileId>, h: Holder, f: FileId, g: FileId)
    requires h !in held
    ensures |Holders(held[h := f], g)| == |Holders(held, g)| + if g == f then 1 else 0
  {
    assert Holders(held[h := f], g) == if g == f then Holders(held, g) + {h} else Holders(held, g);
  }

  lemma HoldersLess(held: map<Holder, FileId>, h: Holder, g: FileId)
    requires h in held
    ensures |Holders(held, g)| == |Holders(held - {h}, g)| + if g == held[h] then 1 else 0
  {
    var less := held - {h};
    assert less[h := held[h]] == held;
    HoldersMore(less, h, held[h], g);
  }

  lemma CountStored(held: map<Holder, FileId>, refs: map<FileId, nat>, hand: multiset<FileId>, h: Holder, f: FileId)
    requires CountsOk(held, refs, hand) && h !in held && f in hand
    ensures CountsOk(held[h := f], refs, hand - multiset{f})
  {
    hide Holders;
    forall g | g in refs ensures refs[g] == |Holders(held[h := f], g)| + (hand - multiset{f})[g] {
      HoldersMore(held, h, f, g);
    }
  }

  lemma CountEmptied(held: map<Holder, FileId>, refs: map<FileId, nat>, hand: multiset<FileId>, h: Holder)
    requires CountsOk(held, refs, hand) && h in held
    ensures CountsOk(held - {h}, refs, hand + multiset{held[h]})
  {
    hide Holders;
    forall g | g in refs ensures refs[g] == |Holders(held - {h}, g)| + (hand + multiset{held[h]})[g] {
      HoldersLess(held, h, g);
    }
  }

  lemma CountMade(held: map<Holder, FileId>, refs: map<FileId, nat>, hand: multiset<FileId>, f: FileId)
    requires CountsOk(held, refs, hand) && f !in refs
    ensures CountsOk(held, refs[f := 1], hand + multiset{f})
  {
    assert Holders(held, f) == {};
  }

  lemma CountChanged(held: map<Holder, FileId>, refs: map<FileId, nat>, hand: multiset<FileId>, f: FileId)
    requires CountsOk(held, refs, hand) && f in refs
    ensures CountsOk(held, refs[f := refs[f] + 1], hand + multiset{f})
    ensures f in hand && refs[f] > 1 ==> CountsOk(held, refs[f := refs[f] - 1], hand - multiset{f})
  {
    hide Holders;
  }

  /** The last reference in hand means that nobody else holds one. */
  lemma CountReleased(held: map<Holder, FileId>, refs: map<FileId, nat>, hand: multiset<FileId>, f: FileId)
    requires CountsOk(held, refs, hand) && f in hand && refs[f] == 1
    ensures CountsOk(held, refs - {f}, hand - multiset{f}) && forall h :: h in held ==> held[h] != f
  {
    assert hand[f] >= 1 && |Holders(held, f)| == 0;
    forall h | h in held ensures held[h] != f { assert h !in Holders(held, f); }
  }

  lemma SizeMore<T>(m: map<FileId, T>, f: FileId, x: T)
    ensures |m[f := x]| == if f in m then |m| else |m| + 1
  {
    assert |m[f := x].Keys| == |m[f := x]| && |m.Keys| == |m|;
    assert m[f := x].Keys == m.Keys + {f};
  }

  lemma SizeLess<T>(m: map<FileId, T>, f: FileId)
    requires f in m
    ensures |m - {f}| == |m| - 1
  {
    assert |(m - {f}).Keys| == |m - {f}| && |m.Keys| == |m|;
    assert (m - {f}).Keys == m.Keys - {f};
  }

  // ----- pipes

  lemma PipesMade(kind: map<FileId, Kind>, pipes: map<PipeId, Ends>, f: FileId)
    requires PipesOk(kind, pipes) && f !in kind
    ensures PipesOk(kind[f := Plain], pipes)
  {
    EndsMore(kind, f, Plain);
  }

  lemma EndsMore(kind: map<FileId, Kind>, f: FileId, k: Kind)
    requires f !in kind
    ensures forall p, r :: HasEnd(kind[f := k], p, r) <==> HasEnd(kind, p, r) || k == End(p, r)
  {
    forall p, r ensures HasEnd(kind[f := k], p, r) <==> HasEnd(kind, p, r) || k == End(p, r) {
      if HasEnd(kind, p, r) {
        var g :| g in kind && kind[g] == End(p, r);
        assert kind[f := k][g] == End(p, r);
      }
      if k == End(p, r) { assert kind[f := k][f] == End(p, r); }
    }
  }

  lemma EndsLess(kind: map<FileId, Kind>, f: FileId)
    requires f in kind
    ensures forall p, r :: HasEnd(kind, p, r) && End(p, r) != kind[f] ==> HasEnd(kind - {f}, p, r)
  {
    forall p, r | HasEnd(kind, p, r) && End(p, r) != kind[f] ensures HasEnd(kind - {f}, p, r) {
      var g :| g in kind && kind[g] == End(p, r);
      assert (kind - {f})[g] == End(p, r);
    }
  }

  /** Both ends of a new pipe, one after the other. */
  lemma PipesOpened(kind: map<FileId, Kind>, pipes: map<PipeId, Ends>, p: PipeId, f: FileId)
    requires PipesOk(kind, pipes) && f !in kind && p !in pipes
    ensures PipesOk(kind[f := End(p, true)], pipes[p := Ends(true, false)])
  {
    hide HasEnd;
    EndsMore(kind, f, End(p, true));
  }

  lemma PipesJoined(kind: map<FileId, Kind>, pipes: map<PipeId, Ends>, p: PipeId, f: FileId)
    requires PipesOk(kind, pipes) && f !in kind && p in pipes && pipes[p] == Ends(true, false)
    ensures PipesOk(kind[f := End(p, false)], pipes[p := Ends(true, true)])
  {
    hide HasEnd;
    EndsMore(kind, f, End(p, false));
  }

  lemma PipesReleased(kind: map<FileId, Kind>, pipes: map<PipeId, Ends>, f: FileId)
    requires PipesOk(kind, pipes) && f in kind && (kind[f].End? ==> kind[f].pipe in pipes)
    ensures PipesOk(kind - {f}, AfterClose(pipes, kind[f]))
  {
    hide HasEnd;
    EndsLess(kind, f);
  }

  // ----- records

  lemma RecordMore(alive: set<nat>, record: seq<nat>, next: nat, x: nat)
    requires RecordOk(alive, record, next) && x in alive
    ensures RecordOk(alive - {x}, record + [x], next)
  {
  }

  lemma RecordFewer(alive: set<nat>, fewer: set<nat>, record: seq<nat>, next: nat, next': nat)
    requires RecordOk(alive, record, next) && fewer <= alive + {next} && next < next'
    ensures RecordOk(fewer, record, next')
  {
  }

  // ----- every primitive step keeps the invariant

  lemma GetKeeps(v: View, hand: multiset<FileId>, f: FileId)
    requires Inv(v, hand) && f in v.refs
    ensures Inv(Gotten(v, f), hand + multiset{f})
  {
    hide CountsOk, PipesOk, RecordOk;
    CountChanged(v.held, v.refs, hand, f);
    SizeMore(v.refs, f, v.refs[f] + 1);
    assert Gotten(v, f).refs.Keys == v.refs.Keys;
  }

  lemma StoreKeeps(v: View, hand: multiset<FileId>, h: Holder, f: FileId)
    requires Inv(v, hand) && h !in v.held && f in hand
    ensures Inv(Stored(v, h, f), hand - multiset{f})
  {
    hide CountsOk, PipesOk, RecordOk;
    CountStored(v.held, v.refs, hand, h, f);
  }

  lemma EmptyKeeps(v: View, hand: multiset<FileId>, h: Holder)
    requires Inv(v, hand) && h in v.held
    ensures Inv(Emptied(v, h), hand + multiset{v.held[h]})
  {
    hide CountsOk, PipesOk, RecordOk;
    CountEmptied(v.held, v.refs, hand, h);
  }

  lemma Unborn(v: View, hand: multiset<FileId>)
    requires Inv(v, hand)
    ensures v.next !in v.refs && v.next !in v.kind && v.next !in v.pipes
  {
  }

  lemma MakeKeeps(v: View, hand: multiset<FileId>)
    requires Inv(v, hand)
    ensures Inv(Made(v, Plain), hand + multiset{v.next})
  {
    hide CountsOk, PipesOk, RecordOk;
    Unborn(v, hand);
    CountMade(v.held, v.refs, hand, v.next);
    SizeMore(v.refs, v.next, 1);
    PipesMade(v.kind, v.pipes, v.next);
    var w := Made(v, Plain);
    assert w.refs.Keys == v.refs.Keys + {v.next} && w.kind.Keys == v.kind.Keys + {v.next};
    RecordFewer(v.refs.Keys, w.refs.Keys, v.released, v.next, w.next);
    RecordFewer(v.pipes.Keys, w.pipes.Keys, v.freed, v.next, w.next);
  }

  lemma CanDrop(v: View, hand: multiset<FileId>, f: FileId)
    requires Inv(v, hand) && f in hand
    ensures CanRelease(v, f)
  {
    assert f in v.refs;
    SizeLess(v.refs, f);
  }

  /** Dropping a reference releases the description exactly when it was the last,
      and then nobody, also no transfer, still uses it. */
  lemma DropKeeps(v: View, hand: multiset<FileId>, f: FileId)
    requires Inv(v, hand) && f in hand
    ensures CanRelease(v, f) && Inv(Dropped(v, f), hand - multiset{f})
    ensures f !in Dropped(v, f).refs <==> v.refs[f] == 1
    ensures f !in Dropped(v, f).refs ==> forall h :: h in v.held ==> v.held[h] != f
  {
    hide CountsOk, PipesOk, RecordOk, AfterClose;
    InHand(v.held, v.refs, hand, f);
    CanDrop(v, hand, f);
    if v.refs[f] > 1 {
      CountChanged(v.held, v.refs, hand, f);
      SizeMore(v.refs, f, v.refs[f] - 1);
      assert v.refs[f := v.refs[f] - 1].Keys == v.refs.Keys;
    } else {
      CountReleased(v.held, v.refs, hand, f);
      SizeLess(v.refs, f);
      PipesReleased(v.kind, v.pipes, f);
      ReleaseRecords(v, f);
    }
  }

  lemma InHand(held: map<Holder, FileId>, refs: map<FileId, nat>, hand: multiset<FileId>, f: FileId)
    requires CountsOk(held, refs, hand) && f in hand
    ensures f in refs && refs[f] >= 1
  {
  }

  lemma ReleaseRecords(v: View, f: FileId)
    requires CanRelease(v, f) && RecordOk(v.refs.Keys, v.released, v.next) && RecordOk(v.pipes.Keys, v.freed, v.next)
    requires v.kind.Keys == v.refs.Keys
    ensures var w := Released(v, f);
            && w.kind.Keys == w.refs.Keys
            && RecordOk(w.refs.Keys, w.released, w.next) && RecordOk(w.pipes.Keys, w.freed, w.next)
  {
    hide RecordOk;
    var w, k := Released(v, f), v.kind[f];
    assert w.refs.Keys == v.refs.Keys - {f} && w.kind.Keys == v.kind.Keys - {f};
    RecordMore(v.refs.Keys, v.released, v.next, f);
    if k.End? {
      RecordMore(v.pipes.Keys, v.freed, v.next, k.pipe);
      assert k.pipe !in w.pipes ==> w.pipes.Keys == v.pipes.Keys - {k.pipe};
      assert k.pipe in w.pipes ==> w.pipes.Keys == v.pipes.Keys;
    }
  }

  // ----- from one moment to a later one

  /** Nothing comes back, kinds stay, and whatever is gone has been released or freed. */
  ghost predicate Later(v: View, w: View) {
    && v.released <= w.released && v.freed <= w.freed && v.next <= w.next
    && (forall f :: f in v.kind && f in w.kind ==> w.kind[f] == v.kind[f])
    && (forall f :: f in w.refs && f < v.next ==> f in v.refs)
    && (forall f :: f in v.refs ==> f in w.refs || f in w.released)
    && (forall p :: p in v.pipes ==> p in w.pipes || p in w.freed)
    && (forall f :: f in w.kind && f !in v.kind && w.kind[f].End? ==> w.kind[f].pipe >= v.next)
  }

  lemma LaterItself(v: View)
    ensures Later(v, v)
  {
  }

  lemma LaterTwice(v: View, u: View, w: View)
    requires Later(v, u) && Later(u, w) && v.kind.Keys == v.refs.Keys && u.kind.Keys == u.refs.Keys
             && w.kind.Keys == w.refs.Keys
    requires forall f :: f in v.refs ==> f < v.next
    ensures Later(v, w)
  {
    assert forall x :: x in u.released ==> x in w.released by { PrefixMembers(u.released, w.released); }
    assert forall x :: x in u.freed ==> x in w.freed by { PrefixMembers(u.freed, w.freed); }
  }

  lemma PrefixMembers(a: seq<nat>, b: seq<nat>)
    requires a <= b
    ensures forall x :: x in a ==> x in b
  {
    assert b[..|a|] == a;
  }

  lemma DropLater(v: View, f: FileId)
    requires v.kind.Keys == v.refs.Keys
    ensures Later(v, Dropped(v, f))
  {
  }

  lemma SameLater(v: View, w: View)
    requires w.released == v.released && w.freed == v.freed && v.next <= w.next
    requires forall f :: f in v.kind ==> f in w.kind ==> w.kind[f] == v.kind[f]
    requires forall f :: f in w.refs && f < v.next ==> f in v.refs
    requires v.refs.Keys <= w.refs.Keys && v.pipes.Keys <= w.pipes.Keys
    requires forall f :: f in w.kind && f !in v.kind && w.kind[f].End? ==> w.kind[f].pipe >= v.next
    ensures Later(v, w)
  {
  }

  lemma InvNames(v: View, hand: multiset<FileId>)
    requires Inv(v, hand)
    ensures v.kind.Keys == v.refs.Keys && forall f :: f in v.refs ==> f < v.next
  {
  }
}
