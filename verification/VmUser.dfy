/** Building, pruning and destroying the private half of a user page table. */
module VmUser {
  import opened Physical
  import opened PageTable
  import opened Vm
  import PageAlloc

  /** Tables disappeared, none appeared, and every entry outside the table at `p`
      that is still in the tree is as it was. */
  ghost predicate Shrunk(fr: Frames, s: Shape, fr': Frames, s': Shape, p: Place) {
    && (forall q :: q in s'.at ==> q in s.at && s'.at[q] == s.at[q])
    && (forall q, l: nat :: q in s'.at && q != p ==> At(fr', s', q, l) == At(fr, s, q, l))
  }

  lemma ShrunkReflexive(fr: Frames, s: Shape, p: Place)
    ensures Shrunk(fr, s, fr, s, p)
  {
  }

  lemma ShrunkByCut(a: Frames, s: Shape, b: Frames, t: Shape, c: Frames, u: Shape, p: Place, n: nat, child: Place)
    requires Shrunk(a, s, b, t, p) && child in t.at && u == DropPlace(t, child)
             && OneEntryChanged(b, t, c, u, p, n, NO_PTE)
    ensures Shrunk(a, s, c, u, p)
  {
  }

  /** No level-0 table below `Mid(i)` with level-1 index under `bound` is empty. */
  ghost predicate LowsFull(fr: Frames, s: Shape, i: nat, bound: nat) {
    forall j: nat :: j < bound && Low(i, j) in s.at ==> !EmptyTable(fr, s.at[Low(i, j)])
  }

  lemma LowsFullAfterCut(b: Frames, t: Shape, c: Frames, u: Shape, i: nat, j: nat)
    requires LowsFull(b, t, i, j) && Low(i, j) in t.at && u == DropPlace(t, Low(i, j))
             && OneEntryChanged(b, t, c, u, Mid(i), j, NO_PTE)
    ensures LowsFull(c, u, i, j + 1)
  {
    forall j': nat | j' < j + 1 && Low(i, j') in u.at ensures !EmptyTable(c, u.at[Low(i, j')]) {
      var l: nat :| l < ENTRIES && Entry(b, t.at[Low(i, j')], l).v;
      assert At(c, u, Low(i, j'), l) == At(b, t, Low(i, j'), l);
    }
  }

  /** Returns the empty level-0 tables below one level-1 table. */
  method PruneMid(m: Memory, table: Frame, ghost i: nat, ghost limit: nat, ghost s: Shape) returns (ghost s': Shape)
    requires Ready(m.frames, m.free, s, limit) && Mid(i) in s.at && table == s.at[Mid(i)]
    modifies m`frames, m`free
    ensures Step(old(m.frames), old(m.free), s, m.frames, m.free, s', limit)
    ensures Leaves(m.frames, s') == Leaves(old(m.frames), s)
    ensures Shrunk(old(m.frames), s, m.frames, s', Mid(i)) && LowsFull(m.frames, s', i, ENTRIES)
    ensures forall q :: q in s.at && !q.Low? ==> q in s'.at
  {
    hide Step, Leaves, TreeOk, Ready, Shrunk, LowsFull, OneEntryChanged, EmptyTable;
    s' := s;
    StepReflexive(m.frames, m.free, s, limit);
    ShrunkReflexive(m.frames, s, Mid(i));
    LowsFullBelowZero(m.frames, s, i);
    var j := 0;
    while j < ENTRIES
      invariant 0 <= j <= ENTRIES
      invariant Step(old(m.frames), old(m.free), s, m.frames, m.free, s', limit)
      invariant Leaves(m.frames, s') == Leaves(old(m.frames), s)
      invariant Shrunk(old(m.frames), s, m.frames, s', Mid(i)) && LowsFull(m.frames, s', i, j)
      invariant forall q :: q in s.at && !q.Low? ==> q in s'.at
    {
      ghost var frames, free, t := m.frames, m.free, s';
      StepReady(old(m.frames), old(m.free), s, frames, free, t, limit);
      ShrunkKeepsFrame(old(m.frames), s, m.frames, t, Mid(i), Mid(i));
      var entry := m.frames[table].entries[j];
      MidEntry(m.frames, limit, t, i, j);
      if IsBranch(entry) {
        var cut;
        cut, s' := Trim(m, table, j, Mid(i), limit, s');
        if cut {
          StepTransitive(old(m.frames), old(m.free), s, frames, free, t, m.frames, m.free, s', limit);
          ShrunkByCut(old(m.frames), s, frames, t, m.frames, s', Mid(i), j, Low(i, j));
          LowsFullAfterCut(frames, t, m.frames, s', i, j);
        } else {
          LowsFullNext(m.frames, s', i, j);
        }
      } else {
        LowsFullNext(m.frames, s', i, j);
      }
      j := j + 1;
    }
  }

  lemma LowsFullBelowZero(fr: Frames, s: Shape, i: nat)
    ensures LowsFull(fr, s, i, 0)
  {
  }

  lemma LowsFullNext(fr: Frames, s: Shape, i: nat, j: nat)
    requires LowsFull(fr, s, i, j) && (Low(i, j) in s.at ==> !EmptyTable(fr, s.at[Low(i, j)]))
    ensures LowsFull(fr, s, i, j + 1)
  {
  }

  lemma ShrunkKeepsFrame(fr: Frames, s: Shape, fr': Frames, s': Shape, p: Place, q: Place)
    requires Shrunk(fr, s, fr', s', p) && q in s'.at
    ensures q in s.at && s'.at[q] == s.at[q]
  {
  }

  lemma MidEntry(fr: Frames, limit: nat, s: Shape, i: nat, j: nat)
    requires TreeOk(fr, limit, s) && Mid(i) in s.at && j < ENTRIES
    ensures IsBranch(Entry(fr, s.at[Mid(i)], j)) <==> Low(i, j) in s.at
    ensures Low(i, j) in s.at ==> Entry(fr, s.at[Mid(i)], j).ppn == s.at[Low(i, j)]
    ensures IsTablePage(fr, s.at[Mid(i)])
  {
    assert BranchOk(At(fr, s, Mid(i), j), s, Low(i, j));
  }

  lemma RootEntry(fr: Frames, limit: nat, s: Shape, i: nat)
    requires TreeOk(fr, limit, s) && i < limit
    ensures Root in s.at && IsTablePage(fr, s.at[Root])
    ensures IsBranch(Entry(fr, s.at[Root], i)) <==> Mid(i) in s.at
    ensures Mid(i) in s.at ==> Entry(fr, s.at[Root], i).ppn == s.at[Mid(i)]
  {
    assert BranchOk(At(fr, s, Root, i), s, Mid(i));
  }

  /** No table below a root slot under `bound` is empty. */
  ghost predicate FullBelow(fr: Frames, s: Shape, bound: nat) {
    forall p :: p in s.at && p != Root && p.i < bound ==> !EmptyTable(fr, s.at[p])
  }

  /** One root slot is done: its level-0 tables were pruned, then its level-1 table was tried. */
  lemma SlotPruned(a: Frames, s: Shape, b: Frames, t: Shape, c: Frames, u: Shape, limit: nat, i: nat, cut: bool)
    requires FullBelow(a, s, i) && Shrunk(a, s, b, t, Mid(i)) && LowsFull(b, t, i, ENTRIES) && TreeOk(b, limit, t)
             && TreeOk(c, limit, u)
    requires Mid(i) in t.at
    requires cut ==> u == DropPlace(t, Mid(i)) && OneEntryChanged(b, t, c, u, Root, i, NO_PTE)
    requires !cut ==> u == t && c == b && !EmptyTable(b, t.at[Mid(i)])
    ensures FullBelow(c, u, i + 1)
  {
    forall p | p in u.at && p != Root && p.i < i + 1 ensures !EmptyTable(c, u.at[p]) {
      if p.i < i {
        var l: nat :| l < ENTRIES && Entry(a, s.at[p], l).v;
        assert At(b, t, p, l) == At(a, s, p, l);
        assert At(c, u, p, l).v;
      } else if p.Low? {
        assert Mid(i) in u.at && !cut;
      }
    }
  }

  /** Returns every empty private table, whatever earlier failures left behind.
      No translation changes, and the shared kernel half is not touched. */
  method PruneUser(m: Memory, root: Frame, ghost s: Shape) returns (ghost s': Shape)
    requires Ready(m.frames, m.free, s, USER_SLOTS) && root == s.at[Root]
    modifies m`frames, m`free
    ensures Step(old(m.frames), old(m.free), s, m.frames, m.free, s', USER_SLOTS)
    ensures Leaves(m.frames, s') == Leaves(old(m.frames), s)
    ensures NoEmptyTable(m.frames, s')
  {
    hide Step, Leaves, TreeOk, Ready, Shrunk, LowsFull, OneEntryChanged, EmptyTable, FullBelow, NoEmptyTable;
    s' := s;
    StepReflexive(m.frames, m.free, s, USER_SLOTS);
    FullBelowZero(m.frames, s);
    var i := 0;
    while i < USER_SLOTS
      invariant 0 <= i <= USER_SLOTS
      invariant Root in s'.at && root == s'.at[Root]
      invariant Step(old(m.frames), old(m.free), s, m.frames, m.free, s', USER_SLOTS)
      invariant Leaves(m.frames, s') == Leaves(old(m.frames), s)
      invariant FullBelow(m.frames, s', i)
    {
      ghost var frames, free, t := m.frames, m.free, s';
      StepReady(old(m.frames), old(m.free), s, frames, free, t, USER_SLOTS);
      RootEntry(frames, USER_SLOTS, t, i);
      if IsBranch(m.frames[root].entries[i]) {
        s' := PruneSlot(m, root, i, s');
        StepTransitive(old(m.frames), old(m.free), s, frames, free, t, m.frames, m.free, s', USER_SLOTS);
      } else {
        FullBelowNext(m.frames, USER_SLOTS, s', i);
      }
      i := i + 1;
    }
    StepReady(old(m.frames), old(m.free), s, m.frames, m.free, s', USER_SLOTS);
    FullBelowAll(m.frames, s');
  }

  lemma FullBelowZero(fr: Frames, s: Shape)
    ensures FullBelow(fr, s, 0)
  {
  }

  lemma FullBelowNext(fr: Frames, limit: nat, s: Shape, i: nat)
    requires FullBelow(fr, s, i) && Mid(i) !in s.at && TreeOk(fr, limit, s)
    ensures FullBelow(fr, s, i + 1)
  {
  }

  lemma FullBelowAll(fr: Frames, s: Shape)
    requires TreeOk(fr, USER_SLOTS, s) && FullBelow(fr, s, USER_SLOTS)
    ensures NoEmptyTable(fr, s)
  {
  }

  /** Prunes below one root slot. */
  method PruneSlot(m: Memory, root: Frame, i: nat, ghost s: Shape) returns (ghost s': Shape)
    requires Ready(m.frames, m.free, s, USER_SLOTS) && root == s.at[Root] && Mid(i) in s.at && FullBelow(m.frames, s, i)
    modifies m`frames, m`free
    ensures Step(old(m.frames), old(m.free), s, m.frames, m.free, s', USER_SLOTS)
    ensures Leaves(m.frames, s') == Leaves(old(m.frames), s)
    ensures FullBelow(m.frames, s', i + 1)
    ensures Root in s'.at && s'.at[Root] == root
  {
    hide Step, Leaves, TreeOk, Ready, Shrunk, LowsFull, OneEntryChanged, EmptyTable, FullBelow;
    StepReflexive(m.frames, m.free, s, USER_SLOTS);
    MidSlot(m.frames, s, i);
    RootEntry(m.frames, USER_SLOTS, s, i);
    s' := PruneMid(m, m.frames[root].entries[i].ppn, i, USER_SLOTS, s);
    ghost var frames, free, t := m.frames, m.free, s';
    StepReady(old(m.frames), old(m.free), s, frames, free, t, USER_SLOTS);
    ShrunkKeepsFrame(old(m.frames), s, frames, t, Mid(i), Root);
    var cut;
    cut, s' := Trim(m, root, i, Root, USER_SLOTS, s');
    StepTransitive(old(m.frames), old(m.free), s, frames, free, t, m.frames, m.free, s', USER_SLOTS);
    StepReady(old(m.frames), old(m.free), s, m.frames, m.free, s', USER_SLOTS);
    SlotPruned(old(m.frames), s, frames, t, m.frames, s', USER_SLOTS, i, cut);
  }

  lemma MidSlot(fr: Frames, s: Shape, i: nat)
    requires TreeOk(fr, USER_SLOTS, s) && Mid(i) in s.at
    ensures i < USER_SLOTS
  {
  }

  // ----- creating

  /** A root page whose private half is empty and whose upper half is the kernel's. */
  function UserRoot(kernel: seq<Pte>): Content
    requires |kernel| == ENTRIES
  {
    Table(seq(ENTRIES, (i: int) requires 0 <= i < ENTRIES => if i < USER_SLOTS then NO_PTE else kernel[i]))
  }

  function RootOnly(root: Frame): Shape {
    Shape(map[Root := root], map[root := Root])
  }

  lemma NewRootTree(fr: Frames, root: Frame, kernel: seq<Pte>)
    requires |kernel| == ENTRIES && root in fr && fr[root] == UserRoot(kernel) && root != 0
    ensures TreeOk(fr, USER_SLOTS, RootOnly(root)) && NoEmptyTable(fr, RootOnly(root))
    ensures Leaves(fr, RootOnly(root)) == map[]
    ensures forall n: nat :: USER_SLOTS <= n < ENTRIES ==> At(fr, RootOnly(root), Root, n) == kernel[n]
  {
    var s := RootOnly(root);
    forall n: nat | n < USER_SLOTS ensures BranchOk(At(fr, s, Root, n), s, Mid(n)) {
    }
  }

  /** A fresh table: nothing mapped below, the kernel shared above. */
  method CreateUser(m: Memory, kernelRoot: Frame) returns (root: Frame, ghost s: Shape)
    requires FreeOk(m.frames, m.free) && IsTablePage(m.frames, kernelRoot) && kernelRoot !in m.free
    modifies m`frames, m`free
    ensures root == 0 <==> old(m.free) == []
    ensures root == 0 ==> m.frames == old(m.frames) && m.free == old(m.free)
    ensures root != 0 ==>
              && Ready(m.frames, m.free, s, USER_SLOTS) && NoEmptyTable(m.frames, s) && Leaves(m.frames, s) == map[]
              && s == RootOnly(root) && old(m.free) == [root] + m.free
              && OnlyWithin(old(m.frames), m.frames, {root})
              && forall n: nat ::
                   USER_SLOTS <= n < ENTRIES ==> At(m.frames, s, Root, n) == Entry(m.frames, kernelRoot, n)
  {
    s := RootOnly(0);
    root := PageAlloc.Alloc(m);
    if root == 0 {
      return;
    }
    assert old(m.free)[0] == root;
    m.frames := m.frames[root := EMPTY_TABLE];
    m.frames := m.frames[root := UserRoot(m.frames[kernelRoot].entries)];
    s := RootOnly(root);
    NewRootTree(m.frames, root, m.frames[kernelRoot].entries);
  }

  // ----- destroying

  /** Exactly the frames in `done` have been returned, and nothing else was written. */
  ghost predicate Returned(fr: Frames, free: seq<Frame>, fr': Frames, free': seq<Frame>, done: set<Frame>) {
    FreeOk(fr', free') && Elements(free') == Elements(free) + done && OnlyWithin(fr, fr', done)
  }

  ghost function SlotFrames(s: Shape, bound: nat): set<Frame> {
    set p | p in s.at && p != Root && p.i < bound :: s.at[p]
  }

  ghost function LowFrames(s: Shape, i: nat, bound: nat): set<Frame> {
    set p | p in s.at && p.Low? && p.i == i && p.j < bound :: s.at[p]
  }

  lemma ReadyParts(fr: Frames, free: seq<Frame>, s: Shape)
    requires Ready(fr, free, s, USER_SLOTS)
    ensures TreeOk(fr, USER_SLOTS, s) && Inverse(s) && PlacesOk(fr, USER_SLOTS, s) && Root in s.at && FreeOk(fr, free)
    ensures forall p :: p in s.at ==> s.at[p] != 0 && s.at[p] !in free && IsTablePage(fr, s.at[p])
  {
    forall p | p in s.at ensures s.at[p] !in free {
      assert s.at[p] in s.pos.Keys;
    }
  }

  lemma StillThere(fr: Frames, free: seq<Frame>, fr': Frames, free': seq<Frame>, done: set<Frame>, f: Frame)
    requires Returned(fr, free, fr', free', done) && f in fr && f !in done
    ensures f in fr' && fr'[f] == fr[f]
  {
  }

  /** Handing one more table frame back. */
  method Give(m: Memory, f: Frame, ghost fr: Frames, ghost free: seq<Frame>, ghost done: set<Frame>)
    requires Returned(fr, free, m.frames, m.free, done) && f in fr && f != 0 && f !in done && f !in free
    modifies m`frames, m`free
    ensures Returned(fr, free, m.frames, m.free, done + {f})
  {
    assert f !in Elements(m.free);
    PageAlloc.Free(m, f);
  }

  /** Returns the level-0 tables below one level-1 table, and then that table. */
  method DestroyMid(m: Memory, table: Frame, ghost i: nat, ghost s: Shape, ghost fr: Frames, ghost free: seq<Frame>)
    requires Ready(fr, free, s, USER_SLOTS) && Mid(i) in s.at && table == s.at[Mid(i)]
    requires Returned(fr, free, m.frames, m.free, SlotFrames(s, i))
    modifies m`frames, m`free
    ensures Returned(fr, free, m.frames, m.free, SlotFrames(s, i + 1))
  {
    hide Ready, TreeOk, Returned, SlotFrames, LowFrames, Inverse, PlacesOk;
    ReadyParts(fr, free, s);
    var j := 0;
    ghost var before := SlotFrames(s, i);
    NoLowFrames(s, i);
    assert before + LowFrames(s, i, 0) == before;
    MidPending(s, i, 0);
    while j < ENTRIES
      invariant 0 <= j <= ENTRIES
      invariant Returned(fr, free, m.frames, m.free, before + LowFrames(s, i, j))
      invariant table !in before + LowFrames(s, i, j)
    {
      MidEntry(fr, USER_SLOTS, s, i, j);
      StillThere(fr, free, m.frames, m.free, before + LowFrames(s, i, j), table);
      var entry := m.frames[table].entries[j];
      LowFramesNext(s, i, j);
      if IsBranch(entry) {
        LowPending(s, i, j);
        Give(m, entry.ppn, fr, free, before + LowFrames(s, i, j));
        assert before + LowFrames(s, i, j) + {entry.ppn} == before + LowFrames(s, i, j + 1);
      }
      j := j + 1;
      MidPending(s, i, j);
    }
    Give(m, table, fr, free, before + LowFrames(s, i, ENTRIES));
    SlotDone(fr, s, i);
  }

  lemma LowFramesNext(s: Shape, i: nat, j: nat)
    ensures Low(i, j) in s.at ==> LowFrames(s, i, j + 1) == LowFrames(s, i, j) + {s.at[Low(i, j)]}
    ensures Low(i, j) !in s.at ==> LowFrames(s, i, j + 1) == LowFrames(s, i, j)
  {
  }

  lemma NoLowFrames(s: Shape, i: nat)
    ensures LowFrames(s, i, 0) == {}
  {
  }

  lemma MidPending(s: Shape, i: nat, j: nat)
    requires Inverse(s) && Mid(i) in s.at
    ensures s.at[Mid(i)] !in SlotFrames(s, i) + LowFrames(s, i, j)
  {
  }

  lemma LowPending(s: Shape, i: nat, j: nat)
    requires Inverse(s) && Low(i, j) in s.at
    ensures s.at[Low(i, j)] !in SlotFrames(s, i) + LowFrames(s, i, j)
  {
  }

  lemma SlotDone(fr: Frames, s: Shape, i: nat)
    requires PlacesOk(fr, USER_SLOTS, s)
    ensures Mid(i) in s.at ==> SlotFrames(s, i + 1) == SlotFrames(s, i) + LowFrames(s, i, ENTRIES) + {s.at[Mid(i)]}
    ensures Mid(i) !in s.at ==> SlotFrames(s, i + 1) == SlotFrames(s, i)
  {
  }

  /** Returns every private table and the root, each exactly once, and writes nothing else. */
  method DestroyUser(m: Memory, root: Frame, ghost s: Shape)
    requires Ready(m.frames, m.free, s, USER_SLOTS) && root == s.at[Root]
    modifies m`frames, m`free
    ensures Returned(old(m.frames), old(m.free), m.frames, m.free, s.pos.Keys)
  {
    hide Ready, TreeOk, Returned, SlotFrames, Inverse, PlacesOk;
    ghost var fr, free := m.frames, m.free;
    ReadyParts(fr, free, s);
    NothingReturned(fr, free, s);
    RootPending(s, 0);
    var i := 0;
    while i < USER_SLOTS
      invariant 0 <= i <= USER_SLOTS
      invariant Returned(fr, free, m.frames, m.free, SlotFrames(s, i))
      invariant root !in SlotFrames(s, i)
    {
      RootEntry(fr, USER_SLOTS, s, i);
      StillThere(fr, free, m.frames, m.free, SlotFrames(s, i), root);
      var entry := m.frames[root].entries[i];
      SlotDone(fr, s, i);
      if IsBranch(entry) {
        DestroyMid(m, entry.ppn, i, s, fr, free);
      }
      i := i + 1;
      RootPending(s, i);
    }
    Give(m, root, fr, free, SlotFrames(s, USER_SLOTS));
    AllFrames(fr, s);
  }

  lemma NothingReturned(fr: Frames, free: seq<Frame>, s: Shape)
    requires FreeOk(fr, free)
    ensures Returned(fr, free, fr, free, SlotFrames(s, 0))
  {
    assert SlotFrames(s, 0) == {};
  }

  lemma RootPending(s: Shape, i: nat)
    requires Inverse(s) && Root in s.at
    ensures s.at[Root] !in SlotFrames(s, i)
  {
  }

  lemma AllFrames(fr: Frames, s: Shape)
    requires TreeOk(fr, USER_SLOTS, s)
    ensures s.pos.Keys == SlotFrames(s, USER_SLOTS) + {s.at[Root]}
  {
    forall f | f in s.pos ensures f in SlotFrames(s, USER_SLOTS) + {s.at[Root]} {
      assert s.at[s.pos[f]] == f;
    }
  }
}
