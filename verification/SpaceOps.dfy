/** Allocator calls made on behalf of an address space, with the ownership
    invariant carried across each of them. */
module SpaceOps {
  import opened Physical
  import opened PageTable
  import opened Vm
  import opened VmUser
  import opened Heap
  import opened Space
  import opened SpaceSteps
  import PageAlloc

  ghost function MemOf(m: Memory): Mem
    reads m
  {
    Mem(m.frames, m.free, m.classes)
  }

  /** An operation that began at (a, s) is now at (b, t), holding `hf` and `hr`. */
  ghost predicate Track(a: Mem, s: View, b: Mem, t: View, hf: set<Frame>, hr: set<Ptr>) {
    && Core(b, t, hf, hr)
    && Conserves(a, s, {}, {}, b, t, hf, hr)
    && KeptBytes(a, s, b, t)
  }

  /** Records present at the beginning and now still own the same bytes. */
  ghost predicate KeptBytes(a: Mem, s: View, b: Mem, t: View) {
    forall p ::
             p in s.pages && p in t.pages ==>
               p.phys in a.frames && p.phys in b.frames && a.frames[p.phys] == b.frames[p.phys]
  }

  lemma TrackStart(a: Mem, s: View)
    requires Core(a, s, {}, {})
    ensures Track(a, s, a, s, {}, {})
  {
    ConservesReflexive(a, s, {}, {});
    LedgerFramesExist(a, s);
  }

  lemma LedgerFramesExist(a: Mem, s: View)
    requires Core(a, s, {}, {})
    ensures forall p :: p in s.pages ==> p.phys in a.frames
  {
  }

  lemma TrackStep(a: Mem, s: View, b: Mem, t: View, hf: set<Frame>, hr: set<Ptr>, c: Mem, u: View, hf': set<Frame>,
                  hr': set<Ptr>)
    requires Track(a, s, b, t, hf, hr) && Core(c, u, hf', hr') && Conserves(b, t, hf, hr, c, u, hf', hr')
    requires SameBytes(b, c, u.pages) && forall p :: p in u.pages && p in s.pages ==> p in t.pages
    ensures Track(a, s, c, u, hf', hr')
  {
    hide Core, Conserves;
    ConservesTransitive(a, s, {}, {}, b, t, hf, hr, c, u, hf', hr');
  }

  lemma MemParts(a: Mem, sp: View, hf: set<Frame>, hr: set<Ptr>)
    requires Core(a, sp, hf, hr)
    ensures FreeOk(a.frames, a.free) && HeapOk(a.frames, a.classes) && Elements(a.free) !! Slabs(a.classes)
    ensures forall p :: p in hr ==> p in Live(a.frames, a.classes)
    ensures forall f :: f in hf ==> f in a.frames && f !in a.free && f != 0
    ensures PageTable.Root in sp.shape.at && sp.root == sp.shape.at[PageTable.Root]
    ensures TreeOk(a.frames, USER_SLOTS, sp.shape) && Ready(a.frames, a.free, sp.shape, USER_SLOTS)
  {
    forall f | f in hf ensures f !in a.free {
      assert f !in Elements(a.free);
    }
  }

  lemma LiveParts(a: Mem)
    ensures LiveIn(a) == Live(a.frames, a.classes)
    ensures MemOk(a) <==>
              FreeOk(a.frames, a.free) && HeapOk(a.frames, a.classes) && Elements(a.free) !! Slabs(a.classes)
  {
  }

  method TakeRecord(m: Memory, size: nat, ghost a: Mem, ghost s: View, ghost t: View, ghost hf: set<Frame>,
                    ghost hr: set<Ptr>) returns (rec: Ptr)
    requires Track(a, s, MemOf(m), t, hf, hr)
    modifies m
    ensures rec == Null <==> Starved(old(m.frames), old(m.free), old(m.classes), size)
    ensures rec == Null ==> MemOf(m) == old(MemOf(m)) && (size > 2048 || m.free == [])
    ensures rec != Null ==>
              && rec !in hr && Track(a, s, MemOf(m), t, hf, hr + {rec})
              && (NoEmptyTable(old(m.frames), t.shape) ==> NoEmptyTable(m.frames, t.shape))
              && forall f :: f in hf ==> f in m.frames && f in old(m.frames) && m.frames[f] == old(m.frames[f])
    ensures |m.free| + 1 >= |old(m.free)|
  {
    hide Core, Conserves, NoEmptyTable, FreeOk, HeapOk, Live, Slabs, TreeOk, Leaves, KeptBytes, SameBytes, LiveIn,
         MemOk, Elements, OnlyWithin;
    ghost var b := MemOf(m);
    MemParts(b, t, hf, hr);
    rec := Kmalloc(m, size);
    ghost var c := MemOf(m);
    LiveParts(b);
    LiveParts(c);
    if rec != Null {
      AfterKmalloc(b, c, t, hf, hr, rec);
      TrackStep(a, s, b, t, hf, hr, c, t, hf, hr + {rec});
    }
  }

  method DropRecord(m: Memory, rec: Ptr, ghost a: Mem, ghost s: View, ghost t: View, ghost hf: set<Frame>,
                    ghost hr: set<Ptr>)
    requires Track(a, s, MemOf(m), t, hf, hr) && rec in hr
    modifies m
    ensures Track(a, s, MemOf(m), t, hf, hr - {rec})
    ensures NoEmptyTable(old(m.frames), t.shape) ==> NoEmptyTable(m.frames, t.shape)
    ensures forall f :: f in hf ==> f in m.frames && f in old(m.frames) && m.frames[f] == old(m.frames[f])
  {
    hide Core, Conserves, NoEmptyTable, FreeOk, HeapOk, Live, Slabs, TreeOk, Leaves, KeptBytes, SameBytes, LiveIn,
         MemOk, Elements, OnlyWithin;
    ghost var b := MemOf(m);
    MemParts(b, t, hf, hr);
    Kfree(m, rec);
    ghost var c := MemOf(m);
    LiveParts(b);
    LiveParts(c);
    AfterKfree(b, c, t, hf, hr, rec);
    TrackStep(a, s, b, t, hf, hr, c, t, hf, hr - {rec});
  }

  method TakeFrame(m: Memory, ghost a: Mem, ghost s: View, ghost t: View, ghost hf: set<Frame>, ghost hr: set<Ptr>)
    returns (f: Frame)
    requires Track(a, s, MemOf(m), t, hf, hr)
    modifies m`free
    ensures f == 0 ==> old(m.free) == [] && MemOf(m) == old(MemOf(m))
    ensures f != 0 ==> f !in hf && Track(a, s, MemOf(m), t, hf + {f}, hr) && old(m.free) == [f] + m.free
  {
    hide Core, Conserves, NoEmptyTable, HeapOk, Live, Slabs, TreeOk, Leaves, KeptBytes, SameBytes, LiveIn, MemOk,
         Elements, OnlyWithin;
    ghost var b := MemOf(m);
    MemParts(b, t, hf, hr);
    f := PageAlloc.Alloc(m);
    if f != 0 {
      AfterAlloc(b, MemOf(m), t, hf, hr, f);
      TrackStep(a, s, b, t, hf, hr, MemOf(m), t, hf + {f}, hr);
      assert b.free[0] == f;
    }
  }

  method DropFrame(m: Memory, f: Frame, ghost a: Mem, ghost s: View, ghost t: View, ghost hf: set<Frame>,
                   ghost hr: set<Ptr>)
    requires Track(a, s, MemOf(m), t, hf, hr) && f in hf
    modifies m`free, m`frames
    ensures Track(a, s, MemOf(m), t, hf - {f}, hr)
    ensures NoEmptyTable(old(m.frames), t.shape) ==> NoEmptyTable(m.frames, t.shape)
  {
    hide Core, Conserves, NoEmptyTable, HeapOk, Live, Slabs, TreeOk, Leaves, KeptBytes, SameBytes, LiveIn, MemOk,
         Elements, OnlyWithin, FreeOk;
    ghost var b := MemOf(m);
    MemParts(b, t, hf, hr);
    PageAlloc.Free(m, f);
    AfterFree(b, MemOf(m), t, hf, hr, f);
    TrackStep(a, s, b, t, hf, hr, MemOf(m), t, hf - {f}, hr);
  }

  method FillFrame(m: Memory, f: Frame, bytes: seq<Byte>, ghost a: Mem, ghost s: View, ghost t: View,
                   ghost hf: set<Frame>, ghost hr: set<Ptr>)
    requires Track(a, s, MemOf(m), t, hf, hr) && f in hf && |bytes| == PAGE_SIZE
    modifies m`frames
    ensures Track(a, s, MemOf(m), t, hf, hr)
    ensures m.frames == old(m.frames)[f := Data(bytes)]
    ensures NoEmptyTable(old(m.frames), t.shape) ==> NoEmptyTable(m.frames, t.shape)
    ensures IsDataPage(m.frames, f)
  {
    hide Core, Conserves, NoEmptyTable, HeapOk, Live, Slabs, TreeOk, Leaves, KeptBytes, SameBytes, LiveIn, MemOk,
         Elements, OnlyWithin, FreeOk;
    ghost var b := MemOf(m);
    MemParts(b, t, hf, hr);
    m.frames := m.frames[f := Data(bytes)];
    AfterWrite(b, MemOf(m), t, hf, hr, f, Data(bytes));
    TrackStep(a, s, b, t, hf, hr, MemOf(m), t, hf, hr);
  }

  /** Reclaims empty branches of the table. */
  method Prune(m: Memory, root: Frame, ghost a: Mem, ghost s: View, ghost t: View, ghost hf: set<Frame>,
               ghost hr: set<Ptr>) returns (ghost s': Shape)
    requires Track(a, s, MemOf(m), t, hf, hr) && root == t.root
    modifies m`frames, m`free
    ensures Track(a, s, MemOf(m), t.(shape := s'), hf, hr) && NoEmptyTable(m.frames, s')
  {
    hide Core, Conserves, NoEmptyTable, HeapOk, Live, Slabs, TreeOk, Leaves, KeptBytes, SameBytes, LiveIn, MemOk,
         Elements, OnlyWithin, FreeOk, Ready, Step;
    ghost var b := MemOf(m);
    MemParts(b, t, hf, hr);
    s' := PruneUser(m, root, t.shape);
    AfterQuietTableStep(b, MemOf(m), t, s', hf, hr);
    TrackStep(a, s, b, t, hf, hr, MemOf(m), t.(shape := s'), hf, hr);
  }

  lemma TrackCore(a: Mem, s: View, b: Mem, t: View, hf: set<Frame>, hr: set<Ptr>)
    requires Track(a, s, b, t, hf, hr)
    ensures Core(b, t, hf, hr) && Conserves(a, s, {}, {}, b, t, hf, hr) && KeptBytes(a, s, b, t)
  {
  }
}
