/** Exact accounting: how many frames an address space uses follows from its
    records alone, so an operation that leaves the records as they were has
    returned every frame. */
module Neutral {
  import opened Physical
  import opened PageTable
  import opened Vm
  import opened Heap
  import opened Space

  /** Frame counts of the five groups add up. */
  lemma RegionCount(a: Mem, s: View, hf: set<Frame>, hr: set<Ptr>)
    requires Core(a, s, hf, hr)
    ensures |Region(a, s, hf)| == |a.free| + |Slabs(a.classes)| + |s.shape.pos| + |s.pages| + |hf|
  {
    hide TreeOk, HeapOk, LeavesMatch, RecordsOk, Slabs, PhysOf;
    DistinctCount(a.free);
    LedgerCount(a.frames, s.pages);
    var f, l, t, p := Elements(a.free), Slabs(a.classes), s.shape.pos.Keys, PhysOf(s.pages);
    assert |f + l| == |f| + |l|;
    assert |f + l + t| == |f + l| + |t|;
    assert |f + l + t + p| == |f + l + t| + |p|;
  }

  lemma {:induction false} LedgerCount(frames: Frames, pages: seq<UserPage>)
    requires LedgerOk(frames, pages)
    ensures |PhysOf(pages)| == |pages|
  {
    if pages == [] {
      assert PhysOf(pages) == {};
    } else {
      var n := |pages| - 1;
      LedgerCount(frames, pages[..n]);
      assert PhysOf(pages) == PhysOf(pages[..n]) + {pages[n].phys};
    }
  }

  /** The ledger determines the translations. */
  lemma LeavesDetermined(x: map<Vpn, Pte>, y: map<Vpn, Pte>, pages: seq<UserPage>)
    requires LeavesMatch(x, pages) && LeavesMatch(y, pages)
    ensures x == y
  {
    forall v | v in x ensures v in y && x[v] == y[v] {
      var p :| p in pages && Leafy(p.flags) && VpnOf(p.va) == v;
    }
    forall v | v in y ensures v in x {
      var p :| p in pages && Leafy(p.flags) && VpnOf(p.va) == v;
    }
  }

  /** With the same records, the heap holds the same objects and the same pages. */
  lemma SameRecordsSameHeap(a: Mem, s: View, b: Mem, t: View)
    requires MemOk(a) && MemOk(b) && RecordsOk(a, s, {}) && RecordsOk(b, t, {})
    requires Foreign(a, s, {}) == Foreign(b, t, {}) && t.pages == s.pages && t.areas == s.areas
    ensures LiveIn(a) == LiveIn(b) && Slabs(a.classes) == Slabs(b.classes)
  {
    hide HeapOk, FreeOk;
    var mine := PageRecs(s.pages) + AreaRecs(s.areas);
    assert LiveIn(a) == Foreign(a, s, {}) + mine;
    assert LiveIn(b) == Foreign(b, t, {}) + mine;
    SlabsAreLiveFrames(a.frames, a.classes);
    SlabsAreLiveFrames(b.frames, b.classes);
  }

  lemma SameLeavesSameTableCount(a: Mem, s: View, b: Mem, t: View)
    requires TreeOk(a.frames, USER_SLOTS, s.shape) && TreeOk(b.frames, USER_SLOTS, t.shape)
    requires NoEmptyTable(a.frames, s.shape) && NoEmptyTable(b.frames, t.shape)
    requires Leaves(a.frames, s.shape) == Leaves(b.frames, t.shape)
    ensures |s.shape.pos| == |t.shape.pos|
  {
    hide TreeOk, NoEmptyTable;
    assert MappedPages(a.frames, s.shape) == Leaves(a.frames, s.shape).Keys;
    assert MappedPages(b.frames, t.shape) == Leaves(b.frames, t.shape).Keys;
    TableCount(a.frames, USER_SLOTS, s.shape);
    TableCount(b.frames, USER_SLOTS, t.shape);
  }

  /** Heap, translations and page counts are as they were. */
  ghost predicate Restored(a: Mem, s: View, b: Mem, t: View) {
    && LiveIn(a) == LiveIn(b) && Slabs(a.classes) == Slabs(b.classes)
    && Leaves(a.frames, s.shape) == Leaves(b.frames, t.shape)
    && |s.shape.pos| == |t.shape.pos| && |a.free| == |b.free|
  }

  /** An operation that ends with the records it started with is resource-neutral:
      the same heap objects and slabs, the same translations, as many table pages,
      and exactly as many free pages as before. */
  lemma SameRecordsNeutral(a: Mem, s: View, b: Mem, t: View)
    requires Core(a, s, {}, {}) && Core(b, t, {}, {}) && Conserves(a, s, {}, {}, b, t, {}, {})
    requires NoEmptyTable(a.frames, s.shape) && NoEmptyTable(b.frames, t.shape)
    requires t.pages == s.pages && t.areas == s.areas
    ensures Restored(a, s, b, t)
  {
    hide TreeOk, MemOk, LedgerOk, LeavesMatch, FramesApart, RecordsOk, NoEmptyTable, Leaves, Region, Foreign, LiveIn,
         Slabs;
    SameRecordsSameHeap(a, s, b, t);
    LeavesDetermined(Leaves(a.frames, s.shape), Leaves(b.frames, t.shape), s.pages);
    SameLeavesSameTableCount(a, s, b, t);
    RegionCount(a, s, {}, {});
    RegionCount(b, t, {}, {});
  }
}
