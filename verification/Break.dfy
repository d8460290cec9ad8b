/** The program break: growing and shrinking the heap area. */
module Break {
  import opened Physical
  import opened PageTable
  import opened Vm
  import opened Heap
  import opened Space
  import opened SpaceSteps
  import opened SpaceOps
  import opened UserView
  import opened Neutral
  import opened Areas
  import opened AddressSpaces

  const HEAP_FLAGS := Flags(true, true, false, true, false, false)

  /** A nested operation leaves a record held outside it alone. */
  lemma Resume(a: Mem, s: View, b: Mem, t: View, c: Mem, u: View, rec: Ptr)
    requires Track(a, s, b, t, {}, {rec}) && Track(b, t, c, u, {}, {})
    requires forall p :: p in s.pages && p in u.pages ==> p in t.pages
    ensures Track(a, s, c, u, {}, {rec})
  {
    hide TreeOk, Leaves, MemOk, LedgerOk, LeavesMatch, PageRecs, PhysOf, Slabs, AreaRecs, LiveIn, FramesApart, Region;
    assert rec in Foreign(b, t, {}) && rec in Foreign(c, u, {});
    assert Foreign(b, t, {rec}) == Foreign(b, t, {}) - {rec} && Foreign(c, u, {rec}) == Foreign(c, u, {}) - {rec};
  }

  /** While a record is held, the address space itself is complete. */
  lemma Lay(b: Mem, t: View, rec: Ptr)
    requires Core(b, t, {}, {rec})
    ensures Core(b, t, {}, {})
  {
    hide TreeOk, Leaves, MemOk, LedgerOk, LeavesMatch, PageRecs, PhysOf, Slabs, AreaRecs, LiveIn, FramesApart;
  }

  /** Only the heap area may differ. */
  ghost predicate SameButHeap(before: seq<Area>, areas: seq<Area>) {
    forall a: Area :: a.kind != HEAP ==> (a in before <==> a in areas)
  }

  lemma AreasOkResized(areas: seq<Area>, n: nat, area: Area)
    requires AreasOk(areas) && n < |areas| && RangeOk(area.start, area.end)
    requires forall i :: 0 <= i < |areas| && i != n ==> Apart(areas[i], area.start, area.end)
    ensures AreasOk(areas[n := area])
  {
    var changed := areas[n := area];
    forall a | a in changed ensures RangeOk(a.start, a.end) {
      var i :| 0 <= i < |changed| && changed[i] == a;
      if i != n { assert a in areas; }
    }
    forall i, j | 0 <= i < j < |changed| ensures Apart(changed[i], changed[j].start, changed[j].end) {
      if i == n { assert Apart(areas[j], area.start, area.end); }
    }
  }

  lemma OthersApart(areas: seq<Area>, n: nat, i: nat)
    requires AreasOk(areas) && n < |areas| && i < |areas| && i != n
    ensures Apart(areas[i], areas[n].start, areas[n].end)
  {
    if n < i { assert Apart(areas[n], areas[i].start, areas[i].end); }
  }

  lemma BoundsDiffer(areas: seq<Area>)
    requires AreasOk(areas)
    ensures forall i, j :: 0 <= i < j < |areas| ==> areas[i].start != areas[j].start
  {
    forall i, j | 0 <= i < j < |areas| ensures areas[i].start != areas[j].start {
      assert areas[i] in areas && areas[j] in areas;
    }
  }

  /** The heap area found, if any. */
  method FindHeap(sp: AddressSpace) returns (n: nat)
    requires AreasOk(sp.areas) && BrkOk(sp.areas, sp.brkBase, sp.brkEnd)
    ensures n <= |sp.areas|
    ensures n < |sp.areas| <==> RoundUp(sp.brkEnd) != sp.brkBase
    ensures n < |sp.areas| ==>
              sp.areas[n].kind == HEAP && sp.areas[n].start == sp.brkBase && sp.areas[n].end == RoundUp(sp.brkEnd)
    ensures forall i :: 0 <= i < |sp.areas| && sp.areas[i].kind == HEAP ==> i == n
  {
    n := |sp.areas|;
    BoundsDiffer(sp.areas);
    var i := 0;
    while i < |sp.areas|
      invariant 0 <= i <= |sp.areas|
      invariant n == |sp.areas| || (n < i && sp.areas[n].kind == HEAP)
      invariant forall j :: 0 <= j < i && sp.areas[j].kind == HEAP ==> j == n
    {
      if sp.areas[i].kind == HEAP {
        assert sp.areas[i] in sp.areas;
        n := i;
      }
      i := i + 1;
    }
    if n < |sp.areas| {
      assert sp.areas[n] in sp.areas && RangeOk(sp.areas[n].start, sp.areas[n].end);
    }
  }

  /** The heap ends at `end` now: as a new area if there was none, else by moving its end. */
  ghost predicate HeapIs(before: seq<Area>, areas: seq<Area>, brkBase: nat, end: nat) {
    && SameButHeap(before, areas) && AreasOk(areas)
    && (forall a :: a in areas && a.kind == HEAP ==> a.start == brkBase && a.end == end)
    && (end != brkBase ==> exists a :: a in areas && a.kind == HEAP)
  }

  lemma HeapMoved(areas: seq<Area>, n: nat, area: Area, brkBase: nat, brkEnd: nat)
    requires AreasOk(areas) && BrkOk(areas, brkBase, brkEnd) && n < |areas| && areas[n].kind == HEAP
    requires forall i :: 0 <= i < |areas| && areas[i].kind == HEAP ==> i == n
    requires area == areas[n].(end := area.end) && RangeOk(area.start, area.end)
    requires area.end > areas[n].end ==> VacantIn(areas, areas[n].end, area.end)
    ensures HeapIs(areas, areas[n := area], brkBase, area.end)
    ensures forall x: nat :: InArea(areas, x) && !(area.end <= x < areas[n].end) ==> InArea(areas[n := area], x)
  {
    var changed := areas[n := area];
    assert areas[n] in areas;
    forall i | 0 <= i < |areas| && i != n ensures Apart(areas[i], area.start, area.end) {
      OthersApart(areas, n, i);
      assert areas[i] in areas;
    }
    AreasOkResized(areas, n, area);
    forall a | a in areas && a != areas[n] ensures a in changed {
      var i :| 0 <= i < |areas| && areas[i] == a;
      assert changed[i] == a;
    }
    assert changed[n] in changed;
    forall a | a in changed && a != area ensures a in areas && a.kind != HEAP {
      var i :| 0 <= i < |changed| && changed[i] == a;
    }
  }

  lemma HeapAdded(areas: seq<Area>, area: Area, brkBase: nat, brkEnd: nat)
    requires AreasOk(areas) && BrkOk(areas, brkBase, brkEnd) && RoundUp(brkEnd) == brkBase
    requires area.kind == HEAP && area.start == brkBase && RangeOk(area.start, area.end)
             && VacantIn(areas, area.start, area.end)
    requires forall a :: a in areas ==> a.kind != HEAP
    ensures HeapIs(areas, areas + [area], brkBase, area.end)
    ensures forall x: nat :: InArea(areas, x) ==> InArea(areas + [area], x)
  {
    AreasOkPlus(areas, area);
    assert forall a :: a in areas + [area] <==> a in areas || a == area;
  }

  lemma HeapDropped(areas: seq<Area>, n: nat, brkBase: nat)
    requires AreasOk(areas) && n < |areas| && areas[n].kind == HEAP && areas[n].start == brkBase
    requires forall i :: 0 <= i < |areas| && areas[i].kind == HEAP ==> i == n
    ensures HeapIs(areas, WithoutArea(areas, n), brkBase, brkBase)
    ensures forall x: nat ::
              InArea(areas, x) && !(areas[n].start <= x < areas[n].end) ==> InArea(WithoutArea(areas, n), x)
  {
    var rest := WithoutArea(areas, n);
    WithoutAreaOk(areas, n);
    forall a | a in areas && a != areas[n] ensures a in rest {
      var i :| 0 <= i < |areas| && areas[i] == a;
      assert rest[if i < n then i else i - 1] == a;
    }
    forall a | a in rest ensures a in areas && a.kind != HEAP {
      var i :| 0 <= i < |rest| && rest[i] == a;
      assert a == areas[if i < n then i else i + 1];
    }
  }

  lemma WithoutAreaOk(areas: seq<Area>, n: nat)
    requires AreasOk(areas) && n < |areas|
    ensures AreasOk(WithoutArea(areas, n))
  {
    var rest := WithoutArea(areas, n);
    forall a | a in rest ensures a in areas {
    }
    forall i, j | 0 <= i < j < |rest| ensures Apart(rest[i], rest[j].start, rest[j].end) {
      assert rest[i] == areas[if i < n then i else i + 1] && rest[j] == areas[if j < n then j else j + 1];
    }
  }

  /** Adds the pages of [low, end) at the top of the heap, or none of them. */
  method AddPages(m: Memory, sp: AddressSpace, low: nat, end: nat) returns (ok: bool)
    requires Core(MemOf(m), sp.V(), {}, {}) && NoEmptyTable(m.frames, sp.shape) && RangeOk(low, end)
    requires forall p :: p in sp.pages ==> !(low <= p.va < end)
    modifies sp`pages, sp`shape, m
    ensures Track(old(MemOf(m)), old(sp.V()), MemOf(m), sp.V(), {}, {}) && NoEmptyTable(m.frames, sp.shape)
    ensures !ok ==> sp.pages == old(sp.pages)
    ensures ok ==> Mapping(m.frames, old(sp.pages), sp.pages, low, end, HEAP_FLAGS, Zeroes, 0)
    ensures |old(m.free)| >= 4 * ((end - low) / PAGE_SIZE) ==> ok
  {
    hide Core, Conserves, NoEmptyTable, Track, Populated;
    ghost var a, s := MemOf(m), sp.V();
    ok := sp.Populate(m, low, end, HEAP_FLAGS, Zeroes, 0);
    ghost var c, u := MemOf(m), sp.V();
    TrackCore(a, s, c, u, {}, {});
    if !ok {
      PopulatedInside(c.frames, s.pages, u.pages, low, end, HEAP_FLAGS, Zeroes, 0);
      OutsideUndo(s.pages, u.pages, low, end);
      sp.RemovePages(m, low, end);
      TrackCompose(a, s, c, u, MemOf(m), sp.V());
    }
  }

  /** What growing the heap to `end` achieves. */
  ghost predicate Grown(frames: Frames, before: View, after: View, low: nat, end: nat) {
    && HeapIs(before.areas, after.areas, before.brkBase, end) && Covered(after.areas, after.pages)
    && Mapping(frames, before.pages, after.pages, low, end, HEAP_FLAGS, Zeroes, 0)
  }

  lemma PagesCovered(frames: Frames, before: View, after: View, low: nat, end: nat, heap: Area)
    requires Mapping(frames, before.pages, after.pages, low, end, HEAP_FLAGS, Zeroes, 0) && RangeOk(low, end)
    requires Covered(before.areas, before.pages) && heap in after.areas && heap.start <= low && heap.end == end
    requires forall x: nat :: InArea(before.areas, x) ==> InArea(after.areas, x)
    ensures Covered(after.areas, after.pages)
  {
    hide InArea;
    PopulatedInside(frames, before.pages, after.pages, low, end, HEAP_FLAGS, Zeroes, 0);
    forall p | p in after.pages ensures InArea(after.areas, p.va) {
      var i :| 0 <= i < |after.pages| && after.pages[i] == p;
      if i < |before.pages| {
        assert p in before.pages;
      } else {
        InThisArea(after.areas, heap, p.va);
      }
    }
  }

  lemma InThisArea(areas: seq<Area>, a: Area, x: nat)
    requires a in areas && a.start <= x < a.end
    ensures InArea(areas, x)
  {
  }

  /** Grows a heap that has no area yet. */
  method GrowNew(m: Memory, sp: AddressSpace, end: nat) returns (ok: bool)
    requires Valid(MemOf(m), sp.V()) && RoundUp(sp.brkEnd) == sp.brkBase && RangeOk(sp.brkBase, end)
    requires VacantIn(sp.areas, sp.brkBase, end) && forall a :: a in sp.areas ==> a.kind != HEAP
    modifies sp`pages, sp`shape, sp`areas, m
    ensures Track(old(MemOf(m)), old(sp.V()), MemOf(m), sp.V(), {}, {}) && NoEmptyTable(m.frames, sp.shape)
    ensures !ok ==> sp.pages == old(sp.pages) && sp.areas == old(sp.areas)
    ensures ok ==> Grown(m.frames, old(sp.V()), sp.V(), sp.brkBase, end)
    ensures |old(m.free)| >= 4 * ((end - sp.brkBase) / PAGE_SIZE) + 1 ==> ok
  {
    hide Core, Conserves, NoEmptyTable, Track, Populated, Covered, AreasOk, BrkOk, Mapping, HeapIs, InArea;
    ghost var a, s := MemOf(m), sp.V();
    TrackStart(a, s);
    var rec := TakeRecord(m, VM_AREA_SIZE, a, s, s, {}, {});
    if rec == Null {
      return false;
    }
    assert {} + {rec} == {rec} && {rec} - {rec} == {};
    ghost var b := MemOf(m);
    TrackCore(a, s, b, s, {}, {rec});
    Lay(b, s, rec);
    VacantHasNoPages(s.areas, s.pages, sp.brkBase, end);
    ok := AddPages(m, sp, sp.brkBase, end);
    Resume(a, s, b, s, MemOf(m), sp.V(), rec);
    if !ok {
      DropRecord(m, rec, a, s, sp.V(), {}, {rec});
      return;
    }
    var heap := Area(rec, sp.brkBase, end, HEAP_FLAGS, HEAP);
    PublishArea(a, s, MemOf(m), sp.V(), {}, {rec}, heap);
    HeapAdded(s.areas, heap, sp.brkBase, sp.brkEnd);
    sp.areas := sp.areas + [heap];
    PagesCovered(m.frames, s, sp.V(), sp.brkBase, end, heap);
  }

  /** Grows the existing heap area `n`. */
  method GrowMore(m: Memory, sp: AddressSpace, n: nat, low: nat, end: nat) returns (ok: bool)
    requires Valid(MemOf(m), sp.V()) && low == RoundUp(sp.brkEnd) && RangeOk(low, end) && VacantIn(sp.areas, low, end)
    requires n < |sp.areas| && sp.areas[n].kind == HEAP && sp.areas[n].start == sp.brkBase && sp.areas[n].end == low
    requires forall i :: 0 <= i < |sp.areas| && sp.areas[i].kind == HEAP ==> i == n
    modifies sp`pages, sp`shape, sp`areas, m
    ensures Track(old(MemOf(m)), old(sp.V()), MemOf(m), sp.V(), {}, {}) && NoEmptyTable(m.frames, sp.shape)
    ensures !ok ==> sp.pages == old(sp.pages) && sp.areas == old(sp.areas)
    ensures ok ==> Grown(m.frames, old(sp.V()), sp.V(), low, end)
    ensures |old(m.free)| >= 4 * ((end - low) / PAGE_SIZE) ==> ok
  {
    hide Core, Conserves, NoEmptyTable, Track, Populated, Covered, AreasOk, BrkOk, Mapping, HeapIs, InArea;
    ghost var a, s := MemOf(m), sp.V();
    VacantHasNoPages(s.areas, s.pages, low, end);
    ok := AddPages(m, sp, low, end);
    if ok {
      var heap := sp.areas[n].(end := end);
      ghost var u := sp.V();
      HeapRange(s.areas, n, end);
      HeapMoved(s.areas, n, heap, sp.brkBase, sp.brkEnd);
      ChangeArea(a, s, MemOf(m), u, n, heap);
      sp.areas := sp.areas[n := heap];
      assert sp.areas[n] in sp.areas;
      PagesCovered(m.frames, s, sp.V(), low, end, heap);
    }
  }

  lemma HeapRange(areas: seq<Area>, n: nat, end: nat)
    requires AreasOk(areas) && n < |areas| && RangeOk(areas[n].end, end)
    ensures RangeOk(areas[n].start, end) && areas[n].start < areas[n].end
  {
    assert areas[n] in areas;
  }

  lemma ChangeArea(a: Mem, s: View, b: Mem, t: View, n: nat, area: Area)
    requires Track(a, s, b, t, {}, {}) && n < |t.areas| && area.rec == t.areas[n].rec
    ensures Track(a, s, b, t.(areas := t.areas[n := area]), {}, {})
  {
    hide Core, Conserves, KeptBytes;
    AreaChanged(b, t, {}, {}, n, area);
    var u := t.(areas := t.areas[n := area]);
    SameKept(a, s, b, t, u);
    ConservesTransitive(a, s, {}, {}, b, t, {}, {}, b, u, {}, {});
  }

  /** What shrinking the heap to `end` achieves. */
  ghost predicate Shrunken(before: View, after: View, end: nat, high: nat) {
    && HeapIs(before.areas, after.areas, before.brkBase, end) && Covered(after.areas, after.pages)
    && after.pages == Outside(before.pages, end, high)
  }

  lemma RestCovered(before: View, after: View, end: nat, high: nat)
    requires Covered(before.areas, before.pages) && after.pages == Outside(before.pages, end, high)
    requires forall x: nat :: InArea(before.areas, x) && !(end <= x < high) ==> InArea(after.areas, x)
    ensures Covered(after.areas, after.pages)
  {
    hide InArea;
    forall p | p in after.pages ensures InArea(after.areas, p.va) {
      assert p in before.pages && !(end <= p.va < high);
    }
  }

  /** Gives up the top of heap area `n`, and the area itself when nothing is left. */
  method Shrink(m: Memory, sp: AddressSpace, n: nat, end: nat, high: nat)
    requires Valid(MemOf(m), sp.V()) && sp.brkBase <= end < high == RoundUp(sp.brkEnd) && end % PAGE_SIZE == 0
    requires n < |sp.areas| && sp.areas[n].kind == HEAP && sp.areas[n].start == sp.brkBase && sp.areas[n].end == high
    requires forall i :: 0 <= i < |sp.areas| && sp.areas[i].kind == HEAP ==> i == n
    modifies sp`pages, sp`shape, sp`areas, m
    ensures Track(old(MemOf(m)), old(sp.V()), MemOf(m), sp.V(), {}, {}) && NoEmptyTable(m.frames, sp.shape)
    ensures Shrunken(old(sp.V()), sp.V(), end, high)
  {
    hide Core, Conserves, NoEmptyTable, Track, Covered, AreasOk, BrkOk, HeapIs, InArea, Outside;
    ghost var a, s := MemOf(m), sp.V();
    sp.RemovePages(m, end, high);
    if end == sp.areas[n].start {
      HeapDropped(s.areas, n, sp.brkBase);
      sp.DropArea(m, n, a, s);
    } else {
      var heap := sp.areas[n].(end := end);
      ShrunkRange(s.areas, n, end);
      HeapMoved(s.areas, n, heap, sp.brkBase, sp.brkEnd);
      ChangeArea(a, s, MemOf(m), sp.V(), n, heap);
      sp.areas := sp.areas[n := heap];
    }
    RestCovered(s, sp.V(), end, high);
  }

  lemma ShrunkRange(areas: seq<Area>, n: nat, end: nat)
    requires AreasOk(areas) && n < |areas| && areas[n].start < end < areas[n].end && end % PAGE_SIZE == 0
    ensures RangeOk(areas[n].start, end)
  {
    assert areas[n] in areas;
  }

  /** The outcome a successful request for break `requested` has. */
  ghost predicate BrkDone(frames: Frames, before: View, after: View, requested: nat) {
    var low, end := RoundUp(before.brkEnd), RoundUp(requested);
    && after.brkEnd == requested && after.brkBase == before.brkBase
    && (end > low ==> Grown(frames, before, after, low, end))
    && (end < low ==> Shrunken(before, after, end, low))
    && (end == low ==> after.pages == before.pages && after.areas == before.areas)
  }

  /** Queries, grows or shrinks the break.  A failed request changes nothing. */
  method Brk(m: Memory, sp: AddressSpace, requested: nat) returns (r: Result)
    requires Valid(MemOf(m), sp.V())
    modifies sp`pages, sp`shape, sp`areas, sp`brkEnd, m
    ensures Valid(MemOf(m), sp.V()) && Track(old(MemOf(m)), old(sp.V()), MemOf(m), sp.V(), {}, {})
    ensures requested == 0 ==> r == Ok(old(sp.brkEnd)) && sp.V() == old(sp.V()) && MemOf(m) == old(MemOf(m))
    ensures requested != 0 && r.Ok? ==> r.value == requested && BrkDone(m.frames, old(sp.V()), sp.V(), requested)
    ensures requested != 0 && r.Ok? ==>
              forall x: nat :: RoundUp(old(sp.brkEnd)) <= x < RoundUp(requested) ==>
                ByteAt(MemOf(m), sp.V(), x) == 0 && Accessible(MemOf(m), sp.V(), x, true)
    ensures requested != 0 && r.Ok? ==>
              forall x: nat :: RoundUp(requested) <= x < RoundUp(old(sp.brkEnd)) ==>
                && ByteAt(MemOf(m), sp.V(), x) == 0
                && !Accessible(MemOf(m), sp.V(), x, false) && !Accessible(MemOf(m), sp.V(), x, true)
    ensures var low, end := RoundUp(old(sp.brkEnd)), RoundUp(requested);
            forall x: nat :: x < USER_END && (r.Err? || requested == 0 || !(low <= x < end || end <= x < low)) ==>
              SeenSame(old(MemOf(m)), old(sp.V()), MemOf(m), sp.V(), x)
    ensures r.Err? ==>
              r == Err(ENOMEM) && sp.V() == old(sp.V()).(shape := sp.shape)
              && Restored(old(MemOf(m)), old(sp.V()), MemOf(m), sp.V())
    ensures var low, end := RoundUp(old(sp.brkEnd)), RoundUp(requested);
            r.Err? ==>
              || requested < sp.brkBase || requested > sp.brkBase + MAX_MAPPING
              || (end > low && !VacantIn(old(sp.areas), low, end))
              || (end > low && |old(m.free)| < 4 * ((end - low) / PAGE_SIZE) + 1)
  {
    hide Core, Conserves, NoEmptyTable, Track, Covered, AreasOk, BrkOk, HeapIs, InArea, Outside, Restored, Mapping,
         ByteAt,
         Accessible, SeenSame;
    ghost var a, s := MemOf(m), sp.V();
    TrackStart(a, s);
    RestoredFrom(a, s, a, s);
    NothingChanged(a, s, a, s);
    if requested == 0 {
      return Ok(sp.brkEnd);
    }
    BrkBounds(s);
    if requested < sp.brkBase || requested > sp.brkBase + MAX_MAPPING {
      return Err(ENOMEM);
    }
    var low, end := RoundUp(sp.brkEnd), RoundUp(requested);
    RoundUpBounds(sp.brkEnd, requested);
    var n := FindHeap(sp);
    if end > low {
      var free := sp.Vacant(low, end);
      if !free {
        return Err(ENOMEM);
      }
      var ok;
      if n == |sp.areas| {
        NoHeap(s.areas);
        ok := GrowNew(m, sp, end);
      } else {
        ok := GrowMore(m, sp, n, low, end);
      }
      if !ok {
        TrackCore(a, s, MemOf(m), sp.V(), {}, {});
        RestoredFrom(a, s, MemOf(m), sp.V());
        NothingChanged(a, s, MemOf(m), sp.V());
        return Err(ENOMEM);
      }
    } else if end < low {
      Shrink(m, sp, n, end, low);
    }
    BreakMoved(a, s, MemOf(m), sp.V(), requested);
    sp.brkEnd := requested;
    BreakSeen(a, s, MemOf(m), sp.V(), requested);
    return Ok(requested);
  }

  /** New heap is zero and writable, given up heap is gone, and the rest is as before. */
  lemma BreakSeen(a: Mem, s: View, b: Mem, t: View, requested: nat)
    requires Core(a, s, {}, {}) && Track(a, s, b, t, {}, {}) && BrkDone(b.frames, s, t, requested)
    requires RoundUp(s.brkEnd) <= USER_END
    ensures forall x: nat ::
              RoundUp(s.brkEnd) <= x < RoundUp(requested) ==> ByteAt(b, t, x) == 0 && Accessible(b, t, x, true)
    ensures forall x: nat :: RoundUp(requested) <= x < RoundUp(s.brkEnd) ==>
                               ByteAt(b, t, x) == 0 && !Accessible(b, t, x, false) && !Accessible(b, t, x, true)
    ensures var low, end := RoundUp(s.brkEnd), RoundUp(requested);
            forall x: nat :: x < USER_END && !(low <= x < end || end <= x < low) ==> SeenSame(a, s, b, t, x)
  {
    hide Core, Conserves, Track, Covered, HeapIs, Outside, Mapping, ByteAt, Accessible, SeenSame, RoundUp;
    var low, end := RoundUp(s.brkEnd), RoundUp(requested);
    if end > low {
      MappingSeen(a, s, b, t, low, end, HEAP_FLAGS, Zeroes, 0);
      forall x: nat | low <= x < end ensures ByteAt(b, t, x) == 0 && Accessible(b, t, x, true) {
        assert ShownAt(b, t, low, x, HEAP_FLAGS, Zeroes, 0);
      }
    } else if end < low {
      RemovalSeen(a, s, b, t, end, low);
    } else {
      NothingChanged(a, s, b, t);
    }
  }

  lemma BrkBounds(s: View)
    requires BrkOk(s.areas, s.brkBase, s.brkEnd)
    ensures s.brkBase == HEAP_BASE && s.brkBase <= s.brkEnd <= s.brkBase + MAX_MAPPING
  {
  }

  lemma RoundUpBounds(x: nat, y: nat)
    requires HEAP_BASE <= x <= HEAP_BASE + MAX_MAPPING && HEAP_BASE <= y <= HEAP_BASE + MAX_MAPPING
    ensures HEAP_BASE <= RoundUp(x) <= HEAP_BASE + MAX_MAPPING && HEAP_BASE <= RoundUp(y) <= HEAP_BASE + MAX_MAPPING
  {
  }

  lemma NoHeap(areas: seq<Area>)
    requires forall i :: 0 <= i < |areas| ==> areas[i].kind != HEAP
    ensures forall a :: a in areas ==> a.kind != HEAP
  {
  }

  /** Recording the new break completes the operation. */
  lemma BreakMoved(a: Mem, s: View, b: Mem, t: View, requested: nat)
    requires Valid(a, s) && Track(a, s, b, t, {}, {}) && NoEmptyTable(b.frames, t.shape) && t.brkBase == s.brkBase
             && t.brkEnd == s.brkEnd
    requires s.brkBase <= requested <= s.brkBase + MAX_MAPPING
    requires RoundUp(requested) == RoundUp(s.brkEnd) ==> t.areas == s.areas && t.pages == s.pages
    requires RoundUp(requested) != RoundUp(s.brkEnd) ==>
               HeapIs(s.areas, t.areas, s.brkBase, RoundUp(requested)) && Covered(t.areas, t.pages)
    ensures Valid(b, t.(brkEnd := requested)) && Track(a, s, b, t.(brkEnd := requested), {}, {})
  {
    hide Covered, AreasOk, TreeOk, Leaves, MemOk, LedgerOk, LeavesMatch, NoEmptyTable, KeptBytes;
    SameKept(a, s, b, t, t.(brkEnd := requested));
  }
}
