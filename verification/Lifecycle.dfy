/** Creating, destroying and cloning address spaces, and why address spaces
    that share one memory do not disturb each other. */
module Lifecycle {
  import opened Physical
  import opened PageTable
  import opened Vm
  import opened VmUser
  import opened Heap
  import opened Space
  import opened SpaceSteps
  import opened SpaceOps
  import opened Neutral
  import opened Areas
  import opened AddressSpaces
  import opened UserView
  import PageAlloc

  // ----- isolation

  ghost function Owned(s: View): set<Frame> {
    s.shape.pos.Keys + PhysOf(s.pages)
  }

  ghost function Records(s: View): set<Ptr> {
    PageRecs(s.pages) + AreaRecs(s.areas)
  }

  /** Two address spaces own nothing in common. */
  ghost predicate Separate(s: View, t: View) {
    Owned(s) !! Owned(t) && Records(s) !! Records(t)
  }

  /** Whatever an operation on one address space does, every other address space
      keeps its invariant, its translations and the bytes of all its pages. */
  lemma Isolation(a: Mem, s: View, b: Mem, s': View, t: View)
    requires Core(a, s, {}, {}) && Core(a, t, {}, {}) && Separate(s, t)
    requires Core(b, s', {}, {}) && Conserves(a, s, {}, {}, b, s', {}, {})
    ensures Core(b, t, {}, {}) && Separate(s', t)
    ensures Leaves(b.frames, t.shape) == Leaves(a.frames, t.shape) && SameBytes(a, b, t.pages)
    ensures NoEmptyTable(a.frames, t.shape) ==> NoEmptyTable(b.frames, t.shape)
  {
    hide TreeOk, Leaves, LedgerOk, LeavesMatch, NoEmptyTable, KeptBytes, PhysOf, PageRecs, AreaRecs, Slabs, LiveIn,
         HeapOk, FreeOk;
    OwnFramesExist(a, t, {}, {});
    assert Owned(t) !! Region(a, s, {});
    assert Records(t) <= Foreign(a, s, {});
    CoreKept(a, b, t, {}, {}, {}, {});
  }

  /** The same for the full invariant. */
  lemma ValidIsolation(a: Mem, s: View, b: Mem, s': View, t: View)
    requires Core(a, s, {}, {}) && Valid(a, t) && Separate(s, t)
    requires Core(b, s', {}, {}) && Conserves(a, s, {}, {}, b, s', {}, {})
    ensures Valid(b, t) && Separate(s', t) && SameBytes(a, b, t.pages)
  {
    hide Core, Conserves, Separate, Leaves, NoEmptyTable, AreasOk, Covered, BrkOk, SameBytes;
    Isolation(a, s, b, s', t);
  }

  /** A new address space `d` got all it has from the free pages of `a`. */
  ghost predicate Founded(a: Mem, b: Mem, d: View) {
    && Core(b, d, {}, {})
    && Region(b, d, {}) == Elements(a.free) + Slabs(a.classes) && Foreign(b, d, {}) == LiveIn(a)
    && OnlyWithin(a.frames, b.frames, Elements(a.free) + Slabs(a.classes))
  }

  // ----- creating

  /** An empty address space on a fresh root page. */
  lemma EmptySpace(a: Mem, b: Mem, root: Frame, v: View)
    requires MemOk(a) && a.free == [root] + b.free && b.classes == a.classes && OnlyWithin(a.frames, b.frames, {root})
    requires Vm.Ready(b.frames, b.free, RootOnly(root), USER_SLOTS) && Leaves(b.frames, RootOnly(root)) == map[]
    requires v.root == root && v.pages == [] && v.areas == [] && v.shape == RootOnly(root)
    ensures Core(b, v, {}, {}) && LiveIn(b) == LiveIn(a)
    ensures Region(b, v, {}) == Elements(a.free) + Slabs(a.classes) && Foreign(b, v, {}) == LiveIn(a)
    ensures Owned(v) <= Elements(a.free) && Records(v) == {}
  {
    hide TreeOk, Leaves, HeapOk, Live;
    Popped(a.frames, a.free, root, b.free);
    SlabsExist(a);
    assert root in Elements(a.free);
    HeapFrame(a.frames, b.frames, a.classes);
  }

  /** Sets up an empty address space; on failure nothing is allocated. */
  method Init(m: Memory, sp: AddressSpace, kernelRoot: Frame) returns (ok: bool)
    requires MemOk(MemOf(m)) && IsTablePage(m.frames, kernelRoot) && kernelRoot !in m.free
    modifies sp, m`frames, m`free
    ensures ok <==> old(m.free) != []
    ensures sp.pages == [] && sp.areas == [] && sp.brkBase == sp.brkEnd == HEAP_BASE
    ensures !ok ==> MemOf(m) == old(MemOf(m)) && sp.root == 0
    ensures ok ==>
              && Valid(MemOf(m), sp.V()) && LiveIn(MemOf(m)) == LiveIn(old(MemOf(m)))
              && Region(MemOf(m), sp.V(), {}) == Elements(old(m.free)) + Slabs(m.classes)
              && Foreign(MemOf(m), sp.V(), {}) == LiveIn(old(MemOf(m)))
              && OnlyWithin(old(m.frames), m.frames, Elements(old(m.free)))
              && Owned(sp.V()) <= Elements(old(m.free)) && Records(sp.V()) == {}
              && |m.free| + 1 == |old(m.free)|
              && forall n: nat ::
                   USER_SLOTS <= n < ENTRIES ==> Entry(m.frames, sp.root, n) == Entry(old(m.frames), kernelRoot, n)
  {
    hide Core, NoEmptyTable, Leaves, TreeOk, Vm.Ready, HeapOk, Live, Slabs, LiveIn, Foreign, Region, Owned, Records;
    ghost var a := MemOf(m);
    sp.root := 0;
    sp.pages := [];
    sp.areas := [];
    sp.brkBase := HEAP_BASE;
    sp.brkEnd := HEAP_BASE;
    sp.root, sp.shape := CreateUser(m, kernelRoot);
    ok := sp.root != 0;
    if ok {
      assert a.free[0] == sp.root;
      EmptySpace(a, MemOf(m), sp.root, sp.V());
      forall n: nat | USER_SLOTS <= n < ENTRIES ensures Entry(m.frames, sp.root, n) == Entry(a.frames, kernelRoot, n) {
        assert At(m.frames, sp.shape, PageTable.Root, n) == Entry(m.frames, kernelRoot, n);
      }
    }
  }

  // ----- destroying

  /** Frames and records that belong to nobody any more, on their way back. */
  ghost predicate Loose(a: Mem, b: Mem, region: set<Frame>, foreign: set<Ptr>, frames: set<Frame>, recs: set<Ptr>) {
    && MemOk(b) && Elements(b.free) !! Slabs(b.classes) !! frames
    && (forall f :: f in frames ==> f in b.frames && f != 0)
    && recs <= LiveIn(b)
    && Elements(b.free) + Slabs(b.classes) + frames == region && LiveIn(b) - recs == foreign
    && OnlyWithin(a.frames, b.frames, region)
  }

  /** Returns one loose frame. */
  method Release(m: Memory, f: Frame, ghost a: Mem, ghost region: set<Frame>, ghost foreign: set<Ptr>,
                 ghost frames: set<Frame>, ghost recs: set<Ptr>)
    requires Loose(a, MemOf(m), region, foreign, frames, recs) && f in frames
    modifies m`frames, m`free
    ensures Loose(a, MemOf(m), region, foreign, frames - {f}, recs)
  {
    hide HeapOk, Live;
    ghost var b := MemOf(m);
    SlabsExist(b);
    assert f !in Elements(m.free) && f !in Slabs(m.classes);
    PageAlloc.Free(m, f);
    HeapFrame(b.frames, m.frames, m.classes);
  }

  /** Frees one loose record. */
  method Discard(m: Memory, p: Ptr, ghost a: Mem, ghost region: set<Frame>, ghost foreign: set<Ptr>,
                 ghost frames: set<Frame>, ghost recs: set<Ptr>)
    requires Loose(a, MemOf(m), region, foreign, frames, recs) && p in recs
    modifies m
    ensures Loose(a, MemOf(m), region, foreign, frames, recs - {p})
  {
    hide HeapOk, FreeOk, Live, Slabs, Elements;
    Kfree(m, p);
  }

  /** After the tables are gone, pages and records are loose. */
  lemma TablesGone(a: Mem, s: View, b: Mem)
    requires Core(a, s, {}, {}) && b.classes == a.classes
             && Returned(a.frames, a.free, b.frames, b.free, s.shape.pos.Keys)
    ensures Loose(a, b, Region(a, s, {}), Foreign(a, s, {}), PhysOf(s.pages), PageRecs(s.pages) + AreaRecs(s.areas))
  {
    hide TreeOk, Leaves, LeavesMatch, HeapOk, Live;
    SlabsExist(a);
    OwnFramesExist(a, s, {}, {});
    forall f | f in Slabs(a.classes) ensures f !in s.shape.pos.Keys && b.frames[f] == a.frames[f] {
    }
    HeapFrame(a.frames, b.frames, a.classes);
  }

  lemma LedgerHead(frames: Frames, pages: seq<UserPage>)
    requires LedgerOk(frames, pages) && pages != []
    ensures PhysOf(pages[1..]) == PhysOf(pages) - {pages[0].phys}
            && PageRecs(pages[1..]) == PageRecs(pages) - {pages[0].rec}
    ensures pages[0].phys in PhysOf(pages) && pages[0].rec in PageRecs(pages) && LedgerOk(frames, pages[1..])
  {
    LedgerMinus(frames, pages, 0);
    assert WithoutPage(pages, 0) == pages[1..] && pages[0] in pages;
  }

  lemma AreasHead(areas: seq<Area>)
    requires RecsOnce(areas) && areas != []
    ensures AreaRecs(areas[1..]) == AreaRecs(areas) - {areas[0].rec} && areas[0].rec in AreaRecs(areas)
            && RecsOnce(areas[1..])
  {
    AreaMinus(areas, 0);
    assert WithoutArea(areas, 0) == areas[1..] && areas[0] in areas;
  }

  /** Frees every page and every record of the ledger. */
  method DropLedger(m: Memory, sp: AddressSpace, ghost a: Mem, ghost region: set<Frame>, ghost foreign: set<Ptr>)
    requires LedgerOk(a.frames, sp.pages) && PageRecs(sp.pages) !! AreaRecs(sp.areas)
    requires Loose(a, MemOf(m), region, foreign, PhysOf(sp.pages), PageRecs(sp.pages) + AreaRecs(sp.areas))
    modifies sp`pages, m
    ensures sp.pages == [] && Loose(a, MemOf(m), region, foreign, {}, AreaRecs(sp.areas))
  {
    hide Loose, LedgerOk, PhysOf, PageRecs, AreaRecs;
    while sp.pages != []
      invariant LedgerOk(a.frames, sp.pages) && PageRecs(sp.pages) !! AreaRecs(sp.areas)
      invariant Loose(a, MemOf(m), region, foreign, PhysOf(sp.pages), PageRecs(sp.pages) + AreaRecs(sp.areas))
      decreases |sp.pages|
    {
      var page := sp.pages[0];
      LedgerHead(a.frames, sp.pages);
      ghost var frames, recs := PhysOf(sp.pages), PageRecs(sp.pages) + AreaRecs(sp.areas);
      sp.pages := sp.pages[1..];
      Release(m, page.phys, a, region, foreign, frames, recs);
      Discard(m, page.rec, a, region, foreign, frames - {page.phys}, recs);
      assert recs - {page.rec} == PageRecs(sp.pages) + AreaRecs(sp.areas);
    }
    NoRecords();
    assert PageRecs([]) + AreaRecs(sp.areas) == AreaRecs(sp.areas);
  }

  lemma NoRecords()
    ensures PhysOf([]) == {} && PageRecs([]) == {} && AreaRecs([]) == {}
  {
  }

  method DropAreas(m: Memory, sp: AddressSpace, ghost a: Mem, ghost region: set<Frame>, ghost foreign: set<Ptr>)
    requires RecsOnce(sp.areas) && Loose(a, MemOf(m), region, foreign, {}, AreaRecs(sp.areas))
    modifies sp`areas, m
    ensures sp.areas == [] && Loose(a, MemOf(m), region, foreign, {}, {})
  {
    hide Loose, AreaRecs, RecsOnce;
    while sp.areas != []
      invariant RecsOnce(sp.areas) && Loose(a, MemOf(m), region, foreign, {}, AreaRecs(sp.areas))
      decreases |sp.areas|
    {
      var rec := sp.areas[0].rec;
      AreasHead(sp.areas);
      ghost var recs := AreaRecs(sp.areas);
      sp.areas := sp.areas[1..];
      Discard(m, rec, a, region, foreign, {}, recs);
    }
    NoRecords();
  }

  /** Everything the address space owned is free again, and nothing else changed. */
  ghost predicate Dissolved(a: Mem, s: View, b: Mem) {
    && MemOk(b) && Elements(b.free) + Slabs(b.classes) == Region(a, s, {}) && LiveIn(b) == Foreign(a, s, {})
    && OnlyWithin(a.frames, b.frames, Region(a, s, {}))
  }

  /** Returns every table, page and record of an address space exactly once. */
  method Destroy(m: Memory, sp: AddressSpace)
    requires Core(MemOf(m), sp.V(), {}, {})
    modifies sp, m
    ensures sp.root == 0 && sp.pages == [] && sp.areas == []
    ensures Dissolved(old(MemOf(m)), old(sp.V()), MemOf(m))
  {
    ghost var a, s := MemOf(m), sp.V();
    MemParts(a, s, {}, {});
    DestroyUser(m, sp.root, sp.shape);
    sp.root := 0;
    DestroyRest(m, sp, a, s);
  }

  method DestroyRest(m: Memory, sp: AddressSpace, ghost a: Mem, ghost s: View)
    requires Core(a, s, {}, {}) && sp.pages == s.pages && sp.areas == s.areas && m.classes == a.classes
    requires Returned(a.frames, a.free, m.frames, m.free, s.shape.pos.Keys)
    modifies sp`pages, sp`areas, m
    ensures sp.pages == [] && sp.areas == [] && Dissolved(a, s, MemOf(m))
  {
    hide Core, Loose, Returned;
    TablesGone(a, s, MemOf(m));
    CoreParts(a, s, {}, {});
    DropLedger(m, sp, a, Region(a, s, {}), Foreign(a, s, {}));
    DropAreas(m, sp, a, Region(a, s, {}), Foreign(a, s, {}));
    LooseDone(a, s, MemOf(m));
  }

  lemma LooseDone(a: Mem, s: View, b: Mem)
    requires Loose(a, b, Region(a, s, {}), Foreign(a, s, {}), {}, {})
    ensures Dissolved(a, s, b)
  {
  }

  // ----- cloning

  /** While a copy `d` of `s` is being built, starting from memory `a`: the copy
      is sound, the original is intact, and all the copy has came from the free pages. */
  ghost predicate Building(a: Mem, b: Mem, d: View, s: View) {
    && Core(b, d, {}, {}) && NoEmptyTable(b.frames, d.shape)
    && Valid(b, s) && Separate(d, s) && SameBytes(a, b, s.pages)
    && Founded(a, b, d)
  }

  lemma BuildingStep(a: Mem, b: Mem, d: View, s: View, c: Mem, d': View)
    requires Building(a, b, d, s) && Track(b, d, c, d', {}, {}) && NoEmptyTable(c.frames, d'.shape)
    ensures Building(a, c, d', s)
  {
    hide Core, Valid, Separate, Region, Foreign, NoEmptyTable, Slabs, LiveIn, Elements, KeptBytes;
    TrackCore(b, d, c, d', {}, {});
    ValidIsolation(b, d, c, d', s);
  }

  lemma BuildingStart(a: Mem, s: View, b: Mem, d: View)
    requires Valid(a, s) && Valid(b, d) && b.classes == a.classes && MemOk(a)
    requires Region(b, d, {}) == Elements(a.free) + Slabs(a.classes) && Foreign(b, d, {}) == LiveIn(a)
             && LiveIn(b) == LiveIn(a)
    requires OnlyWithin(a.frames, b.frames, Elements(a.free)) && Owned(d) <= Elements(a.free) && Records(d) == {}
    ensures Building(a, b, d, s)
  {
    hide TreeOk, Leaves, LedgerOk, LeavesMatch, NoEmptyTable, PhysOf, PageRecs, AreaRecs, Slabs, LiveIn, HeapOk, FreeOk,
         AreasOk, Covered, BrkOk, BrkOk;
    OwnFramesExist(a, s, {}, {});
    assert Owned(s) !! Elements(a.free);
    CoreKept(a, b, s, {}, {}, {}, {});
  }

  ghost predicate SameArea(x: Area, y: Area) {
    x.start == y.start && x.end == y.end && x.flags == y.flags && x.kind == y.kind
  }

  ghost predicate AreasCopied(from: seq<Area>, to: seq<Area>) {
    |to| <= |from| && forall i :: 0 <= i < |to| ==> SameArea(from[i], to[i])
  }

  /** Same addresses and flags, in order, and the same bytes on other frames. */
  ghost predicate PagesCopied(frames: Frames, from: seq<UserPage>, to: seq<UserPage>) {
    |to| <= |from| && forall i :: 0 <= i < |to| ==> PageCopied(frames, from[i], to[i])
  }

  ghost predicate PageCopied(frames: Frames, x: UserPage, y: UserPage) {
    && x.va == y.va && x.flags == y.flags
    && x.phys in frames && y.phys in frames && frames[x.phys] == frames[y.phys]
  }

  lemma PagesCopiedNext(a: Frames, b: Frames, from: seq<UserPage>, to: seq<UserPage>, page: UserPage)
    requires PagesCopied(a, from, to) && |to| < |from| && PageCopied(b, from[|to|], page)
    requires forall p :: p in from || p in to ==> p.phys in a && p.phys in b && a[p.phys] == b[p.phys]
    ensures PagesCopied(b, from, to + [page])
  {
    forall i | 0 <= i < |to| + 1 ensures PageCopied(b, from[i], (to + [page])[i]) {
      if i < |to| { assert from[i] in from && to[i] in to && PageCopied(a, from[i], to[i]); }
    }
  }

  /** A copied list is as disjoint as its original, also against the next area. */
  lemma CopiedVacant(from: seq<Area>, to: seq<Area>)
    requires AreasOk(from) && AreasCopied(from, to) && |to| < |from|
    ensures VacantIn(to, from[|to|].start, from[|to|].end) && RangeOk(from[|to|].start, from[|to|].end)
  {
    assert from[|to|] in from;
    forall x | x in to ensures Apart(x, from[|to|].start, from[|to|].end) {
      var i :| 0 <= i < |to| && to[i] == x;
      assert SameArea(from[i], to[i]) && Apart(from[i], from[|to|].start, from[|to|].end);
    }
  }

  method CopyAreas(m: Memory, dst: AddressSpace, src: AddressSpace, ghost a: Mem) returns (ok: bool)
    requires dst != src && Building(a, MemOf(m), dst.V(), src.V()) && dst.areas == [] && dst.pages == []
    modifies dst`areas, m
    ensures Building(a, MemOf(m), dst.V(), src.V())
    ensures AreasCopied(src.areas, dst.areas) && (ok ==> |dst.areas| == |src.areas|)
    ensures |old(m.free)| >= |src.areas| ==> ok
    ensures |m.free| + |src.areas| >= |old(m.free)|
  {
    hide Building, AreasOk, Core, Track, NoEmptyTable, Restored;
    var i := 0;
    while i < |src.areas|
      invariant 0 <= i <= |src.areas| && |dst.areas| == i && AreasCopied(src.areas, dst.areas)
      invariant Building(a, MemOf(m), dst.V(), src.V()) && dst.pages == []
      invariant |m.free| + i >= |old(m.free)|
    {
      ghost var b, d := MemOf(m), dst.V();
      BuildingParts(a, b, d, src.V());
      CopiedVacant(src.areas, dst.areas);
      var area := src.areas[i];
      ok := dst.Reserve(m, area.start, area.end, area.flags, area.kind);
      BuildingStep(a, b, d, src.V(), MemOf(m), dst.V());
      if !ok {
        return;
      }
      assert SameArea(src.areas[i], dst.areas[i]);
      i := i + 1;
    }
    ok := true;
  }

  lemma BuildingParts(a: Mem, b: Mem, d: View, s: View)
    requires Building(a, b, d, s)
    ensures Core(b, d, {}, {}) && NoEmptyTable(b.frames, d.shape) && Valid(b, s) && Core(b, s, {}, {})
            && AreasOk(s.areas)
    ensures forall p :: p in d.pages || p in s.pages ==> p.phys in b.frames
  {
    LedgerFramesExist(b, d);
    LedgerFramesExist(b, s);
  }

  method CopyPages(m: Memory, dst: AddressSpace, src: AddressSpace, ghost a: Mem) returns (ok: bool)
    requires dst != src && Building(a, MemOf(m), dst.V(), src.V()) && dst.pages == []
    modifies dst`pages, dst`shape, m
    ensures Building(a, MemOf(m), dst.V(), src.V())
    ensures PagesCopied(m.frames, src.pages, dst.pages) && (ok ==> |dst.pages| == |src.pages|)
    ensures |old(m.free)| >= 4 * |src.pages| ==> ok
  {
    hide Building, Core, Track, NoEmptyTable, Restored, PagesCopied, AreasOk, Separate;
    NonePagesCopied(m.frames, src.pages);
    var i := 0;
    while i < |src.pages|
      invariant 0 <= i <= |src.pages| && |dst.pages| == i && PagesCopied(m.frames, src.pages, dst.pages)
      invariant Building(a, MemOf(m), dst.V(), src.V())
      invariant |m.free| + 4 * i >= |old(m.free)|
    {
      ok := CopyPage(m, dst, src, i, a);
      if !ok {
        return;
      }
      i := i + 1;
    }
    ok := true;
  }

  lemma NonePagesCopied(frames: Frames, from: seq<UserPage>)
    ensures PagesCopied(frames, from, [])
  {
  }

  /** Copies page number `i`, which is the next one. */
  method CopyPage(m: Memory, dst: AddressSpace, src: AddressSpace, i: nat, ghost a: Mem) returns (ok: bool)
    requires dst != src && Building(a, MemOf(m), dst.V(), src.V()) && i == |dst.pages| < |src.pages|
    requires PagesCopied(m.frames, src.pages, dst.pages)
    modifies dst`pages, dst`shape, m
    ensures Building(a, MemOf(m), dst.V(), src.V()) && PagesCopied(m.frames, src.pages, dst.pages)
    ensures |dst.pages| == if ok then i + 1 else i
    ensures |old(m.free)| >= 4 ==> ok
    ensures |m.free| + 4 >= |old(m.free)|
  {
    hide Building, Core, Track, NoEmptyTable, Restored, PagesCopied, AreasOk, Separate, Valid;
    ghost var b, d := MemOf(m), dst.V();
    BuildingParts(a, b, d, src.V());
    var page := src.pages[i];
    SourcePage(b, src.V(), i);
    CopiedFresh(b, src.V(), d, i);
    var bytes := m.frames[page.phys].bytes;
    ok := dst.AddPage(m, page.va, page.flags, bytes);
    ghost var c, d' := MemOf(m), dst.V();
    BuildingStep(a, b, d, src.V(), c, d');
    CopyKept(a, b, d, src.V(), c, d');
    if ok {
      WholePage(bytes);
      assert dst.pages[i] in dst.pages;
      PagesCopiedNext(b.frames, c.frames, src.pages, d.pages, dst.pages[i]);
    } else {
      PagesCopiedKept(b.frames, c.frames, src.pages, dst.pages);
    }
  }

  lemma WholePage(bytes: seq<Byte>)
    requires |bytes| == PAGE_SIZE
    ensures Padded(bytes) == bytes
  {
  }

  lemma PagesCopiedKept(a: Frames, b: Frames, from: seq<UserPage>, to: seq<UserPage>)
    requires PagesCopied(a, from, to)
    requires forall p :: p in from || p in to ==> p.phys in a && p.phys in b && a[p.phys] == b[p.phys]
    ensures PagesCopied(b, from, to)
  {
    forall i | 0 <= i < |to| ensures PageCopied(b, from[i], to[i]) {
      assert from[i] in from && to[i] in to && PageCopied(a, from[i], to[i]);
    }
  }

  lemma SourcePage(b: Mem, s: View, i: nat)
    requires Core(b, s, {}, {}) && i < |s.pages|
    ensures VaOk(s.pages[i].va) && FlagsOk(s.pages[i].flags) && IsDataPage(b.frames, s.pages[i].phys)
  {
    assert s.pages[i] in s.pages;
  }

  /** The next address is not among those copied so far. */
  lemma CopiedFresh(b: Mem, s: View, d: View, i: nat)
    requires Core(b, s, {}, {}) && PagesCopied(b.frames, s.pages, d.pages) && i == |d.pages| < |s.pages|
    ensures forall p :: p in d.pages ==> p.va != s.pages[i].va
  {
    hide TreeOk, Leaves, LeavesMatch, MemOk, FramesApart, RecordsOk;
    forall p | p in d.pages ensures p.va != s.pages[i].va {
      var k :| 0 <= k < |d.pages| && d.pages[k] == p;
      assert PageCopied(b.frames, s.pages[k], d.pages[k]);
    }
  }

  /** Pages of the original and pages copied earlier keep their bytes. */
  lemma CopyKept(a: Mem, b: Mem, d: View, s: View, c: Mem, d': View)
    requires Building(a, b, d, s) && Building(a, c, d', s) && Track(b, d, c, d', {}, {})
    requires |d.pages| <= |d'.pages| && d'.pages[..|d.pages|] == d.pages
    ensures forall p ::
              p in s.pages || p in d.pages ==>
                p.phys in b.frames && p.phys in c.frames && b.frames[p.phys] == c.frames[p.phys]
  {
    hide Core, Conserves, Valid, Separate, NoEmptyTable, Region, Foreign;
    forall p | p in d.pages ensures p in d'.pages {
      assert p in d'.pages[..|d.pages|];
    }
  }

  /** The copy as a whole. */
  ghost predicate Cloned(frames: Frames, s: View, d: View) {
    && |d.pages| == |s.pages| && PagesCopied(frames, s.pages, d.pages)
    && |d.areas| == |s.areas| && AreasCopied(s.areas, d.areas)
    && d.brkBase == s.brkBase && d.brkEnd == s.brkEnd
  }

  lemma CopiedMember(from: seq<Area>, to: seq<Area>, x: Area) returns (y: Area)
    requires |from| == |to| && AreasCopied(from, to) && x in from
    ensures y in to && SameArea(x, y)
  {
    var k :| 0 <= k < |from| && from[k] == x;
    assert SameArea(from[k], to[k]);
    y := to[k];
  }

  lemma OriginalMember(from: seq<Area>, to: seq<Area>, y: Area) returns (x: Area)
    requires |from| == |to| && AreasCopied(from, to) && y in to
    ensures x in from && SameArea(x, y)
  {
    var k :| 0 <= k < |to| && to[k] == y;
    assert SameArea(from[k], to[k]);
    x := from[k];
  }

  lemma CopiedAreasOk(from: seq<Area>, to: seq<Area>)
    requires |from| == |to| && AreasCopied(from, to) && AreasOk(from)
    ensures AreasOk(to)
  {
    forall y | y in to ensures RangeOk(y.start, y.end) {
      var x := OriginalMember(from, to, y);
    }
    forall i, j | 0 <= i < j < |to| ensures Apart(to[i], to[j].start, to[j].end) {
      assert SameArea(from[i], to[i]) && SameArea(from[j], to[j]) && Apart(from[i], from[j].start, from[j].end);
    }
  }

  lemma CopiedCovered(frames: Frames, s: View, d: View)
    requires Cloned(frames, s, d) && Covered(s.areas, s.pages)
    ensures Covered(d.areas, d.pages)
  {
    forall p | p in d.pages ensures InArea(d.areas, p.va) {
      var i :| 0 <= i < |d.pages| && d.pages[i] == p;
      assert s.pages[i] in s.pages && PageCopied(frames, s.pages[i], d.pages[i]);
      var x :| x in s.areas && x.start <= p.va < x.end;
      var y := CopiedMember(s.areas, d.areas, x);
    }
  }

  lemma CopiedBrk(from: seq<Area>, to: seq<Area>, brkBase: nat, brkEnd: nat)
    requires |from| == |to| && AreasCopied(from, to) && BrkOk(from, brkBase, brkEnd)
    ensures BrkOk(to, brkBase, brkEnd)
  {
    hide AreasCopied;
    forall y | y in to && y.kind == HEAP ensures y.start == brkBase && y.end == RoundUp(brkEnd) {
      var x := OriginalMember(from, to, y);
    }
    if RoundUp(brkEnd) != brkBase {
      var x :| x in from && x.kind == HEAP;
      var y := CopiedMember(from, to, x);
    }
  }

  lemma ClonedValid(b: Mem, d: View, s: View)
    requires Core(b, d, {}, {}) && NoEmptyTable(b.frames, d.shape) && Valid(b, s) && Cloned(b.frames, s, d)
    ensures Valid(b, d)
  {
    hide Core, NoEmptyTable, AreasOk, Covered, BrkOk, AreasCopied, PagesCopied;
    CopiedAreasOk(s.areas, d.areas);
    CopiedCovered(b.frames, s, d);
    CopiedBrk(s.areas, d.areas, s.brkBase, s.brkEnd);
  }

  /** Free list, heap and live objects are the same sets as before. */
  ghost predicate Unspent(a: Mem, b: Mem) {
    Elements(b.free) == Elements(a.free) && |b.free| == |a.free| && Slabs(b.classes) == Slabs(a.classes)
    && LiveIn(b) == LiveIn(a)
  }

  /** Only free pages and heap pages were used, and none was lost. */
  ghost predicate Quiet(a: Mem, b: Mem) {
    && MemOk(b) && Elements(b.free) + Slabs(b.classes) == Elements(a.free) + Slabs(a.classes)
    && OnlyWithin(a.frames, b.frames, Elements(a.free) + Slabs(a.classes))
  }

  /** Dissolving a half-built copy gives back exactly what it took. */
  lemma CopyUndone(a: Mem, b: Mem, d: View, s: View, c: Mem)
    requires MemOk(a) && Building(a, b, d, s) && Dissolved(b, d, c)
    ensures Unspent(a, c) && Quiet(a, c) && Valid(c, s) && SameBytes(a, c, s.pages)
  {
    hide Core, Valid, Separate, MemOk, NoEmptyTable, Slabs, LiveIn, Foreign, Unspent;
    DissolvedUnspent(a, b, d, c);
    BystanderOfDestroy(b, d, s, c);
  }

  /** Whatever was founded on free pages, dissolving it restores them exactly. */
  lemma DissolvedUnspent(a: Mem, b: Mem, d: View, c: Mem)
    requires MemOk(a) && Founded(a, b, d) && Dissolved(b, d, c)
    ensures Unspent(a, c) && Quiet(a, c)
  {
    hide Core, HeapOk, Slabs, LiveIn, Region, Foreign;
    LiveParts(a);
    LiveParts(c);
    SlabsAreLiveFrames(a.frames, a.classes);
    SlabsAreLiveFrames(c.frames, c.classes);
    assert Elements(c.free) == (Elements(a.free) + Slabs(a.classes)) - Slabs(a.classes);
    SameElementsSameCount(a.free, c.free);
  }

  lemma BystanderOfDestroy(b: Mem, d: View, s: View, c: Mem)
    requires Core(b, d, {}, {}) && Valid(b, s) && Separate(d, s) && Dissolved(b, d, c)
    ensures Valid(c, s) && SameBytes(b, c, s.pages)
  {
    hide TreeOk, Leaves, LedgerOk, LeavesMatch, NoEmptyTable, PhysOf, PageRecs, AreaRecs, Slabs, LiveIn, HeapOk, FreeOk,
         AreasOk, Covered, BrkOk;
    OwnFramesExist(b, s, {}, {});
    assert Owned(s) !! Region(b, d, {});
    assert Records(s) <= Foreign(b, d, {});
    CoreKept(b, c, s, {}, {}, {}, {});
  }

  /** Eagerly duplicates an address space onto fresh pages.  If any allocation
      fails, the partial copy is dissolved and memory is as it was. */
  method Clone(m: Memory, dst: AddressSpace, src: AddressSpace, kernelRoot: Frame) returns (ok: bool)
    requires dst != src && Valid(MemOf(m), src.V()) && IsTablePage(m.frames, kernelRoot) && kernelRoot !in m.free
    modifies dst, m
    ensures Valid(MemOf(m), src.V()) && SameBytes(old(MemOf(m)), MemOf(m), src.pages)
    ensures ok ==> Valid(MemOf(m), dst.V()) && Separate(dst.V(), src.V()) && Cloned(m.frames, src.V(), dst.V())
    ensures ok ==> Founded(old(MemOf(m)), MemOf(m), dst.V())
    ensures !ok ==>
              Unspent(old(MemOf(m)), MemOf(m)) && Quiet(old(MemOf(m)), MemOf(m)) && dst.root == 0 && dst.pages == []
              && dst.areas == []
    ensures |old(m.free)| >= 1 + |src.areas| + 4 * |src.pages| ==> ok
    ensures forall x: nat :: x < USER_END ==>
              && SeenSame(old(MemOf(m)), src.V(), MemOf(m), src.V(), x)
              && (ok ==> SeenSame(old(MemOf(m)), src.V(), MemOf(m), dst.V(), x))
    ensures ok ==>
              && dst.brkBase == src.brkBase && dst.brkEnd == src.brkEnd && |dst.areas| == |src.areas|
              && forall i :: 0 <= i < |src.areas| ==>
                   dst.areas[i].start == src.areas[i].start && dst.areas[i].end == src.areas[i].end
                   && dst.areas[i].flags == src.areas[i].flags && dst.areas[i].kind == src.areas[i].kind
  {
    hide SeenSame, Cloned, Valid, Core, Founded, Quiet, NoEmptyTable, Separate, SameBytes, MemOk, Unspent, Building,
         PagesCopied,
         AreasCopied, Region, Foreign, LiveIn, Slabs, Owned, Records, OnlyWithin, Dissolved;
    ghost var a, s := MemOf(m), src.V();
    ValidParts(a, s);
    ok := Init(m, dst, kernelRoot);
    if !ok {
      KeptSeen(a, s, MemOf(m));
      return;
    }
    BuildingStart(a, s, MemOf(m), dst.V());
    dst.brkBase := src.brkBase;
    dst.brkEnd := src.brkEnd;
    BrkIrrelevant(a, MemOf(m), s, dst.V());
    ok := CopyAreas(m, dst, src, a);
    if ok {
      ok := CopyPages(m, dst, src, a);
    }
    BuildingParts(a, MemOf(m), dst.V(), s);
    if ok {
      ClonedFrom(MemOf(m).frames, s, dst.V());
      ClonedValid(MemOf(m), dst.V(), s);
      BuildingEnd(a, MemOf(m), dst.V(), s);
      CloneSeen(a, s, MemOf(m), dst.V());
      ClonedParts(MemOf(m).frames, s, dst.V());
    } else {
      ghost var b, d := MemOf(m), dst.V();
      Destroy(m, dst);
      CopyUndone(a, b, d, s, MemOf(m));
    }
    KeptSeen(a, s, MemOf(m));
  }

  lemma ClonedFrom(frames: Frames, s: View, d: View)
    requires |d.pages| == |s.pages| && PagesCopied(frames, s.pages, d.pages)
    requires |d.areas| == |s.areas| && AreasCopied(s.areas, d.areas)
    requires d.brkBase == s.brkBase && d.brkEnd == s.brkEnd
    ensures Cloned(frames, s, d)
  {
  }

  lemma ClonedParts(frames: Frames, s: View, d: View)
    requires Cloned(frames, s, d)
    ensures d.brkBase == s.brkBase && d.brkEnd == s.brkEnd && |d.areas| == |s.areas|
    ensures forall i :: 0 <= i < |s.areas| ==> SameArea(s.areas[i], d.areas[i])
  {
  }

  /** A program whose pages keep their bytes goes on seeing them. */
  lemma KeptSeen(a: Mem, s: View, b: Mem)
    requires Valid(a, s) && Valid(b, s) && SameBytes(a, b, s.pages)
    ensures forall x: nat :: x < USER_END ==> SeenSame(a, s, b, s, x)
  {
    hide Core, ByteAt, Accessible, Executable, Leafy;
    forall x: nat | x < USER_END ensures SeenSame(a, s, b, s, x) {
      if p :| p in s.pages && Holds(p, x) {
        PageSeen(a, s, p, x);
        PageSeen(b, s, p, x);
      } else {
        NothingSeen(a, s, x);
        NothingSeen(b, s, x);
      }
    }
  }

  /** A clone sees what the original saw. */
  lemma CloneSeen(a: Mem, s: View, b: Mem, d: View)
    requires Valid(a, s) && Valid(b, s) && Valid(b, d) && SameBytes(a, b, s.pages) && Cloned(b.frames, s, d)
    ensures forall x: nat :: x < USER_END ==> SeenSame(a, s, b, d, x)
  {
    hide Core, ByteAt, Accessible, Executable, Leafy;
    forall x: nat | x < USER_END ensures SeenSame(a, s, b, d, x) {
      if i :| 0 <= i < |s.pages| && Holds(s.pages[i], x) {
        assert s.pages[i] in s.pages && d.pages[i] in d.pages && PageCopied(b.frames, s.pages[i], d.pages[i]);
        PageSeen(a, s, s.pages[i], x);
        PageSeen(b, d, d.pages[i], x);
      } else {
        assert forall i :: 0 <= i < |s.pages| ==> PageCopied(b.frames, s.pages[i], d.pages[i]);
        NothingSeen(a, s, x);
        NothingSeen(b, d, x);
      }
    }
  }

  lemma ValidParts(a: Mem, s: View)
    requires Valid(a, s)
    ensures MemOk(a) && SameBytes(a, a, s.pages) && Unspent(a, a) && Quiet(a, a)
  {
    LedgerFramesExist(a, s);
  }

  lemma BuildingEnd(a: Mem, b: Mem, d: View, s: View)
    ensures Building(a, b, d, s) ==> Valid(b, s) && SameBytes(a, b, s.pages) && Separate(d, s) && Founded(a, b, d)
  {
  }

  /** The break plays no part in ownership. */
  lemma BrkIrrelevant(a: Mem, b: Mem, s: View, d: View)
    ensures forall base: nat, end: nat ::
              Building(a, b, d.(brkBase := base, brkEnd := end), s) <==> Building(a, b, d, s)
  {
    hide TreeOk, Leaves, LedgerOk, LeavesMatch, NoEmptyTable, PhysOf, PageRecs, AreaRecs, Slabs, LiveIn, HeapOk, FreeOk,
         Valid, MemOk, SameBytes, OnlyWithin;
  }
}
