/** All address spaces of the machine together, over whole runs: the spaces stay
    sound and separate, no page of RAM is ever lost or owned twice, and a space
    that takes no step reads the same bytes for ever. */
module Worlds {
  import opened Physical
  import opened PageTable
  import opened Vm
  import opened Heap
  import opened Space
  import opened SpaceSteps
  import opened SpaceOps
  import opened Areas
  import opened AddressSpaces
  import opened Lifecycle
  import opened UserView
  import opened UserCopy

  /** One memory and the address spaces that live in it, by process. */
  datatype World = World(mem: Mem, spaces: map<nat, View>)

  ghost predicate Apart(spaces: map<nat, View>) {
    forall j, k :: j in spaces && k in spaces && j != k ==> Separate(spaces[j], spaces[k])
  }

  ghost predicate WorldOk(w: World) {
    MemOk(w.mem) && Apart(w.spaces) && forall k :: k in w.spaces ==> Valid(w.mem, w.spaces[k])
  }

  /** Process `k` runs an operation on its own space, a space is created or cloned,
      a space is destroyed, or the kernel allocates and frees for itself. */
  datatype Event = Act(k: nat) | Found(k: nat) | Dissolve(k: nat) | Kernel

  ghost predicate Next(w: World, e: Event, w': World) {
    match e
    case Act(k) =>
      && k in w.spaces && k in w'.spaces && w'.spaces == w.spaces[k := w'.spaces[k]]
      && Valid(w'.mem, w'.spaces[k]) && Conserves(w.mem, w.spaces[k], {}, {}, w'.mem, w'.spaces[k], {}, {})
    case Found(k) =>
      && k !in w.spaces && k in w'.spaces && w'.spaces == w.spaces[k := w'.spaces[k]]
      && Valid(w'.mem, w'.spaces[k]) && Founded(w.mem, w'.mem, w'.spaces[k])
    case Dissolve(k) =>
      k in w.spaces && w'.spaces == w.spaces - {k} && Dissolved(w.mem, w.spaces[k], w'.mem)
    case Kernel =>
      w'.spaces == w.spaces && Quiet(w.mem, w'.mem) && AllRecords(w.spaces) <= LiveIn(w'.mem)
  }

  ghost function AllOwned(spaces: map<nat, View>): set<Frame> {
    set k, f | k in spaces && f in Owned(spaces[k]) :: f
  }

  ghost function AllRecords(spaces: map<nat, View>): set<Ptr> {
    set k, r | k in spaces && r in Records(spaces[k]) :: r
  }

  /** Every page the kernel manages: free, in the heap, or owned by a space. */
  ghost function Pages(w: World): set<Frame> {
    Elements(w.mem.free) + Slabs(w.mem.classes) + AllOwned(w.spaces)
  }

  // ----- what one step does to a bystander

  ghost predicate Undisturbed(a: Mem, b: Mem, t: View) {
    && Core(b, t, {}, {}) && Leaves(b.frames, t.shape) == Leaves(a.frames, t.shape) && SameBytes(a, b, t.pages)
    && (NoEmptyTable(a.frames, t.shape) ==> NoEmptyTable(b.frames, t.shape))
  }

  lemma FoundBystander(a: Mem, b: Mem, d: View, t: View)
    requires Core(a, t, {}, {}) && Founded(a, b, d)
    ensures Undisturbed(a, b, t) && Separate(d, t)
  {
    hide TreeOk, Leaves, LedgerOk, LeavesMatch, NoEmptyTable, PhysOf, PageRecs, AreaRecs, Slabs, LiveIn, HeapOk, FreeOk;
    OwnFramesExist(a, t, {}, {});
    assert Owned(t) !! Region(b, d, {});
    assert Records(t) <= Foreign(b, d, {});
    CoreKept(a, b, t, {}, {}, {}, {});
  }

  lemma DissolveBystander(a: Mem, s: View, b: Mem, t: View)
    requires Core(a, s, {}, {}) && Core(a, t, {}, {}) && Separate(s, t) && Dissolved(a, s, b)
    ensures Undisturbed(a, b, t)
  {
    hide TreeOk, Leaves, LedgerOk, LeavesMatch, NoEmptyTable, PhysOf, PageRecs, AreaRecs, Slabs, LiveIn, HeapOk, FreeOk;
    OwnFramesExist(a, t, {}, {});
    assert Owned(t) !! Region(a, s, {});
    assert Records(t) <= Foreign(a, s, {});
    CoreKept(a, b, t, {}, {}, {}, {});
  }

  lemma KernelBystander(a: Mem, b: Mem, t: View)
    requires Core(a, t, {}, {}) && Quiet(a, b) && Records(t) <= LiveIn(b)
    ensures Undisturbed(a, b, t)
  {
    hide TreeOk, Leaves, LedgerOk, LeavesMatch, NoEmptyTable, PhysOf, PageRecs, AreaRecs, Slabs, LiveIn, HeapOk, FreeOk;
    OwnFramesExist(a, t, {}, {});
    assert Owned(t) !! Elements(a.free) + Slabs(a.classes);
    CoreKept(a, b, t, {}, {}, {}, {});
  }

  lemma ActBystander(a: Mem, s: View, b: Mem, s': View, t: View)
    requires Core(a, s, {}, {}) && Core(a, t, {}, {}) && Separate(s, t)
    requires Core(b, s', {}, {}) && Conserves(a, s, {}, {}, b, s', {}, {})
    ensures Undisturbed(a, b, t) && Separate(s', t)
  {
    hide Core, Conserves, Separate, Leaves, SameBytes, NoEmptyTable;
    Isolation(a, s, b, s', t);
  }

  predicate Acts(e: Event, k: nat) {
    !e.Kernel? && e.k == k
  }

  /** Every process but the one that acts is undisturbed. */
  lemma Bystander(w: World, e: Event, w': World, t: nat)
    requires WorldOk(w) && Next(w, e, w') && t in w.spaces && !Acts(e, t)
    ensures t in w'.spaces && w'.spaces[t] == w.spaces[t] && Undisturbed(w.mem, w'.mem, w.spaces[t])
    ensures !e.Kernel? && e.k in w'.spaces ==> Separate(w'.spaces[e.k], w.spaces[t])
  {
    hide Core, Conserves, Separate, Undisturbed, Founded, Dissolved, Quiet, LiveIn, MemOk, Records, NoEmptyTable,
         AreasOk, Covered, BrkOk;
    match e
    case Act(k) => ActBystander(w.mem, w.spaces[k], w'.mem, w'.spaces[k], w.spaces[t]);
    case Found(k) => FoundBystander(w.mem, w'.mem, w'.spaces[k], w.spaces[t]);
    case Dissolve(k) => DissolveBystander(w.mem, w.spaces[k], w'.mem, w.spaces[t]);
    case Kernel =>
      assert Records(w.spaces[t]) <= AllRecords(w.spaces);
      KernelBystander(w.mem, w'.mem, w.spaces[t]);
  }

  lemma SeparateSymmetric(s: View, t: View)
    ensures Separate(s, t) == Separate(t, s)
  {
  }

  lemma UndisturbedValid(a: Mem, b: Mem, t: View)
    requires Valid(a, t) && Undisturbed(a, b, t)
    ensures Valid(b, t)
  {
    hide Core, SameBytes, Leaves, NoEmptyTable, AreasOk, Covered, BrkOk;
  }

  lemma ValidMemOk(a: Mem, s: View)
    ensures Valid(a, s) ==> MemOk(a)
  {
  }

  /** The world invariant survives every event. */
  lemma WorldKept(w: World, e: Event, w': World)
    requires WorldOk(w) && Next(w, e, w')
    ensures WorldOk(w')
  {
    hide Valid, Core, Conserves, Separate, Undisturbed, Founded, MemOk;
    assert MemOk(w'.mem) by {
      if e.Act? || e.Found? { ValidMemOk(w'.mem, w'.spaces[e.k]); }
    }
    forall t | t in w'.spaces ensures Valid(w'.mem, w'.spaces[t]) {
      if !Acts(e, t) {
        Bystander(w, e, w', t);
        UndisturbedValid(w.mem, w'.mem, w.spaces[t]);
      }
    }
    forall j, k | j in w'.spaces && k in w'.spaces && j != k ensures Separate(w'.spaces[j], w'.spaces[k]) {
      SeparateSymmetric(w'.spaces[j], w'.spaces[k]);
      if !Acts(e, j) { Bystander(w, e, w', j); }
      if !Acts(e, k) { Bystander(w, e, w', k); }
    }
  }

  // ----- no page is lost

  lemma OwnedOf(spaces: map<nat, View>, k: nat)
    requires k in spaces
    ensures AllOwned(spaces) == AllOwned(spaces - {k}) + Owned(spaces[k])
    ensures AllRecords(spaces) == AllRecords(spaces - {k}) + Records(spaces[k])
  {
    hide Owned, Records;
    var rest := spaces - {k};
    forall f | f in AllOwned(spaces) ensures f in AllOwned(rest) + Owned(spaces[k]) {
      var j :| j in spaces && f in Owned(spaces[j]);
      assert j != k ==> j in rest && rest[j] == spaces[j];
    }
    forall r | r in AllRecords(spaces) ensures r in AllRecords(rest) + Records(spaces[k]) {
      var j :| j in spaces && r in Records(spaces[j]);
      assert j != k ==> j in rest && rest[j] == spaces[j];
    }
  }

  /** The set of pages the kernel manages never changes. */
  lemma PagesKept(w: World, e: Event, w': World)
    requires WorldOk(w) && Next(w, e, w')
    ensures Pages(w') == Pages(w)
  {
    hide Valid, Separate, MemOk, AllOwned, AllRecords, Slabs, LiveIn, Foreign, OnlyWithin, PhysOf, Elements;
    if !e.Kernel? {
      var k := e.k;
      if k in w.spaces { OwnedOf(w.spaces, k); }
      if k in w'.spaces { OwnedOf(w'.spaces, k); }
      assert w'.spaces - {k} == w.spaces - {k};
      if k !in w.spaces { assert w.spaces - {k} == w.spaces; }
      if k !in w'.spaces { assert w'.spaces - {k} == w'.spaces; }
    }
  }

  /** A run: a world for every moment and the event between each two. */
  ghost predicate Run(worlds: seq<World>, events: seq<Event>) {
    && |worlds| == |events| + 1
    && forall i :: 0 <= i < |events| ==> Next(worlds[i], events[i], worlds[i + 1])
  }

  lemma {:induction false} RunKept(worlds: seq<World>, events: seq<Event>, n: nat)
    requires Run(worlds, events) && WorldOk(worlds[0]) && n < |worlds|
    ensures WorldOk(worlds[n]) && Pages(worlds[n]) == Pages(worlds[0])
    decreases n
  {
    hide WorldOk, Next, Pages;
    if n > 0 {
      RunKept(worlds, events, n - 1);
      WorldKept(worlds[n - 1], events[n - 1], worlds[n]);
      PagesKept(worlds[n - 1], events[n - 1], worlds[n]);
    }
  }

  /** After any run, if the spaces and the kernel's own heap objects are what they
      were, so are the free pages, to the last one. */
  lemma RunRestores(worlds: seq<World>, events: seq<Event>)
    requires Run(worlds, events) && WorldOk(worlds[0])
    requires worlds[|events|].spaces == worlds[0].spaces && LiveIn(worlds[|events|].mem) == LiveIn(worlds[0].mem)
    ensures Unspent(worlds[0].mem, worlds[|events|].mem)
  {
    hide Next, Valid, Separate, HeapOk, Slabs, LiveIn;
    RunKept(worlds, events, |events|);
    var w, w' := worlds[0], worlds[|events|];
    NotOwned(w);
    NotOwned(w');
    LiveParts(w.mem);
    LiveParts(w'.mem);
    SlabsAreLiveFrames(w.mem.frames, w.mem.classes);
    SlabsAreLiveFrames(w'.mem.frames, w'.mem.classes);
    assert Elements(w.mem.free) == Pages(w) - AllOwned(w.spaces) - Slabs(w.mem.classes);
    assert Elements(w'.mem.free) == Pages(w') - AllOwned(w'.spaces) - Slabs(w'.mem.classes);
    SameElementsSameCount(w.mem.free, w'.mem.free);
  }

  /** A page owned by a space is neither free nor in the heap. */
  lemma NotOwned(w: World)
    requires WorldOk(w)
    ensures AllOwned(w.spaces) !! Elements(w.mem.free) + Slabs(w.mem.classes)
    ensures Elements(w.mem.free) !! Slabs(w.mem.classes)
  {
    hide TreeOk, Leaves, LedgerOk, LeavesMatch, PhysOf, Slabs, LiveIn, HeapOk, FreeOk, RecordsOk, Separate,
         NoEmptyTable, AreasOk, Covered, BrkOk;
    forall f | f in AllOwned(w.spaces) ensures f !in Elements(w.mem.free) + Slabs(w.mem.classes) {
      var k :| k in w.spaces && f in Owned(w.spaces[k]);
    }
  }

  // ----- reads

  /** Every user byte reads the same and is as accessible as before. */
  ghost predicate SameReads(a: Mem, s: View, b: Mem, t: View) {
    forall x: nat :: x < USER_END ==>
                       && ByteAt(b, t, x) == ByteAt(a, s, x)
                       && Accessible(b, t, x, false) == Accessible(a, s, x, false)
                       && Accessible(b, t, x, true) == Accessible(a, s, x, true)
  }

  lemma UndisturbedReads(a: Mem, b: Mem, t: View)
    requires Core(a, t, {}, {}) && Undisturbed(a, b, t)
    ensures SameReads(a, t, b, t)
  {
    hide Core, Leaves, VpnOf, LeafAt;
    forall x: nat | x < USER_END ensures ByteAt(b, t, x) == ByteAt(a, t, x) && LeafAt(a, t, x) == LeafAt(b, t, x) {
      SameLeaves(a, b, t, x);
      if LeafAt(a, t, x).v {
        var p := LeafIsPage(a, t, x);
      }
    }
  }

  /** Whatever the other processes do, and however long, a process that does not
      act reads the same bytes. */
  lemma {:induction false} ReadsStay(worlds: seq<World>, events: seq<Event>, t: nat, n: nat)
    requires Run(worlds, events) && WorldOk(worlds[0]) && n < |worlds| && t in worlds[0].spaces
    requires forall i :: 0 <= i < n ==> !Acts(events[i], t)
    ensures t in worlds[n].spaces && worlds[n].spaces[t] == worlds[0].spaces[t]
    ensures SameReads(worlds[0].mem, worlds[0].spaces[t], worlds[n].mem, worlds[n].spaces[t])
    decreases n
  {
    hide Next, Core, Undisturbed, ByteAt, Accessible, Apart, MemOk, NoEmptyTable, AreasOk, Covered, BrkOk;
    if n > 0 {
      ReadsStay(worlds, events, t, n - 1);
      RunKept(worlds, events, n - 1);
      Bystander(worlds[n - 1], events[n - 1], worlds[n], t);
      UndisturbedReads(worlds[n - 1].mem, worlds[n].mem, worlds[n].spaces[t]);
    }
  }

  /** A clone reads the same bytes, with the same permissions, at every address. */
  lemma CloneReads(mem: Mem, s: View, d: View)
    requires Core(mem, s, {}, {}) && Core(mem, d, {}, {}) && Cloned(mem.frames, s, d)
    ensures SameReads(mem, s, mem, d)
  {
    hide Core, Leaves, VpnOf, LeafAt;
    forall x: nat | x < USER_END
      ensures ByteAt(mem, d, x) == ByteAt(mem, s, x)
              && LeafAt(mem, d, x) == LeafAt(mem, s, x).(ppn := LeafAt(mem, d, x).ppn)
    {
      if LeafAt(mem, s, x).v {
        CloneLeaf(mem, s, d, x);
      } else if LeafAt(mem, d, x).v {
        CloneLeaf(mem, d, s, x);
      } else {
        NoLeaf(mem, s, x);
        NoLeaf(mem, d, x);
      }
    }
  }

  lemma NoLeaf(mem: Mem, s: View, x: nat)
    ensures !LeafAt(mem, s, x).v ==> LeafAt(mem, s, x) == NO_PTE
  {
    LeavesAreValid(mem.frames, s.shape);
  }

  lemma CloneLeaf(mem: Mem, s: View, d: View, x: nat)
    requires Core(mem, s, {}, {}) && Core(mem, d, {}, {}) && x < USER_END && LeafAt(mem, s, x).v
    requires Cloned(mem.frames, s, d) || Cloned(mem.frames, d, s)
    ensures ByteAt(mem, d, x) == ByteAt(mem, s, x)
            && LeafAt(mem, d, x) == LeafAt(mem, s, x).(ppn := LeafAt(mem, d, x).ppn)
  {
    hide Core, LeafAt, VpnOf;
    var p := LeafOfPage(mem, s, x);
    var i :| 0 <= i < |s.pages| && s.pages[i] == p;
    var q := d.pages[i];
    assert PageCopied(mem.frames, p, q) || PageCopied(mem.frames, q, p);
    assert q in d.pages;
    PageLeaf(mem, d, q, x);
  }

  lemma LeafOfPage(mem: Mem, s: View, x: nat) returns (p: UserPage)
    requires Core(mem, s, {}, {}) && x < USER_END && LeafAt(mem, s, x).v
    ensures p in s.pages && Leafy(p.flags) && VpnOf(p.va) == VpnOf(x) && IsDataPage(mem.frames, p.phys)
    ensures LeafAt(mem, s, x) == LeafPte(p.phys, p.flags)
  {
    hide Leaves, TreeOk, MemOk, FramesApart, RecordsOk, VpnOf;
    p :| p in s.pages && Leafy(p.flags) && VpnOf(p.va) == VpnOf(x);
  }

  lemma PageLeaf(mem: Mem, s: View, p: UserPage, x: nat)
    requires Core(mem, s, {}, {}) && p in s.pages && Leafy(p.flags) && VpnOf(p.va) == VpnOf(x)
    ensures LeafAt(mem, s, x) == LeafPte(p.phys, p.flags) && IsDataPage(mem.frames, p.phys)
  {
    hide Leaves, TreeOk, MemOk, FramesApart, RecordsOk, VpnOf;
  }
}
