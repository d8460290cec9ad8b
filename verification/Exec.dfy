/** Program images: segments laid into user memory, and the first stack. */
module Exec {
  import opened Physical
  import opened Chunks
  import opened PageTable
  import opened Vm
  import opened Heap
  import opened Space
  import opened SpaceSteps
  import opened SpaceOps
  import opened Neutral
  import opened Areas
  import opened AddressSpaces
  import opened Lifecycle
  import opened UserView
  import opened UserCopy

  const IMAGE_END: nat := 0x3fb000
  const STACK_TOP: nat := 0x400000
  const STACK_PAGES: nat := 4

  // ----- an image under construction

  /** An address space made from the free pages of `a`, sound at every step. */
  ghost predicate Image(a: Mem, b: Mem, d: View) {
    Founded(a, b, d) && Valid(b, d)
  }

  /** From (a, s) to (b, t), user memory has `data` laid over the address and is
      otherwise the same; what is not mapped reads as zero. */
  ghost predicate Laid(a: Mem, s: View, b: Mem, t: View, address: nat, data: seq<Byte>) {
    forall x: nat :: x < USER_END ==>
                       ByteAt(b, t, x) == if address <= x < address + |data| then data[x - address] else ByteAt(a, s, x)
  }

  lemma LaidNothing(a: Mem, s: View, address: nat)
    ensures Laid(a, s, a, s, address, [])
  {
  }

  lemma LaidMore(a: Mem, s: View, b: Mem, t: View, c: Mem, u: View, address: nat, data: seq<Byte>, more: seq<Byte>)
    requires Laid(a, s, b, t, address, data) && Laid(b, t, c, u, address + |data|, more)
    ensures Laid(a, s, c, u, address, data + more)
  {
    hide ByteAt;
  }

  /** Steps that lay nothing may come before or after. */
  lemma LaidAfterNothing(a: Mem, s: View, b: Mem, t: View, c: Mem, u: View, address: nat, data: seq<Byte>, other: nat)
    requires Laid(a, s, b, t, other, []) && Laid(b, t, c, u, address, data)
    ensures Laid(a, s, c, u, address, data)
  {
    hide ByteAt;
  }

  lemma OverlaidLaid(a: Mem, b: Mem, s: View, address: nat, data: seq<Byte>)
    requires Overlaid(a, b, s, address, data)
    ensures Laid(a, s, b, s, address, data)
  {
    hide ByteAt;
  }

  lemma ImageStep(a: Mem, b: Mem, d: View, c: Mem, d': View)
    requires Founded(a, b, d) && Core(c, d', {}, {}) && Conserves(b, d, {}, {}, c, d', {}, {})
    ensures Founded(a, c, d')
  {
    hide Core, Region, Foreign, Slabs, LiveIn, Elements;
  }

  // ----- new pages are zero, and so is what is not mapped

  /** Every page of `s` is in `t`, with the same bytes; the others hold zeros. */
  ghost predicate OnlyZerosAdded(a: Mem, s: View, b: Mem, t: View) {
    && (forall p ::
          p in s.pages ==>
            p in t.pages && p.phys in a.frames && p.phys in b.frames && a.frames[p.phys] == b.frames[p.phys])
    && (forall p :: p in t.pages && p !in s.pages ==> p.phys in b.frames && b.frames[p.phys] == Data(Padded([])))
  }

  lemma ZerosReadTheSame(a: Mem, s: View, b: Mem, t: View)
    requires Core(a, s, {}, {}) && Core(b, t, {}, {}) && OnlyZerosAdded(a, s, b, t)
    ensures Laid(a, s, b, t, 0, [])
  {
    hide Core, ByteAt;
    forall x: nat | x < USER_END ensures ByteAt(b, t, x) == ByteAt(a, s, x) {
      ZeroByte(a, s, b, t, x);
    }
  }

  lemma ZeroByte(a: Mem, s: View, b: Mem, t: View, x: nat)
    requires Core(a, s, {}, {}) && Core(b, t, {}, {}) && OnlyZerosAdded(a, s, b, t) && x < USER_END
    ensures ByteAt(b, t, x) == ByteAt(a, s, x)
  {
    hide Core, LeafAt, VpnOf;
    if LeafAt(b, t, x).v {
      var p := LeafIsPage(b, t, x);
      if p in s.pages {
        LeafBoth(a, s, b, t, x, p);
      } else {
        if LeafAt(a, s, x).v {
          var q := LeafIsPage(a, s, x);
          OnePageOnly(b, t, p, q);
        }
        assert b.frames[p.phys].bytes[x % PAGE_SIZE] == 0;
      }
    } else {
      NoLeafBefore(a, s, b, t, x);
    }
  }

  lemma OnePageOnly(b: Mem, t: View, p: UserPage, q: UserPage)
    requires Core(b, t, {}, {}) && p in t.pages && q in t.pages && p.va == q.va
    ensures p == q
  {
    hide Core;
    if p != q { SamePageRecord(b, t, p, q); }
  }

  lemma LeafBoth(a: Mem, s: View, b: Mem, t: View, x: nat, p: UserPage)
    requires Core(a, s, {}, {}) && Core(b, t, {}, {}) && x < USER_END && LeafAt(b, t, x).v && p in s.pages
             && p in t.pages
    requires p.va == x - x % PAGE_SIZE && p.phys == LeafAt(b, t, x).ppn
    ensures LeafAt(a, s, x).v && LeafAt(a, s, x).ppn == p.phys
  {
    hide Leaves, TreeOk, MemOk, FramesApart, RecordsOk, VpnOf;
    UserAddress(x);
    var q :| q in t.pages && Leafy(q.flags) && VpnOf(q.va) == VpnOf(x);
    VpnInjective(q.va, p.va);
    OnePageOnly(b, t, p, q);
  }

  lemma NoLeafBefore(a: Mem, s: View, b: Mem, t: View, x: nat)
    requires Core(a, s, {}, {}) && Core(b, t, {}, {}) && x < USER_END && !LeafAt(b, t, x).v
             && forall p :: p in s.pages ==> p in t.pages
    ensures !LeafAt(a, s, x).v
  {
    hide Leaves, TreeOk, MemOk, FramesApart, RecordsOk, VpnOf, LedgerOk;
    LeavesAreValid(b.frames, t.shape);
    LeavesAreValid(a.frames, s.shape);
  }

  // ----- mapping zero pages

  ghost predicate HasPage(pages: seq<UserPage>, va: nat, flags: Flags) {
    exists p :: p in pages && p.va == va && p.flags == flags
  }

  /** Every page of the range is there. */
  ghost predicate AllPages(pages: seq<UserPage>, first: nat, end: nat, flags: Flags) {
    forall va: nat :: first <= va < end && va % PAGE_SIZE == 0 ==> HasPage(pages, va, flags)
  }

  lemma TrackZeros(a: Mem, s: View, b: Mem, t: View)
    requires Core(a, s, {}, {}) && Track(a, s, b, t, {}, {})
    requires t.pages == s.pages || (|t.pages| == |s.pages| + 1 && t.pages == s.pages + [t.pages[|s.pages|]])
    requires t.pages != s.pages ==>
               var p := t.pages[|s.pages|]; p.phys in b.frames && b.frames[p.phys] == Data(Padded([]))
    ensures Core(b, t, {}, {}) && Laid(a, s, b, t, 0, [])
  {
    hide Core, Conserves, ByteAt;
    LedgerFramesExist(a, s);
    assert forall p :: p in s.pages ==> p in t.pages;
    ZerosReadTheSame(a, s, b, t);
  }

  /** Valid again after a page was added inside an area, or an area was added. */
  lemma ValidGrown(b: Mem, s: View, t: View)
    requires AreasOk(s.areas) && Covered(s.areas, s.pages) && BrkOk(s.areas, s.brkBase, s.brkEnd)
    requires Core(b, t, {}, {}) && NoEmptyTable(b.frames, t.shape) && t.areas == s.areas && t.brkBase == s.brkBase
             && t.brkEnd == s.brkEnd
    requires forall p :: p in t.pages ==> p in s.pages || InArea(t.areas, p.va)
    ensures Valid(b, t)
  {
    hide Core, NoEmptyTable, AreasOk, BrkOk;
  }

  lemma ValidParts(b: Mem, s: View)
    requires Valid(b, s)
    ensures Core(b, s, {}, {}) && NoEmptyTable(b.frames, s.shape) && AreasOk(s.areas) && Covered(s.areas, s.pages)
            && BrkOk(s.areas, s.brkBase, s.brkEnd)
  {
  }

  /** Adds zero pages from `first` up to `end`, which lie in an area and are not mapped yet. */
  method MapZero(m: Memory, sp: AddressSpace, first: nat, end: nat, flags: Flags, ghost n: nat, ghost a: Mem)
    returns (ok: bool)
    requires Image(a, MemOf(m), sp.V()) && first % PAGE_SIZE == 0 && Leafy(flags) && end == first + n * PAGE_SIZE
    requires forall x: nat :: first <= x < end ==> InArea(sp.areas, x)
    requires forall p :: p in sp.pages ==> !(first <= p.va < end)
    modifies sp`pages, sp`shape, m
    ensures Image(a, MemOf(m), sp.V()) && Laid(old(MemOf(m)), old(sp.V()), MemOf(m), sp.V(), 0, [])
    ensures ok ==> AllPages(sp.pages, first, end, flags)
    ensures forall p :: p in old(sp.pages) ==> p in sp.pages
    ensures end <= USER_END && FlagsOk(flags) && |old(m.free)| >= 4 * n ==> ok
    ensures |m.free| + 4 * n >= |old(m.free)|
  {
    hide Founded, Valid, Track, Laid, Core, NoEmptyTable, AreasOk, Covered, BrkOk, Restored, InArea;
    ghost var b0, s0 := MemOf(m), sp.V();
    LaidNothing(b0, s0, 0);
    var address := first;
    ghost var i := 0;
    while address < end
      invariant first <= address && address % PAGE_SIZE == 0 && Image(a, MemOf(m), sp.V())
                && Laid(b0, s0, MemOf(m), sp.V(), 0, [])
      invariant AllPages(sp.pages, first, address, flags) && forall p :: p in sp.pages ==> !(address <= p.va < end)
      invariant forall p :: p in s0.pages ==> p in sp.pages
      invariant 0 <= i <= n && address == first + i * PAGE_SIZE && |m.free| + 4 * i >= |b0.free|
      decreases end - address
    {
      ghost var b, s := MemOf(m), sp.V();
      ValidParts(b, s);
      assert forall p :: p in sp.pages ==> p.va != address;
      ok := sp.AddPage(m, address, flags, []);
      ZeroStep(a, b, s, MemOf(m), sp.V(), address);
      LaidAfterNothing(b0, s0, b, s, MemOf(m), sp.V(), 0, [], 0);
      if !ok {
        return;
      }
      MorePages(s.pages, sp.pages, first, address, flags);
      address := address + PAGE_SIZE;
      i := i + 1;
    }
    ok := true;
  }

  lemma ZeroStep(a: Mem, b: Mem, s: View, c: Mem, t: View, address: nat)
    requires Image(a, b, s) && Track(b, s, c, t, {}, {}) && NoEmptyTable(c.frames, t.shape) && InArea(s.areas, address)
    requires t.areas == s.areas && t.brkBase == s.brkBase && t.brkEnd == s.brkEnd
    requires t.pages == s.pages || (|t.pages| == |s.pages| + 1 && t.pages == s.pages + [t.pages[|s.pages|]])
    requires t.pages != s.pages ==>
               var p := t.pages[|s.pages|];
                   p.va == address && p.phys in c.frames && c.frames[p.phys] == Data(Padded([]))
    ensures Image(a, c, t) && Laid(b, s, c, t, 0, [])
  {
    hide Founded, Valid, Laid, Core, NoEmptyTable, AreasOk, Covered, BrkOk, Conserves, KeptBytes;
    ValidParts(b, s);
    TrackZeros(b, s, c, t);
    ImageStep(a, b, s, c, t);
    ValidGrown(c, s, t);
  }

  lemma MorePages(s: seq<UserPage>, t: seq<UserPage>, first: nat, address: nat, flags: Flags)
    requires AllPages(s, first, address, flags) && address % PAGE_SIZE == 0
    requires |t| == |s| + 1 && t == s + [t[|s|]] && t[|s|].va == address && t[|s|].flags == flags
    ensures AllPages(t, first, address + PAGE_SIZE, flags)
  {
    assert t[|s|] in t;
    forall va: nat | first <= va < address + PAGE_SIZE && va % PAGE_SIZE == 0 ensures HasPage(t, va, flags) {
      if va < address {
        assert HasPage(s, va, flags);
        var p :| p in s && p.va == va && p.flags == flags;
        assert p in t;
      } else {
        assert va == address;
      }
    }
  }

  // ----- laying bytes into mapped pages

  /** A page with a leaf translates its addresses. */
  lemma PageTranslates(b: Mem, s: View, x: nat, flags: Flags)
    requires Core(b, s, {}, {}) && x < USER_END && Leafy(flags) && HasPage(s.pages, x - x % PAGE_SIZE, flags)
    ensures LeafAt(b, s, x).v && LeafAt(b, s, x).r == flags.r && LeafAt(b, s, x).w == flags.w
            && LeafAt(b, s, x).u == flags.u
  {
    hide Leaves, TreeOk, MemOk, FramesApart, RecordsOk, VpnOf, LedgerOk;
    UserAddress(x);
    var p :| p in s.pages && p.va == x - x % PAGE_SIZE && p.flags == flags;
  }

  /** Copies file bytes to their place, through the page table but without a permission check. */
  method CopyIn(m: Memory, sp: AddressSpace, address: nat, data: seq<Byte>, flags: Flags, first: nat, end: nat,
                ghost a: Mem) returns (ok: bool)
    requires Image(a, MemOf(m), sp.V()) && Leafy(flags) && AllPages(sp.pages, first, end, flags)
    requires first % PAGE_SIZE == 0 && first <= address && address + |data| <= end <= USER_END
    modifies m`frames
    ensures ok && Image(a, MemOf(m), sp.V()) && Laid(old(MemOf(m)), sp.V(), MemOf(m), sp.V(), address, data)
  {
    hide Founded, Valid, Laid, Core, AllPages, Conserves, Overlaid, NoEmptyTable, LeafAt;
    ghost var b0, s := MemOf(m), sp.V();
    LaidNothing(b0, s, address);
    var at: nat, left: nat := address, |data|;
    assert data[..0] == [];
    while left > 0
      invariant at + left == address + |data| && sp.V() == s && at >= address
      invariant Image(a, MemOf(m), s) && Laid(b0, s, MemOf(m), s, address, data[..at - address])
      decreases left
    {
      ghost var b := MemOf(m);
      ValidParts(b, s);
      PageIn(b, s, first, end, flags, at);
      var part := Part(at, left);
      var found, f := LookUp(m, sp, at);
      if !found {
        return false;
      }
      var chunk := data[at - address..at - address + part];
      PutChunk(m, sp, at, chunk, f);
      OverlaidLaid(b, MemOf(m), s, at, chunk);
      LaidMore(b0, s, b, s, MemOf(m), s, address, data[..at - address], chunk);
      assert data[..at - address] + chunk == data[..at - address + part];
      WriteStep(a, b, s, MemOf(m));
      at := at + part;
      left := left - part;
    }
    assert data[..|data|] == data;
    ok := true;
  }

  /** The frame an address translates to. */
  method LookUp(m: Memory, sp: AddressSpace, address: nat) returns (found: bool, f: Frame)
    requires Core(MemOf(m), sp.V(), {}, {}) && address < USER_END
    ensures found <==> LeafAt(MemOf(m), sp.V(), address).v
    ensures found ==> f == LeafAt(MemOf(m), sp.V(), address).ppn
  {
    MemParts(MemOf(m), sp.V(), {}, {});
    UserAddress(address);
    var entry;
    found, entry := Query(m, sp.root, address, USER_SLOTS, sp.shape);
    LeavesAreValid(m.frames, sp.shape);
    f := entry.ppn;
  }

  lemma PageIn(b: Mem, s: View, first: nat, end: nat, flags: Flags, x: nat)
    requires Core(b, s, {}, {}) && Leafy(flags) && AllPages(s.pages, first, end, flags) && first % PAGE_SIZE == 0
             && first <= x < end <= USER_END
    ensures LeafAt(b, s, x).v
  {
    hide Core, LeafAt;
    assert first <= x - x % PAGE_SIZE;
    PageTranslates(b, s, x, flags);
  }

  lemma WriteStep(a: Mem, b: Mem, s: View, c: Mem)
    requires Image(a, b, s) && Core(c, s, {}, {}) && Conserves(b, s, {}, {}, c, s, {}, {})
    requires NoEmptyTable(b.frames, s.shape) ==> NoEmptyTable(c.frames, s.shape)
    ensures Image(a, c, s)
  {
    hide Core, Founded, Conserves, NoEmptyTable, AreasOk, Covered, BrkOk;
    ImageStep(a, b, s, c, s);
  }
}
