/** User address spaces: reservations, owned pages and translations, kept in agreement. */
module AddressSpaces {
  import opened Common
  import opened Physical
  import opened PageTable
  import opened Vm
  import opened VmUser
  import opened Heap
  import opened Space
  import opened SpaceSteps
  import opened SpaceOps
  import opened UserView
  import opened Neutral
  import opened Areas

  const USER_PAGE_SIZE := 40
  const VM_AREA_SIZE := 48

  /** A page that starts with `data` and is zero from there on. */
  function Padded(data: seq<Byte>): (r: seq<Byte>)
    requires |data| <= PAGE_SIZE
    ensures |r| == PAGE_SIZE && r[..|data|] == data && forall i :: |data| <= i < PAGE_SIZE ==> r[i] == 0
  {
    data + seq(PAGE_SIZE - |data|, _ => 0)
  }

  /** What fills a new mapping: nothing, or the bytes of a file. */
  datatype Source = Zeroes | FromFile(bytes: seq<Byte>)

  /** The file bytes that a page starting at offset `at` can take; short at the end of the file. */
  function PageSlice(bytes: seq<Byte>, at: nat): (r: seq<Byte>)
    ensures |r| <= PAGE_SIZE
  {
    if at >= |bytes| then [] else if |bytes| - at > PAGE_SIZE then bytes[at..at + PAGE_SIZE] else bytes[at..]
  }

  /** A private snapshot of one page of the source, zero beyond its end. */
  function Snapshot(src: Source, at: nat): (r: seq<Byte>)
    ensures |r| == PAGE_SIZE
    ensures forall i :: 0 <= i < PAGE_SIZE ==>
                          r[i] == if src.FromFile? && at + i < |src.bytes| then src.bytes[at + i] else 0
  {
    match src
    case Zeroes => Padded([])
    case FromFile(bytes) => Padded(PageSlice(bytes, at))
  }

  ghost predicate PageIs(frames: Frames, p: UserPage, va: nat, flags: Flags, bytes: seq<Byte>) {
    p.va == va && p.flags == flags && p.phys in frames && frames[p.phys] == Data(bytes)
  }

  /** From index `base` on, the ledger holds `n` consecutive pages starting at `start`, filled from `src`. */
  ghost predicate Populated(frames: Frames, pages: seq<UserPage>, base: nat, start: nat, n: nat, flags: Flags,
                            src: Source, offset: nat) {
    && |pages| == base + n
    && forall i: nat ::
         i < n ==> PageIs(frames, pages[base + i], start + i * PAGE_SIZE, flags, Snapshot(src, offset + i * PAGE_SIZE))
  }

  lemma PopulatedNext(a: Frames, b: Frames, pages: seq<UserPage>, page: UserPage, base: nat, start: nat, n: nat,
                      flags: Flags, src: Source, offset: nat)
    requires Populated(a, pages, base, start, n, flags, src, offset)
    requires forall p :: p in pages ==> p.phys in a && p.phys in b && a[p.phys] == b[p.phys]
    requires PageIs(b, page, start + n * PAGE_SIZE, flags, Snapshot(src, offset + n * PAGE_SIZE))
    ensures Populated(b, pages + [page], base, start, n + 1, flags, src, offset)
  {
    hide Snapshot;
    forall i: nat | i < n + 1
      ensures PageIs(b, (pages + [page])[base + i], start + i * PAGE_SIZE, flags,
                     Snapshot(src, offset + i * PAGE_SIZE)) {
      if i < n {
        assert pages[base + i] in pages;
      }
    }
  }

  /** The records whose page lies outside [start, end), in order. */
  function Outside(pages: seq<UserPage>, start: nat, end: nat): (r: seq<UserPage>)
    ensures forall p :: p in r <==> p in pages && !(start <= p.va < end)
  {
    if pages == [] then []
    else
      var n := |pages| - 1;
      assert pages == pages[..n] + [pages[n]];
      Outside(pages[..n], start, end) + (if start <= pages[n].va < end then [] else [pages[n]])
  }

  lemma OutsideStep(pages: seq<UserPage>, start: nat, end: nat)
    requires pages != []
    ensures var n := |pages| - 1;
            Outside(pages, start, end)
              == Outside(pages[..n], start, end) + (if start <= pages[n].va < end then [] else [pages[n]])
  {
  }

  lemma {:induction false} OutsideAll(pages: seq<UserPage>, start: nat, end: nat)
    requires forall i :: 0 <= i < |pages| ==> !(start <= pages[i].va < end)
    ensures Outside(pages, start, end) == pages
  {
    hide Outside;
    if pages == [] {
      OutsideNone(start, end);
    } else {
      var n := |pages| - 1;
      OutsideStep(pages, start, end);
      OutsideAll(pages[..n], start, end);
      assert pages == pages[..n] + [pages[n]];
    }
  }

  lemma OutsideNone(start: nat, end: nat)
    ensures Outside([], start, end) == []
  {
  }

  /** Adding records inside the range to a ledger outside it, and sifting, gives the ledger back. */
  lemma {:induction false} OutsideUndo(before: seq<UserPage>, pages: seq<UserPage>, start: nat, end: nat)
    requires |before| <= |pages| && pages[..|before|] == before
    requires forall p :: p in before ==> !(start <= p.va < end)
    requires forall i :: |before| <= i < |pages| ==> start <= pages[i].va < end
    ensures Outside(pages, start, end) == before
  {
    if |pages| == |before| {
      assert pages == before;
      OutsideAll(before, start, end);
    } else {
      var n := |pages| - 1;
      assert pages[..n][..|before|] == before;
      OutsideUndo(before, pages[..n], start, end);
    }
  }

  /** `now` is `before` with its first `k` records sifted, `i` of which stayed. */
  ghost predicate Sifted(before: seq<UserPage>, k: nat, now: seq<UserPage>, i: nat, start: nat, end: nat) {
    && k <= |before| && i == |Outside(before[..k], start, end)|
    && now == Outside(before[..k], start, end) + before[k..]
  }

  lemma SiftStart(before: seq<UserPage>, start: nat, end: nat)
    ensures Sifted(before, 0, before, 0, start, end)
  {
    assert before[..0] == [] && before[0..] == before;
  }

  lemma SiftNext(before: seq<UserPage>, k: nat, now: seq<UserPage>, i: nat, start: nat, end: nat)
    requires Sifted(before, k, now, i, start, end) && i < |now|
    ensures k < |before|
    ensures !(start <= now[i].va < end) ==> Sifted(before, k + 1, now, i + 1, start, end)
    ensures start <= now[i].va < end ==> Sifted(before, k + 1, WithoutPage(now, i), i, start, end)
  {
    assert now[i] == before[k];
    assert before[..k + 1][..k] == before[..k] && before[k..] == [before[k]] + before[k + 1..];
  }

  lemma SiftEnd(before: seq<UserPage>, k: nat, now: seq<UserPage>, i: nat, start: nat, end: nat)
    requires Sifted(before, k, now, i, start, end) && i == |now|
    ensures now == Outside(before, start, end)
  {
    assert before[..k] == before;
  }

  lemma TrackCompose(a: Mem, s: View, b: Mem, t: View, c: Mem, u: View)
    requires Track(a, s, b, t, {}, {}) && Track(b, t, c, u, {}, {})
    requires forall p :: p in s.pages && p in u.pages ==> p in t.pages
    ensures Track(a, s, c, u, {}, {})
  {
    hide Core, Conserves;
    ConservesTransitive(a, s, {}, {}, b, t, {}, {}, c, u, {}, {});
  }

  const HEAP_BASE := 0x80_0000
  const MMAP_BASE := 0x1000_0000
  const MMAP_END := 0x2000_0000
  const MAX_MAPPING := 0x100_0000

  datatype Errno = EPERM | EBADF | ENOMEM | EEXIST | EINVAL
  datatype Result = Ok(value: nat) | Err(errno: Errno)

  /** Protection and mapping flag words; `other` stands for any unknown bit. */
  datatype Prot = Prot(read: bool, write: bool, exec: bool, other: bool)
  datatype MapFlags = MapFlags(priv: bool, anon: bool, fixed: bool, other: bool)

  /** The open file behind a mapping request, as far as mmap looks at it. */
  datatype FileView = NoFile | FileView(regular: bool, writeOnly: bool, bytes: seq<Byte>)

  /** The heap area is exactly [brkBase, RoundUp(brkEnd)), and absent when that is empty. */
  ghost predicate BrkOk(areas: seq<Area>, brkBase: nat, brkEnd: nat) {
    && brkBase == HEAP_BASE && brkBase <= brkEnd <= brkBase + MAX_MAPPING
    && (forall a :: a in areas && a.kind == HEAP ==> a.start == brkBase && a.end == RoundUp(brkEnd))
    && (RoundUp(brkEnd) != brkBase ==> exists a :: a in areas && a.kind == HEAP)
  }

  /** Everything that holds of an address space between operations. */
  ghost predicate Valid(mem: Mem, sp: View) {
    && Core(mem, sp, {}, {}) && NoEmptyTable(mem.frames, sp.shape)
    && AreasOk(sp.areas) && Covered(sp.areas, sp.pages) && BrkOk(sp.areas, sp.brkBase, sp.brkEnd)
  }

  predicate InWindow(at: nat, length: nat) {
    MMAP_BASE <= at && at + length <= MMAP_END
  }

  predicate Fits(areas: seq<Area>, at: nat, length: nat) {
    InWindow(at, length) && VacantIn(areas, at, at + length)
  }

  /** Where a mapping goes: at the requested address if it fits, else at the lowest place that does. */
  ghost predicate Placed(areas: seq<Area>, address: nat, length: nat, at: nat) {
    && at % PAGE_SIZE == 0 && Fits(areas, at, length)
    && (Fits(areas, address, length) ==> at == address)
    && (!Fits(areas, address, length) ==> NoneBelow(areas, at, length))
  }

  ghost predicate NoneBelow(areas: seq<Area>, at: nat, length: nat) {
    forall w: nat :: w < at && w % PAGE_SIZE == 0 ==> !Fits(areas, w, length)
  }

  function ProtFlags(prot: Prot): Flags {
    Flags(prot.read, prot.write, prot.exec, true, false, false)
  }

  function SourceOf(how: MapFlags, file: FileView): Source {
    if how.anon || file.NoFile? then Zeroes else FromFile(file.bytes)
  }

  /** The ledger gained exactly the pages of [at, end), in order, filled from the source. */
  ghost predicate Mapping(frames: Frames, before: seq<UserPage>, pages: seq<UserPage>, at: nat, end: nat, flags: Flags,
                          src: Source, offset: nat)
  {
    && |before| <= |pages| && pages[..|before|] == before && at <= end
    && |pages| - |before| == (end - at) / PAGE_SIZE
    && Populated(frames, pages, |before|, at, |pages| - |before|, flags, src, offset)
  }

  class AddressSpace {
    var root: Frame
    var pages: seq<UserPage>
    var areas: seq<Area>
    var brkBase: nat
    var brkEnd: nat
    ghost var shape: Shape

    ghost function V(): View
      reads this
    {
      View(root, pages, areas, brkBase, brkEnd, shape)
    }

    /** Gives the address space one zero-filled page that starts with `data`.
        A failure at any allocation leaves the ledger as it was. */
    method AddPage(m: Memory, address: nat, flags: Flags, data: seq<Byte>) returns (ok: bool)
      requires Core(MemOf(m), V(), {}, {}) && NoEmptyTable(m.frames, shape)
      requires forall p :: p in pages && p.va == address ==> Leafy(p.flags) && Leafy(flags)
      modifies this`pages, this`shape, m
      ensures Track(old(MemOf(m)), old(V()), MemOf(m), V(), {}, {}) && NoEmptyTable(m.frames, shape)
      ensures !ok ==> pages == old(pages) && Restored(old(MemOf(m)), old(V()), MemOf(m), V())
      ensures ok ==>
                && VaOk(address) && flags.u && |data| <= PAGE_SIZE
                && |pages| == |old(pages)| + 1 && pages == old(pages) + [pages[|old(pages)|]]
                && (forall p :: p in old(pages) ==> p.va != address)
                && var page := pages[|old(pages)|];
                && page.va == address && page.flags == flags
                && page.phys in m.frames && m.frames[page.phys] == Data(Padded(data))
      ensures (&& |old(m.free)| >= 4 && VaOk(address) && flags.u && |data| <= PAGE_SIZE
               && (Leafy(flags) ==> ValidLeafFlags(flags)) && (forall p :: p in old(pages) ==> p.va != address)) ==> ok
      ensures |m.free| + 4 >= |old(m.free)|
    {
      hide Core, Conserves, NoEmptyTable, Leaves, TreeOk, Ready, Step, Track, FreeOk, HeapOk, Live, Slabs, Restored;
      ghost var a, s := MemOf(m), V();
      TrackStart(a, s);
      RestoredFrom(a, s, a, s);
      if address >= USER_END || address % PAGE_SIZE != 0 || !flags.u || |data| > PAGE_SIZE {
        return false;
      }
      var rec := TakeRecord(m, USER_PAGE_SIZE, a, s, s, {}, {});
      if rec == Null {
        return false;
      }
      var phys := TakeFrame(m, a, s, s, {}, {} + {rec});
      if phys == 0 {
        DropRecord(m, rec, a, s, s, {}, {} + {rec});
        assert {} + {rec} - {rec} == {};
        RestoredFrom(a, s, MemOf(m), V());
        return false;
      }
      assert {} + {rec} == {rec} && {} + {phys} == {phys};
      FillFrame(m, phys, Padded(data), a, s, s, {phys}, {rec});
      ok := Install(m, address, flags, rec, phys, a, s);
      if !ok {
        DropFrame(m, phys, a, s, V(), {phys}, {rec});
        assert {phys} - {phys} == {};
        DropRecord(m, rec, a, s, V(), {}, {rec});
        assert {rec} - {rec} == {};
        shape := Prune(m, root, a, s, V(), {}, {});
        RestoredFrom(a, s, MemOf(m), V());
      }
    }

    /** Maps a held page and publishes its record; a page without R and X is only recorded. */
    method Install(m: Memory, address: nat, flags: Flags, rec: Ptr, phys: Frame, ghost a: Mem, ghost s: View)
      returns (ok: bool)
      requires s == V() && Track(a, s, MemOf(m), s, {phys}, {rec}) && NoEmptyTable(m.frames, shape) && VaOk(address)
               && flags.u && IsDataPage(m.frames, phys)
      requires forall p :: p in pages && p.va == address ==> Leafy(p.flags) && Leafy(flags)
      modifies this`pages, this`shape, m`frames, m`free
      ensures !ok ==> pages == old(pages) && Track(a, s, MemOf(m), V(), {phys}, {rec})
      ensures ok ==>
                && pages == old(pages) + [UserPage(rec, address, phys, flags)]
                && Track(a, s, MemOf(m), V(), {}, {}) && NoEmptyTable(m.frames, shape)
                && (forall p :: p in old(pages) ==> p.va != address)
                && phys in m.frames && m.frames[phys] == old(m.frames[phys])
      ensures (|old(m.free)| >= 2 && (Leafy(flags) ==> ValidLeafFlags(flags))
               && (forall p :: p in old(pages) ==> p.va != address)) ==> ok
      ensures |m.free| + 2 >= |old(m.free)|
    {
      hide Core, Conserves, NoEmptyTable, Leaves, TreeOk, Ready, Step, Track, FreeOk, HeapOk, Live, Slabs, LeavesMatch,
           LedgerOk, SameBytes;
      ghost var b := MemOf(m);
      TrackCore(a, s, b, s, {phys}, {rec});
      MemParts(b, s, {phys}, {rec});
      VpnOfUser(address);
      LeafIffRecorded(b, s, {phys}, {rec}, address);
      ghost var s' := shape;
      if Leafy(flags) {
        ok, s' := Vm.Map(m, root, address, phys, flags, USER_SLOTS, shape);
        if !ok {
          AfterQuietTableStep(b, MemOf(m), s, s', {phys}, {rec});
          TrackStep(a, s, b, s, {phys}, {rec}, MemOf(m), s.(shape := s'), {phys}, {rec});
          shape := s';
          return;
        }
      } else {
        StepReflexive(m.frames, m.free, shape, USER_SLOTS);
      }
      ok := true;
      ghost var page := UserPage(rec, address, phys, flags);
      Publish(b, MemOf(m), s, s', {phys}, {rec}, page);
      assert {phys} - {phys} == {} && {rec} - {rec} == {};
      ghost var t := WithPage(s, page, s');
      LastBytes(b, MemOf(m), s.pages, page);
      TrackStep(a, s, b, s, {phys}, {rec}, MemOf(m), t, {}, {});
      pages := pages + [UserPage(rec, address, phys, flags)];
      shape := s';
    }

    method Vacant(start: nat, end: nat) returns (ok: bool)
      ensures ok <==> VacantIn(areas, start, end)
    {
      var i := 0;
      while i < |areas|
        invariant 0 <= i <= |areas| && forall a :: a in areas[..i] ==> Apart(a, start, end)
      {
        if start < areas[i].end && areas[i].start < end {
          assert areas[i] in areas && !Apart(areas[i], start, end);
          return false;
        }
        i := i + 1;
      }
      assert areas[..i] == areas;
      return true;
    }

    /** Reserves a vacant range; only the bookkeeping record is allocated. */
    method Reserve(m: Memory, start: nat, end: nat, flags: Flags, kind: Kind) returns (ok: bool)
      requires Core(MemOf(m), V(), {}, {}) && NoEmptyTable(m.frames, shape)
      modifies this`areas, m
      ensures Track(old(MemOf(m)), old(V()), MemOf(m), V(), {}, {}) && NoEmptyTable(m.frames, shape)
      ensures !ok ==> areas == old(areas) && Restored(old(MemOf(m)), old(V()), MemOf(m), V())
      ensures ok ==>
                && RangeOk(start, end) && VacantIn(old(areas), start, end)
                && |areas| == |old(areas)| + 1 && areas == old(areas) + [areas[|old(areas)|]]
                && areas[|old(areas)|] == Area(areas[|old(areas)|].rec, start, end, flags, kind)
      ensures RangeOk(start, end) && VacantIn(old(areas), start, end) && |old(m.free)| >= 1 ==> ok
      ensures |m.free| + 1 >= |old(m.free)|
    {
      hide Core, Conserves, NoEmptyTable, Track, Restored;
      ghost var a, s := MemOf(m), V();
      TrackStart(a, s);
      RestoredFrom(a, s, a, s);
      if !RangeOk(start, end) {
        return false;
      }
      var free := Vacant(start, end);
      if !free {
        return false;
      }
      var rec := TakeRecord(m, VM_AREA_SIZE, a, s, s, {}, {});
      if rec == Null {
        return false;
      }
      ghost var b := MemOf(m);
      var area := Area(rec, start, end, flags, kind);
      assert {} + {rec} - {rec} == {};
      PublishArea(a, s, b, s, {}, {} + {rec}, area);
      areas := areas + [area];
      ok := true;
    }

    /** Adds the next page of a mapping and fills it from the source. */
    method AddFilled(m: Memory, at: nat, flags: Flags, src: Source, from: nat, ghost start: nat, ghost n: nat,
                     ghost base: nat, ghost offset: nat,
                     ghost a: Mem, ghost s: View) returns (ok: bool)
      requires Track(a, s, MemOf(m), V(), {}, {}) && NoEmptyTable(m.frames, shape)
      requires VaOk(at) && flags.u && (forall p :: p in pages ==> p.va != at)
      requires at == start + n * PAGE_SIZE && from == offset + n * PAGE_SIZE
      requires base == |s.pages| <= |pages| && pages[..base] == s.pages
      requires Populated(m.frames, pages, base, start, n, flags, src, offset)
      modifies this`pages, this`shape, m
      ensures Track(a, s, MemOf(m), V(), {}, {}) && NoEmptyTable(m.frames, shape)
      ensures !ok ==> pages == old(pages) && Populated(m.frames, pages, base, start, n, flags, src, offset)
      ensures ok ==>
                |pages| == |old(pages)| + 1 && pages == old(pages) + [pages[|old(pages)|]]
                && pages[|old(pages)|].va == at
      ensures ok ==> Populated(m.frames, pages, base, start, n + 1, flags, src, offset)
      ensures |old(m.free)| >= 4 && (Leafy(flags) ==> ValidLeafFlags(flags)) ==> ok
      ensures |m.free| + 4 >= |old(m.free)| && (!ok ==> |m.free| == |old(m.free)|)
    {
      hide Core, Conserves, NoEmptyTable, Track, Restored, Populated, Leaves, Live, LiveIn, Slabs, Snapshot;
      ghost var b, t := MemOf(m), V();
      TrackCore(a, s, b, t, {}, {});
      ok := AddPage(m, at, flags, []);
      ghost var c, u := MemOf(m), V();
      TrackCompose(a, s, b, t, c, u);
      TrackedBytes(b, t, c, u);
      if !ok {
        RestoredCount(b, t, c, u);
        PopulatedKept(b.frames, c.frames, pages, base, start, n, flags, src, offset);
        return;
      }
      var page := pages[|pages| - 1];
      FillLast(m, page.phys, src, from);
      FilledStep(a, s, b, t, c, u, MemOf(m), page, base, start, n, flags, src, offset);
    }

    /** Copies the source's bytes into a page of zeros. */
    method FillLast(m: Memory, phys: Frame, src: Source, from: nat)
      requires phys in m.frames && m.frames[phys] == Data(Padded([]))
      modifies m`frames
      ensures m.frames == old(m.frames)[phys := Data(Snapshot(src, from))]
    {
      hide Snapshot, PageSlice;
      SnapshotIs(src, from);
      if src.FromFile? {
        var bytes := PageSlice(src.bytes, from);
        FilledPage(bytes);
        m.frames := m.frames[phys := Data(bytes + m.frames[phys].bytes[|bytes|..])];
      } else {
        assert m.frames == m.frames[phys := m.frames[phys]];
      }
    }

    /** Fills the vacant range [start, end) with consecutive pages; stops at the first failure. */
    method Populate(m: Memory, start: nat, end: nat, flags: Flags, src: Source, offset: nat) returns (ok: bool)
      requires Core(MemOf(m), V(), {}, {}) && NoEmptyTable(m.frames, shape)
      requires start % PAGE_SIZE == 0 && end % PAGE_SIZE == 0 && start <= end <= USER_END && flags.u
      requires forall p :: p in pages ==> !(start <= p.va < end)
      modifies this`pages, this`shape, m
      ensures Track(old(MemOf(m)), old(V()), MemOf(m), V(), {}, {}) && NoEmptyTable(m.frames, shape)
      ensures |old(pages)| <= |pages| && pages[..|old(pages)|] == old(pages)
      ensures Populated(m.frames, pages, |old(pages)|, start, |pages| - |old(pages)|, flags, src, offset)
      ensures |pages| - |old(pages)| <= (end - start) / PAGE_SIZE
      ensures ok ==> |pages| - |old(pages)| == (end - start) / PAGE_SIZE
      ensures (Leafy(flags) ==> ValidLeafFlags(flags)) && |old(m.free)| >= 4 * ((end - start) / PAGE_SIZE) ==> ok
      ensures |m.free| + 4 * (|pages| - |old(pages)|) >= |old(m.free)|
    {
      hide Core, Conserves, NoEmptyTable, Track, Restored, Populated, Snapshot, Padded, PageSlice;
      ghost var a, s := MemOf(m), V();
      TrackStart(a, s);
      NothingPopulated(m.frames, pages, start, flags, src, offset);
      var at := start;
      ghost var n := 0;
      while at < end
        invariant at == start + n * PAGE_SIZE && at <= end && n == |pages| - |s.pages| && n <= (end - start) / PAGE_SIZE
        invariant Track(a, s, MemOf(m), V(), {}, {}) && NoEmptyTable(m.frames, shape)
        invariant |s.pages| <= |pages| && pages[..|s.pages|] == s.pages
        invariant Populated(m.frames, pages, |s.pages|, start, n, flags, src, offset)
        invariant forall p :: p in pages ==> !(at <= p.va < end)
        invariant |m.free| + 4 * n >= |a.free|
        decreases end - at
      {
        TrackCore(a, s, MemOf(m), V(), {}, {});
        ok := AddFilled(m, at, flags, src, offset + (at - start), start, n, |s.pages|, offset, a, s);
        if !ok {
          return;
        }
        at := at + PAGE_SIZE;
        n := n + 1;
      }
      ok := true;
    }

    /** The place for a mapping that is not fixed; 0 if there is none. */
    method Place(address: nat, length: nat) returns (at: nat)
      requires address % PAGE_SIZE == 0 && 0 < length <= MAX_MAPPING && length % PAGE_SIZE == 0
      ensures at != 0 ==> Placed(areas, address, length, at)
      ensures at == 0 ==> NoneBelow(areas, MMAP_END, length)
    {
      if MMAP_BASE <= address && address <= MMAP_END - length {
        var free := Vacant(address, address + length);
        if free {
          return address;
        }
      }
      at := MMAP_BASE;
      while at <= MMAP_END - length
        invariant at % PAGE_SIZE == 0 && NoneBelow(areas, at, length) && MMAP_BASE <= at <= MMAP_END
        decreases MMAP_END - at
      {
        var free := Vacant(at, at + length);
        if free {
          return;
        }
        NoneBelowNext(areas, at, length);
        at := at + PAGE_SIZE;
      }
      NoneBelowEnd(areas, at, length);
      return 0;
    }

    /** Drops area `n` and frees its record. */
    method DropArea(m: Memory, n: nat, ghost a: Mem, ghost s: View)
      requires Track(a, s, MemOf(m), V(), {}, {}) && NoEmptyTable(m.frames, shape) && n < |areas|
      modifies this`areas, m
      ensures Track(a, s, MemOf(m), V(), {}, {}) && NoEmptyTable(m.frames, shape)
      ensures areas == WithoutArea(old(areas), n)
    {
      hide Core, Conserves, NoEmptyTable, Track;
      var rec := areas[n].rec;
      WithdrawArea(a, s, MemOf(m), V(), n);
      areas := areas[..n] + areas[n + 1..];
      DropRecord(m, rec, a, s, V(), {}, {} + {rec});
      assert {} + {rec} - {rec} == {};
    }

    /** Reserves and fills a vacant range, or rolls everything back. */
    method MapAt(m: Memory, at: nat, end: nat, flags: Flags, kind: Kind, src: Source, offset: nat) returns (ok: bool)
      requires Valid(MemOf(m), V()) && RangeOk(at, end) && VacantIn(areas, at, end) && flags.u && kind != HEAP
      modifies this`pages, this`areas, this`shape, m
      ensures Valid(MemOf(m), V()) && Track(old(MemOf(m)), old(V()), MemOf(m), V(), {}, {})
      ensures !ok ==> pages == old(pages) && areas == old(areas) && Restored(old(MemOf(m)), old(V()), MemOf(m), V())
      ensures ok ==>
                && Mapping(m.frames, old(pages), pages, at, end, flags, src, offset)
                && |areas| == |old(areas)| + 1 && areas == old(areas) + [areas[|old(areas)|]]
                && areas[|old(areas)|] == Area(areas[|old(areas)|].rec, at, end, flags, kind)
      ensures (Leafy(flags) ==> ValidLeafFlags(flags)) && |old(m.free)| >= 4 * ((end - at) / PAGE_SIZE) + 1 ==> ok
    {
      hide Core, Conserves, NoEmptyTable, Track, Restored, AreasOk, Covered, BrkOk, Populated, Mapping;
      ghost var a, s := MemOf(m), V();
      TrackStart(a, s);
      RestoredFrom(a, s, a, s);
      ok := Reserve(m, at, end, flags, kind);
      TrackCore(a, s, MemOf(m), V(), {}, {});
      if !ok {
        return;
      }
      ghost var b, t := MemOf(m), V();
      VacantHasNoPages(s.areas, s.pages, at, end);
      ok := Populate(m, at, end, flags, src, offset);
      ghost var c, u := MemOf(m), V();
      TrackCompose(a, s, b, t, c, u);
      TrackCore(a, s, c, u, {}, {});
      AreasOkPlus(s.areas, t.areas[|s.areas|]);
      BrkOkPlus(s.areas, t.areas[|s.areas|], brkBase, brkEnd);
      if ok {
        MappingDone(c.frames, s.areas, t.areas[|s.areas|], s.pages, u.pages, at, end, flags, src, offset);
      } else {
        PopulatedInside(c.frames, s.pages, u.pages, at, end, flags, src, offset);
        OutsideUndo(s.pages, u.pages, at, end);
        RemovePages(m, at, end);
        TrackCompose(a, s, c, u, MemOf(m), V());
        DropArea(m, |areas| - 1, a, s);
        assert areas == s.areas;
        TrackCore(a, s, MemOf(m), V(), {}, {});
        RestoredFrom(a, s, MemOf(m), V());
      }
    }

    /** Maps private memory.  A refused or failed request changes nothing. */
    method Mmap(m: Memory, address: nat, length: nat, prot: Prot, how: MapFlags, file: FileView, offset: nat)
      returns (r: Result)
      requires Valid(MemOf(m), V())
      modifies this`pages, this`areas, this`shape, m
      ensures Valid(MemOf(m), V()) && Track(old(MemOf(m)), old(V()), MemOf(m), V(), {}, {})
      ensures var size := RoundUp(length);
              var improper := length == 0 || length > MAX_MAPPING || prot.other || (prot.write && !prot.read)
                              || (prot.write && prot.exec) || !how.priv || how.other || offset % PAGE_SIZE != 0
                              || (how.anon && offset != 0);
              var fileless := !how.anon && (file.NoFile? || !file.regular || file.writeOnly);
              var misplaced := offset + size >= WORD64 || address % PAGE_SIZE != 0
                               || (how.fixed && (address < MMAP_BASE || address + size > MMAP_END));
              && (r == Err(EINVAL) <==> improper || (!fileless && misplaced))
              && (r == Err(EBADF) <==> !improper && fileless)
              && (r == Err(EEXIST) <==>
                    && !improper && !fileless && !misplaced && how.fixed
                    && !VacantIn(old(areas), address, address + size))
              && r != Err(EPERM)
      ensures r.Err? ==> pages == old(pages) && areas == old(areas) && Restored(old(MemOf(m)), old(V()), MemOf(m), V())
      ensures r.Ok? ==>
                forall x: nat :: r.value <= x < r.value + RoundUp(length) ==>
                  && (Accessible(MemOf(m), V(), x, false) <==> prot.read)
                  && (Accessible(MemOf(m), V(), x, true) <==> prot.write)
                  && (Executable(MemOf(m), V(), x) <==> prot.exec)
                  && (prot.read || prot.exec ==>
                        ByteAt(MemOf(m), V(), x) ==
                          if !how.anon && offset + (x - r.value) < |file.bytes| then file.bytes[offset + (x - r.value)]
                          else 0)
      ensures forall x: nat ::
                x < USER_END && (r.Err? || x < r.value || x >= r.value + RoundUp(length)) ==>
                  SeenSame(old(MemOf(m)), old(V()), MemOf(m), V(), x)
      ensures r.Ok? ==>
                var end := r.value + RoundUp(length);
                && Placed(old(areas), address, RoundUp(length), r.value)
                && Mapping(m.frames, old(pages), pages, r.value, end, ProtFlags(prot), SourceOf(how, file), offset)
                && |areas| == |old(areas)| + 1 && areas == old(areas) + [areas[|old(areas)|]]
                && areas[|old(areas)|]
                     == Area(areas[|old(areas)|].rec, r.value, end, ProtFlags(prot), if how.anon then ANON else FILE)
      ensures r == Err(ENOMEM) ==>
                || NoneBelow(old(areas), MMAP_END, RoundUp(length))
                || |old(m.free)| < 4 * (RoundUp(length) / PAGE_SIZE) + 1
    {
      hide Core, Conserves, NoEmptyTable, Track, Restored, AreasOk, Covered, BrkOk, Mapping, NoneBelow, Accessible,
           ByteAt,
           Executable, SeenSame, ShownAt, SourceOf;
      ghost var a, s := MemOf(m), V();
      TrackStart(a, s);
      RestoredFrom(a, s, a, s);
      NothingChanged(a, s, a, s);
      if || length == 0 || length > MAX_MAPPING || prot.other || (prot.write && !prot.read) || (prot.write && prot.exec)
         || !how.priv || how.other || offset % PAGE_SIZE != 0 || (how.anon && offset != 0) {
        return Err(EINVAL);
      }
      if !how.anon && (file.NoFile? || !file.regular || file.writeOnly) {
        return Err(EBADF);
      }
      var size := RoundUp(length);
      if offset > WORD64 - 1 - size {
        return Err(EINVAL);
      }
      if address % PAGE_SIZE != 0 {
        return Err(EINVAL);
      }
      var at := address;
      if how.fixed {
        if address < MMAP_BASE || address > MMAP_END - size {
          return Err(EINVAL);
        }
        var free := Vacant(address, address + size);
        if !free {
          return Err(EEXIST);
        }
      } else {
        at := Place(address, size);
        if at == 0 {
          return Err(ENOMEM);
        }
      }
      var ok := MapAt(m, at, at + size, ProtFlags(prot), if how.anon then ANON else FILE, SourceOf(how, file), offset);
      r := if ok then Ok(at) else Err(ENOMEM);
      if ok {
        MappingSeen(a, s, MemOf(m), V(), at, at + size, ProtFlags(prot), SourceOf(how, file), offset);
        RequestShown(MemOf(m), V(), at, at + size, prot, how, file, offset);
      } else {
        NothingChanged(a, s, MemOf(m), V());
      }
    }

    /** Takes record `n` out of the ledger: its leaf, its page and the record itself go. */
    method RemoveAt(m: Memory, n: nat)
      requires Core(MemOf(m), V(), {}, {}) && NoEmptyTable(m.frames, shape) && n < |pages|
      modifies this`pages, this`shape, m
      ensures Track(old(MemOf(m)), old(V()), MemOf(m), V(), {}, {}) && NoEmptyTable(m.frames, shape)
      ensures pages == WithoutPage(old(pages), n)
    {
      hide Core, Conserves, NoEmptyTable, Leaves, TreeOk, Ready, Step, Track, FreeOk, HeapOk, Live, Slabs, LeavesMatch,
           LedgerOk, SameBytes;
      ghost var a, s := MemOf(m), V();
      TrackStart(a, s);
      MemParts(a, s, {}, {});
      PageVa(a, s, n);
      var page := pages[n];
      VpnOfUser(page.va);
      LeafIffRecorded(a, s, {}, {}, page.va);
      ghost var s' := shape;
      if Leafy(page.flags) {
        var ok;
        ok, s' := Vm.Unmap(m, root, page.va, USER_SLOTS, shape);
        assert ok;
      } else {
        StepReflexive(m.frames, m.free, shape, USER_SLOTS);
      }
      Withdraw(a, MemOf(m), s, s', n);
      WithoutPageMembers(a, s, n);
      pages := pages[..n] + pages[n + 1..];
      shape := s';
      TrackStep(a, s, a, s, {}, {}, MemOf(m), V(), {page.phys}, {page.rec});
      DropFrame(m, page.phys, a, s, V(), {page.phys}, {page.rec});
      assert {page.phys} - {page.phys} == {};
      DropRecord(m, page.rec, a, s, V(), {}, {page.rec});
      assert {page.rec} - {page.rec} == {};
    }

    /** Gives up every page in [start, end) and no other. */
    method RemovePages(m: Memory, start: nat, end: nat)
      requires Core(MemOf(m), V(), {}, {}) && NoEmptyTable(m.frames, shape)
      modifies this`pages, this`shape, m
      ensures Track(old(MemOf(m)), old(V()), MemOf(m), V(), {}, {}) && NoEmptyTable(m.frames, shape)
      ensures pages == Outside(old(pages), start, end)
    {
      hide Core, Conserves, NoEmptyTable, Track, Sifted, Outside;
      ghost var a, s := MemOf(m), V();
      TrackStart(a, s);
      SiftStart(pages, start, end);
      ghost var k := 0;
      var i := 0;
      while i < |pages|
        invariant 0 <= i <= |pages| && 0 <= k <= |s.pages| && Sifted(s.pages, k, pages, i, start, end)
        invariant Track(a, s, MemOf(m), V(), {}, {}) && NoEmptyTable(m.frames, shape)
        decreases |s.pages| - k
      {
        SiftNext(s.pages, k, pages, i, start, end);
        TrackCore(a, s, MemOf(m), V(), {}, {});
        if pages[i].va < start || pages[i].va >= end {
          i := i + 1;
        } else {
          ghost var b, t := MemOf(m), V();
          RemoveAt(m, i);
          WithoutPageMembers(b, t, i);
          TrackCompose(a, s, b, t, MemOf(m), V());
        }
        k := k + 1;
      }
      SiftEnd(s.pages, k, pages, i, start, end);
      shape := Prune(m, root, a, s, V(), {}, {});
    }
  }

  // ----- what the program sees of it

  /** The same records show the same memory. */
  lemma NothingChanged(a: Mem, s: View, b: Mem, t: View)
    requires Core(a, s, {}, {}) && Track(a, s, b, t, {}, {}) && t.pages == s.pages
    ensures forall x: nat :: x < USER_END ==> SeenSame(a, s, b, t, x)
  {
    hide Core, Conserves, SeenSame;
    forall x: nat | x < USER_END ensures SeenSame(a, s, b, t, x) {
      SamePagesSeen(a, s, b, t, x);
    }
  }

  /** A removed range shows nothing, and the rest of memory is as before. */
  lemma RemovalSeen(a: Mem, s: View, b: Mem, t: View, start: nat, end: nat)
    requires Core(a, s, {}, {}) && Track(a, s, b, t, {}, {}) && t.pages == Outside(s.pages, start, end)
    requires start % PAGE_SIZE == 0 && end % PAGE_SIZE == 0 && end <= USER_END
    ensures forall x: nat :: start <= x < end ==>
                               ByteAt(b, t, x) == 0 && !Accessible(b, t, x, false) && !Accessible(b, t, x, true)
    ensures forall x: nat :: x < USER_END && !(start <= x < end) ==> SeenSame(a, s, b, t, x)
  {
    hide Core, Conserves, SeenSame, Accessible, Executable, ByteAt, Outside;
    TrackCore(a, s, b, t, {}, {});
    PagesAligned(a, s);
    PagesAligned(b, t);
    forall x: nat | start <= x < end
      ensures ByteAt(b, t, x) == 0 && !Accessible(b, t, x, false) && !Accessible(b, t, x, true) {
      forall p | p in t.pages ensures !Holds(p, x) { InOrOut(p.va, start, end, x); }
      NothingSeen(b, t, x);
    }
    forall x: nat | x < USER_END && !(start <= x < end) ensures SeenSame(a, s, b, t, x) {
      forall p | Holds(p, x) ensures p in s.pages <==> p in t.pages {
        if p in s.pages { InOrOut(p.va, start, end, x); }
      }
      SamePagesSeen(a, s, b, t, x);
    }
  }

  lemma PagesAligned(b: Mem, t: View)
    requires Core(b, t, {}, {})
    ensures forall p :: p in t.pages ==> p.va % PAGE_SIZE == 0
  {
  }

  /** A page is inside an aligned range as a whole or not at all. */
  lemma InOrOut(va: nat, start: nat, end: nat, x: nat)
    requires va % PAGE_SIZE == 0 && start % PAGE_SIZE == 0 && end % PAGE_SIZE == 0
    ensures va <= x < va + PAGE_SIZE ==> (start <= va < end <==> start <= x < end)
  {
  }

  /** At that address of a mapping at `at` the program sees its source, under its flags. */
  ghost predicate ShownAt(b: Mem, t: View, at: nat, x: nat, flags: Flags, src: Source, offset: nat)
    requires at <= x
  {
    && (Accessible(b, t, x, false) <==> flags.r) && (Accessible(b, t, x, true) <==> flags.r && flags.w)
    && (Executable(b, t, x) <==> flags.x)
    && (Leafy(flags) ==>
          var i := offset + (x - at);
          ByteAt(b, t, x) == if src.FromFile? && i < |src.bytes| then src.bytes[i] else 0)
  }

  lemma SnapshotAt(src: Source, at: nat, i: nat)
    requires i < PAGE_SIZE
    ensures Snapshot(src, at)[i] == if src.FromFile? && at + i < |src.bytes| then src.bytes[at + i] else 0
  {
  }

  /** A new mapping shows the bytes of its source, and the rest of memory is as before. */
  lemma MappingSeen(a: Mem, s: View, b: Mem, t: View, at: nat, end: nat, flags: Flags, src: Source, offset: nat)
    requires Core(a, s, {}, {}) && Track(a, s, b, t, {}, {}) && at % PAGE_SIZE == 0 && end % PAGE_SIZE == 0
    requires Mapping(b.frames, s.pages, t.pages, at, end, flags, src, offset)
    ensures forall x: nat :: at <= x < end ==> ShownAt(b, t, at, x, flags, src, offset)
    ensures forall x: nat :: x < USER_END && !(at <= x < end) ==> SeenSame(a, s, b, t, x)
  {
    hide Core, Conserves, SeenSame, Accessible, Executable, ByteAt, Populated, Snapshot;
    forall x: nat | at <= x < end ensures ShownAt(b, t, at, x, flags, src, offset) {
      var p := MappedPage(b.frames, s.pages, t.pages, at, end, flags, src, offset, x - at);
      PageSeen(b, t, p, x);
      SnapshotAt(src, offset + (p.va - at), x - p.va);
    }
    forall x: nat | x < USER_END && !(at <= x < end) ensures SeenSame(a, s, b, t, x) {
      NotOfMapping(b.frames, s.pages, t.pages, at, end, flags, src, offset, x);
      SamePagesSeen(a, s, b, t, x);
    }
  }

  /** The same in the words of a request. */
  lemma RequestShown(b: Mem, t: View, at: nat, end: nat, prot: Prot, how: MapFlags, file: FileView, offset: nat)
    requires forall x: nat :: at <= x < end ==> ShownAt(b, t, at, x, ProtFlags(prot), SourceOf(how, file), offset)
    requires (how.anon || !file.NoFile?) && (prot.write ==> prot.read)
    ensures forall x: nat :: at <= x < end ==>
              && (Accessible(b, t, x, false) <==> prot.read) && (Accessible(b, t, x, true) <==> prot.write)
              && (Executable(b, t, x) <==> prot.exec)
              && (prot.read || prot.exec ==>
                    ByteAt(b, t, x) ==
                      if !how.anon && offset + (x - at) < |file.bytes| then file.bytes[offset + (x - at)] else 0)
  {
    hide Accessible, Executable, ByteAt;
    forall x: nat | at <= x < end
      ensures (Accessible(b, t, x, false) <==> prot.read) && (Accessible(b, t, x, true) <==> prot.write)
      ensures Executable(b, t, x) <==> prot.exec
      ensures prot.read || prot.exec ==>
                ByteAt(b, t, x) ==
                  if !how.anon && offset + (x - at) < |file.bytes| then file.bytes[offset + (x - at)] else 0 {
      assert ShownAt(b, t, at, x, ProtFlags(prot), SourceOf(how, file), offset);
    }
  }

  /** The record that holds byte `i` of a mapping. */
  lemma MappedPage(frames: Frames, before: seq<UserPage>, pages: seq<UserPage>, at: nat, end: nat, flags: Flags,
                   src: Source, offset: nat, i: nat) returns (p: UserPage)
    requires Mapping(frames, before, pages, at, end, flags, src, offset) && i < end - at
    requires at % PAGE_SIZE == 0 && end % PAGE_SIZE == 0
    ensures p in pages && Holds(p, at + i) && at + i - p.va == i % PAGE_SIZE
    ensures PageIs(frames, p, at + (i - i % PAGE_SIZE), flags, Snapshot(src, offset + (i - i % PAGE_SIZE)))
  {
    hide Snapshot, PageIs;
    var k := i / PAGE_SIZE;
    assert k < (end - at) / PAGE_SIZE && k * PAGE_SIZE == i - i % PAGE_SIZE;
    p := pages[|before| + k];
    assert PageIs(frames, p, at + k * PAGE_SIZE, flags, Snapshot(src, offset + k * PAGE_SIZE));
    PageAtVa(frames, p, at + k * PAGE_SIZE, flags, Snapshot(src, offset + k * PAGE_SIZE));
  }

  lemma PageAtVa(frames: Frames, p: UserPage, va: nat, flags: Flags, bytes: seq<Byte>)
    requires PageIs(frames, p, va, flags, bytes)
    ensures p.va == va
  {
  }

  lemma InMapping(frames: Frames, before: seq<UserPage>, pages: seq<UserPage>, at: nat, end: nat, flags: Flags,
                  src: Source, offset: nat, k: nat)
    requires Mapping(frames, before, pages, at, end, flags, src, offset) && |before| + k < |pages|
    requires at % PAGE_SIZE == 0 && end % PAGE_SIZE == 0
    ensures at <= pages[|before| + k].va && pages[|before| + k].va + PAGE_SIZE <= end
  {
    hide Snapshot;
    assert PageIs(frames, pages[|before| + k], at + k * PAGE_SIZE, flags, Snapshot(src, offset + k * PAGE_SIZE));
    assert (k + 1) * PAGE_SIZE <= end - at;
  }

  /** A page that holds an address outside a mapping is there before exactly if after. */
  lemma NotOfMapping(frames: Frames, before: seq<UserPage>, pages: seq<UserPage>, at: nat, end: nat, flags: Flags,
                     src: Source, offset: nat, x: nat)
    requires Mapping(frames, before, pages, at, end, flags, src, offset) && !(at <= x < end)
    requires at % PAGE_SIZE == 0 && end % PAGE_SIZE == 0
    ensures forall p :: Holds(p, x) ==> (p in before <==> p in pages)
  {
    hide Snapshot;
    forall p | Holds(p, x) && p in pages ensures p in before {
      var j :| 0 <= j < |pages| && pages[j] == p;
      assert j >= |before| ==> at <= x < end by {
        if j >= |before| {
          InMapping(frames, before, pages, at, end, flags, src, offset, j - |before|);
        }
      }
    }
  }

  lemma TrackedBytes(b: Mem, t: View, c: Mem, u: View)
    requires Track(b, t, c, u, {}, {})
    ensures forall p ::
              p in t.pages && p in u.pages ==>
                p.phys in b.frames && p.phys in c.frames && b.frames[p.phys] == c.frames[p.phys]
  {
  }

  lemma RestoredCount(b: Mem, t: View, c: Mem, u: View)
    requires Restored(b, t, c, u)
    ensures |c.free| == |b.free|
  {
  }

  lemma PopulatedKept(a: Frames, b: Frames, pages: seq<UserPage>, base: nat, start: nat, n: nat, flags: Flags,
                      src: Source, offset: nat)
    requires Populated(a, pages, base, start, n, flags, src, offset)
    requires forall p :: p in pages ==> p.phys in a && p.phys in b && a[p.phys] == b[p.phys]
    ensures Populated(b, pages, base, start, n, flags, src, offset)
  {
    hide Snapshot;
    forall i: nat | i < n
      ensures PageIs(b, pages[base + i], start + i * PAGE_SIZE, flags, Snapshot(src, offset + i * PAGE_SIZE)) {
      assert pages[base + i] in pages;
    }
  }

  lemma FilledPage(bytes: seq<Byte>)
    requires |bytes| <= PAGE_SIZE
    ensures bytes + Padded([])[|bytes|..] == Padded(bytes)
  {
  }

  lemma FilledStep(a: Mem, s: View, b: Mem, t: View, c: Mem, u: View, d: Mem, page: UserPage, base: nat, start: nat,
                   n: nat, flags: Flags, src: Source, offset: nat)
    requires Track(a, s, c, u, {}, {}) && Track(b, t, c, u, {}, {}) && NoEmptyTable(c.frames, u.shape)
    requires u.pages == t.pages + [page] && page.va == start + n * PAGE_SIZE && page.flags == flags && page !in s.pages
             && page !in t.pages
    requires page.phys in c.frames
             && d == c.(frames := c.frames[page.phys := Data(Snapshot(src, offset + n * PAGE_SIZE))])
    requires Populated(b.frames, t.pages, base, start, n, flags, src, offset)
    ensures Track(a, s, d, u, {}, {}) && NoEmptyTable(d.frames, u.shape)
            && Populated(d.frames, u.pages, base, start, n + 1, flags, src, offset)
  {
    hide Core, Conserves, Track, NoEmptyTable, Populated, Snapshot;
    TrackedBytes(b, t, c, u);
    LastPageWritten(a, s, c, u, d, page);
    PopulatedNext(b.frames, d.frames, t.pages, page, base, start, n, flags, src, offset);
  }

  lemma SnapshotIs(src: Source, at: nat)
    ensures Snapshot(src, at) == Padded(if src.Zeroes? then [] else PageSlice(src.bytes, at))
  {
  }

  /** Filling the page that was just added disturbs no page the operation started with. */
  lemma LastPageWritten(a: Mem, s: View, c: Mem, u: View, d: Mem, page: UserPage)
    requires Track(a, s, c, u, {}, {}) && page in u.pages && page !in s.pages && page.phys in c.frames
    requires d == c || (page.phys in d.frames && d.frames[page.phys].Data? && |d.frames[page.phys].bytes| == PAGE_SIZE
                        && d == c.(frames := c.frames[page.phys := d.frames[page.phys]]))
    ensures Track(a, s, d, u, {}, {}) && (NoEmptyTable(c.frames, u.shape) ==> NoEmptyTable(d.frames, u.shape))
    ensures forall p ::
              p in u.pages && p != page ==>
                p.phys in c.frames && p.phys in d.frames && d.frames[p.phys] == c.frames[p.phys]
  {
    hide Core, Conserves, NoEmptyTable, Leaves;
    TrackStart(c, u);
    LedgerFramesExist(c, u);
    if d != c {
      AfterPageWrite(c, d, u, page, d.frames[page.phys].bytes);
      ConservesTransitive(a, s, {}, {}, c, u, {}, {}, d, u, {}, {});
    }
  }

  lemma NothingPopulated(frames: Frames, pages: seq<UserPage>, start: nat, flags: Flags, src: Source, offset: nat)
    ensures Populated(frames, pages, |pages|, start, 0, flags, src, offset)
  {
  }

  lemma PublishArea(a: Mem, s: View, b: Mem, t: View, hf: set<Frame>, hr: set<Ptr>, area: Area)
    requires Track(a, s, b, t, hf, hr) && area.rec in hr
    ensures Track(a, s, b, t.(areas := t.areas + [area]), hf, hr - {area.rec})
  {
    hide Core, Conserves, KeptBytes;
    AreaIn(b, t, hf, hr, area);
    SameKept(a, s, b, t, t.(areas := t.areas + [area]));
    ConservesTransitive(a, s, {}, {}, b, t, hf, hr, b, t.(areas := t.areas + [area]), hf, hr - {area.rec});
  }

  lemma WithdrawArea(a: Mem, s: View, b: Mem, t: View, n: nat)
    requires Track(a, s, b, t, {}, {}) && n < |t.areas|
    ensures Track(a, s, b, t.(areas := WithoutArea(t.areas, n)), {}, {} + {t.areas[n].rec})
  {
    hide Core, Conserves, KeptBytes;
    AreaOut(b, t, {}, {}, n);
    var u := t.(areas := WithoutArea(t.areas, n));
    SameKept(a, s, b, t, u);
    ConservesTransitive(a, s, {}, {}, b, t, {}, {}, b, u, {}, {} + {t.areas[n].rec});
  }

  lemma NoneBelowNext(areas: seq<Area>, at: nat, length: nat)
    requires at % PAGE_SIZE == 0 && NoneBelow(areas, at, length) && !Fits(areas, at, length)
    ensures NoneBelow(areas, at + PAGE_SIZE, length)
  {
    forall w: nat | w < at + PAGE_SIZE && w % PAGE_SIZE == 0 ensures !Fits(areas, w, length) {
      assert w <= at;
    }
  }

  lemma NoneBelowEnd(areas: seq<Area>, at: nat, length: nat)
    requires NoneBelow(areas, at, length) && at > MMAP_END - length
    ensures NoneBelow(areas, MMAP_END, length)
  {
  }

  lemma BrkOkPlus(areas: seq<Area>, area: Area, brkBase: nat, brkEnd: nat)
    requires BrkOk(areas, brkBase, brkEnd) && area.kind != HEAP
    ensures BrkOk(areas + [area], brkBase, brkEnd)
  {
    assert forall a :: a in areas + [area] <==> a in areas || a == area;
  }

  lemma PopulatedInside(frames: Frames, before: seq<UserPage>, pages: seq<UserPage>, at: nat, end: nat, flags: Flags,
                        src: Source, offset: nat)
    requires |before| <= |pages| && at <= end && (end - at) % PAGE_SIZE == 0
             && |pages| - |before| <= (end - at) / PAGE_SIZE
    requires Populated(frames, pages, |before|, at, |pages| - |before|, flags, src, offset)
    ensures forall i :: |before| <= i < |pages| ==> at <= pages[i].va < end
  {
    hide Snapshot;
    forall i | |before| <= i < |pages| ensures at <= pages[i].va < end {
      var k: nat := i - |before|;
      assert PageIs(frames, pages[|before| + k], at + k * PAGE_SIZE, flags, Snapshot(src, offset + k * PAGE_SIZE));
    }
  }

  lemma MappingDone(frames: Frames, areas: seq<Area>, area: Area, before: seq<UserPage>, pages: seq<UserPage>, at: nat,
                    end: nat, flags: Flags, src: Source, offset: nat)
    requires Covered(areas, before) && area.start == at && area.end == end && RangeOk(at, end)
    requires |before| <= |pages| && pages[..|before|] == before && |pages| - |before| == (end - at) / PAGE_SIZE
    requires Populated(frames, pages, |before|, at, |pages| - |before|, flags, src, offset)
    ensures Mapping(frames, before, pages, at, end, flags, src, offset) && Covered(areas + [area], pages)
  {
    hide Populated;
    PopulatedInside(frames, before, pages, at, end, flags, src, offset);
    forall p | p in pages ensures InArea(areas + [area], p.va) {
      var i :| 0 <= i < |pages| && pages[i] == p;
      if i < |before| {
        assert p == pages[..|before|][i] && p in before;
        var a :| a in areas && a.start <= p.va < a.end;
        assert a in areas + [area];
      } else {
        assert area in areas + [area];
      }
    }
  }

  lemma SameKept(a: Mem, s: View, b: Mem, t: View, u: View)
    requires KeptBytes(a, s, b, t) && u.pages == t.pages
    ensures KeptBytes(a, s, b, u)
  {
  }

  lemma PageVa(a: Mem, s: View, n: nat)
    requires Core(a, s, {}, {}) && n < |s.pages|
    ensures VaOk(s.pages[n].va) && s.pages[n] in s.pages
  {
  }

  lemma WithoutPageMembers(a: Mem, s: View, n: nat)
    requires Core(a, s, {}, {}) && n < |s.pages|
    ensures forall p :: p in WithoutPage(s.pages, n) ==> p in s.pages
  {
    hide LeavesMatch, TreeOk, MemOk, FramesApart, RecordsOk;
    LedgerMinus(a.frames, s.pages, n);
  }

  lemma RestoredFrom(a: Mem, s: View, b: Mem, t: View)
    requires Core(a, s, {}, {}) && NoEmptyTable(a.frames, s.shape)
    requires Track(a, s, b, t, {}, {}) && NoEmptyTable(b.frames, t.shape) && t.pages == s.pages && t.areas == s.areas
    ensures Restored(a, s, b, t) && |a.free| == |b.free|
  {
    hide Core, Conserves, NoEmptyTable;
    SameRecordsNeutral(a, s, b, t);
  }

  /** A page number has a leaf exactly when a record with R or X is at that address. */
  lemma LeafIffRecorded(b: Mem, s: View, hf: set<Frame>, hr: set<Ptr>, address: nat)
    requires Core(b, s, hf, hr) && VaOk(address)
    ensures VpnOf(address) in Leaves(b.frames, s.shape) <==>
              exists p :: p in s.pages && Leafy(p.flags) && p.va == address
  {
    hide Leaves, TreeOk, MemOk, FramesApart, RecordsOk;
    if VpnOf(address) in Leaves(b.frames, s.shape) {
      var p :| p in s.pages && Leafy(p.flags) && VpnOf(p.va) == VpnOf(address);
      VpnInjective(p.va, address);
    }
  }

  lemma LastBytes(a: Mem, b: Mem, pages: seq<UserPage>, page: UserPage)
    requires SameBytes(a, b, pages + [page])
    ensures page.phys in a.frames && page.phys in b.frames && a.frames[page.phys] == b.frames[page.phys]
  {
    assert page in pages + [page];
  }
}
