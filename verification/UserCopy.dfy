/** Checked copies between kernel buffers and user memory, page by page through
    the page table, against user memory as one flat array of bytes. */
module UserCopy {
  import opened Physical
  import opened Chunks
  import opened PageTable
  import opened Vm
  import opened Heap
  import opened Space
  import opened SpaceSteps
  import opened SpaceOps
  import opened UserView
  import opened Neutral
  import opened Areas
  import opened AddressSpaces
  import opened Lifecycle

  // ----- addresses within a page

  lemma PartIsOnePage(address: nat, size: nat, x: nat)
    requires size > 0 && address <= x < address + Part(address, size)
    ensures VpnOf(x) == VpnOf(address) && x % PAGE_SIZE == address % PAGE_SIZE + (x - address)
  {
    assert x / PAGE_SIZE == address / PAGE_SIZE;
    SamePage(x, address);
  }

  /** A range is accessible exactly when the page of its first byte permits it and the rest is. */
  lemma SplitRange(mem: Mem, s: View, address: nat, size: nat, write: bool)
    requires size > 0 && address + size <= USER_END
    ensures var n := Part(address, size);
            RangeAccessible(mem, s, address, size, write) <==>
            Permits(LeafAt(mem, s, address), write) && RangeAccessible(mem, s, address + n, size - n, write)
  {
    hide LeafAt, Permits, VpnOf;
    var n := Part(address, size);
    forall x: nat | address <= x < address + n
      ensures Accessible(mem, s, x, write) <==> Permits(LeafAt(mem, s, address), write) {
      PartIsOnePage(address, size, x);
      SameLeaf(mem, s, x, address);
    }
    if RangeAccessible(mem, s, address, size, write) {
      assert Accessible(mem, s, address, write);
    }
  }

  /** One page of the check. */
  method Probe(m: Memory, sp: AddressSpace, address: nat, write: bool) returns (ok: bool, f: Frame)
    requires Core(MemOf(m), sp.V(), {}, {}) && address < USER_END
    ensures ok <==> Permits(LeafAt(MemOf(m), sp.V(), address), write)
    ensures f == LeafAt(MemOf(m), sp.V(), address).ppn
  {
    MemParts(MemOf(m), sp.V(), {}, {});
    UserAddress(address);
    var found, entry := Query(m, sp.root, address, USER_SLOTS, sp.shape);
    LeavesAreValid(m.frames, sp.shape);
    f := if found then entry.ppn else 0;
    ok := found && entry.u && entry.r && (!write || entry.w);
  }

  /** Whether every byte of a range may be accessed. */
  method Validate(m: Memory, sp: AddressSpace, address: nat, size: nat, write: bool) returns (ok: bool)
    requires Core(MemOf(m), sp.V(), {}, {})
    ensures ok <==> size == 0 || (address + size <= USER_END && RangeAccessible(MemOf(m), sp.V(), address, size, write))
  {
    hide Core, RangeAccessible, LeafAt;
    if size == 0 {
      return true;
    }
    if address >= USER_END || size > USER_END - address {
      return false;
    }
    var at, left := address, size;
    while left > 0
      invariant at + left == address + size
      invariant RangeAccessible(MemOf(m), sp.V(), address, size, write) <==>
                  RangeAccessible(MemOf(m), sp.V(), at, left, write)
      decreases left
    {
      var part := Part(at, left);
      SplitRange(MemOf(m), sp.V(), at, left, write);
      var good, f := Probe(m, sp, at, write);
      if !good {
        return false;
      }
      at := at + part;
      left := left - part;
    }
    NothingToAccess(MemOf(m), sp.V(), at, write);
    return true;
  }

  lemma NothingToAccess(mem: Mem, s: View, address: nat, write: bool)
    ensures RangeAccessible(mem, s, address, 0, write)
  {
  }

  /** Copies user bytes into a kernel buffer: the bytes the user program would read. */
  method CopyFrom(m: Memory, sp: AddressSpace, address: nat, size: nat) returns (ok: bool, bytes: seq<Byte>)
    requires Core(MemOf(m), sp.V(), {}, {})
    ensures ok <==> size == 0 || (address + size <= USER_END && RangeAccessible(MemOf(m), sp.V(), address, size, false))
    ensures |bytes| <= size && (ok ==> |bytes| == size)
    ensures forall i :: 0 <= i < |bytes| ==> bytes[i] == ByteAt(MemOf(m), sp.V(), address + i)
  {
    hide Core, RangeAccessible, LeafAt, ByteAt, VpnOf;
    bytes := [];
    if size == 0 {
      return true, bytes;
    }
    if address >= USER_END || size > USER_END - address {
      return false, bytes;
    }
    var at: nat, left: nat := address, size;
    while left > 0
      invariant at + left == address + size && |bytes| == at - address
      invariant RangeAccessible(MemOf(m), sp.V(), address, size, false) <==>
                  RangeAccessible(MemOf(m), sp.V(), at, left, false)
      invariant forall i :: 0 <= i < |bytes| ==> bytes[i] == ByteAt(MemOf(m), sp.V(), address + i)
      decreases left
    {
      var part := Part(at, left);
      SplitRange(MemOf(m), sp.V(), at, left, false);
      var good, f := Probe(m, sp, at, false);
      if !good {
        return false, bytes;
      }
      ghost var page := LeafIsPage(MemOf(m), sp.V(), at);
      var chunk := Chunk(m.frames[f].bytes, at, left);
      ChunkRead(MemOf(m), sp.V(), at, left);
      bytes := bytes + chunk;
      at := at + part;
      left := left - part;
    }
    NothingToAccess(MemOf(m), sp.V(), at, false);
    ok := true;
  }

  lemma ChunkRead(mem: Mem, s: View, at: nat, left: nat)
    requires left > 0 && LeafAt(mem, s, at).v && IsDataPage(mem.frames, LeafAt(mem, s, at).ppn)
    ensures var chunk := Chunk(mem.frames[LeafAt(mem, s, at).ppn].bytes, at, left);
            forall i :: 0 <= i < |chunk| ==> chunk[i] == ByteAt(mem, s, at + i)
  {
    hide LeafAt, VpnOf;
    var chunk := Chunk(mem.frames[LeafAt(mem, s, at).ppn].bytes, at, left);
    forall i | 0 <= i < |chunk| ensures chunk[i] == ByteAt(mem, s, at + i) {
      PartIsOnePage(at, left, at + i);
      SameLeaf(mem, s, at + i, at);
    }
  }

  /** User memory with `data` laid over [address, address + |data|). */
  ghost predicate Overlaid(a: Mem, b: Mem, s: View, address: nat, data: seq<Byte>) {
    && Leaves(b.frames, s.shape) == Leaves(a.frames, s.shape)
    && forall x: nat :: x < USER_END ==>
                          ByteAt(b, s, x) ==
                            if address <= x < address + |data| then data[x - address] else ByteAt(a, s, x)
  }

  /** Writing part of one page changes those bytes and no others. */
  lemma ChunkWritten(a: Mem, b: Mem, s: View, at: nat, chunk: seq<Byte>, page: UserPage)
    requires Core(a, s, {}, {}) && page in s.pages && at < USER_END && page.va == at - at % PAGE_SIZE
             && page.phys == LeafAt(a, s, at).ppn
    requires LeafAt(a, s, at).v && at % PAGE_SIZE + |chunk| <= PAGE_SIZE && IsDataPage(a.frames, page.phys)
    requires b == a.(frames := a.frames[page.phys := Data(Overwrite(a.frames[page.phys].bytes, at % PAGE_SIZE, chunk))])
    ensures Core(b, s, {}, {}) && Conserves(a, s, {}, {}, b, s, {}, {}) && Overlaid(a, b, s, at, chunk)
    ensures NoEmptyTable(a.frames, s.shape) ==> NoEmptyTable(b.frames, s.shape)
  {
    hide Core, Conserves, Leaves, NoEmptyTable, VpnOf, LeafAt;
    LedgerFramesExist(a, s);
    AfterPageWrite(a, b, s, page, Overwrite(a.frames[page.phys].bytes, at % PAGE_SIZE, chunk));
    forall x: nat | x < USER_END
      ensures ByteAt(b, s, x) == if at <= x < at + |chunk| then chunk[x - at] else ByteAt(a, s, x) {
      SameLeaves(a, b, s, x);
      OneByte(a, b, s, at, chunk, page, x);
    }
  }

  lemma OneByte(a: Mem, b: Mem, s: View, at: nat, chunk: seq<Byte>, page: UserPage, x: nat)
    requires Core(a, s, {}, {}) && page in s.pages && x < USER_END && page.va == at - at % PAGE_SIZE
    requires LeafAt(b, s, x) == LeafAt(a, s, x) && LeafAt(a, s, at).v && LeafAt(a, s, at).ppn == page.phys
    requires at % PAGE_SIZE + |chunk| <= PAGE_SIZE && IsDataPage(a.frames, page.phys)
    requires b == a.(frames := a.frames[page.phys := Data(Overwrite(a.frames[page.phys].bytes, at % PAGE_SIZE, chunk))])
    requires forall p ::
               p in s.pages && p != page ==>
                 p.phys != page.phys && p.phys in a.frames && b.frames[p.phys] == a.frames[p.phys]
    ensures ByteAt(b, s, x) == if at <= x < at + |chunk| then chunk[x - at] else ByteAt(a, s, x)
  {
    hide Core, VpnOf, LeafAt;
    if LeafAt(a, s, x).v {
      var p := LeafIsPage(a, s, x);
      if p == page {
        assert x % PAGE_SIZE - at % PAGE_SIZE == x - at;
      } else {
        SamePageRecord(a, s, p, page);
      }
    } else {
      NotInPage(a, s, at, x, |chunk|);
    }
  }

  lemma NotInPage(a: Mem, s: View, at: nat, x: nat, n: nat)
    requires at % PAGE_SIZE + n <= PAGE_SIZE && LeafAt(a, s, at).v && !LeafAt(a, s, x).v
    ensures !(at <= x < at + n)
  {
    hide LeafAt, VpnOf;
    if at <= x < at + n {
      assert x / PAGE_SIZE == at / PAGE_SIZE;
      SamePage(x, at);
      SameLeaf(a, s, x, at);
    }
  }

  lemma OverlaidNothing(a: Mem, s: View, address: nat)
    ensures Overlaid(a, a, s, address, [])
  {
  }

  lemma OverlaidMore(a: Mem, b: Mem, c: Mem, s: View, address: nat, data: seq<Byte>, more: seq<Byte>)
    requires Overlaid(a, b, s, address, data) && Overlaid(b, c, s, address + |data|, more)
    ensures Overlaid(a, c, s, address, data + more)
  {
    hide ByteAt, Leaves;
  }

  /** The write permission of a range depends only on the leaves. */
  lemma SameAccess(a: Mem, b: Mem, s: View, address: nat, size: nat, write: bool)
    requires Leaves(b.frames, s.shape) == Leaves(a.frames, s.shape)
    ensures RangeAccessible(b, s, address, size, write) == RangeAccessible(a, s, address, size, write)
  {
    hide Leaves, VpnOf;
    forall x: nat ensures Accessible(b, s, x, write) == Accessible(a, s, x, write) {
      SameLeaves(a, b, s, x);
    }
  }

  /** Writes one page's share of the data. */
  method PutChunk(m: Memory, sp: AddressSpace, at: nat, chunk: seq<Byte>, f: Frame)
    requires Core(MemOf(m), sp.V(), {}, {}) && at < USER_END && at % PAGE_SIZE + |chunk| <= PAGE_SIZE
    requires LeafAt(MemOf(m), sp.V(), at).v && f == LeafAt(MemOf(m), sp.V(), at).ppn
    modifies m`frames
    ensures Core(MemOf(m), sp.V(), {}, {}) && Conserves(old(MemOf(m)), sp.V(), {}, {}, MemOf(m), sp.V(), {}, {})
    ensures Overlaid(old(MemOf(m)), MemOf(m), sp.V(), at, chunk)
    ensures NoEmptyTable(old(m.frames), sp.shape) ==> NoEmptyTable(m.frames, sp.shape)
  {
    hide Core, Conserves, Overlaid, LeafAt, NoEmptyTable, VpnOf;
    ghost var a := MemOf(m);
    ghost var page := LeafIsPage(a, sp.V(), at);
    m.frames := m.frames[f := Data(Overwrite(m.frames[f].bytes, at % PAGE_SIZE, chunk))];
    assert MemOf(m) == a.(frames := m.frames);
    ChunkWritten(a, MemOf(m), sp.V(), at, chunk, page);
  }

  /** Copies a kernel buffer into user memory. On success the whole buffer, and on
      failure exactly the part before the first page that refuses, replaces the
      bytes at the address; no other user byte and no mapping changes. */
  method CopyTo(m: Memory, sp: AddressSpace, address: nat, data: seq<Byte>) returns (ok: bool, ghost done: nat)
    requires Core(MemOf(m), sp.V(), {}, {})
    modifies m`frames
    ensures ok <==>
              data == []
              || (address + |data| <= USER_END && RangeAccessible(old(MemOf(m)), sp.V(), address, |data|, true))
    ensures done <= |data| && (ok ==> done == |data|)
            && Overlaid(old(MemOf(m)), MemOf(m), sp.V(), address, data[..done])
    ensures !ok && address + |data| <= USER_END ==> !Accessible(old(MemOf(m)), sp.V(), address + done, true)
    ensures Core(MemOf(m), sp.V(), {}, {}) && Conserves(old(MemOf(m)), sp.V(), {}, {}, MemOf(m), sp.V(), {}, {})
    ensures NoEmptyTable(old(m.frames), sp.shape) ==> NoEmptyTable(m.frames, sp.shape)
  {
    hide Core, Conserves, RangeAccessible, LeafAt, Overlaid, NoEmptyTable, VpnOf;
    ghost var a, s := MemOf(m), sp.V();
    done := 0;
    OverlaidNothing(a, s, address);
    ConservesReflexive(a, s, {}, {});
    if data == [] {
      return true, 0;
    }
    if address >= USER_END || |data| > USER_END - address {
      return false, 0;
    }
    var at: nat, left: nat := address, |data|;
    while left > 0
      invariant at + left == address + |data| && done == at - address && sp.V() == s
      invariant RangeAccessible(a, s, address, |data|, true) <==> RangeAccessible(a, s, at, left, true)
      invariant Core(MemOf(m), s, {}, {}) && Conserves(a, s, {}, {}, MemOf(m), s, {}, {})
      invariant Overlaid(a, MemOf(m), s, address, data[..at - address])
      invariant NoEmptyTable(a.frames, s.shape) ==> NoEmptyTable(m.frames, s.shape)
      decreases left
    {
      var part := Part(at, left);
      ghost var b := MemOf(m);
      SplitRange(a, s, at, left, true);
      var good, f := Probe(m, sp, at, true);
      OverlaidLeaf(a, b, s, address, data[..at - address], at);
      if !good {
        return false, at - address;
      }
      var chunk := data[at - address..at - address + part];
      PutChunk(m, sp, at, chunk, f);
      assert data[..at - address] + chunk == data[..at - address + part];
      OverlaidMore(a, b, MemOf(m), s, address, data[..at - address], chunk);
      ConservesTransitive(a, s, {}, {}, b, s, {}, {}, MemOf(m), s, {}, {});
      at := at + part;
      left := left - part;
      done := done + part;
    }
    NothingToAccess(a, s, at, true);
    assert data[..|data|] == data;
    ok := true;
  }

  lemma OverlaidLeaf(a: Mem, b: Mem, s: View, address: nat, data: seq<Byte>, x: nat)
    requires Overlaid(a, b, s, address, data)
    ensures LeafAt(b, s, x) == LeafAt(a, s, x)
  {
  }

  /** What the whole-range check is for: once it succeeds, a copy of any piece of
      the range succeeds, also after earlier pieces have been written. */
  lemma ValidatedPieces(a: Mem, b: Mem, s: View, address: nat, size: nat, write: bool, at: nat, n: nat)
    requires RangeAccessible(a, s, address, size, write) && address <= at && at + n <= address + size
    requires Leaves(b.frames, s.shape) == Leaves(a.frames, s.shape)
    ensures RangeAccessible(b, s, at, n, write) && RangeAccessible(b, s, at, n, false)
  {
    SameAccess(a, b, s, address, size, write);
    forall x: nat | at <= x < at + n ensures Accessible(b, s, x, write) && Accessible(b, s, x, false) {
      assert Accessible(b, s, x, write);
    }
  }
}
