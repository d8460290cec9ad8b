/** The read and write calls on regular files: user memory and file contents as
    flat sequences of bytes, moved in pieces of 256. */
module Transfers {
  import opened Common
  import opened Physical
  import opened PageTable
  import opened Heap
  import opened Space
  import opened SpaceSteps
  import opened SpaceOps
  import opened AddressSpaces
  import opened Lifecycle
  import opened UserView
  import opened UserCopy
  import opened Worlds
  import T = Tmpfs

  const BUFFER: nat := 256
  const INT64_MAX: nat := 0x7fff_ffff_ffff_ffff

  datatype Reply = Count(count: nat) | BadFd | Fault | FileError(error: T.Errno)

  /** User memory and the file share physical memory without sharing a page. */
  ghost predicate Together(m: Memory, sp: AddressSpace, n: T.Node)
    reads m, sp, n
  {
    T.NodeOk(m, n) && Core(MemOf(m), sp.V(), T.Used(n.blocks), {})
  }

  ghost predicate MayAccess(mem: Mem, s: View, address: nat, size: nat, write: bool) {
    size <= INT64_MAX && (size == 0 || (address + size <= USER_END && RangeAccessible(mem, s, address, size, write)))
  }

  // ----- the file and the user do not disturb each other

  lemma Forget(mem: Mem, s: View, hf: set<Frame>)
    requires Core(mem, s, hf, {})
    ensures Core(mem, s, {}, {})
  {
    hide TreeOk, LedgerOk, LeavesMatch, MemOk, Leaves;
  }

  lemma FileStep(a: Mem, b: Mem, s: View, blocks: seq<Frame>, blocks': seq<Frame>)
    requires Core(a, s, T.Used(blocks), {}) && T.Spent(a.frames, a.free, blocks, b.frames, b.free, blocks')
             && b.classes == a.classes
    ensures Core(b, s, T.Used(blocks'), {}) && Undisturbed(a, b, s)
  {
    hide TreeOk, Leaves, LedgerOk, LeavesMatch, NoEmptyTable, MemOk, FramesApart, LiveIn, T.Used, Elements;
    OwnFramesExist(a, s, T.Used(blocks), {});
    MemParts(a, s, T.Used(blocks), {});
    UsedExist(a.frames, a.free, blocks, b.frames, b.free, blocks');
    FileApart(a, b, s, T.Used(blocks), T.Used(blocks'));
    FileMem(a, b, T.Used(blocks'));
    CoreKept(a, b, s, T.Used(blocks), {}, T.Used(blocks'), {});
    Forget(b, s, T.Used(blocks'));
  }

  lemma FileMem(a: Mem, b: Mem, used: set<Frame>)
    requires MemOk(a) && OnlyWithin(a.frames, b.frames, used) && used !! Slabs(a.classes) && b.classes == a.classes
    requires FreeOk(b.frames, b.free) && Elements(b.free) <= Elements(a.free)
    ensures MemOk(b) && LiveIn(b) == LiveIn(a)
  {
    hide HeapOk, Live, Slabs, FreeOk;
    SlabsExist(a);
    HeapFrame(a.frames, b.frames, a.classes);
  }

  lemma FileApart(a: Mem, b: Mem, s: View, used: set<Frame>, used': set<Frame>)
    requires FramesApart(a, s, used) && used <= used' && Elements(a.free) == Elements(b.free) + (used' - used)
             && b.classes == a.classes
    requires Elements(b.free) !! used'
    ensures used' !! s.shape.pos.Keys + PhysOf(s.pages) && used' !! Slabs(a.classes)
    requires forall f :: f in used' ==> f in b.frames && f != 0
    ensures FramesApart(b, s, used')
  {
    hide Elements, Slabs, PhysOf;
  }

  lemma UsedExist(a: Frames, free: seq<Frame>, blocks: seq<Frame>, b: Frames, free': seq<Frame>, blocks': seq<Frame>)
    requires T.Spent(a, free, blocks, b, free', blocks') && FreeOk(a, free)
             && forall f :: f in T.Used(blocks) ==> f in a
    ensures forall f :: f in T.Used(blocks') ==> f in b && f != 0
  {
    forall f | f in T.Used(blocks') && f !in T.Used(blocks) ensures f in a { assert f in Elements(free); }
  }

  /** Copying to user memory leaves the file alone. */
  lemma UserStep(a: Mem, b: Mem, s: View, blocks: seq<Frame>)
    requires Core(a, s, T.Used(blocks), {}) && Core(b, s, {}, {}) && Conserves(a, s, {}, {}, b, s, {}, {})
             && b.free == a.free && b.classes == a.classes
    ensures Core(b, s, T.Used(blocks), {}) && Agree(a.frames, b.frames, T.Used(blocks))
  {
    hide TreeOk, Leaves, LedgerOk, LeavesMatch, MemOk, RecordsOk, Foreign, Elements, Slabs, PhysOf, T.Used;
    MemParts(a, s, T.Used(blocks), {});
  }

  lemma FileKept(a: Frames, b: Frames, free: seq<Frame>, blocks: seq<Frame>, size: nat)
    requires T.FileOk(a, free, blocks, size) && a.Keys == b.Keys && Agree(a, b, T.Used(blocks))
    ensures T.FileOk(b, free, blocks, size) && T.FlatBytes(b, blocks, size) == T.FlatBytes(a, blocks, size)
  {
    forall i | 0 <= i < T.FILE_PAGES && blocks[i] != 0 ensures a[blocks[i]] == b[blocks[i]] {
      assert blocks[i] in T.Used(blocks);
    }
    forall i: nat | i < T.MAX_SIZE ensures T.FileByte(b, blocks, i) == T.FileByte(a, blocks, i) {
    }
  }

  lemma SameUserBytes(a: Mem, b: Mem, s: View, address: nat, n: nat)
    requires SameReads(a, s, b, s) && (n == 0 || address + n <= USER_END)
    ensures UserBytes(b, s, address, n) == UserBytes(a, s, address, n)
  {
    hide ByteAt, Accessible;
  }

  lemma SameRange(a: Mem, b: Mem, s: View, address: nat, size: nat, write: bool)
    requires SameReads(a, s, b, s) && RangeAccessible(a, s, address, size, write) && address + size <= USER_END
    ensures RangeAccessible(b, s, address, size, write)
  {
    hide ByteAt, Accessible;
  }

  lemma SameReadsTwice(a: Mem, b: Mem, c: Mem, s: View)
    requires SameReads(a, s, b, s) && SameReads(b, s, c, s)
    ensures SameReads(a, s, c, s)
  {
    hide ByteAt, Accessible;
  }

  lemma SubRange(mem: Mem, s: View, address: nat, size: nat, at: nat, n: nat, write: bool)
    requires RangeAccessible(mem, s, address, size, write) && address <= at && at + n <= address + size
    ensures RangeAccessible(mem, s, at, n, write) && RangeAccessible(mem, s, at, n, false)
  {
    ValidatedPieces(mem, mem, s, address, size, write, at, n);
  }

  // ----- writing to a file

  /** Why a file takes nothing of a write that asks for something. */
  ghost predicate Refuses(n: T.Node, start: nat, free: seq<Frame>, error: T.Errno)
    reads n
  {
    if n.readonly then error == T.ROFS
    else if n.directory then error == T.ISDIR
    else if start >= T.MAX_SIZE then error == T.FBIG
    else error == T.NOMEM && free == []
  }

  /** One piece: from user memory to the file. */
  method WritePiece(m: Memory, sp: AddressSpace, file: T.OpenFile, at: nat, chunk: nat) returns (r: T.Result)
    requires Together(m, sp, file.node) && chunk > 0 && at + chunk <= USER_END
             && RangeAccessible(MemOf(m), sp.V(), at, chunk, false)
    modifies file`offset, file.node`blocks, file.node`size, m`frames, m`free
    ensures Together(m, sp, file.node) && SameReads(old(MemOf(m)), sp.V(), MemOf(m), sp.V())
    ensures r.Ok? ==>
              && 0 < r.count <= chunk && file.Start() == old(file.Start()) + r.count
              && T.Bytes(m, file.node)
                   == T.Written(old(T.Bytes(m, file.node)), old(file.Start()),
                                UserBytes(old(MemOf(m)), sp.V(), at, r.count))
              && (r.count == chunk || file.Start() == T.MAX_SIZE || m.free == [])
              && file.offset == file.Start() && !file.node.readonly && !file.node.directory
              && file.Start() <= T.MAX_SIZE
    ensures r.Err? ==> Refuses(file.node, old(file.Start()), m.free, r.error)
    ensures r.Err? ==> T.Bytes(m, file.node) == old(T.Bytes(m, file.node))
    ensures r.Err? ==>
              file.offset == if file.node.readonly || file.node.directory then old(file.offset) else old(file.Start())
  {
    hide Core, RangeAccessible, ByteAt, T.FileOk, T.FlatBytes, T.Spent, SameReads, T.Written;
    ghost var a, s, blocks := MemOf(m), sp.V(), file.node.blocks;
    Forget(a, s, T.Used(blocks));
    var ok, bytes := CopyFrom(m, sp, at, chunk);
    r := file.Write(m, bytes);
    FileStep(a, MemOf(m), s, blocks, file.node.blocks);
    UndisturbedReads(a, MemOf(m), s);
    if r.Ok? {
      assert bytes[..r.count] == UserBytes(a, s, at, r.count);
      WrittenLength(old(T.Bytes(m, file.node)), old(file.Start()), bytes[..r.count]);
      NodeSize(m, file.node);
    }
  }

  lemma ReadsItself(a: Mem, s: View)
    ensures SameReads(a, s, a, s)
  {
  }

  lemma WrittenLength(content: seq<Byte>, offset: nat, data: seq<Byte>)
    ensures |T.Written(content, offset, data)| ==
              if data != [] && offset + |data| > |content| then offset + |data| else |content|
  {
  }

  lemma NodeSize(m: Memory, n: T.Node)
    requires T.NodeOk(m, n)
    ensures |T.Bytes(m, n)| == n.size && (n.payload.None? ==> n.size <= T.MAX_SIZE)
  {
  }

  /** write(2) on a regular file. The whole range is checked first; then the file
      takes exactly the user's first `count` bytes, as if in one piece, and user
      memory reads as before. A short count means the size limit or no memory. */
  method WriteCall(m: Memory, sp: AddressSpace, file: T.OpenFile, writable: bool, address: nat, size: nat)
    returns (r: Reply)
    requires Together(m, sp, file.node)
    modifies file`offset, file.node`blocks, file.node`size, m`frames, m`free
    ensures Together(m, sp, file.node) && SameReads(old(MemOf(m)), sp.V(), MemOf(m), sp.V())
    ensures r.BadFd? <==> !writable
    ensures r.Fault? <==> writable && !MayAccess(old(MemOf(m)), sp.V(), address, size, false)
    ensures r.Count? ==>
              && r.count <= size
              && T.Bytes(m, file.node)
                   == T.Written(old(T.Bytes(m, file.node)), old(file.Start()),
                                UserBytes(old(MemOf(m)), sp.V(), address, r.count))
              && (r.count == size || old(file.Start()) + r.count == T.MAX_SIZE || m.free == [])
              && (r.count == 0 <==> size == 0) && (r.count > 0 ==> file.offset == old(file.Start()) + r.count)
    ensures r.FileError? ==> size > 0 && Refuses(file.node, old(file.Start()), m.free, r.error)
    ensures !r.Count? ==> T.Bytes(m, file.node) == old(T.Bytes(m, file.node))
  {
    hide Core, RangeAccessible, ByteAt, T.FileOk, T.FlatBytes, SameReads, T.Written, T.NodeOk;
    ghost var a, s, was, start := MemOf(m), sp.V(), T.Bytes(m, file.node), file.Start();
    ReadsItself(a, s);
    T.WrittenNothing(was, start);
    if !writable {
      return BadFd;
    }
    Forget(a, s, T.Used(file.node.blocks));
    var valid := size <= INT64_MAX;
    if valid {
      valid := Validate(m, sp, address, size, false);
    }
    if !valid {
      return Fault;
    }
    var done := 0;
    assert UserBytes(a, s, address, 0) == [];
    while done < size
      invariant 0 <= done <= size && Together(m, sp, file.node) && SameReads(a, s, MemOf(m), s) && sp.V() == s
      invariant file.Start() == start + done
                && (done > 0 ==>
                     file.offset == start + done && !file.node.readonly && !file.node.directory
                     && start + done <= T.MAX_SIZE)
      invariant T.Bytes(m, file.node) == T.Written(was, start, UserBytes(a, s, address, done))
      decreases size - done
    {
      var chunk := if size - done > BUFFER then BUFFER else size - done;
      ghost var b := MemOf(m);
      SubRange(a, s, address, size, address + done, chunk, false);
      SameRange(a, b, s, address + done, chunk, false);
      var n := WritePiece(m, sp, file, address + done, chunk);
      SameReadsTwice(a, b, MemOf(m), s);
      if n.Err? {
        return if done > 0 then Count(done) else FileError(n.error);
      }
      SameUserBytes(a, b, s, address + done, n.count);
      assert UserBytes(a, s, address, done + n.count)
               == UserBytes(a, s, address, done) + UserBytes(a, s, address + done, n.count);
      T.WrittenMore(was, start, UserBytes(a, s, address, done), UserBytes(a, s, address + done, n.count));
      done := done + n.count;
      if n.count < chunk {
        break;
      }
    }
    r := Count(done);
  }

  // ----- reading from a file

  /** One piece: from the file to user memory. */
  method ReadPiece(m: Memory, sp: AddressSpace, file: T.OpenFile, at: nat, chunk: nat) returns (bytes: seq<Byte>)
    requires Together(m, sp, file.node) && !file.node.directory && chunk > 0 && at + chunk <= USER_END
    requires RangeAccessible(MemOf(m), sp.V(), at, chunk, true)
    modifies file`offset, m`frames
    ensures Together(m, sp, file.node) && T.Bytes(m, file.node) == old(T.Bytes(m, file.node))
    ensures file.offset == old(file.offset) + |bytes| && Overlaid(old(MemOf(m)), MemOf(m), sp.V(), at, bytes)
    ensures bytes == if old(file.offset) >= file.node.size then []
                     else T.Bytes(m,
                                  file.node)[old(file.offset)..old(file.offset)
                                             + Min(chunk, file.node.size - old(file.offset))]
  {
    hide Core, RangeAccessible, ByteAt, T.FileOk, T.FlatBytes, Conserves, Overlaid;
    ghost var a, s := MemOf(m), sp.V();
    var r;
    r, bytes := file.Read(m, chunk);
    OverlaidNothing(a, s, at);
    if |bytes| > 0 {
      Forget(a, s, T.Used(file.node.blocks));
      SubRange(a, s, at, chunk, at, |bytes|, true);
      var ok, done := CopyTo(m, sp, at, bytes);
      assert bytes[..|bytes|] == bytes;
      UserStep(a, MemOf(m), s, file.node.blocks);
      ConservesKeys(a, s, MemOf(m));
      FileKept(a.frames, m.frames, m.free, file.node.blocks, T.InBlocks(file.node));
    }
  }

  lemma ConservesKeys(a: Mem, s: View, b: Mem)
    requires Conserves(a, s, {}, {}, b, s, {}, {})
    ensures a.frames.Keys == b.frames.Keys
  {
  }

  /** read(2) on a regular file: exactly the next bytes of the file, up to the end
      or the size asked for, stand in user memory, and nothing else changed. */
  method ReadCall(m: Memory, sp: AddressSpace, file: T.OpenFile, readable: bool, address: nat, size: nat)
    returns (r: Reply)
    requires Together(m, sp, file.node)
    modifies file`offset, m`frames
    ensures Together(m, sp, file.node) && T.Bytes(m, file.node) == old(T.Bytes(m, file.node))
    ensures r.BadFd? <==> !readable
    ensures r.Fault? <==> readable && !MayAccess(old(MemOf(m)), sp.V(), address, size, true)
    ensures r.FileError? <==>
              readable && MayAccess(old(MemOf(m)), sp.V(), address, size, true) && file.node.directory && size > 0
    ensures r.Count? ==>
              && r.count
                   == (if old(file.offset) >= file.node.size then 0 else Min(size, file.node.size - old(file.offset)))
              && file.offset == old(file.offset) + r.count
              && Overlaid(old(MemOf(m)), MemOf(m), sp.V(), address,
                          Slice(T.Bytes(m, file.node), old(file.offset), r.count))
    ensures !r.Count? ==> Overlaid(old(MemOf(m)), MemOf(m), sp.V(), address, []) && file.offset == old(file.offset)
  {
    hide Core, RangeAccessible, ByteAt, T.FileOk, T.FlatBytes, Overlaid, Slice, T.NodeOk;
    ghost var a, s, was, start := MemOf(m), sp.V(), T.Bytes(m, file.node), file.offset;
    OverlaidNothing(a, s, address);
    NodeSize(m, file.node);
    SliceNothing(was, start);
    if !readable {
      return BadFd;
    }
    Forget(a, s, T.Used(file.node.blocks));
    var valid := size <= INT64_MAX;
    if valid {
      valid := Validate(m, sp, address, size, true);
    }
    if !valid {
      return Fault;
    }
    var done := 0;
    while done < size
      invariant 0 <= done <= size && Together(m, sp, file.node) && T.Bytes(m, file.node) == was && sp.V() == s
      invariant file.offset == start + done && (done > 0 ==> start + done <= file.node.size && !file.node.directory)
      invariant Overlaid(a, MemOf(m), s, address, Slice(was, start, done))
      decreases size - done
    {
      if file.node.directory {
        return FileError(T.ISDIR);
      }
      var chunk := if size - done > BUFFER then BUFFER else size - done;
      ghost var b := MemOf(m);
      SubRange(a, s, address, size, address + done, chunk, true);
      OverlaidRange(a, b, s, address, Slice(was, start, done), address + done, chunk);
      var bytes := ReadPiece(m, sp, file, address + done, chunk);
      SliceMore(was, start, done, bytes);
      OverlaidMore(a, b, MemOf(m), s, address, Slice(was, start, done), bytes);
      done := done + |bytes|;
      if |bytes| < chunk {
        break;
      }
    }
    r := Count(done);
  }

  /** `n` bytes from an offset, which must be there. */
  function Slice(content: seq<Byte>, offset: nat, n: nat): seq<Byte> {
    if n == 0 || offset + n > |content| then [] else content[offset..offset + n]
  }

  lemma SliceNothing(s: seq<Byte>, start: nat)
    ensures Slice(s, start, 0) == []
  {
  }

  lemma SliceMore(content: seq<Byte>, offset: nat, n: nat, more: seq<Byte>)
    requires n > 0 ==> offset + n <= |content|
    requires more == [] || (offset + n + |more| <= |content| && more == content[offset + n..offset + n + |more|])
    ensures Slice(content, offset, n) + more == Slice(content, offset, n + |more|) && |Slice(content, offset, n)| == n
  {
  }

  lemma OverlaidRange(a: Mem, b: Mem, s: View, address: nat, data: seq<Byte>, at: nat, n: nat)
    requires Overlaid(a, b, s, address, data) && RangeAccessible(a, s, at, n, true)
    ensures RangeAccessible(b, s, at, n, true)
  {
    hide RangeAccessible, ByteAt;
    SameAccess(a, b, s, at, n, true);
  }
}
