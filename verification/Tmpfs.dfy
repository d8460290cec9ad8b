/** Regular files: sparse blocks of one page each against one flat sequence of bytes. */
module Tmpfs {
  import opened Common
  import opened Physical
  import opened Chunks
  import PageAlloc
  import Space

  const FILE_PAGES: nat := 16
  const MAX_SIZE: nat := 65536

  // ----- a file's bytes

  /** The byte at an offset; a hole reads as zero. */
  ghost function FileByte(frames: Frames, blocks: seq<Frame>, i: nat): Byte
    requires |blocks| == FILE_PAGES && i < MAX_SIZE
  {
    var f := blocks[i / PAGE_SIZE];
    if f != 0 && Space.IsDataPage(frames, f) then frames[f].bytes[i % PAGE_SIZE] else 0
  }

  /** Blocks are data pages of the file alone. */
  ghost predicate BlocksOk(frames: Frames, free: seq<Frame>, blocks: seq<Frame>) {
    && |blocks| == FILE_PAGES
    && (forall i :: 0 <= i < FILE_PAGES && blocks[i] != 0 ==> Space.IsDataPage(frames, blocks[i]) && blocks[i] !in free)
    && (forall i, j :: 0 <= i < j < FILE_PAGES && blocks[i] != 0 ==> blocks[i] != blocks[j])
  }

  /** Bytes beyond the size are zero, also in blocks that exist. */
  ghost predicate ZeroBeyond(frames: Frames, blocks: seq<Frame>, size: nat)
    requires |blocks| == FILE_PAGES
  {
    forall i :: size <= i < MAX_SIZE ==> FileByte(frames, blocks, i) == 0
  }

  ghost predicate FileOk(frames: Frames, free: seq<Frame>, blocks: seq<Frame>, size: nat) {
    FreeOk(frames, free) && BlocksOk(frames, free, blocks) && size <= MAX_SIZE && ZeroBeyond(frames, blocks, size)
  }

  /** The file as one sequence. */
  ghost function FlatBytes(frames: Frames, blocks: seq<Frame>, size: nat): (c: seq<Byte>)
    requires |blocks| == FILE_PAGES && size <= MAX_SIZE
    ensures |c| == size
  {
    seq(size, i requires 0 <= i < size => FileByte(frames, blocks, i))
  }

  /** Zero-padded overwrite of a sequence. Writing nothing changes nothing. */
  function Written(content: seq<Byte>, offset: nat, data: seq<Byte>): (r: seq<Byte>) {
    if data == [] then content
    else
      var end := offset + |data|;
      seq(if end > |content| then end else |content|, i requires 0 <= i =>
          if offset <= i < end then data[i - offset] else if i < |content| then content[i] else 0)
  }

  lemma WrittenMore(content: seq<Byte>, offset: nat, data: seq<Byte>, more: seq<Byte>)
    ensures Written(Written(content, offset, data), offset + |data|, more) == Written(content, offset, data + more)
  {
    hide Written;
    WrittenNothing(content, offset);
    WrittenNothing(Written(content, offset, data), offset + |data|);
    if data == [] {
      assert data + more == more;
    } else if more == [] {
      assert data + more == data;
    } else {
      var one, two, all := Written(content, offset, data),
          Written(Written(content, offset, data), offset + |data|, more), Written(content, offset, data + more);
      WrittenAt(content, offset, data);
      WrittenAt(one, offset + |data|, more);
      WrittenAt(content, offset, data + more);
      assert |two| == |all|;
      assert forall i :: 0 <= i < |all| ==> two[i] == all[i];
    }
  }

  lemma WrittenAt(content: seq<Byte>, offset: nat, data: seq<Byte>)
    requires data != []
    ensures var r, end := Written(content, offset, data), offset + |data|;
            && |r| == (if end > |content| then end else |content|)
            && forall i ::
                 0 <= i < |r| ==>
                   r[i] == if offset <= i < end then data[i - offset] else if i < |content| then content[i] else 0
  {
  }

  /** What was written is read back, and what was there before is read elsewhere. */
  lemma ReadBack(content: seq<Byte>, offset: nat, data: seq<Byte>)
    requires data != []
    ensures var r := Written(content, offset, data);
            && offset + |data| <= |r| && r[offset..offset + |data|] == data
            && (offset <= |content| ==> r[..offset] == content[..offset])
            && (offset + |data| <= |content| ==> r[offset + |data|..] == content[offset + |data|..])
  {
  }

  // ----- one block at a time

  lemma SameBlock(i: nat, j: nat)
    requires i / PAGE_SIZE == j / PAGE_SIZE
    ensures i - j == i % PAGE_SIZE - j % PAGE_SIZE
  {
  }

  /** A new block of zeros in the place of a hole. */
  lemma BlockAdded(a: Frames, free: seq<Frame>, free': seq<Frame>, blocks: seq<Frame>, size: nat, index: nat, f: Frame)
    requires FileOk(a, free, blocks, size) && index < FILE_PAGES && blocks[index] == 0 && free == [f] + free'
             && FreeOk(a, free')
    ensures var b := a[f := Data(seq(PAGE_SIZE, _ => 0))];
            FileOk(b, free', blocks[index := f], size)
            && FlatBytes(b, blocks[index := f], size) == FlatBytes(a, blocks, size)
  {
    var b, blocks' := a[f := Data(seq(PAGE_SIZE, _ => 0))], blocks[index := f];
    Popped(a, free, f, free');
    assert f in free;
    forall i: nat | i < MAX_SIZE ensures FileByte(b, blocks', i) == FileByte(a, blocks, i) {
    }
  }

  /** Bytes stored in one block. */
  lemma BlockWritten(a: Frames, free: seq<Frame>, blocks: seq<Frame>, size: nat, offset: nat, chunk: seq<Byte>)
    requires FileOk(a, free, blocks, size) && offset < MAX_SIZE && offset % PAGE_SIZE + |chunk| <= PAGE_SIZE
             && |chunk| > 0
    requires blocks[offset / PAGE_SIZE] != 0
    ensures var f := blocks[offset / PAGE_SIZE];
            var b := a[f := Data(Overwrite(a[f].bytes, offset % PAGE_SIZE, chunk))];
            var end := offset + |chunk|;
            var size' := if end > size then end else size;
            && FileOk(b, free, blocks, size')
            && FlatBytes(b, blocks, size') == Written(FlatBytes(a, blocks, size), offset, chunk)
  {
    hide ZeroBeyond;
    var f := blocks[offset / PAGE_SIZE];
    var b := a[f := Data(Overwrite(a[f].bytes, offset % PAGE_SIZE, chunk))];
    var end := offset + |chunk|;
    var size' := if end > size then end else size;
    assert end <= MAX_SIZE;
    forall i: nat | i < MAX_SIZE
      ensures FileByte(b, blocks, i) == if offset <= i < end then chunk[i - offset] else FileByte(a, blocks, i) {
      OneFileByte(a, free, blocks, offset, chunk, i);
    }
    StoredContent(a, b, free, blocks, size, offset, chunk);
  }

  lemma OneFileByte(a: Frames, free: seq<Frame>, blocks: seq<Frame>, offset: nat, chunk: seq<Byte>, i: nat)
    requires BlocksOk(a, free, blocks) && offset < MAX_SIZE && offset % PAGE_SIZE + |chunk| <= PAGE_SIZE
             && blocks[offset / PAGE_SIZE] != 0 && i < MAX_SIZE
    ensures var f := blocks[offset / PAGE_SIZE];
            var b := a[f := Data(Overwrite(a[f].bytes, offset % PAGE_SIZE, chunk))];
            FileByte(b, blocks, i) ==
              if offset <= i < offset + |chunk| then chunk[i - offset] else FileByte(a, blocks, i)
  {
    var k, n := offset / PAGE_SIZE, i / PAGE_SIZE;
    assert offset <= i < offset + |chunk| ==> n == k;
    if n == k {
      SameBlock(i, offset);
    }
  }

  lemma StoredContent(a: Frames, b: Frames, free: seq<Frame>, blocks: seq<Frame>, size: nat, offset: nat,
                      chunk: seq<Byte>)
    requires |blocks| == FILE_PAGES && size <= MAX_SIZE && ZeroBeyond(a, blocks, size) && offset + |chunk| <= MAX_SIZE
             && |chunk| > 0
    requires forall i: nat ::
               i < MAX_SIZE ==>
                 FileByte(b, blocks, i) ==
                   if offset <= i < offset + |chunk| then chunk[i - offset] else FileByte(a, blocks, i)
    ensures var end := offset + |chunk|;
            var size' := if end > size then end else size;
            ZeroBeyond(b, blocks, size')
            && FlatBytes(b, blocks, size') == Written(FlatBytes(a, blocks, size), offset, chunk)
  {
    hide FileByte;
  }

  // ----- the node in place

  datatype Errno = ROFS | ISDIR | FBIG | NOMEM | INVAL | SPIPE

  datatype Result = Ok(count: nat) | Err(error: Errno)

  /** A node of the file system. A node of the boot archive has a fixed payload;
      others keep their bytes in blocks. */
  class Node {
    const directory: bool
    const regular: bool
    const readonly: bool
    const payload: Option<seq<Byte>>
    var blocks: seq<Frame>
    var size: nat
  }

  ghost predicate NodeOk(m: Memory, n: Node)
    reads m, n
  {
    && FileOk(m.frames, m.free, n.blocks, InBlocks(n))
    && (n.payload.Some? ==> n.readonly && n.size == |n.payload.value|)
  }

  /** How much of the file is kept in blocks: all of it or nothing. */
  function InBlocks(n: Node): nat
    reads n
  {
    if n.payload.Some? then 0 else n.size
  }

  /** What the file contains. */
  ghost function Bytes(m: Memory, n: Node): seq<Byte>
    requires NodeOk(m, n)
    reads m, n
  {
    if n.payload.Some? then n.payload.value else FlatBytes(m.frames, n.blocks, n.size)
  }

  /** The part of a read that lies in one block. */
  method ReadPiece(m: Memory, n: Node, at: nat, left: nat) returns (piece: seq<Byte>)
    requires NodeOk(m, n) && n.payload.None? && left > 0 && at + left <= n.size
    ensures 0 < |piece| <= left && piece == Bytes(m, n)[at..at + |piece|]
  {
    hide FlatBytes, FileOk;
    FileParts(m.frames, m.free, n.blocks, n.size);
    BlockAt(m.frames, m.free, n.blocks, at);
    var part := Part(at, left);
    var page := n.blocks[at / PAGE_SIZE];
    piece := if page != 0 then Chunk(m.frames[page].bytes, at, left) else seq(part, _ => 0);
    PieceRead(m.frames, m.free, n.blocks, n.size, at, piece);
  }

  /** Reads a slice of the file, over blocks and holes. */
  method PRead(m: Memory, n: Node, size: nat, offset: nat) returns (r: Result, bytes: seq<Byte>)
    requires NodeOk(m, n)
    ensures n.directory ==> r == Err(ISDIR) && bytes == []
    ensures !n.directory ==>
              && r == Ok(|bytes|)
              && bytes == if offset >= n.size then [] else Bytes(m, n)[offset..offset + Min(size, n.size - offset)]
  {
    hide FileOk, FlatBytes;
    FileParts(m.frames, m.free, n.blocks, InBlocks(n));
    bytes := [];
    if n.directory {
      return Err(ISDIR), bytes;
    }
    if offset >= n.size {
      return Ok(0), bytes;
    }
    var count := if size > n.size - offset then n.size - offset else size;
    if n.payload.Some? {
      bytes := n.payload.value[offset..offset + count];
      return Ok(count), bytes;
    }
    var at := offset;
    ghost var flat := FlatBytes(m.frames, n.blocks, n.size);
    while |bytes| < count
      invariant at == offset + |bytes| && |bytes| <= count
      invariant bytes == flat[offset..at]
    {
      var piece := ReadPiece(m, n, at, count - |bytes|);
      var part := |piece|;
      assert flat[offset..at] + flat[at..at + part] == flat[offset..at + part];
      bytes := bytes + piece;
      at := at + part;
    }
    r := Ok(count);
  }

  lemma BlockAt(frames: Frames, free: seq<Frame>, blocks: seq<Frame>, at: nat)
    requires BlocksOk(frames, free, blocks) && at < MAX_SIZE
    ensures at / PAGE_SIZE < FILE_PAGES
            && (blocks[at / PAGE_SIZE] != 0 ==> Space.IsDataPage(frames, blocks[at / PAGE_SIZE]))
  {
  }

  lemma PieceRead(frames: Frames, free: seq<Frame>, blocks: seq<Frame>, size: nat, at: nat, piece: seq<Byte>)
    requires FileOk(frames, free, blocks, size) && at + |piece| <= size && at % PAGE_SIZE + |piece| <= PAGE_SIZE
             && |piece| > 0
    requires var page := blocks[at / PAGE_SIZE];
             piece ==
               if page != 0 then frames[page].bytes[at % PAGE_SIZE..at % PAGE_SIZE + |piece|] else seq(|piece|, _ => 0)
    ensures piece == FlatBytes(frames, blocks, size)[at..at + |piece|]
  {
    forall i | 0 <= i < |piece| ensures piece[i] == FileByte(frames, blocks, at + i) {
      assert (at + i) / PAGE_SIZE == at / PAGE_SIZE;
      SameBlock(at + i, at);
    }
  }

  /** A block for an offset, unless memory is exhausted. */
  method EnsureBlock(m: Memory, n: Node, index: nat) returns (ok: bool)
    requires NodeOk(m, n) && n.payload.None? && index < FILE_PAGES
    modifies n`blocks, m`frames, m`free
    ensures NodeOk(m, n) && Bytes(m, n) == old(Bytes(m, n)) && n.size == old(n.size)
    ensures ok <==> n.blocks[index] != 0
    ensures !ok ==> m.free == [] && old(m.free) == [] && n.blocks == old(n.blocks) && m.frames == old(m.frames)
    ensures Spent(old(m.frames), old(m.free), old(n.blocks), m.frames, m.free, n.blocks)
  {
    hide FileOk, Spent, FlatBytes;
    ghost var a, free, blocks := m.frames, m.free, n.blocks;
    SpentNothing(a, free, blocks);
    FileParts(a, free, blocks, n.size);
    if n.blocks[index] == 0 {
      var f := PageAlloc.Alloc(m);
      if f == 0 {
        return false;
      }
      n.blocks := n.blocks[index := f];
      m.frames := m.frames[f := Data(seq(PAGE_SIZE, _ => 0))];
      BlockAdded(a, free, m.free, blocks, n.size, index, f);
      SpentOne(a, free, m.free, blocks, index, f);
    }
    ok := true;
  }

  lemma FileParts(a: Frames, free: seq<Frame>, blocks: seq<Frame>, size: nat)
    requires FileOk(a, free, blocks, size)
    ensures FreeOk(a, free) && |blocks| == FILE_PAGES && size <= MAX_SIZE && BlocksOk(a, free, blocks)
  {
  }

  ghost function Used(blocks: seq<Frame>): set<Frame> {
    set f | f in blocks && f != 0
  }

  /** The file took pages from the free list only and wrote to its own pages only. */
  ghost predicate Spent(a: Frames, free: seq<Frame>, blocks: seq<Frame>, b: Frames, free': seq<Frame>,
                        blocks': seq<Frame>) {
    && OnlyWithin(a, b, Used(blocks')) && Used(blocks) <= Used(blocks')
    && Elements(free) == Elements(free') + (Used(blocks') - Used(blocks)) && Elements(free') !! Used(blocks')
    && |free| == |free'| + |Used(blocks') - Used(blocks)| && FreeOk(b, free')
  }

  lemma SpentNothing(a: Frames, free: seq<Frame>, blocks: seq<Frame>)
    ensures BlocksOk(a, free, blocks) && FreeOk(a, free) ==> Spent(a, free, blocks, a, free, blocks)
    ensures forall size: nat :: FileOk(a, free, blocks, size) ==> Spent(a, free, blocks, a, free, blocks)
  {
    assert Used(blocks) - Used(blocks) == {};
    forall f | BlocksOk(a, free, blocks) && f in Used(blocks) ensures f !in Elements(free) {
      var i :| 0 <= i < |blocks| && blocks[i] == f;
    }
  }

  lemma SpentOne(a: Frames, free: seq<Frame>, free': seq<Frame>, blocks: seq<Frame>, index: nat, f: Frame)
    requires FreeOk(a, free) && BlocksOk(a, free, blocks) && free == [f] + free' && index < FILE_PAGES
             && blocks[index] == 0
    ensures Spent(a, free, blocks, a[f := Data(seq(PAGE_SIZE, _ => 0))], free', blocks[index := f])
  {
    Popped(a, free, f, free');
    UsedMore(blocks, index, f);
    assert f in free;
    forall g | g in Used(blocks) ensures g !in Elements(free) {
      var i :| 0 <= i < |blocks| && blocks[i] == g;
    }
    assert (Used(blocks) + {f}) - Used(blocks) == {f};
  }

  lemma UsedMore(blocks: seq<Frame>, index: nat, f: Frame)
    requires index < |blocks| && blocks[index] == 0 && f != 0
    ensures Used(blocks[index := f]) == Used(blocks) + {f}
  {
    var more := blocks[index := f];
    assert more[index] == f;
    forall g | g in Used(blocks) ensures g in Used(more) {
      var i :| 0 <= i < |blocks| && blocks[i] == g;
      assert more[i] == g;
    }
  }

  lemma SpentTwice(a: Frames, free: seq<Frame>, blocks: seq<Frame>, b: Frames, free': seq<Frame>, blocks': seq<Frame>,
                   c: Frames, free'': seq<Frame>, blocks'': seq<Frame>)
    requires Spent(a, free, blocks, b, free', blocks') && Spent(b, free', blocks', c, free'', blocks'')
    ensures Spent(a, free, blocks, c, free'', blocks'')
  {
    hide FreeOk;
    var first, second := Used(blocks') - Used(blocks), Used(blocks'') - Used(blocks');
    assert Used(blocks'') - Used(blocks) == first + second;
    assert first !! second;
  }

  /** Stores one block's share of the data and moves the end of the file. */
  method StoreChunk(m: Memory, n: Node, offset: nat, chunk: seq<Byte>)
    requires NodeOk(m, n) && n.payload.None? && offset < MAX_SIZE && offset % PAGE_SIZE + |chunk| <= PAGE_SIZE
             && |chunk| > 0
    requires n.blocks[offset / PAGE_SIZE] != 0
    modifies n`size, m`frames
    ensures NodeOk(m, n) && Bytes(m, n) == Written(old(Bytes(m, n)), offset, chunk)
    ensures Spent(old(m.frames), m.free, n.blocks, m.frames, m.free, n.blocks)
  {
    hide FileOk, Spent, FlatBytes, Written;
    ghost var a := m.frames;
    FileParts(a, m.free, n.blocks, n.size);
    BlockWritten(a, m.free, n.blocks, n.size, offset, chunk);
    SpentWrite(a, m.free, n.blocks, offset / PAGE_SIZE,
               Overwrite(a[n.blocks[offset / PAGE_SIZE]].bytes, offset % PAGE_SIZE, chunk));
    var f := n.blocks[offset / PAGE_SIZE];
    m.frames := m.frames[f := Data(Overwrite(m.frames[f].bytes, offset % PAGE_SIZE, chunk))];
    if offset + |chunk| > n.size {
      n.size := offset + |chunk|;
    }
  }

  lemma SpentWrite(a: Frames, free: seq<Frame>, blocks: seq<Frame>, index: nat, bytes: seq<Byte>)
    requires FreeOk(a, free) && BlocksOk(a, free, blocks) && index < FILE_PAGES && blocks[index] != 0
    ensures Spent(a, free, blocks, a[blocks[index] := Data(bytes)], free, blocks)
  {
    SpentNothing(a, free, blocks);
    assert blocks[index] in Used(blocks);
  }

  /** Truncation: every block goes back to the free list, and the file is empty. */
  method Truncate(m: Memory, n: Node)
    requires NodeOk(m, n) && n.payload.None?
    modifies n`blocks, n`size, m`frames, m`free
    ensures NodeOk(m, n) && Bytes(m, n) == [] && Used(n.blocks) == {}
    ensures Elements(m.free) == Elements(old(m.free)) + Used(old(n.blocks))
            && OnlyWithin(old(m.frames), m.frames, Used(old(n.blocks)))
  {
    hide FlatBytes, ZeroBeyond;
    ghost var a, all, blocks := m.frames, Elements(m.free) + Used(n.blocks), n.blocks;
    var i := 0;
    while i < FILE_PAGES
      invariant 0 <= i <= FILE_PAGES && FreeOk(m.frames, m.free) && BlocksOk(m.frames, m.free, n.blocks)
      invariant forall j :: 0 <= j < i ==> n.blocks[j] == 0
      invariant Elements(m.free) + Used(n.blocks) == all && OnlyWithin(a, m.frames, Used(blocks))
                && Used(n.blocks) <= Used(blocks)
    {
      if n.blocks[i] != 0 {
        BlockGone(m.frames, m.free, n.blocks, i);
        PageAlloc.Free(m, n.blocks[i]);
      } else {
        assert n.blocks[i := 0] == n.blocks;
      }
      n.blocks := n.blocks[i := 0];
      i := i + 1;
    }
    n.size := 0;
    NoBlocks(m.frames, n.blocks);
  }

  lemma BlockGone(frames: Frames, free: seq<Frame>, blocks: seq<Frame>, i: nat)
    requires BlocksOk(frames, free, blocks) && i < FILE_PAGES && blocks[i] != 0
    ensures BlocksOk(frames[blocks[i] := Raw], [blocks[i]] + free, blocks[i := 0])
    ensures Used(blocks) == Used(blocks[i := 0]) + {blocks[i]}
  {
    var less := blocks[i := 0];
    forall g | g in Used(blocks) && g != blocks[i] ensures g in Used(less) {
      var j :| 0 <= j < |blocks| && blocks[j] == g;
      assert less[j] == g;
    }
    forall g | g in Used(less) ensures g in Used(blocks) {
      var j :| 0 <= j < |less| && less[j] == g;
      assert blocks[j] == g;
    }
  }

  lemma NoBlocks(frames: Frames, blocks: seq<Frame>)
    requires |blocks| == FILE_PAGES && forall j :: 0 <= j < FILE_PAGES ==> blocks[j] == 0
    ensures ZeroBeyond(frames, blocks, 0) && Used(blocks) == {} && FlatBytes(frames, blocks, 0) == []
  {
  }

  /** An open description of a node, with its own position. */
  class OpenFile {
    const node: Node
    const append: bool
    var offset: nat

    constructor (n: Node, appending: bool)
      ensures node == n && append == appending && offset == 0
    {
      node, append, offset := n, appending, 0;
    }

    /** Where the next write goes. */
    function Start(): nat
      reads this, node
    {
      if append then node.size else offset
    }

    /** Writes at the position, or at the end of the file. What is written is
        exactly a prefix of the data; the file grows over a zero-filled gap; and
        the write is short only at the size limit or when memory is exhausted. */
    method Write(m: Memory, data: seq<Byte>) returns (r: Result)
      requires NodeOk(m, node)
      modifies this`offset, node`blocks, node`size, m`frames, m`free
      ensures NodeOk(m, node)
      ensures r.Ok? ==>
                && r.count <= |data| && Bytes(m, node) == Written(old(Bytes(m, node)), old(Start()), data[..r.count])
                && offset == old(Start()) + r.count
                && (r.count == |data| || old(Start()) + r.count == MAX_SIZE || m.free == [])
                && (r.count == 0 ==> data == [])
      ensures r.Err? ==> Bytes(m, node) == old(Bytes(m, node)) && m.free == old(m.free)
      ensures r == Err(ROFS) <==> node.readonly
      ensures r == Err(ISDIR) <==> !node.readonly && node.directory
      ensures r == Err(FBIG) <==> !node.readonly && !node.directory && old(Start()) >= MAX_SIZE && data != []
      ensures r.Err? ==> r.error.ROFS? || r.error.ISDIR? || r.error.FBIG? || r.error.NOMEM?
      ensures r == Err(NOMEM) ==> old(m.free) == []
      ensures r.Err? ==> offset == if node.readonly || node.directory then old(offset) else old(Start())
      ensures Spent(old(m.frames), old(m.free), old(node.blocks), m.frames, m.free, node.blocks)
    {
      hide FileOk, Spent, FlatBytes, Written;
      ghost var a, free, blocks, was, start := m.frames, m.free, node.blocks, Bytes(m, node), Start();
      FileParts(a, free, blocks, InBlocks(node));
      SpentNothing(a, free, blocks);
      WrittenNothing(was, start);
      assert data[..0] == [];
      if node.readonly {
        return Err(ROFS);
      }
      if node.directory {
        return Err(ISDIR);
      }
      if append {
        offset := node.size;
      }
      if offset >= MAX_SIZE {
        return if |data| > 0 then Err(FBIG) else Ok(0);
      }
      var done := 0;
      while done < |data| && offset < MAX_SIZE
        invariant 0 <= done <= |data| && offset == start + done && offset <= MAX_SIZE && NodeOk(m, node)
        invariant Bytes(m, node) == Written(was, start, data[..done])
        invariant Spent(a, free, blocks, m.frames, m.free, node.blocks)
        invariant done == 0 ==> m.free == free
        decreases |data| - done
      {
        ghost var b, free', blocks' := m.frames, m.free, node.blocks;
        var part := Part(offset, |data| - done);
        var got := EnsureBlock(m, node, offset / PAGE_SIZE);
        if !got {
          return if done > 0 then Ok(done) else Err(NOMEM);
        }
        SpentTwice(a, free, blocks, b, free', blocks', m.frames, m.free, node.blocks);
        ghost var c := m.frames;
        var chunk := data[done..done + part];
        StoreChunk(m, node, offset, chunk);
        SpentTwice(a, free, blocks, c, m.free, node.blocks, m.frames, m.free, node.blocks);
        WrittenMore(was, start, data[..done], chunk);
        assert data[..done] + chunk == data[..done + part];
        done := done + part;
        offset := offset + part;
      }
      r := Ok(done);
    }

    /** Reads at the position and moves it. */
    method Read(m: Memory, size: nat) returns (r: Result, bytes: seq<Byte>)
      requires NodeOk(m, node)
      modifies this`offset
      ensures node.directory ==> r == Err(ISDIR) && bytes == [] && offset == old(offset)
      ensures !node.directory ==>
                && r == Ok(|bytes|) && offset == old(offset) + |bytes|
                && bytes ==
                     if old(offset) >= node.size then []
                     else Bytes(m, node)[old(offset)..old(offset) + Min(size, node.size - old(offset))]
    {
      r, bytes := PRead(m, node, size, offset);
      if r.Ok? && r.count > 0 {
        offset := offset + r.count;
      }
    }

    /** Moves the position, also beyond the end, within 63 bits. */
    method Seek(delta: int, whence: nat) returns (r: Result)
      requires -0x8000_0000_0000_0000 <= delta < 0x8000_0000_0000_0000 && offset < 0x8000_0000_0000_0000
      requires node.size < 0x8000_0000_0000_0000
      modifies this`offset
      ensures var base := if whence == 0 then 0 else if whence == 1 then old(offset) else node.size;
              if !node.regular then r == Err(SPIPE) && offset == old(offset)
              else if whence <= 2 && 0 <= base + delta < 0x8000_0000_0000_0000 then
                r == Ok(base + delta) && offset == base + delta
              else r == Err(INVAL) && offset == old(offset)
      ensures offset < 0x8000_0000_0000_0000
    {
      if !node.regular {
        return Err(SPIPE);
      }
      var base := if whence == 0 then 0 else if whence == 1 then offset else node.size;
      if whence > 2 || delta < -base || delta > 0x7fff_ffff_ffff_ffff - base {
        return Err(INVAL);
      }
      offset := base + delta;
      r := Ok(base + delta);
    }
  }

  lemma WrittenNothing(content: seq<Byte>, offset: nat)
    ensures Written(content, offset, []) == content
  {
  }
}
