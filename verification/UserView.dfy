/** What a user program sees: every address as one byte with its permissions, read off
    the page table, and how that follows from the ledger of pages. */
module UserView {
  import opened Physical
  import opened PageTable
  import opened Vm
  import opened Heap
  import opened Space
  import opened SpaceOps

  /** The leaf that translates address `x`. */
  ghost function LeafAt(mem: Mem, s: View, x: nat): Pte {
    var leaves := Leaves(mem.frames, s.shape);
    if VpnOf(x) in leaves then leaves[VpnOf(x)] else NO_PTE
  }

  predicate Permits(e: Pte, write: bool) {
    e.v && e.u && e.r && (write ==> e.w)
  }

  /** A user byte that may be read, or written, through the page table. */
  ghost predicate Accessible(mem: Mem, s: View, x: nat, write: bool) {
    x < USER_END && Permits(LeafAt(mem, s, x), write)
  }

  /** An instruction may be fetched there. */
  ghost predicate Executable(mem: Mem, s: View, x: nat) {
    var leaf := LeafAt(mem, s, x); x < USER_END && leaf.v && leaf.u && leaf.x
  }

  /** The byte a user program sees at address `x`. */
  ghost function ByteAt(mem: Mem, s: View, x: nat): Byte {
    var leaf := LeafAt(mem, s, x);
    if leaf.v && IsDataPage(mem.frames, leaf.ppn) then mem.frames[leaf.ppn].bytes[x % PAGE_SIZE] else 0
  }

  /** The user's bytes in a range. */
  ghost function UserBytes(mem: Mem, s: View, address: nat, size: nat): (b: seq<Byte>)
    ensures |b| == size
  {
    seq<Byte>(size, i requires 0 <= i < size => ByteAt(mem, s, address + i))
  }

  /** The whole range may be accessed. */
  ghost predicate RangeAccessible(mem: Mem, s: View, address: nat, size: nat, write: bool) {
    forall x: nat :: address <= x < address + size ==> Accessible(mem, s, x, write)
  }

  lemma SamePage(x: nat, y: nat)
    requires x / PAGE_SIZE == y / PAGE_SIZE
    ensures VpnOf(x) == VpnOf(y)
  {
    ByPageNumber(x);
    ByPageNumber(y);
  }

  lemma ByPageNumber(x: nat)
    ensures var q := x / PAGE_SIZE; VpnOf(x) == Vpn(q / 0x40000 % 512, q / 0x200 % 512, q % 512)
  {
    assert x / 0x20_0000 == (x / 0x1000) / 0x200;
    assert x / 0x4000_0000 == (x / 0x1000) / 0x40000;
  }

  lemma UserAddress(x: nat)
    requires x < USER_END
    ensures Canonical(x) && VpnOf(x).i < USER_SLOTS && VpnOf(x) == VpnOf(x - x % PAGE_SIZE) && VaOk(x - x % PAGE_SIZE)
  {
    SamePage(x, x - x % PAGE_SIZE);
    VpnOfUser(x - x % PAGE_SIZE);
  }

  lemma SameLeaf(mem: Mem, s: View, x: nat, y: nat)
    requires VpnOf(x) == VpnOf(y)
    ensures LeafAt(mem, s, x) == LeafAt(mem, s, y)
  {
  }

  lemma LeavesAreValid(fr: Frames, s: Shape)
    ensures forall v :: v in Leaves(fr, s) ==> Leaves(fr, s)[v].v
  {
  }

  /** An address with a leaf lies in a ledger page, and the leaf points to that page. */
  lemma LeafIsPage(mem: Mem, s: View, x: nat) returns (p: UserPage)
    requires Core(mem, s, {}, {}) && x < USER_END && LeafAt(mem, s, x).v
    ensures p in s.pages && p.va == x - x % PAGE_SIZE && p.phys == LeafAt(mem, s, x).ppn
            && IsDataPage(mem.frames, p.phys) && Leafy(p.flags)
  {
    hide Leaves, TreeOk, MemOk, FramesApart, RecordsOk, VpnOf;
    UserAddress(x);
    p :| p in s.pages && Leafy(p.flags) && VpnOf(p.va) == VpnOf(x);
    VpnInjective(p.va, x - x % PAGE_SIZE);
  }

  lemma SamePageRecord(a: Mem, s: View, p: UserPage, q: UserPage)
    requires Core(a, s, {}, {}) && p in s.pages && q in s.pages && p != q
    ensures p.va != q.va
  {
    var i, j :| 0 <= i < |s.pages| && 0 <= j < |s.pages| && s.pages[i] == p && s.pages[j] == q;
  }

  lemma SameLeaves(a: Mem, b: Mem, s: View, x: nat)
    requires Leaves(b.frames, s.shape) == Leaves(a.frames, s.shape)
    ensures LeafAt(b, s, x) == LeafAt(a, s, x)
  {
  }

  // ----- what is seen follows from the ledger

  /** The record is of the page that holds `x`. */
  predicate Holds(p: UserPage, x: nat) {
    p.va <= x < p.va + PAGE_SIZE
  }

  /** Inside a page of the ledger the program sees the bytes of its frame with the
      permissions of its record, and nothing if it has neither R nor X. */
  lemma PageSeen(b: Mem, s: View, p: UserPage, x: nat)
    requires Core(b, s, {}, {}) && p in s.pages && Holds(p, x)
    ensures x < USER_END && IsDataPage(b.frames, p.phys)
    ensures forall write: bool :: Accessible(b, s, x, write) <==> p.flags.r && (write ==> p.flags.w)
    ensures Executable(b, s, x) <==> p.flags.x
    ensures ByteAt(b, s, x) == if Leafy(p.flags) then b.frames[p.phys].bytes[x - p.va] else 0
  {
    hide Leaves, TreeOk, MemOk, FramesApart, RecordsOk, VpnOf;
    PageOf(p.va, x);
    UserAddress(x);
    if LeafAt(b, s, x).v {
      LeafOfRecord(b, s, p, x);
    }
  }

  /** A page that is mapped is mapped by its own record. */
  lemma LeafOfRecord(b: Mem, s: View, p: UserPage, x: nat)
    requires Core(b, s, {}, {}) && p in s.pages && p.va == x - x % PAGE_SIZE && x < USER_END
    requires LeafAt(b, s, x).v
    ensures Leafy(p.flags)
  {
    hide Core, LeafAt, Leafy;
    var q := LeafIsPage(b, s, x);
    if q != p { SamePageRecord(b, s, q, p); }
  }

  lemma PageOf(va: nat, x: nat)
    requires va % PAGE_SIZE == 0 && va <= x < va + PAGE_SIZE
    ensures x - x % PAGE_SIZE == va && x % PAGE_SIZE == x - va
    ensures va < USER_END ==> x < USER_END
  {
  }

  /** Outside every page it sees nothing. */
  lemma NothingSeen(b: Mem, s: View, x: nat)
    requires Core(b, s, {}, {}) && x < USER_END && forall p :: p in s.pages ==> !Holds(p, x)
    ensures ByteAt(b, s, x) == 0 && !Executable(b, s, x) && forall write: bool :: !Accessible(b, s, x, write)
  {
    hide Core, LeafAt, VpnOf;
    if LeafAt(b, s, x).v {
      var p := LeafIsPage(b, s, x);
    }
  }

  /** The address shows the same byte with the same permissions. */
  ghost predicate SeenSame(a: Mem, s: View, b: Mem, t: View, x: nat) {
    && ByteAt(b, t, x) == ByteAt(a, s, x)
    && (Accessible(b, t, x, false) <==> Accessible(a, s, x, false))
    && (Accessible(b, t, x, true) <==> Accessible(a, s, x, true))
    && (Executable(b, t, x) <==> Executable(a, s, x))
  }

  /** It does when the same page holds it, with the same bytes, or none before and after. */
  lemma SamePagesSeen(a: Mem, s: View, b: Mem, t: View, x: nat)
    requires Core(a, s, {}, {}) && Core(b, t, {}, {}) && KeptBytes(a, s, b, t) && x < USER_END
    requires forall p :: Holds(p, x) ==> (p in s.pages <==> p in t.pages)
    ensures SeenSame(a, s, b, t, x)
  {
    hide Core, ByteAt, Accessible, Executable;
    if p :| p in s.pages && Holds(p, x) {
      PageSeen(a, s, p, x);
      PageSeen(b, t, p, x);
    } else {
      NothingSeen(a, s, x);
      NothingSeen(b, t, x);
    }
  }
}
