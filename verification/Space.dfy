/** What an address space owns: the ledger of user pages, the areas, and the
    page table, and how the three relate to each other and to global memory. */
module Space {
  import opened Physical
  import opened PageTable
  import opened Vm
  import opened Heap

  const USER_END := 0x40_0000_0000

  datatype Kind = ELF | STACK | HEAP | ANON | FILE

  /** Ownership record of one user page. */
  datatype UserPage = UserPage(rec: Ptr, va: nat, phys: Frame, flags: Flags)

  /** A reserved, page-aligned, half-open range. */
  datatype Area = Area(rec: Ptr, start: nat, end: nat, flags: Flags, kind: Kind)

  /** A snapshot of global memory. */
  datatype Mem = Mem(frames: Frames, free: seq<Frame>, classes: seq<seq<Frame>>)

  /** A snapshot of one address space. */
  datatype View = View(root: Frame, pages: seq<UserPage>, areas: seq<Area>, brkBase: nat, brkEnd: nat, shape: Shape)

  /** The page has a hardware leaf; without R and X it is only reserved. */
  predicate Leafy(flags: Flags) {
    flags.r || flags.x
  }

  ghost function PhysOf(pages: seq<UserPage>): set<Frame> {
    set p | p in pages :: p.phys
  }

  ghost function PageRecs(pages: seq<UserPage>): set<Ptr> {
    set p | p in pages :: p.rec
  }

  ghost function AreaRecs(areas: seq<Area>): set<Ptr> {
    set a | a in areas :: a.rec
  }

  ghost predicate IsDataPage(frames: Frames, f: Frame) {
    f in frames && f != 0 && frames[f].Data? && |frames[f].bytes| == PAGE_SIZE
  }

  predicate VaOk(va: nat) {
    va % PAGE_SIZE == 0 && va < USER_END
  }

  /** A user page, with either no access or an access the hardware can express. */
  predicate FlagsOk(flags: Flags) {
    flags.u && (Leafy(flags) ==> ValidLeafFlags(flags))
  }

  /** Ledger records are well formed; addresses, frames and records occur once. */
  ghost predicate LedgerOk(frames: Frames, pages: seq<UserPage>) {
    && (forall p :: p in pages ==> VaOk(p.va) && FlagsOk(p.flags) && IsDataPage(frames, p.phys))
    && (forall i, j :: 0 <= i < j < |pages| ==>
                         pages[i].va != pages[j].va && pages[i].phys != pages[j].phys && pages[i].rec != pages[j].rec)
  }

  /** A leaf exists exactly for the ledger records with R or X, with their page and flags. */
  ghost predicate LeavesMatch(leaves: map<Vpn, Pte>, pages: seq<UserPage>) {
    && (forall p ::
          p in pages && Leafy(p.flags) ==> VpnOf(p.va) in leaves && leaves[VpnOf(p.va)] == LeafPte(p.phys, p.flags))
    && (forall v :: v in leaves ==> exists p :: p in pages && Leafy(p.flags) && VpnOf(p.va) == v)
  }

  ghost predicate MemOk(mem: Mem) {
    FreeOk(mem.frames, mem.free) && HeapOk(mem.frames, mem.classes) && Elements(mem.free) !! Slabs(mem.classes)
  }

  ghost function LiveIn(mem: Mem): set<Ptr> {
    Live(mem.frames, mem.classes)
  }

  /** Frames of the free list, the heap, the tables, the pages and the ones in
      flight are five disjoint groups. */
  ghost predicate FramesApart(mem: Mem, sp: View, hf: set<Frame>) {
    && Elements(mem.free) !! Slabs(mem.classes) !! sp.shape.pos.Keys !! PhysOf(sp.pages) !! hf
    && forall f :: f in hf ==> f in mem.frames && f != 0
  }

  /** Every record is a live heap object with one owner. */
  ghost predicate RecordsOk(mem: Mem, sp: View, hr: set<Ptr>) {
    && PageRecs(sp.pages) !! AreaRecs(sp.areas) !! hr
    && PageRecs(sp.pages) + AreaRecs(sp.areas) + hr <= LiveIn(mem)
    && (forall i, j :: 0 <= i < j < |sp.areas| ==> sp.areas[i].rec != sp.areas[j].rec)
  }

  /** The ownership invariant, with frames `hf` and records `hr` allocated but
      not published yet. */
  ghost predicate Core(mem: Mem, sp: View, hf: set<Frame>, hr: set<Ptr>) {
    && MemOk(mem)
    && TreeOk(mem.frames, USER_SLOTS, sp.shape) && sp.root == sp.shape.at[Root]
    && LedgerOk(mem.frames, sp.pages)
    && LeavesMatch(Leaves(mem.frames, sp.shape), sp.pages)
    && FramesApart(mem, sp, hf) && RecordsOk(mem, sp, hr)
  }

  /** All the frames an operation on this address space may use. */
  ghost function Region(mem: Mem, sp: View, hf: set<Frame>): set<Frame> {
    Elements(mem.free) + Slabs(mem.classes) + sp.shape.pos.Keys + PhysOf(sp.pages) + hf
  }

  /** Heap objects that belong to somebody else. */
  ghost function Foreign(mem: Mem, sp: View, hr: set<Ptr>): set<Ptr> {
    LiveIn(mem) - PageRecs(sp.pages) - AreaRecs(sp.areas) - hr
  }

  /** From one moment to a later one, no frame was lost or gained, nothing outside
      the region was written, no foreign heap object was freed, and the shared
      kernel half of the root is the same. */
  ghost predicate Conserves(a: Mem, s: View, hf: set<Frame>, hr: set<Ptr>, b: Mem, t: View, hf': set<Frame>,
                            hr': set<Ptr>) {
    && Region(a, s, hf) == Region(b, t, hf')
    && OnlyWithin(a.frames, b.frames, Region(a, s, hf))
    && Foreign(a, s, hr) == Foreign(b, t, hr')
    && t.root == s.root
    && forall n: nat :: USER_SLOTS <= n ==> At(b.frames, t.shape, Root, n) == At(a.frames, s.shape, Root, n)
  }

  /** Pages in the ledger before and after hold the same bytes. */
  ghost predicate SameBytes(a: Mem, b: Mem, pages: seq<UserPage>) {
    forall p :: p in pages ==> p.phys in a.frames && p.phys in b.frames && a.frames[p.phys] == b.frames[p.phys]
  }

  lemma ConservesReflexive(a: Mem, s: View, hf: set<Frame>, hr: set<Ptr>)
    ensures Conserves(a, s, hf, hr, a, s, hf, hr)
  {
  }

  lemma ConservesTransitive(a: Mem, s: View, hf: set<Frame>, hr: set<Ptr>, b: Mem, t: View, hf': set<Frame>,
                            hr': set<Ptr>,
                            c: Mem, u: View, hf'': set<Frame>, hr'': set<Ptr>)
    requires Conserves(a, s, hf, hr, b, t, hf', hr') && Conserves(b, t, hf', hr', c, u, hf'', hr'')
    ensures Conserves(a, s, hf, hr, c, u, hf'', hr'')
  {
  }

  // ----- addresses

  lemma VpnOfUser(a: nat)
    requires VaOk(a)
    ensures Canonical(a) && VpnOf(a).i < USER_SLOTS && VpnOf(a).j < ENTRIES && VpnOf(a).k < ENTRIES
    ensures a == VpnOf(a).i * 0x4000_0000 + VpnOf(a).j * 0x20_0000 + VpnOf(a).k * 0x1000
  {
    var page := a / 0x1000;
    assert a == page * 0x1000;
    assert a / 0x20_0000 == page / 512;
    assert a / 0x4000_0000 == page / 512 / 512;
    assert page / 512 / 512 < USER_SLOTS;
  }

  /** Two user pages with the same page number are the same page. */
  lemma VpnInjective(a: nat, b: nat)
    requires VaOk(a) && VaOk(b) && VpnOf(a) == VpnOf(b)
    ensures a == b
  {
    VpnOfUser(a);
    VpnOfUser(b);
  }
}
