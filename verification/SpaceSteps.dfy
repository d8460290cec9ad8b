/** The elementary ownership transfers that address-space operations are made of. */
module SpaceSteps {
  import opened Physical
  import opened PageTable
  import opened Vm
  import opened Heap
  import opened Space

  // ----- changes of global memory that leave the address space alone

  /** An address space survives any change of memory that leaves its own frames alone. */
  lemma CoreKept(a: Mem, b: Mem, sp: View, hf: set<Frame>, hr: set<Ptr>, hf': set<Frame>, hr': set<Ptr>)
    requires Core(a, sp, hf, hr) && MemOk(b)
    requires Agree(a.frames, b.frames, sp.shape.pos.Keys + PhysOf(sp.pages))
    requires FramesApart(b, sp, hf') && RecordsOk(b, sp, hr')
    ensures Core(b, sp, hf', hr') && Leaves(b.frames, sp.shape) == Leaves(a.frames, sp.shape)
            && SameBytes(a, b, sp.pages)
    ensures NoEmptyTable(a.frames, sp.shape) ==> NoEmptyTable(b.frames, sp.shape)
    ensures forall n: nat :: At(a.frames, sp.shape, Root, n) == At(b.frames, sp.shape, Root, n)
  {
    hide Leaves, MemOk, HeapOk, FreeOk;
    TreeFrame(a.frames, b.frames, USER_SLOTS, sp.shape);
    forall p | p in sp.pages ensures p.phys in PhysOf(sp.pages) {
    }
  }

  lemma AfterKmalloc(a: Mem, b: Mem, sp: View, hf: set<Frame>, hr: set<Ptr>, p: Ptr)
    requires Core(a, sp, hf, hr) && MemOk(b)
    requires Elements(b.free) + Slabs(b.classes) == Elements(a.free) + Slabs(a.classes)
    requires OnlyWithin(a.frames, b.frames, Elements(a.free) + Slabs(a.classes))
    requires p !in LiveIn(a) && LiveIn(b) == LiveIn(a) + {p}
    ensures Core(b, sp, hf, hr + {p}) && Conserves(a, sp, hf, hr, b, sp, hf, hr + {p}) && SameBytes(a, b, sp.pages)
    ensures NoEmptyTable(a.frames, sp.shape) ==> NoEmptyTable(b.frames, sp.shape)
    ensures forall f :: f in hf ==> f in b.frames && b.frames[f] == a.frames[f]
    ensures Leaves(b.frames, sp.shape) == Leaves(a.frames, sp.shape)
  {
    hide Leaves, LiveIn, TreeOk, HeapOk, FreeOk, LedgerOk, LeavesMatch;
    OwnFramesExist(a, sp, hf, hr);
    CoreKept(a, b, sp, hf, hr, hf, hr + {p});
  }

  lemma AfterKfree(a: Mem, b: Mem, sp: View, hf: set<Frame>, hr: set<Ptr>, p: Ptr)
    requires Core(a, sp, hf, hr) && MemOk(b) && p in hr
    requires Elements(b.free) + Slabs(b.classes) == Elements(a.free) + Slabs(a.classes)
    requires OnlyWithin(a.frames, b.frames, Slabs(a.classes))
    requires LiveIn(b) == LiveIn(a) - {p}
    ensures Core(b, sp, hf, hr - {p}) && Conserves(a, sp, hf, hr, b, sp, hf, hr - {p}) && SameBytes(a, b, sp.pages)
    ensures NoEmptyTable(a.frames, sp.shape) ==> NoEmptyTable(b.frames, sp.shape)
    ensures forall f :: f in hf ==> f in b.frames && b.frames[f] == a.frames[f]
    ensures Leaves(b.frames, sp.shape) == Leaves(a.frames, sp.shape)
  {
    hide Leaves, LiveIn, TreeOk, HeapOk, FreeOk, LedgerOk, LeavesMatch;
    OwnFramesExist(a, sp, hf, hr);
    CoreKept(a, b, sp, hf, hr, hf, hr - {p});
  }

  lemma OwnFramesExist(a: Mem, sp: View, hf: set<Frame>, hr: set<Ptr>)
    requires Core(a, sp, hf, hr)
    ensures forall f :: f in sp.shape.pos.Keys + PhysOf(sp.pages) + hf ==> f in a.frames
  {
    forall f | f in sp.shape.pos ensures f in a.frames {
      assert IsTablePage(a.frames, sp.shape.at[sp.shape.pos[f]]);
    }
  }

  lemma AfterAlloc(a: Mem, b: Mem, sp: View, hf: set<Frame>, hr: set<Ptr>, f: Frame)
    requires Core(a, sp, hf, hr) && b == a.(free := b.free) && a.free == [f] + b.free
    ensures Core(b, sp, hf + {f}, hr) && Conserves(a, sp, hf, hr, b, sp, hf + {f}, hr) && SameBytes(a, b, sp.pages)
    ensures NoEmptyTable(a.frames, sp.shape) ==> NoEmptyTable(b.frames, sp.shape)
  {
    hide Leaves, Live, TreeOk, HeapOk, LedgerOk, LeavesMatch;
    OwnFramesExist(a, sp, hf, hr);
    Popped(a.frames, a.free, f, b.free);
    CoreKept(a, b, sp, hf, hr, hf + {f}, hr);
  }

  lemma AfterFree(a: Mem, b: Mem, sp: View, hf: set<Frame>, hr: set<Ptr>, f: Frame)
    requires Core(a, sp, hf, hr) && f in hf && b == a.(free := [f] + a.free, frames := a.frames[f := Raw])
    ensures Core(b, sp, hf - {f}, hr) && Conserves(a, sp, hf, hr, b, sp, hf - {f}, hr) && SameBytes(a, b, sp.pages)
    ensures NoEmptyTable(a.frames, sp.shape) ==> NoEmptyTable(b.frames, sp.shape)
    ensures Leaves(b.frames, sp.shape) == Leaves(a.frames, sp.shape)
  {
    hide Leaves, TreeOk, HeapOk, LedgerOk, LeavesMatch, Live;
    OwnFramesExist(a, sp, hf, hr);
    assert f !in Elements(a.free) && f !in Slabs(a.classes);
    DistinctPrepend(f, a.free);
    SlabsExist(a);
    HeapFrame(a.frames, b.frames, a.classes);
    CoreKept(a, b, sp, hf, hr, hf - {f}, hr);
  }

  lemma SlabsExist(a: Mem)
    requires MemOk(a)
    ensures forall f :: f in Slabs(a.classes) ==> f in a.frames
  {
    forall f | f in Slabs(a.classes) ensures f in a.frames {
      var c :| 0 <= c < |a.classes| && f in a.classes[c];
      assert ListedSlab(a.frames, f, c);
    }
  }

  /** Filling a page nobody can see yet. */
  lemma AfterWrite(a: Mem, b: Mem, sp: View, hf: set<Frame>, hr: set<Ptr>, f: Frame, c: Content)
    requires Core(a, sp, hf, hr) && f in hf && b == a.(frames := a.frames[f := c])
    ensures Core(b, sp, hf, hr) && Conserves(a, sp, hf, hr, b, sp, hf, hr) && SameBytes(a, b, sp.pages)
    ensures NoEmptyTable(a.frames, sp.shape) ==> NoEmptyTable(b.frames, sp.shape)
  {
    hide Leaves, TreeOk, HeapOk, LedgerOk, LeavesMatch, Live;
    OwnFramesExist(a, sp, hf, hr);
    SlabsExist(a);
    assert f !in Elements(a.free) && f !in Slabs(a.classes);
    HeapFrame(a.frames, b.frames, a.classes);
    CoreKept(a, b, sp, hf, hr, hf, hr);
  }

  // ----- page-table steps

  /** A page-table step and the rest of the kernel do not disturb each other. */
  lemma AfterTableStep(a: Mem, b: Mem, sp: View, s': Shape, hf: set<Frame>, hr: set<Ptr>)
    requires Core(a, sp, hf, hr) && b.classes == a.classes
    requires Step(a.frames, a.free, sp.shape, b.frames, b.free, s', USER_SLOTS)
    ensures MemOk(b) && LiveIn(b) == LiveIn(a) && LedgerOk(b.frames, sp.pages) && SameBytes(a, b, sp.pages)
    ensures FramesApart(b, sp.(shape := s'), hf) && RecordsOk(b, sp.(shape := s'), hr)
    ensures Conserves(a, sp, hf, hr, b, sp.(shape := s'), hf, hr)
    ensures forall f :: f in hf ==> f in b.frames && b.frames[f] == a.frames[f]
    ensures TreeOk(b.frames, USER_SLOTS, s') && s'.at[Root] == sp.root
  {
    hide Leaves, TreeOk, HeapOk, LeavesMatch, Live;
    OwnFramesExist(a, sp, hf, hr);
    SlabsExist(a);
    forall f | f in Slabs(a.classes) + PhysOf(sp.pages) + hf
      ensures f !in Elements(a.free) + sp.shape.pos.Keys && f in b.frames && b.frames[f] == a.frames[f]
    {
    }
    HeapFrame(a.frames, b.frames, a.classes);
    forall p | p in sp.pages ensures p.phys in PhysOf(sp.pages) {
    }
  }

  /** Steps that change no translation keep the invariant: a failed map, a prune. */
  lemma AfterQuietTableStep(a: Mem, b: Mem, sp: View, s': Shape, hf: set<Frame>, hr: set<Ptr>)
    requires Core(a, sp, hf, hr) && b.classes == a.classes
    requires Step(a.frames, a.free, sp.shape, b.frames, b.free, s', USER_SLOTS)
    requires Leaves(b.frames, s') == Leaves(a.frames, sp.shape)
    ensures Core(b, sp.(shape := s'), hf, hr) && Conserves(a, sp, hf, hr, b, sp.(shape := s'), hf, hr)
            && SameBytes(a, b, sp.pages)
    ensures forall f :: f in hf ==> b.frames[f] == a.frames[f]
  {
    hide Leaves, MemOk, LedgerOk, LeavesMatch, FramesApart, RecordsOk, Conserves, SameBytes;
    AfterTableStep(a, b, sp, s', hf, hr);
  }

  // ----- publishing and withdrawing a user page

  function WithPage(sp: View, page: UserPage, s': Shape): View {
    sp.(pages := sp.pages + [page], shape := s')
  }

  /** The sets a ledger stands for, after one more record. */
  lemma LedgerPlus(pages: seq<UserPage>, page: UserPage)
    ensures PhysOf(pages + [page]) == PhysOf(pages) + {page.phys}
    ensures PageRecs(pages + [page]) == PageRecs(pages) + {page.rec}
    ensures forall p :: p in pages + [page] <==> p in pages || p == page
  {
    var more := pages + [page];
    assert forall p :: p in more <==> p in pages || p == page;
    assert page in more;
  }

  lemma LedgerOkPlus(frames: Frames, pages: seq<UserPage>, page: UserPage)
    requires LedgerOk(frames, pages) && VaOk(page.va) && FlagsOk(page.flags) && IsDataPage(frames, page.phys)
    requires page.phys !in PhysOf(pages) && page.rec !in PageRecs(pages) && forall p :: p in pages ==> p.va != page.va
    ensures LedgerOk(frames, pages + [page])
  {
    LedgerPlus(pages, page);
  }

  /** A new leaf for a page the ledger did not know. */
  lemma LeavesMatchPlus(leaves: map<Vpn, Pte>, frames: Frames, pages: seq<UserPage>, page: UserPage)
    requires LeavesMatch(leaves, pages) && LedgerOk(frames, pages) && VaOk(page.va)
    requires Leafy(page.flags) ==> VpnOf(page.va) !in leaves
    ensures LeavesMatch(if Leafy(page.flags) then leaves[VpnOf(page.va) := LeafPte(page.phys, page.flags)] else leaves,
                        pages + [page])
  {
    LedgerPlus(pages, page);
    var more := if Leafy(page.flags) then leaves[VpnOf(page.va) := LeafPte(page.phys, page.flags)] else leaves;
    forall v | v in more ensures exists p :: p in pages + [page] && Leafy(p.flags) && VpnOf(p.va) == v {
      if v in leaves {
        var p :| p in pages && Leafy(p.flags) && VpnOf(p.va) == v;
        assert p in pages + [page];
      } else {
        assert page in pages + [page];
      }
    }
  }

  /** Publishing a held page under a held record, with its leaf just installed if it has one. */
  lemma Publish(a: Mem, b: Mem, sp: View, s': Shape, hf: set<Frame>, hr: set<Ptr>, page: UserPage)
    requires Core(a, sp, hf, hr) && b.classes == a.classes
    requires page.phys in hf && page.rec in hr && VaOk(page.va) && FlagsOk(page.flags)
             && IsDataPage(a.frames, page.phys)
    requires forall p :: p in sp.pages ==> p.va != page.va
    requires Step(a.frames, a.free, sp.shape, b.frames, b.free, s', USER_SLOTS)
    requires var v, before := VpnOf(page.va), Leaves(a.frames, sp.shape);
             if Leafy(page.flags) then
               v !in before && Leaves(b.frames, s') == before[v := LeafPte(page.phys, page.flags)]
             else Leaves(b.frames, s') == before
    ensures var t := WithPage(sp, page, s');
            && Core(b, t, hf - {page.phys}, hr - {page.rec})
            && Conserves(a, sp, hf, hr, b, t, hf - {page.phys}, hr - {page.rec})
            && SameBytes(a, b, t.pages)
  {
    hide *;
    CoreParts(a, sp, hf, hr);
    AfterTableStep(a, b, sp, s', hf, hr);
    var sp1, t := sp.(shape := s'), WithPage(sp, page, s');
    SameWithPage(sp, page, s');
    SameDataPage(a.frames, b.frames, page.phys);
    TransferIn(b, sp1, hf, hr, page);
    LedgerOkPlus(b.frames, sp.pages, page);
    LeavesMatchPlus(Leaves(a.frames, sp.shape), a.frames, sp.pages, page);
    ConservesTransitive(a, sp, hf, hr, b, sp1, hf, hr, b, t, hf - {page.phys}, hr - {page.rec});
    SameBytesPlus(a, b, sp.pages, page);
    CoreFromParts(b, t, hf - {page.phys}, hr - {page.rec});
  }

  lemma CoreParts(a: Mem, sp: View, hf: set<Frame>, hr: set<Ptr>)
    requires Core(a, sp, hf, hr)
    ensures MemOk(a) && TreeOk(a.frames, USER_SLOTS, sp.shape) && Root in sp.shape.at && sp.root == sp.shape.at[Root]
    ensures LedgerOk(a.frames, sp.pages) && LeavesMatch(Leaves(a.frames, sp.shape), sp.pages)
    ensures FramesApart(a, sp, hf) && RecordsOk(a, sp, hr)
  {
  }

  lemma CoreFromParts(a: Mem, sp: View, hf: set<Frame>, hr: set<Ptr>)
    requires MemOk(a) && TreeOk(a.frames, USER_SLOTS, sp.shape) && sp.root == sp.shape.at[Root]
    requires LedgerOk(a.frames, sp.pages) && LeavesMatch(Leaves(a.frames, sp.shape), sp.pages)
    requires FramesApart(a, sp, hf) && RecordsOk(a, sp, hr)
    ensures Core(a, sp, hf, hr)
  {
  }

  lemma SameWithPage(sp: View, page: UserPage, s': Shape)
    ensures WithPage(sp, page, s') == WithPage(sp.(shape := s'), page, s')
    ensures WithPage(sp, page, s').pages == sp.pages + [page] && WithPage(sp, page, s').shape == s'
            && WithPage(sp, page, s').root == sp.root
  {
  }

  lemma SameDataPage(a: Frames, b: Frames, f: Frame)
    requires IsDataPage(a, f) && f in b && b[f] == a[f]
    ensures IsDataPage(b, f)
  {
  }

  lemma SameBytesPlus(a: Mem, b: Mem, pages: seq<UserPage>, page: UserPage)
    requires SameBytes(a, b, pages) && page.phys in a.frames && page.phys in b.frames
             && a.frames[page.phys] == b.frames[page.phys]
    ensures SameBytes(a, b, pages + [page])
  {
    LedgerPlus(pages, page);
  }

  /** A held page and a held record move into the ledger. */
  lemma TransferIn(b: Mem, sp: View, hf: set<Frame>, hr: set<Ptr>, page: UserPage)
    requires FramesApart(b, sp, hf) && RecordsOk(b, sp, hr) && page.phys in hf && page.rec in hr
    ensures var t := WithPage(sp, page, sp.shape);
            && FramesApart(b, t, hf - {page.phys}) && RecordsOk(b, t, hr - {page.rec})
            && Conserves(b, sp, hf, hr, b, t, hf - {page.phys}, hr - {page.rec})
            && page.phys !in PhysOf(sp.pages) && page.rec !in PageRecs(sp.pages)
  {
    hide LiveIn, PhysOf, PageRecs, Slabs;
    LedgerPlus(sp.pages, page);
  }

  /** A ledger record moves into the caller's hands. */
  lemma TransferOut(b: Mem, sp: View, n: nat)
    requires LedgerOk(b.frames, sp.pages) && FramesApart(b, sp, {}) && RecordsOk(b, sp, {}) && n < |sp.pages|
    ensures var t := sp.(pages := WithoutPage(sp.pages, n));
            && FramesApart(b, t, {sp.pages[n].phys}) && RecordsOk(b, t, {sp.pages[n].rec})
            && Conserves(b, sp, {}, {}, b, t, {sp.pages[n].phys}, {sp.pages[n].rec})
  {
    hide LiveIn, PhysOf, PageRecs, Slabs;
    LedgerMinus(b.frames, sp.pages, n);
    PhysKnown(b.frames, sp.pages, n);
  }

  lemma PhysKnown(frames: Frames, pages: seq<UserPage>, n: nat)
    requires LedgerOk(frames, pages) && n < |pages|
    ensures pages[n].phys in PhysOf(pages) && pages[n].rec in PageRecs(pages) && pages[n].phys != 0
            && pages[n].phys in frames
  {
    assert pages[n] in pages;
  }

  /** Dropping record number `n`. */
  function WithoutPage(pages: seq<UserPage>, n: nat): seq<UserPage>
    requires n < |pages|
  {
    pages[..n] + pages[n + 1..]
  }

  lemma WithoutMembers(pages: seq<UserPage>, n: nat)
    requires n < |pages| && forall i, j :: 0 <= i < j < |pages| ==> pages[i].va != pages[j].va
    ensures forall p :: p in WithoutPage(pages, n) <==> p in pages && p != pages[n]
  {
    var rest := WithoutPage(pages, n);
    forall p | p in pages && p != pages[n] ensures p in rest {
      var i :| 0 <= i < |pages| && pages[i] == p;
      assert rest[if i < n then i else i - 1] == p;
    }
    forall p | p in rest ensures p in pages && p != pages[n] {
      var i :| 0 <= i < |rest| && rest[i] == p;
      assert p == pages[if i < n then i else i + 1];
    }
  }

  lemma LedgerMinus(frames: Frames, pages: seq<UserPage>, n: nat)
    requires LedgerOk(frames, pages) && n < |pages|
    ensures var rest := WithoutPage(pages, n);
            && LedgerOk(frames, rest)
            && (forall p :: p in rest <==> p in pages && p != pages[n])
            && PhysOf(rest) == PhysOf(pages) - {pages[n].phys}
            && PageRecs(rest) == PageRecs(pages) - {pages[n].rec}
  {
    WithoutMembers(pages, n);
    var rest := WithoutPage(pages, n);
    forall p | p in pages && p != pages[n] ensures p.phys != pages[n].phys && p.rec != pages[n].rec {
      var i :| 0 <= i < |pages| && pages[i] == p;
    }
    WithoutDistinct(frames, pages, n);
  }

  lemma WithoutDistinct(frames: Frames, pages: seq<UserPage>, n: nat)
    requires LedgerOk(frames, pages) && n < |pages|
    ensures LedgerOk(frames, WithoutPage(pages, n))
  {
    hide IsDataPage, VaOk;
    WithoutMembers(pages, n);
    var rest := WithoutPage(pages, n);
    forall i, j | 0 <= i < j < |rest|
      ensures rest[i].va != rest[j].va && rest[i].phys != rest[j].phys && rest[i].rec != rest[j].rec
    {
      var i', j' := if i < n then i else i + 1, if j < n then j else j + 1;
      assert rest[i] == pages[i'] && rest[j] == pages[j'];
    }
  }

  /** Removing the leaf of a page together with its record. */
  lemma LeavesMatchMinus(leaves: map<Vpn, Pte>, frames: Frames, pages: seq<UserPage>, n: nat)
    requires LeavesMatch(leaves, pages) && LedgerOk(frames, pages) && n < |pages|
    ensures LeavesMatch(if Leafy(pages[n].flags) then leaves - {VpnOf(pages[n].va)} else leaves, WithoutPage(pages, n))
  {
    LedgerMinus(frames, pages, n);
    var rest := WithoutPage(pages, n);
    var gone := pages[n];
    forall p | p in rest && Leafy(p.flags) ensures VpnOf(p.va) != VpnOf(gone.va) {
      if VpnOf(p.va) == VpnOf(gone.va) { VpnInjective(p.va, gone.va); }
    }
    var less := if Leafy(gone.flags) then leaves - {VpnOf(gone.va)} else leaves;
    forall v | v in less ensures exists p :: p in rest && Leafy(p.flags) && VpnOf(p.va) == v {
      var p :| p in pages && Leafy(p.flags) && VpnOf(p.va) == v;
      assert p != gone;
    }
  }

  /** Withdrawing record `n`: its page and its record are in the caller's hands again. */
  lemma Withdraw(a: Mem, b: Mem, sp: View, s': Shape, n: nat)
    requires Core(a, sp, {}, {}) && b.classes == a.classes && n < |sp.pages|
    requires Step(a.frames, a.free, sp.shape, b.frames, b.free, s', USER_SLOTS)
    requires var v, before := VpnOf(sp.pages[n].va), Leaves(a.frames, sp.shape);
             Leaves(b.frames, s') == if Leafy(sp.pages[n].flags) then before - {v} else before
    ensures var t := sp.(pages := WithoutPage(sp.pages, n), shape := s');
            && Core(b, t, {sp.pages[n].phys}, {sp.pages[n].rec})
            && Conserves(a, sp, {}, {}, b, t, {sp.pages[n].phys}, {sp.pages[n].rec})
            && SameBytes(a, b, t.pages)
  {
    hide *;
    CoreParts(a, sp, {}, {});
    AfterTableStep(a, b, sp, s', {}, {});
    var sp1, t := sp.(shape := s'), sp.(pages := WithoutPage(sp.pages, n), shape := s');
    var hf, hr := {sp.pages[n].phys}, {sp.pages[n].rec};
    TransferOut(b, sp1, n);
    LedgerMinus(b.frames, sp.pages, n);
    LeavesMatchMinus(Leaves(a.frames, sp.shape), a.frames, sp.pages, n);
    ConservesTransitive(a, sp, {}, {}, b, sp1, {}, {}, b, t, hf, hr);
    SameBytesMinus(a, b, sp.pages, t.pages);
    CoreFromParts(b, t, hf, hr);
  }

  lemma SameBytesMinus(a: Mem, b: Mem, pages: seq<UserPage>, rest: seq<UserPage>)
    requires SameBytes(a, b, pages) && forall p :: p in rest ==> p in pages
    ensures SameBytes(a, b, rest)
  {
  }

  // ----- areas

  lemma AreaRecsPlus(areas: seq<Area>, area: Area)
    ensures AreaRecs(areas + [area]) == AreaRecs(areas) + {area.rec}
  {
    assert forall a :: a in areas + [area] <==> a in areas || a == area;
    assert area in areas + [area];
  }

  /** A held record becomes the record of a new area. */
  lemma AreaIn(b: Mem, sp: View, hf: set<Frame>, hr: set<Ptr>, area: Area)
    requires Core(b, sp, hf, hr) && area.rec in hr
    ensures var t := sp.(areas := sp.areas + [area]);
            Core(b, t, hf, hr - {area.rec}) && Conserves(b, sp, hf, hr, b, t, hf, hr - {area.rec})
  {
    hide TreeOk, Leaves, MemOk, LedgerOk, LeavesMatch, LiveIn, PageRecs, PhysOf, Slabs;
    AreaRecsPlus(sp.areas, area);
    forall i | 0 <= i < |sp.areas| ensures sp.areas[i].rec in AreaRecs(sp.areas) {
      assert sp.areas[i] in sp.areas;
    }
  }

  function WithoutArea(areas: seq<Area>, n: nat): seq<Area>
    requires n < |areas|
  {
    areas[..n] + areas[n + 1..]
  }

  ghost predicate RecsOnce(areas: seq<Area>) {
    forall i, j :: 0 <= i < j < |areas| ==> areas[i].rec != areas[j].rec
  }

  lemma AreaMinus(areas: seq<Area>, n: nat)
    requires n < |areas| && RecsOnce(areas)
    ensures var rest := WithoutArea(areas, n);
            && RecsOnce(rest) && AreaRecs(rest) == AreaRecs(areas) - {areas[n].rec}
            && (forall a :: a in rest <==> a in areas && a != areas[n])
  {
    var rest := WithoutArea(areas, n);
    forall i, j | 0 <= i < j < |rest| ensures rest[i].rec != rest[j].rec {
      assert rest[i] == areas[if i < n then i else i + 1] && rest[j] == areas[if j < n then j else j + 1];
    }
    forall a | a in areas && a != areas[n] ensures a in rest && a.rec != areas[n].rec {
      var i :| 0 <= i < |areas| && areas[i] == a;
      assert rest[if i < n then i else i - 1] == a;
    }
    forall a | a in rest ensures a in areas && a != areas[n] {
      var i :| 0 <= i < |rest| && rest[i] == a;
      assert a == areas[if i < n then i else i + 1];
    }
  }

  /** The record of a removed area is in the caller's hands. */
  lemma AreaOut(b: Mem, sp: View, hf: set<Frame>, hr: set<Ptr>, n: nat)
    requires Core(b, sp, hf, hr) && n < |sp.areas|
    ensures var t := sp.(areas := WithoutArea(sp.areas, n));
            && Core(b, t, hf, hr + {sp.areas[n].rec}) && Conserves(b, sp, hf, hr, b, t, hf, hr + {sp.areas[n].rec})
  {
    hide TreeOk, Leaves, MemOk, LedgerOk, LeavesMatch, LiveIn, PageRecs, PhysOf, Slabs, AreaRecs;
    AreaMinus(sp.areas, n);
    AreaRecKnown(sp.areas, n);
  }

  lemma AreaRecKnown(areas: seq<Area>, n: nat)
    requires n < |areas|
    ensures areas[n].rec in AreaRecs(areas)
  {
    assert areas[n] in areas;
  }

  /** Changing the bounds of an area moves no resource. */
  lemma AreaChanged(b: Mem, sp: View, hf: set<Frame>, hr: set<Ptr>, n: nat, area: Area)
    requires Core(b, sp, hf, hr) && n < |sp.areas| && area.rec == sp.areas[n].rec
    ensures var t := sp.(areas := sp.areas[n := area]);
            Core(b, t, hf, hr) && Conserves(b, sp, hf, hr, b, t, hf, hr)
  {
    hide TreeOk, Leaves, MemOk, LedgerOk, LeavesMatch, LiveIn, PageRecs, PhysOf, Slabs;
    SameAreaRecs(sp.areas, n, area);
  }

  lemma SameAreaRecs(areas: seq<Area>, n: nat, area: Area)
    requires n < |areas| && area.rec == areas[n].rec
    ensures AreaRecs(areas[n := area]) == AreaRecs(areas)
  {
    var changed := areas[n := area];
    forall a | a in areas ensures a.rec in AreaRecs(changed) {
      var i :| 0 <= i < |areas| && areas[i] == a;
      assert changed[i] in changed;
    }
    forall a | a in changed ensures a.rec in AreaRecs(areas) {
      var i :| 0 <= i < |changed| && changed[i] == a;
      assert areas[i] in areas;
    }
  }

  /** Rewriting the bytes of a page in the ledger. */
  lemma AfterPageWrite(a: Mem, b: Mem, sp: View, page: UserPage, bytes: seq<Byte>)
    requires Core(a, sp, {}, {}) && page in sp.pages && |bytes| == PAGE_SIZE
    requires b == a.(frames := a.frames[page.phys := Data(bytes)])
    ensures Core(b, sp, {}, {}) && Conserves(a, sp, {}, {}, b, sp, {}, {})
    ensures Leaves(b.frames, sp.shape) == Leaves(a.frames, sp.shape)
    ensures NoEmptyTable(a.frames, sp.shape) ==> NoEmptyTable(b.frames, sp.shape)
    ensures forall p :: p in sp.pages && p != page ==> p.phys != page.phys && b.frames[p.phys] == a.frames[p.phys]
  {
    hide Leaves, TreeOk, HeapOk, LeavesMatch, Live;
    SlabsExist(a);
    OwnFramesExist(a, sp, {}, {});
    assert page.phys in PhysOf(sp.pages);
    HeapFrame(a.frames, b.frames, a.classes);
    TreeFrame(a.frames, b.frames, USER_SLOTS, sp.shape);
    forall p | p in sp.pages && p != page ensures p.phys != page.phys {
      var i, j :| 0 <= i < |sp.pages| && 0 <= j < |sp.pages| && sp.pages[i] == p && sp.pages[j] == page;
    }
  }
}
