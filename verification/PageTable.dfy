/** The Sv39 page table as a structure: a three-level tree of table frames, and
    the finite map from virtual page numbers to leaves that it stands for. */
module PageTable {
  import opened Physical

  const ENTRIES := 512

  /** Root slots that belong to a user process; the rest is the shared kernel half. */
  const USER_SLOTS := 256

  const NO_PTE := Pte(false, false, false, false, false, false, false, false, 0)

  /** A virtual page number, split into its level-2, level-1 and level-0 indices. */
  datatype Vpn = Vpn(i: nat, j: nat, k: nat)

  /** Where a table frame sits in the tree. */
  datatype Place = Root | Mid(i: nat) | Low(i: nat, j: nat)

  /** The table frames of one tree, in both directions, which makes every frame
      occur at exactly one place. */
  datatype Shape = Shape(at: map<Place, Frame>, pos: map<Frame, Place>)

  predicate IsBranch(e: Pte) {
    e.v && !e.r && !e.w && !e.x
  }

  predicate IsLeaf(e: Pte) {
    e.v && (e.r || e.x)
  }

  function BranchPte(f: Frame): Pte {
    NO_PTE.(v := true, ppn := f)
  }

  const EMPTY_TABLE := Table(seq(ENTRIES, _ => NO_PTE))

  predicate IsTablePage(fr: Frames, f: Frame) {
    f in fr && fr[f].Table? && |fr[f].entries| == ENTRIES
  }

  /** Entry `i` of the table in frame `f`. */
  function Entry(fr: Frames, f: Frame, i: nat): Pte {
    if IsTablePage(fr, f) && i < ENTRIES then fr[f].entries[i] else NO_PTE
  }

  function SetEntry(fr: Frames, f: Frame, i: nat, e: Pte): Frames
    requires IsTablePage(fr, f) && i < ENTRIES
  {
    fr[f := Table(fr[f].entries[i := e])]
  }

  lemma SetEntryReads(fr: Frames, f: Frame, i: nat, e: Pte, g: Frame, n: nat)
    requires IsTablePage(fr, f) && i < ENTRIES
    ensures Entry(SetEntry(fr, f, i, e), g, n) == if g == f && n == i then e else Entry(fr, g, n)
    ensures IsTablePage(SetEntry(fr, f, i, e), g) <==> IsTablePage(fr, g)
  {
  }

  /** The two directions of a shape invert each other. */
  ghost predicate Inverse(s: Shape) {
    && (forall p :: p in s.at ==> s.at[p] in s.pos && s.pos[s.at[p]] == p)
    && (forall f :: f in s.pos ==> s.pos[f] in s.at && s.at[s.pos[f]] == f)
  }

  /** Every place of the shape is legal, has its parent, and holds a table page. */
  ghost predicate PlacesOk(fr: Frames, limit: nat, s: Shape) {
    && Root in s.at
    && forall p :: p in s.at ==>
                     && IsTablePage(fr, s.at[p]) && s.at[p] != 0
                     && (p.Mid? ==> p.i < limit)
                     && (p.Low? ==> Mid(p.i) in s.at && p.j < ENTRIES)
  }

  /** Entry `n` of the table at place `p`. */
  function At(fr: Frames, s: Shape, p: Place, n: nat): Pte {
    if p in s.at then Entry(fr, s.at[p], n) else NO_PTE
  }

  lemma NothingAt(fr: Frames, s: Shape)
    ensures forall p, n: nat :: p !in s.at ==> !At(fr, s, p, n).v
  {
  }

  /** A valid entry is a branch to exactly the table the shape has below it. */
  ghost predicate BranchOk(e: Pte, s: Shape, child: Place) {
    && (e.v <==> child in s.at)
    && (child in s.at ==> IsBranch(e) && e.ppn == s.at[child])
  }

  ghost predicate RootOk(fr: Frames, limit: nat, s: Shape) {
    forall i: nat :: i < limit ==> BranchOk(At(fr, s, Root, i), s, Mid(i))
  }

  ghost predicate MidsOk(fr: Frames, s: Shape) {
    forall i, j: nat :: Mid(i) in s.at && j < ENTRIES ==> BranchOk(At(fr, s, Mid(i), j), s, Low(i, j))
  }

  ghost predicate LowsOk(fr: Frames, s: Shape) {
    forall i, j, k: nat :: At(fr, s, Low(i, j), k).v ==> IsLeaf(At(fr, s, Low(i, j), k))
  }

  /** Frame contents and shape describe the same tree below the first `limit` root slots. */
  ghost predicate TreeOk(fr: Frames, limit: nat, s: Shape) {
    && limit <= ENTRIES
    && Inverse(s) && PlacesOk(fr, limit, s) && RootOk(fr, limit, s) && MidsOk(fr, s) && LowsOk(fr, s)
  }

  /** The page has a valid leaf. */
  ghost predicate Mapped(fr: Frames, s: Shape, v: Vpn) {
    At(fr, s, Low(v.i, v.j), v.k).v
  }

  ghost function MappedPages(fr: Frames, s: Shape): (r: set<Vpn>)
    ensures forall v :: v in r <==> Mapped(fr, s, v)
  {
    var r := set p, k: nat | p in s.at && p.Low? && 0 <= k < ENTRIES
        && Mapped(fr, s, Vpn(p.i, p.j, k)) :: Vpn(p.i, p.j, k);
    assert forall v :: Mapped(fr, s, v) ==> Low(v.i, v.j) in s.at && v == Vpn(v.i, v.j, v.k);
    r
  }

  /** The finite map the tree stands for. */
  ghost function Leaves(fr: Frames, s: Shape): (r: map<Vpn, Pte>)
    ensures forall v :: v in r <==> Mapped(fr, s, v)
    ensures forall v :: v in r ==> r[v] == At(fr, s, Low(v.i, v.j), v.k)
  {
    map v | v in MappedPages(fr, s) :: At(fr, s, Low(v.i, v.j), v.k)
  }

  ghost predicate EmptyTable(fr: Frames, f: Frame) {
    forall n: nat :: n < ENTRIES ==> !Entry(fr, f, n).v
  }

  /** No table below the root is without a valid entry. */
  ghost predicate NoEmptyTable(fr: Frames, s: Shape) {
    forall p :: p in s.at && p != Root ==> !EmptyTable(fr, s.at[p])
  }

  // ----- the tree depends on its own frames only

  lemma TreeFrame(a: Frames, b: Frames, limit: nat, s: Shape)
    requires TreeOk(a, limit, s) && Agree(a, b, s.pos.Keys)
    ensures TreeOk(b, limit, s) && Leaves(a, s) == Leaves(b, s)
    ensures NoEmptyTable(a, s) ==> NoEmptyTable(b, s)
    ensures forall n: nat :: At(a, s, Root, n) == At(b, s, Root, n)
  {
    forall p, n: nat
      ensures At(a, s, p, n) == At(b, s, p, n)
      ensures p in s.at ==> IsTablePage(b, s.at[p])
    {
      if p in s.at { assert s.at[p] in s.pos.Keys; }
    }
    SameEntriesSameLeaves(a, s, b, s);
    if NoEmptyTable(a, s) {
      forall p | p in s.at && p != Root ensures !EmptyTable(b, s.at[p]) {
        var n: nat :| n < ENTRIES && Entry(a, s.at[p], n).v;
        assert At(a, s, p, n).v && Entry(b, s.at[p], n).v;
      }
    }
  }

  lemma SameEntriesSameLeaves(a: Frames, s: Shape, b: Frames, t: Shape)
    requires forall i, j, k: nat :: At(a, s, Low(i, j), k) == At(b, t, Low(i, j), k)
    ensures Leaves(a, s) == Leaves(b, t)
  {
  }

  // ----- the edits every page-table operation is made of

  function AddPlace(s: Shape, p: Place, f: Frame): Shape {
    Shape(s.at[p := f], s.pos[f := p])
  }

  function DropPlace(s: Shape, p: Place): Shape
    requires p in s.at
  {
    Shape(s.at - {p}, s.pos - {s.at[p]})
  }

  /** Seen from the new shape, the only entry that changed is number `n` of place `p`. */
  ghost predicate OneEntryChanged(fr: Frames, s: Shape, fr': Frames, s': Shape, p: Place, n: nat, e: Pte) {
    forall q, l: nat :: q in s'.at ==> At(fr', s', q, l) == if q == p && l == n then e else At(fr, s, q, l)
  }

  /** Hanging an empty table in a fresh frame under entry `n` of place `p`. */
  lemma HangTable(fr: Frames, limit: nat, s: Shape, f: Frame, p: Place, n: nat, child: Place)
    requires Inverse(s) && PlacesOk(fr, limit, s) && p in s.at && n < ENTRIES && child !in s.at && f !in s.pos
             && f in fr
    ensures IsTablePage(fr[f := EMPTY_TABLE], s.at[p])
    ensures var fr' := SetEntry(fr[f := EMPTY_TABLE], s.at[p], n, BranchPte(f));
            var s' := AddPlace(s, child, f);
            && Inverse(s')
            && (forall q :: q in s'.at ==> IsTablePage(fr', s'.at[q]))
            && OneEntryChanged(fr, s, fr', s', p, n, BranchPte(f))
  {
    var fr0 := fr[f := EMPTY_TABLE];
    var fr' := SetEntry(fr0, s.at[p], n, BranchPte(f));
    var s' := AddPlace(s, child, f);
    forall q, l: nat | q in s'.at
      ensures IsTablePage(fr', s'.at[q])
      ensures At(fr', s', q, l) == if q == p && l == n then BranchPte(f) else At(fr, s, q, l)
    {
      SetEntryReads(fr0, s.at[p], n, BranchPte(f), s'.at[q], l);
    }
  }

  /** Cutting off the table at `child`, whose parent entry is number `n` of place `p`. */
  lemma CutTable(fr: Frames, limit: nat, s: Shape, p: Place, n: nat, child: Place)
    requires Inverse(s) && PlacesOk(fr, limit, s) && p in s.at && n < ENTRIES && child in s.at && child != p
    ensures IsTablePage(fr[s.at[child] := Raw], s.at[p])
    ensures var fr' := SetEntry(fr[s.at[child] := Raw], s.at[p], n, NO_PTE);
            var s' := DropPlace(s, child);
            && Inverse(s')
            && (forall q :: q in s'.at ==> IsTablePage(fr', s'.at[q]))
            && OneEntryChanged(fr, s, fr', s', p, n, NO_PTE)
  {
    var f := s.at[child];
    var fr0 := fr[f := Raw];
    assert s.at[p] != f;
    var fr' := SetEntry(fr0, s.at[p], n, NO_PTE);
    var s' := DropPlace(s, child);
    forall q, l: nat | q in s'.at
      ensures IsTablePage(fr', s'.at[q])
      ensures At(fr', s', q, l) == if q == p && l == n then NO_PTE else At(fr, s, q, l)
    {
      SetEntryReads(fr0, s.at[p], n, NO_PTE, s'.at[q], l);
    }
  }

  /** Writing entry `n` of place `p`. */
  lemma WriteTable(fr: Frames, limit: nat, s: Shape, p: Place, n: nat, e: Pte)
    requires Inverse(s) && PlacesOk(fr, limit, s) && p in s.at && n < ENTRIES
    ensures var fr' := SetEntry(fr, s.at[p], n, e);
            && PlacesOk(fr', limit, s)
            && OneEntryChanged(fr, s, fr', s, p, n, e)
  {
    var fr' := SetEntry(fr, s.at[p], n, e);
    forall q, l: nat | q in s.at
      ensures IsTablePage(fr', s.at[q])
      ensures At(fr', s, q, l) == if q == p && l == n then e else At(fr, s, q, l)
    {
      SetEntryReads(fr, s.at[p], n, e, s.at[q], l);
    }
  }

  /** Hanging an empty table under a free root slot maps nothing new. */
  lemma GrowMid(fr: Frames, limit: nat, s: Shape, f: Frame, i: nat)
    requires TreeOk(fr, limit, s) && i < limit && Mid(i) !in s.at && f !in s.pos && f != 0 && f in fr
    ensures IsTablePage(fr[f := EMPTY_TABLE], s.at[Root])
    ensures var fr' := SetEntry(fr[f := EMPTY_TABLE], s.at[Root], i, BranchPte(f));
            var s' := AddPlace(s, Mid(i), f);
            && TreeOk(fr', limit, s') && Leaves(fr', s') == Leaves(fr, s)
            && OneEntryChanged(fr, s, fr', s', Root, i, BranchPte(f))
  {
    HangTable(fr, limit, s, f, Root, i, Mid(i));
    var fr' := SetEntry(fr[f := EMPTY_TABLE], s.at[Root], i, BranchPte(f));
    var s' := AddPlace(s, Mid(i), f);
    forall n: nat | n < limit ensures BranchOk(At(fr', s', Root, n), s', Mid(n)) {
      assert BranchOk(At(fr, s, Root, n), s, Mid(n));
    }
    forall i', j: nat | Mid(i') in s'.at && j < ENTRIES ensures BranchOk(At(fr', s', Mid(i'), j), s', Low(i', j)) {
      if i' != i { assert BranchOk(At(fr, s, Mid(i'), j), s, Low(i', j)); }
    }
    SameEntriesSameLeaves(fr, s, fr', s');
  }

  /** Hanging an empty table under a free level-1 slot maps nothing new. */
  lemma GrowLow(fr: Frames, limit: nat, s: Shape, f: Frame, i: nat, j: nat)
    requires TreeOk(fr, limit, s) && Mid(i) in s.at && j < ENTRIES && Low(i, j) !in s.at
    requires f !in s.pos && f != 0 && f in fr
    ensures IsTablePage(fr[f := EMPTY_TABLE], s.at[Mid(i)])
    ensures var fr' := SetEntry(fr[f := EMPTY_TABLE], s.at[Mid(i)], j, BranchPte(f));
            var s' := AddPlace(s, Low(i, j), f);
            && TreeOk(fr', limit, s') && Leaves(fr', s') == Leaves(fr, s)
            && OneEntryChanged(fr, s, fr', s', Mid(i), j, BranchPte(f))
  {
    HangTable(fr, limit, s, f, Mid(i), j, Low(i, j));
    var fr' := SetEntry(fr[f := EMPTY_TABLE], s.at[Mid(i)], j, BranchPte(f));
    var s' := AddPlace(s, Low(i, j), f);
    forall n: nat | n < limit ensures BranchOk(At(fr', s', Root, n), s', Mid(n)) {
      assert BranchOk(At(fr, s, Root, n), s, Mid(n));
    }
    forall i', j': nat | Mid(i') in s'.at && j' < ENTRIES ensures BranchOk(At(fr', s', Mid(i'), j'), s', Low(i', j')) {
      assert BranchOk(At(fr, s, Mid(i'), j'), s, Low(i', j'));
    }
    SameEntriesSameLeaves(fr, s, fr', s');
  }

  /** Writing a leaf slot changes the map at that page and nowhere else. */
  lemma SetLeaf(fr: Frames, limit: nat, s: Shape, v: Vpn, e: Pte)
    requires TreeOk(fr, limit, s) && Low(v.i, v.j) in s.at && v.k < ENTRIES
    requires e.v ==> IsLeaf(e)
    ensures var fr' := SetEntry(fr, s.at[Low(v.i, v.j)], v.k, e);
            && TreeOk(fr', limit, s)
            && Leaves(fr', s) == (if e.v then Leaves(fr, s)[v := e] else Leaves(fr, s) - {v})
            && OneEntryChanged(fr, s, fr', s, Low(v.i, v.j), v.k, e)
  {
    WriteTable(fr, limit, s, Low(v.i, v.j), v.k, e);
    var fr' := SetEntry(fr, s.at[Low(v.i, v.j)], v.k, e);
    forall n: nat | n < limit ensures BranchOk(At(fr', s, Root, n), s, Mid(n)) {
      assert BranchOk(At(fr, s, Root, n), s, Mid(n));
    }
    forall i', j': nat | Mid(i') in s.at && j' < ENTRIES ensures BranchOk(At(fr', s, Mid(i'), j'), s, Low(i', j')) {
      assert BranchOk(At(fr, s, Mid(i'), j'), s, Low(i', j'));
    }
    OneLeafChanged(fr, s, fr', v, e);
  }

  lemma OneLeafChanged(fr: Frames, s: Shape, fr': Frames, v: Vpn, e: Pte)
    requires Low(v.i, v.j) in s.at && OneEntryChanged(fr, s, fr', s, Low(v.i, v.j), v.k, e)
    ensures Leaves(fr', s) == if e.v then Leaves(fr, s)[v := e] else Leaves(fr, s) - {v}
  {
    forall u: Vpn
      ensures At(fr', s, Low(u.i, u.j), u.k) == if u == v then e else At(fr, s, Low(u.i, u.j), u.k)
    {
    }
  }

  /** Cutting off an empty level-0 table unmaps nothing. */
  lemma CutLow(fr: Frames, limit: nat, s: Shape, i: nat, j: nat)
    requires TreeOk(fr, limit, s) && Low(i, j) in s.at && EmptyTable(fr, s.at[Low(i, j)])
    ensures IsTablePage(fr[s.at[Low(i, j)] := Raw], s.at[Mid(i)])
    ensures var fr' := SetEntry(fr[s.at[Low(i, j)] := Raw], s.at[Mid(i)], j, NO_PTE);
            var s' := DropPlace(s, Low(i, j));
            && TreeOk(fr', limit, s') && Leaves(fr', s') == Leaves(fr, s)
            && OneEntryChanged(fr, s, fr', s', Mid(i), j, NO_PTE)
  {
    hide Leaves, SetEntry, At, Inverse;
    CutTable(fr, limit, s, Mid(i), j, Low(i, j));
    var fr' := SetEntry(fr[s.at[Low(i, j)] := Raw], s.at[Mid(i)], j, NO_PTE);
    var s' := DropPlace(s, Low(i, j));
    forall n: nat | n < limit ensures BranchOk(At(fr', s', Root, n), s', Mid(n)) {
      assert BranchOk(At(fr, s, Root, n), s, Mid(n));
    }
    forall i', j': nat | Mid(i') in s'.at && j' < ENTRIES ensures BranchOk(At(fr', s', Mid(i'), j'), s', Low(i', j')) {
      assert BranchOk(At(fr, s, Mid(i'), j'), s, Low(i', j'));
    }
    NothingAt(fr', s');
    DroppedWasEmpty(fr, s, fr', s', Low(i, j));
  }

  /** Cutting off an empty level-1 table unmaps nothing. */
  lemma CutMid(fr: Frames, limit: nat, s: Shape, i: nat)
    requires TreeOk(fr, limit, s) && Mid(i) in s.at && EmptyTable(fr, s.at[Mid(i)])
    ensures IsTablePage(fr[s.at[Mid(i)] := Raw], s.at[Root])
    ensures var fr' := SetEntry(fr[s.at[Mid(i)] := Raw], s.at[Root], i, NO_PTE);
            var s' := DropPlace(s, Mid(i));
            && TreeOk(fr', limit, s') && Leaves(fr', s') == Leaves(fr, s)
            && OneEntryChanged(fr, s, fr', s', Root, i, NO_PTE)
  {
    CutTable(fr, limit, s, Root, i, Mid(i));
    var fr' := SetEntry(fr[s.at[Mid(i)] := Raw], s.at[Root], i, NO_PTE);
    var s' := DropPlace(s, Mid(i));
    forall j: nat | j < ENTRIES ensures Low(i, j) !in s.at {
      assert BranchOk(At(fr, s, Mid(i), j), s, Low(i, j));
    }
    forall n: nat | n < limit ensures BranchOk(At(fr', s', Root, n), s', Mid(n)) {
      assert BranchOk(At(fr, s, Root, n), s, Mid(n));
    }
    forall i', j': nat | Mid(i') in s'.at && j' < ENTRIES ensures BranchOk(At(fr', s', Mid(i'), j'), s', Low(i', j')) {
      assert BranchOk(At(fr, s, Mid(i'), j'), s, Low(i', j'));
    }
    DroppedWasEmpty(fr, s, fr', s', Mid(i));
  }

  lemma DroppedWasEmpty(fr: Frames, s: Shape, fr': Frames, s': Shape, p: Place)
    requires p in s.at && s' == DropPlace(s, p) && EmptyTable(fr, s.at[p])
    requires forall i, j, k: nat :: Low(i, j) in s'.at ==> At(fr', s', Low(i, j), k) == At(fr, s, Low(i, j), k)
    ensures Leaves(fr', s') == Leaves(fr, s)
  {
    forall i, j, k: nat
      ensures At(fr', s', Low(i, j), k) == At(fr, s, Low(i, j), k)
              || (Low(i, j) == p && !At(fr, s, p, k).v && !At(fr', s', p, k).v) {
    }
  }

  // ----- canonical shape

  /** The tables that a set of mapped pages needs: the root, one level-1 table per
      level-2 index in use, one level-0 table per pair of upper indices in use. */
  function MidPlaces(pages: set<Vpn>): set<Place> {
    set v | v in pages :: Mid(v.i)
  }

  function LowPlaces(pages: set<Vpn>): set<Place> {
    set v | v in pages :: Low(v.i, v.j)
  }

  lemma {:induction false} AsManyFramesAsPlaces(s: Shape)
    requires Inverse(s)
    ensures |s.at.Keys| == |s.pos.Keys|
    decreases |s.at.Keys|
  {
    if s.at.Keys == {} {
      assert s.pos.Keys == {};
    } else {
      var p :| p in s.at.Keys;
      var t := DropPlace(s, p);
      assert t.at.Keys == s.at.Keys - {p} && t.pos.Keys == s.pos.Keys - {s.at[p]};
      AsManyFramesAsPlaces(t);
    }
  }

  /** With no empty table, a place has a table exactly when a mapped page needs it. */
  lemma PlacesAreNeeded(fr: Frames, limit: nat, s: Shape)
    requires TreeOk(fr, limit, s) && NoEmptyTable(fr, s)
    ensures s.at.Keys == {Root} + MidPlaces(MappedPages(fr, s)) + LowPlaces(MappedPages(fr, s))
  {
    var pages := MappedPages(fr, s);
    forall p | p in s.at ensures p in {Root} + MidPlaces(pages) + LowPlaces(pages) {
      if p != Root {
        var n: nat :| n < ENTRIES && Entry(fr, s.at[p], n).v;
        if p.Low? {
          assert Mapped(fr, s, Vpn(p.i, p.j, n));
        } else {
          assert BranchOk(At(fr, s, p, n), s, Low(p.i, n));
          var k: nat :| k < ENTRIES && Entry(fr, s.at[Low(p.i, n)], k).v;
          assert Mapped(fr, s, Vpn(p.i, n, k));
        }
      }
    }
    forall v | v in pages ensures Low(v.i, v.j) in s.at && Mid(v.i) in s.at {
      assert Mapped(fr, s, v);
    }
  }

  /** The exact number of table pages, from the mapped pages alone. */
  lemma TableCount(fr: Frames, limit: nat, s: Shape)
    requires TreeOk(fr, limit, s) && NoEmptyTable(fr, s)
    ensures var pages := MappedPages(fr, s);
            |s.pos| == 1 + |MidPlaces(pages)| + |LowPlaces(pages)|
  {
    var pages := MappedPages(fr, s);
    AsManyFramesAsPlaces(s);
    PlacesAreNeeded(fr, limit, s);
    assert {Root} !! MidPlaces(pages) && ({Root} + MidPlaces(pages)) !! LowPlaces(pages);
  }
}
