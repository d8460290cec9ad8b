/** The page-table operations of the memory manager. */
module Vm {
  import opened Physical
  import opened PageTable
  import PageAlloc

  /** The flag word of a request; `other` stands for any bit outside R, W, X, U and G. */
  datatype Flags = Flags(r: bool, w: bool, x: bool, u: bool, g: bool, other: bool)

  function VpnIndex(address: nat, level: nat): nat {
    if level == 0 then address / 0x1000 % 512
    else if level == 1 then address / 0x20_0000 % 512
    else address / 0x4000_0000 % 512
  }

  function VpnOf(address: nat): Vpn {
    Vpn(VpnIndex(address, 2), VpnIndex(address, 1), VpnIndex(address, 0))
  }

  /** Bits 63:39 are all zero or all one; bit 38 is not looked at. */
  predicate Canonical(address: nat) {
    address / 0x80_0000_0000 == 0 || address / 0x80_0000_0000 == 0x1ff_ffff
  }

  predicate ValidLeafFlags(flags: Flags) {
    !flags.other && (flags.r || flags.x) && !(flags.w && !flags.r)
  }

  function LeafPte(f: Frame, flags: Flags): Pte {
    Pte(true, flags.r, flags.w, flags.x, flags.u, flags.g, true, flags.w, f)
  }

  /** What every page-table operation may do to memory: it works on the free
      list and on its own table frames, keeps both apart, loses no frame, keeps the
      root in place and never writes a root slot from `limit` on. */
  ghost predicate Step(fr: Frames, free: seq<Frame>, s: Shape, fr': Frames, free': seq<Frame>, s': Shape, limit: nat) {
    && TreeOk(fr', limit, s') && FreeOk(fr', free') && Elements(free') !! s'.pos.Keys
    && Elements(free') + s'.pos.Keys == Elements(free) + s.pos.Keys
    && OnlyWithin(fr, fr', Elements(free) + s.pos.Keys)
    && Root in s.at && s'.at[Root] == s.at[Root]
    && forall n: nat :: limit <= n ==> At(fr', s', Root, n) == At(fr, s, Root, n)
  }

  ghost predicate Ready(fr: Frames, free: seq<Frame>, s: Shape, limit: nat) {
    TreeOk(fr, limit, s) && FreeOk(fr, free) && Elements(free) !! s.pos.Keys
  }

  function Child(p: Place, n: nat): Place
    requires !p.Low?
  {
    if p == Root then Mid(n) else Low(p.i, n)
  }

  /** The tree gained at most the tables in `places`, and no valid entry was lost. */
  ghost predicate Grown(fr: Frames, s: Shape, fr': Frames, s': Shape, places: set<Place>) {
    && (forall p :: p in s.at ==> p in s'.at && s'.at[p] == s.at[p])
    && (forall p :: p in s'.at ==> p in s.at || p in places)
    && (forall p, n: nat :: At(fr, s, p, n).v ==> At(fr', s', p, n).v)
  }

  /** Every place of the tree has a table page of its own. */
  lemma TableFacts(fr: Frames, limit: nat, s: Shape, p: Place)
    requires TreeOk(fr, limit, s) && p in s.at
    ensures IsTablePage(fr, s.at[p]) && s.at[p] in s.pos && s.pos[s.at[p]] == p && s.at[p] != 0 && Root in s.at
    ensures forall q :: q in s.at ==> s.at[q] in s.pos && s.pos[s.at[q]] == q
    ensures forall f :: f in s.pos ==> s.pos[f] in s.at && s.at[s.pos[f]] == f && f in fr
    ensures p.Mid? ==> p.i < limit
  {
  }

  /** Hanging a fresh empty table under an unused entry is a step and maps nothing. */
  lemma Grow(fr: Frames, free: seq<Frame>, s: Shape, limit: nat, f: Frame, rest: seq<Frame>, p: Place, n: nat)
    requires Ready(fr, free, s, limit) && p in s.at && !p.Low? && n < ENTRIES && (p == Root ==> n < limit)
    requires Child(p, n) !in s.at && free == [f] + rest
    ensures f !in rest
    ensures IsTablePage(fr[f := EMPTY_TABLE], s.at[p])
    ensures var fr' := SetEntry(fr[f := EMPTY_TABLE], s.at[p], n, BranchPte(f));
            var s' := AddPlace(s, Child(p, n), f);
            && Step(fr, free, s, fr', rest, s', limit) && Leaves(fr', s') == Leaves(fr, s)
            && OneEntryChanged(fr, s, fr', s', p, n, BranchPte(f))
  {
    hide TreeOk, Leaves, OneEntryChanged;
    Popped(fr, free, f, rest);
    TableFacts(fr, limit, s, p);
    assert f in Elements(free);
    if p == Root {
      GrowMid(fr, limit, s, f, n);
    } else {
      GrowLow(fr, limit, s, f, p.i, n);
    }
  }

  lemma StepTransitive(a: Frames, fa: seq<Frame>, s: Shape, b: Frames, fb: seq<Frame>, t: Shape, c: Frames,
                       fc: seq<Frame>, u: Shape, limit: nat)
    requires Step(a, fa, s, b, fb, t, limit) && Step(b, fb, t, c, fc, u, limit)
    ensures Step(a, fa, s, c, fc, u, limit)
  {
  }

  lemma StepReflexive(fr: Frames, free: seq<Frame>, s: Shape, limit: nat)
    requires Ready(fr, free, s, limit)
    ensures Step(fr, free, s, fr, free, s, limit) && Root in s.at && TreeOk(fr, limit, s)
  {
  }

  lemma GrownAlong(a: Frames, s: Shape, b: Frames, t: Shape, c: Frames, u: Shape, v: Vpn, level: nat)
    requires 0 < level <= 2 && Grown(a, s, b, t, Path(v)) && Grown(b, t, c, u, {PlaceAt(v, level - 1)})
    ensures Grown(a, s, c, u, Path(v))
  {
  }

  lemma GrownByHanging(fr: Frames, s: Shape, f: Frame, p: Place, n: nat)
    requires p in s.at && !p.Low? && n < ENTRIES && Child(p, n) !in s.at && IsTablePage(fr[f := EMPTY_TABLE], s.at[p])
    requires var fr' := SetEntry(fr[f := EMPTY_TABLE], s.at[p], n, BranchPte(f));
             OneEntryChanged(fr, s, fr', AddPlace(s, Child(p, n), f), p, n, BranchPte(f))
    ensures var fr' := SetEntry(fr[f := EMPTY_TABLE], s.at[p], n, BranchPte(f));
            Grown(fr, s, fr', AddPlace(s, Child(p, n), f), {Child(p, n)})
  {
  }

  /** An entry of a table above level 0 leads to a table of the tree or is unused. */
  lemma EntryBelow(fr: Frames, limit: nat, s: Shape, p: Place, n: nat)
    requires TreeOk(fr, limit, s) && p in s.at && !p.Low? && n < ENTRIES && (p == Root ==> n < limit)
    ensures IsTablePage(fr, s.at[p]) && s.at[p] != 0
    ensures Child(p, n) in s.at ==> s.at[Child(p, n)] != 0
    ensures BranchOk(fr[s.at[p]].entries[n], s, Child(p, n))
  {
    TableFacts(fr, limit, s, p);
    assert fr[s.at[p]].entries[n] == At(fr, s, p, n);
    assert p.Mid? ==> p == Mid(p.i);
    if Child(p, n) in s.at {
      TableFacts(fr, limit, s, Child(p, n));
    }
  }

  /** One level of a creating walk: follows entry `n`, hanging a new table there if it is unused. */
  method Descend(m: Memory, table: Frame, n: nat, ghost place: Place, ghost limit: nat, ghost s: Shape)
    returns (next: Frame, ghost s': Shape)
    requires Ready(m.frames, m.free, s, limit) && place in s.at && table == s.at[place]
    requires !place.Low? && n < ENTRIES && (place == Root ==> n < limit)
    modifies m`frames, m`free
    ensures Step(old(m.frames), old(m.free), s, m.frames, m.free, s', limit)
    ensures Leaves(m.frames, s') == Leaves(old(m.frames), s)
    ensures Grown(old(m.frames), s, m.frames, s', {Child(place, n)})
    ensures next != 0 ==> Child(place, n) in s'.at && next == s'.at[Child(place, n)]
    ensures next == 0 ==> Child(place, n) !in s'.at && m.free == []
    ensures s'.at.Keys == s.at.Keys + (if next == 0 then {} else {Child(place, n)})
    ensures |m.free| == |old(m.free)| - (if next == 0 || Child(place, n) in s.at then 0 else 1)
  {
    hide Step, Leaves, Grown, TreeOk, OnlyWithin, OneEntryChanged, SetEntry;
    EntryBelow(m.frames, limit, s, place, n);
    var entry := m.frames[table].entries[n];
    s' := s;
    StepReflexive(m.frames, m.free, s, limit);
    GrownReflexive(m.frames, s, {Child(place, n)});
    if !entry.v {
      var page := PageAlloc.Alloc(m);
      if page == 0 {
        return 0, s;
      }
      Grow(old(m.frames), old(m.free), s, limit, page, m.free, place, n);
      GrownByHanging(old(m.frames), s, page, place, n);
      m.frames := m.frames[page := EMPTY_TABLE];
      m.frames := SetEntry(m.frames, table, n, BranchPte(page));
      s' := AddPlace(s, Child(place, n), page);
      next := page;
    } else {
      // A leaf above level 0 would end the walk; the tree has none.
      assert !entry.r && !entry.w && !entry.x;
      next := entry.ppn;
    }
  }

  /** The place a walk has reached when it is about to read level `level`. */
  ghost function PlaceAt(v: Vpn, level: nat): Place {
    if level >= 2 then Root else if level == 1 then Mid(v.i) else Low(v.i, v.j)
  }

  ghost function Path(v: Vpn): set<Place> {
    {Mid(v.i), Low(v.i, v.j)}
  }

  /** How many tables the path to a page still lacks. */
  ghost function Lacking(s: Shape, v: Vpn): (n: nat)
    ensures n <= 2
  {
    (if Mid(v.i) in s.at then 0 else 1) + (if Low(v.i, v.j) in s.at then 0 else 1)
  }

  /** A mapped page lacks nothing. */
  lemma LackingMeans(fr: Frames, limit: nat, s: Shape, v: Vpn)
    requires TreeOk(fr, limit, s)
    ensures v in Leaves(fr, s) ==> Lacking(s, v) == 0
  {
  }

  /** A creating walk: finds or builds the level-0 table for an address. It fails exactly
      when the free list is too short, and then has used it up. */
  method Walk(m: Memory, root: Frame, address: nat, ghost limit: nat, ghost s: Shape)
    returns (table: Frame, ghost s': Shape)
    requires Ready(m.frames, m.free, s, limit) && root == s.at[Root]
    requires VpnOf(address).i < limit
    modifies m`frames, m`free
    ensures Step(old(m.frames), old(m.free), s, m.frames, m.free, s', limit)
    ensures Leaves(m.frames, s') == Leaves(old(m.frames), s)
    ensures Grown(old(m.frames), s, m.frames, s', Path(VpnOf(address)))
    ensures table != 0 <==> Canonical(address) && |old(m.free)| >= Lacking(s, VpnOf(address))
    ensures table != 0 ==> PlaceAt(VpnOf(address), 0) in s'.at && table == s'.at[PlaceAt(VpnOf(address), 0)]
    ensures table != 0 ==> |m.free| == |old(m.free)| - Lacking(s, VpnOf(address))
    ensures table == 0 ==>
              if Canonical(address) then m.free == [] else m.free == old(m.free) && m.frames == old(m.frames)
  {
    hide Step, Ready, Grown, Leaves, TreeOk;
    s' := s;
    GrownReflexive(m.frames, s, Path(VpnOf(address)));
    StepReflexive(m.frames, m.free, s, limit);
    StepReady(m.frames, m.free, s, m.frames, m.free, s, limit);
    if !Canonical(address) {
      return 0, s;
    }
    table := root;
    var level := 2;
    while level > 0
      invariant 0 <= level <= 2
      invariant Step(old(m.frames), old(m.free), s, m.frames, m.free, s', limit)
      invariant Leaves(m.frames, s') == Leaves(old(m.frames), s)
      invariant Grown(old(m.frames), s, m.frames, s', Path(VpnOf(address)))
      invariant |m.free| + Lacking(s, VpnOf(address)) == |old(m.free)| + Lacking(s', VpnOf(address))
      invariant level == 0 ==> Mid(VpnOf(address).i) in s'.at
      invariant table != 0 && PlaceAt(VpnOf(address), level) in s'.at && table == s'.at[PlaceAt(VpnOf(address), level)]
    {
      ghost var frames, free, t := m.frames, m.free, s';
      StepReady(old(m.frames), old(m.free), s, frames, free, t, limit);
      table, s' := Descend(m, table, VpnIndex(address, level), PlaceAt(VpnOf(address), level), limit, s');
      StepTransitive(old(m.frames), old(m.free), s, frames, free, t, m.frames, m.free, s', limit);
      GrownAlong(old(m.frames), s, frames, t, m.frames, s', VpnOf(address), level);
      StepReady(old(m.frames), old(m.free), s, m.frames, m.free, s', limit);
      if table == 0 {
        return;
      }
      level := level - 1;
    }
  }

  /** A walk that creates nothing. */
  method Find(m: Memory, root: Frame, address: nat, ghost limit: nat, ghost s: Shape) returns (table: Frame)
    requires TreeOk(m.frames, limit, s) && root == s.at[Root]
    requires VpnOf(address).i < limit
    ensures table != 0 <==> Canonical(address) && PlaceAt(VpnOf(address), 0) in s.at
    ensures table != 0 ==> table == s.at[PlaceAt(VpnOf(address), 0)]
  {
    if !Canonical(address) {
      return 0;
    }
    table := root;
    ghost var v := VpnOf(address);
    var level := 2;
    while level > 0
      invariant 0 <= level <= 2
      invariant PlaceAt(v, level) in s.at && table == s.at[PlaceAt(v, level)]
    {
      var entry := m.frames[table].entries[VpnIndex(address, level)];
      assert entry == At(m.frames, s, PlaceAt(v, level), VpnIndex(address, level));
      assert BranchOk(entry, s, PlaceAt(v, level - 1));
      if !entry.v {
        return 0;
      }
      table := entry.ppn;
      level := level - 1;
    }
  }

  lemma WriteLeafStep(fr: Frames, free: seq<Frame>, s: Shape, limit: nat, v: Vpn, e: Pte)
    requires Ready(fr, free, s, limit) && Low(v.i, v.j) in s.at && v.k < ENTRIES && (e.v ==> IsLeaf(e))
    ensures var fr' := SetEntry(fr, s.at[Low(v.i, v.j)], v.k, e);
            && Step(fr, free, s, fr', free, s, limit)
            && Leaves(fr', s) == (if e.v then Leaves(fr, s)[v := e] else Leaves(fr, s) - {v})
            && OneEntryChanged(fr, s, fr', s, Low(v.i, v.j), v.k, e)
  {
    hide TreeOk, Leaves, OneEntryChanged;
    TableFacts(fr, limit, s, Low(v.i, v.j));
    SetLeaf(fr, limit, s, v, e);
  }

  /** A tree grown towards a page that is now mapped has no new empty table. */
  lemma GrownAndMapped(a: Frames, s: Shape, b: Frames, t: Shape, limit: nat, v: Vpn)
    requires TreeOk(a, limit, s) && NoEmptyTable(a, s) && TreeOk(b, limit, t)
    requires Grown(a, s, b, t, Path(v)) && Mapped(b, t, v)
    ensures NoEmptyTable(b, t)
  {
    hide Inverse, LowsOk, RootOk;
    assert At(b, t, Low(v.i, v.j), v.k).v && Low(v.i, v.j) in t.at;
    assert BranchOk(At(b, t, Mid(v.i), v.j), t, Low(v.i, v.j));
    forall p | p in t.at && p != Root ensures !EmptyTable(b, t.at[p]) {
      if p != Low(v.i, v.j) && p != Mid(v.i) {
        assert p in s.at && !EmptyTable(a, s.at[p]);
        var n: nat :| n < ENTRIES && Entry(a, s.at[p], n).v;
        assert At(a, s, p, n).v && At(b, t, p, n).v;
      }
    }
  }

  /** Maps one page.  On success the map gains exactly that page; a failure may
      leave empty tables behind but never changes a translation. */
  method Map(m: Memory, root: Frame, address: nat, f: Frame, flags: Flags, ghost limit: nat, ghost s: Shape)
    returns (ok: bool, ghost s': Shape)
    requires Ready(m.frames, m.free, s, limit) && root == s.at[Root]
    requires VpnOf(address).i < limit
    modifies m`frames, m`free
    ensures Step(old(m.frames), old(m.free), s, m.frames, m.free, s', limit)
    ensures var v, before := VpnOf(address), Leaves(old(m.frames), s);
            && (ok ==> v !in before && Leaves(m.frames, s') == before[v := LeafPte(f, flags)])
            && (!ok ==> Leaves(m.frames, s') == before)
            && (ok <==> address % PAGE_SIZE == 0 && ValidLeafFlags(flags) && Canonical(address) && v !in before
                        && |old(m.free)| >= Lacking(s, v))
            && (ok ==> |m.free| == |old(m.free)| - Lacking(s, v))
            && |m.free| + 2 >= |old(m.free)|
    ensures ok ==> VpnOf(address) in Leaves(m.frames, s') &&
                   var e := Leaves(m.frames, s')[VpnOf(address)];
                   && e.ppn == f && e.v && e.a && e.d == flags.w
                   && e.r == flags.r && e.w == flags.w && e.x == flags.x && e.u == flags.u && e.g == flags.g
    ensures ok && NoEmptyTable(old(m.frames), s) ==> NoEmptyTable(m.frames, s')
  {
    hide Step, Leaves, Grown, TreeOk, NoEmptyTable, OnlyWithin;
    s' := s;
    ghost var v := VpnOf(address);
    StepReflexive(m.frames, m.free, s, limit);
    if address % PAGE_SIZE != 0 || !ValidLeafFlags(flags) {
      return false, s;
    }
    var table;
    LackingMeans(m.frames, limit, s, v);
    table, s' := Walk(m, root, address, limit, s);
    if table == 0 {
      return false, s';
    }
    var k := VpnIndex(address, 0);
    StepReady(old(m.frames), old(m.free), s, m.frames, m.free, s', limit);
    MappedIffLeaf(m.frames, s', v);
    assert m.frames[table].entries[k] == At(m.frames, s', Low(v.i, v.j), v.k);
    if m.frames[table].entries[k].v {
      return false, s';
    }
    MapCommit(old(m.frames), old(m.free), s, m.frames, m.free, s', limit, v, LeafPte(f, flags));
    m.frames := SetEntry(m.frames, table, k, LeafPte(f, flags));
    ok := true;
  }

  /** Storing a leaf in the slot a walk has reached. */
  lemma MapCommit(a: Frames, fa: seq<Frame>, s: Shape, b: Frames, fb: seq<Frame>, t: Shape, limit: nat, v: Vpn, e: Pte)
    requires TreeOk(a, limit, s) && Step(a, fa, s, b, fb, t, limit) && Leaves(b, t) == Leaves(a, s)
             && Grown(a, s, b, t, Path(v))
    requires Low(v.i, v.j) in t.at && v.k < ENTRIES && !At(b, t, Low(v.i, v.j), v.k).v && IsLeaf(e)
    ensures var c := SetEntry(b, t.at[Low(v.i, v.j)], v.k, e);
            && Step(a, fa, s, c, fb, t, limit)
            && v !in Leaves(a, s) && Leaves(c, t) == Leaves(a, s)[v := e]
            && (NoEmptyTable(a, s) ==> NoEmptyTable(c, t))
  {
    StepReady(a, fa, s, b, fb, t, limit);
    WriteLeafStep(b, fb, t, limit, v, e);
    var c := SetEntry(b, t.at[Low(v.i, v.j)], v.k, e);
    GrownByWrite(a, s, b, t, c, Path(v), Low(v.i, v.j), v.k, e);
    hide *;
    StepTransitive(a, fa, s, b, fb, t, c, fb, t, limit);
    StepReady(a, fa, s, c, fb, t, limit);
    if NoEmptyTable(a, s) {
      MappedIffLeaf(c, t, v);
      GrownAndMapped(a, s, c, t, limit, v);
    }
    MappedIffLeaf(b, t, v);
  }

  lemma MappedIffLeaf(fr: Frames, s: Shape, v: Vpn)
    ensures v in Leaves(fr, s) <==> Mapped(fr, s, v)
    ensures Mapped(fr, s, v) <==> At(fr, s, Low(v.i, v.j), v.k).v
  {
  }

  lemma StepReady(a: Frames, fa: seq<Frame>, s: Shape, b: Frames, fb: seq<Frame>, t: Shape, limit: nat)
    requires Step(a, fa, s, b, fb, t, limit)
    ensures Ready(b, fb, t, limit) && TreeOk(b, limit, t) && Root in t.at
    ensures forall p :: p in t.at ==> t.at[p] != 0 && IsTablePage(b, t.at[p])
  {
  }

  lemma GrownByWrite(a: Frames, s: Shape, b: Frames, t: Shape, c: Frames, places: set<Place>, p: Place, n: nat, e: Pte)
    requires Grown(a, s, b, t, places) && OneEntryChanged(b, t, c, t, p, n, e) && e.v
    ensures Grown(a, s, c, t, places)
  {
  }

  /** Answers exactly as the map does, at canonical addresses. */
  method Query(m: Memory, root: Frame, address: nat, ghost limit: nat, ghost s: Shape) returns (ok: bool, entry: Pte)
    requires TreeOk(m.frames, limit, s) && root == s.at[Root]
    requires VpnOf(address).i < limit
    ensures ok <==> Canonical(address) && VpnOf(address) in Leaves(m.frames, s)
    ensures ok ==> entry == Leaves(m.frames, s)[VpnOf(address)]
  {
    entry := NO_PTE;
    ok := false;
    var table := Find(m, root, address, limit, s);
    MappedIffLeaf(m.frames, s, VpnOf(address));
    if table == 0 {
      return;
    }
    entry := m.frames[table].entries[VpnIndex(address, 0)];
    assert entry == At(m.frames, s, PlaceAt(VpnOf(address), 0), VpnOf(address).k);
    ok := IsLeaf(entry);
  }

  /** Changes the permissions of a mapped page and nothing else. */
  method Protect(m: Memory, root: Frame, address: nat, flags: Flags, ghost limit: nat, ghost s: Shape)
    returns (ok: bool)
    requires Ready(m.frames, m.free, s, limit) && root == s.at[Root]
    requires VpnOf(address).i < limit
    modifies m`frames
    ensures Step(old(m.frames), m.free, s, m.frames, m.free, s, limit)
    ensures var v, before := VpnOf(address), Leaves(old(m.frames), s);
            && (ok <==> address % PAGE_SIZE == 0 && ValidLeafFlags(flags) && Canonical(address) && v in before)
            && (ok ==> Leaves(m.frames, s) == before[v := LeafPte(before[v].ppn, flags)])
            && (!ok ==> m.frames == old(m.frames))
    ensures NoEmptyTable(old(m.frames), s) ==> NoEmptyTable(m.frames, s)
  {
    hide TreeOk, Leaves, Step, NoEmptyTable;
    ghost var v := VpnOf(address);
    StepReflexive(m.frames, m.free, s, limit);
    if address % PAGE_SIZE != 0 || !ValidLeafFlags(flags) {
      return false;
    }
    var table := Find(m, root, address, limit, s);
    MappedIffLeaf(m.frames, s, v);
    if table == 0 {
      return false;
    }
    TableFacts(m.frames, limit, s, PlaceAt(v, 0));
    LowEntries(m.frames, limit, s, v);
    var entry := m.frames[table].entries[VpnIndex(address, 0)];
    assert entry == At(m.frames, s, PlaceAt(v, 0), v.k);
    if !IsLeaf(entry) {
      return false;
    }
    ProtectCommit(m.frames, m.free, s, limit, v, LeafPte(entry.ppn, flags));
    m.frames := SetEntry(m.frames, table, VpnIndex(address, 0), LeafPte(entry.ppn, flags));
    return true;
  }

  lemma ProtectCommit(fr: Frames, free: seq<Frame>, s: Shape, limit: nat, v: Vpn, e: Pte)
    requires Ready(fr, free, s, limit) && Low(v.i, v.j) in s.at && v.k < ENTRIES && IsLeaf(e) && Mapped(fr, s, v)
    ensures var fr' := SetEntry(fr, s.at[Low(v.i, v.j)], v.k, e);
            && Step(fr, free, s, fr', free, s, limit) && Leaves(fr', s) == Leaves(fr, s)[v := e]
            && (NoEmptyTable(fr, s) ==> NoEmptyTable(fr', s))
  {
    WriteLeafStep(fr, free, s, limit, v, e);
    var fr' := SetEntry(fr, s.at[Low(v.i, v.j)], v.k, e);
    GrownReflexive(fr, s, Path(v));
    GrownByWrite(fr, s, fr, s, fr', Path(v), Low(v.i, v.j), v.k, e);
    hide *;
    StepReady(fr, free, s, fr', free, s, limit);
    MappedIffLeaf(fr', s, v);
    if NoEmptyTable(fr, s) {
      assert TreeOk(fr, limit, s) by { StepReadyBefore(fr, free, s, limit); }
      GrownAndMapped(fr, s, fr', s, limit, v);
    }
  }

  lemma StepReadyBefore(fr: Frames, free: seq<Frame>, s: Shape, limit: nat)
    requires Ready(fr, free, s, limit)
    ensures TreeOk(fr, limit, s)
  {
  }

  lemma GrownReflexive(fr: Frames, s: Shape, places: set<Place>)
    ensures Grown(fr, s, fr, s, places)
  {
  }

  /** Whether no entry of a table is valid. */
  method TableEmpty(m: Memory, f: Frame) returns (empty: bool)
    requires IsTablePage(m.frames, f)
    ensures empty <==> EmptyTable(m.frames, f)
  {
    var i := 0;
    while i < ENTRIES
      invariant 0 <= i <= ENTRIES
      invariant forall n: nat :: n < i ==> !Entry(m.frames, f, n).v
    {
      if m.frames[f].entries[i].v {
        assert Entry(m.frames, f, i).v;
        return false;
      }
      i := i + 1;
    }
    return true;
  }

  /** Returning an empty table and clearing its parent entry is a step and unmaps nothing. */
  lemma Cut(fr: Frames, free: seq<Frame>, s: Shape, limit: nat, p: Place, n: nat)
    requires Ready(fr, free, s, limit) && p in s.at && !p.Low? && Child(p, n) in s.at && n < ENTRIES
    requires EmptyTable(fr, s.at[Child(p, n)])
    ensures s.at[Child(p, n)] !in free && s.at[Child(p, n)] != 0 && s.at[Child(p, n)] in fr
    ensures IsTablePage(fr[s.at[Child(p, n)] := Raw], s.at[p])
    ensures var f := s.at[Child(p, n)];
            var fr' := SetEntry(fr[f := Raw], s.at[p], n, NO_PTE);
            var s' := DropPlace(s, Child(p, n));
            && Step(fr, free, s, fr', [f] + free, s', limit) && Leaves(fr', s') == Leaves(fr, s)
            && OneEntryChanged(fr, s, fr', s', p, n, NO_PTE)
  {
    hide TreeOk, Leaves, EmptyTable;
    var f := s.at[Child(p, n)];
    TableFacts(fr, limit, s, p);
    TableFacts(fr, limit, s, Child(p, n));
    assert f !in Elements(free);
    DistinctPrepend(f, free);
    if p == Root {
      CutMid(fr, limit, s, n);
    } else {
      CutLow(fr, limit, s, p.i, n);
    }
  }

  /** Removes the table under entry `n` of the table at `place` if it has become empty. */
  method Trim(m: Memory, table: Frame, n: nat, ghost place: Place, ghost limit: nat, ghost s: Shape)
    returns (cut: bool, ghost s': Shape)
    requires Ready(m.frames, m.free, s, limit) && place in s.at && table == s.at[place]
    requires !place.Low? && n < ENTRIES && Child(place, n) in s.at
    modifies m`frames, m`free
    ensures Step(old(m.frames), old(m.free), s, m.frames, m.free, s', limit)
    ensures Leaves(m.frames, s') == Leaves(old(m.frames), s)
    ensures cut <==> EmptyTable(old(m.frames), s.at[Child(place, n)])
    ensures cut ==>
              s' == DropPlace(s, Child(place, n)) && OneEntryChanged(old(m.frames), s, m.frames, s', place, n, NO_PTE)
    ensures !cut ==> s' == s && m.frames == old(m.frames) && m.free == old(m.free)
  {
    var child := m.frames[table].entries[n].ppn;
    assert BranchOk(At(m.frames, s, place, n), s, Child(place, n));
    s' := s;
    cut := TableEmpty(m, child);
    if cut {
      Cut(m.frames, m.free, s, limit, place, n);
      PageAlloc.Free(m, child);
      m.frames := SetEntry(m.frames, table, n, NO_PTE);
      s' := DropPlace(s, Child(place, n));
    }
  }

  /** Only the table at `p` may be without a valid entry. */
  ghost predicate NoEmptyExcept(fr: Frames, s: Shape, p: Place) {
    forall q :: q in s.at && q != Root && q != p ==> !EmptyTable(fr, s.at[q])
  }

  lemma WriteKeepsOthersFull(fr: Frames, s: Shape, fr': Frames, s': Shape, p: Place, n: nat, e: Pte, except: Place)
    requires NoEmptyExcept(fr, s, except) && OneEntryChanged(fr, s, fr', s', p, n, e)
    requires forall q :: q in s'.at ==> q in s.at && q != except
    ensures NoEmptyExcept(fr', s', p)
  {
    forall q | q in s'.at && q != Root && q != p ensures !EmptyTable(fr', s'.at[q]) {
      var l: nat :| l < ENTRIES && Entry(fr, s.at[q], l).v;
      assert At(fr', s', q, l) == At(fr, s, q, l);
    }
  }

  lemma ClearLeaf(fr: Frames, free: seq<Frame>, s: Shape, limit: nat, v: Vpn)
    requires Ready(fr, free, s, limit) && Low(v.i, v.j) in s.at && v.k < ENTRIES
    ensures var fr' := SetEntry(fr, s.at[Low(v.i, v.j)], v.k, NO_PTE);
            && Step(fr, free, s, fr', free, s, limit) && Leaves(fr', s) == Leaves(fr, s) - {v}
            && (NoEmptyTable(fr, s) ==> NoEmptyExcept(fr', s, Low(v.i, v.j)))
  {
    WriteLeafStep(fr, free, s, limit, v, NO_PTE);
    var fr' := SetEntry(fr, s.at[Low(v.i, v.j)], v.k, NO_PTE);
    if NoEmptyTable(fr, s) {
      forall q | q in s.at && q != Root && q != Low(v.i, v.j) ensures !EmptyTable(fr', s.at[q]) {
        var l: nat :| l < ENTRIES && Entry(fr, s.at[q], l).v;
        assert At(fr', s, q, l) == At(fr, s, q, l);
      }
    }
  }

  /** The table frames on the way to a mapped page, lowest level first; empty if the page is not mapped. */
  method Levels(m: Memory, root: Frame, address: nat, ghost limit: nat, ghost s: Shape) returns (levels: seq<Frame>)
    requires TreeOk(m.frames, limit, s) && root == s.at[Root] && VpnOf(address).i < limit
    ensures levels != [] <==> Canonical(address) && VpnOf(address) in Leaves(m.frames, s)
    ensures levels != [] ==>
              |levels| == 3
              && forall l: nat ::
                   l < 3 ==> PlaceAt(VpnOf(address), l) in s.at && levels[l] == s.at[PlaceAt(VpnOf(address), l)]
  {
    hide TreeOk, Leaves;
    if !Canonical(address) {
      return [];
    }
    levels := [root];
    ghost var v := VpnOf(address);
    MappedIffLeaf(m.frames, s, v);
    RootListed(m.frames, limit, s);
    var level := 2;
    while level > 0
      invariant 0 <= level <= 2 && |levels| == 3 - level
      invariant forall l: nat :: level <= l < 3 ==> PlaceAt(v, l) in s.at && levels[l - level] == s.at[PlaceAt(v, l)]
      invariant PlaceAt(v, level) in s.at && levels[0] == s.at[PlaceAt(v, level)]
    {
      Follow(m.frames, limit, s, address, level);
      var entry := m.frames[levels[0]].entries[VpnIndex(address, level)];
      assert entry == At(m.frames, s, PlaceAt(v, level), VpnIndex(address, level));
      if !entry.v {
        return [];
      }
      levels := [entry.ppn] + levels;
      level := level - 1;
    }
    TableFacts(m.frames, limit, s, PlaceAt(v, 0));
    LowEntries(m.frames, limit, s, v);
    var leaf := m.frames[levels[0]].entries[VpnIndex(address, 0)];
    assert leaf == At(m.frames, s, PlaceAt(v, 0), v.k);
    if !IsLeaf(leaf) {
      return [];
    }
  }

  lemma LowEntries(fr: Frames, limit: nat, s: Shape, v: Vpn)
    requires TreeOk(fr, limit, s) && Low(v.i, v.j) in s.at && v.k < ENTRIES
    ensures At(fr, s, Low(v.i, v.j), v.k).v ==> IsLeaf(At(fr, s, Low(v.i, v.j), v.k))
  {
  }

  lemma RootListed(fr: Frames, limit: nat, s: Shape)
    requires TreeOk(fr, limit, s)
    ensures Root in s.at
  {
  }

  /** An entry on the way down leads to the next table or is unused. */
  lemma Follow(fr: Frames, limit: nat, s: Shape, address: nat, level: nat)
    requires TreeOk(fr, limit, s) && 0 < level <= 2 && PlaceAt(VpnOf(address), level) in s.at
             && VpnOf(address).i < limit
    ensures IsTablePage(fr, s.at[PlaceAt(VpnOf(address), level)])
    ensures BranchOk(At(fr, s, PlaceAt(VpnOf(address), level), VpnIndex(address, level)), s,
                     PlaceAt(VpnOf(address), level - 1))
    ensures !At(fr, s, PlaceAt(VpnOf(address), level), VpnIndex(address, level)).v ==>
              PlaceAt(VpnOf(address), 0) !in s.at
  {
    TableFacts(fr, limit, s, PlaceAt(VpnOf(address), level));
  }

  /** Walks back up from a level-0 table, returning every table that is now empty. */
  method TrimPath(m: Memory, levels: seq<Frame>, address: nat, ghost limit: nat, ghost s: Shape, ghost full: bool)
    returns (ghost s': Shape)
    requires Ready(m.frames, m.free, s, limit) && |levels| == 3
    requires forall l: nat ::
               l < 3 ==> PlaceAt(VpnOf(address), l) in s.at && levels[l] == s.at[PlaceAt(VpnOf(address), l)]
    requires full ==> NoEmptyExcept(m.frames, s, PlaceAt(VpnOf(address), 0))
    modifies m`frames, m`free
    ensures Step(old(m.frames), old(m.free), s, m.frames, m.free, s', limit)
    ensures Leaves(m.frames, s') == Leaves(old(m.frames), s)
    ensures full ==> NoEmptyTable(m.frames, s')
  {
    hide Step, Leaves, TreeOk, Ready, NoEmptyTable, NoEmptyExcept, OneEntryChanged, Entry, EmptyTable;
    s' := s;
    StepReflexive(m.frames, m.free, s, limit);
    ghost var v := VpnOf(address);
    var level := 0;
    while level < 2
      invariant 0 <= level <= 2
      invariant Step(old(m.frames), old(m.free), s, m.frames, m.free, s', limit)
      invariant Leaves(m.frames, s') == Leaves(old(m.frames), s)
      invariant forall l: nat :: level <= l < 3 ==> PlaceAt(v, l) in s'.at && levels[l] == s'.at[PlaceAt(v, l)]
      invariant full ==> NoEmptyExcept(m.frames, s', PlaceAt(v, level))
    {
      ghost var frames, free, t := m.frames, m.free, s';
      StepReady(old(m.frames), old(m.free), s, frames, free, t, limit);
      assert PlaceAt(v, level) in t.at && PlaceAt(v, level + 1) in t.at;
      assert Child(PlaceAt(v, level + 1), VpnIndex(address, level + 1)) == PlaceAt(v, level);
      var cut;
      cut, s' := Trim(m, levels[level + 1], VpnIndex(address, level + 1), PlaceAt(v, level + 1), limit, s');
      if !cut {
        NoneEmpty(m.frames, s', PlaceAt(v, level));
        return;
      }
      if full {
        WriteKeepsOthersFull(frames, t, m.frames, s', PlaceAt(v, level + 1), VpnIndex(address, level + 1), NO_PTE,
                             PlaceAt(v, level));
      }
      StepTransitive(old(m.frames), old(m.free), s, frames, free, t, m.frames, m.free, s', limit);
      level := level + 1;
    }
    assert PlaceAt(v, 2) in s'.at;
    NoneEmpty(m.frames, s', Root);
  }

  /** Unmaps one page and returns the tables that became empty by it. */
  method Unmap(m: Memory, root: Frame, address: nat, ghost limit: nat, ghost s: Shape)
    returns (ok: bool, ghost s': Shape)
    requires Ready(m.frames, m.free, s, limit) && root == s.at[Root]
    requires VpnOf(address).i < limit
    modifies m`frames, m`free
    ensures Step(old(m.frames), old(m.free), s, m.frames, m.free, s', limit)
    ensures var v, before := VpnOf(address), Leaves(old(m.frames), s);
            && (ok <==> address % PAGE_SIZE == 0 && Canonical(address) && v in before)
            && (ok ==> Leaves(m.frames, s') == before - {v})
            && (!ok ==> s' == s && m.frames == old(m.frames) && m.free == old(m.free))
    ensures NoEmptyTable(old(m.frames), s) ==> NoEmptyTable(m.frames, s')
  {
    hide Step, Leaves, TreeOk, Ready, NoEmptyTable, NoEmptyExcept, Entry;
    s' := s;
    StepReflexive(m.frames, m.free, s, limit);
    StepReady(m.frames, m.free, s, m.frames, m.free, s, limit);
    if address % PAGE_SIZE != 0 {
      return false, s;
    }
    var levels := Levels(m, root, address, limit, s);
    if levels == [] {
      return false, s;
    }
    assert PlaceAt(VpnOf(address), 0) in s.at;
    ClearLeaf(m.frames, m.free, s, limit, VpnOf(address));
    m.frames := SetEntry(m.frames, levels[0], VpnIndex(address, 0), NO_PTE);
    ghost var frames, free := m.frames, m.free;
    StepReady(old(m.frames), old(m.free), s, m.frames, m.free, s, limit);
    s' := TrimPath(m, levels, address, limit, s, NoEmptyTable(old(m.frames), s));
    StepTransitive(old(m.frames), old(m.free), s, frames, free, s, m.frames, m.free, s', limit);
    ok := true;
  }

  lemma NoneEmpty(fr: Frames, s: Shape, p: Place)
    requires p in s.at && (p == Root || !EmptyTable(fr, s.at[p]))
    ensures NoEmptyExcept(fr, s, p) ==> NoEmptyTable(fr, s)
  {
  }
}
