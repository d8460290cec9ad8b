/** Loading a program: its segments, its first stack, and the undoing of a load
    that fails. */
module Loader {
  import opened Common
  import opened Physical
  import opened PageTable
  import opened Vm
  import opened Heap
  import opened Space
  import opened SpaceOps
  import opened Neutral
  import opened Areas
  import opened AddressSpaces
  import opened Lifecycle
  import opened UserView
  import opened UserCopy
  import opened Exec

  const PAGE_MASK: nat := PAGE_SIZE - 1

  /** A program header, field by field. */
  datatype Program = Program(ptype: nat, flags: nat, offset: nat, vaddr: nat, filesz: nat, memsz: nat, align: nat)

  predicate Bit(flags: nat, weight: nat)
    requires weight > 0
  {
    flags / weight % 2 == 1
  }

  predicate Executes(p: Program) {
    Bit(p.flags, 1)
  }

  predicate Writes(p: Program) {
    Bit(p.flags, 2)
  }

  predicate Reads(p: Program) {
    Bit(p.flags, 4)
  }

  predicate PowerOfTwo(n: nat) {
    n == 1 || (n > 1 && n % 2 == 0 && PowerOfTwo(n / 2))
  }

  function Weight(i: nat): (w: nat)
    ensures w > 0
  {
    if i == 0 then 1 else 2 * Weight(i - 1)
  }

  /** Both numbers have bit `i`. */
  predicate Share(m: nat, n: nat, i: nat) {
    Bit(m, Weight(i)) && Bit(n, Weight(i))
  }

  /** Halving moves every bit down by one. */
  lemma {:induction false} ShareHalves(m: nat, n: nat, i: nat)
    ensures Share(m, n, i + 1) <==> Share(m / 2, n / 2, i)
  {
    HalfAndWeight(m, Weight(i));
    HalfAndWeight(n, Weight(i));
  }

  lemma HalfAndWeight(m: nat, w: nat)
    requires w > 0
    ensures m / 2 / w == m / (2 * w)
  {
    var q := m / 2 / w;
    var r := m / 2 % w;
    assert m / 2 == q * w + r;
    DivideExactly(q, 2 * w, 2 * r + m % 2);
    assert m == q * (2 * w) + (2 * r + m % 2) by { assert q * (2 * w) == 2 * (q * w); }
  }

  /** A positive number has a bit. */
  lemma {:induction false} HasBit(n: nat) returns (i: nat)
    requires n > 0
    ensures Share(n, n, i)
  {
    if n % 2 == 1 {
      i := 0;
    } else {
      i := HasBit(n / 2);
      ShareHalves(n, n, i);
      i := i + 1;
    }
  }

  /** The number and its predecessor both have bit `i`. */
  predicate Clash(n: nat, i: nat)
    requires n > 0
  {
    Share(n, n - 1, i)
  }

  /** The loader tests that a number has no bit in common with its predecessor: it is then
      a power of two, and only then. */
  lemma {:induction false} NoSharedBit(n: nat)
    requires n > 0
    ensures PowerOfTwo(n) <==> forall i: nat :: !Clash(n, i)
  {
    if n == 1 {
      assert forall i: nat :: !Clash(1, i);
    } else if n % 2 == 1 {
      var i := HasBit(n / 2);
      assert (n - 1) / 2 == n / 2;
      ShareHalves(n, n - 1, i);
      assert Clash(n, i + 1);
    } else {
      NoSharedBit(n / 2);
      assert (n - 1) / 2 == n / 2 - 1;
      assert !Clash(n, 0);
      forall i: nat | i > 0 && Clash(n, i) ensures Clash(n / 2, i - 1) {
        ShareHalves(n, n - 1, i - 1);
      }
      forall i: nat | Clash(n / 2, i) ensures Clash(n, i + 1) {
        ShareHalves(n, n - 1, i);
      }
    }
  }

  /** What a loadable segment must satisfy. */
  predicate SegmentOk(p: Program, length: nat) {
    && p.filesz <= p.memsz && p.flags < 8 && (p.align > 1 ==> PowerOfTwo(p.align))
    && p.vaddr < IMAGE_END && p.memsz <= IMAGE_END - p.vaddr
    && p.offset <= length && p.filesz <= length - p.offset && p.vaddr % PAGE_SIZE == p.offset % PAGE_SIZE
    && !(Writes(p) && !Reads(p)) && !(Writes(p) && Executes(p)) && (Reads(p) || Executes(p))
  }

  function SegmentFlags(p: Program): Flags {
    Flags(Reads(p), Writes(p), Executes(p), true, false, false)
  }

  function First(p: Program): nat {
    p.vaddr - p.vaddr % PAGE_SIZE
  }

  function Last(p: Program): nat {
    RoundUp(p.vaddr + p.memsz)
  }

  /** Free pages that are enough for a segment: four for each of its pages, one for its area. */
  function PagesFor(p: Program): nat {
    if p.memsz == 0 then 0 else 4 * ((Last(p) - First(p)) / PAGE_SIZE) + 1
  }

  // ----- a new reservation in an image

  lemma ReserveKeeps(a: Mem, b: Mem, s: View, c: Mem, t: View)
    requires Image(a, b, s) && Track(b, s, c, t, {}, {}) && NoEmptyTable(c.frames, t.shape)
    requires t.pages == s.pages && t.brkBase == s.brkBase && t.brkEnd == s.brkEnd
    requires t.areas == s.areas || (|t.areas| == |s.areas| + 1 && t.areas == s.areas + [t.areas[|s.areas|]])
    requires t.areas != s.areas ==>
               var r := t.areas[|s.areas|];
                   RangeOk(r.start, r.end) && VacantIn(s.areas, r.start, r.end) && r.kind != HEAP
    ensures Image(a, c, t) && Laid(b, s, c, t, 0, [])
    ensures t.areas != s.areas ==>
              var r := t.areas[|s.areas|];
              && (forall x: nat :: r.start <= x < r.end ==> InArea(t.areas, x))
              && (forall p :: p in t.pages ==> !(r.start <= p.va < r.end))
  {
    hide Founded, Core, NoEmptyTable, Conserves, KeptBytes, Laid;
    Exec.ValidParts(b, s);
    TrackZeros(b, s, c, t);
    ImageStep(a, b, s, c, t);
    if t.areas != s.areas {
      var r := t.areas[|s.areas|];
      AreasOkPlus(s.areas, r);
      CoveredMore(s.areas, r, s.pages);
      VacantHasNoPages(s.areas, s.pages, r.start, r.end);
      BrkMore(s.areas, r, s.brkBase, s.brkEnd);
    }
  }

  lemma CoveredMore(areas: seq<Area>, r: Area, pages: seq<UserPage>)
    requires Covered(areas, pages)
    ensures Covered(areas + [r], pages)
  {
    forall p | p in pages ensures InArea(areas + [r], p.va) {
      var x :| x in areas && x.start <= p.va < x.end;
      assert x in areas + [r];
    }
  }

  lemma BrkMore(areas: seq<Area>, r: Area, brkBase: nat, brkEnd: nat)
    requires BrkOk(areas, brkBase, brkEnd) && r.kind != HEAP
    ensures BrkOk(areas + [r], brkBase, brkEnd)
  {
    if RoundUp(brkEnd) != brkBase {
      var x :| x in areas && x.kind == HEAP;
      assert x in areas + [r];
    }
  }

  // ----- one segment

  /** The pages of a segment lie below the stack's reservation. */
  lemma SegmentRange(p: Program, length: nat)
    requires SegmentOk(p, length) && p.memsz > 0
    ensures First(p) % PAGE_SIZE == 0 && First(p) <= p.vaddr && p.vaddr + p.memsz <= Last(p) <= IMAGE_END
            && First(p) < Last(p)
    ensures Last(p) % PAGE_SIZE == 0 && Last(p) == First(p) + (Last(p) - First(p)) / PAGE_SIZE * PAGE_SIZE
    ensures p.vaddr + p.memsz <= UINT64_MAX - PAGE_MASK
  {
    assert IMAGE_END % PAGE_SIZE == 0;
  }

  /** Maps a segment's pages and lays its file bytes into them: user memory holds the
      file bytes at [vaddr, vaddr + filesz), zeros in the rest of the pages, and is
      otherwise the same. */
  method LoadSegment(m: Memory, sp: AddressSpace, content: seq<Byte>, p: Program, ghost a: Mem) returns (ok: bool)
    requires Image(a, MemOf(m), sp.V())
    modifies sp`areas, sp`pages, sp`shape, m
    ensures Image(a, MemOf(m), sp.V())
    ensures ok ==> if p.memsz == 0 then p.filesz == 0 else SegmentOk(p, |content|)
    ensures ok && p.memsz == 0 ==>
              Laid(old(MemOf(m)), old(sp.V()), MemOf(m), sp.V(), p.vaddr, []) && sp.areas == old(sp.areas)
    ensures ok && p.memsz > 0 ==>
              && Laid(old(MemOf(m)), old(sp.V()), MemOf(m), sp.V(), p.vaddr, content[p.offset..p.offset + p.filesz])
              && AllPages(sp.pages, First(p), Last(p), SegmentFlags(p))
              && |sp.areas| == |old(sp.areas)| + 1 && sp.areas == old(sp.areas) + [sp.areas[|old(sp.areas)|]]
              && var r := sp.areas[|old(sp.areas)|];
              && r.start == First(p) && r.end == Last(p) && r.end <= IMAGE_END && r.kind == ELF
              && VacantIn(old(sp.areas), First(p), Last(p))
    ensures forall q :: q in old(sp.pages) ==> q in sp.pages
    ensures p.memsz == 0 && p.filesz == 0 ==> ok
    ensures (p.memsz > 0 && SegmentOk(p, |content|) && VacantIn(old(sp.areas), First(p), Last(p))
             && |old(m.free)| >= PagesFor(p)) ==> ok
    ensures ok ==> |m.free| + PagesFor(p) >= |old(m.free)|
  {
    hide Image, Laid, AllPages, Track, Core, NoEmptyTable, RoundUp, SegmentOk, Restored, InArea, VacantIn, FlagsOk;
    ghost var b0, s0 := MemOf(m), sp.V();
    LaidNothing(b0, s0, p.vaddr);
    if p.memsz == 0 {
      return p.filesz == 0;
    }
    if !SegmentOk(p, |content|) {
      return false;
    }
    SegmentRange(p, |content|);
    SegmentFile(p, |content|);
    var first, end, flags := First(p), Last(p), SegmentFlags(p);
    ImageParts(a, b0, s0);
    ok := sp.Reserve(m, first, end, flags, ELF);
    ghost var b1, s1 := MemOf(m), sp.V();
    ReserveKeeps(a, b0, s0, b1, s1);
    if !ok {
      return;
    }
    ok := MapZero(m, sp, first, end, flags, (end - first) / PAGE_SIZE, a);
    ghost var b2, s2 := MemOf(m), sp.V();
    if !ok {
      return;
    }
    var data := content[p.offset..p.offset + p.filesz];
    ok := CopyIn(m, sp, p.vaddr, data, flags, first, end, a);
    LaidAfterNothing(b1, s1, b2, s2, MemOf(m), sp.V(), p.vaddr, data, 0);
    LaidAfterNothing(b0, s0, b1, s1, MemOf(m), sp.V(), p.vaddr, data, 0);
  }

  lemma SegmentFile(p: Program, length: nat)
    requires SegmentOk(p, length)
    ensures p.offset + p.filesz <= length && p.filesz <= p.memsz && Leafy(SegmentFlags(p)) && FlagsOk(SegmentFlags(p))
  {
  }

  lemma ImageParts(a: Mem, b: Mem, s: View)
    requires Image(a, b, s)
    ensures Core(b, s, {}, {}) && NoEmptyTable(b.frames, s.shape)
  {
  }
}
