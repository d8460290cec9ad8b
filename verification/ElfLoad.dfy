/** exec's loader: from the bytes of an executable to a complete image, or nothing. */
module ElfLoad {
  import opened Physical
  import opened PageTable
  import opened Vm
  import opened Heap
  import opened Space
  import opened SpaceOps
  import opened Areas
  import opened AddressSpaces
  import opened Lifecycle
  import opened UserView
  import opened UserCopy
  import opened Exec
  import opened Loader
  import opened FirstStack
  import opened ElfFormat

  // ----- what a loaded segment looks like

  ghost predicate HasArea(areas: seq<Area>, start: nat, end: nat) {
    exists r :: r in areas && r.start == start && r.end == end
  }

  /** Its pages with its permissions, its file bytes, and zeros in the rest of the pages. */
  ghost predicate SegmentIn(b: Mem, s: View, content: seq<Byte>, p: Program) {
    && SegmentOk(p, |content|) && HasArea(s.areas, First(p), Last(p))
    && AllPages(s.pages, First(p), Last(p), SegmentFlags(p))
    && forall x: nat :: First(p) <= x < Last(p) ==>
                          ByteAt(b, s, x) ==
                            if p.vaddr <= x < p.vaddr + p.filesz then content[p.offset + (x - p.vaddr)] else 0
  }

  predicate Loads(p: Program) {
    p.ptype == 1 && p.memsz > 0
  }

  /** The first `n` program headers are loaded. */
  ghost predicate Loaded(b: Mem, s: View, content: seq<Byte>, n: nat)
    requires HeaderOk(content) && n <= Count(content)
  {
    forall i :: 0 <= i < n && Loads(ProgramAt(content, i)) ==> SegmentIn(b, s, content, ProgramAt(content, i))
  }

  /** The entry point is in an executable segment. */
  ghost predicate EntryIn(content: seq<Byte>, n: nat)
    requires HeaderOk(content) && n <= Count(content)
  {
    exists i :: 0 <= i < n && HoldsEntry(content, i)
  }

  predicate HoldsEntry(content: seq<Byte>, i: nat)
    requires HeaderOk(content) && i < Count(content)
  {
    var p := ProgramAt(content, i);
    p.ptype == 1 && Executes(p) && p.vaddr <= EntryPoint(content) < p.vaddr + p.memsz
  }

  /** A header the loader accepts by itself. */
  predicate Acceptable(p: Program, length: nat) {
    p.ptype != 2 && p.ptype != 3 && (p.ptype == 1 ==> if p.memsz == 0 then p.filesz == 0 else SegmentOk(p, length))
  }

  predicate Disjoint(p: Program, q: Program) {
    Loads(p) && Loads(q) ==> Last(p) <= First(q) || Last(q) <= First(p)
  }

  /** The first `n` headers are acceptable and no two of their segments share a page. */
  ghost predicate Legal(content: seq<Byte>, n: nat)
    requires HeaderOk(content) && n <= Count(content)
  {
    && (forall i :: 0 <= i < n ==> Acceptable(ProgramAt(content, i), |content|))
    && forall i, j :: 0 <= i < j < n ==> Disjoint(ProgramAt(content, i), ProgramAt(content, j))
  }

  /** Free pages that are enough for the first `n` headers. */
  ghost function Cost(content: seq<Byte>, n: nat): nat
    requires HeaderOk(content) && n <= Count(content)
  {
    if n == 0 then 0
    else Cost(content, n - 1) + (if Loads(ProgramAt(content, n - 1)) then PagesFor(ProgramAt(content, n - 1)) else 0)
  }

  lemma {:induction false} CostGrows(content: seq<Byte>, i: nat, n: nat)
    requires HeaderOk(content) && i <= n <= Count(content)
    ensures Cost(content, i) <= Cost(content, n)
    decreases n
  {
    hide HeaderOk, ProgramAt, PagesFor;
    if i < n {
      CostGrows(content, i, n - 1);
    }
  }

  /** Every area is the range of one of the first `n` segments. */
  ghost predicate OnlySegments(areas: seq<Area>, content: seq<Byte>, n: nat)
    requires HeaderOk(content) && n <= Count(content)
  {
    forall r :: r in areas ==> exists i :: 0 <= i < n && IsRange(r, ProgramAt(content, i), |content|)
  }

  predicate IsRange(r: Area, p: Program, length: nat) {
    Loads(p) && SegmentOk(p, length) && r.start == First(p) && r.end == Last(p)
  }

  /** A legal segment finds its range vacant. */
  lemma FindsRoom(areas: seq<Area>, content: seq<Byte>, i: nat)
    requires HeaderOk(content) && i < Count(content) && OnlySegments(areas, content, i)
             && Legal(content, Count(content)) && Loads(ProgramAt(content, i))
    ensures VacantIn(areas, First(ProgramAt(content, i)), Last(ProgramAt(content, i)))
  {
    hide HeaderOk, ProgramAt, SegmentOk, First, Last;
    var p := ProgramAt(content, i);
    forall r | r in areas ensures Apart(r, First(p), Last(p)) {
      var k :| 0 <= k < i && IsRange(r, ProgramAt(content, k), |content|);
      assert Disjoint(ProgramAt(content, k), p);
    }
  }

  lemma BelowStack(areas: seq<Area>, content: seq<Byte>, n: nat)
    requires HeaderOk(content) && n <= Count(content) && OnlySegments(areas, content, n)
    ensures VacantIn(areas, IMAGE_END, STACK_TOP)
  {
    hide HeaderOk, ProgramAt, SegmentOk, First, Last;
    forall r | r in areas ensures Apart(r, IMAGE_END, STACK_TOP) {
      var k :| 0 <= k < n && IsRange(r, ProgramAt(content, k), |content|);
      SegmentRange(ProgramAt(content, k), |content|);
    }
  }

  /** One acceptable segment more, whose range was vacant, is still legal. */
  lemma LegalNext(b: Mem, s: View, content: seq<Byte>, i: nat)
    requires HeaderOk(content) && i < Count(content) && Legal(content, i) && Loaded(b, s, content, i)
    requires Acceptable(ProgramAt(content, i), |content|)
    requires Loads(ProgramAt(content, i)) ==>
               VacantIn(s.areas, First(ProgramAt(content, i)), Last(ProgramAt(content, i)))
    ensures Legal(content, i + 1)
  {
    hide HeaderOk, ProgramAt, Acceptable, First, Last, SegmentOk;
    var p := ProgramAt(content, i);
    forall k | 0 <= k < i ensures Disjoint(ProgramAt(content, k), p) {
      var q := ProgramAt(content, k);
      if Loads(q) && Loads(p) {
        assert SegmentIn(b, s, content, q);
        var r :| r in s.areas && r.start == First(q) && r.end == Last(q);
        assert Apart(r, First(p), Last(p));
      }
    }
  }

  lemma SegmentsNext(areas: seq<Area>, more: seq<Area>, content: seq<Byte>, i: nat)
    requires HeaderOk(content) && i < Count(content) && OnlySegments(areas, content, i)
    requires more == areas
             || (Loads(ProgramAt(content, i)) && SegmentOk(ProgramAt(content, i), |content|) && |more| == |areas| + 1
                               && more == areas + [more[|areas|]]
                               && IsRange(more[|areas|], ProgramAt(content, i), |content|))
    ensures OnlySegments(more, content, i + 1)
  {
    hide HeaderOk, ProgramAt, IsRange;
    forall r | r in more ensures exists k :: 0 <= k < i + 1 && IsRange(r, ProgramAt(content, k), |content|) {
      if r in areas {
        var k :| 0 <= k < i && IsRange(r, ProgramAt(content, k), |content|);
      } else {
        assert IsRange(r, ProgramAt(content, i), |content|);
      }
    }
  }

  /** What is not mapped reads as zero. */
  lemma UnmappedIsZero(b: Mem, s: View, x: nat)
    requires Core(b, s, {}, {}) && x < USER_END && forall p :: p in s.pages ==> p.va != x - x % PAGE_SIZE
    ensures ByteAt(b, s, x) == 0
  {
    hide Core, LeafAt;
    assert !LeafAt(b, s, x).v by {
      if LeafAt(b, s, x).v {
        var p := LeafIsPage(b, s, x);
        assert false;
      }
    }
  }

  lemma PagesStay(pages: seq<UserPage>, more: seq<UserPage>, p: Program)
    requires AllPages(pages, First(p), Last(p), SegmentFlags(p)) && forall r :: r in pages ==> r in more
    ensures AllPages(more, First(p), Last(p), SegmentFlags(p))
  {
    hide First, Last, SegmentFlags;
    forall va: nat | First(p) <= va < Last(p) && va % PAGE_SIZE == 0 ensures HasPage(more, va, SegmentFlags(p)) {
      assert HasPage(pages, va, SegmentFlags(p));
      var r :| r in pages && r.va == va && r.flags == SegmentFlags(p);
      assert r in more;
    }
  }

  /** A segment loaded earlier does not change when another one is. */
  lemma OtherSegment(b: Mem, s: View, c: Mem, t: View, content: seq<Byte>, p: Program, q: Program)
    requires SegmentIn(b, s, content, p) && Loads(p) && SegmentOk(q, |content|) && q.memsz > 0
             && VacantIn(s.areas, First(q), Last(q))
    requires Laid(b, s, c, t, q.vaddr, content[q.offset..q.offset + q.filesz])
    requires (forall r :: r in s.areas ==> r in t.areas) && forall r :: r in s.pages ==> r in t.pages
    ensures SegmentIn(c, t, content, p)
  {
    hide SegmentOk, ByteAt, RoundUp, First, Last, AllPages, SegmentFlags;
    PagesStay(s.pages, t.pages, p);
    SegmentRange(p, |content|);
    SegmentRange(q, |content|);
    SegmentFile(q, |content|);
    var r :| r in s.areas && r.start == First(p) && r.end == Last(p);
    assert Apart(r, First(q), Last(q));
    assert r in t.areas;
  }

  lemma NewSegment(b: Mem, s: View, c: Mem, t: View, content: seq<Byte>, q: Program)
    requires Valid(b, s) && Loads(q) && SegmentOk(q, |content|) && VacantIn(s.areas, First(q), Last(q))
    requires Laid(b, s, c, t, q.vaddr, content[q.offset..q.offset + q.filesz]) && HasArea(t.areas, First(q), Last(q))
    requires AllPages(t.pages, First(q), Last(q), SegmentFlags(q))
    ensures SegmentIn(c, t, content, q)
  {
    hide Valid, SegmentOk, ByteAt, HasArea, RoundUp, First, Last, VacantIn;
    SegmentRange(q, |content|);
    SegmentFile(q, |content|);
    VacantIsZero(b, s, First(q), Last(q));
  }

  lemma VacantIsZero(b: Mem, s: View, first: nat, end: nat)
    requires Valid(b, s) && VacantIn(s.areas, first, end) && first % PAGE_SIZE == 0 && end <= USER_END
    ensures forall x: nat :: first <= x < end ==> ByteAt(b, s, x) == 0
  {
    hide Valid, Core, ByteAt, VacantIn, Covered, AreasOk, NoEmptyTable, BrkOk;
    Exec.ValidParts(b, s);
    VacantHasNoPages(s.areas, s.pages, first, end);
    forall x: nat | first <= x < end ensures ByteAt(b, s, x) == 0 {
      assert first <= x - x % PAGE_SIZE < end;
      UnmappedIsZero(b, s, x);
    }
  }

  // ----- one header after the other

  lemma NextLoaded(b: Mem, s: View, c: Mem, t: View, content: seq<Byte>, i: nat)
    requires HeaderOk(content) && i < Count(content) && Loaded(b, s, content, i) && Valid(b, s)
    requires forall r :: r in s.pages ==> r in t.pages
    requires var p := ProgramAt(content, i);
             if !Loads(p) then Laid(b, s, c, t, p.vaddr, []) && t.areas == s.areas
             else
               && SegmentOk(p, |content|) && VacantIn(s.areas, First(p), Last(p)) && HasArea(t.areas, First(p), Last(p))
               && AllPages(t.pages, First(p), Last(p), SegmentFlags(p))
               && Laid(b, s, c, t, p.vaddr, content[p.offset..p.offset + p.filesz])
               && forall r :: r in s.areas ==> r in t.areas
    ensures Loaded(c, t, content, i + 1)
  {
    hide HeaderOk, ProgramAt, SegmentIn, Laid, Valid, VacantIn, SegmentOk, First, Last, HasArea;
    var p := ProgramAt(content, i);
    forall k | 0 <= k < i + 1 && Loads(ProgramAt(content, k)) ensures SegmentIn(c, t, content, ProgramAt(content, k)) {
      if k == i {
        NewSegment(b, s, c, t, content, p);
      } else if Loads(p) {
        OtherSegment(b, s, c, t, content, ProgramAt(content, k), p);
      } else {
        SegmentStays(b, s, c, t, content, ProgramAt(content, k), p.vaddr);
      }
    }
  }

  lemma SegmentStays(b: Mem, s: View, c: Mem, t: View, content: seq<Byte>, p: Program, at: nat)
    requires SegmentIn(b, s, content, p) && Loads(p) && Laid(b, s, c, t, at, []) && t.areas == s.areas
    requires forall r :: r in s.pages ==> r in t.pages
    ensures SegmentIn(c, t, content, p)
  {
    hide SegmentOk, ByteAt, RoundUp, First, Last, HasArea, AllPages, SegmentFlags;
    PagesStay(s.pages, t.pages, p);
    SegmentRange(p, |content|);
  }

  lemma LoadedBelowStack(b: Mem, s: View, c: Mem, t: View, content: seq<Byte>, n: nat)
    requires HeaderOk(content) && n <= Count(content) && Loaded(b, s, content, n)
             && SameOutside(b, s, c, t, STACK_LOW, STACK_TOP)
    requires (forall r :: r in s.areas ==> r in t.areas) && forall r :: r in s.pages ==> r in t.pages
    ensures Loaded(c, t, content, n)
  {
    hide HeaderOk, ProgramAt, SegmentOk, ByteAt, RoundUp, First, Last, AllPages, SegmentFlags;
    forall k | 0 <= k < n && Loads(ProgramAt(content, k)) ensures SegmentIn(c, t, content, ProgramAt(content, k)) {
      var p := ProgramAt(content, k);
      assert SegmentIn(b, s, content, p);
      PagesStay(s.pages, t.pages, p);
      SegmentRange(p, |content|);
      var r :| r in s.areas && r.start == First(p) && r.end == Last(p);
      assert r in t.areas;
    }
  }

  /** Loads all segments in order. */
  method LoadAll(m: Memory, sp: AddressSpace, content: seq<Byte>, ghost a: Mem) returns (ok: bool)
    requires HeaderOk(content) && Image(a, MemOf(m), sp.V()) && sp.areas == []
    modifies sp`areas, sp`pages, sp`shape, m
    ensures Image(a, MemOf(m), sp.V())
    ensures ok ==>
              Loaded(MemOf(m), sp.V(), content, Count(content)) && EntryIn(content, Count(content))
              && Legal(content, Count(content))
    ensures ok ==>
              |m.free| + Cost(content, Count(content)) >= |old(m.free)|
              && OnlySegments(sp.areas, content, Count(content))
    ensures (Legal(content, Count(content)) && EntryIn(content, Count(content))
             && |old(m.free)| >= Cost(content, Count(content))) ==> ok
  {
    hide HeaderOk, ProgramAt, Loaded, Laid, AllPages, SegmentOk, First, Last, VacantIn, Founded, Valid, HoldsEntry,
         Executes, Legal,
         OnlySegments, EntryIn;
    var n, i, entered := Count(content), 0, false;
    NoneLoaded(MemOf(m), sp.V(), content);
    while i < n
      invariant 0 <= i <= n && Image(a, MemOf(m), sp.V()) && Loaded(MemOf(m), sp.V(), content, i)
      invariant entered <==> EntryIn(content, i)
      invariant Legal(content, i) && OnlySegments(sp.areas, content, i) && |m.free| + Cost(content, i) >= |old(m.free)|
    {
      ghost var b, s := MemOf(m), sp.V();
      var p := ProgramAt(content, i);
      HoldsMeans(content, i);
      EntryNext(content, i);
      LegalMeans(content, i);
      CostGrows(content, i + 1, n);
      if p.ptype == 2 || p.ptype == 3 {
        return false;
      }
      LaidNothing(b, s, p.vaddr);
      if p.ptype != 1 {
        NextLoaded(b, s, b, s, content, i);
        LegalNext(b, s, content, i);
        SegmentsNext(s.areas, s.areas, content, i);
        i := i + 1;
        continue;
      }
      if Legal(content, n) && Loads(p) {
        FindsRoom(s.areas, content, i);
      }
      ok := LoadSegment(m, sp, content, p, a);
      if !ok {
        return;
      }
      if Loads(p) {
        AppendedArea(s.areas, sp.areas);
      }
      NextLoaded(b, s, MemOf(m), sp.V(), content, i);
      LegalNext(b, s, content, i);
      SegmentsNext(s.areas, sp.areas, content, i);
      if Executes(p) && p.vaddr <= EntryPoint(content) && EntryPoint(content) - p.vaddr < p.memsz {
        assert HoldsEntry(content, i);
        entered := true;
      }
      i := i + 1;
    }
    ok := entered;
  }

  lemma HoldsMeans(content: seq<Byte>, i: nat)
    requires HeaderOk(content) && i < Count(content)
    ensures var p := ProgramAt(content, i);
            HoldsEntry(content, i) <==>
              p.ptype == 1 && Executes(p) && p.vaddr <= EntryPoint(content) < p.vaddr + p.memsz
  {
    hide HeaderOk, ProgramAt;
  }

  lemma EntryNext(content: seq<Byte>, i: nat)
    requires HeaderOk(content) && i < Count(content)
    ensures EntryIn(content, i + 1) <==> EntryIn(content, i) || HoldsEntry(content, i)
  {
    hide HeaderOk, HoldsEntry;
  }

  lemma LegalMeans(content: seq<Byte>, i: nat)
    requires HeaderOk(content) && i < Count(content)
    ensures Legal(content, Count(content)) ==> Acceptable(ProgramAt(content, i), |content|)
  {
    hide HeaderOk, ProgramAt;
  }

  lemma AppendedArea(s: seq<Area>, t: seq<Area>)
    requires |t| == |s| + 1 && t == s + [t[|s|]]
    ensures HasArea(t, t[|s|].start, t[|s|].end) && forall r :: r in s ==> r in t
  {
    assert t[|s|] in t;
  }

  lemma NoneLoaded(b: Mem, s: View, content: seq<Byte>)
    requires HeaderOk(content)
    ensures Loaded(b, s, content, 0) && Legal(content, 0) && !EntryIn(content, 0)
    ensures s.areas == [] ==> OnlySegments(s.areas, content, 0)
  {
    hide HeaderOk, ProgramAt;
  }

  ghost function PagesNeeded(content: seq<Byte>): nat {
    if HeaderOk(content) then Cost(content, Count(content)) else 0
  }

  // ----- in the words of the linker

  predicate InSegment(p: Segment, x: nat) {
    p.kind == 1 && p.vaddr <= x < p.vaddr + p.memsz
  }

  /** A header the kernel takes: neither dynamic nor for an interpreter; and if it is to be
      loaded, it fits in the file and in the image, its place in a page is that of its
      bytes in the file, its alignment is a power of two, and its permissions are X, R,
      RX or RW. */
  ghost predicate Takes(p: Segment, length: nat) {
    && p.kind != 2 && p.kind != 3
    && (p.kind == 1 && p.memsz == 0 ==> p.filesz == 0)
    && (p.kind == 1 && p.memsz > 0 ==>
          && p.filesz <= p.memsz && p.vaddr + p.memsz <= 0x3fb000 && p.offset + p.filesz <= length
          && p.vaddr % 4096 == p.offset % 4096 && (p.align > 1 ==> forall i: nat :: !Clash(p.align, i))
          && (p.flags == 1 || p.flags == 4 || p.flags == 5 || p.flags == 6))
  }

  /** An executable the kernel runs: one to sixteen such headers, no page in two of their
      segments, and the entry point in one that may be executed. */
  ghost predicate Runs(length: nat, h: FileHeader, ps: seq<Segment>) {
    && 0 < |ps| <= 16 && (forall i :: 0 <= i < |ps| ==> Takes(ps[i], length))
    && (forall i, j, x: nat, y: nat ::
          0 <= i < j < |ps| && InSegment(ps[i], x) && InSegment(ps[j], y) ==> x / 4096 != y / 4096)
    && exists i :: 0 <= i < |ps| && InSegment(ps[i], h.entry) && (ps[i].flags == 1 || ps[i].flags == 5)
  }

  /** Every segment is in memory: its bytes of the file, then zeros, with its permissions. */
  ghost predicate ImageOf(b: Mem, s: View, content: seq<Byte>, ps: seq<Segment>) {
    forall i, x: nat :: 0 <= i < |ps| && InSegment(ps[i], x) ==> ShowsSegment(b, s, content, ps[i], x)
  }

  ghost predicate ShowsSegment(b: Mem, s: View, content: seq<Byte>, p: Segment, x: nat)
    requires p.vaddr <= x
  {
    && (Accessible(b, s, x, false) <==> p.flags == 4 || p.flags == 5 || p.flags == 6)
    && (Accessible(b, s, x, true) <==> p.flags == 6) && (Executable(b, s, x) <==> p.flags == 1 || p.flags == 5)
    && var i := x - p.vaddr;
    if i < p.filesz then p.offset + i < |content| && ByteAt(b, s, x) == content[p.offset + i] else ByteAt(b, s, x) == 0
  }

  lemma FlagBits(n: nat)
    requires n < 8
    ensures Bit(n, 1) <==> n == 1 || n == 3 || n == 5 || n == 7
    ensures Bit(n, 2) <==> n == 2 || n == 3 || n == 6 || n == 7
    ensures Bit(n, 4) <==> n == 4 || n == 5 || n == 6 || n == 7
  {
  }

  lemma TakesIsAcceptable(p: Segment, length: nat)
    ensures Takes(p, length) <==> Acceptable(Kept(p), length)
  {
    hide PowerOfTwo, Clash;
    if p.flags < 8 { FlagBits(p.flags); }
    if p.align > 1 { NoSharedBit(p.align); }
  }

  /** Segments share no page exactly when their page ranges are apart. */
  lemma ApartIsDisjoint(p: Segment, q: Segment, length: nat)
    requires Takes(p, length) && Takes(q, length)
    ensures Disjoint(Kept(p), Kept(q)) <==>
              forall x: nat, y: nat :: InSegment(p, x) && InSegment(q, y) ==> x / 4096 != y / 4096
  {
    hide PowerOfTwo, Clash;
    if Loads(Kept(p)) && Loads(Kept(q)) {
      var p1, q1 := p.vaddr + p.memsz - 1, q.vaddr + q.memsz - 1;
      assert Last(Kept(p)) / 4096 == p1 / 4096 + 1 && Last(Kept(q)) / 4096 == q1 / 4096 + 1;
      assert First(Kept(p)) == p.vaddr / 4096 * 4096 && First(Kept(q)) == q.vaddr / 4096 * 4096;
      if !Disjoint(Kept(p), Kept(q)) {
        var x := if p.vaddr / 4096 < q.vaddr / 4096 then q.vaddr / 4096 * 4096 else p.vaddr;
        var y := if q.vaddr / 4096 < p.vaddr / 4096 then p.vaddr / 4096 * 4096 else q.vaddr;
        assert InSegment(p, x) && InSegment(q, y) && x / 4096 == y / 4096;
      }
    }
  }

  /** What the kernel runs, said of the headers as written and as read. */
  lemma RunsIsLegal(content: seq<Byte>, h: FileHeader, ps: seq<Segment>)
    requires IsElf(content, h, ps)
    ensures Runs(|content|, h, ps) <==>
              HeaderOk(content) && Legal(content, Count(content)) && EntryIn(content, Count(content))
  {
    hide IsElf, HeaderOk, ProgramAt, Takes, Acceptable, Disjoint, InSegment;
    ElfRoundTrip(content, h, ps);
    if HeaderOk(content) {
      forall i | 0 <= i < |ps| ensures Takes(ps[i], |content|) <==> Acceptable(ProgramAt(content, i), |content|)
      {
        TakesIsAcceptable(ps[i], |content|);
      }
      if forall i :: 0 <= i < |ps| ==> Takes(ps[i], |content|) {
        forall i, j | 0 <= i < j < |ps|
          ensures Disjoint(ProgramAt(content, i), ProgramAt(content, j)) <==>
                    forall x: nat, y: nat :: InSegment(ps[i], x) && InSegment(ps[j], y) ==> x / 4096 != y / 4096
        {
          ApartIsDisjoint(ps[i], ps[j], |content|);
        }
        forall i | 0 <= i < |ps|
          ensures HoldsEntry(content, i) <==> InSegment(ps[i], h.entry) && (ps[i].flags == 1 || ps[i].flags == 5)
        {
          EntrySegment(content, h, ps, i);
        }
      }
    }
  }

  lemma EntrySegment(content: seq<Byte>, h: FileHeader, ps: seq<Segment>, i: nat)
    requires IsElf(content, h, ps) && HeaderOk(content) && i < |ps| && Takes(ps[i], |content|)
    ensures Count(content) == |ps|
    ensures HoldsEntry(content, i) <==> InSegment(ps[i], h.entry) && (ps[i].flags == 1 || ps[i].flags == 5)
  {
    hide IsElf, HeaderOk, ProgramAt, Clash;
    ElfRoundTrip(content, h, ps);
    if ps[i].flags < 8 { FlagBits(ps[i].flags); }
  }

  /** A loaded image shows its segments. */
  lemma LoadedShows(b: Mem, s: View, content: seq<Byte>, h: FileHeader, ps: seq<Segment>)
    requires IsElf(content, h, ps) && HeaderOk(content) && Core(b, s, {}, {})
    requires Loaded(b, s, content, Count(content)) && Legal(content, Count(content))
    ensures ImageOf(b, s, content, ps)
  {
    hide IsElf, HeaderOk, ProgramAt, SegmentIn, Core, Acceptable, ShowsSegment;
    ElfRoundTrip(content, h, ps);
    forall i, x: nat | 0 <= i < |ps| && InSegment(ps[i], x) ensures ShowsSegment(b, s, content, ps[i], x) {
      assert Loads(ProgramAt(content, i));
      SegmentShows(b, s, content, ps[i], x);
    }
  }

  lemma SegmentShows(b: Mem, s: View, content: seq<Byte>, p: Segment, x: nat)
    requires Core(b, s, {}, {}) && SegmentIn(b, s, content, Kept(p)) && InSegment(p, x)
    ensures ShowsSegment(b, s, content, p, x)
  {
    hide Core, ByteAt, Accessible, Executable, PowerOfTwo;
    FlagBits(p.flags);
    SegmentRange(Kept(p), |content|);
    var va := x - x % PAGE_SIZE;
    assert HasPage(s.pages, va, SegmentFlags(Kept(p)));
    var page :| page in s.pages && page.va == va && page.flags == SegmentFlags(Kept(p));
    PageSeen(b, s, page, x);
  }

  lemma AnyElf(content: seq<Byte>)
    ensures forall h, ps :: IsElf(content, h, ps) ==>
              && (Runs(|content|, h, ps) <==>
                    HeaderOk(content) && Legal(content, Count(content)) && EntryIn(content, Count(content)))
              && (HeaderOk(content) ==> EntryPoint(content) == h.entry)
    ensures HeaderOk(content) ==> exists h, ps :: IsElf(content, h, ps)
  {
    hide IsElf, HeaderOk, Runs, Legal, EntryIn;
    forall h, ps | IsElf(content, h, ps)
      ensures Runs(|content|, h, ps) <==>
                HeaderOk(content) && Legal(content, Count(content)) && EntryIn(content, Count(content))
      ensures HeaderOk(content) ==> EntryPoint(content) == h.entry
    {
      RunsIsLegal(content, h, ps);
      ElfRoundTrip(content, h, ps);
    }
    if HeaderOk(content) {
      var h, ps := AcceptedIsElf(content);
    }
  }

  lemma AnyShown(b: Mem, s: View, content: seq<Byte>)
    requires HeaderOk(content) && Valid(b, s)
    requires Loaded(b, s, content, Count(content)) && Legal(content, Count(content))
    ensures forall h, ps :: IsElf(content, h, ps) ==> ImageOf(b, s, content, ps)
  {
    hide IsElf, HeaderOk, Valid, Core, Legal, Loaded, ImageOf;
    Exec.ValidParts(b, s);
    forall h, ps | IsElf(content, h, ps) ensures ImageOf(b, s, content, ps) {
      LoadedShows(b, s, content, h, ps);
    }
  }

  /** The whole load. On success the image holds every segment and the first stack,
      and the entry point is executable; on failure, at whatever point, every page
      and every heap object is back. */
  method Load(m: Memory, sp: AddressSpace, kernelRoot: Frame, content: seq<Byte>, args: seq<seq<Byte>>,
              envs: seq<seq<Byte>>)
    returns (ok: bool, entry: nat, stackPointer: nat)
    requires MemOk(MemOf(m)) && IsTablePage(m.frames, kernelRoot) && kernelRoot !in m.free && Short(args) && Short(envs)
    modifies sp, m
    ensures ok ==>
              && HeaderOk(content) && Valid(MemOf(m), sp.V()) && Founded(old(MemOf(m)), MemOf(m), sp.V())
              && Loaded(MemOf(m), sp.V(), content, Count(content))
              && StackImage(MemOf(m), sp.V(), stackPointer, args, envs)
              && entry == EntryPoint(content) && EntryIn(content, Count(content)) && Legal(content, Count(content))
    ensures (HeaderOk(content) && Legal(content, Count(content)) && EntryIn(content, Count(content))
             && |old(m.free)| >= Cost(content, Count(content)) + 18) ==> ok
    ensures forall h, ps :: IsElf(content, h, ps) ==>
              && (ok ==> Runs(|content|, h, ps) && entry == h.entry && ImageOf(MemOf(m), sp.V(), content, ps))
              && (Runs(|content|, h, ps) && |old(m.free)| >= PagesNeeded(content) + 18 ==> ok)
    ensures ok ==> exists h, ps :: IsElf(content, h, ps)
    ensures !ok ==> Unspent(old(MemOf(m)), MemOf(m)) && Quiet(old(MemOf(m)), MemOf(m))
  {
    hide HeaderOk, Loaded, EntryIn, StackImage, Valid, Founded, Unspent, Quiet, MemOk, Short, Core, Dissolved,
         SameOutside, LiveIn, Slabs, Region, Foreign, Owned, Records, OnlyWithin, EntryPoint, Legal, Cost, OnlySegments,
         IsElf, Runs, ImageOf;
    ghost var a := MemOf(m);
    entry, stackPointer := 0, 0;
    QuietItself(a);
    AnyElf(content);
    if !HeaderOk(content) {
      return false, entry, stackPointer;
    }
    ok := Init(m, sp, kernelRoot);
    if !ok {
      return;
    }
    InitFounds(a, MemOf(m), sp.V());
    ok := LoadAll(m, sp, content, a);
    if ok {
      ghost var b, s := MemOf(m), sp.V();
      BelowStack(s.areas, content, Count(content));
      ok, stackPointer := BuildStack(m, sp, args, envs, a);
      if ok {
        LoadedBelowStack(b, s, MemOf(m), sp.V(), content, Count(content));
        ImageParts(a, MemOf(m), sp.V());
        AnyShown(MemOf(m), sp.V(), content);
        entry := EntryPoint(content);
        return;
      }
    }
    ghost var b, d := MemOf(m), sp.V();
    FoundedParts(a, b, d);
    Destroy(m, sp);
    DissolvedUnspent(a, b, d, MemOf(m));
  }

  lemma ImageParts(a: Mem, b: Mem, s: View)
    requires Image(a, b, s)
    ensures Valid(b, s)
  {
  }

  lemma QuietItself(a: Mem)
    requires MemOk(a)
    ensures Unspent(a, a) && Quiet(a, a)
  {
  }

  lemma InitFounds(a: Mem, b: Mem, d: View)
    requires Valid(b, d) && Region(b, d, {}) == Elements(a.free) + Slabs(b.classes) && Foreign(b, d, {}) == LiveIn(a)
    requires OnlyWithin(a.frames, b.frames, Elements(a.free)) && b.classes == a.classes
    ensures Image(a, b, d)
  {
    hide Core, Region, Foreign, Slabs, LiveIn, Elements, NoEmptyTable, AreasOk, Covered, BrkOk;
  }

  lemma FoundedParts(a: Mem, b: Mem, d: View)
    requires Founded(a, b, d)
    ensures Core(b, d, {}, {})
  {
  }
}
