/** Building the free list from the machine's memory ranges. */
module PageInit {
  import opened Common
  import opened Physical
  import opened Dtb


  /** Rounds up to a page, within 64 bits. */
  function AlignUp(value: nat): nat {
    if value > UINT64_MAX - (PAGE_SIZE - 1) then UINT64_MAX - UINT64_MAX % PAGE_SIZE
    else (value + PAGE_SIZE - 1) / PAGE_SIZE * PAGE_SIZE
  }

  /** The pages that lie wholly in a memory range, by page number. */
  predicate InRange(r: Range, f: Frame) {
    AlignUp(r.base) <= f * PAGE_SIZE && (f + 1) * PAGE_SIZE <= r.base + r.size
  }

  predicate Overlaps(base: nat, end: nat, other: Range) {
    other.size != 0 && base < Min(other.base + other.size, UINT64_MAX) && other.base < end
  }

  /** The kernel, the firmware below it, the device tree and the reserved ranges. */
  datatype Layout = Layout(kernelStart: nat, kernelEnd: nat, dtb: Range, firmware: nat, reserved: seq<Range>)

  predicate Reserved(l: Layout, f: Frame) {
    var base, end := f * PAGE_SIZE, (f + 1) * PAGE_SIZE;
    || Overlaps(base, end,
                Range(l.kernelStart, if l.kernelEnd >= l.kernelStart then l.kernelEnd - l.kernelStart else 0))
    || Overlaps(base, end, l.dtb) || l.firmware <= base < l.kernelStart
    || exists i :: 0 <= i < |l.reserved| && Overlaps(base, end, l.reserved[i])
  }

  method IsReserved(l: Layout, f: Frame) returns (r: bool)
    requires l.kernelStart < l.kernelEnd
    ensures r == Reserved(l, f)
  {
    hide Overlaps;
    var base, end := f * PAGE_SIZE, (f + 1) * PAGE_SIZE;
    if Overlaps(base, end, Range(l.kernelStart, l.kernelEnd - l.kernelStart)) || Overlaps(base, end, l.dtb)
       || (base >= l.firmware && base < l.kernelStart) {
      return true;
    }
    var i := 0;
    while i < |l.reserved|
      invariant 0 <= i <= |l.reserved| && forall k :: 0 <= k < i ==> !Overlaps(base, end, l.reserved[k])
    {
      if Overlaps(base, end, l.reserved[i]) {
        return true;
      }
      i := i + 1;
    }
    r := false;
  }

  /** How many of the memory ranges contain a page. */
  function Times(memory: seq<Range>, f: Frame): nat {
    if memory == [] then 0 else Times(memory[..|memory| - 1], f) + if InRange(memory[|memory| - 1], f) then 1 else 0
  }

  function Share(l: Layout, memory: seq<Range>, f: Frame): nat {
    if Reserved(l, f) then 0 else Times(memory, f)
  }

  predicate HoldsKernel(r: Range, kernelStart: nat) {
    r.base <= kernelStart < (r.base + r.size) % WORD64
  }

  /** Where the firmware starts: at the base of the first range that holds the kernel. */
  function Firmware(memory: seq<Range>, kernelStart: nat): (start: nat)
    ensures start <= kernelStart
  {
    if memory == [] then kernelStart
    else if HoldsKernel(memory[0], kernelStart) then memory[0].base
    else Firmware(memory[1..], kernelStart)
  }

  method FindFirmware(memory: seq<Range>, kernelStart: nat) returns (start: nat)
    ensures start == Firmware(memory, kernelStart)
    ensures || (start == kernelStart
                && forall i :: 0 <= i < |memory| ==> !HoldsKernel(memory[i], kernelStart))
            || exists i :: 0 <= i < |memory| && HoldsKernel(memory[i], kernelStart) && start == memory[i].base
                           && forall k :: 0 <= k < i ==> !HoldsKernel(memory[k], kernelStart)
  {
    start := kernelStart;
    var i := 0;
    while i < |memory|
      invariant 0 <= i <= |memory| && start == kernelStart
                && Firmware(memory, kernelStart) == Firmware(memory[i..], kernelStart)
      invariant forall k :: 0 <= k < i ==> !HoldsKernel(memory[k], kernelStart)
    {
      assert memory[i..][0] == memory[i] && memory[i..][1..] == memory[i + 1..];
      var end := (memory[i].base + memory[i].size) % WORD64;
      if kernelStart >= memory[i].base && kernelStart < end {
        return memory[i].base;
      }
      i := i + 1;
    }
  }

  /** Pushes the free pages of one range. */
  method PushRange(l: Layout, r: Range, before: seq<Frame>) returns (free: seq<Frame>)
    requires l.kernelStart < l.kernelEnd && r.base + r.size < WORD64
    ensures forall f: Frame ::
              multiset(free)[f] == multiset(before)[f] + if InRange(r, f) && !Reserved(l, f) then 1 else 0
  {
    hide Reserved, InRange;
    free := before;
    var base, end := AlignUp(r.base), (r.base + r.size) / PAGE_SIZE * PAGE_SIZE;
    AlignedUp(r.base);
    var page := base;
    while page < end
      invariant page >= base && page % PAGE_SIZE == 0 && (page == base || page <= end)
      invariant forall f: Frame ::
                  multiset(free)[f] == multiset(before)[f] + if base <= f * PAGE_SIZE < page && !Reserved(l, f) then 1
                                                             else 0
      decreases end - page
    {
      var f := page / PAGE_SIZE;
      OnePage(page, f);
      var reserved := IsReserved(l, f);
      if !reserved {
        free := [f] + free;
      }
      page := page + PAGE_SIZE;
    }
    InRangeMeans(r, base, end, page);
  }

  lemma AlignedUp(v: nat)
    ensures AlignUp(v) % PAGE_SIZE == 0
  {
  }

  lemma OnePage(page: nat, f: Frame)
    requires page % PAGE_SIZE == 0 && f == page / PAGE_SIZE
    ensures forall g: Frame :: g * PAGE_SIZE < page + PAGE_SIZE && g * PAGE_SIZE >= page <==> g == f
    ensures f * PAGE_SIZE == page
  {
  }

  lemma InRangeMeans(r: Range, base: nat, end: nat, page: nat)
    requires base == AlignUp(r.base) && end == (r.base + r.size) / PAGE_SIZE * PAGE_SIZE && page >= end && page >= base
             && page % PAGE_SIZE == 0
    requires page <= base || page < end + PAGE_SIZE
    requires base % PAGE_SIZE == 0
    ensures forall f: Frame :: InRange(r, f) <==> base <= f * PAGE_SIZE < page
  {
  }

  /** The whole list. When it succeeds, every page stands on it as often as memory
      ranges contain it, unless it is reserved. */
  method Init(memory: seq<Range>, reserved: seq<Range>, kernelStart: nat, kernelEnd: nat, dtb: Range)
    returns (ok: bool, free: seq<Frame>)
    requires forall i :: 0 <= i < |memory| ==> memory[i].base < WORD64 && memory[i].size < WORD64
    ensures var l := Layout(kernelStart, kernelEnd, dtb, Firmware(memory, kernelStart), reserved);
            && (ok ==> forall f: Frame :: multiset(free)[f] == Share(l, memory, f))
            && (ok <==>
                && kernelStart < kernelEnd
                && (forall i :: 0 <= i < |memory| ==> memory[i].base + memory[i].size < WORD64)
                && exists f: Frame :: Share(l, memory, f) > 0)
  {
    hide Reserved, InRange;
    free := [];
    if kernelStart >= kernelEnd {
      return false, free;
    }
    var firmware := FindFirmware(memory, kernelStart);
    var layout := Layout(kernelStart, kernelEnd, dtb, firmware, reserved);
    var i := 0;
    while i < |memory|
      invariant 0 <= i <= |memory| && forall f: Frame :: multiset(free)[f] == Share(layout, memory[..i], f)
      invariant forall k :: 0 <= k < i ==> memory[k].base + memory[k].size < WORD64
    {
      if (memory[i].base + memory[i].size) % WORD64 < memory[i].base {
        return false, free;
      }
      NoWrap(memory[i]);
      free := PushRange(layout, memory[i], free);
      assert memory[..i + 1][..i] == memory[..i];
      i := i + 1;
    }
    assert memory[..i] == memory;
    ok := |free| != 0;
    assert ok ==> multiset(free)[free[0]] > 0;
  }

  lemma NoWrap(r: Range)
    requires r.base < WORD64 && r.size < WORD64 && (r.base + r.size) % WORD64 >= r.base
    ensures r.base + r.size < WORD64
  {
  }

  // ----- address by address

  /** An address of a page. */
  predicate OnPage(f: Frame, a: nat) {
    f * PAGE_SIZE <= a < (f + 1) * PAGE_SIZE
  }

  predicate Inside(r: Range, a: nat) {
    r.base <= a < r.base + r.size
  }

  /** A page with all its addresses in a range. */
  ghost predicate Wholly(f: Frame, r: Range) {
    forall a :: OnPage(f, a) ==> Inside(r, a)
  }

  /** A page counts as part of a range when all its addresses are in the range. */
  lemma InRangeIs(r: Range, f: Frame)
    requires r.base + r.size < WORD64
    ensures InRange(r, f) <==> Wholly(f, r)
  {
    var first, last := f * PAGE_SIZE, f * PAGE_SIZE + PAGE_SIZE - 1;
    assert OnPage(f, first) && OnPage(f, last);
    assert Wholly(f, r) <==> Inside(r, first) && Inside(r, last);
    UpIs(r.base);
    if InRange(r, f) {
      assert (f + 1) * PAGE_SIZE < WORD64;
      assert f * PAGE_SIZE < WORD64 - PAGE_SIZE;
    }
    if Inside(r, first) && Inside(r, last) {
      NotBelow(r.base, f);
    }
  }

  /** The address a value is rounded to is the first page start from it on, if
      there is one below the last page. */
  lemma UpIs(v: nat)
    ensures v <= UINT64_MAX - (PAGE_SIZE - 1) ==> v <= AlignUp(v) < v + PAGE_SIZE && AlignUp(v) % PAGE_SIZE == 0
    ensures v > UINT64_MAX - (PAGE_SIZE - 1) ==> AlignUp(v) == WORD64 - PAGE_SIZE
  {
  }

  lemma NotBelow(v: nat, f: Frame)
    requires v <= f * PAGE_SIZE && (f + 1) * PAGE_SIZE < WORD64
    ensures AlignUp(v) <= f * PAGE_SIZE
  {
  }

  /** A page overlaps a range when they have an address in common. */
  lemma OverlapIs(f: Frame, r: Range)
    requires r.base + r.size < WORD64
    ensures Overlaps(f * PAGE_SIZE, (f + 1) * PAGE_SIZE, r) <==> exists a :: OnPage(f, a) && Inside(r, a)
  {
    var first := f * PAGE_SIZE;
    var low := if first < r.base then r.base else first;
    if Overlaps(first, (f + 1) * PAGE_SIZE, r) {
      assert OnPage(f, low) && Inside(r, low);
    }
  }

  /** An address the allocator must not give out. */
  predicate Taken(l: Layout, a: nat) {
    || l.kernelStart <= a < l.kernelEnd
    || Inside(l.dtb, a)
    || exists i :: 0 <= i < |l.reserved| && Inside(l.reserved[i], a)
  }

  ghost predicate Tame(l: Layout, memory: seq<Range>) {
    && l.kernelStart < l.kernelEnd < WORD64 && l.dtb.base + l.dtb.size < WORD64
    && (forall i :: 0 <= i < |l.reserved| ==> l.reserved[i].base + l.reserved[i].size < WORD64)
    && forall i :: 0 <= i < |memory| ==> memory[i].base + memory[i].size < WORD64
  }

  lemma ReservedIs(l: Layout, memory: seq<Range>, f: Frame)
    requires Tame(l, memory)
    ensures Reserved(l, f) <==>
            l.firmware <= f * PAGE_SIZE < l.kernelStart || exists a :: OnPage(f, a) && Taken(l, a)
  {
    hide Overlaps, OnPage;
    var kernel := Range(l.kernelStart, l.kernelEnd - l.kernelStart);
    OverlapIs(f, kernel);
    OverlapIs(f, l.dtb);
    forall i | 0 <= i < |l.reserved|
      ensures Overlaps(f * PAGE_SIZE, (f + 1) * PAGE_SIZE, l.reserved[i]) <==>
              exists a :: OnPage(f, a) && Inside(l.reserved[i], a) {
      OverlapIs(f, l.reserved[i]);
    }
    assert forall a: nat :: Inside(kernel, a) <==> l.kernelStart <= a < l.kernelEnd;
  }

  lemma {:induction false} TimesIs(memory: seq<Range>, f: Frame)
    ensures Times(memory, f) > 0 <==> exists i :: 0 <= i < |memory| && InRange(memory[i], f)
  {
    hide InRange;
    if memory != [] {
      var n := |memory| - 1;
      TimesIs(memory[..n], f);
      if i :| 0 <= i < |memory| && InRange(memory[i], f) {
        assert i < n ==> memory[..n][i] == memory[i];
      }
    }
  }

  /** A page is listed exactly when it lies wholly in one memory range, none of
      its addresses is taken, and it is not below the kernel in the firmware. */
  lemma ListedExactly(l: Layout, memory: seq<Range>, f: Frame)
    requires Tame(l, memory)
    ensures Share(l, memory, f) > 0 <==>
            && (exists i :: 0 <= i < |memory| && Wholly(f, memory[i]))
            && (forall a :: OnPage(f, a) ==> !Taken(l, a))
            && !(l.firmware <= f * PAGE_SIZE < l.kernelStart)
  {
    hide InRange, Reserved, Times, OnPage, Wholly, Taken;
    TimesIs(memory, f);
    ReservedIs(l, memory, f);
    forall i | 0 <= i < |memory|
      ensures InRange(memory[i], f) <==> Wholly(f, memory[i]) {
      InRangeIs(memory[i], f);
    }
  }

  /** Memory that is described twice is listed twice. */
  lemma OverlapExample() returns (memory: seq<Range>, l: Layout, free: seq<Frame>)
    ensures l == Layout(0x8020_0000, 0x8030_0000, Range(0, 0), Firmware(memory, 0x8020_0000), [])
    ensures (forall f: Frame :: multiset(free)[f] == Share(l, memory, f)) && !Distinct(free)
  {
    var one := Range(0x8800_0000, 0x1000);
    memory := [one, one];
    l := Layout(0x8020_0000, 0x8030_0000, Range(0, 0), Firmware(memory, 0x8020_0000), []);
    free := [0x8_8000, 0x8_8000];
    assert memory[..1] == [one] && [one][..0] == [];
    forall f: Frame ensures multiset(free)[f] == Share(l, memory, f) {
      assert InRange(one, f) <==> f == 0x8_8000;
      assert Times([], f) == 0 && Times([one], f) == Times([one][..0], f) + if InRange(one, f) then 1 else 0;
      assert Times(memory, f) == if f == 0x8_8000 then 2 else 0;
    }
    assert free[0] == free[1];
  }

  /** The list is free of repetitions exactly when no page outside the reserved ones
      lies in two memory ranges. */
  lemma DistinctExactly(l: Layout, memory: seq<Range>, free: seq<Frame>)
    requires forall f: Frame :: multiset(free)[f] == Share(l, memory, f)
    ensures Distinct(free) <==> forall f: Frame :: Reserved(l, f) || Times(memory, f) <= 1
  {
    hide Reserved, Times;
    if Distinct(free) {
      forall f: Frame ensures Reserved(l, f) || Times(memory, f) <= 1 {
        AtMostOnce(free, f);
      }
    } else {
      var i, j :| 0 <= i < j < |free| && free[i] == free[j];
      Twice(free, i, j);
      assert Share(l, memory, free[i]) >= 2;
    }
  }

  lemma {:induction false} AtMostOnce(s: seq<Frame>, f: Frame)
    requires Distinct(s)
    ensures multiset(s)[f] <= 1
  {
    if s != [] {
      var rest: seq<Frame> := s[..|s| - 1];
      assert s == rest + [s[|s| - 1]];
      AtMostOnce(rest, f);
      assert f in multiset(rest) <==> f in rest;
    }
  }

  lemma Twice(s: seq<Frame>, i: nat, j: nat)
    requires i < j < |s| && s[i] == s[j]
    ensures multiset(s)[s[i]] >= 2
  {
    var a, b := s[..j], s[j..];
    assert s == a + b;
    assert a[i] == s[i] && b[0] == s[i];
    assert s[i] in multiset(a) && s[i] in multiset(b);
  }

  /** So with disjoint memory ranges that leave out page 0, the allocator starts sound,
      with exactly the unreserved pages. */
  lemma StartsSound(l: Layout, memory: seq<Range>, free: seq<Frame>, frames: Frames)
    requires forall f: Frame :: multiset(free)[f] == Share(l, memory, f)
    requires forall f: Frame :: Times(memory, f) <= 1
    requires forall f: Frame :: Times(memory, f) == 1 ==> f in frames
    requires Times(memory, 0) == 0
    ensures FreeOk(frames, free) && forall f: Frame :: f in free <==> Times(memory, f) == 1 && !Reserved(l, f)
  {
    hide Reserved, Times;
    DistinctExactly(l, memory, free);
    forall f: Frame ensures f in free <==> Times(memory, f) == 1 && !Reserved(l, f) {
      assert f in free <==> f in multiset(free);
      assert Share(l, memory, f) <= 1;
    }
  }
}
