/** Removing mappings: exact subtraction of a range from the reservations. */
module Unmapping {
  import opened Physical
  import opened PageTable
  import opened Vm
  import opened Heap
  import opened Space
  import opened SpaceSteps
  import opened SpaceOps
  import opened UserView
  import opened Neutral
  import opened Areas
  import opened AddressSpaces
  import opened Break

  /** The range lies strictly inside the area, so that removing it leaves two pieces. */
  predicate Splits(a: Area, start: nat, end: nat) {
    a.start < start && end < a.end
  }

  predicate Removable(a: Area) {
    a.kind == ANON || a.kind == FILE
  }

  /** What is left of an area in its own list position. */
  function Trim(a: Area, start: nat, end: nat): seq<Area> {
    if Apart(a, start, end) then [a]
    else if start <= a.start && end >= a.end then []
    else if start > a.start then [a.(end := start)]
    else [a.(start := end)]
  }

  function TrimAll(areas: seq<Area>, start: nat, end: nat): seq<Area> {
    if areas == [] then []
    else TrimAll(areas[..|areas| - 1], start, end) + Trim(areas[|areas| - 1], start, end)
  }

  /** Address `x` is reserved with these flags, for this kind of memory. */
  ghost predicate Tagged(areas: seq<Area>, x: nat, flags: Flags, kind: Kind) {
    exists a :: a in areas && a.start <= x < a.end && a.flags == flags && a.kind == kind
  }

  /** Range subtraction: inside [start, end) nothing is reserved, outside everything is as before. */
  ghost predicate Subtracted(before: seq<Area>, areas: seq<Area>, start: nat, end: nat) {
    forall x: nat, f, k :: Tagged(areas, x, f, k) <==> Tagged(before, x, f, k) && !(start <= x < end)
  }

  /** The first `k` entries of `list` have been trimmed in place, leaving `i` of them. */
  ghost predicate Trimming(list: seq<Area>, k: nat, areas: seq<Area>, i: nat, start: nat, end: nat) {
    && k <= |list| && i == |TrimAll(list[..k], start, end)|
    && areas == TrimAll(list[..k], start, end) + list[k..]
  }

  lemma TrimmingStart(areas: seq<Area>, start: nat, end: nat)
    ensures Trimming(areas, 0, areas, 0, start, end)
  {
    assert areas[..0] == [] && areas[0..] == areas;
  }

  lemma TrimmingNext(list: seq<Area>, k: nat, areas: seq<Area>, i: nat, start: nat, end: nat)
    requires Trimming(list, k, areas, i, start, end) && i < |areas|
    ensures k < |list| && list[k] == areas[i]
    ensures var t := Trim(areas[i], start, end);
            && (|t| == 1 ==> Trimming(list, k + 1, areas[i := t[0]], i + 1, start, end))
            && (t == [] ==> Trimming(list, k + 1, WithoutArea(areas, i), i, start, end))
  {
    var t := Trim(areas[i], start, end);
    assert list[..k + 1][..k] == list[..k] && list[k..] == [list[k]] + list[k + 1..];
    assert TrimAll(list[..k + 1], start, end) == TrimAll(list[..k], start, end) + t;
  }

  /** Appending an entry beyond the cursor. */
  lemma TrimmingAppend(list: seq<Area>, k: nat, areas: seq<Area>, i: nat, start: nat, end: nat, a: Area)
    requires Trimming(list, k, areas, i, start, end)
    ensures Trimming(list + [a], k, areas + [a], i, start, end)
  {
    assert (list + [a])[..k] == list[..k] && (list + [a])[k..] == list[k..] + [a];
  }

  lemma TrimmingEnd(list: seq<Area>, k: nat, areas: seq<Area>, i: nat, start: nat, end: nat)
    requires Trimming(list, k, areas, i, start, end) && i == |areas|
    ensures areas == TrimAll(list, start, end)
  {
    assert list[..k] == list;
  }

  lemma {:induction false} TrimAllMembers(list: seq<Area>, start: nat, end: nat)
    ensures forall t :: t in TrimAll(list, start, end) <==> exists a :: a in list && t in Trim(a, start, end)
  {
    if list != [] {
      var n := |list| - 1;
      TrimAllMembers(list[..n], start, end);
      assert list == list[..n] + [list[n]];
      forall t | t in TrimAll(list, start, end) ensures exists a :: a in list && t in Trim(a, start, end) {
        if t in TrimAll(list[..n], start, end) {
          var a :| a in list[..n] && t in Trim(a, start, end);
          assert a in list;
        } else {
          assert list[n] in list && t in Trim(list[n], start, end);
        }
      }
      forall a, t | a in list && t in Trim(a, start, end) ensures t in TrimAll(list, start, end) {
        assert a in list[..n] || a == list[n];
      }
    }
  }

  predicate Covers(a: Area, x: nat) {
    a.start <= x < a.end
  }

  lemma TrimCovers(a: Area, start: nat, end: nat, x: nat)
    requires start < end && a.start < a.end && !Splits(a, start, end)
    ensures forall t ::
              t in Trim(a, start, end) ==>
                t.flags == a.flags && t.kind == a.kind && (Covers(t, x) ==> Covers(a, x) && !(start <= x < end))
    ensures Covers(a, x) && !(start <= x < end) ==> Trim(a, start, end) != [] && Covers(Trim(a, start, end)[0], x)
  {
  }

  /** Without a split, trimming each area is the subtraction. */
  lemma TrimSubtracts(list: seq<Area>, start: nat, end: nat)
    requires start < end && (forall a :: a in list ==> a.start < a.end && !Splits(a, start, end))
    ensures Subtracted(list, TrimAll(list, start, end), start, end)
  {
    hide Trim;
    TrimAllMembers(list, start, end);
    var areas := TrimAll(list, start, end);
    forall x: nat, f, k ensures Tagged(areas, x, f, k) <==> Tagged(list, x, f, k) && !(start <= x < end) {
      if Tagged(areas, x, f, k) {
        var t :| t in areas && t.start <= x < t.end && t.flags == f && t.kind == k;
        var a :| a in list && t in Trim(a, start, end);
        TrimCovers(a, start, end, x);
        assert Covers(t, x);
      }
      if Tagged(list, x, f, k) && !(start <= x < end) {
        var a :| a in list && a.start <= x < a.end && a.flags == f && a.kind == k;
        TrimCovers(a, start, end, x);
        var t := Trim(a, start, end)[0];
        assert t in Trim(a, start, end) && t in areas;
      }
    }
  }

  /** With the split area's upper piece appended, trimming is the subtraction too. */
  lemma SplitSubtracts(list: seq<Area>, n: nat, rec: Ptr, start: nat, end: nat)
    requires start < end && n < |list| && Splits(list[n], start, end)
    requires forall i :: 0 <= i < |list| && i != n ==> Apart(list[i], start, end)
    requires forall a :: a in list ==> a.start < a.end
    ensures var upper := list[n].(rec := rec, start := end);
            Subtracted(list, TrimAll(list + [upper], start, end), start, end)
  {
    var upper := list[n].(rec := rec, start := end);
    var areas := TrimAll(list + [upper], start, end);
    forall x: nat, f, k ensures Tagged(areas, x, f, k) <==> Tagged(list, x, f, k) && !(start <= x < end) {
      if Tagged(areas, x, f, k) {
        SplitOnlyOld(list, n, upper, start, end, x, f, k);
      }
      if Tagged(list, x, f, k) && !(start <= x < end) {
        SplitKeeps(list, n, upper, start, end, x, f, k);
      }
    }
  }

  lemma SplitOnlyOld(list: seq<Area>, n: nat, upper: Area, start: nat, end: nat, x: nat, f: Flags, k: Kind)
    requires start < end && n < |list| && Splits(list[n], start, end) && (forall a :: a in list ==> a.start < a.end)
    requires upper == list[n].(rec := upper.rec, start := end)
    requires Tagged(TrimAll(list + [upper], start, end), x, f, k)
    requires forall i :: 0 <= i < |list| && i != n ==> Apart(list[i], start, end)
    ensures Tagged(list, x, f, k) && !(start <= x < end)
  {
    var whole := list + [upper];
    TrimAllMembers(whole, start, end);
    var t :| t in TrimAll(whole, start, end) && t.start <= x < t.end && t.flags == f && t.kind == k;
    var a :| a in whole && t in Trim(a, start, end);
    if a == upper {
      assert list[n] in list && list[n].start <= x < list[n].end;
    } else {
      assert a in list && a.start <= x < a.end;
    }
  }

  lemma SplitKeeps(list: seq<Area>, n: nat, upper: Area, start: nat, end: nat, x: nat, f: Flags, k: Kind)
    requires start < end && n < |list| && Splits(list[n], start, end)
    requires upper == list[n].(rec := upper.rec, start := end)
    requires forall i :: 0 <= i < |list| && i != n ==> Apart(list[i], start, end)
    requires Tagged(list, x, f, k) && !(start <= x < end)
    ensures Tagged(TrimAll(list + [upper], start, end), x, f, k)
  {
    var whole := list + [upper];
    TrimAllMembers(whole, start, end);
    var a :| a in list && a.start <= x < a.end && a.flags == f && a.kind == k;
    var i :| 0 <= i < |list| && list[i] == a;
    var source := if i == n && x >= end then upper else a;
    assert source in whole;
    var t := Trim(source, start, end)[0];
    assert t in Trim(source, start, end);
  }

  /** A split area is the only one the range touches. */
  lemma SplitIsAlone(areas: seq<Area>, n: nat, start: nat, end: nat)
    requires AreasOk(areas) && n < |areas| && Splits(areas[n], start, end) && start < end
    ensures forall i :: 0 <= i < |areas| && i != n ==> Apart(areas[i], start, end)
  {
    forall i | 0 <= i < |areas| && i != n ensures Apart(areas[i], start, end) {
      OthersApart(areas, n, i);
    }
  }

  ghost predicate Touches(areas: seq<Area>, start: nat, end: nat) {
    exists a :: a in areas && !Apart(a, start, end) && !Removable(a)
  }

  ghost predicate NeedsSplit(areas: seq<Area>, start: nat, end: nat) {
    exists a :: a in areas && Splits(a, start, end)
  }

  datatype Preflight = Denied | NoMemory | Ready(split: Ptr)

  /** There is no memory for the record of another area. */
  ghost predicate NoRecord(mem: Mem) {
    Starved(mem.frames, mem.free, mem.classes, VM_AREA_SIZE)
  }

  /** Looks at every area the range touches before anything is freed, and
      allocates the record that a split will need. */
  method Check(m: Memory, sp: AddressSpace, start: nat, end: nat) returns (c: Preflight)
    requires Core(MemOf(m), sp.V(), {}, {}) && NoEmptyTable(m.frames, sp.shape) && AreasOk(sp.areas) && start < end
    modifies m
    ensures c == Denied <==> Touches(sp.areas, start, end)
    ensures c == NoMemory <==>
              NeedsSplit(sp.areas, start, end) && !Touches(sp.areas, start, end) && NoRecord(old(MemOf(m)))
    ensures !c.Ready? || c.split == Null ==> MemOf(m) == old(MemOf(m))
    ensures c.Ready? ==> (c.split != Null <==> NeedsSplit(sp.areas, start, end))
    ensures c.Ready? && c.split != Null ==>
              Track(old(MemOf(m)), sp.V(), MemOf(m), sp.V(), {}, {c.split}) && NoEmptyTable(m.frames, sp.shape)
  {
    hide Core, Conserves, NoEmptyTable, Track, AreasOk;
    ghost var a, s := MemOf(m), sp.V();
    TrackStart(a, s);
    var split := Null;
    var i := 0;
    while i < |sp.areas|
      invariant 0 <= i <= |sp.areas| && sp.V() == s
      invariant forall j :: 0 <= j < i ==> Apart(s.areas[j], start, end) || Removable(s.areas[j])
      invariant split == Null ==> MemOf(m) == a && forall j :: 0 <= j < i ==> !Splits(s.areas[j], start, end)
      invariant split != Null ==>
                  !NoRecord(a) && NeedsSplit(s.areas, start, end)
                  && (forall j :: i <= j < |s.areas| ==> Apart(s.areas[j], start, end))
      invariant split != Null ==> Track(a, s, MemOf(m), s, {}, {split}) && NoEmptyTable(m.frames, sp.shape)
    {
      var area := sp.areas[i];
      if start >= area.end || end <= area.start {
        i := i + 1;
        continue;
      }
      assert area in sp.areas && !Apart(area, start, end);
      if !Removable(area) {
        return Denied;
      }
      if start > area.start && end < area.end {
        split := TakeRecord(m, VM_AREA_SIZE, a, s, s, {}, {});
        assert {} + {split} == {split};
        assert NeedsSplit(s.areas, start, end);
        SplitIsAlone(s.areas, i, start, end);
        if split == Null {
          NotTouched(s.areas, i, start, end);
          return NoMemory;
        }
      }
      i := i + 1;
    }
    return Ready(split);
  }

  lemma NotTouched(areas: seq<Area>, n: nat, start: nat, end: nat)
    requires n < |areas| && Removable(areas[n])
             && forall i :: 0 <= i < |areas| && i != n ==> Apart(areas[i], start, end)
    ensures !Touches(areas, start, end)
  {
  }

  ghost predicate SameHeap(before: seq<Area>, areas: seq<Area>) {
    forall x: Area :: x.kind == HEAP ==> (x in before <==> x in areas)
  }

  lemma SameHeapChanged(before: seq<Area>, areas: seq<Area>, n: nat, area: Area)
    requires SameHeap(before, areas) && n < |areas| && areas[n].kind != HEAP && area.kind != HEAP
    ensures SameHeap(before, areas[n := area])
  {
    var changed := areas[n := area];
    forall x: Area | x.kind == HEAP ensures x in areas <==> x in changed {
      if x in areas { var i :| 0 <= i < |areas| && areas[i] == x; assert changed[i] == x; }
      if x in changed { var i :| 0 <= i < |changed| && changed[i] == x; assert areas[i] == x; }
    }
  }

  lemma SameHeapDropped(before: seq<Area>, areas: seq<Area>, n: nat)
    requires SameHeap(before, areas) && n < |areas| && areas[n].kind != HEAP
    ensures SameHeap(before, WithoutArea(areas, n))
  {
    var rest := WithoutArea(areas, n);
    forall x: Area | x.kind == HEAP ensures x in areas <==> x in rest {
      if x in areas { var i :| 0 <= i < |areas| && areas[i] == x; assert rest[if i < n then i else i - 1] == x; }
      if x in rest { var i :| 0 <= i < |rest| && rest[i] == x; assert areas[if i < n then i else i + 1] == x; }
    }
  }

  lemma SameHeapAdded(before: seq<Area>, areas: seq<Area>, area: Area)
    requires SameHeap(before, areas) && area.kind != HEAP
    ensures SameHeap(before, areas + [area])
  {
    forall x: Area | x.kind == HEAP ensures x in areas <==> x in areas + [area] {
    }
  }

  /** An area that keeps its place with smaller bounds. */
  lemma TrimmedOk(areas: seq<Area>, n: nat, area: Area)
    requires AreasOk(areas) && n < |areas| && RangeOk(area.start, area.end) && areas[n].start <= area.start
             && area.end <= areas[n].end
    ensures AreasOk(areas[n := area])
  {
    forall i | 0 <= i < |areas| && i != n ensures Apart(areas[i], area.start, area.end) {
      OthersApart(areas, n, i);
    }
    AreasOkResized(areas, n, area);
  }

  /** Splitting area `n`: it keeps the lower part, and the held record takes the upper. */
  lemma SplitArea(a: Mem, s: View, b: Mem, t: View, n: nat, lower: Area, upper: Area)
    requires Track(a, s, b, t, {}, {upper.rec}) && n < |t.areas| && lower.rec == t.areas[n].rec
    ensures Track(a, s, b, t.(areas := t.areas[n := lower] + [upper]), {}, {})
  {
    hide Core, Conserves, KeptBytes;
    var hr := {upper.rec};
    AreaChanged(b, t, {}, hr, n, lower);
    var u := t.(areas := t.areas[n := lower]);
    SameKept(a, s, b, t, u);
    ConservesTransitive(a, s, {}, {}, b, t, {}, hr, b, u, {}, hr);
    assert hr - {upper.rec} == {};
    PublishArea(a, s, b, u, {}, hr, upper);
  }

  lemma SplitOk(areas: seq<Area>, n: nat, lower: Area, upper: Area, start: nat, end: nat)
    requires AreasOk(areas) && n < |areas| && Splits(areas[n], start, end) && start < end && start % PAGE_SIZE == 0
             && end % PAGE_SIZE == 0
    requires lower == areas[n].(end := start) && upper.start == end && upper.end == areas[n].end
    ensures AreasOk(areas[n := lower] + [upper])
  {
    assert areas[n] in areas;
    TrimmedOk(areas, n, lower);
    var changed := areas[n := lower];
    forall x | x in changed ensures Apart(x, upper.start, upper.end) {
      var i :| 0 <= i < |changed| && changed[i] == x;
      if i != n { OthersApart(areas, n, i); }
    }
    AreasOkPlus(changed, upper);
  }

  /** How far the split has got: not needed, still to come at index `n`, or done. */
  ghost predicate SplitState(areas: seq<Area>, list: seq<Area>, k: nat, n: nat, split: Ptr, pending: bool, start: nat,
                             end: nat) {
    && (split == Null ==> !pending && list == areas && forall x :: x in areas ==> !Splits(x, start, end))
    && (split != Null ==>
         n < |areas| && Splits(areas[n], start, end)
         && (forall i :: 0 <= i < |areas| && i != n ==> Apart(areas[i], start, end)))
    && (split != Null && pending ==> list == areas && k <= n)
    && (split != Null && !pending ==> list == areas + [areas[n].(rec := split, start := end)] && k > n)
  }

  lemma SplitStateStart(areas: seq<Area>, split: Ptr, start: nat, end: nat) returns (n: nat)
    requires AreasOk(areas) && start < end && (split != Null <==> NeedsSplit(areas, start, end))
    ensures SplitState(areas, areas, 0, n, split, split != Null, start, end)
  {
    n := 0;
    if split != Null {
      var x :| x in areas && Splits(x, start, end);
      n :| 0 <= n < |areas| && areas[n] == x;
      SplitIsAlone(areas, n, start, end);
    }
  }

  /** The area under the cursor, if the range touches it, is an original and removable one. */
  lemma CursorArea(areas: seq<Area>, list: seq<Area>, k: nat, n: nat, split: Ptr, pending: bool, start: nat, end: nat)
    requires SplitState(areas, list, k, n, split, pending, start, end) && k < |list| && !Touches(areas, start, end)
             && start < end
    ensures !Apart(list[k], start, end) ==> k < |areas| && list[k] == areas[k] && Removable(list[k])
    ensures !Apart(list[k], start, end) && pending ==> k == n && Splits(list[k], start, end)
    ensures Splits(list[k], start, end) ==> pending && k == n
  {
    if k < |areas| {
      assert areas[k] in areas;
    }
  }

  /** The area under the cursor keeps what lies below the range, and the record held
      for it takes what lies above. */
  lemma SplitStep(a: Mem, s: View, b: Mem, t: View, i: nat, upper: Area, list: seq<Area>, k: nat, n: nat, split: Ptr,
                  start: nat, end: nat)
    requires i < |t.areas| && k < |list| && list[k] == t.areas[i] && Splits(t.areas[i], start, end)
             && RangeOk(start, end)
    requires Track(a, s, b, t, {}, {split}) && AreasOk(t.areas) && SameHeap(s.areas, t.areas) && Removable(t.areas[i])
    requires SplitState(s.areas, list, k, n, split, true, start, end) && k == n && list[k] == s.areas[n]
             && Trimming(list, k, t.areas, i, start, end)
    requires upper == t.areas[i].(rec := split, start := end)
    ensures var areas := t.areas[i := t.areas[i].(end := start)] + [upper];
            && Track(a, s, b, t.(areas := areas), {}, {}) && AreasOk(areas) && SameHeap(s.areas, areas)
            && SplitState(s.areas, list + [upper], k + 1, n, split, false, start, end)
            && Trimming(list + [upper], k + 1, areas, i + 1, start, end)
  {
    hide Core, Conserves, Track, AreasOk, SameHeap, SplitState, Trimming, TrimAll;
    var lower := t.areas[i].(end := start);
    SplitArea(a, s, b, t, i, lower, upper);
    SplitOk(t.areas, i, lower, upper, start, end);
    SameHeapChanged(s.areas, t.areas, i, lower);
    SameHeapAdded(s.areas, t.areas[i := lower], upper);
    TrimmingNext(list, k, t.areas, i, start, end);
    TrimmingAppend(list, k + 1, t.areas[i := lower], i + 1, start, end, upper);
    SplitDone(s.areas, list, k, n, split, start, end);
  }

  /** The area under the cursor keeps one side of the range. */
  lemma TrimStep(a: Mem, s: View, b: Mem, t: View, i: nat, kept: Area, list: seq<Area>, k: nat, n: nat, split: Ptr,
                 start: nat, end: nat)
    requires i < |t.areas| && k < |list| && list[k] == t.areas[i] && RangeOk(start, end)
             && RangeOk(t.areas[i].start, t.areas[i].end)
    requires !Splits(t.areas[i], start, end) && Trim(t.areas[i], start, end) == [kept] && kept.rec == t.areas[i].rec
             && kept.kind == t.areas[i].kind
    requires t.areas[i].start <= kept.start && kept.end <= t.areas[i].end && RangeOk(kept.start, kept.end)
    requires Track(a, s, b, t, {}, {}) && AreasOk(t.areas) && SameHeap(s.areas, t.areas) && Removable(t.areas[i])
    requires SplitState(s.areas, list, k, n, split, false, start, end) && Trimming(list, k, t.areas, i, start, end)
    ensures var areas := t.areas[i := kept];
            && Track(a, s, b, t.(areas := areas), {}, {}) && AreasOk(areas) && SameHeap(s.areas, areas)
            && SplitState(s.areas, list, k + 1, n, split, false, start, end)
            && Trimming(list, k + 1, areas, i + 1, start, end)
  {
    hide Core, Conserves, Track, AreasOk, SameHeap, SplitState, Trimming, TrimAll;
    TrimmedOk(t.areas, i, kept);
    SameHeapChanged(s.areas, t.areas, i, kept);
    ChangeArea(a, s, b, t, i, kept);
    TrimmingNext(list, k, t.areas, i, start, end);
    SplitStateNext(s.areas, list, k, n, split, false, start, end);
  }

  /** An area apart from the range stays; one inside it goes. */
  lemma WholeStep(before: seq<Area>, areas: seq<Area>, i: nat, list: seq<Area>, k: nat, n: nat, split: Ptr,
                  pending: bool, start: nat, end: nat)
    requires Trimming(list, k, areas, i, start, end) && i < |areas| && k < |list| && RangeOk(start, end)
             && RangeOk(areas[i].start, areas[i].end)
    requires SplitState(before, list, k, n, split, pending, start, end) && list[k] == areas[i]
    ensures Apart(areas[i], start, end) ==>
              SplitState(before, list, k + 1, n, split, pending, start, end)
              && Trimming(list, k + 1, areas, i + 1, start, end)
    ensures !Apart(areas[i], start, end) && start <= areas[i].start && end >= areas[i].end ==>
              SplitState(before, list, k + 1, n, split, pending, start, end)
              && Trimming(list, k + 1, WithoutArea(areas, i), i, start, end)
  {
    hide SplitState, Trimming, TrimAll, WithoutArea;
    TrimmingNext(list, k, areas, i, start, end);
    assert areas[i := areas[i]] == areas;
    if !Splits(areas[i], start, end) {
      SplitStateNext(before, list, k, n, split, pending, start, end);
    }
  }

  /** Takes the range out of every area. */
  method TrimAreas(m: Memory, sp: AddressSpace, start: nat, end: nat, split: Ptr, ghost a: Mem, ghost s: View)
    requires Track(a, s, MemOf(m), sp.V(), {}, if split == Null then {} else {split})
             && NoEmptyTable(m.frames, sp.shape)
    requires sp.areas == s.areas && AreasOk(s.areas) && RangeOk(start, end) && !Touches(s.areas, start, end)
    requires split != Null <==> NeedsSplit(s.areas, start, end)
    modifies sp`areas, m
    ensures Track(a, s, MemOf(m), sp.V(), {}, {}) && NoEmptyTable(m.frames, sp.shape)
    ensures AreasOk(sp.areas) && SameHeap(s.areas, sp.areas) && Subtracted(s.areas, sp.areas, start, end)
  {
    hide Core, Conserves, NoEmptyTable, Track, AreasOk, SameHeap, Subtracted, SplitState, Touches, NeedsSplit, Trimming,
         TrimAll;
    ghost var n := SplitStateStart(s.areas, split, start, end);
    ghost var list, k := s.areas, 0;
    TrimmingStart(s.areas, start, end);
    SameHeapStart(s.areas);
    var pending := split;
    var i := 0;
    while i < |sp.areas|
      invariant 0 <= i <= |sp.areas| && 0 <= k <= |list| && (pending == Null || pending == split)
      invariant SplitState(s.areas, list, k, n, split, pending != Null, start, end)
      invariant Trimming(list, k, sp.areas, i, start, end)
      invariant AreasOk(sp.areas) && SameHeap(s.areas, sp.areas)
      invariant Track(a, s, MemOf(m), sp.V(), {}, if pending == Null then {} else {pending})
                && NoEmptyTable(m.frames, sp.shape)
      decreases |list| - k + (if pending == Null then 0 else 2)
    {
      var area := sp.areas[i];
      TrimmingNext(list, k, sp.areas, i, start, end);
      CursorArea(s.areas, list, k, n, split, pending != Null, start, end);
      AreaRange(sp.areas, i);
      WholeStep(s.areas, sp.areas, i, list, k, n, split, pending != Null, start, end);
      if start >= area.end || end <= area.start {
        i := i + 1;
      } else if start <= area.start && end >= area.end {
        SameHeapDropped(s.areas, sp.areas, i);
        WithoutAreaOk(sp.areas, i);
        sp.DropArea(m, i, a, s);
      } else if start > area.start && end < area.end {
        var lower, upper := area.(end := start), area.(rec := pending, start := end);
        SplitStep(a, s, MemOf(m), sp.V(), i, upper, list, k, n, split, start, end);
        list := list + [upper];
        sp.areas := sp.areas[i := lower] + [upper];
        pending := Null;
        i := i + 1;
      } else {
        var kept := if start <= area.start then area.(start := end) else area.(end := start);
        TrimStep(a, s, MemOf(m), sp.V(), i, kept, list, k, n, split, start, end);
        sp.areas := sp.areas[i := kept];
        i := i + 1;
      }
      k := k + 1;
    }
    TrimmingDone(list, k, sp.areas, i, start, end, s.areas, n, split, pending != Null);
  }

  lemma AreaRange(areas: seq<Area>, i: nat)
    requires AreasOk(areas) && i < |areas|
    ensures RangeOk(areas[i].start, areas[i].end)
  {
    assert areas[i] in areas;
  }

  lemma SameHeapStart(areas: seq<Area>)
    ensures SameHeap(areas, areas)
  {
  }

  lemma SplitDone(areas: seq<Area>, list: seq<Area>, k: nat, n: nat, split: Ptr, start: nat, end: nat)
    requires SplitState(areas, list, k, n, split, true, start, end) && k == n
    ensures SplitState(areas, list + [areas[n].(rec := split, start := end)], k + 1, n, split, false, start, end)
    ensures k < |list| && list == areas && split != Null
  {
  }

  lemma SplitStateNext(areas: seq<Area>, list: seq<Area>, k: nat, n: nat, split: Ptr, pending: bool, start: nat,
                       end: nat)
    requires SplitState(areas, list, k, n, split, pending, start, end) && k < |list| && !Splits(list[k], start, end)
    ensures SplitState(areas, list, k + 1, n, split, pending, start, end)
  {
  }

  lemma TrimmingDone(list: seq<Area>, k: nat, areas: seq<Area>, i: nat, start: nat, end: nat, before: seq<Area>, n: nat,
                     split: Ptr, pending: bool)
    requires Trimming(list, k, areas, i, start, end) && i == |areas| && RangeOk(start, end) && AreasOk(before)
    requires SplitState(before, list, k, n, split, pending, start, end)
    ensures !pending && Subtracted(before, areas, start, end)
  {
    hide TrimAll, Subtracted;
    TrimmingEnd(list, k, areas, i, start, end);
    if split == Null {
      TrimSubtracts(list, start, end);
    } else {
      SplitSubtracts(before, n, split, start, end);
    }
  }

  lemma ForbiddenMeans(areas: seq<Area>, start: nat, end: nat)
    ensures Touches(areas, start, end) <==>
              exists a :: a in areas && start < a.end && a.start < end && a.kind != ANON && a.kind != FILE
    ensures NeedsSplit(areas, start, end) <==> exists a :: a in areas && a.start < start && end < a.end
  {
  }

  /** Removes all mappings in a range.  Refusals and failures change nothing;
      success takes exactly the range out of the reservations and the ledger. */
  method Munmap(m: Memory, sp: AddressSpace, start: nat, length: nat) returns (r: Result)
    requires Valid(MemOf(m), sp.V())
    modifies sp`pages, sp`shape, sp`areas, m
    ensures Valid(MemOf(m), sp.V()) && Track(old(MemOf(m)), old(sp.V()), MemOf(m), sp.V(), {}, {})
    ensures var end := RoundUp(start + length);
            var improper := start % PAGE_SIZE != 0 || length == 0 || start + length > USER_END;
            var forbidden := exists a :: a in old(sp.areas) && start < a.end && a.start < end
                                         && a.kind != ANON && a.kind != FILE;
            var split := exists a :: a in old(sp.areas) && a.start < start && end < a.end;
            && (r == Err(EINVAL) <==> improper)
            && (r == Err(EPERM) <==> !improper && forbidden)
            && (r == Err(ENOMEM) <==> !improper && !forbidden && split && NoRecord(old(MemOf(m))))
            && (r.Ok? ==>
                 r.value == 0 && sp.pages == Outside(old(sp.pages), start, end)
                 && Subtracted(old(sp.areas), sp.areas, start, end))
            && (r.Err? ==>
                 sp.pages == old(sp.pages) && sp.areas == old(sp.areas)
                 && Restored(old(MemOf(m)), old(sp.V()), MemOf(m), sp.V()))
            && (r.Err? ==> r.errno == EINVAL || r.errno == EPERM || r.errno == ENOMEM)
    ensures r.Ok? ==>
              forall x: nat :: start <= x < RoundUp(start + length) ==>
                && ByteAt(MemOf(m), sp.V(), x) == 0
                && !Accessible(MemOf(m), sp.V(), x, false) && !Accessible(MemOf(m), sp.V(), x, true)
    ensures forall x: nat ::
              x < USER_END && (r.Err? || x < start || x >= RoundUp(start + length)) ==>
                SeenSame(old(MemOf(m)), old(sp.V()), MemOf(m), sp.V(), x)
  {
    hide Core, Conserves, NoEmptyTable, Track, AreasOk, BrkOk, Covered, Touches, NeedsSplit, NoRecord, Subtracted,
         Outside, Restored, SameHeap, ByteAt, Accessible, SeenSame;
    ghost var a, s := MemOf(m), sp.V();
    TrackStart(a, s);
    RestoredFrom(a, s, a, s);
    NothingChanged(a, s, a, s);
    if start % PAGE_SIZE != 0 || length == 0 || start >= USER_END || length > USER_END - start {
      return Err(EINVAL);
    }
    var end := RoundUp(start + length);
    ForbiddenMeans(s.areas, start, end);
    var check := Check(m, sp, start, end);
    if check.Denied? {
      return Err(EPERM);
    }
    if check.NoMemory? {
      return Err(ENOMEM);
    }
    ghost var b := MemOf(m);
    ghost var hr := if check.split == Null then {} else {check.split};
    TrackCore(a, s, b, s, {}, hr);
    if check.split != Null {
      Lay(b, s, check.split);
    }
    sp.RemovePages(m, start, end);
    if check.split != Null {
      Resume(a, s, b, s, MemOf(m), sp.V(), check.split);
    } else {
      TrackCompose(a, s, b, s, MemOf(m), sp.V());
    }
    TrimAreas(m, sp, start, end, check.split, a, s);
    TrackCore(a, s, MemOf(m), sp.V(), {}, {});
    RemainderCovered(s, sp.V(), start, end);
    BrkUntouched(s.areas, sp.areas, s.brkBase, s.brkEnd);
    RemovalSeen(a, s, MemOf(m), sp.V(), start, end);
    return Ok(0);
  }

  lemma InAreaTagged(areas: seq<Area>, x: nat)
    ensures InArea(areas, x) <==> exists f, k :: Tagged(areas, x, f, k)
  {
    if InArea(areas, x) {
      var a :| a in areas && a.start <= x < a.end;
      assert Tagged(areas, x, a.flags, a.kind);
    }
  }

  lemma RemainderCovered(before: View, after: View, start: nat, end: nat)
    requires Covered(before.areas, before.pages) && after.pages == Outside(before.pages, start, end)
    requires Subtracted(before.areas, after.areas, start, end)
    ensures Covered(after.areas, after.pages)
  {
    hide InArea, Tagged;
    forall p | p in after.pages ensures InArea(after.areas, p.va) {
      assert p in before.pages && !(start <= p.va < end);
      InAreaTagged(before.areas, p.va);
      InAreaTagged(after.areas, p.va);
      var f, k :| Tagged(before.areas, p.va, f, k);
      assert Tagged(after.areas, p.va, f, k);
    }
  }

  lemma BrkUntouched(before: seq<Area>, areas: seq<Area>, brkBase: nat, brkEnd: nat)
    requires BrkOk(before, brkBase, brkEnd) && SameHeap(before, areas)
    ensures BrkOk(areas, brkBase, brkEnd)
  {
  }
}
