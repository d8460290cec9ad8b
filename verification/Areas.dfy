/** Reservations: page-aligned half-open ranges that never overlap. */
module Areas {
  import opened Physical
  import opened Space
  import opened Vm

  /** Round up to a page boundary. */
  function RoundUp(x: nat): (r: nat)
    ensures r % PAGE_SIZE == 0 && x <= r < x + PAGE_SIZE
  {
    (x + PAGE_SIZE - 1) / PAGE_SIZE * PAGE_SIZE
  }

  predicate RangeOk(start: nat, end: nat) {
    start < end <= USER_END && start % PAGE_SIZE == 0 && end % PAGE_SIZE == 0
  }

  predicate Apart(a: Area, start: nat, end: nat) {
    start >= a.end || end <= a.start
  }

  predicate VacantIn(areas: seq<Area>, start: nat, end: nat) {
    forall a :: a in areas ==> Apart(a, start, end)
  }

  /** Areas are non-empty, page-aligned, below the user limit and pairwise disjoint. */
  ghost predicate AreasOk(areas: seq<Area>) {
    && (forall a :: a in areas ==> RangeOk(a.start, a.end))
    && (forall i, j :: 0 <= i < j < |areas| ==> Apart(areas[i], areas[j].start, areas[j].end))
  }

  ghost predicate InArea(areas: seq<Area>, x: nat) {
    exists a :: a in areas && a.start <= x < a.end
  }

  /** Every page in the ledger lies inside a reservation. */
  ghost predicate Covered(areas: seq<Area>, pages: seq<UserPage>) {
    forall p :: p in pages ==> InArea(areas, p.va)
  }

  lemma AreasOkPlus(areas: seq<Area>, a: Area)
    requires AreasOk(areas) && RangeOk(a.start, a.end) && VacantIn(areas, a.start, a.end)
    ensures AreasOk(areas + [a])
    ensures forall x: nat :: InArea(areas + [a], x) <==> InArea(areas, x) || a.start <= x < a.end
  {
    var more := areas + [a];
    assert forall b :: b in more <==> b in areas || b == a;
    assert a in more;
  }

  /** A vacant page-aligned range meets no page of a covered ledger. */
  lemma VacantHasNoPages(areas: seq<Area>, pages: seq<UserPage>, start: nat, end: nat)
    requires Covered(areas, pages) && VacantIn(areas, start, end)
    ensures forall p :: p in pages ==> !(start <= p.va < end)
  {
    forall p | p in pages ensures !(start <= p.va < end) {
      var a :| a in areas && a.start <= p.va < a.end;
      assert Apart(a, start, end);
    }
  }
}
