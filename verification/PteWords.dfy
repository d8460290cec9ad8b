/** Page-table entries and virtual addresses as the 64-bit words of the machine. */
module PteWords {
  // Bits of an entry: valid 1, read 2, write 4, execute 8, user 16, global 32,
  // accessed 64, dirty 128; the page number takes bits 10 to 53.

  /** The physical page an entry points to. */
  function PtePhysical(pte: bv64): bv64 {
    (pte & 0x003f_ffff_ffff_fc00) << 2
  }

  function TablePte(physical: bv64): bv64 {
    (physical >> 2) | 1
  }

  /** The flags asked for, valid and accessed, and dirty if writable. */
  function Hardware(flags: bv64): bv64 {
    flags | 1 | 64 | (if flags & 4 != 0 then 128 else 0)
  }

  function LeafPte(physical: bv64, flags: bv64): bv64 {
    (physical >> 2) | Hardware(flags)
  }

  predicate ValidLeafFlags(flags: bv64) {
    flags & !0x3e == 0 && flags & 10 != 0 && !(flags & 4 != 0 && flags & 2 == 0)
  }

  /** A page-aligned physical address of the 56 bits an entry can hold. */
  predicate IsPage(physical: bv64) {
    physical & 0x00ff_ffff_ffff_f000 == physical
  }

  predicate IsBranch(pte: bv64) {
    pte & 1 != 0 && pte & 0xe == 0
  }

  /** An entry for a table leads to that table, and is never taken for a leaf. */
  lemma TableEntry(physical: bv64)
    requires IsPage(physical)
    ensures PtePhysical(TablePte(physical)) == physical && IsBranch(TablePte(physical))
  {
  }

  /** An entry for a page leads to that page with exactly the flags asked for; it is
      accessed from the start, dirty exactly when writable, and never taken for a table. */
  lemma LeafEntry(physical: bv64, flags: bv64)
    requires IsPage(physical) && ValidLeafFlags(flags)
    ensures var pte := LeafPte(physical, flags);
            && PtePhysical(pte) == physical && pte & 0x3e == flags
            && pte & 1 != 0 && pte & 64 != 0 && (pte & 128 != 0 <==> flags & 4 != 0) && !IsBranch(pte)
  {
  }

  /** Different pages or flags give different entries. */
  lemma LeafInjective(p: bv64, f: bv64, q: bv64, g: bv64)
    requires IsPage(p) && IsPage(q) && ValidLeafFlags(f) && ValidLeafFlags(g) && LeafPte(p, f) == LeafPte(q, g)
    ensures p == q && f == g
  {
    LeafEntry(p, f);
    LeafEntry(q, g);
  }

  // ----- virtual addresses

  predicate Canonical(address: bv64) {
    var upper := address >> 39;
    upper == 0 || upper == 0x1ff_ffff
  }

  function Index2(address: bv64): bv64 {
    (address >> 30) & 0x1ff
  }

  function Index1(address: bv64): bv64 {
    (address >> 21) & 0x1ff
  }

  function Index0(address: bv64): bv64 {
    (address >> 12) & 0x1ff
  }

  predicate SameSlot(a: bv64, b: bv64) {
    Index2(a) == Index2(b) && Index1(a) == Index1(b) && Index0(a) == Index0(b)
  }

  /** The 27 bits that select a slot. */
  function Vpn(a: bv64): bv64 {
    (a >> 12) & 0x7ff_ffff
  }

  /** Two addresses share a slot exactly when bits 12 to 38 agree; the bits above
      play no part. */
  lemma SlotOnlyIf(a: bv64, b: bv64)
    requires SameSlot(a, b)
    ensures Vpn(a) == Vpn(b)
  {
  }

  lemma SlotIf(a: bv64, b: bv64)
    requires Vpn(a) == Vpn(b)
    ensures SameSlot(a, b)
  {
  }

  /** The test accepts addresses that differ only above bit 38, so the high and the
      low half alias; below bit 38 user addresses do not. */
  lemma HalvesAlias(a: bv64)
    requires a >> 39 == 0
    ensures Canonical(a) && Canonical(a | 0xffff_ff80_0000_0000) && SameSlot(a, a | 0xffff_ff80_0000_0000)
  {
  }

  /** For user addresses, below 2^38, the slot determines the page. */
  lemma UserSlots(a: bv64, b: bv64)
    requires a >> 38 == 0 && b >> 38 == 0 && SameSlot(a, b)
    ensures a >> 12 == b >> 12
  {
  }
}
