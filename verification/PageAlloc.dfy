/** The physical page allocator. */
module PageAlloc {
  import opened Common
  import opened Physical

  /** Pops the head of the free list; frame 0 means that memory is exhausted. */
  method Alloc(m: Memory) returns (f: Frame)
    requires FreeOk(m.frames, m.free)
    modifies m`free
    ensures FreeOk(m.frames, m.free)
    ensures f == 0 <==> old(m.free) == []
    ensures f == 0 ==> m.free == []
    ensures f != 0 ==> old(m.free) == [f] + m.free && f !in m.free && f in m.frames
    ensures f != 0 ==> Elements(m.free) == Elements(old(m.free)) - {f}
  {
    if m.free == [] {
      return 0;
    }
    f := m.free[0];
    m.free := m.free[1..];
    assert old(m.free) == [f] + m.free;
  }

  /** Pushes a frame; null is ignored.  The list stays sound exactly when the frame was
      not free already. */
  method Free(m: Memory, f: Frame)
    requires FreeOk(m.frames, m.free)
    requires f != 0 ==> f in m.frames
    modifies m`free, m`frames
    ensures FreeOk(m.frames, m.free) <==> f == 0 || f !in old(m.free)
    ensures f == 0 ==> m.free == old(m.free) && m.frames == old(m.frames)
    ensures f != 0 ==> m.free == [f] + old(m.free) && m.frames == old(m.frames)[f := Raw]
    ensures f != 0 ==> Elements(m.free) == Elements(old(m.free)) + {f}
  {
    if f == 0 {
      return;
    }
    m.frames := m.frames[f := Raw];
    m.free := [f] + m.free;
    if f in old(m.free) {
      TwiceListed(f, old(m.free));
    }
  }

  lemma TwiceListed(f: Frame, free: seq<Frame>)
    requires f in free
    ensures !Distinct([f] + free)
  {
    var s := [f] + free;
    var i :| 0 <= i < |free| && free[i] == f;
    assert s[0] == s[i + 1];
  }
}
