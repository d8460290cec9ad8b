/** The slab allocator behind kmalloc and kfree. */
module Heap {
  import opened Common
  import opened Physical
  import PageAlloc

  const CLASS_COUNT := 8
  const HEADER_SIZE := 32

  /** A kernel pointer returned by kmalloc. */
  datatype Ptr = Null | Object(frame: Frame, offset: nat)

  function ClassSize(c: nat): (size: nat)
    ensures size >= 16
  {
    if c == 0 then 16 else if c == 1 then 32 else if c == 2 then 64 else if c == 3 then 128
    else if c == 4 then 256 else if c == 5 then 512 else if c == 6 then 1024 else 2048
  }

  /** The first object offset: the header rounded up to the object size. */
  function FirstOffset(c: nat): nat {
    if ClassSize(c) < HEADER_SIZE then HEADER_SIZE else ClassSize(c)
  }

  /** An offset at which a slab of class `c` may place an object. */
  predicate IsSlot(c: nat, o: nat) {
    o % ClassSize(c) == 0 && FirstOffset(c) <= o && o + ClassSize(c) <= PAGE_SIZE
  }

  function Slots(c: nat, from: nat): set<nat> {
    set o: nat | from <= o < PAGE_SIZE && IsSlot(c, o)
  }

  /** How many objects fit at and above an offset. */
  function Room(c: nat, from: nat): nat
    decreases PAGE_SIZE - from
  {
    if from + ClassSize(c) <= PAGE_SIZE then 1 + Room(c, from + ClassSize(c)) else 0
  }

  function Capacity(c: nat): nat {
    Room(c, FirstOffset(c))
  }

  ghost predicate SlabOk(s: Content) {
    && s.Slab?
    && s.cls < CLASS_COUNT
    && Distinct(s.objects)
    && (forall o :: o in s.objects ==> IsSlot(s.cls, o))
    && s.used + |s.objects| == Capacity(s.cls)
  }

  /** Frame `f` is a slab of class `c` with at least one object handed out. */
  ghost predicate ListedSlab(frames: Frames, f: Frame, c: nat) {
    SlabOf(frames, f, c) && frames[f].used >= 1
  }

  ghost predicate SlabOf(frames: Frames, f: Frame, c: nat) {
    f in frames && f != 0 && SlabOk(frames[f]) && frames[f].cls == c
  }

  ghost predicate HeapOk(frames: Frames, classes: seq<seq<Frame>>) {
    && |classes| == CLASS_COUNT
    && forall c :: 0 <= c < CLASS_COUNT ==>
                     Distinct(classes[c]) && forall f :: f in classes[c] ==> ListedSlab(frames, f, c)
  }

  /** Every frame held by the heap. */
  function Slabs(classes: seq<seq<Frame>>): set<Frame> {
    set c, f | 0 <= c < |classes| && f in classes[c] :: f
  }

  /** Offset `o` of frame `f` is an object in a caller's hands. */
  ghost predicate Held(frames: Frames, f: Frame, o: nat) {
    f in frames && frames[f].Slab? && IsSlot(frames[f].cls, o) && o !in frames[f].objects
  }

  /** The objects handed out and not yet freed. */
  ghost function Live(frames: Frames, classes: seq<seq<Frame>>): set<Ptr> {
    set f, o: nat | f in Slabs(classes) && 0 <= o < PAGE_SIZE && Held(frames, f, o) :: Object(f, o)
  }

  // ----- arithmetic of slots

  lemma MultipleGap(a: nat, b: nat, size: nat)
    requires size > 0 && a % size == 0 && b % size == 0 && a < b
    ensures a + size <= b
  {
    var q, p := a / size, b / size;
    assert a == size * q && b == size * p;
    assert p > q;
    assert size * p >= size * (q + 1) == size * q + size;
  }

  lemma NextSlot(c: nat, o: nat)
    requires o % ClassSize(c) == 0
    ensures (o + ClassSize(c)) % ClassSize(c) == 0
  {
  }

  lemma SlotsStep(c: nat, from: nat)
    requires from % ClassSize(c) == 0 && FirstOffset(c) <= from
    ensures from + ClassSize(c) <= PAGE_SIZE ==>
              Slots(c, from) == {from} + Slots(c, from + ClassSize(c)) && from !in Slots(c, from + ClassSize(c))
    ensures from + ClassSize(c) > PAGE_SIZE ==> Slots(c, from) == {}
  {
    hide ClassSize, FirstOffset;
    var size := ClassSize(c);
    forall o | o in Slots(c, from) && o != from
      ensures from + size <= o
    {
      MultipleGap(from, o, size);
    }
  }

  lemma {:induction false} SlotCount(c: nat, from: nat)
    requires from % ClassSize(c) == 0 && FirstOffset(c) <= from
    ensures |Slots(c, from)| == Room(c, from)
    decreases PAGE_SIZE - from
  {
    hide ClassSize, FirstOffset, Slots;
    var size := ClassSize(c);
    SlotsStep(c, from);
    if from + size <= PAGE_SIZE {
      NextSlot(c, from);
      SlotCount(c, from + size);
    }
  }

  /** The eight sizes: sixteen bytes, and each the double of the one before. */
  lemma ClassSizes(c: nat)
    ensures ClassSize(0) == 16 && ClassSize(7) == 2048
    ensures c < 7 ==> ClassSize(c + 1) == 2 * ClassSize(c)
  {
  }

  lemma FirstOffsetAligned(c: nat)
    ensures FirstOffset(c) == (HEADER_SIZE + ClassSize(c) - 1) / ClassSize(c) * ClassSize(c)
    ensures FirstOffset(c) % ClassSize(c) == 0 && FirstOffset(c) >= HEADER_SIZE
    ensures FirstOffset(c) + ClassSize(c) <= PAGE_SIZE
  {
  }

  /** Room in closed form: the usable bytes divided by the object size. */
  lemma {:induction false} RoomIsQuotient(c: nat, from: nat)
    requires from <= PAGE_SIZE
    ensures Room(c, from) == (PAGE_SIZE - from) / ClassSize(c)
    decreases PAGE_SIZE - from
  {
    var size := ClassSize(c);
    if from + size <= PAGE_SIZE {
      RoomIsQuotient(c, from + size);
      var rest := PAGE_SIZE - from - size;
      assert (rest + size) / size == rest / size + 1;
    }
  }

  // ----- what the heap invariant gives

  /** A listed slab always has an object in somebody's hands. */
  lemma ListedSlabHasHeldObject(frames: Frames, f: Frame, c: nat) returns (o: nat)
    requires ListedSlab(frames, f, c)
    ensures 0 <= o < PAGE_SIZE && Held(frames, f, o)
  {
    FirstOffsetAligned(c);
    SlotCount(c, FirstOffset(c));
    o := MissingElement(frames[f].objects, Slots(c, FirstOffset(c)));
  }

  /** The heap holds exactly the frames its live objects are in: no slab is
      kept for nobody, so the live set alone determines the heap's pages. */
  lemma SlabsAreLiveFrames(frames: Frames, classes: seq<seq<Frame>>)
    requires HeapOk(frames, classes)
    ensures Slabs(classes) == set p | p in Live(frames, classes) && p.Object? :: p.frame
  {
    var live := set p | p in Live(frames, classes) && p.Object? :: p.frame;
    forall f | f in Slabs(classes)
      ensures f in live
    {
      var c :| 0 <= c < |classes| && f in classes[c];
      var o := ListedSlabHasHeldObject(frames, f, c);
      assert Object(f, o) in Live(frames, classes);
    }
  }

  /** Live objects never overlap, never touch the slab header and stay inside their page. */
  lemma LiveObjectsDisjoint(frames: Frames, classes: seq<seq<Frame>>, p: Ptr, q: Ptr)
    requires HeapOk(frames, classes)
    requires p in Live(frames, classes) && q in Live(frames, classes) && p != q
    ensures p.frame in frames && frames[p.frame].Slab?
    ensures HEADER_SIZE <= p.offset && p.offset + ClassSize(frames[p.frame].cls) <= PAGE_SIZE
    ensures p.frame == q.frame ==>
              || p.offset + ClassSize(frames[p.frame].cls) <= q.offset
              || q.offset + ClassSize(frames[p.frame].cls) <= p.offset
  {
    FirstOffsetAligned(frames[p.frame].cls);
    if p.frame == q.frame {
      var size := ClassSize(frames[p.frame].cls);
      if p.offset < q.offset {
        MultipleGap(p.offset, q.offset, size);
      } else {
        MultipleGap(q.offset, p.offset, size);
      }
    }
  }

  /** The heap depends on its own slabs only. */
  lemma HeapFrame(a: Frames, b: Frames, classes: seq<seq<Frame>>)
    requires HeapOk(a, classes) && Agree(a, b, Slabs(classes))
    ensures HeapOk(b, classes) && Live(a, classes) == Live(b, classes)
  {
    forall c, f | 0 <= c < CLASS_COUNT && f in classes[c]
      ensures ListedSlab(b, f, c)
    {
      assert f in Slabs(classes);
      assert ListedSlab(a, f, c);
    }
    forall f | f in Slabs(classes)
      ensures f in a && f in b && a[f] == b[f]
    {
    }
  }

  // ----- one object in or out of a slab

  /** A slab with nothing handed out has every slot on its free list. */
  lemma UnusedSlabHoldsNothing(s: Content, o: nat)
    requires SlabOk(s) && s.used == 0 && IsSlot(s.cls, o)
    ensures o in s.objects
  {
    FirstOffsetAligned(s.cls);
    SlotCount(s.cls, FirstOffset(s.cls));
    FullList(s.objects, Slots(s.cls, FirstOffset(s.cls)));
    assert o in Elements(s.objects);
  }

  /** Slab `f` of class `c` can hand out an object, and every other slab is as it should be. */
  ghost predicate CanTake(frames: Frames, classes: seq<seq<Frame>>, f: Frame, c: nat) {
    && |classes| == CLASS_COUNT && c < CLASS_COUNT && f in classes[c]
    && (forall d :: 0 <= d < CLASS_COUNT ==>
                      Distinct(classes[d]) && forall g :: g in classes[d] ==> g == f || ListedSlab(frames, g, d))
    && (forall d :: 0 <= d < CLASS_COUNT && f in classes[d] ==> d == c)
    && SlabOf(frames, f, c) && frames[f].objects != []
  }

  /** Taking the head object of slab `f` adds exactly that object to the live set. */
  lemma TakeObject(frames: Frames, classes: seq<seq<Frame>>, f: Frame, c: nat)
    requires CanTake(frames, classes, f, c)
    ensures var s := frames[f];
            var after := frames[f := s.(used := s.used + 1, objects := s.objects[1..])];
            && HeapOk(after, classes)
            && Object(f, s.objects[0]) !in Live(frames, classes)
            && Live(after, classes) == Live(frames, classes) + {Object(f, s.objects[0])}
  {
    var s := frames[f];
    var t := s.(used := s.used + 1, objects := s.objects[1..]);
    assert s.objects == [s.objects[0]] + t.objects;
    assert SlabOk(t);
    var after := frames[f := t];
    forall d, g | 0 <= d < CLASS_COUNT && g in classes[d]
      ensures ListedSlab(after, g, d)
    {
    }
    forall g, o: nat
      ensures Held(after, g, o) <==> Held(frames, g, o) || (g == f && o == s.objects[0])
    {
      HeadOnly(s.objects, o);
    }
    assert f in Slabs(classes) && IsSlot(c, s.objects[0]);
    assert Live(after, classes) == Live(frames, classes) + {Object(f, s.objects[0])};
  }

  lemma HeadOnly(s: seq<nat>, o: nat)
    requires s != [] && Distinct(s)
    ensures o in s <==> o == s[0] || o in s[1..]
    ensures s[0] !in s[1..]
  {
    assert s == [s[0]] + s[1..];
  }

  /** Giving back a held object of slab `f` removes exactly that object from the live set. */
  lemma GiveObject(frames: Frames, classes: seq<seq<Frame>>, f: Frame, o: nat)
    requires HeapOk(frames, classes) && Object(f, o) in Live(frames, classes)
    ensures var s := frames[f];
            var t := s.(used := s.used - 1, objects := [o] + s.objects);
            && SlabOk(t)
            && Live(frames[f := t], classes) == Live(frames, classes) - {Object(f, o)}
  {
    var s := frames[f];
    var c :| 0 <= c < CLASS_COUNT && f in classes[c];
    assert ListedSlab(frames, f, c);
    var t := s.(used := s.used - 1, objects := [o] + s.objects);
    GivenSlab(s, o);
    GivenHeld(frames, f, o);
    assert Live(frames[f := t], classes) == Live(frames, classes) - {Object(f, o)} by { hide Held; }
  }

  lemma GivenSlab(s: Content, o: nat)
    requires SlabOk(s) && s.used > 0 && IsSlot(s.cls, o) && o !in s.objects
    ensures SlabOk(s.(used := s.used - 1, objects := [o] + s.objects))
  {
    hide IsSlot, Capacity;
    DistinctPrepend(o, s.objects);
  }

  lemma GivenHeld(frames: Frames, f: Frame, o: nat)
    requires f in frames && frames[f].Slab? && frames[f].used > 0
    ensures var s := frames[f];
            var after := frames[f := s.(used := s.used - 1, objects := [o] + s.objects)];
            forall g, q: nat :: Held(after, g, q) <==> Held(frames, g, q) && !(g == f && q == o)
  {
    hide IsSlot;
  }

  // ----- the allocator itself

  /** The slots below `offset` are all on the list being built. */
  ghost predicate Carved(c: nat, offset: nat, objects: seq<nat>) {
    && offset % ClassSize(c) == 0 && FirstOffset(c) <= offset
    && Distinct(objects) && |objects| + Room(c, offset) == Capacity(c)
    && forall o :: o in objects ==> IsSlot(c, o) && o < offset
  }

  lemma CarveOne(c: nat, offset: nat, objects: seq<nat>)
    requires Carved(c, offset, objects) && offset + ClassSize(c) <= PAGE_SIZE
    ensures Carved(c, offset + ClassSize(c), [offset] + objects)
  {
    NextSlot(c, offset);
    DistinctPrepend(offset, objects);
  }

  /** Cuts a page of class `c` into all the objects it has room for, last one first. */
  method Carve(c: nat) returns (objects: seq<nat>)
    requires c < CLASS_COUNT
    ensures SlabOk(Slab(c, 0, objects)) && objects != []
  {
    var size := ClassSize(c);
    var offset := FirstOffset(c);
    objects := [];
    FirstOffsetAligned(c);
    while offset + size <= PAGE_SIZE
      invariant offset == FirstOffset(c) || objects != []
      invariant Carved(c, offset, objects)
      decreases PAGE_SIZE - offset
    {
      CarveOne(c, offset, objects);
      objects := [offset] + objects;
      offset := offset + size;
    }
  }

  /** Carves a fresh page into objects and appends it to its class list. */
  method NewSlab(m: Memory, c: nat) returns (f: Frame)
    requires c < CLASS_COUNT && |m.classes| == CLASS_COUNT && FreeOk(m.frames, m.free)
    modifies m
    ensures FreeOk(m.frames, m.free)
    ensures f == 0 <==> old(m.free) == []
    ensures f == 0 ==> m.free == old(m.free) && m.frames == old(m.frames) && m.classes == old(m.classes)
    ensures f != 0 ==>
              && old(m.free) == [f] + m.free && f !in m.free
              && m.classes == old(m.classes)[c := old(m.classes)[c] + [f]]
              && SlabOf(m.frames, f, c) && m.frames[f].used == 0 && m.frames[f].objects != []
              && m.frames == old(m.frames)[f := m.frames[f]]
  {
    f := PageAlloc.Alloc(m);
    if f == 0 {
      return;
    }
    var objects := Carve(c);
    m.frames := m.frames[f := Slab(c, 0, objects)];
    m.classes := m.classes[c := m.classes[c] + [f]];
  }

  /** `c` is the class that serves requests of `size` bytes. */
  ghost predicate Serves(c: nat, size: nat) {
    c < CLASS_COUNT && size <= ClassSize(c) && forall d :: 0 <= d < c ==> ClassSize(d) < size
  }

  /** Some slab of class `c` still has an object to give. */
  ghost predicate Stocked(frames: Frames, classes: seq<seq<Frame>>, c: nat) {
    c < |classes| && exists f :: f in classes[c] && f in frames && frames[f].Slab? && frames[f].objects != []
  }

  /** A request that cannot be met: it is too large, or neither a slab of its class nor
      the free list has anything left. */
  ghost predicate Starved(frames: Frames, free: seq<Frame>, classes: seq<seq<Frame>>, size: nat) {
    size > ClassSize(CLASS_COUNT - 1) || (free == [] && forall c :: Serves(c, size) ==> !Stocked(frames, classes, c))
  }

  /** The smallest class whose objects are large enough, or CLASS_COUNT. */
  method ClassFor(size: nat) returns (c: nat)
    ensures c <= CLASS_COUNT
    ensures c == CLASS_COUNT <==> size > ClassSize(CLASS_COUNT - 1)
    ensures c < CLASS_COUNT ==> Serves(c, size)
  {
    c := 0;
    while c < CLASS_COUNT && size > ClassSize(c)
      invariant c <= CLASS_COUNT && forall d :: 0 <= d < c ==> ClassSize(d) < size
    {
      c := c + 1;
    }
  }

  /** Allocates an object of the smallest class that fits, from the first slab
      with room or from a fresh page.  Failure leaves the whole memory alone. */
  method Kmalloc(m: Memory, requested: nat) returns (p: Ptr)
    requires FreeOk(m.frames, m.free) && HeapOk(m.frames, m.classes)
    requires Elements(m.free) !! Slabs(m.classes)
    modifies m
    ensures FreeOk(m.frames, m.free) && HeapOk(m.frames, m.classes)
    ensures Elements(m.free) !! Slabs(m.classes)
    ensures Elements(m.free) + Slabs(m.classes) == Elements(old(m.free)) + Slabs(old(m.classes))
    ensures OnlyWithin(old(m.frames), m.frames, Elements(old(m.free)) + Slabs(old(m.classes)))
    ensures p == Null ==> m.free == old(m.free) && m.frames == old(m.frames) && m.classes == old(m.classes)
    ensures p == Null <==> Starved(old(m.frames), old(m.free), old(m.classes), requested)
    ensures m.free != old(m.free) ==>
              && old(m.free) == [p.frame] + m.free
              && forall c :: Serves(c, requested) ==> !Stocked(old(m.frames), old(m.classes), c)
    ensures |m.free| + 1 >= |old(m.free)|
    ensures p != Null ==>
              && p !in Live(old(m.frames), old(m.classes))
              && Live(m.frames, m.classes) == Live(old(m.frames), old(m.classes)) + {p}
              && Serves(m.frames[p.frame].cls, requested)
    ensures p == Null ==> requested > 2048 || old(m.free) == []
    ensures p != Null ==>
              && requested <= 2048 && requested <= ClassSize(m.frames[p.frame].cls)
              && (requested > 16 ==> ClassSize(m.frames[p.frame].cls) < 2 * requested)
              && (requested <= 16 ==> ClassSize(m.frames[p.frame].cls) == 16)
  {
    hide HeapOk, Live, Slabs, CanTake, SlabOf, FreeOk, Stocked, Serves;
    HeapShape(m.frames, m.classes);
    var c := ClassFor(if requested == 0 then 1 else requested);
    if c == CLASS_COUNT {
      return Null;
    }
    OneServes(c, if requested == 0 then 1 else requested, requested);
    var f := FindSlab(m, c);
    if f == 0 {
      f := NewSlab(m, c);
      if f == 0 {
        return Null;
      }
      Popped(old(m.frames), old(m.free), f, m.free);
      assert f in old(m.free);
      FreshSlabCanTake(old(m.frames), old(m.classes), m.frames, m.classes, f, c);
    }
    TakeObject(m.frames, m.classes, f, c);
    TakeShape(m.frames, m.classes, f, c);
    ghost var frames := m.frames;
    var s := m.frames[f];
    p := Object(f, s.objects[0]);
    m.frames := m.frames[f := s.(used := s.used + 1, objects := s.objects[1..])];
    FreeSameKeys(frames, m.frames, m.free);
  }

  /** One class serves a request, and a request of nothing counts as one byte. */
  lemma OneServes(c: nat, size: nat, requested: nat)
    requires c < CLASS_COUNT && Serves(c, size) && size == (if requested == 0 then 1 else requested)
    ensures forall d :: Serves(d, requested) <==> d == c
    ensures requested <= 2048 && requested <= ClassSize(c)
    ensures requested > 16 ==> ClassSize(c) < 2 * requested
    ensures requested <= 16 ==> ClassSize(c) == 16
  {
    if c > 0 {
      ClassSizes(c - 1);
      assert ClassSize(c - 1) < size;
    }
  }

  lemma HeapShape(frames: Frames, classes: seq<seq<Frame>>)
    requires HeapOk(frames, classes)
    ensures |classes| == CLASS_COUNT
  {
  }

  lemma TakeShape(frames: Frames, classes: seq<seq<Frame>>, f: Frame, c: nat)
    requires CanTake(frames, classes, f, c)
    ensures f in frames && frames[f].Slab? && frames[f].cls == c && frames[f].objects != [] && f in Slabs(classes)
  {
    assert f in classes[c];
  }

  lemma FreeSameKeys(a: Frames, b: Frames, free: seq<Frame>)
    requires FreeOk(a, free) && a.Keys == b.Keys
    ensures FreeOk(b, free)
  {
  }

  /** The first slab of a class with a free object, or 0. */
  method FindSlab(m: Memory, c: nat) returns (f: Frame)
    requires c < CLASS_COUNT && HeapOk(m.frames, m.classes)
    ensures f != 0 <==> Stocked(m.frames, m.classes, c)
    ensures f != 0 ==> CanTake(m.frames, m.classes, f, c)
  {
    var i := 0;
    while i < |m.classes[c]|
      invariant 0 <= i <= |m.classes[c]|
      invariant forall g :: g in m.classes[c][..i] ==> ListedSlab(m.frames, g, c) && m.frames[g].objects == []
    {
      f := m.classes[c][i];
      assert ListedSlab(m.frames, f, c);
      if m.frames[f].objects != [] {
        forall d | 0 <= d < CLASS_COUNT && f in m.classes[d]
          ensures d == c
        {
          assert ListedSlab(m.frames, f, d);
        }
        return;
      }
      i := i + 1;
    }
    f := 0;
  }

  /** A freshly carved slab can hand out an object and holds none yet. */
  lemma FreshSlabCanTake(before: Frames, listed: seq<seq<Frame>>, frames: Frames, classes: seq<seq<Frame>>, f: Frame,
                         c: nat)
    requires HeapOk(before, listed) && c < CLASS_COUNT && f !in Slabs(listed)
    requires classes == listed[c := listed[c] + [f]] && frames.Keys >= {f} && frames == before[f := frames[f]]
    requires SlabOf(frames, f, c) && frames[f].used == 0 && frames[f].objects != []
    ensures CanTake(frames, classes, f, c)
    ensures Live(frames, classes) == Live(before, listed)
    ensures Slabs(classes) == Slabs(listed) + {f}
  {
    forall d | 0 <= d < CLASS_COUNT
      ensures f !in listed[d]
      ensures forall g :: g in classes[d] <==> g in listed[d] || (d == c && g == f)
      ensures forall g :: g in listed[d] ==> ListedSlab(before, g, d)
    {
    }
    assert Slabs(classes) == Slabs(listed) + {f} by {
      assert f in classes[c];
      forall g | g in Slabs(listed) ensures g in Slabs(classes) {
        var d :| 0 <= d < |listed| && g in listed[d];
        assert g in classes[d];
      }
    }
    forall o: nat ensures !Held(frames, f, o) {
      if IsSlot(c, o) { UnusedSlabHoldsNothing(frames[f], o); }
    }
    forall g, o: nat | g in Slabs(listed) ensures Held(frames, g, o) <==> Held(before, g, o) {
    }
  }

  function Without(s: seq<Frame>, x: Frame): (r: seq<Frame>)
    ensures forall y :: y in r <==> y in s && y != x
    ensures x !in s ==> r == s
    ensures Distinct(s) ==> Distinct(r)
  {
    if s == [] then []
    else
      var rest := Without(s[1..], x);
      assert s == [s[0]] + s[1..];
      assert Distinct(s) ==> s[0] !in s[1..];
      if s[0] == x then rest else [s[0]] + rest
  }

  /** Returns an object; the last object of a slab returns the slab's page too. */
  method Kfree(m: Memory, p: Ptr)
    requires FreeOk(m.frames, m.free) && HeapOk(m.frames, m.classes)
    requires Elements(m.free) !! Slabs(m.classes)
    requires p != Null ==> p in Live(m.frames, m.classes)
    modifies m
    ensures FreeOk(m.frames, m.free) && HeapOk(m.frames, m.classes)
    ensures Elements(m.free) !! Slabs(m.classes)
    ensures Elements(m.free) + Slabs(m.classes) == Elements(old(m.free)) + Slabs(old(m.classes))
    ensures OnlyWithin(old(m.frames), m.frames, Slabs(old(m.classes)))
    ensures Live(m.frames, m.classes) == Live(old(m.frames), old(m.classes)) - {p}
  {
    if p == Null {
      return;
    }
    var f := p.frame;
    var s := m.frames[f];
    GiveObject(m.frames, m.classes, f, p.offset);
    m.frames := m.frames[f := s.(used := s.used - 1, objects := [p.offset] + s.objects)];
    if s.used == 1 {
      DropSlab(old(m.frames), m.frames, m.classes, f, s.cls);
      m.classes := m.classes[s.cls := Without(m.classes[s.cls], f)];
      PageAlloc.Free(m, f);
    } else {
      KeepSlab(old(m.frames), m.frames, m.classes, f);
    }
  }

  lemma KeepSlab(before: Frames, frames: Frames, classes: seq<seq<Frame>>, f: Frame)
    requires HeapOk(before, classes) && f in Slabs(classes)
    requires f in before && f in frames && frames == before[f := frames[f]]
    requires before[f].Slab? && SlabOk(frames[f]) && frames[f].cls == before[f].cls && frames[f].used >= 1
    ensures HeapOk(frames, classes)
  {
    forall c, g | 0 <= c < CLASS_COUNT && g in classes[c]
      ensures ListedSlab(frames, g, c)
    {
      assert ListedSlab(before, g, c);
    }
  }

  /** Unlisting an unused slab and scrapping its page loses no live object. */
  lemma DropSlab(before: Frames, frames: Frames, classes: seq<seq<Frame>>, f: Frame, c: nat)
    requires HeapOk(before, classes) && c < CLASS_COUNT && f in Slabs(classes)
    requires f in before && f in frames && frames == before[f := frames[f]]
    requires before[f].Slab? && before[f].cls == c && SlabOk(frames[f]) && frames[f].cls == c && frames[f].used == 0
    ensures var kept := classes[c := Without(classes[c], f)];
            && HeapOk(frames[f := Raw], kept)
            && Slabs(kept) == Slabs(classes) - {f} && f != 0
            && Live(frames[f := Raw], kept) == Live(frames, classes)
  {
    var kept := classes[c := Without(classes[c], f)];
    var after := frames[f := Raw];
    forall d, g | 0 <= d < CLASS_COUNT && g in classes[d]
      ensures ListedSlab(before, g, d) && (g == f ==> d == c) && (g != f ==> g in kept[d])
    {
    }
    forall d, g | 0 <= d < CLASS_COUNT && g in kept[d]
      ensures g in classes[d] && g != f && ListedSlab(after, g, d)
    {
      assert ListedSlab(before, g, d);
    }
    assert Slabs(kept) == Slabs(classes) - {f};
    forall o: nat ensures !Held(frames, f, o) {
      if IsSlot(c, o) { UnusedSlabHoldsNothing(frames[f], o); }
    }
    forall g, o: nat | g != f ensures Held(after, g, o) <==> Held(frames, g, o) {
    }
  }
}
