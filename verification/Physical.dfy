/** Physical memory as the kernel sees it: page frames with a current use, the
    free list threaded through unused frames, and the slab lists of the heap. */
module Physical {
  import opened Common

  /** A physical page number; frame 0 is the null page and is never RAM. */
  type Frame = nat

  type Byte = b: int | 0 <= b < 256

  const PAGE_SIZE := 4096

  /** A page-table entry, bit field by bit field (Sv39). */
  datatype Pte = Pte(v: bool, r: bool, w: bool, x: bool, u: bool, g: bool, a: bool, d: bool, ppn: Frame)

  /** What a frame is being used for.  `Raw` is a frame whose bytes nobody may rely on. */
  datatype Content =
    | Raw
    | Data(bytes: seq<Byte>)
    | Table(entries: seq<Pte>)
    | Slab(cls: nat, used: nat, objects: seq<nat>)

  type Frames = map<Frame, Content>

  /** The three pieces of global allocator state. */
  class Memory {
    var frames: Frames
    var free: seq<Frame>
    var classes: seq<seq<Frame>>
  }

  /** What a C string can hold. */
  predicate NoZero(s: seq<Byte>) {
    forall i :: 0 <= i < |s| ==> s[i] != 0
  }

  function Elements<T>(s: seq<T>): set<T> {
    set x | x in s
  }

  /** Frames on the free list exist, are not null and occur once. */
  ghost predicate FreeOk(frames: Frames, free: seq<Frame>) {
    && Distinct(free)
    && 0 !in free
    && forall f :: f in free ==> f in frames
  }

  /** Two memories hold the same thing in every frame of `region`. */
  ghost predicate Agree(a: Frames, b: Frames, region: set<Frame>) {
    forall f :: f in region ==> f in a && f in b && a[f] == b[f]
  }

  /** Everything outside `region` is untouched, and no frame appears or disappears. */
  ghost predicate OnlyWithin(a: Frames, b: Frames, region: set<Frame>) {
    && a.Keys == b.Keys
    && forall f :: f in a && f !in region ==> a[f] == b[f]
  }

  lemma {:induction false} DistinctCount<T>(s: seq<T>)
    requires Distinct(s)
    ensures |Elements(s)| == |s|
  {
    if s != [] {
      var n := |s| - 1;
      DistinctCount(s[..n]);
      assert Elements(s) == Elements(s[..n]) + {s[n]};
      assert s[n] !in Elements(s[..n]);
    }
  }

  /** A repetition-free list is as long as any other repetition-free list of the same elements. */
  lemma SameElementsSameCount<T>(s: seq<T>, t: seq<T>)
    requires Distinct(s) && Distinct(t) && Elements(s) == Elements(t)
    ensures |s| == |t|
  {
    DistinctCount(s);
    DistinctCount(t);
  }

  /** A repetition-free list that is shorter than a set containing it misses an element of the set. */
  lemma MissingElement<T>(s: seq<T>, all: set<T>) returns (x: T)
    requires Distinct(s) && Elements(s) <= all && |s| < |all|
    ensures x in all && x !in s
  {
    DistinctCount(s);
    assert all == (all - Elements(s)) + Elements(s);
    x :| x in all - Elements(s);
  }

  /** A repetition-free list as long as a set containing it lists the whole set. */
  lemma FullList<T>(s: seq<T>, all: set<T>)
    requires Distinct(s) && Elements(s) <= all && |s| == |all|
    ensures Elements(s) == all
  {
    DistinctCount(s);
    assert all == (all - Elements(s)) + Elements(s);
  }

  lemma DistinctPrepend<T>(x: T, s: seq<T>)
    requires Distinct(s) && x !in s
    ensures Distinct([x] + s) && Elements([x] + s) == Elements(s) + {x}
  {
    var t := [x] + s;
    forall i, j | 0 <= i < j < |t|
      ensures t[i] != t[j]
    {
      assert t[j] == s[j - 1];
    }
  }

  /** Taking the head off the free list. */
  lemma Popped(frames: Frames, free: seq<Frame>, f: Frame, rest: seq<Frame>)
    requires FreeOk(frames, free) && free == [f] + rest
    ensures FreeOk(frames, rest) && f !in rest && f != 0 && f in frames
    ensures Elements(free) == Elements(rest) + {f}
  {
    assert free[0] == f;
    forall i | 0 <= i < |rest| ensures rest[i] == free[i + 1] {
    }
    assert forall g :: g in free <==> g == f || g in rest;
  }
}
