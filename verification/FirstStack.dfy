/** The first stack of a program: strings, then the words that point to them,
    decoded the way the start-up code does. */
module FirstStack {
  import opened Common
  import opened Physical
  import opened PageTable
  import opened Vm
  import opened Heap
  import opened Space
  import opened SpaceOps
  import opened Neutral
  import opened Areas
  import opened AddressSpaces
  import opened Lifecycle
  import opened UserView
  import opened UserCopy
  import opened Exec
  import opened Loader

  const MAX_STRINGS: nat := 8
  const STRING_SIZE: nat := 64

  // ----- words in memory, least significant byte first

  function Le(v: nat, n: nat): (s: seq<Byte>)
    ensures |s| == n
  {
    if n == 0 then [] else [v % 256] + Le(v / 256, n - 1)
  }

  function Value(s: seq<Byte>): nat {
    if s == [] then 0 else s[0] + 256 * Value(s[1..])
  }

  function Power256(n: nat): (p: nat)
    ensures p > 0
  {
    if n == 0 then 1 else 256 * Power256(n - 1)
  }

  lemma {:induction false} WordRoundTrip(v: nat, n: nat)
    requires v < Power256(n)
    ensures Value(Le(v, n)) == v
  {
    if n > 0 {
      WordRoundTrip(v / 256, n - 1);
      assert Le(v, n)[1..] == Le(v / 256, n - 1);
    }
  }

  /** Byte `i` of a word is its digit of weight 256 to the `i`. */
  lemma {:induction false} LeByte(v: nat, n: nat, i: nat)
    requires i < n
    ensures Le(v, n)[i] == v / Power256(i) % 256
  {
    if i > 0 {
      LeByte(v / 256, n - 1, i - 1);
      DivideTwice(v, 256, Power256(i - 1));
    }
  }

  lemma Power8()
    ensures Power256(8) == UINT64_MAX + 1
  {
    assert Power256(2) == 0x1_0000;
    assert Power256(4) == 0x1_0000_0000;
    assert Power256(6) == 0x1_0000_0000_0000;
  }

  function WordBytes(words: seq<nat>): (s: seq<Byte>)
    ensures |s| == 8 * |words|
  {
    if words == [] then [] else Le(words[0], 8) + WordBytes(words[1..])
  }

  lemma {:induction false} WordBytesAt(words: seq<nat>, k: nat)
    requires k < |words|
    ensures WordBytes(words)[8 * k..8 * k + 8] == Le(words[k], 8)
  {
    if k > 0 {
      WordBytesAt(words[1..], k - 1);
      assert WordBytes(words)[8 * k..8 * k + 8] == WordBytes(words[1..])[8 * (k - 1)..8 * (k - 1) + 8];
    }
  }

  ghost function WordAt(b: Mem, s: View, a: nat): nat {
    Value(UserBytes(b, s, a, 8))
  }

  // ----- what the program finds

  /** A zero-terminated string stands at the address. */
  ghost predicate StringAt(b: Mem, s: View, a: nat, str: seq<Byte>) {
    a + |str| + 1 <= STACK_TOP && UserBytes(b, s, a, |str| + 1) == str + [0]
  }

  /** The words at `at` point to the strings, and a zero word follows them. */
  ghost predicate VectorAt(b: Mem, s: View, at: nat, strings: seq<seq<Byte>>) {
    && (forall i :: 0 <= i < |strings| ==> StringAt(b, s, WordAt(b, s, at + 8 * i), strings[i]))
    && WordAt(b, s, at + 8 * |strings|) == 0
  }

  /** The start-up code takes the count from the stack pointer, the arguments from
      the word after it, and the environment from behind their zero word. */
  ghost predicate StackImage(b: Mem, s: View, sp: nat, args: seq<seq<Byte>>, envs: seq<seq<Byte>>) {
    && sp % 16 == 0 && WordAt(b, s, sp) == |args|
    && var argv := sp + 8;
    && var envp := argv + 8 * WordAt(b, s, sp) + 8;
    && VectorAt(b, s, argv, args) && VectorAt(b, s, envp, envs)
  }

  // ----- what writing leaves alone

  /** Outside [lo, hi) every user byte is the same. */
  ghost predicate SameOutside(a: Mem, s: View, b: Mem, t: View, lo: nat, hi: nat) {
    forall x: nat :: x < USER_END && !(lo <= x < hi) ==> ByteAt(b, t, x) == ByteAt(a, s, x)
  }

  lemma LaidSame(a: Mem, s: View, b: Mem, t: View, address: nat, data: seq<Byte>, lo: nat, hi: nat)
    requires Laid(a, s, b, t, address, data) && (data == [] || (lo <= address && address + |data| <= hi))
    ensures SameOutside(a, s, b, t, lo, hi)
  {
    hide ByteAt;
  }

  lemma SameTwice(a: Mem, s: View, b: Mem, t: View, c: Mem, u: View, lo: nat, hi: nat)
    requires SameOutside(a, s, b, t, lo, hi) && SameOutside(b, t, c, u, lo, hi)
    ensures SameOutside(a, s, c, u, lo, hi)
  {
    hide ByteAt;
  }

  lemma SameWider(a: Mem, s: View, b: Mem, t: View, lo: nat, hi: nat, lo': nat, hi': nat)
    requires SameOutside(a, s, b, t, lo, hi) && lo' <= lo && hi <= hi'
    ensures SameOutside(a, s, b, t, lo', hi')
  {
    hide ByteAt;
  }

  lemma SameString(a: Mem, s: View, b: Mem, t: View, lo: nat, hi: nat, at: nat, str: seq<Byte>)
    requires SameOutside(a, s, b, t, lo, hi) && hi <= at && StringAt(a, s, at, str)
    ensures StringAt(b, t, at, str)
  {
    hide ByteAt;
    assert UserBytes(b, t, at, |str| + 1) == UserBytes(a, s, at, |str| + 1);
  }

  lemma LaidReads(a: Mem, s: View, b: Mem, t: View, address: nat, data: seq<Byte>, i: nat, n: nat)
    requires Laid(a, s, b, t, address, data) && i + n <= |data| && address + |data| <= USER_END
    ensures UserBytes(b, t, address + i, n) == data[i..i + n]
  {
    hide ByteAt;
  }

  // ----- pushing

  const STACK_FLAGS: Flags := Flags(true, true, false, true, false, false)
  const STACK_LOW: nat := STACK_TOP - STACK_PAGES * PAGE_SIZE

  ghost predicate StackMapped(s: View) {
    AllPages(s.pages, STACK_LOW, STACK_TOP, STACK_FLAGS)
  }

  lemma StackAccessible(b: Mem, s: View, at: nat, n: nat)
    requires Core(b, s, {}, {}) && StackMapped(s) && STACK_LOW <= at && at + n <= STACK_TOP
    ensures RangeAccessible(b, s, at, n, true)
  {
    hide Core, LeafAt;
    forall x: nat | at <= x < at + n ensures Accessible(b, s, x, true) {
      assert STACK_LOW <= x - x % PAGE_SIZE;
      PageTranslates(b, s, x, STACK_FLAGS);
    }
  }

  /** Copies bytes to the stack; every page of it is there, so this cannot fail. */
  method Push(m: Memory, sp: AddressSpace, at: nat, bytes: seq<Byte>, ghost a: Mem) returns (ok: bool)
    requires Image(a, MemOf(m), sp.V()) && StackMapped(sp.V()) && STACK_LOW <= at && at + |bytes| <= STACK_TOP
    modifies m`frames
    ensures ok && Image(a, MemOf(m), sp.V()) && Laid(old(MemOf(m)), sp.V(), MemOf(m), sp.V(), at, bytes)
  {
    hide Image, Laid, Core, Conserves, Overlaid, RangeAccessible, StackMapped, NoEmptyTable;
    ghost var b, s := MemOf(m), sp.V();
    ImageParts(a, b, s);
    StackAccessible(b, s, at, |bytes|);
    ghost var done;
    ok, done := CopyTo(m, sp, at, bytes);
    assert bytes[..|bytes|] == bytes;
    OverlaidLaid(b, MemOf(m), s, at, bytes);
    WriteStep(a, b, s, MemOf(m));
  }

  predicate Short(strings: seq<seq<Byte>>) {
    |strings| <= MAX_STRINGS && forall k :: 0 <= k < |strings| ==> |strings[k]| < STRING_SIZE && NoZero(strings[k])
  }

  /** Strings from number `i` on stand where the pointers say, at or above the cursor. */
  ghost predicate Pushed(b: Mem, s: View, pointers: seq<nat>, strings: seq<seq<Byte>>, i: nat, cursor: nat) {
    |pointers| == |strings|
    && forall k :: i <= k < |strings| ==> cursor <= pointers[k] < STACK_TOP && StringAt(b, s, pointers[k], strings[k])
  }

  lemma StillPushed(a: Mem, s: View, b: Mem, t: View, lo: nat, hi: nat, pointers: seq<nat>, strings: seq<seq<Byte>>,
                    i: nat, cursor: nat)
    requires Pushed(a, s, pointers, strings, i, cursor) && SameOutside(a, s, b, t, lo, hi) && hi <= cursor
    ensures Pushed(b, t, pointers, strings, i, cursor)
  {
    hide StringAt, SameOutside;
    forall k | i <= k < |strings| ensures StringAt(b, t, pointers[k], strings[k]) {
      SameString(a, s, b, t, lo, hi, pointers[k], strings[k]);
    }
  }

  /** Pushes strings, the last one first. */
  method PushStrings(m: Memory, sp: AddressSpace, strings: seq<seq<Byte>>, top: nat, ghost a: Mem)
    returns (ok: bool, pointers: seq<nat>, cursor: nat)
    requires Image(a, MemOf(m), sp.V()) && StackMapped(sp.V()) && Short(strings)
    requires STACK_LOW + STRING_SIZE * MAX_STRINGS <= top <= STACK_TOP
    modifies m`frames
    ensures ok && Image(a, MemOf(m), sp.V()) && top - STRING_SIZE * MAX_STRINGS <= cursor <= top
    ensures SameOutside(old(MemOf(m)), sp.V(), MemOf(m), sp.V(), cursor, top)
    ensures Pushed(MemOf(m), sp.V(), pointers, strings, 0, cursor)
  {
    hide Image, Laid, SameOutside, StackMapped, Pushed;
    ghost var b0, s := MemOf(m), sp.V();
    cursor := top;
    pointers := seq(|strings|, _ => 0);
    var i := |strings|;
    NonePushed(b0, s, pointers, strings, cursor);
    LaidNothing(b0, s, cursor);
    LaidSame(b0, s, b0, s, cursor, [], cursor, top);
    while i > 0
      invariant 0 <= i <= |strings| == |pointers| && sp.V() == s && Image(a, MemOf(m), s)
      invariant top - STRING_SIZE * (|strings| - i) <= cursor <= top
      invariant SameOutside(b0, s, MemOf(m), s, cursor, top) && Pushed(MemOf(m), s, pointers, strings, i, cursor)
    {
      ghost var b := MemOf(m);
      var bytes := strings[i - 1] + [0];
      var length := |strings[i - 1]| + 1;
      ghost var was := cursor;
      cursor := cursor - length;
      ok := Push(m, sp, cursor, bytes, a);
      LaidSame(b, s, MemOf(m), s, cursor, bytes, cursor, was);
      StillPushed(b, s, MemOf(m), s, cursor, was, pointers, strings, i, was);
      PushedOne(b, s, MemOf(m), pointers, strings, i, cursor, was);
      SameWider(b, s, MemOf(m), s, cursor, was, cursor, top);
      SameWider(b0, s, b, s, was, top, cursor, top);
      SameTwice(b0, s, b, s, MemOf(m), s, cursor, top);
      pointers := pointers[i - 1 := cursor];
      i := i - 1;
    }
    ok := true;
  }

  lemma NonePushed(b: Mem, s: View, pointers: seq<nat>, strings: seq<seq<Byte>>, cursor: nat)
    requires |pointers| == |strings|
    ensures Pushed(b, s, pointers, strings, |strings|, cursor)
  {
  }

  lemma PushedOne(a: Mem, s: View, b: Mem, pointers: seq<nat>, strings: seq<seq<Byte>>, i: nat, cursor: nat, was: nat)
    requires 0 < i <= |strings| && Pushed(b, s, pointers, strings, i, was) && was <= STACK_TOP
    requires cursor + |strings[i - 1]| + 1 == was && Laid(a, s, b, s, cursor, strings[i - 1] + [0])
    ensures Pushed(b, s, pointers[i - 1 := cursor], strings, i - 1, cursor)
  {
    hide ByteAt;
    var bytes := strings[i - 1] + [0];
    LaidReads(a, s, b, s, cursor, bytes, 0, |bytes|);
    assert bytes[0..|bytes|] == bytes;
    assert StringAt(b, s, cursor, strings[i - 1]);
  }

  // ----- the words

  function Words(args: seq<nat>, envs: seq<nat>): seq<nat> {
    [|args|] + args + [0] + envs + [0]
  }

  lemma WordsAt(args: seq<nat>, envs: seq<nat>)
    ensures var w := Words(args, envs);
            && |w| == |args| + |envs| + 3 && w[0] == |args| && (forall i :: 0 <= i < |args| ==> w[1 + i] == args[i])
            && w[1 + |args|] == 0
            && (forall j :: 0 <= j < |envs| ==> w[2 + |args| + j] == envs[j]) && w[2 + |args| + |envs|] == 0
  {
  }

  /** A word of the block reads back. */
  lemma {:induction false} WordReads(a: Mem, s: View, b: Mem, sp: nat, words: seq<nat>, k: nat)
    requires Laid(a, s, b, s, sp, WordBytes(words)) && k < |words| && words[k] <= UINT64_MAX
             && sp + 8 * |words| <= USER_END
    ensures WordAt(b, s, sp + 8 * k) == words[k]
  {
    hide Laid, WordBytes, UserBytes, Value, Le, Power256;
    var data, v := WordBytes(words), words[k];
    LaidReads(a, s, b, s, sp, data, 8 * k, 8);
    WordBytesAt(words, k);
    assert UserBytes(b, s, sp + 8 * k, 8) == Le(v, 8);
    assert v < Power256(8) by { Power8(); }
    WordRoundTrip(v, 8);
  }

  lemma {:induction false} VectorReads(a: Mem, s: View, b: Mem, sp: nat, words: seq<nat>, from: nat, pointers: seq<nat>,
                                       strings: seq<seq<Byte>>, cursor: nat)
    requires Laid(a, s, b, s, sp, WordBytes(words)) && sp + 8 * |words| <= STACK_TOP && from + |strings| < |words|
    requires Pushed(b, s, pointers, strings, 0, cursor)
    requires (forall i :: 0 <= i < |strings| ==> words[from + i] == pointers[i]) && words[from + |strings|] == 0
    ensures VectorAt(b, s, sp + 8 * from, strings)
  {
    hide Laid, WordBytes, WordAt, StringAt, UserBytes;
    forall i | 0 <= i < |strings| ensures StringAt(b, s, WordAt(b, s, sp + 8 * from + 8 * i), strings[i]) {
      assert words[from + i] == pointers[i];
      WordReads(a, s, b, sp, words, from + i);
      assert sp + 8 * from + 8 * i == sp + 8 * (from + i);
    }
    WordReads(a, s, b, sp, words, from + |strings|);
    assert sp + 8 * from + 8 * |strings| == sp + 8 * (from + |strings|);
  }

  lemma {:induction false} ImageOfWords(a: Mem, s: View, b: Mem, sp: nat, args: seq<nat>, envs: seq<nat>,
                                        argv: seq<seq<Byte>>, envp: seq<seq<Byte>>, low: nat)
    requires Laid(a, s, b, s, sp, WordBytes(Words(args, envs))) && sp + 8 * |Words(args, envs)| <= STACK_TOP
             && sp % 16 == 0
    requires Pushed(b, s, args, argv, 0, low) && Pushed(b, s, envs, envp, 0, low) && |argv| <= MAX_STRINGS
    ensures StackImage(b, s, sp, argv, envp)
  {
    hide Laid, WordBytes, WordAt, VectorAt, Words;
    var w := Words(args, envs);
    WordsAt(args, envs);
    WordReads(a, s, b, sp, w, 0);
    Lengths(b, s, args, argv, low);
    Lengths(b, s, envs, envp, low);
    VectorReads(a, s, b, sp, w, 1, args, argv, low);
    VectorReads(a, s, b, sp, w, 2 + |args|, envs, envp, low);
    assert sp + 8 * 0 == sp && sp + 8 * (2 + |args|) == sp + 8 + 8 * |args| + 8;
  }

  lemma Lengths(b: Mem, s: View, pointers: seq<nat>, strings: seq<seq<Byte>>, low: nat)
    requires Pushed(b, s, pointers, strings, 0, low)
    ensures |pointers| == |strings|
  {
  }

  /** Rounding down to a multiple of 16. */
  function Down16(n: nat): (r: nat)
    ensures r % 16 == 0 && r <= n < r + 16
  {
    n - n % 16
  }

  /** Reserves the stack with a guard page below it, and fills it. Within the limits
      on strings the space check cannot fail: seventeen free pages and a vacant
      range are enough. */
  method BuildStack(m: Memory, sp: AddressSpace, args: seq<seq<Byte>>, envs: seq<seq<Byte>>, ghost a: Mem)
    returns (ok: bool, stackPointer: nat)
    requires Image(a, MemOf(m), sp.V()) && Short(args) && Short(envs)
    modifies sp`areas, sp`pages, sp`shape, m
    ensures Image(a, MemOf(m), sp.V())
    ensures ok ==> StackImage(MemOf(m), sp.V(), stackPointer, args, envs) && STACK_LOW <= stackPointer
    ensures ok ==> SameOutside(old(MemOf(m)), old(sp.V()), MemOf(m), sp.V(), STACK_LOW, STACK_TOP)
    ensures ok ==> forall x: Area :: x in old(sp.areas) ==> x in sp.areas && Apart(x, IMAGE_END, STACK_TOP)
    ensures |old(m.free)| >= 17 && VacantIn(old(sp.areas), IMAGE_END, STACK_TOP) ==> ok
    ensures forall q :: q in old(sp.pages) ==> q in sp.pages
  {
    hide Image, Laid, SameOutside, Pushed, Track, Core, NoEmptyTable, AllPages, Restored, InArea, StackImage, StringAt,
         Words, WordBytes, Short;
    ghost var b0, s0 := MemOf(m), sp.V();
    stackPointer := 0;
    ImageParts(a, b0, s0);
    ok := sp.Reserve(m, STACK_TOP - (STACK_PAGES + 1) * PAGE_SIZE, STACK_TOP, STACK_FLAGS, STACK);
    ghost var b1, s1 := MemOf(m), sp.V();
    ReserveKeeps(a, b0, s0, b1, s1);
    LaidSame(b0, s0, b1, s1, 0, [], STACK_LOW, STACK_TOP);
    if !ok {
      return;
    }
    ok := MapZero(m, sp, STACK_LOW, STACK_TOP, STACK_FLAGS, STACK_PAGES, a);
    ghost var b2, s := MemOf(m), sp.V();
    LaidSame(b1, s1, b2, s, 0, [], STACK_LOW, STACK_TOP);
    SameTwice(b0, s0, b1, s1, b2, s, STACK_LOW, STACK_TOP);
    if !ok {
      return;
    }
    var envp, argv, top, cursor;
    ok, envp, top := PushStrings(m, sp, envs, STACK_TOP, a);
    ghost var b3 := MemOf(m);
    SameWider(b2, s, b3, s, top, STACK_TOP, STACK_LOW, STACK_TOP);
    SameTwice(b0, s0, b2, s, b3, s, STACK_LOW, STACK_TOP);
    ok, argv, cursor := PushStrings(m, sp, args, top, a);
    ghost var b4 := MemOf(m);
    StillPushed(b3, s, b4, s, cursor, top, envp, envs, 0, top);
    SameWider(b3, s, b4, s, cursor, top, STACK_LOW, STACK_TOP);
    SameTwice(b0, s0, b3, s, b4, s, STACK_LOW, STACK_TOP);
    var words := Words(argv, envp);
    WordsAt(argv, envp);
    Lengths(b4, s, argv, args, cursor);
    Lengths(b4, s, envp, envs, top);
    Few(args);
    Few(envs);
    stackPointer := Down16(cursor - 8 * |words|);
    // The space check: eight strings of 64 bytes twice and nineteen words always fit.
    assert stackPointer >= STACK_LOW;
    ok := Push(m, sp, stackPointer, WordBytes(words), a);
    ghost var b5 := MemOf(m);
    ghost var high := stackPointer + 8 * |words|;
    LaidSame(b4, s, b5, s, stackPointer, WordBytes(words), stackPointer, high);
    StillPushed(b4, s, b5, s, stackPointer, high, argv, args, 0, cursor);
    StillPushed(b4, s, b5, s, stackPointer, high, envp, envs, 0, top);
    PushedLower(b5, s, envp, envs, top, cursor);
    ImageOfWords(b4, s, b5, stackPointer, argv, envp, args, envs, cursor);
    SameWider(b4, s, b5, s, stackPointer, high, STACK_LOW, STACK_TOP);
    SameTwice(b0, s0, b4, s, b5, s, STACK_LOW, STACK_TOP);
  }

  lemma Few(strings: seq<seq<Byte>>)
    ensures Short(strings) ==> |strings| <= MAX_STRINGS
  {
  }

  lemma PushedLower(b: Mem, s: View, pointers: seq<nat>, strings: seq<seq<Byte>>, cursor: nat, lower: nat)
    requires Pushed(b, s, pointers, strings, 0, cursor) && lower <= cursor
    ensures Pushed(b, s, pointers, strings, 0, lower)
  {
    hide StringAt;
  }
}
