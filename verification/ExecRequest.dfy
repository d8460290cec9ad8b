/** The strings of an exec call, copied from the old program before it is replaced. */
module ExecRequest {
  import opened Common
  import opened Physical
  import opened PageTable
  import opened Vm
  import opened Heap
  import opened Space
  import opened SpaceOps
  import opened AddressSpaces
  import opened UserView
  import opened UserCopy
  import opened Loader
  import opened FirstStack

  /** A readable string of `n` bytes and a zero stands at the address. */
  ghost predicate EndsAt(b: Mem, s: View, a: nat, n: nat) {
    && a + n + 1 <= USER_END && RangeAccessible(b, s, a, n + 1, false)
    && ByteAt(b, s, a + n) == 0 && forall x: nat :: a <= x < a + n ==> ByteAt(b, s, x) != 0
  }

  /** The user's string at an address. */
  ghost predicate UserString(b: Mem, s: View, a: nat, str: seq<Byte>) {
    EndsAt(b, s, a, |str|) && UserBytes(b, s, a, |str|) == str
  }

  ghost predicate StringThere(b: Mem, s: View, a: nat) {
    a != 0 && exists n: nat :: n < STRING_SIZE && EndsAt(b, s, a, n)
  }

  /** Copies a string byte by byte, up to a limit. It succeeds exactly when a
      readable string that short is there. */
  method CopyString(m: Memory, sp: AddressSpace, source: nat) returns (ok: bool, str: seq<Byte>)
    requires Core(MemOf(m), sp.V(), {}, {})
    ensures ok <==> StringThere(MemOf(m), sp.V(), source)
    ensures ok ==> |str| < STRING_SIZE && NoZero(str) && UserString(MemOf(m), sp.V(), source, str)
  {
    hide Core, ByteAt, RangeAccessible;
    str := [];
    if source == 0 {
      return false, str;
    }
    ghost var b, s := MemOf(m), sp.V();
    while |str| < STRING_SIZE
      invariant |str| <= STRING_SIZE && NoZero(str) && UserBytes(b, s, source, |str|) == str
      invariant |str| > 0 ==> source + |str| <= USER_END && RangeAccessible(b, s, source, |str|, false)
      invariant forall n: nat :: n < |str| ==> !EndsAt(b, s, source, n)
      decreases STRING_SIZE - |str|
    {
      var good, byte := CopyFrom(m, sp, source + |str|, 1);
      OneMore(b, s, source, |str|);
      if !good {
        NoStringHere(b, s, source, |str|);
        return false, str;
      }
      assert byte[0] == ByteAt(b, s, source + |str|);
      assert forall x: nat ::
               source <= x < source + |str| ==> ByteAt(b, s, x) == UserBytes(b, s, source, |str|)[x - source];
      if byte[0] == 0 {
        assert EndsAt(b, s, source, |str|);
        return true, str;
      }
      assert UserBytes(b, s, source, |str| + 1) == str + byte;
      str := str + byte;
    }
    ok := false;
  }

  lemma OneMore(b: Mem, s: View, a: nat, n: nat)
    ensures RangeAccessible(b, s, a, n + 1, false) <==>
              (n == 0 || RangeAccessible(b, s, a, n, false)) && RangeAccessible(b, s, a + n, 1, false)
  {
    hide Accessible;
    if RangeAccessible(b, s, a + n, 1, false) && (n == 0 || RangeAccessible(b, s, a, n, false)) {
      assert Accessible(b, s, a + n, false);
    }
  }

  /** Past an unreadable byte no string ends. */
  lemma NoStringHere(b: Mem, s: View, a: nat, n: nat)
    requires !(a + n + 1 <= USER_END && RangeAccessible(b, s, a + n, 1, false))
    ensures forall k: nat :: n <= k ==> !EndsAt(b, s, a, k)
  {
    hide Accessible, ByteAt;
    forall k: nat | n <= k ensures !EndsAt(b, s, a, k) {
      if RangeAccessible(b, s, a, k + 1, false) {
        assert Accessible(b, s, a + n, false);
      }
    }
  }

  /** The words at an address point to the strings, and a zero word follows. */
  ghost predicate UserVector(b: Mem, s: View, at: nat, strings: seq<seq<Byte>>) {
    && (forall i ::
          0 <= i < |strings| ==>
            WordAt(b, s, at + 8 * i) != 0 && UserString(b, s, WordAt(b, s, at + 8 * i), strings[i]))
    && WordAt(b, s, at + 8 * |strings|) == 0
  }

  ghost predicate WordThere(b: Mem, s: View, at: nat) {
    at + 8 <= USER_END && RangeAccessible(b, s, at, 8, false)
  }

  /** `n` readable pointers to short strings, and a readable zero after them. */
  ghost predicate VectorOf(b: Mem, s: View, at: nat, n: nat) {
    && (forall i :: 0 <= i < n ==> WordThere(b, s, at + 8 * i) && StringThere(b, s, WordAt(b, s, at + 8 * i)))
    && WordThere(b, s, at + 8 * n) && WordAt(b, s, at + 8 * n) == 0
  }

  /** Where the pointers go on to something unreadable, there is no vector. */
  lemma NoVector(b: Mem, s: View, at: nat, n: nat)
    requires forall i :: 0 <= i < n ==> WordThere(b, s, at + 8 * i) && StringThere(b, s, WordAt(b, s, at + 8 * i))
    requires !WordThere(b, s, at + 8 * n)
             || (WordAt(b, s, at + 8 * n) != 0 && !StringThere(b, s, WordAt(b, s, at + 8 * n)))
    ensures forall k: nat :: !VectorOf(b, s, at, k)
  {
    hide WordThere, WordAt;
    var readable, named := WordThere(b, s, at + 8 * n), StringThere(b, s, WordAt(b, s, at + 8 * n));
    forall k: nat ensures !VectorOf(b, s, at, k) {
      assert k < n ==> StringThere(b, s, WordAt(b, s, at + 8 * k));
      assert n < k && VectorOf(b, s, at, k) ==> readable && named;
    }
  }

  method CopyWord(m: Memory, sp: AddressSpace, at: nat) returns (ok: bool, word: nat)
    requires Core(MemOf(m), sp.V(), {}, {})
    ensures ok <==> WordThere(MemOf(m), sp.V(), at)
    ensures ok ==> word == WordAt(MemOf(m), sp.V(), at)
  {
    hide Core, ByteAt, RangeAccessible;
    var bytes;
    ok, bytes := CopyFrom(m, sp, at, 8);
    word := Value(bytes);
    if ok {
      assert bytes == UserBytes(MemOf(m), sp.V(), at, 8);
    }
  }

  /** Copies a vector of strings. It succeeds exactly when one within the limits that
      the stack builder relies on is there. */
  method CopyVector(m: Memory, sp: AddressSpace, vector: nat) returns (ok: bool, strings: seq<seq<Byte>>)
    requires Core(MemOf(m), sp.V(), {}, {})
    ensures ok <==> vector == 0 || exists n: nat :: n <= MAX_STRINGS && VectorOf(MemOf(m), sp.V(), vector, n)
    ensures ok ==>
              Short(strings) && if vector == 0 then strings == [] else UserVector(MemOf(m), sp.V(), vector, strings)
  {
    hide Core, WordAt, UserString, WordThere, StringThere, VectorOf, Short;
    strings := [];
    NoneShort();
    if vector == 0 {
      return true, strings;
    }
    ghost var b, s := MemOf(m), sp.V();
    if vector > UINT64_MAX - (MAX_STRINGS + 1) * 8 {
      TooHigh(b, s, vector);
      return false, strings;
    }
    var pointer, good;
    while |strings| < MAX_STRINGS
      invariant |strings| <= MAX_STRINGS && Short(strings)
      invariant forall i ::
                  0 <= i < |strings| ==>
                    WordThere(b, s, vector + 8 * i) && StringThere(b, s, WordAt(b, s, vector + 8 * i))
      invariant forall i ::
                  0 <= i < |strings| ==>
                    WordAt(b, s, vector + 8 * i) != 0 && UserString(b, s, WordAt(b, s, vector + 8 * i), strings[i])
      decreases MAX_STRINGS - |strings|
    {
      good, pointer := CopyWord(m, sp, vector + 8 * |strings|);
      if !good {
        NoVector(b, s, vector, |strings|);
        return false, strings;
      }
      if pointer == 0 {
        assert VectorOf(b, s, vector, |strings|) by { VectorEnds(b, s, vector, |strings|); }
        return true, strings;
      }
      var fine, str := CopyString(m, sp, pointer);
      if !fine {
        NoVector(b, s, vector, |strings|);
        return false, strings;
      }
      MoreShort(strings, str);
      strings := strings + [str];
    }
    good, pointer := CopyWord(m, sp, vector + 8 * MAX_STRINGS);
    ok := good && pointer == 0;
    if ok {
      VectorEnds(b, s, vector, MAX_STRINGS);
    } else {
      NoLongVector(b, s, vector);
    }
  }

  lemma NoneShort()
    ensures Short([])
  {
  }

  lemma MoreShort(strings: seq<seq<Byte>>, str: seq<Byte>)
    requires Short(strings) && |strings| < MAX_STRINGS && |str| < STRING_SIZE && NoZero(str)
    ensures Short(strings + [str])
  {
  }

  lemma TooHigh(b: Mem, s: View, at: nat)
    requires at >= USER_END
    ensures forall n: nat :: !VectorOf(b, s, at, n)
  {
  }

  lemma VectorEnds(b: Mem, s: View, at: nat, n: nat)
    requires forall i :: 0 <= i < n ==> WordThere(b, s, at + 8 * i) && StringThere(b, s, WordAt(b, s, at + 8 * i))
    requires WordThere(b, s, at + 8 * n) && WordAt(b, s, at + 8 * n) == 0
    ensures VectorOf(b, s, at, n)
  {
  }

  /** After the longest vector there must be a zero. */
  lemma NoLongVector(b: Mem, s: View, at: nat)
    requires forall i ::
               0 <= i < MAX_STRINGS ==> WordThere(b, s, at + 8 * i) && StringThere(b, s, WordAt(b, s, at + 8 * i))
    requires !(WordThere(b, s, at + 8 * MAX_STRINGS) && WordAt(b, s, at + 8 * MAX_STRINGS) == 0)
    ensures forall n: nat :: n <= MAX_STRINGS ==> !VectorOf(b, s, at, n)
  {
    hide WordThere, WordAt;
    forall n: nat | n <= MAX_STRINGS ensures !VectorOf(b, s, at, n) {
      assert n < MAX_STRINGS ==> StringThere(b, s, WordAt(b, s, at + 8 * n));
    }
  }
}
