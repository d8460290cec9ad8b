/** The layout of the boot archive, told by positions: what the reader takes
    and what the writer writes. */
module NewcFormat {
  import opened Common
  import opened Physical
  import opened Newc

  // ----- hexadecimal numbers

  /** A byte is a hexadecimal digit of that value, small or capital. */
  predicate IsDigit(c: Byte, d: nat) {
    || (d < 10 && c as int == '0' as int + d)
    || (10 <= d < 16 && (c as int == 'a' as int + (d - 10) || c as int == 'A' as int + (d - 10)))
  }

  /** The reader knows exactly the digits, and the writer uses the small ones. */
  lemma DigitIs(c: Byte, d: nat)
    ensures DigitValue(c) == Some(d) <==> IsDigit(c, d)
    ensures d < 16 ==> Digit(d) as int == "0123456789abcdef"[d] as int
  {
  }

  /** A digit of a number, counted from its end. */
  function Nibble(v: nat, k: nat): nat {
    v / Power16(k) % 16
  }

  /** A digit of a number, counted from the front of its `n` digits. */
  function DigitOf(v: nat, n: nat, i: nat): nat
    requires i < n
  {
    Nibble(v, n - 1 - i)
  }

  /** The digits of a number, the highest first. */
  predicate IsHex(s: seq<Byte>, v: nat) {
    v < Power16(|s|) && forall i :: 0 <= i < |s| ==> IsDigit(s[i], DigitOf(v, |s|, i))
  }

  /** The digits of a number are those of its sixteenth and then its last. */
  lemma DigitShift(v: nat, n: nat, i: nat)
    requires i < n
    ensures DigitOf(v, n + 1, i) == DigitOf(v / 16, n, i)
  {
    DivideTwice(v, 16, Power16(n - 1 - i));
  }

  lemma DigitLast(v: nat, n: nat)
    ensures DigitOf(v, n + 1, n) == v % 16
  {
  }

  lemma HexSplit(s: seq<Byte>, v: nat, n: nat)
    requires n + 1 == |s|
    ensures IsHex(s, v) <==> IsHex(s[..n], v / 16) && IsDigit(s[n], v % 16)
  {
    hide IsDigit, DigitOf;
    var front := s[..n];
    DigitLast(v, n);
    forall i | 0 <= i < n ensures DigitOf(v, |s|, i) == DigitOf(v / 16, |front|, i) && s[i] == front[i] {
      DigitShift(v, n, i);
    }
    assert v < Power16(|s|) <==> v / 16 < Power16(n);
    if IsHex(s, v) {
      forall i | 0 <= i < n ensures IsDigit(front[i], DigitOf(v / 16, n, i)) {
        assert IsDigit(s[i], DigitOf(v, |s|, i));
      }
      assert IsDigit(s[n], DigitOf(v, |s|, n));
    }
    if IsHex(front, v / 16) && IsDigit(s[n], v % 16) {
      forall i | 0 <= i < |s| ensures IsDigit(s[i], DigitOf(v, |s|, i)) {
        if i < n { assert IsDigit(front[i], DigitOf(v / 16, n, i)); }
      }
    }
  }

  /** The reader's value of some digits is the number they spell. */
  lemma {:induction false} HexIs(s: seq<Byte>, v: nat)
    ensures HexValue(s) == Some(v) <==> IsHex(s, v)
    decreases |s|
  {
    hide IsDigit, DigitOf;
    if s == [] {
      assert Power16(0) == 1;
    } else {
      var n := |s| - 1;
      HexIs(s[..n], v / 16);
      DigitIs(s[n], v % 16);
      HexSplit(s, v, n);
      if HexValue(s) == Some(v) {
        var high, low := HexValue(s[..n]).value, DigitValue(s[n]).value;
        DigitIs(s[n], low);
        DigitSmall(s[n], low);
        assert v == 16 * high + low && v / 16 == high && v % 16 == low;
      }
    }
  }

  lemma DigitSmall(c: Byte, d: nat)
    requires IsDigit(c, d)
    ensures d < 16
  {
  }

  // ----- one member

  /** The first multiple of four from a position on. */
  predicate NextFour(n: nat, m: nat) {
    n <= m < n + 4 && m % 4 == 0
  }

  predicate Spells(bytes: seq<Byte>, at: nat, text: string) {
    at + |text| <= |bytes| && forall i :: 0 <= i < |text| ==> bytes[at + i] as int == text[i] as int
  }

  /** An entry stands at an offset: its header, then its name with a final
      zero, then its payload at `data`; the next one stands at `next`. */
  predicate IsMember(bytes: seq<Byte>, offset: nat, e: Entry, data: nat, next: nat) {
    && offset + 110 + |e.name| + 1 <= |bytes| && Spells(bytes, offset, "070701")
    && IsHex(bytes[offset + 14..offset + 22], e.mode)
    && IsHex(bytes[offset + 54..offset + 62], |e.payload|)
    && IsHex(bytes[offset + 94..offset + 102], |e.name| + 1)
    && |e.name| < 256 && 0 !in e.name && bytes[offset + 110..offset + 110 + |e.name| + 1] == e.name + [0]
    && NextFour(offset + 110 + |e.name| + 1, data) && NextFour(data + |e.payload|, next) && next <= |bytes|
    && bytes[data..data + |e.payload|] == e.payload
  }

  ghost predicate Member(bytes: seq<Byte>, offset: nat, e: Entry, next: nat) {
    exists data :: IsMember(bytes, offset, e, data, next)
  }

  lemma NextFourIs(n: nat, m: nat)
    ensures NextFour(n, m) <==> m == RoundUp4(n)
  {
  }

  lemma MagicIs(bytes: seq<Byte>, offset: nat)
    requires offset + 6 <= |bytes|
    ensures bytes[offset..offset + 6] == MAGIC <==> Spells(bytes, offset, "070701")
  {
    var slot := bytes[offset..offset + 6];
    assert forall i :: 0 <= i < 6 ==> MAGIC[i] as int == "070701"[i] as int;
    if slot == MAGIC {
      forall i | 0 <= i < 6 ensures bytes[offset + i] as int == "070701"[i] as int {
        assert slot[i] == MAGIC[i];
      }
    }
    if Spells(bytes, offset, "070701") {
      assert forall i :: 0 <= i < 6 ==> slot[i] == MAGIC[i];
    }
  }

  /** The reader takes an entry exactly where one stands. */
  lemma ReadsExactly(bytes: seq<Byte>, offset: nat, e: Entry, next: nat)
    requires offset + HEADER <= |bytes|
    ensures ReadEntry(bytes, offset) == Some(Step(e, next)) <==> Member(bytes, offset, e, next)
  {
    if ReadEntry(bytes, offset) == Some(Step(e, next)) {
      TakenStands(bytes, offset, e, next);
    }
    if Member(bytes, offset, e, next) {
      var data :| IsMember(bytes, offset, e, data, next);
      StandingTaken(bytes, offset, e, data, next);
    }
  }

  lemma TakenStands(bytes: seq<Byte>, offset: nat, e: Entry, next: nat)
    requires offset + HEADER <= |bytes| && ReadEntry(bytes, offset) == Some(Step(e, next))
    ensures Member(bytes, offset, e, next)
  {
    hide HexValue, IsHex, RoundUp4, NextFour, Spells;
    MagicIs(bytes, offset);
    HexIs(bytes[offset + 14..offset + 22], e.mode);
    HexIs(bytes[offset + 54..offset + 62], |e.payload|);
    HexIs(bytes[offset + 94..offset + 102], |e.name| + 1);
    var nameoff := offset + HEADER;
    var data := RoundUp4(nameoff + |e.name| + 1);
    NextFourIs(nameoff + |e.name| + 1, data);
    NextFourIs(data + |e.payload|, next);
    assert bytes[nameoff..nameoff + |e.name| + 1] == e.name + [0];
    assert IsMember(bytes, offset, e, data, next);
  }

  lemma StandingTaken(bytes: seq<Byte>, offset: nat, e: Entry, data: nat, next: nat)
    requires offset + HEADER <= |bytes| && IsMember(bytes, offset, e, data, next)
    ensures ReadEntry(bytes, offset) == Some(Step(e, next))
  {
    hide HexValue, IsHex, RoundUp4, NextFour, Spells;
    MagicIs(bytes, offset);
    HexIs(bytes[offset + 14..offset + 22], e.mode);
    HexIs(bytes[offset + 54..offset + 62], |e.payload|);
    HexIs(bytes[offset + 94..offset + 102], |e.name| + 1);
    var nameoff := offset + HEADER;
    NextFourIs(nameoff + |e.name| + 1, data);
    NextFourIs(data + |e.payload|, next);
    var named := bytes[nameoff..nameoff + |e.name| + 1];
    assert named[|e.name|] == 0 && named[..|e.name|] == e.name;
    assert bytes[nameoff..nameoff + |e.name|] == e.name;
  }

  // ----- the whole archive

  /** An archive lists its entries one behind the other, each where the one
      before it ends, and closes with an empty trailer. */
  ghost predicate Lists(bytes: seq<Byte>, offset: nat, entries: seq<Entry>, next: nat)
    decreases |entries|
  {
    if entries == [] then exists mode :: Member(bytes, offset, Entry(TRAILER, mode, []), next)
    else
      && entries[0].name != TRAILER
      && exists further :: Member(bytes, offset, entries[0], further) && Lists(bytes, further, entries[1..], next)
  }

  lemma TrailerIs()
    ensures |TRAILER| == 10 && forall i :: 0 <= i < 10 ==> TRAILER[i] as int == "TRAILER!!!"[i] as int
  {
  }

  /** The reader accepts exactly the archives, and gives what they list. */
  lemma {:induction false} ArchiveIs(bytes: seq<Byte>, offset: nat, entries: seq<Entry>)
    ensures ReadFrom(bytes, offset) == Some(entries) <==> exists next :: Lists(bytes, offset, entries, next)
    decreases |entries|
  {
    hide ReadEntry, IsMember;
    if ReadFrom(bytes, offset) == Some(entries) {
      ReadIsListed(bytes, offset, entries);
    }
    if next :| Lists(bytes, offset, entries, next) {
      ListedIsRead(bytes, offset, entries, next);
    }
  }

  lemma {:induction false} ReadIsListed(bytes: seq<Byte>, offset: nat, entries: seq<Entry>)
    requires ReadFrom(bytes, offset) == Some(entries)
    ensures exists next :: Lists(bytes, offset, entries, next)
    decreases |entries|
  {
    hide ReadEntry, Member;
    var Step(e, next) := ReadEntry(bytes, offset).value;
    ReadsExactly(bytes, offset, e, next);
    if e.name == TRAILER {
      assert e == Entry(TRAILER, e.mode, []);
      assert Lists(bytes, offset, entries, next);
    } else {
      var rest := ReadFrom(bytes, next).value;
      assert entries == [e] + rest && entries[1..] == rest;
      ReadIsListed(bytes, next, rest);
      var last :| Lists(bytes, next, rest, last);
      assert Lists(bytes, offset, entries, last);
    }
  }

  lemma MemberFits(bytes: seq<Byte>, offset: nat, e: Entry, next: nat)
    requires Member(bytes, offset, e, next)
    ensures offset + HEADER <= |bytes| && ReadEntry(bytes, offset) == Some(Step(e, next))
  {
    ReadsExactly(bytes, offset, e, next);
  }

  lemma {:induction false} ListedIsRead(bytes: seq<Byte>, offset: nat, entries: seq<Entry>, next: nat)
    requires Lists(bytes, offset, entries, next)
    ensures ReadFrom(bytes, offset) == Some(entries)
    decreases |entries|
  {
    hide ReadEntry, Member;
    if entries == [] {
      var mode :| Member(bytes, offset, Entry(TRAILER, mode, []), next);
      MemberFits(bytes, offset, Entry(TRAILER, mode, []), next);
    } else {
      var further :| Member(bytes, offset, entries[0], further) && Lists(bytes, further, entries[1..], next);
      MemberFits(bytes, offset, entries[0], further);
      ListedIsRead(bytes, further, entries[1..], next);
      assert [entries[0]] + entries[1..] == entries;
    }
  }

  // ----- what the writer puts in

  /** Every field of a header the writer makes. */
  lemma WrittenFields(e: Entry, k: nat, value: nat)
    requires Fits(e) && k < 13
    requires value ==
             if k == 1 then e.mode
             else if k == 6 then |e.payload|
             else if k == 11 then |e.name| + 1
             else if k == 0 || k == 4 then 1 else 0
    ensures Spells(Encoded(e), 0, "070701") && |Encoded(e)| >= 110
    ensures IsHex(Encoded(e)[6 + 8 * k..14 + 8 * k], value)
  {
    hide Fields, HexValue, IsHex, Pad;
    assert value == Values(e)[k];
    HeaderField(e, k, value);
    assert Encoded(e)[6 + 8 * k..14 + 8 * k] == Head(e)[6 + 8 * k..14 + 8 * k];
    HexIs(Encoded(e)[6 + 8 * k..14 + 8 * k], value);
    assert Encoded(e)[0..6] == MAGIC;
    MagicIs(Encoded(e), 0);
  }

  /** The writer's bytes between the parts are zeros. */
  lemma PadIs(n: nat)
    ensures NextFour(n, n + |Pad(n)|) && forall i :: 0 <= i < |Pad(n)| ==> Pad(n)[i] == 0
  {
  }
}
