/** The boot archive: the writer that builds it and the reader that takes it
    apart (cpio "newc" layout). */
module Newc {
  import opened Common
  import opened Physical
  import Namespace

  const HEADER: nat := 110

  datatype Entry = Entry(name: seq<Byte>, mode: nat, payload: seq<Byte>)

  /** "070701" */
  const MAGIC: seq<Byte> := [48, 55, 48, 55, 48, 49]

  /** "TRAILER!!!" */
  const TRAILER: seq<Byte> := [84, 82, 65, 73, 76, 69, 82, 33, 33, 33]

  // ----- hexadecimal fields

  function Digit(v: nat): (b: Byte)
    requires v < 16
  {
    if v < 10 then 48 + v else 87 + v
  }

  function DigitValue(c: Byte): Option<nat> {
    if 48 <= c <= 57 then Some(c - 48)
    else if 97 <= c <= 102 then Some(c - 87)
    else if 65 <= c <= 70 then Some(c - 55)
    else None
  }

  function Power16(n: nat): (p: nat)
    ensures p > 0
  {
    if n == 0 then 1 else 16 * Power16(n - 1)
  }

  /** The last `n` hexadecimal digits of a number. */
  function Hex(v: nat, n: nat): (s: seq<Byte>)
    ensures |s| == n
  {
    if n == 0 then [] else Hex(v / 16, n - 1) + [Digit(v % 16)]
  }

  function HexValue(s: seq<Byte>): Option<nat> {
    if s == [] then Some(0)
    else
      var high, low := HexValue(s[..|s| - 1]), DigitValue(s[|s| - 1]);
      if high.None? || low.None? then None else Some(16 * high.value + low.value)
  }

  lemma {:induction false} HexRoundTrip(v: nat, n: nat)
    requires v < Power16(n)
    ensures HexValue(Hex(v, n)) == Some(v)
  {
    if n > 0 {
      HexRoundTrip(v / 16, n - 1);
      assert Hex(v, n)[..n - 1] == Hex(v / 16, n - 1);
    }
  }

  lemma {:induction false} HexBound(s: seq<Byte>)
    ensures HexValue(s).Some? ==> HexValue(s).value < Power16(|s|)
  {
    if s != [] {
      HexBound(s[..|s| - 1]);
    }
  }

  lemma Power8()
    ensures Power16(8) == WORD32
  {
    assert Power16(2) == 256;
    assert Power16(4) == 65536;
    assert Power16(6) == 16777216;
  }

  // ----- writing

  /** Eight digits, or as many more as a number needs. */
  function Width(v: nat): (n: nat)
    ensures n >= 8 && (v < WORD32 ==> n == 8)
  {
    if v < WORD32 then 8 else 1 + Width(v / 16)
  }

  function Field(v: nat): (s: seq<Byte>)
    ensures v < WORD32 ==> s == Hex(v, 8)
  {
    Hex(v, Width(v))
  }

  function Fields(values: seq<nat>): (s: seq<Byte>)
    ensures (forall i :: 0 <= i < |values| ==> values[i] < WORD32) ==> |s| == 8 * |values|
  {
    if values == [] then [] else Field(values[0]) + Fields(values[1..])
  }

  predicate Aligned(n: nat) {
    n % 4 == 0
  }

  lemma AlignedSum(a: nat, b: nat)
    requires Aligned(a)
    ensures Aligned(a + b) == Aligned(b)
  {
  }

  /** Zeros up to the next multiple of four. */
  function Pad(n: nat): (s: seq<Byte>)
    ensures Aligned(n + |s|) && |s| < 4
  {
    seq((4 - n % 4) % 4, _ => 0)
  }

  function Values(e: Entry): seq<nat> {
    [1, e.mode, 0, 0, 1, 0, |e.payload|, 0, 0, 0, 0, |e.name| + 1, 0]
  }

  /** Every field of the header has eight digits. */
  predicate Fits(e: Entry) {
    e.mode < WORD32 && |e.payload| < WORD32 && |e.name| + 1 < WORD32
  }

  /** The header and the name, with its final zero. */
  function Head(e: Entry): (s: seq<Byte>)
    ensures Fits(e) ==> |s| == HEADER + |e.name| + 1
  {
    MAGIC + Fields(Values(e)) + e.name + [0]
  }

  function Encoded(e: Entry): seq<Byte> {
    Head(e) + Pad(|Head(e)|) + e.payload + Pad(|e.payload|)
  }

  lemma EncodedAligned(e: Entry)
    ensures Aligned(|Encoded(e)|)
  {
    hide Head, Pad, Aligned;
    var a, b := Head(e) + Pad(|Head(e)|), e.payload + Pad(|e.payload|);
    assert Encoded(e) == a + b;
    AlignedSum(|a|, |b|);
  }

  function Archive(entries: seq<Entry>): seq<Byte> {
    if entries == [] then Encoded(Entry(TRAILER, 0, [])) else Encoded(entries[0]) + Archive(entries[1..])
  }

  /** The writer's buffer, which grows at its end. */
  class Writer {
    var archive: seq<Byte>

    constructor ()
      ensures archive == []
    {
      archive := [];
    }

    method Pad4()
      modifies this
      ensures archive == old(archive) + Pad(|old(archive)|)
    {
      archive := archive + seq((4 - |archive| % 4) % 4, _ => 0);
    }

    method AddFields(values: seq<nat>)
      modifies this
      ensures archive == old(archive) + Fields(values)
    {
      hide Fields, Field;
      ghost var was := archive;
      var i := 0;
      NoFields(values[..0]);
      while i < |values|
        invariant 0 <= i <= |values| && archive == was + Fields(values[..i])
      {
        FieldsMore(values, i);
        archive := archive + Field(values[i]);
        i := i + 1;
      }
      assert values[..i] == values;
    }

    method AddEntry(name: seq<Byte>, payload: seq<Byte>, mode: nat)
      requires Aligned(|archive|)
      modifies this
      ensures archive == old(archive) + Encoded(Entry(name, mode, payload)) && Aligned(|archive|)
    {
      hide Pad, Aligned, Fields, Encoded;
      ghost var was := archive;
      var encoded := name + [0];
      archive := archive + MAGIC;
      AddFields([1, mode, 0, 0, 1, 0, |payload|, 0, 0, 0, 0, |encoded|, 0]);
      archive := archive + encoded;
      Pad4();
      archive := archive + payload;
      Pad4();
      EntryAppended(was, Entry(name, mode, payload), archive);
    }
  }

  /** The whole archive: every entry in order, then the trailer. */
  method Build(entries: seq<Entry>) returns (bytes: seq<Byte>)
    ensures bytes == Archive(entries)
  {
    hide Encoded, Aligned;
    var w := new Writer();
    NothingAligned();
    var i := 0;
    assert entries[0..] == entries && [] + Archive(entries) == Archive(entries);
    while i < |entries|
      invariant 0 <= i <= |entries| && Aligned(|w.archive|) && fresh(w)
      invariant w.archive + Archive(entries[i..]) == Archive(entries)
    {
      var e := entries[i];
      assert entries[i..][0] == e && entries[i..][1..] == entries[i + 1..];
      ghost var was := w.archive;
      w.AddEntry(e.name, e.payload, e.mode);
      assert was + (Encoded(e) + Archive(entries[i + 1..])) == was + Encoded(e) + Archive(entries[i + 1..]);
      i := i + 1;
    }
    assert entries[i..] == [];
    w.AddEntry(TRAILER, [], 0);
    bytes := w.archive;
  }

  lemma NothingAligned()
    ensures Aligned(0)
  {
  }

  lemma {:induction false} FieldsMore(values: seq<nat>, i: nat)
    requires i < |values|
    ensures Fields(values[..i + 1]) == Fields(values[..i]) + Field(values[i])
  {
    hide Field;
    if i > 0 {
      FieldsMore(values[1..], i - 1);
      assert values[..i + 1][1..] == values[1..][..i] && values[..i][1..] == values[1..][..i - 1];
    }
  }

  lemma NoFields(values: seq<nat>)
    ensures values == [] ==> Fields(values) == []
  {
  }

  lemma PadSame(a: nat, b: nat)
    requires Aligned(a)
    ensures Pad(a + b) == Pad(b)
  {
  }

  lemma EntryAppended(was: seq<Byte>, e: Entry, archive: seq<Byte>)
    requires Aligned(|was|)
    requires var a := was + MAGIC + Fields(Values(e)) + (e.name + [0]);
             var b := a + Pad(|a|) + e.payload;
             archive == b + Pad(|b|)
    ensures archive == was + Encoded(e) && Aligned(|archive|)
  {
    hide Pad, Aligned, Fields, Values;
    var a := was + MAGIC + Fields(Values(e)) + (e.name + [0]);
    assert a == was + Head(e);
    PadSame(|was|, |Head(e)|);
    var b := a + Pad(|a|) + e.payload;
    PadSame(|a| + |Pad(|a|)|, |e.payload|);
    assert archive == was + (Head(e) + Pad(|Head(e)|) + e.payload + Pad(|e.payload|));
  }

  // ----- reading

  datatype Step = Step(entry: Entry, next: nat)

  /** One header with its name and payload, or nothing if it is malformed. */
  function ReadEntry(bytes: seq<Byte>, offset: nat): (r: Option<Step>)
    requires offset + HEADER <= |bytes|
    ensures r.Some? ==> offset + HEADER < r.value.next <= |bytes|
  {
    var mode, payload, namesize := HexValue(bytes[offset + 14..offset + 22]), HexValue(bytes[offset + 54..offset + 62]),
        HexValue(bytes[offset + 94..offset + 102]);
    if bytes[offset..offset + 6] != MAGIC || mode.None? || payload.None? || namesize.None? then None
    else if namesize.value == 0 || namesize.value > Namespace.PATH_LIMIT then None
    else
      var nameoff := offset + HEADER;
      if namesize.value > |bytes| - nameoff || bytes[nameoff + namesize.value - 1] != 0 then None
      else
        var name := bytes[nameoff..nameoff + namesize.value - 1];
        var dataoff := RoundUp4(nameoff + namesize.value);
        if !NoZero(name) || dataoff > |bytes| || payload.value > |bytes| - dataoff then None
        else
          var next := RoundUp4(dataoff + payload.value);
          if next > |bytes| then None
          else Some(Step(Entry(name, mode.value, bytes[dataoff..dataoff + payload.value]), next))
  }

  /** The entries from an offset up to the trailer. */
  function ReadFrom(bytes: seq<Byte>, offset: nat): Option<seq<Entry>>
    decreases |bytes| - offset
  {
    if offset + HEADER > |bytes| then None
    else
      match ReadEntry(bytes, offset)
      case None => None
      case Some(Step(e, next)) =>
        if e.name == TRAILER then (if e.payload == [] then Some([]) else None)
        else
          var rest := ReadFrom(bytes, next);
          if rest.None? then None else Some([e] + rest.value)
  }

  /** Reads eight digits. */
  method ReadHex8(bytes: seq<Byte>, at: nat) returns (ok: bool, value: nat)
    requires at + 8 <= |bytes|
    ensures ok <==> HexValue(bytes[at..at + 8]).Some?
    ensures ok ==> value == HexValue(bytes[at..at + 8]).value && value < WORD32
  {
    value := 0;
    var i := 0;
    while i < 8
      invariant 0 <= i <= 8 && HexValue(bytes[at..at + i]) == Some(value)
    {
      var c := bytes[at + i];
      assert bytes[at..at + i + 1][..i] == bytes[at..at + i];
      var v;
      if 48 <= c <= 57 {
        v := c - 48;
      } else if 97 <= c <= 102 {
        v := c - 97 + 10;
      } else if 65 <= c <= 70 {
        v := c - 65 + 10;
      } else {
        HexStuck(bytes[at..at + 8], i);
        assert bytes[at..at + 8][..i + 1] == bytes[at..at + i + 1];
        return false, value;
      }
      value := 16 * value + v;
      i := i + 1;
    }
    HexBound(bytes[at..at + 8]);
    Power8();
    ok := true;
  }

  /** A bad digit spoils the whole number. */
  lemma {:induction false} HexStuck(s: seq<Byte>, i: nat)
    requires i < |s| && DigitValue(s[i]).None?
    ensures HexValue(s).None?
    decreases |s|
  {
    if i < |s| - 1 {
      HexStuck(s[..|s| - 1], i);
    }
  }

  /** The boot-time loop over the archive. */
  method ReadArchive(bytes: seq<Byte>) returns (ok: bool, entries: seq<Entry>)
    ensures ok <==> ReadFrom(bytes, 0).Some?
    ensures ok ==> entries == ReadFrom(bytes, 0).value
  {
    hide ReadEntry;
    entries := [];
    var offset := 0;
    PrependedNone(ReadFrom(bytes, 0));
    while offset <= |bytes| && |bytes| - offset >= HEADER
      invariant 0 <= offset
      invariant ReadFrom(bytes, 0) == Prepended(entries, ReadFrom(bytes, offset))
      decreases |bytes| - offset
    {
      var good, entry, next := ReadHeader(bytes, offset);
      if !good {
        return false, entries;
      }
      if entry.name == TRAILER {
        assert entries + [] == entries;
        return |entry.payload| == 0, entries;
      }
      PrependedMore(entries, entry, ReadFrom(bytes, next));
      entries := entries + [entry];
      offset := next;
    }
    ok := false;
  }

  ghost function Prepended(front: seq<Entry>, rest: Option<seq<Entry>>): Option<seq<Entry>> {
    if rest.None? then None else Some(front + rest.value)
  }

  lemma PrependedNone(rest: Option<seq<Entry>>)
    ensures Prepended([], rest) == rest
  {
    if rest.Some? {
      assert [] + rest.value == rest.value;
    }
  }

  lemma PrependedMore(front: seq<Entry>, e: Entry, rest: Option<seq<Entry>>)
    ensures Prepended(front, if rest.None? then None else Some([e] + rest.value)) == Prepended(front + [e], rest)
  {
    if rest.Some? {
      assert front + ([e] + rest.value) == front + [e] + rest.value;
    }
  }

  method ReadHeader(bytes: seq<Byte>, offset: nat) returns (ok: bool, entry: Entry, next: nat)
    requires offset + HEADER <= |bytes|
    ensures ReadEntry(bytes, offset) == if ok then Some(Step(entry, next)) else None
  {
    hide RoundUp4, NoZero, HexValue;
    entry, next, ok := Entry([], 0, []), 0, false;
    var okMode, mode := ReadHex8(bytes, offset + 14);
    var okSize, payload := ReadHex8(bytes, offset + 54);
    var okName, namesize := ReadHex8(bytes, offset + 94);
    if bytes[offset..offset + 6] != MAGIC || !okMode || !okSize || !okName || namesize == 0
       || namesize > Namespace.PATH_LIMIT {
      return;
    }
    var nameoff := offset + HEADER;
    if namesize > |bytes| - nameoff || bytes[nameoff + namesize - 1] != 0 {
      return;
    }
    var length := StringLength(bytes, nameoff);
    LengthMeans(bytes, nameoff, length, namesize - 1);
    if length != namesize - 1 {
      return;
    }
    var dataoff := RoundUp4(nameoff + namesize);
    if dataoff > |bytes| || payload > |bytes| - dataoff {
      return;
    }
    next := RoundUp4(dataoff + payload);
    if next > |bytes| {
      return;
    }
    entry := Entry(bytes[nameoff..nameoff + namesize - 1], mode, bytes[dataoff..dataoff + payload]);
    ok := true;
  }

  /** The distance to the first zero. */
  method StringLength(bytes: seq<Byte>, at: nat) returns (n: nat)
    requires exists i :: at <= i < |bytes| && bytes[i] == 0
    ensures at + n < |bytes| && bytes[at + n] == 0 && NoZero(bytes[at..at + n])
  {
    n := 0;
    while bytes[at + n] != 0
      invariant at + n < |bytes| && NoZero(bytes[at..at + n]) && exists i :: at + n <= i < |bytes| && bytes[i] == 0
      decreases |bytes| - n
    {
      assert bytes[at..at + n + 1] == bytes[at..at + n] + [bytes[at + n]];
      n := n + 1;
    }
  }

  lemma LengthMeans(bytes: seq<Byte>, at: nat, n: nat, m: nat)
    requires at + n < |bytes| && bytes[at + n] == 0 && NoZero(bytes[at..at + n]) && at + m < |bytes|
             && bytes[at + m] == 0
    ensures n == m <==> NoZero(bytes[at..at + m])
  {
    if n < m {
      assert bytes[at..at + m][n] == 0;
    }
  }

  // ----- the round trip

  /** Entries the writer can write and the reader can tell apart. */
  predicate Legal(e: Entry) {
    |e.name| < Namespace.PATH_LIMIT && NoZero(e.name) && e.mode < WORD32 && |e.payload| < WORD32
  }

  lemma {:induction false} FieldAt(values: seq<nat>, k: nat)
    requires k < |values| && forall i :: 0 <= i < |values| ==> values[i] < WORD32
    ensures Fields(values)[8 * k..8 * k + 8] == Hex(values[k], 8)
  {
    if k > 0 {
      FieldAt(values[1..], k - 1);
      assert Fields(values)[8 * k..8 * k + 8] == Fields(values[1..])[8 * (k - 1)..8 * (k - 1) + 8];
    }
  }

  /** A field of the header, wherever the entry stands. */
  lemma HeaderField(e: Entry, k: nat, value: nat)
    requires Fits(e) && k < 13 && value == Values(e)[k]
    ensures HexValue(Head(e)[6 + 8 * k..14 + 8 * k]) == Some(value)
  {
    hide Fields, HexValue, Hex;
    assert forall i :: 0 <= i < 13 ==> Values(e)[i] < WORD32;
    FieldAt(Values(e), k);
    assert Head(e)[6 + 8 * k..14 + 8 * k] == Fields(Values(e))[8 * k..8 * k + 8];
    Power8();
    HexRoundTrip(value, 8);
  }

  /** A piece of the middle of three sequences. */
  lemma Middle(pre: seq<Byte>, x: seq<Byte>, post: seq<Byte>, i: nat, j: nat)
    requires i <= j <= |x|
    ensures (pre + x + post)[|pre| + i..|pre| + j] == x[i..j]
  {
  }

  lemma RoundUpPad(base: nat, n: nat)
    requires Aligned(base)
    ensures RoundUp4(base + n) == base + n + |Pad(n)|
  {
  }

  lemma EncodedShape(e: Entry)
    ensures var h := |Head(e)|;
            var d := h + |Pad(h)|;
            && d + |e.payload| <= |Encoded(e)| == d + |e.payload| + |Pad(|e.payload|)|
            && Encoded(e)[..h] == Head(e) && Encoded(e)[d..d + |e.payload|] == e.payload
  {
    hide Head, Pad;
  }

  /** What the reader sees at an aligned offset where an entry was written. */
  lemma ReadsHead(pre: seq<Byte>, e: Entry, post: seq<Byte>)
    requires Legal(e)
    ensures var bytes, at := pre + Encoded(e) + post, |pre|;
            && at + HEADER + |e.name| + 1 <= |bytes|
            && bytes[at..at + 6] == MAGIC && HexValue(bytes[at + 14..at + 22]) == Some(e.mode)
            && HexValue(bytes[at + 54..at + 62]) == Some(|e.payload|)
            && HexValue(bytes[at + 94..at + 102]) == Some(|e.name| + 1)
            && bytes[at + HEADER..at + HEADER + |e.name|] == e.name && bytes[at + HEADER + |e.name|] == 0
  {
    hide Encoded, HexValue, Fields, NoZero;
    EncodedShape(e);
    var x, h := Encoded(e), Head(e);
    assert h[..6] == MAGIC && h[HEADER..HEADER + |e.name|] == e.name && h[HEADER + |e.name|] == 0;
    HeaderField(e, 1, e.mode);
    HeaderField(e, 6, |e.payload|);
    HeaderField(e, 11, |e.name| + 1);
    Middle(pre, x, post, 0, 6);
    Middle(pre, x, post, 14, 22);
    Middle(pre, x, post, 54, 62);
    Middle(pre, x, post, 94, 102);
    Middle(pre, x, post, HEADER, HEADER + |e.name|);
    PrefixPiece(x, h, 0, 6);
    PrefixPiece(x, h, 14, 22);
    PrefixPiece(x, h, 54, 62);
    PrefixPiece(x, h, 94, 102);
    PrefixPiece(x, h, HEADER, HEADER + |e.name|);
    assert x[HEADER + |e.name|] == h[HEADER + |e.name|];
  }

  lemma PrefixPiece(x: seq<Byte>, h: seq<Byte>, i: nat, j: nat)
    requires |h| <= |x| && x[..|h|] == h && i <= j <= |h|
    ensures x[i..j] == h[i..j]
  {
    assert x[..|h|][i..j] == x[i..j];
  }

  lemma ReadsEntry(pre: seq<Byte>, e: Entry, post: seq<Byte>)
    requires Legal(e) && Aligned(|pre|)
    ensures |pre| + HEADER <= |pre + Encoded(e) + post|
    ensures ReadEntry(pre + Encoded(e) + post, |pre|) == Some(Step(e, |pre| + |Encoded(e)|))
  {
    hide Encoded, HexValue, Head, Pad, RoundUp4, Aligned;
    ReadsHead(pre, e, post);
    EncodedShape(e);
    var h := |Head(e)|;
    var d := h + |Pad(h)|;
    RoundUpPad(|pre|, h);
    AlignedSum(|pre|, d);
    RoundUpPad(|pre| + d, |e.payload|);
    Middle(pre, Encoded(e), post, d, d + |e.payload|);
  }

  /** Reading back an archive, after any aligned number of bytes, gives the entries. */
  lemma {:induction false} ReadsBack(pre: seq<Byte>, entries: seq<Entry>)
    requires Aligned(|pre|) && forall i :: 0 <= i < |entries| ==> Legal(entries[i]) && entries[i].name != TRAILER
    ensures ReadFrom(pre + Archive(entries), |pre|) == Some(entries)
    decreases entries
  {
    hide Encoded, ReadEntry, Aligned, Legal;
    if entries == [] {
      var last := Entry(TRAILER, 0, []);
      TrailerLegal();
      ReadsEntry(pre, last, []);
      assert pre + Encoded(last) + [] == pre + Archive([]);
    } else {
      var e := entries[0];
      ReadsEntry(pre, e, Archive(entries[1..]));
      assert pre + Encoded(e) + Archive(entries[1..]) == pre + Archive(entries);
      EncodedAligned(e);
      AlignedSum(|pre|, |Encoded(e)|);
      ReadsBack(pre + Encoded(e), entries[1..]);
      assert [e] + entries[1..] == entries;
    }
  }

  lemma TrailerLegal()
    ensures Legal(Entry(TRAILER, 0, []))
  {
  }

  /** Every archive of legal entries is read back exactly. */
  lemma RoundTrip(entries: seq<Entry>)
    requires forall i :: 0 <= i < |entries| ==> Legal(entries[i]) && entries[i].name != TRAILER
    ensures ReadFrom(Archive(entries), 0) == Some(entries)
  {
    ReadsBack([], entries);
    assert [] + Archive(entries) == Archive(entries);
  }
}
