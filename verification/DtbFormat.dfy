/** The bytes of a device tree blob, as a compiler of device trees writes them, and that
    the parser reads back what was written. */
module DtbFormat {
  import opened Common
  import opened Physical
  import opened Dtb
  import opened Fdt
  import opened TreeContents
  import opened FdtParser

  // ----- numbers, most significant byte first

  function Be(v: nat, n: nat): (s: seq<Byte>)
    ensures |s| == n
  {
    if n == 0 then [] else Be(v / 256, n - 1) + [v % 256]
  }

  lemma BeFour(v: nat)
    requires v < WORD32
    ensures Be(v, 4) == [v / 0x100_0000, v / 0x1_0000 % 0x100, v / 0x100 % 0x100, v % 0x100]
  {
    assert Be(v / 0x100_0000, 1) == [v / 0x100_0000];
    assert Be(v / 0x1_0000, 2) == [v / 0x100_0000, v / 0x1_0000 % 0x100];
    assert Be(v / 0x100, 3) == [v / 0x100_0000, v / 0x1_0000 % 0x100, v / 0x100 % 0x100];
  }

  /** A 32-bit number reads back. */
  lemma Be32Written(bytes: seq<Byte>, at: nat, v: nat)
    requires v < WORD32 && at + 4 <= |bytes| && bytes[at..at + 4] == Be(v, 4)
    ensures Be32(bytes, at) == v
  {
    BeFour(v);
    var word := bytes[at..at + 4];
    assert word[0] == bytes[at] && word[1] == bytes[at + 1] && word[2] == bytes[at + 2] && word[3] == bytes[at + 3];
  }

  lemma BeNext(v: nat, n: nat)
    ensures Be(v, n + 1) == Be(v / 256, n) + [v % 256]
  {
  }

  lemma Digits(v: nat)
    ensures var w := v % WORD32;
            && v / 256 / 256 / 256 / 256 == v / WORD32 && w / 0x100_0000 == v / 256 / 256 / 256 % 256
            && w / 0x1_0000 % 0x100 == v / 256 / 256 % 256 && w / 0x100 % 0x100 == v / 256 % 256 && w % 0x100 == v % 256
  {
    var q := v / WORD32;
    var w := v % WORD32;
    assert v == q * WORD32 + w;
    assert v / 256 == q * 0x100_0000 + w / 256;
    assert v / 256 / 256 == q * 0x1_0000 + w / 256 / 256;
    assert v / 256 / 256 / 256 == q * 0x100 + w / 256 / 256 / 256;
  }

  lemma BeSplit(v: nat, n: nat)
    ensures Be(v, n + 4) == Be(v / WORD32, n) + Be(v % WORD32, 4)
  {
    hide Be;
    BeNext(v, n + 3);
    BeNext(v / 256, n + 2);
    BeNext(v / 256 / 256, n + 1);
    BeNext(v / 256 / 256 / 256, n);
    Digits(v);
    BeFour(v % WORD32);
    var head, b3, b2, b1, b0 :=
      Be(v / WORD32, n), v / 256 / 256 / 256 % 256, v / 256 / 256 % 256, v / 256 % 256, v % 256;
    assert head + [b3] + [b2] + [b1] + [b0] == head + [b3, b2, b1, b0];
  }

  /** A 64-bit number reads back. */
  lemma Be64Written(bytes: seq<Byte>, at: nat, v: nat)
    requires v < WORD64 && at + 8 <= |bytes| && bytes[at..at + 8] == Be(v, 8)
    ensures Be64(bytes, at) == v
  {
    hide Be, Be32;
    BeSplit(v, 4);
    var word := bytes[at..at + 8];
    assert bytes[at..at + 4] == word[..4] == Be(v / WORD32, 4);
    assert bytes[at + 4..at + 8] == word[4..] == Be(v % WORD32, 4);
    Be32Written(bytes, at, v / WORD32);
    Be32Written(bytes, at + 4, v % WORD32);
  }

  /** Fits in that many cells. */
  predicate FitsCells(v: nat, n: nat) {
    if n == 0 then v == 0 else if n == 1 then v < WORD32 else v < WORD64
  }

  /** So does a number of up to two cells. */
  lemma CellsWritten(bytes: seq<Byte>, at: nat, n: nat, v: nat)
    requires n <= 2 && FitsCells(v, n) && at + 4 * n <= |bytes| && bytes[at..at + 4 * n] == Be(v, 4 * n)
    ensures Cells(bytes, at, n) == v
  {
    hide Be, Be32, Be64;
    if n == 1 {
      Be32Written(bytes, at, v);
    } else if n == 2 {
      Be64Written(bytes, at, v);
    }
  }

  // ----- reg and ranges

  /** An entry of a reg property: an address in the cells of the parent, and a size. */
  function EncodedTuple(parent: Node, r: Range): seq<Byte> {
    Be(r.base, 4 * parent.addressCells) + Be(r.size, 4 * parent.sizeCells)
  }

  /** An entry of a ranges property: an address on the bus, its image above, and a size. */
  function EncodedWindow(bus: Node, parent: Node, w: Window): seq<Byte> {
    Be(w.child, 4 * bus.addressCells) + Be(w.parent, 4 * parent.addressCells) + Be(w.size, 4 * bus.sizeCells)
  }

  lemma TupleRoundTrip(parent: Node, reg: seq<Byte>, at: nat, r: Range)
    requires parent.addressCells <= 2 && parent.sizeCells <= 2
    requires FitsCells(r.base, parent.addressCells) && FitsCells(r.size, parent.sizeCells)
    requires at + |EncodedTuple(parent, r)| <= |reg|
             && reg[at..at + |EncodedTuple(parent, r)|] == EncodedTuple(parent, r)
    ensures |EncodedTuple(parent, r)| == TupleSize(parent) && TupleAt(parent, reg, at) == r
  {
    hide Be, Cells;
    var e, a := EncodedTuple(parent, r), 4 * parent.addressCells;
    PieceStands(reg, at, e, 0, a);
    PieceStands(reg, at, e, a, 4 * parent.sizeCells);
    CellsWritten(reg, at, parent.addressCells, r.base);
    CellsWritten(reg, at + a, parent.sizeCells, r.size);
  }

  lemma WindowRoundTrip(bus: Node, parent: Node, bytes: seq<Byte>, at: nat, w: Window)
    requires FewCells(bus, parent)
    requires FitsCells(w.child, bus.addressCells) && FitsCells(w.parent, parent.addressCells)
             && FitsCells(w.size, bus.sizeCells)
    requires var e := EncodedWindow(bus, parent, w); at + |e| <= |bytes| && bytes[at..at + |e|] == e
    ensures |EncodedWindow(bus, parent, w)| == EntrySize(bus, parent) && WindowAt(bus, parent, bytes, at) == w
  {
    hide Be, Cells;
    var e := EncodedWindow(bus, parent, w);
    var a, b, c := 4 * bus.addressCells, 4 * parent.addressCells, 4 * bus.sizeCells;
    PieceStands(bytes, at, e, 0, a);
    PieceStands(bytes, at, e, a, b);
    PieceStands(bytes, at, e, a + b, c);
    CellsWritten(bytes, at, bus.addressCells, w.child);
    CellsWritten(bytes, at + a, parent.addressCells, w.parent);
    CellsWritten(bytes, at + a + b, bus.sizeCells, w.size);
  }

  // ----- tokens

  /** Zeros up to the next multiple of four. */
  function Padded(s: seq<Byte>): (r: seq<Byte>)
    ensures s <= r && |r| == RoundUp4(|s|)
  {
    s + seq(RoundUp4(|s|) - |s|, _ => 0)
  }

  /** A token of the structure block; the name of a property stands elsewhere. */
  function EncodedToken(t: Token, nameAt: nat): seq<Byte> {
    match t
    case Begin(name) => Be(1, 4) + Padded(name + [0])
    case End => Be(2, 4)
    case Prop(_, value) => Be(3, 4) + Be(|value|, 4) + Be(nameAt, 4) + Padded(value)
    case Nop => Be(4, 4)
  }

  /** Names hold no zero, and the strings block has the name of a property where it says. */
  predicate TokenOk(strings: seq<Byte>, t: Token, nameAt: nat) {
    match t
    case Begin(name) => 0 !in name
    case Prop(name, value) =>
      && 0 !in name && |value| < WORD32 && nameAt < WORD32 && nameAt + |name| + 1 <= |strings|
      && strings[nameAt..nameAt + |name| + 1] == name + [0]
    case _ => true
  }

  /** A string that is written ends at its zero. */
  lemma StringWritten(bytes: seq<Byte>, at: nat, name: seq<Byte>)
    requires 0 !in name && at + |name| + 1 <= |bytes| && bytes[at..at + |name| + 1] == name + [0]
    ensures ZeroFrom(bytes, at) == Some(|name|) && bytes[at..at + |name|] == name
  {
    hide ZeroFrom;
    PieceStands(bytes, at, name + [0], 0, |name|);
    assert forall i :: 0 <= i < |name| ==> bytes[at + i] == bytes[at..at + |name|][i] == name[i] && name[i] in name;
    assert bytes[at + |name|] == bytes[at..at + |name| + 1][|name|] == 0;
    ZeroIs(bytes, at, at + |name|);
  }

  lemma LexBegin(v: View, at: nat, name: seq<Byte>)
    requires at + 4 <= |v.structure| && Be32(v.structure, at) == 1
    requires at + 4 + |name| <= |v.structure| && ZeroFrom(v.structure, at + 4) == Some(|name|)
    requires v.structure[at + 4..at + 4 + |name|] == name
    ensures Lex(v, at) == Next(Begin(name), RoundUp4(at + 4 + |name| + 1))
  {
    hide Be32, ZeroFrom;
  }

  lemma BeginRoundTrip(v: View, at: nat, name: seq<Byte>)
    requires 0 !in name && at % 4 == 0
    requires var e := Be(1, 4) + Padded(name + [0]); at + |e| <= |v.structure| && v.structure[at..at + |e|] == e
    ensures Lex(v, at) == Next(Begin(name), at + 4 + RoundUp4(|name| + 1))
  {
    hide Be, Be32, ZeroFrom, Lex, Padded;
    var s, e := v.structure, Be(1, 4) + Padded(name + [0]);
    PieceStands(s, at, e, 0, 4);
    Be32Written(s, at, 1);
    PieceStands(s, at, e, 4, |name| + 1);
    assert e[4..4 + (|name| + 1)] == Padded(name + [0])[..|name| + 1] == name + [0];
    StringWritten(s, at + 4, name);
    RoundedUp(at + 4, |name| + 1);
    LexBegin(v, at, name);
  }

  lemma LexProp(v: View, at: nat, name: seq<Byte>, value: seq<Byte>, nameAt: nat)
    requires at + 12 + |value| <= |v.structure| && Be32(v.structure, at) == 3 && Be32(v.structure, at + 4) == |value|
    requires Be32(v.structure, at + 8) == nameAt && nameAt + |name| < |v.strings|
    requires ZeroFrom(v.strings, nameAt) == Some(|name|) && v.strings[nameAt..nameAt + |name|] == name
    requires v.structure[at + 12..at + 12 + |value|] == value
    ensures Lex(v, at) == Next(Prop(name, value), RoundUp4(at + 12 + |value|))
  {
    hide Be32, ZeroFrom;
  }

  lemma PropRoundTrip(v: View, at: nat, name: seq<Byte>, value: seq<Byte>, nameAt: nat)
    requires TokenOk(v.strings, Prop(name, value), nameAt) && at % 4 == 0
    requires var e := Be(3, 4) + Be(|value|, 4) + Be(nameAt, 4) + Padded(value);
             at + |e| <= |v.structure| && v.structure[at..at + |e|] == e
    ensures Lex(v, at) == Next(Prop(name, value), at + 12 + RoundUp4(|value|))
  {
    hide Be, Be32, ZeroFrom, Lex, Padded;
    var s, e := v.structure, Be(3, 4) + Be(|value|, 4) + Be(nameAt, 4) + Padded(value);
    PieceStands(s, at, e, 0, 4);
    assert e[..4] == Be(3, 4);
    Be32Written(s, at, 3);
    PropWritten(s, at, value, nameAt);
    StringWritten(v.strings, nameAt, name);
    RoundedUp(at + 12, |value|);
    LexProp(v, at, name, value, nameAt);
  }

  /** A token reads back, and the next one is found behind it. */
  lemma TokenRoundTrip(v: View, at: nat, t: Token, nameAt: nat)
    requires TokenOk(v.strings, t, nameAt) && at % 4 == 0
    requires var e := EncodedToken(t, nameAt); at + |e| <= |v.structure| && v.structure[at..at + |e|] == e
    ensures |EncodedToken(t, nameAt)| % 4 == 0 && |EncodedToken(t, nameAt)| >= 4
    ensures Lex(v, at) == Next(t, at + |EncodedToken(t, nameAt)|)
  {
    hide Be, ZeroFrom, Padded, Lex;
    match t {
      case Begin(name) => BeginRoundTrip(v, at, name);
      case End => MarkRoundTrip(v, at, 2);
      case Nop => MarkRoundTrip(v, at, 4);
      case Prop(name, value) => PropRoundTrip(v, at, name, value, nameAt);
    }
  }

  /** The tokens that are one word. */
  lemma MarkRoundTrip(v: View, at: nat, word: nat)
    requires (word == 2 || word == 4) && at + 4 <= |v.structure| && v.structure[at..at + 4] == Be(word, 4)
    ensures Lex(v, at) == Next(if word == 2 then End else Nop, at + 4)
  {
    hide Be, Be32, ZeroFrom;
    Be32Written(v.structure, at, word);
  }

  lemma RoundedUp(at: nat, n: nat)
    requires at % 4 == 0
    ensures RoundUp4(at + n) == at + RoundUp4(n)
  {
  }

  lemma PropWritten(s: seq<Byte>, at: nat, value: seq<Byte>, nameAt: nat)
    requires |value| < WORD32 && nameAt < WORD32
    requires var e := Be(3, 4) + Be(|value|, 4) + Be(nameAt, 4) + Padded(value);
             at + |e| <= |s| && s[at..at + |e|] == e
    ensures Be32(s, at + 4) == |value| && Be32(s, at + 8) == nameAt
    ensures at + 12 + |value| <= |s| && s[at + 12..at + 12 + |value|] == value
  {
    hide Be, Be32;
    var e := Be(3, 4) + Be(|value|, 4) + Be(nameAt, 4) + Padded(value);
    PieceStands(s, at, e, 4, 4);
    PieceStands(s, at, e, 8, 4);
    PieceStands(s, at, e, 12, |value|);
    assert e[4..8] == Be(|value|, 4) && e[8..12] == Be(nameAt, 4);
    assert e[12..12 + |value|] == Padded(value)[..|value|] == value;
    Be32Written(s, at + 4, |value|);
    Be32Written(s, at + 8, nameAt);
  }

  /** All tokens of a block. */
  function EncodedTokens(tokens: seq<Token>, names: seq<nat>): seq<Byte>
    requires |names| == |tokens|
  {
    if tokens == [] then [] else EncodedToken(tokens[0], names[0]) + EncodedTokens(tokens[1..], names[1..])
  }

  predicate TokensOk(strings: seq<Byte>, tokens: seq<Token>, names: seq<nat>) {
    |names| == |tokens| && forall i :: 0 <= i < |tokens| ==> TokenOk(strings, tokens[i], names[i])
  }

  /** They read back in order, up to the end mark. */
  lemma {:induction false} TokensRoundTrip(v: View, at: nat, tokens: seq<Token>, names: seq<nat>)
    requires TokensOk(v.strings, tokens, names) && at % 4 == 0
    requires var e := EncodedTokens(tokens, names) + Be(9, 4);
             at + |e| <= |v.structure| && v.structure[at..at + |e|] == e
    ensures Lexed(v, at, tokens, at + |EncodedTokens(tokens, names)|)
            && EndsAt(v, at + |EncodedTokens(tokens, names)|)
    decreases |tokens|
  {
    hide Be, Lex, TokenOk, EncodedToken, EndsAt;
    if tokens == [] {
      assert EncodedTokens(tokens, names) + Be(9, 4) == Be(9, 4);
      EndMark(v, at);
    } else {
      var first := EncodedToken(tokens[0], names[0]);
      FirstToken(v.structure, at, tokens, names);
      TokenRoundTrip(v, at, tokens[0], names[0]);
      TokensRoundTrip(v, at + |first|, tokens[1..], names[1..]);
    }
  }

  lemma FirstToken(s: seq<Byte>, at: nat, tokens: seq<Token>, names: seq<nat>)
    requires |names| == |tokens| > 0
    requires var e := EncodedTokens(tokens, names) + Be(9, 4); at + |e| <= |s| && s[at..at + |e|] == e
    ensures var first, rest := EncodedToken(tokens[0], names[0]), EncodedTokens(tokens[1..], names[1..]) + Be(9, 4);
            && |EncodedTokens(tokens, names) + Be(9, 4)| == |first| + |rest| && at + |first| + |rest| <= |s|
            && s[at..at + |first|] == first && s[at + |first|..at + |first| + |rest|] == rest
  {
    hide Be, EncodedToken;
    Halves(s, at, EncodedToken(tokens[0], names[0]), EncodedTokens(tokens[1..], names[1..]), Be(9, 4));
  }

  lemma Halves(s: seq<Byte>, at: nat, first: seq<Byte>, middle: seq<Byte>, last: seq<Byte>)
    requires var e := first + middle + last; at + |e| <= |s| && s[at..at + |e|] == e
    ensures var rest := middle + last;
            && at + |first| + |rest| <= |s|
            && s[at..at + |first|] == first && s[at + |first|..at + |first| + |rest|] == rest
  {
    var e, rest := first + middle + last, middle + last;
    PieceStands(s, at, e, 0, |first|);
    PieceStands(s, at, e, |first|, |rest|);
    assert e[0..0 + |first|] == first && e[|first|..|first| + |rest|] == rest;
  }

  lemma EndMark(v: View, at: nat)
    requires at + 4 <= |v.structure| && v.structure[at..at + 4] == Be(9, 4)
    ensures EndsAt(v, at)
  {
    Be32Written(v.structure, at, 9);
  }

  // ----- the reservation table

  function EncodedEntry(r: Range): seq<Byte> {
    Be(r.base, 8) + Be(r.size, 8)
  }

  lemma EntryRoundTrip(blob: seq<Byte>, at: nat, r: Range)
    requires r.base < WORD64 && r.size < WORD64 && at + 16 <= |blob| && blob[at..at + 16] == EncodedEntry(r)
    ensures Range(Be64(blob, at), Be64(blob, at + 8)) == r
  {
    hide Be, Be64;
    var e := EncodedEntry(r);
    PieceStands(blob, at, e, 0, 8);
    PieceStands(blob, at, e, 8, 8);
    Be64Written(blob, at, r.base);
    Be64Written(blob, at + 8, r.size);
  }

  // ----- the header

  /** The ten words of the header after the magic number. */
  datatype BlobHeader = BlobHeader(
    total: nat,
    structureAt: nat,
    stringsAt: nat,
    reservationAt: nat,
    version: nat,
    compatible: nat,
    cpu: nat,
    stringsSize: nat,
    structureSize: nat)

  function Words(ws: seq<nat>): (s: seq<Byte>)
    ensures |s| == 4 * |ws|
  {
    if ws == [] then [] else Words(ws[..|ws| - 1]) + Be(ws[|ws| - 1], 4)
  }

  function EncodedHeader(h: BlobHeader): (s: seq<Byte>)
    ensures |s| == 40
  {
    Words([0xd00dfeed, h.total, h.structureAt, h.stringsAt, h.reservationAt, h.version, h.compatible, h.cpu,
           h.stringsSize, h.structureSize])
  }

  lemma {:induction false} WordStands(ws: seq<nat>, k: nat)
    requires k < |ws|
    ensures Words(ws)[4 * k..4 * k + 4] == Be(ws[k], 4)
  {
    hide Be;
    if k < |ws| - 1 {
      WordStands(ws[..|ws| - 1], k);
    }
  }

  lemma WordWritten(bytes: seq<Byte>, ws: seq<nat>, k: nat)
    requires 4 * |ws| <= |bytes| && bytes[..4 * |ws|] == Words(ws) && k < |ws| && ws[k] < WORD32
    ensures Be32(bytes, 4 * k) == ws[k]
  {
    hide Be, Be32, Words;
    WordStands(ws, k);
    PieceStands(bytes, 0, Words(ws), 4 * k, 4);
    Be32Written(bytes, 4 * k, ws[k]);
  }

  predicate HeaderFits(h: BlobHeader) {
    && h.total < WORD32 && h.structureAt < WORD32 && h.stringsAt < WORD32 && h.reservationAt < WORD32
    && h.version < WORD32 && h.compatible < WORD32 && h.cpu < WORD32 && h.stringsSize < WORD32
    && h.structureSize < WORD32
  }

  /** A version the kernel knows, and blocks that are aligned, inside the blob and apart. */
  predicate HeaderProper(h: BlobHeader) {
    && h.version >= 17 && h.compatible <= 17 && 40 <= h.total <= 0x100_0000
    && 40 <= h.structureAt && h.structureAt % 4 == 0 && h.structureAt + h.structureSize <= h.total
    && 40 <= h.stringsAt && h.stringsAt + h.stringsSize <= h.total
    && 40 <= h.reservationAt && h.reservationAt % 8 == 0 && h.reservationAt + 16 <= h.total
    && (h.structureAt + h.structureSize <= h.stringsAt || h.stringsAt + h.stringsSize <= h.structureAt)
  }

  /** The kernel reads the words that were written. */
  lemma HeaderWords(bytes: seq<Byte>, h: BlobHeader)
    requires HeaderFits(h) && 40 <= |bytes| && bytes[..40] == EncodedHeader(h)
    ensures Be32(bytes, 0) == 0xd00dfeed && Be32(bytes, 4) == h.total && Be32(bytes, 8) == h.structureAt
    ensures Be32(bytes, 12) == h.stringsAt && Be32(bytes, 16) == h.reservationAt && Be32(bytes, 20) == h.version
    ensures Be32(bytes, 24) == h.compatible && Be32(bytes, 32) == h.stringsSize && Be32(bytes, 36) == h.structureSize
  {
    hide Be32, Words;
    var ws := [0xd00dfeed, h.total, h.structureAt, h.stringsAt, h.reservationAt, h.version, h.compatible, h.cpu,
               h.stringsSize, h.structureSize];
    WordWritten(bytes, ws, 0);
    WordWritten(bytes, ws, 1);
    WordWritten(bytes, ws, 2);
    WordWritten(bytes, ws, 3);
    WordWritten(bytes, ws, 4);
    WordWritten(bytes, ws, 5);
    WordWritten(bytes, ws, 6);
    WordWritten(bytes, ws, 8);
    WordWritten(bytes, ws, 9);
  }

  /** A header is accepted exactly when it is proper, and gives the blocks it names. */
  lemma HeaderRoundTrip(bytes: seq<Byte>, h: BlobHeader)
    requires HeaderFits(h) && h.total <= |bytes| && 40 <= |bytes| && bytes[..40] == EncodedHeader(h)
    ensures Readable(bytes) && (HeaderOk(bytes) <==> HeaderProper(h))
    ensures HeaderProper(h) ==>
              ViewOf(bytes)
                == View(bytes[..h.total], h.structureAt, bytes[h.structureAt..h.structureAt + h.structureSize],
                                    h.stringsAt, bytes[h.stringsAt..h.stringsAt + h.stringsSize], h.reservationAt)
  {
    hide Be32, EncodedHeader;
    HeaderWords(bytes, h);
  }

  // ----- a whole blob

  /** An entry of the reservation table stands in the blob, clear of the other blocks. */
  ghost predicate EntryStands(v: View, at: nat, r: Range) {
    && r.base < WORD64 && r.size < WORD64 && at + 16 <= |v.blob| && v.blob[at..at + 16] == EncodedEntry(r)
    && (at + 16 <= v.structureAt || v.structureAt + |v.structure| <= at)
    && (at + 16 <= v.stringsAt || v.stringsAt + |v.strings| <= at)
  }

  ghost predicate TableStands(v: View, entries: seq<Range>) {
    && (forall k :: 0 <= k < |entries| ==>
                      entries[k] != Range(0, 0) && EntryStands(v, v.reservationAt + 16 * k, entries[k]))
    && EntryStands(v, v.reservationAt + 16 * |entries|, Range(0, 0))
  }

  /** The bytes hold that header, that reservation table up to its zero entry, and those
      tokens up to the end mark. */
  ghost predicate IsBlob(bytes: seq<Byte>, h: BlobHeader, entries: seq<Range>, tokens: seq<Token>, names: seq<nat>) {
    && HeaderFits(h) && HeaderProper(h) && h.total <= |bytes| && 40 <= |bytes| && bytes[..40] == EncodedHeader(h)
    && var v := View(bytes[..h.total], h.structureAt, bytes[h.structureAt..h.structureAt + h.structureSize],
                     h.stringsAt,
                     bytes[h.stringsAt..h.stringsAt + h.stringsSize], h.reservationAt);
    && TableStands(v, entries) && TokensOk(v.strings, tokens, names)
    && EncodedTokens(tokens, names) + Be(9, 4) <= v.structure
  }

  lemma EntryAtHere(v: View, at: nat, r: Range)
    requires EntryStands(v, at, r)
    ensures EntryAt(v, at, r)
  {
    hide EncodedEntry, Be64;
    EntryRoundTrip(v.blob, at, r);
  }

  lemma TableRoundTrip(v: View, entries: seq<Range>)
    requires TableStands(v, entries)
    ensures TableOf(v, entries)
  {
    hide EntryStands, EntryAt;
    forall k | 0 <= k < |entries|
      ensures entries[k] != Range(0, 0) && EntryAt(v, v.reservationAt + 16 * k, entries[k]) {
      EntryAtHere(v, v.reservationAt + 16 * k, entries[k]);
    }
    EntryAtHere(v, v.reservationAt + 16 * |entries|, Range(0, 0));
  }

  lemma StructureRoundTrip(v: View, tokens: seq<Token>, names: seq<nat>)
    requires TokensOk(v.strings, tokens, names) && EncodedTokens(tokens, names) + Be(9, 4) <= v.structure
    ensures var end := |EncodedTokens(tokens, names)|; Lexed(v, 0, tokens, end) && EndsAt(v, end)
  {
    hide TokenOk, EncodedTokens, Be, Lexed, EndsAt;
    var e := EncodedTokens(tokens, names) + Be(9, 4);
    assert v.structure[0..0 + |e|] == e;
    TokensRoundTrip(v, 0, tokens, names);
  }

  /** Whatever a compiler writes, the kernel reads: the table and the tokens. */
  lemma BlobRoundTrip(bytes: seq<Byte>, h: BlobHeader, entries: seq<Range>, tokens: seq<Token>, names: seq<nat>)
    requires IsBlob(bytes, h, entries, tokens, names)
    ensures Readable(bytes) && HeaderOk(bytes) && TableOf(ViewOf(bytes), entries)
    ensures var end := |EncodedTokens(tokens, names)|;
            Lexed(ViewOf(bytes), 0, tokens, end) && EndsAt(ViewOf(bytes), end)
  {
    hide EncodedHeader, TableStands, TokenOk, EncodedTokens, Be, HeaderProper, HeaderOk, ViewOf, TableOf, Lexed, EndsAt;
    HeaderRoundTrip(bytes, h);
    TableRoundTrip(ViewOf(bytes), entries);
    StructureRoundTrip(ViewOf(bytes), tokens, names);
  }

  /** And the boot information that the tokens tell is what the parser returns. */
  lemma BlobTells(bytes: seq<Byte>, h: BlobHeader, entries: seq<Range>, tokens: seq<Token>, names: seq<nat>,
                  infos: seq<Info>, info: Info)
    requires IsBlob(bytes, h, entries, tokens, names) && Recordable(entries) && OneTree(tokens)
    requires History(tokens, infos) && infos[0] == Info([], Kept(entries), None, 0, None, 0, [], [], 0)
    requires infos[|tokens|] == info
    ensures Readable(bytes) && HeaderOk(bytes)
    ensures Tells(ViewOf(bytes), entries, tokens, |EncodedTokens(tokens, names)|, infos, info)
  {
    hide IsBlob, TableOf, Lexed, EndsAt, OneTree, StepAdds, Recordable, HeaderOk, EncodedTokens, ViewOf;
    BlobRoundTrip(bytes, h, entries, tokens, names);
  }
}
