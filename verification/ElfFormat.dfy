/** The bytes of an executable: the file header and the program headers of ELF64, as the
    kernel reads them and as a linker writes them. */
module ElfFormat {
  import opened Common
  import opened Physical
  import opened Loader
  import opened FirstStack

  const MAX_HEADERS: nat := 16
  const HEADER_SIZE: nat := 64
  const PROGRAM_SIZE: nat := 56

  const IDENTITY: seq<Byte> := [0x7f, 69, 76, 70, 2, 1, 1]

  /** A little-endian field of the file. */
  function Field(content: seq<Byte>, at: nat, n: nat): nat
    requires at + n <= |content|
  {
    Value(content[at..at + n])
  }

  /** A 64-bit RISC-V executable whose program table lies in the file. */
  predicate HeaderOk(content: seq<Byte>) {
    && HEADER_SIZE <= |content| && content[..7] == IDENTITY
    && Field(content, 16, 2) == 2 && Field(content, 18, 2) == 243 && Field(content, 20, 4) == 1
    && Field(content, 52, 2) == HEADER_SIZE && Field(content, 54, 2) == PROGRAM_SIZE
    && 0 < Field(content, 56, 2) <= MAX_HEADERS
    && Field(content, 32, 8) + Field(content, 56, 2) * PROGRAM_SIZE <= |content|
  }

  function Count(content: seq<Byte>): nat
    requires HeaderOk(content)
  {
    Field(content, 56, 2)
  }

  function EntryPoint(content: seq<Byte>): nat
    requires HeaderOk(content)
  {
    Field(content, 24, 8)
  }

  function ProgramAt(content: seq<Byte>, i: nat): Program
    requires HeaderOk(content) && i < Count(content)
  {
    var at := Field(content, 32, 8) + i * PROGRAM_SIZE;
    assert at + PROGRAM_SIZE <= |content| by { assert (i + 1) * PROGRAM_SIZE <= Count(content) * PROGRAM_SIZE; }
    Program(Field(content, at, 4), Field(content, at + 4, 4), Field(content, at + 8, 8), Field(content, at + 16, 8),
            Field(content, at + 32, 8), Field(content, at + 40, 8), Field(content, at + 48, 8))
  }

  // ----- the format, as a linker writes it

  /** Little-endian fields of given widths, one after the other. */
  function Fields(fs: seq<(nat, nat)>): seq<Byte> {
    if fs == [] then [] else Fields(fs[..|fs| - 1]) + Le(fs[|fs| - 1].0, fs[|fs| - 1].1)
  }

  /** Where field `k` starts. */
  function Offset(fs: seq<(nat, nat)>, k: nat): nat
    requires k <= |fs|
  {
    if k == 0 then 0 else Offset(fs, k - 1) + fs[k - 1].1
  }

  /** The fields of the file header that a linker chooses; `rest` is the end of the
      identity, which the kernel does not look at. */
  datatype FileHeader = FileHeader(
    rest: seq<Byte>,
    entry: nat,
    tableAt: nat,
    sectionsAt: nat,
    flags: nat,
    count: nat,
    sectionSize: nat,
    sections: nat,
    names: nat)

  /** A program header with all its fields. */
  datatype Segment = Segment(
    kind: nat,
    flags: nat,
    offset: nat,
    vaddr: nat,
    paddr: nat,
    filesz: nat,
    memsz: nat,
    align: nat)

  predicate HeaderFits(h: FileHeader) {
    && |h.rest| == 9 && h.entry < WORD64 && h.tableAt < WORD64 && h.sectionsAt < WORD64 && h.flags < WORD32
    && h.count < 0x1_0000 && h.sectionSize < 0x1_0000 && h.sections < 0x1_0000 && h.names < 0x1_0000
  }

  predicate SegmentFits(p: Segment) {
    && p.kind < WORD32 && p.flags < WORD32 && p.offset < WORD64 && p.vaddr < WORD64 && p.paddr < WORD64
    && p.filesz < WORD64 && p.memsz < WORD64 && p.align < WORD64
  }

  function HeaderFields(h: FileHeader): seq<(nat, nat)> {
    [(2, 2), (243, 2), (1, 4), (h.entry, 8), (h.tableAt, 8), (h.sectionsAt, 8), (h.flags, 4), (64, 2), (56, 2),
     (h.count, 2), (h.sectionSize, 2), (h.sections, 2), (h.names, 2)]
  }

  function SegmentFields(p: Segment): seq<(nat, nat)> {
    [(p.kind, 4), (p.flags, 4), (p.offset, 8), (p.vaddr, 8), (p.paddr, 8), (p.filesz, 8), (p.memsz, 8), (p.align, 8)]
  }

  /** The identity of a little-endian 64-bit file, then the fields in the order of the ABI. */
  function EncodedHeader(h: FileHeader): seq<Byte> {
    [0x7f, 69, 76, 70, 2, 1, 1] + h.rest + Fields(HeaderFields(h))
  }

  function EncodedSegment(p: Segment): seq<Byte> {
    Fields(SegmentFields(p))
  }

  /** The file starts with that header and has those segments in its program table. */
  ghost predicate IsElf(content: seq<Byte>, h: FileHeader, ps: seq<Segment>) {
    && HeaderFits(h) && |ps| == h.count && 64 <= |content| && content[..64] == EncodedHeader(h)
    && h.tableAt + 56 * |ps| <= |content|
    && forall i :: 0 <= i < |ps| ==> SegmentFits(ps[i]) && InSlot(content, h.tableAt, i, ps[i])
  }

  ghost predicate InSlot(content: seq<Byte>, tableAt: nat, i: nat, p: Segment) {
    var at := tableAt + 56 * i; at + 56 <= |content| && content[at..at + 56] == EncodedSegment(p)
  }

  // ----- what is written is read

  lemma {:induction false} OffsetPrefix(fs: seq<(nat, nat)>, n: nat, k: nat)
    requires k <= n <= |fs|
    ensures Offset(fs[..n], k) == Offset(fs, k)
  {
    if k > 0 { OffsetPrefix(fs, n, k - 1); }
  }

  lemma {:induction false} FieldsLength(fs: seq<(nat, nat)>)
    ensures |Fields(fs)| == Offset(fs, |fs|)
  {
    if fs != [] {
      var n := |fs| - 1;
      FieldsLength(fs[..n]);
      OffsetPrefix(fs, n, n);
    }
  }

  lemma {:induction false} OffsetGrows(fs: seq<(nat, nat)>, k: nat, n: nat)
    requires k <= n <= |fs|
    ensures Offset(fs, k) <= Offset(fs, n)
  {
    if k < n { OffsetGrows(fs, k, n - 1); }
  }

  /** Each field stands at its offset. */
  lemma {:induction false} FieldStands(fs: seq<(nat, nat)>, k: nat)
    requires k < |fs|
    ensures Offset(fs, k) + fs[k].1 <= |Fields(fs)|
    ensures Fields(fs)[Offset(fs, k)..Offset(fs, k) + fs[k].1] == Le(fs[k].0, fs[k].1)
  {
    hide Fields, Offset, Le;
    var n := |fs| - 1;
    var front, last := Fields(fs[..n]), Le(fs[n].0, fs[n].1);
    FieldsEnd(fs);
    if k < n {
      FieldStands(fs[..n], k);
      OffsetPrefix(fs, n, k);
      Before(front, last, Offset(fs, k), fs[k].1);
    }
  }

  /** The last field stands behind the others. */
  lemma FieldsEnd(fs: seq<(nat, nat)>)
    requires fs != []
    ensures var n := |fs| - 1;
            && Fields(fs) == Fields(fs[..n]) + Le(fs[n].0, fs[n].1) && |Fields(fs[..n])| == Offset(fs, n)
            && Fields(fs)[Offset(fs, n)..] == Le(fs[n].0, fs[n].1)
            && Fields(fs)[Offset(fs, n)..Offset(fs, n) + fs[n].1] == Le(fs[n].0, fs[n].1)
  {
    hide Offset, Le;
    var n := |fs| - 1;
    FieldsLength(fs[..n]);
    OffsetPrefix(fs, n, n);
    Behind(Fields(fs[..n]), Le(fs[n].0, fs[n].1));
  }

  lemma Behind(front: seq<Byte>, last: seq<Byte>)
    ensures (front + last)[|front|..] == last && (front + last)[|front|..|front| + |last|] == last
  {
  }

  lemma Before(front: seq<Byte>, last: seq<Byte>, i: nat, n: nat)
    requires i + n <= |front|
    ensures (front + last)[i..i + n] == front[i..i + n]
  {
  }

  /** The kernel reads the value that was written. */
  lemma FieldRead(content: seq<Byte>, at: nat, fs: seq<(nat, nat)>, k: nat)
    requires at + |Fields(fs)| <= |content| && content[at..at + |Fields(fs)|] == Fields(fs) && k < |fs|
    requires fs[k].0 < Power256(fs[k].1)
    ensures at + Offset(fs, k) + fs[k].1 <= |content| && Field(content, at + Offset(fs, k), fs[k].1) == fs[k].0
  {
    hide Fields, Offset, Le, Value;
    FieldStands(fs, k);
    WordRoundTrip(fs[k].0, fs[k].1);
    var o, w := Offset(fs, k), fs[k].1;
    PieceStands(content, at, Fields(fs), o, w);
  }

  lemma Powers()
    ensures Power256(2) == 0x1_0000 && Power256(4) == WORD32 && Power256(8) == WORD64
  {
    Power8();
  }

  lemma SegmentOffsets(p: Segment)
    ensures var fs := SegmentFields(p);
            && Offset(fs, 0) == 0 && Offset(fs, 1) == 4 && Offset(fs, 2) == 8 && Offset(fs, 3) == 16
            && Offset(fs, 4) == 24
            && Offset(fs, 5) == 32 && Offset(fs, 6) == 40 && Offset(fs, 7) == 48 && Offset(fs, 8) == 56
  {
    var fs := SegmentFields(p);
    assert Offset(fs, 1) == 4;
    assert Offset(fs, 3) == 16;
    assert Offset(fs, 5) == 32;
    assert Offset(fs, 7) == 48;
  }

  lemma HeaderOffsets(h: FileHeader)
    ensures var fs := HeaderFields(h);
            && Offset(fs, 0) == 0 && Offset(fs, 1) == 2 && Offset(fs, 2) == 4 && Offset(fs, 3) == 8
            && Offset(fs, 4) == 16
            && Offset(fs, 5) == 24 && Offset(fs, 6) == 32 && Offset(fs, 7) == 36 && Offset(fs, 8) == 38
            && Offset(fs, 9) == 40 && Offset(fs, 10) == 42 && Offset(fs, 11) == 44 && Offset(fs, 12) == 46
            && Offset(fs, 13) == 48
  {
    var fs := HeaderFields(h);
    assert Offset(fs, 1) == 2;
    assert Offset(fs, 3) == 8;
    assert Offset(fs, 5) == 24;
    assert Offset(fs, 7) == 36;
    assert Offset(fs, 9) == 40;
    assert Offset(fs, 11) == 44;
  }

  /** A segment as the kernel keeps it. */
  function Kept(p: Segment): Program {
    Program(p.kind, p.flags, p.offset, p.vaddr, p.filesz, p.memsz, p.align)
  }

  lemma SegmentRead(content: seq<Byte>, at: nat, p: Segment)
    requires SegmentFits(p) && at + 56 <= |content| && content[at..at + 56] == EncodedSegment(p)
    ensures Field(content, at, 4) == p.kind && Field(content, at + 4, 4) == p.flags
    ensures Field(content, at + 8, 8) == p.offset && Field(content, at + 16, 8) == p.vaddr
    ensures Field(content, at + 32, 8) == p.filesz && Field(content, at + 40, 8) == p.memsz
    ensures Field(content, at + 48, 8) == p.align
  {
    hide Fields, Offset, Field;
    var fs := SegmentFields(p);
    Powers();
    SegmentOffsets(p);
    FieldsLength(fs);
    FieldRead(content, at, fs, 0);
    FieldRead(content, at, fs, 1);
    FieldRead(content, at, fs, 2);
    FieldRead(content, at, fs, 3);
    FieldRead(content, at, fs, 5);
    FieldRead(content, at, fs, 6);
    FieldRead(content, at, fs, 7);
  }

  lemma HeaderRead(content: seq<Byte>, h: FileHeader)
    requires HeaderFits(h) && 64 <= |content| && content[..64] == EncodedHeader(h)
    ensures content[..7] == IDENTITY && Field(content, 16, 2) == 2 && Field(content, 18, 2) == 243
    ensures Field(content, 20, 4) == 1 && Field(content, 24, 8) == h.entry && Field(content, 32, 8) == h.tableAt
    ensures Field(content, 52, 2) == 64 && Field(content, 54, 2) == 56 && Field(content, 56, 2) == h.count
  {
    hide Fields, Offset, Field;
    var fs := HeaderFields(h);
    Powers();
    HeaderOffsets(h);
    FieldsLength(fs);
    assert content[16..64] == content[..64][16..] == Fields(fs);
    assert content[..7] == content[..64][..7];
    FieldRead(content, 16, fs, 0);
    FieldRead(content, 16, fs, 1);
    FieldRead(content, 16, fs, 2);
    FieldRead(content, 16, fs, 3);
    FieldRead(content, 16, fs, 4);
    FieldRead(content, 16, fs, 7);
    FieldRead(content, 16, fs, 8);
    FieldRead(content, 16, fs, 9);
  }

  /** Reading gives back what was written: the file is accepted exactly when it has between
      one and sixteen program headers, and then count, entry and every header are the
      linker's. */
  lemma ElfRoundTrip(content: seq<Byte>, h: FileHeader, ps: seq<Segment>)
    requires IsElf(content, h, ps)
    ensures HeaderOk(content) <==> 0 < |ps| <= 16
    ensures HeaderOk(content) ==>
              && Count(content) == |ps| && EntryPoint(content) == h.entry
              && forall i :: 0 <= i < |ps| ==> ProgramAt(content, i) == Kept(ps[i])
  {
    hide EncodedHeader, EncodedSegment, Field, HeaderFits;
    HeaderRead(content, h);
    if HeaderOk(content) {
      forall i | 0 <= i < |ps| ensures ProgramAt(content, i) == Kept(ps[i]) {
        SegmentRead(content, h.tableAt + 56 * i, ps[i]);
      }
    }
  }

  /** The segments, one after the other. */
  function EncodedTable(ps: seq<Segment>): seq<Byte> {
    if ps == [] then [] else EncodedTable(ps[..|ps| - 1]) + EncodedSegment(ps[|ps| - 1])
  }

  /** The length of the fields is that of the ABI's structures. */
  lemma Lengths(h: FileHeader, p: Segment)
    ensures |h.rest| == 9 ==> |EncodedHeader(h)| == 64
    ensures |EncodedSegment(p)| == 56
  {
    hide Fields, Offset;
    FieldsLength(HeaderFields(h));
    HeaderOffsets(h);
    FieldsLength(SegmentFields(p));
    SegmentOffsets(p);
  }

  lemma {:induction false} TableStands(ps: seq<Segment>, i: nat)
    ensures |EncodedTable(ps)| == 56 * |ps|
    ensures i < |ps| ==> EncodedTable(ps)[56 * i..56 * i + 56] == EncodedSegment(ps[i])
  {
    hide EncodedSegment;
    if ps != [] {
      var n := |ps| - 1;
      Lengths(FileHeader([], 0, 0, 0, 0, 0, 0, 0, 0), ps[n]);
      TableStands(ps[..n], i);
      if i < n {
        assert ps[..n][i] == ps[i];
        assert EncodedTable(ps)[56 * i..56 * i + 56] == EncodedTable(ps[..n])[56 * i..56 * i + 56];
      }
    }
  }

  /** A file put together from its parts, the table wherever the header says, has them. */
  lemma WrittenIsElf(h: FileHeader, ps: seq<Segment>, between: seq<Byte>, after: seq<Byte>)
    requires HeaderFits(h) && h.count == |ps| && h.tableAt == 64 + |between|
    requires forall i :: 0 <= i < |ps| ==> SegmentFits(ps[i])
    ensures IsElf(EncodedHeader(h) + between + EncodedTable(ps) + after, h, ps)
  {
    hide EncodedHeader, EncodedSegment, EncodedTable, SegmentFits;
    var content := EncodedHeader(h) + between + EncodedTable(ps) + after;
    Lengths(h, Segment(0, 0, 0, 0, 0, 0, 0, 0));
    TableStands(ps, |ps|);
    assert content[..64] == EncodedHeader(h);
    forall i | 0 <= i < |ps| ensures InSlot(content, h.tableAt, i, ps[i]) {
      TableStands(ps, i);
      Within(EncodedHeader(h) + between, EncodedTable(ps), after, 56 * i, 56);
    }
  }

  lemma Within(before: seq<Byte>, part: seq<Byte>, after: seq<Byte>, i: nat, n: nat)
    requires i + n <= |part|
    ensures (before + part + after)[|before| + i..|before| + i + n] == part[i..i + n]
  {
  }

  // ----- and every file that is accepted was so written

  lemma {:induction false} LeValue(s: seq<Byte>)
    ensures Le(Value(s), |s|) == s && Value(s) < Power256(|s|)
  {
    if s != [] {
      LeValue(s[1..]);
      assert s == [s[0]] + s[1..];
    }
  }

  /** Bytes whose every field reads as a value are those fields. */
  lemma {:induction false} FieldsAre(s: seq<Byte>, fs: seq<(nat, nat)>)
    requires |s| == Offset(fs, |fs|)
    requires forall k :: 0 <= k < |fs| ==> Stands(s, fs, k)
    ensures s == Fields(fs)
    decreases |fs|
  {
    hide Stands, Value;
    if fs != [] {
      var n := |fs| - 1;
      OffsetPrefix(fs, n, n);
      forall k | 0 <= k < n ensures Stands(s[..Offset(fs, n)], fs[..n], k) {
        StandsBefore(s, fs, k);
      }
      FieldsAre(s[..Offset(fs, n)], fs[..n]);
      LastStands(s, fs);
      assert s == s[..Offset(fs, n)] + s[Offset(fs, n)..];
    }
  }

  lemma StandsBefore(s: seq<Byte>, fs: seq<(nat, nat)>, k: nat)
    requires k < |fs| - 1 && Stands(s, fs, k) && Offset(fs, |fs| - 1) <= |s|
    ensures Stands(s[..Offset(fs, |fs| - 1)], fs[..|fs| - 1], k)
  {
    hide Offset, Value;
    var n := |fs| - 1;
    OffsetPrefix(fs, n, k);
    OffsetAfter(fs, k);
    OffsetGrows(fs, k + 1, n);
    var o, w := Offset(fs, k), fs[k].1;
    assert s[..Offset(fs, n)][o..o + w] == s[o..o + w];
  }

  lemma OffsetAfter(fs: seq<(nat, nat)>, k: nat)
    requires k < |fs|
    ensures Offset(fs, k + 1) == Offset(fs, k) + fs[k].1
  {
  }

  lemma LastStands(s: seq<Byte>, fs: seq<(nat, nat)>)
    requires fs != [] && |s| == Offset(fs, |fs|) && Stands(s, fs, |fs| - 1)
    ensures var n := |fs| - 1; Offset(fs, n) <= |s| && s[Offset(fs, n)..] == Le(fs[n].0, fs[n].1)
  {
    hide Offset, Value, Le;
    var n := |fs| - 1;
    OffsetAfter(fs, n);
    assert s[Offset(fs, n)..] == s[Offset(fs, n)..Offset(fs, n) + fs[n].1];
    LeValue(s[Offset(fs, n)..]);
  }

  ghost predicate Stands(s: seq<Byte>, fs: seq<(nat, nat)>, k: nat)
    requires k < |fs|
  {
    Offset(fs, k) + fs[k].1 <= |s| && Value(s[Offset(fs, k)..Offset(fs, k) + fs[k].1]) == fs[k].0
  }

  /** The segment in a slot of the table. */
  function SegmentAt(content: seq<Byte>, at: nat): Segment
    requires at + 56 <= |content|
  {
    Segment(Field(content, at, 4), Field(content, at + 4, 4), Field(content, at + 8, 8), Field(content, at + 16, 8),
            Field(content, at + 24, 8), Field(content, at + 32, 8), Field(content, at + 40, 8),
            Field(content, at + 48, 8))
  }

  lemma FieldBound(content: seq<Byte>, at: nat, n: nat)
    requires at + n <= |content|
    ensures Field(content, at, n) < Power256(n)
  {
    LeValue(content[at..at + n]);
  }

  /** A field of the file is the same field of the part that holds it. */
  lemma PartField(content: seq<Byte>, at: nat, size: nat, o: nat, n: nat)
    requires at + size <= |content| && o + n <= size
    ensures Value(content[at..at + size][o..o + n]) == Field(content, at + o, n)
  {
    hide Value;
    var part := content[at..at + size];
    var a, b := part[o..o + n], content[at + o..at + o + n];
    forall i | 0 <= i < n ensures a[i] == b[i] {
      assert part[o + i] == content[at + (o + i)];
    }
    assert a == b;
  }

  lemma SegmentWritten(content: seq<Byte>, at: nat)
    requires at + 56 <= |content|
    ensures SegmentFits(SegmentAt(content, at)) && content[at..at + 56] == EncodedSegment(SegmentAt(content, at))
  {
    hide Field, Offset, Value, Fields;
    var p := SegmentAt(content, at);
    var fs, s := SegmentFields(p), content[at..at + 56];
    Powers();
    SegmentOffsets(p);
    forall k | 0 <= k < |fs| ensures Stands(s, fs, k) && fs[k].0 < Power256(fs[k].1) {
      PartField(content, at, 56, Offset(fs, k), fs[k].1);
      FieldBound(content, at + Offset(fs, k), fs[k].1);
    }
    FieldsAre(s, fs);
    assert p.kind == fs[0].0 && p.flags == fs[1].0 && p.offset == fs[2].0 && p.vaddr == fs[3].0 && p.paddr == fs[4].0;
    assert p.filesz == fs[5].0 && p.memsz == fs[6].0 && p.align == fs[7].0;
  }

  function HeaderAt(content: seq<Byte>): FileHeader
    requires 64 <= |content|
  {
    FileHeader(content[7..16], Field(content, 24, 8), Field(content, 32, 8), Field(content, 40, 8),
               Field(content, 48, 4),
               Field(content, 56, 2), Field(content, 58, 2), Field(content, 60, 2), Field(content, 62, 2))
  }

  lemma HeaderWritten(content: seq<Byte>)
    requires HeaderOk(content)
    ensures HeaderFits(HeaderAt(content)) && content[..64] == EncodedHeader(HeaderAt(content))
  {
    hide Field, Offset, Value, Fields;
    var h := HeaderAt(content);
    var fs, s := HeaderFields(h), content[16..64];
    Powers();
    HeaderOffsets(h);
    forall k | 0 <= k < |fs| ensures Stands(s, fs, k) && fs[k].0 < Power256(fs[k].1) {
      PartField(content, 16, 48, Offset(fs, k), fs[k].1);
      FieldBound(content, 16 + Offset(fs, k), fs[k].1);
    }
    FieldsAre(s, fs);
    assert h.entry == fs[3].0 && h.tableAt == fs[4].0 && h.sectionsAt == fs[5].0 && h.flags == fs[6].0;
    assert h.count == fs[9].0 && h.sectionSize == fs[10].0 && h.sections == fs[11].0 && h.names == fs[12].0;
    assert content[..64] == content[..7] + content[7..16] + content[16..64];
  }

  /** Every file the kernel takes for an executable is what a linker writes. */
  lemma AcceptedIsElf(content: seq<Byte>) returns (h: FileHeader, ps: seq<Segment>)
    requires HeaderOk(content)
    ensures IsElf(content, h, ps)
  {
    hide EncodedHeader, EncodedSegment, Field, HeaderFits, SegmentFits, SegmentAt;
    h := HeaderAt(content);
    HeaderWritten(content);
    assert h.tableAt + 56 * h.count <= |content|;
    ps := seq(h.count, i requires 0 <= i < h.count => Slot(content, h.tableAt, i));
    forall i | 0 <= i < |ps| ensures SegmentFits(ps[i]) && InSlot(content, h.tableAt, i, ps[i]) {
      assert h.tableAt + 56 * i + 56 <= |content|;
      SegmentWritten(content, h.tableAt + 56 * i);
    }
  }

  function Slot(content: seq<Byte>, tableAt: nat, i: nat): Segment {
    if tableAt + 56 * i + 56 <= |content| then SegmentAt(content, tableAt + 56 * i) else Segment(0, 0, 0, 0, 0, 0, 0, 0)
  }
}
