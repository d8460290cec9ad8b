/** The device tree blob: its header, the reservation table, and the token stream
    of the structure block. */
module Fdt {
  import opened Common
  import opened Physical
  import opened Dtb

  const HEADER_SIZE: nat := 40
  const MAX_SIZE: nat := 16 * 1024 * 1024
  const MAX_DEPTH: nat := 32
  const MAX_MEMORY: nat := 8
  const MAX_RESERVED: nat := 16
  const MAX_VIRTIO: nat := 16

  /** The blocks of a blob, as declared by its header. */
  datatype View = View(blob: seq<Byte>, structureAt: nat, structure: seq<Byte>, stringsAt: nat, strings: seq<Byte>,
                       reservationAt: nat)

  predicate Overlap(a: nat, aSize: nat, b: nat, bSize: nat) {
    a < b + bSize && b < a + aSize
  }

  /** The blocks lie inside the blob, are aligned, and do not overlap. */
  predicate ViewOk(v: View) {
    && HEADER_SIZE <= |v.blob| <= MAX_SIZE
    && HEADER_SIZE <= v.structureAt && v.structureAt % 4 == 0 && v.structureAt + |v.structure| <= |v.blob|
    && v.structure == v.blob[v.structureAt..v.structureAt + |v.structure|]
    && HEADER_SIZE <= v.stringsAt && v.stringsAt + |v.strings| <= |v.blob|
    && v.strings == v.blob[v.stringsAt..v.stringsAt + |v.strings|]
    && HEADER_SIZE <= v.reservationAt && v.reservationAt % 8 == 0 && v.reservationAt + 16 <= |v.blob|
    && !Overlap(v.structureAt, |v.structure|, v.stringsAt, |v.strings|)
  }

  /** The header is in memory, and so is as much as it declares. */
  predicate Readable(bytes: seq<Byte>) {
    HEADER_SIZE <= |bytes| && (Be32(bytes, 4) <= MAX_SIZE ==> Be32(bytes, 4) <= |bytes|)
  }

  /** A header of the right version whose blocks lie in the blob. */
  predicate HeaderOk(bytes: seq<Byte>)
    requires Readable(bytes)
  {
    && Be32(bytes, 0) == 0xd00dfeed && Be32(bytes, 20) >= 17 && Be32(bytes, 24) <= 17
    && HEADER_SIZE <= Be32(bytes, 4) <= MAX_SIZE
    && HEADER_SIZE <= Be32(bytes, 8) && Be32(bytes, 8) % 4 == 0 && Be32(bytes, 8) + Be32(bytes, 36) <= Be32(bytes, 4)
    && HEADER_SIZE <= Be32(bytes, 12) && Be32(bytes, 12) + Be32(bytes, 32) <= Be32(bytes, 4)
    && HEADER_SIZE <= Be32(bytes, 16) && Be32(bytes, 16) % 8 == 0 && Be32(bytes, 16) + 16 <= Be32(bytes, 4)
    && !Overlap(Be32(bytes, 8), Be32(bytes, 36), Be32(bytes, 12), Be32(bytes, 32))
  }

  /** The blocks that such a header declares. */
  function ViewOf(bytes: seq<Byte>): View
    requires Readable(bytes) && HeaderOk(bytes)
  {
    View(bytes[..Be32(bytes, 4)], Be32(bytes, 8), bytes[Be32(bytes, 8)..Be32(bytes, 8) + Be32(bytes, 36)],
         Be32(bytes, 12), bytes[Be32(bytes, 12)..Be32(bytes, 12) + Be32(bytes, 32)], Be32(bytes, 16))
  }

  /** Checks the header. The caller vouches for the header and for as many bytes as it declares. */
  method ValidateHeader(bytes: seq<Byte>) returns (r: Result<View>)
    requires Readable(bytes)
    ensures r.Ok? <==> HeaderOk(bytes)
    ensures r.Ok? ==> r.value == ViewOf(bytes) && ViewOk(r.value)
  {
    hide Be32;
    if Be32(bytes, 0) != 0xd00dfeed {
      return Err(MAGIC);
    }
    var total, structureAt, stringsAt, reservationAt := Be32(bytes, 4), Be32(bytes, 8), Be32(bytes, 12),
        Be32(bytes, 16);
    var version, compatible, stringsSize, structureSize := Be32(bytes, 20), Be32(bytes, 24), Be32(bytes, 32),
        Be32(bytes, 36);
    if version < 17 || compatible > 17 {
      return Err(VERSION);
    }
    if total < HEADER_SIZE || total > MAX_SIZE {
      return Err(BOUNDS);
    }
    if structureAt < HEADER_SIZE || stringsAt < HEADER_SIZE || reservationAt < HEADER_SIZE || structureAt % 4 != 0
       || reservationAt % 8 != 0
      || !Within(total, structureAt, structureSize) || !Within(total, stringsAt, stringsSize)
      || !Within(total, reservationAt, 16)
      || Overlap(structureAt, structureSize, stringsAt, stringsSize) {
      return Err(BOUNDS);
    }
    var blob := bytes[..total];
    assert blob[structureAt..structureAt + structureSize] == bytes[structureAt..structureAt + structureSize];
    assert blob[stringsAt..stringsAt + stringsSize] == bytes[stringsAt..stringsAt + stringsSize];
    r := Ok(View(blob, structureAt, blob[structureAt..structureAt + structureSize], stringsAt,
                 blob[stringsAt..stringsAt + stringsSize], reservationAt));
  }

  predicate Within(total: nat, offset: nat, length: nat) {
    offset <= total && length <= total - offset
  }

  // ----- tokens

  datatype Token = Begin(name: seq<Byte>) | End | Prop(name: seq<Byte>, value: seq<Byte>) | Nop

  datatype Lexeme = Next(token: Token, at: nat) | Finish | Bad(error: Error)

  /** The distance to the first zero from an offset, if there is one. */
  function ZeroFrom(bytes: seq<Byte>, at: nat): (n: Option<nat>)
    requires at <= |bytes|
    ensures n.Some? ==>
              at + n.value < |bytes| && bytes[at + n.value] == 0 && forall i :: at <= i < at + n.value ==> bytes[i] != 0
    ensures n.None? ==> forall i :: at <= i < |bytes| ==> bytes[i] != 0
    decreases |bytes| - at
  {
    if at == |bytes| then None
    else if bytes[at] == 0 then Some(0)
    else
      var rest := ZeroFrom(bytes, at + 1);
      if rest.None? then None else Some(rest.value + 1)
  }

  /** The token at an offset of the structure block, and where the next one starts. */
  function Lex(v: View, at: nat): (l: Lexeme)
    requires at + 4 <= |v.structure|
    ensures l.Next? ==> l.at > at
  {
    var word, next := Be32(v.structure, at), at + 4;
    if word == 1 then
      var n := ZeroFrom(v.structure, next);
      if n.None? then Bad(BOUNDS) else Next(Begin(v.structure[next..next + n.value]), RoundUp4(next + n.value + 1))
    else if word == 2 then Next(End, next)
    else if word == 3 then
      if next + 8 > |v.structure| then Bad(STRUCTURE)
      else
        var length, nameAt, value := Be32(v.structure, next), Be32(v.structure, next + 4), next + 8;
        if value + length > |v.structure| || nameAt >= |v.strings| then Bad(BOUNDS)
        else
          var n := ZeroFrom(v.strings, nameAt);
          if n.None? then Bad(BOUNDS)
          else Next(Prop(v.strings[nameAt..nameAt + n.value], v.structure[value..value + length]),
                    RoundUp4(value + length))
    else if word == 4 then Next(Nop, next)
    else if word == 9 then Finish
    else Bad(STRUCTURE)
  }

  /** The tokens of the block from an offset up to its end mark. */
  ghost predicate Lexed(v: View, at: nat, tokens: seq<Token>, end: nat)
    decreases |tokens|
  {
    if tokens == [] then at == end
    else
      && at + 4 <= |v.structure|
      && var l := Lex(v, at);
      && l.Next? && l.token == tokens[0] && Lexed(v, l.at, tokens[1..], end)
  }

  ghost predicate EndsAt(v: View, at: nat) {
    at + 4 <= |v.structure| && Lex(v, at).Finish?
  }

  lemma {:induction false} LexedMore(v: View, at: nat, tokens: seq<Token>, end: nat)
    requires Lexed(v, at, tokens, end) && end + 4 <= |v.structure| && Lex(v, end).Next?
    ensures Lexed(v, at, tokens + [Lex(v, end).token], Lex(v, end).at)
    decreases |tokens|
  {
    hide Lex;
    var t := Lex(v, end).token;
    if tokens == [] {
      assert [] + [t] == [t];
      assert [t][1..] == [];
    } else {
      LexedMore(v, Lex(v, at).at, tokens[1..], end);
      assert (tokens + [t])[1..] == tokens[1..] + [t];
    }
  }

  // ----- nesting

  /** How many nodes are open. */
  function Level(tokens: seq<Token>): int {
    if tokens == [] then 0
    else
      Level(tokens[..|tokens| - 1]) + (match tokens[|tokens| - 1] case Begin(_) => 1 case End => -1 case _ => 0)
  }

  /** How many nodes were opened outside all others. */
  function Roots(tokens: seq<Token>): nat {
    if tokens == [] then 0
    else Roots(tokens[..|tokens| - 1]) + if tokens[|tokens| - 1].Begin? && Level(tokens[..|tokens| - 1]) == 0 then 1
                                         else 0
  }

  /** Nodes nest, properties lie inside nodes, no more than 32 are open at a time,
      and outermost nodes have no name. */
  ghost predicate Nested(tokens: seq<Token>) {
    forall k :: 0 <= k < |tokens| ==> NestedAt(tokens, k)
  }

  predicate NestedAt(tokens: seq<Token>, k: nat)
    requires k < |tokens|
  {
    var level := Level(tokens[..k]);
    match tokens[k]
    case Begin(name) => 0 <= level < MAX_DEPTH && (level == 0 ==> name == [])
    case End => level > 0
    case Prop(_, _) => level > 0
    case Nop => true
  }

  lemma LevelMore(tokens: seq<Token>, t: Token)
    ensures Level(tokens + [t]) == Level(tokens) + (match t case Begin(_) => 1 case End => -1 case _ => 0)
    ensures Roots(tokens + [t]) == Roots(tokens) + if t.Begin? && Level(tokens) == 0 then 1 else 0
  {
    assert (tokens + [t])[..|tokens|] == tokens;
  }

  lemma NestedMore(tokens: seq<Token>, t: Token)
    requires Nested(tokens)
    requires match t
             case Begin(name) => 0 <= Level(tokens) < MAX_DEPTH && (Level(tokens) == 0 ==> name == [])
             case Nop => true
             case _ => Level(tokens) > 0
    ensures Nested(tokens + [t])
  {
    var more := tokens + [t];
    forall k | 0 <= k < |more| ensures NestedAt(more, k) {
      if k < |tokens| {
        assert more[..k] == tokens[..k] && NestedAt(tokens, k);
      } else {
        assert more[..k] == tokens;
      }
    }
  }

  lemma {:induction false} RootsGrow(tokens: seq<Token>, k: nat)
    requires k <= |tokens|
    ensures Roots(tokens[..k]) <= Roots(tokens)
    decreases |tokens|
  {
    if k == |tokens| {
      assert tokens[..k] == tokens;
    } else {
      RootsGrow(tokens[..|tokens| - 1], k);
      assert tokens[..|tokens| - 1][..k] == tokens[..k];
    }
  }

  /** The tokens read so far begin every complete reading. */
  lemma {:induction false} LexedPrefix(v: View, from: nat, tokens: seq<Token>, at: nat, all: seq<Token>, end: nat)
    requires Lexed(v, from, tokens, at) && Lexed(v, from, all, end) && EndsAt(v, end)
    ensures |tokens| <= |all| && all[..|tokens|] == tokens && Lexed(v, at, all[|tokens|..], end)
    decreases |tokens|
  {
    hide Lex;
    if tokens != [] {
      LexedPrefix(v, Lex(v, from).at, tokens[1..], at, all[1..], end);
      assert all == [all[0]] + all[1..];
      assert all[1..][|tokens| - 1..] == all[|tokens|..];
    } else {
      assert all[0..] == all;
    }
  }

  /** One complete root node, every node closed. */
  ghost predicate OneTree(tokens: seq<Token>) {
    Nested(tokens) && Level(tokens) == 0 && Roots(tokens) == 1
  }

  // ----- the open nodes

  function Ascii(s: string): (bytes: seq<Byte>)
    ensures |bytes| == |s| && forall i :: 0 <= i < |s| && s[i] as int < 256 ==> bytes[i] as int == s[i] as int
  {
    seq(|s|, i requires 0 <= i < |s| => s[i] as int % 256)
  }

  function NewNode(name: seq<Byte>, depth: nat): Node {
    Node(name, 2, 1, None, None, [], None, None, None, None, depth == 1 && name == Ascii("reserved-memory"),
         depth == 1 && name == Ascii("cpus"))
  }

  /** Cell counts and the clock frequency must be one cell. */
  predicate PropOk(node: Node, name: seq<Byte>, value: seq<Byte>) {
    (name == Ascii("#address-cells") || name == Ascii("#size-cells")
     || (node.cpus && name == Ascii("timebase-frequency"))) ==> |value| == 4
  }

  /** A property takes the place of an earlier one of the same name; others are ignored. */
  function WithProp(node: Node, name: seq<Byte>, value: seq<Byte>): Node {
    if name == Ascii("#address-cells") then (if |value| == 4 then node.(addressCells := Be32(value, 0)) else node)
    else if name == Ascii("#size-cells") then (if |value| == 4 then node.(sizeCells := Be32(value, 0)) else node)
    else if name == Ascii("ranges") then node.(ranges := Some(value))
    else if name == Ascii("reg") then node.(reg := Some(value))
    else if name == Ascii("compatible") then node.(compatible := value)
    else if name == Ascii("device_type") then node.(deviceType := Some(value))
    else if name == Ascii("status") then node.(status := Some(value))
    else if name == Ascii("interrupts") then node.(interrupts := Some(value))
    else if name == Ascii("riscv,ndev") then node.(sources := Some(value))
    else node
  }

  function Opened(path: seq<Node>, t: Token): seq<Node> {
    match t
    case Begin(name) => path + [NewNode(name, |path|)]
    case End => if path == [] then [] else path[..|path| - 1]
    case Prop(name, value) => if path == [] then [] else path[|path| - 1 := WithProp(path[|path| - 1], name, value)]
    case Nop => path
  }

  /** The nodes open after some tokens, from the root inwards. */
  function PathAfter(tokens: seq<Token>): seq<Node> {
    if tokens == [] then [] else Opened(PathAfter(tokens[..|tokens| - 1]), tokens[|tokens| - 1])
  }

  lemma PathMore(tokens: seq<Token>, t: Token)
    ensures PathAfter(tokens + [t]) == Opened(PathAfter(tokens), t)
  {
    assert (tokens + [t])[..|tokens|] == tokens;
  }

  // ----- what is collected

  datatype Info = Info(
    memory: seq<Range>,
    reserved: seq<Range>,
    uart: Option<Range>,
    uartIrq: nat,
    plic: Option<Range>,
    plicSources: nat,
    virtio: seq<Range>,
    virtioIrqs: seq<nat>,
    timebase: nat)

  predicate Says(value: seq<Byte>, text: string) {
    value == Ascii(text) + [0]
  }

  predicate Enabled(node: Node) {
    node.status.None? || Says(node.status.value, "okay") || Says(node.status.value, "ok")
  }

  predicate IsMemory(path: seq<Node>) {
    path != [] && var node := path[|path| - 1];
    Enabled(node) && node.deviceType.Some? && Says(node.deviceType.value, "memory")
  }

  predicate IsReserved(path: seq<Node>) {
    |path| >= 2 && Enabled(path[|path| - 1]) && path[|path| - 2].reservedMemory && path[|path| - 1].reg.Some?
  }

  /** One of the strings of a list, each ended by a zero. */
  function HasString(list: seq<Byte>, at: nat, wanted: seq<Byte>): bool
    requires at <= |list|
    decreases |list| - at
  {
    if at == |list| then false
    else
      var n := ZeroFrom(list, at);
      if n.None? then false
      else list[at..at + n.value] == wanted || HasString(list, at + n.value + 1, wanted)
  }

  predicate Compatible(node: Node, text: string) {
    HasString(node.compatible, 0, Ascii(text))
  }

  predicate IsUart(path: seq<Node>) {
    path != [] && var node := path[|path| - 1];
    Enabled(node) && (Compatible(node, "ns16550a") || Compatible(node, "sifive,uart0"))
  }

  predicate IsPlic(path: seq<Node>) {
    path != [] && var node := path[|path| - 1];
    Enabled(node) && (Compatible(node, "sifive,plic-1.0.0") || Compatible(node, "riscv,plic0"))
  }

  predicate IsVirtio(path: seq<Node>) {
    path != [] && Enabled(path[|path| - 1]) && Compatible(path[|path| - 1], "virtio,mmio")
  }

  /** The one window of a device. */
  function OneReg(path: seq<Node>): Result<Range>
    requires path != []
  {
    match RegAll(path, [], 1)
    case Err(e) => Err(e)
    case Ok(ranges) => if |ranges| == 1 then Ok(ranges[0]) else Err(PROPERTY)
  }

  function WithMemory(path: seq<Node>, info: Info): Result<Info>
    requires path != []
  {
    if !IsMemory(path) then Ok(info)
    else match RegAll(path, info.memory, MAX_MEMORY) case Err(e) => Err(e)
      case Ok(ranges) => Ok(info.(memory := ranges))
  }

  function WithReserved(path: seq<Node>, info: Info): Result<Info>
    requires path != []
  {
    if !IsReserved(path) then Ok(info)
    else match RegAll(path, info.reserved, MAX_RESERVED) case Err(e) => Err(e)
      case Ok(ranges) => Ok(info.(reserved := ranges))
  }

  /** An optional property of exactly one cell. */
  function OneCell(value: Option<seq<Byte>>, before: nat, e: Error): Result<nat> {
    if value.None? then Ok(before) else if |value.value| != 4 then Err(e) else Ok(Be32(value.value, 0))
  }

  function WithUart(path: seq<Node>, info: Info): Result<Info>
    requires path != []
  {
    if !IsUart(path) then Ok(info)
    else if info.uart.Some? then Err(CAPACITY)
    else
      match OneReg(path)
      case Err(e) => Err(e)
      case Ok(r) =>
        match OneCell(path[|path| - 1].interrupts, info.uartIrq, UNSUPPORTED)
        case Err(e) => Err(e)
        case Ok(irq) => Ok(info.(uart := Some(r), uartIrq := irq))
  }

  function WithPlic(path: seq<Node>, info: Info): Result<Info>
    requires path != []
  {
    if !IsPlic(path) then Ok(info)
    else if info.plic.Some? then Err(CAPACITY)
    else
      match OneReg(path)
      case Err(e) => Err(e)
      case Ok(r) =>
        match OneCell(path[|path| - 1].sources, info.plicSources, PROPERTY)
        case Err(e) => Err(e)
        case Ok(n) => Ok(info.(plic := Some(r), plicSources := n))
  }

  function WithVirtio(path: seq<Node>, info: Info): Result<Info>
    requires path != []
  {
    if !IsVirtio(path) then Ok(info)
    else if |info.virtio| >= MAX_VIRTIO then Err(CAPACITY)
    else
      match OneReg(path)
      case Err(e) => Err(e)
      case Ok(r) =>
        match OneCell(path[|path| - 1].interrupts, 0, UNSUPPORTED)
        case Err(e) => Err(e)
        case Ok(irq) => Ok(info.(virtio := info.virtio + [r], virtioIrqs := info.virtioIrqs + [irq]))
  }

  function Then(r: Result<Info>, path: seq<Node>, step: (seq<Node>, Info) --> Result<Info>): Result<Info>
    requires r.Ok? ==> step.requires(path, r.value)
  {
    if r.Err? then r else step(path, r.value)
  }

  /** What closing the innermost node adds. */
  function Closed(path: seq<Node>, info: Info): Result<Info>
    requires path != []
  {
    Then(Then(Then(Then(WithMemory(path, info), path, WithReserved), path, WithUart), path, WithPlic), path, WithVirtio)
  }

  function Gathered(path: seq<Node>, t: Token, info: Info): Result<Info> {
    match t
    case End => if path == [] then Err(STRUCTURE) else Closed(path, info)
    case Prop(name, value) =>
      if path == [] then Err(STRUCTURE)
      else if !PropOk(path[|path| - 1], name, value) then Err(PROPERTY)
      else if path[|path| - 1].cpus && name == Ascii("timebase-frequency") && |value| == 4 then
        Ok(info.(timebase := Be32(value, 0)))
      else Ok(info)
    case _ => Ok(info)
  }

  /** What all the tokens add, in order. */
  function Collected(tokens: seq<Token>, info: Info): Result<Info> {
    if tokens == [] then Ok(info)
    else
      match Collected(tokens[..|tokens| - 1], info)
      case Err(e) => Err(e)
      case Ok(sofar) => Gathered(PathAfter(tokens[..|tokens| - 1]), tokens[|tokens| - 1], sofar)
  }

  lemma CollectedMore(tokens: seq<Token>, t: Token, info: Info)
    requires Collected(tokens, info).Ok?
    ensures Collected(tokens + [t], info) == Gathered(PathAfter(tokens), t, Collected(tokens, info).value)
  {
    assert (tokens + [t])[..|tokens|] == tokens;
  }

  lemma {:induction false} CollectedPrefix(tokens: seq<Token>, info: Info, k: nat)
    requires k <= |tokens| && Collected(tokens, info).Ok?
    ensures Collected(tokens[..k], info).Ok?
    decreases |tokens|
  {
    hide Gathered, PathAfter;
    if k == |tokens| {
      assert tokens[..k] == tokens;
    } else {
      CollectedPrefix(tokens[..|tokens| - 1], info, k);
      assert tokens[..|tokens| - 1][..k] == tokens[..k];
    }
  }

  // ----- where every recorded range comes from

  datatype What = Memory | Reserved | Uart | Plic | Virtio

  predicate Is(what: What, path: seq<Node>) {
    match what
    case Memory => IsMemory(path)
    case Reserved => IsReserved(path)
    case Uart => IsUart(path)
    case Plic => IsPlic(path)
    case Virtio => IsVirtio(path)
  }

  /** The range is the image of a tuple of a node of that sort, closed by one of the tokens. */
  ghost predicate From(tokens: seq<Token>, what: What, r: Range) {
    exists k :: 0 <= k < |tokens| && ClosedHere(tokens, k, what, r)
  }

  ghost predicate ClosedHere(tokens: seq<Token>, k: nat, what: What, r: Range)
    requires k < |tokens|
  {
    tokens[k].End? && Is(what, PathAfter(tokens[..k])) && FromReg(PathAfter(tokens[..k]), r)
  }

  ghost predicate AllFrom(tokens: seq<Token>, what: What, ranges: seq<Range>, from: nat) {
    forall i :: from <= i < |ranges| ==> From(tokens, what, ranges[i])
  }

  /** Every range was recorded for a node of the tree, and the tables are within capacity. */
  ghost predicate InfoFrom(tokens: seq<Token>, start: Info, info: Info) {
    && |info.memory| <= MAX_MEMORY && AllFrom(tokens, Memory, info.memory, |start.memory|)
    && start.memory <= info.memory
    && |info.reserved| <= MAX_RESERVED && AllFrom(tokens, Reserved, info.reserved, |start.reserved|)
    && start.reserved <= info.reserved
    && |info.virtio| <= MAX_VIRTIO && AllFrom(tokens, Virtio, info.virtio, |start.virtio|)
    && |info.virtioIrqs| == |info.virtio|
    && (info.uart.Some? && info.uart != start.uart ==> From(tokens, Uart, info.uart.value))
    && (info.plic.Some? && info.plic != start.plic ==> From(tokens, Plic, info.plic.value))
  }

  lemma FromMore(tokens: seq<Token>, t: Token, what: What, r: Range)
    ensures From(tokens, what, r) ==> From(tokens + [t], what, r)
    ensures t.End? && Is(what, PathAfter(tokens)) && FromReg(PathAfter(tokens), r) ==> From(tokens + [t], what, r)
  {
    hide PathAfter, Is, FromReg;
    var more := tokens + [t];
    if From(tokens, what, r) {
      var k :| 0 <= k < |tokens| && ClosedHere(tokens, k, what, r);
      assert more[..k] == tokens[..k];
      assert ClosedHere(more, k, what, r);
    }
    if t.End? && Is(what, PathAfter(tokens)) && FromReg(PathAfter(tokens), r) {
      assert more[..|tokens|] == tokens;
      assert ClosedHere(more, |tokens|, what, r);
    }
  }

  lemma AllFromMore(tokens: seq<Token>, t: Token, what: What, ranges: seq<Range>, from: nat)
    requires AllFrom(tokens, what, ranges, from)
    ensures AllFrom(tokens + [t], what, ranges, from)
  {
    hide From;
    forall i | from <= i < |ranges| ensures From(tokens + [t], what, ranges[i]) {
      FromMore(tokens, t, what, ranges[i]);
    }
  }

  /** Ranges added when the innermost node closes. */
  lemma AddedFrom(tokens: seq<Token>, what: What, ranges: seq<Range>, more: seq<Range>, from: nat, capacity: nat)
    requires AllFrom(tokens, what, ranges, from) && PathAfter(tokens) != [] && Is(what, PathAfter(tokens))
             && |ranges| <= capacity
    requires RegAll(PathAfter(tokens), ranges, capacity) == Ok(more)
    ensures AllFrom(tokens + [End], what, more, from) && |more| <= capacity && ranges <= more
  {
    hide From, RegAll, FromReg, PathAfter, Is;
    RegSound(PathAfter(tokens), ranges, capacity);
    forall i | from <= i < |more| ensures From(tokens + [End], what, more[i]) {
      FromMore(tokens, End, what, more[i]);
      if i < |ranges| { assert more[i] == ranges[i]; }
    }
  }

  lemma OneRegFrom(tokens: seq<Token>, what: What)
    requires PathAfter(tokens) != [] && Is(what, PathAfter(tokens))
    ensures OneReg(PathAfter(tokens)).Ok? ==> From(tokens + [End], what, OneReg(PathAfter(tokens)).value)
  {
    hide From, RegAll, FromReg, PathAfter, Is;
    RegSound(PathAfter(tokens), [], 1);
    if OneReg(PathAfter(tokens)).Ok? {
      FromMore(tokens, End, what, OneReg(PathAfter(tokens)).value);
    }
  }

  lemma InfoFromMore(tokens: seq<Token>, t: Token, start: Info, info: Info)
    requires InfoFrom(tokens, start, info)
    ensures InfoFrom(tokens + [t], start, info)
  {
    hide From, AllFrom;
    AllFromMore(tokens, t, Memory, info.memory, |start.memory|);
    AllFromMore(tokens, t, Reserved, info.reserved, |start.reserved|);
    AllFromMore(tokens, t, Virtio, info.virtio, |start.virtio|);
    if info.uart.Some? { FromMore(tokens, t, Uart, info.uart.value); }
    if info.plic.Some? { FromMore(tokens, t, Plic, info.plic.value); }
  }

  /** One of the five steps of closing a node. */
  lemma MemoryFrom(tokens: seq<Token>, start: Info, before: Info, info: Info)
    requires PathAfter(tokens) != [] && InfoFrom(tokens, start, before) && InfoFrom(tokens + [End], start, info)
             && info == before
    ensures var r := WithMemory(PathAfter(tokens), info);
            r.Ok? ==> InfoFrom(tokens + [End], start, r.value) && r.value == before.(memory := r.value.memory)
  {
    hide From, AllFrom, PathAfter, RegAll, IsMemory;
    var r := RegAll(PathAfter(tokens), info.memory, MAX_MEMORY);
    if IsMemory(PathAfter(tokens)) && r.Ok? {
      AddedFrom(tokens, Memory, info.memory, r.value, |start.memory|, MAX_MEMORY);
    }
  }

  lemma ReservedFrom(tokens: seq<Token>, start: Info, before: Info, info: Info)
    requires PathAfter(tokens) != [] && InfoFrom(tokens, start, before) && InfoFrom(tokens + [End], start, info)
             && info.reserved == before.reserved
    ensures var r := WithReserved(PathAfter(tokens), info);
            r.Ok? ==> InfoFrom(tokens + [End], start, r.value) && r.value == info.(reserved := r.value.reserved)
  {
    hide From, AllFrom, PathAfter, RegAll, IsReserved;
    var r := RegAll(PathAfter(tokens), info.reserved, MAX_RESERVED);
    if IsReserved(PathAfter(tokens)) && r.Ok? {
      AddedFrom(tokens, Reserved, info.reserved, r.value, |start.reserved|, MAX_RESERVED);
    }
  }

  lemma DevicesFrom(tokens: seq<Token>, start: Info, info: Info)
    requires PathAfter(tokens) != [] && InfoFrom(tokens + [End], start, info)
    ensures var r := WithUart(PathAfter(tokens), info); r.Ok? ==> InfoFrom(tokens + [End], start, r.value)
    ensures var r := WithPlic(PathAfter(tokens), info); r.Ok? ==> InfoFrom(tokens + [End], start, r.value)
    ensures var r := WithVirtio(PathAfter(tokens), info); r.Ok? ==> InfoFrom(tokens + [End], start, r.value)
  {
    hide From, PathAfter, OneReg, IsUart, IsPlic, IsVirtio;
    var path := PathAfter(tokens);
    if IsUart(path) { OneRegFrom(tokens, Uart); }
    if IsPlic(path) { OneRegFrom(tokens, Plic); }
    if IsVirtio(path) { OneRegFrom(tokens, Virtio); }
  }

  lemma ClosedFrom(tokens: seq<Token>, start: Info, info: Info)
    requires PathAfter(tokens) != [] && InfoFrom(tokens, start, info)
    ensures var r := Closed(PathAfter(tokens), info); r.Ok? ==> InfoFrom(tokens + [End], start, r.value)
  {
    hide InfoFrom, PathAfter, WithMemory, WithReserved, WithUart, WithPlic, WithVirtio;
    var path := PathAfter(tokens);
    InfoFromMore(tokens, End, start, info);
    MemoryFrom(tokens, start, info, info);
    var a := WithMemory(path, info);
    if a.Ok? {
      ReservedFrom(tokens, start, info, a.value);
      var b := WithReserved(path, a.value);
      if b.Ok? {
        DevicesFrom(tokens, start, b.value);
        var c := WithUart(path, b.value);
        if c.Ok? {
          DevicesFrom(tokens, start, c.value);
          var d := WithPlic(path, c.value);
          if d.Ok? {
            DevicesFrom(tokens, start, d.value);
          }
        }
      }
    }
  }

  predicate Starting(info: Info) {
    |info.memory| <= MAX_MEMORY && |info.reserved| <= MAX_RESERVED && |info.virtio| == |info.virtioIrqs| <= MAX_VIRTIO
  }

  /** Every range that the tokens record is the image, through one window per bus, of
      a tuple of a node of the right sort; and the tables never overflow. */
  lemma {:induction false} CollectedFrom(tokens: seq<Token>, start: Info)
    requires Starting(start)
    ensures var r := Collected(tokens, start); r.Ok? ==> InfoFrom(tokens, start, r.value)
    decreases |tokens|
  {
    hide PathAfter, Closed, From;
    if tokens == [] {
    } else {
      var front, t := tokens[..|tokens| - 1], tokens[|tokens| - 1];
      assert tokens == front + [t];
      CollectedFrom(front, start);
      var sofar := Collected(front, start);
      if sofar.Ok? {
        InfoFromMore(front, t, start, sofar.value);
        if t.End? && PathAfter(front) != [] {
          ClosedFrom(front, start, sofar.value);
        }
      }
    }
  }
}
