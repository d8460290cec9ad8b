/** What a device tree says, read off its tokens: the properties of a node are the last
    ones given directly inside it, and the boot information is what the nodes of each sort
    contribute, one after the other in the order they close. */
module TreeContents {
  import opened Common
  import opened Physical
  import opened Dtb
  import opened Fdt

  // ----- nodes and their properties

  /** The node that token `b` begins is still open before token `k`. */
  ghost predicate OpenAt(tokens: seq<Token>, b: nat, k: nat) {
    && b < k <= |tokens| && tokens[b].Begin?
    && forall m :: b < m <= k ==> Level(tokens[..m]) > Level(tokens[..b])
  }

  /** The last value of a property given directly inside that node, before token `k`. */
  function LastValue(tokens: seq<Token>, b: nat, k: nat, name: seq<Byte>): Option<seq<Byte>>
    requires b < k <= |tokens|
  {
    if k == b + 1 then None
    else if tokens[k - 1].Prop? && tokens[k - 1].name == name && Level(tokens[..k - 1]) == Level(tokens[..b]) + 1 then
      Some(tokens[k - 1].value)
    else LastValue(tokens, b, k - 1, name)
  }

  /** A property of one cell, or what holds without it. */
  function Cell(value: Option<seq<Byte>>, without: nat): nat {
    if value.Some? && |value.value| == 4 then Be32(value.value, 0) else without
  }

  /** The record of a node holds its name and its properties. */
  ghost predicate Describes(tokens: seq<Token>, b: nat, k: nat, node: Node)
    requires b < k <= |tokens| && tokens[b].Begin?
  {
    && node.name == tokens[b].name
    && node.addressCells == Cell(LastValue(tokens, b, k, Ascii("#address-cells")), 2)
    && node.sizeCells == Cell(LastValue(tokens, b, k, Ascii("#size-cells")), 1)
    && node.ranges == LastValue(tokens, b, k, Ascii("ranges"))
    && node.reg == LastValue(tokens, b, k, Ascii("reg"))
    && node.compatible == (match LastValue(tokens, b, k, Ascii("compatible")) case None => [] case Some(v) => v)
    && node.deviceType == LastValue(tokens, b, k, Ascii("device_type"))
    && node.status == LastValue(tokens, b, k, Ascii("status"))
    && node.interrupts == LastValue(tokens, b, k, Ascii("interrupts"))
    && node.sources == LastValue(tokens, b, k, Ascii("riscv,ndev"))
    && (node.reservedMemory <==> Level(tokens[..b]) == 1 && tokens[b].name == Ascii("reserved-memory"))
    && (node.cpus <==> Level(tokens[..b]) == 1 && tokens[b].name == Ascii("cpus"))
  }

  /** The open nodes before token `k`, from the root inwards. */
  ghost predicate IsPath(tokens: seq<Token>, k: nat, path: seq<Node>)
    requires k <= |tokens|
  {
    |path| == Level(tokens[..k]) && forall i :: 0 <= i < |path| ==> IsOpenNode(tokens, k, i, path[i])
  }

  ghost predicate IsOpenNode(tokens: seq<Token>, k: nat, i: nat, node: Node) {
    exists b: nat :: OpenAt(tokens, b, k) && Level(tokens[..b]) == i && Describes(tokens, b, k, node)
  }

  /** Cell counts are one cell wherever they are given. */
  ghost predicate CellsOk(tokens: seq<Token>) {
    forall j :: 0 <= j < |tokens| ==> CellOk(tokens[j])
  }

  predicate CellOk(t: Token) {
    t.Prop? && (t.name == Ascii("#address-cells") || t.name == Ascii("#size-cells")) ==> |t.value| == 4
  }

  lemma LevelNext(tokens: seq<Token>, k: nat)
    requires k < |tokens|
    ensures Level(tokens[..k + 1])
              == Level(tokens[..k]) + (match tokens[k] case Begin(_) => 1 case End => -1 case _ => 0)
  {
    assert tokens[..k + 1] == tokens[..k] + [tokens[k]];
    LevelMore(tokens[..k], tokens[k]);
  }

  lemma PathNext(tokens: seq<Token>, k: nat)
    requires k < |tokens|
    ensures PathAfter(tokens[..k + 1]) == Opened(PathAfter(tokens[..k]), tokens[k])
  {
    assert tokens[..k + 1] == tokens[..k] + [tokens[k]];
    PathMore(tokens[..k], tokens[k]);
  }

  lemma LastNext(tokens: seq<Token>, b: nat, k: nat, name: seq<Byte>)
    requires b < k < |tokens|
    ensures LastValue(tokens, b, k + 1, name) ==
              if tokens[k].Prop? && tokens[k].name == name && Level(tokens[..k]) == Level(tokens[..b]) + 1 then
                Some(tokens[k].value)
              else LastValue(tokens, b, k, name)
  {
    hide Level;
  }

  lemma AllNext(tokens: seq<Token>, b: nat, k: nat, next: nat)
    requires b < k < |tokens| && next == k + 1
    ensures forall name ::
              LastValue(tokens, b, next, name) ==
                if tokens[k].Prop? && Level(tokens[..k]) == Level(tokens[..b]) + 1 && tokens[k].name == name then
                  Some(tokens[k].value)
                else LastValue(tokens, b, k, name)
  {
    hide Level, LastValue;
    forall name ensures LastValue(tokens, b, next, name) ==
                if tokens[k].Prop? && Level(tokens[..k]) == Level(tokens[..b]) + 1 && tokens[k].name == name then
                  Some(tokens[k].value)
                else LastValue(tokens, b, k, name) {
      LastNext(tokens, b, k, name);
    }
  }

  /** A token that is not a property of the node leaves its record alone. */
  lemma StillDescribes(tokens: seq<Token>, b: nat, k: nat, node: Node)
    requires b < k < |tokens| && tokens[b].Begin? && Describes(tokens, b, k, node)
    requires tokens[k].Prop? ==> Level(tokens[..k]) != Level(tokens[..b]) + 1
    ensures Describes(tokens, b, k + 1, node)
  {
    hide Level, Ascii, Be32, LastValue;
    AllNext(tokens, b, k, k + 1);
  }

  /** The names are told apart by their length and first letter. */
  function Tag(name: seq<Byte>): nat {
    if name == [] then 0 else 1000 * |name| + name[0]
  }

  lemma NamesApart()
    ensures Tag(Ascii("#address-cells")) == 14035 && Tag(Ascii("#size-cells")) == 11035 && Tag(Ascii("ranges")) == 6114
    ensures Tag(Ascii("reg")) == 3114 && Tag(Ascii("compatible")) == 10099 && Tag(Ascii("device_type")) == 11100
    ensures Tag(Ascii("status")) == 6115 && Tag(Ascii("interrupts")) == 10105 && Tag(Ascii("riscv,ndev")) == 10114
  {
    hide Ascii;
  }

  /** A property sets its own field and no other. */
  lemma PropSets(node: Node, name: seq<Byte>, value: seq<Byte>)
    requires name == Ascii("#address-cells") || name == Ascii("#size-cells") ==> |value| == 4
    ensures var r := WithProp(node, name, value);
            && r.addressCells == (if name == Ascii("#address-cells") then Be32(value, 0) else node.addressCells)
            && r.sizeCells == (if name == Ascii("#size-cells") then Be32(value, 0) else node.sizeCells)
            && r.ranges == (if name == Ascii("ranges") then Some(value) else node.ranges)
            && r.reg == (if name == Ascii("reg") then Some(value) else node.reg)
            && r.compatible == (if name == Ascii("compatible") then value else node.compatible)
            && r.deviceType == (if name == Ascii("device_type") then Some(value) else node.deviceType)
            && r.status == (if name == Ascii("status") then Some(value) else node.status)
            && r.interrupts == (if name == Ascii("interrupts") then Some(value) else node.interrupts)
            && r.sources == (if name == Ascii("riscv,ndev") then Some(value) else node.sources)
            && r.name == node.name && r.reservedMemory == node.reservedMemory && r.cpus == node.cpus
  {
    hide Ascii, Be32, Tag;
    NamesApart();
  }

  /** A property of the node takes the place of an earlier one. */
  lemma PropDescribes(tokens: seq<Token>, b: nat, k: nat, node: Node)
    requires b < k < |tokens| && tokens[b].Begin? && Describes(tokens, b, k, node)
    requires tokens[k].Prop? && Level(tokens[..k]) == Level(tokens[..b]) + 1 && CellOk(tokens[k])
    ensures Describes(tokens, b, k + 1, WithProp(node, tokens[k].name, tokens[k].value))
  {
    hide Level, Ascii, Be32, LastValue, WithProp;
    PropSets(node, tokens[k].name, tokens[k].value);
    AllNext(tokens, b, k, k + 1);
  }

  lemma NewDescribes(tokens: seq<Token>, k: nat)
    requires k < |tokens| && tokens[k].Begin? && Level(tokens[..k]) >= 0
    ensures Describes(tokens, k, k + 1, NewNode(tokens[k].name, Level(tokens[..k])))
  {
    hide Level, Ascii;
  }

  lemma OpenStays(tokens: seq<Token>, b: nat, k: nat)
    requires OpenAt(tokens, b, k) && k < |tokens| && Level(tokens[..k + 1]) > Level(tokens[..b])
    ensures OpenAt(tokens, b, k + 1)
  {
    hide Level;
  }

  /** An outer node, or any node before a token that is no property, stays as it is. */
  lemma NodeStays(tokens: seq<Token>, k: nat, i: nat, node: Node)
    requires k < |tokens| && IsOpenNode(tokens, k, i, node) && Level(tokens[..k + 1]) > i
    requires tokens[k].Prop? ==> Level(tokens[..k]) != i + 1
    ensures IsOpenNode(tokens, k + 1, i, node)
  {
    hide Level, Describes;
    var b: nat :| OpenAt(tokens, b, k) && Level(tokens[..b]) == i && Describes(tokens, b, k, node);
    OpenStays(tokens, b, k);
    StillDescribes(tokens, b, k, node);
  }

  lemma NodeGrows(tokens: seq<Token>, k: nat, i: nat, node: Node)
    requires k < |tokens| && IsOpenNode(tokens, k, i, node) && tokens[k].Prop? && Level(tokens[..k]) == i + 1
    requires Level(tokens[..k + 1]) > i && CellOk(tokens[k])
    ensures IsOpenNode(tokens, k + 1, i, WithProp(node, tokens[k].name, tokens[k].value))
  {
    hide Level, Describes, WithProp, CellOk;
    var b: nat :| OpenAt(tokens, b, k) && Level(tokens[..b]) == i && Describes(tokens, b, k, node);
    OpenStays(tokens, b, k);
    PropDescribes(tokens, b, k, node);
  }

  lemma NodeBegins(tokens: seq<Token>, k: nat)
    requires k < |tokens| && tokens[k].Begin? && Level(tokens[..k]) >= 0
    requires Level(tokens[..k + 1]) == Level(tokens[..k]) + 1
    ensures IsOpenNode(tokens, k + 1, Level(tokens[..k]), NewNode(tokens[k].name, Level(tokens[..k])))
  {
    hide Level, Describes, NewNode;
    NewDescribes(tokens, k);
    assert OpenAt(tokens, k, k + 1);
  }

  /** The records kept while reading are those of the open nodes. */
  lemma {:induction false} PathIs(tokens: seq<Token>, k: nat)
    requires Nested(tokens) && CellsOk(tokens) && k <= |tokens|
    ensures IsPath(tokens, k, PathAfter(tokens[..k]))
    decreases k
  {
    hide Level, IsOpenNode, WithProp, NewNode, PathAfter, CellOk;
    if k == 0 {
      NoTokens(tokens);
    } else {
      var j := k - 1;
      PathIs(tokens, j);
      LevelNext(tokens, j);
      PathNext(tokens, j);
      assert NestedAt(tokens, j);
      var path, next := PathAfter(tokens[..j]), PathAfter(tokens[..k]);
      forall i | 0 <= i < |next| ensures IsOpenNode(tokens, k, i, next[i]) {
        if tokens[j].Begin? && i == |path| {
          NodeBegins(tokens, j);
        } else if tokens[j].Prop? && i == |path| - 1 {
          assert CellOk(tokens[j]);
          NodeGrows(tokens, j, i, path[i]);
        } else {
          NodeStays(tokens, j, i, path[i]);
        }
      }
    }
  }

  lemma NoTokens(tokens: seq<Token>)
    ensures PathAfter(tokens[..0]) == [] && Level(tokens[..0]) == 0
  {
    assert tokens[..0] == [];
  }

  /** And there is only one such path. */
  lemma OnePath(tokens: seq<Token>, k: nat, path: seq<Node>, other: seq<Node>)
    requires k <= |tokens| && IsPath(tokens, k, path) && IsPath(tokens, k, other)
    ensures path == other
  {
    hide Level, Describes;
    forall i | 0 <= i < |path| ensures path[i] == other[i] {
      assert IsOpenNode(tokens, k, i, path[i]) && IsOpenNode(tokens, k, i, other[i]);
      var b: nat :| OpenAt(tokens, b, k) && Level(tokens[..b]) == i && Describes(tokens, b, k, path[i]);
      var c: nat :| OpenAt(tokens, c, k) && Level(tokens[..c]) == i && Describes(tokens, c, k, other[i]);
      assert b == c;
      OneNode(tokens, b, k, path[i], other[i]);
    }
  }

  lemma OneNode(tokens: seq<Token>, b: nat, k: nat, node: Node, other: Node)
    requires b < k <= |tokens| && tokens[b].Begin? && Describes(tokens, b, k, node) && Describes(tokens, b, k, other)
    ensures node == other
  {
    hide Level, LastValue, Ascii, Cell;
  }

  // ----- the sorts of nodes

  /** One of the zero-ended strings of a list. */
  ghost predicate OneOf(list: seq<Byte>, text: seq<Byte>) {
    exists i :: StringAt(list, i, text)
  }

  predicate StringAt(list: seq<Byte>, i: int, text: seq<Byte>) {
    && 0 <= i && i + |text| < |list| && (i == 0 || list[i - 1] == 0)
    && list[i..i + |text|] == text && list[i + |text|] == 0
  }

  /** A string that starts here ends at the first zero. */
  lemma EndsAtZero(list: seq<Byte>, at: nat, end: nat, text: seq<Byte>)
    requires at <= end < |list| && list[end] == 0 && (forall i :: at <= i < end ==> list[i] != 0)
    requires StringAt(list, at, text) && 0 !in text
    ensures text == list[at..end]
  {
    assert forall j :: 0 <= j < |text| ==> text[j] == list[at..at + |text|][j] == list[at + j];
    assert forall j :: 0 <= j < |text| ==> text[j] in text && list[at + j] != 0;
    assert at + |text| >= end;
  }

  lemma {:induction false} HasStringMeans(list: seq<Byte>, at: nat, text: seq<Byte>)
    requires at <= |list| && (at == 0 || list[at - 1] == 0) && 0 !in text
    ensures HasString(list, at, text) <==> exists i :: at <= i && StringAt(list, i, text)
    decreases |list| - at
  {
    hide ZeroFrom;
    if at < |list| {
      var n := ZeroFrom(list, at);
      if n.Some? {
        var end := at + n.value;
        HasStringMeans(list, end + 1, text);
        forall i | at <= i && StringAt(list, i, text) ensures i > end || text == list[at..end] {
          if i == at { EndsAtZero(list, at, end, text); }
        }
        if list[at..end] == text {
          assert StringAt(list, at, text);
        }
      }
    }
  }

  predicate Okay(node: Node) {
    node.status == None || node.status == Some(Ascii("okay") + [0]) || node.status == Some(Ascii("ok") + [0])
  }

  /** The innermost node of the path is enabled and of that sort. */
  ghost predicate Sort(what: What, path: seq<Node>) {
    && path != [] && Okay(path[|path| - 1])
    && var node := path[|path| - 1];
    match what
    case Memory => node.deviceType == Some(Ascii("memory") + [0])
    case Reserved => |path| >= 2 && path[|path| - 2].reservedMemory && node.reg.Some?
    case Uart => OneOf(node.compatible, Ascii("ns16550a")) || OneOf(node.compatible, Ascii("sifive,uart0"))
    case Plic => OneOf(node.compatible, Ascii("sifive,plic-1.0.0")) || OneOf(node.compatible, Ascii("riscv,plic0"))
    case Virtio => OneOf(node.compatible, Ascii("virtio,mmio"))
  }

  lemma CompatibleMeans(node: Node, text: string)
    requires forall i :: 0 <= i < |text| ==> 0 < text[i] as int < 256
    ensures Compatible(node, text) <==> OneOf(node.compatible, Ascii(text))
  {
    hide HasString, Ascii;
    assert 0 !in Ascii(text);
    HasStringMeans(node.compatible, 0, Ascii(text));
    assert OneOf(node.compatible, Ascii(text)) <==> exists i :: 0 <= i && StringAt(node.compatible, i, Ascii(text));
  }

  lemma SortIs(what: What, path: seq<Node>)
    ensures Sort(what, path) <==> Is(what, path)
  {
    hide Compatible, OneOf, Ascii;
    if path != [] {
      var node := path[|path| - 1];
      CompatibleMeans(node, "ns16550a");
      CompatibleMeans(node, "sifive,uart0");
      CompatibleMeans(node, "sifive,plic-1.0.0");
      CompatibleMeans(node, "riscv,plic0");
      CompatibleMeans(node, "virtio,mmio");
    }
  }

  // ----- what a node contributes

  /** The images of the tuples of the innermost node's reg property, but for empty ones, in
      order. */
  ghost predicate Images(path: seq<Node>, added: seq<Range>) {
    && |path| >= 2 && path[|path| - 1].reg.Some?
    && var parent, reg := path[|path| - 2], path[|path| - 1].reg.value;
    && parent.addressCells <= 2 && parent.sizeCells <= 2 && parent.addressCells + parent.sizeCells > 0
    && reg != [] && |reg| % (4 * (parent.addressCells + parent.sizeCells)) == 0
    && Lists(path, reg, 0, added)
  }

  ghost predicate Gains(path: seq<Node>, was: seq<Range>, now: seq<Range>, capacity: nat) {
    |was| <= |now| <= capacity && now[..|was|] == was && Images(path, now[|was|..])
  }

  /** An optional property of one cell, that changes a number when it is there. */
  predicate Gives(value: Option<seq<Byte>>, was: nat, now: nat) {
    (value.Some? ==> |value.value| == 4) && now == Cell(value, was)
  }

  /** What one token does to the boot information, with those nodes open. */
  ghost predicate Adds(path: seq<Node>, t: Token, a: Info, b: Info) {
    match t
    case Begin(_) => b == a
    case Nop => b == a
    case Prop(name, value) =>
      && path != [] && CellOk(t)
      && (if path[|path| - 1].cpus && name == Ascii("timebase-frequency") then
            |value| == 4 && b == a.(timebase := Be32(value, 0))
          else b == a)
    case End =>
      && path != [] && b.timebase == a.timebase
      && (if Sort(Memory, path) then Gains(path, a.memory, b.memory, 8) else b.memory == a.memory)
      && (if Sort(Reserved, path) then Gains(path, a.reserved, b.reserved, 16) else b.reserved == a.reserved)
      && (if Sort(Uart, path) then
            && a.uart.None? && b.uart.Some? && Images(path, [b.uart.value])
            && Gives(path[|path| - 1].interrupts, a.uartIrq, b.uartIrq)
          else b.uart == a.uart && b.uartIrq == a.uartIrq)
      && (if Sort(Plic, path) then
            && a.plic.None? && b.plic.Some? && Images(path, [b.plic.value])
            && Gives(path[|path| - 1].sources, a.plicSources, b.plicSources)
          else b.plic == a.plic && b.plicSources == a.plicSources)
      && (if Sort(Virtio, path) then AddsVirtio(path, a, b)
          else b.virtio == a.virtio && b.virtioIrqs == a.virtioIrqs)
  }

  ghost predicate AddsVirtio(path: seq<Node>, a: Info, b: Info)
    requires path != []
  {
    exists r, irq :: Images(path, [r]) && Gives(path[|path| - 1].interrupts, 0, irq) && |a.virtio| < 16
                     && b.virtio == a.virtio + [r] && b.virtioIrqs == a.virtioIrqs + [irq]
  }

  lemma GainsIs(path: seq<Node>, was: seq<Range>, now: seq<Range>, capacity: nat)
    requires path != [] && |was| <= capacity
    ensures RegAll(path, was, capacity) == Ok(now) <==> Gains(path, was, now, capacity)
  {
    hide RegAll, Lists;
    RegExact(path, was, capacity, now);
  }

  lemma OneRegIs(path: seq<Node>, r: Range)
    requires path != []
    ensures OneReg(path) == Ok(r) <==> Images(path, [r])
  {
    hide RegAll, Images;
    GainsIs(path, [], [r], 1);
    assert [r][0..] == [r] && [r][..0] == [];
    if OneReg(path).Ok? {
      var ranges := RegAll(path, [], 1).value;
      assert ranges == [ranges[0]];
    }
  }

  lemma OneCellIs(value: Option<seq<Byte>>, was: nat, e: Error, now: nat)
    ensures OneCell(value, was, e) == Ok(now) <==> Gives(value, was, now)
  {
  }

  lemma MemoryAdds(path: seq<Node>, a: Info, b: Info)
    requires path != [] && Starting(a)
    ensures WithMemory(path, a) == Ok(b) <==>
              && b == a.(memory := b.memory)
              && if Sort(Memory, path) then Gains(path, a.memory, b.memory, 8) else b.memory == a.memory
  {
    hide RegAll, Gains, Sort, IsMemory;
    SortIs(Memory, path);
    GainsIs(path, a.memory, b.memory, 8);
  }

  lemma ReservedAdds(path: seq<Node>, a: Info, b: Info)
    requires path != [] && Starting(a)
    ensures WithReserved(path, a) == Ok(b) <==>
              && b == a.(reserved := b.reserved)
              && if Sort(Reserved, path) then Gains(path, a.reserved, b.reserved, 16) else b.reserved == a.reserved
  {
    hide RegAll, Gains, Sort, IsReserved;
    SortIs(Reserved, path);
    GainsIs(path, a.reserved, b.reserved, 16);
  }

  lemma UartAdds(path: seq<Node>, a: Info, b: Info)
    requires path != []
    ensures WithUart(path, a) == Ok(b) <==>
              && b == a.(uart := b.uart, uartIrq := b.uartIrq)
              && if Sort(Uart, path) then
                   && a.uart.None? && b.uart.Some? && Images(path, [b.uart.value])
                   && Gives(path[|path| - 1].interrupts, a.uartIrq, b.uartIrq)
                 else b.uart == a.uart && b.uartIrq == a.uartIrq
  {
    hide OneReg, OneCell, Images, Sort, IsUart, Gives;
    SortIs(Uart, path);
    if b.uart.Some? { OneRegIs(path, b.uart.value); }
    OneCellIs(path[|path| - 1].interrupts, a.uartIrq, UNSUPPORTED, b.uartIrq);
  }

  lemma PlicAdds(path: seq<Node>, a: Info, b: Info)
    requires path != []
    ensures WithPlic(path, a) == Ok(b) <==>
              && b == a.(plic := b.plic, plicSources := b.plicSources)
              && if Sort(Plic, path) then
                   && a.plic.None? && b.plic.Some? && Images(path, [b.plic.value])
                   && Gives(path[|path| - 1].sources, a.plicSources, b.plicSources)
                 else b.plic == a.plic && b.plicSources == a.plicSources
  {
    hide OneReg, OneCell, Images, Sort, IsPlic, Gives;
    SortIs(Plic, path);
    if b.plic.Some? { OneRegIs(path, b.plic.value); }
    OneCellIs(path[|path| - 1].sources, a.plicSources, PROPERTY, b.plicSources);
  }

  lemma VirtioAdds(path: seq<Node>, a: Info, b: Info)
    requires path != []
    ensures WithVirtio(path, a) == Ok(b) <==>
              && b == a.(virtio := b.virtio, virtioIrqs := b.virtioIrqs)
              && if Sort(Virtio, path) then AddsVirtio(path, a, b)
                 else b.virtio == a.virtio && b.virtioIrqs == a.virtioIrqs
  {
    hide OneReg, OneCell, Images, Sort, IsVirtio, Gives;
    SortIs(Virtio, path);
    forall r ensures OneReg(path) == Ok(r) <==> Images(path, [r]) { OneRegIs(path, r); }
    var interrupts := path[|path| - 1].interrupts;
    forall irq: nat ensures OneCell(interrupts, 0, UNSUPPORTED) == Ok(irq) <==> Gives(interrupts, 0, irq) {
      OneCellIs(interrupts, 0, UNSUPPORTED, irq);
    }
  }

  lemma ClosedOk(path: seq<Node>, a: Info, b: Info)
    requires path != []
    ensures Closed(path, a) == Ok(b) <==>
              exists m, r, u, p :: WithMemory(path, a) == Ok(m) && WithReserved(path, m) == Ok(r)
                                   && WithUart(path, r) == Ok(u) && WithPlic(path, u) == Ok(p)
                                   && WithVirtio(path, p) == Ok(b)
  {
    hide WithMemory, WithReserved, WithUart, WithPlic, WithVirtio;
  }

  lemma ClosedForth(path: seq<Node>, a: Info, m: Info, r: Info, u: Info, p: Info, b: Info)
    requires path != [] && Starting(a) && WithMemory(path, a) == Ok(m) && WithReserved(path, m) == Ok(r)
    requires WithUart(path, r) == Ok(u) && WithPlic(path, u) == Ok(p) && WithVirtio(path, p) == Ok(b)
    ensures Adds(path, End, a, b)
  {
    hide WithMemory, WithReserved, WithUart, WithPlic, WithVirtio, Gains, Images, Sort, Gives;
    MemoryAdds(path, a, m);
    GainsBound(path, a.memory, m.memory, 8);
    ReservedAdds(path, m, r);
    UartAdds(path, r, u);
    PlicAdds(path, u, p);
    VirtioAdds(path, p, b);
  }

  lemma ClosedBack(path: seq<Node>, a: Info, b: Info)
    requires path != [] && Starting(a) && Adds(path, End, a, b)
    ensures Closed(path, a) == Ok(b)
  {
    hide WithMemory, WithReserved, WithUart, WithPlic, WithVirtio, Gains, Images, Sort, Gives, Closed;
    var m := a.(memory := b.memory);
    var r := m.(reserved := b.reserved);
    var u := r.(uart := b.uart, uartIrq := b.uartIrq);
    var p := u.(plic := b.plic, plicSources := b.plicSources);
    MemoryAdds(path, a, m);
    GainsBound(path, a.memory, m.memory, 8);
    ReservedAdds(path, m, r);
    UartAdds(path, r, u);
    PlicAdds(path, u, p);
    VirtioAdds(path, p, b);
    ClosedOk(path, a, b);
  }

  /** Closing a node adds exactly what the relation says. */
  lemma ClosedAdds(path: seq<Node>, a: Info, b: Info)
    requires path != [] && Starting(a)
    ensures Closed(path, a) == Ok(b) <==> Adds(path, End, a, b)
  {
    hide WithMemory, WithReserved, WithUart, WithPlic, WithVirtio, Adds, Closed;
    ClosedOk(path, a, b);
    if Closed(path, a) == Ok(b) {
      var m, r, u, p :| WithMemory(path, a) == Ok(m) && WithReserved(path, m) == Ok(r) && WithUart(path, r) == Ok(u)
                        && WithPlic(path, u) == Ok(p) && WithVirtio(path, p) == Ok(b);
      ClosedForth(path, a, m, r, u, p, b);
    } else if Adds(path, End, a, b) {
      ClosedBack(path, a, b);
    }
  }

  lemma GainsBound(path: seq<Node>, was: seq<Range>, now: seq<Range>, capacity: nat)
    ensures Gains(path, was, now, capacity) ==> |now| <= capacity
  {
  }

  lemma TimebaseApart()
    ensures Ascii("timebase-frequency") != Ascii("#address-cells")
            && Ascii("timebase-frequency") != Ascii("#size-cells")
  {
    hide Ascii;
  }

  lemma GatheredAdds(path: seq<Node>, t: Token, a: Info, b: Info)
    requires Starting(a)
    ensures Gathered(path, t, a) == Ok(b) <==> Adds(path, t, a, b)
  {
    hide Closed, Ascii, Be32, Sort;
    TimebaseApart();
    if t.End? && path != [] {
      ClosedAdds(path, a, b);
    }
  }

  // ----- the whole tree

  /** From one token to the next the information grows by what that token adds. */
  ghost predicate History(tokens: seq<Token>, infos: seq<Info>) {
    |infos| == |tokens| + 1 && forall k :: 0 <= k < |tokens| ==> StepAdds(tokens, k, infos[k], infos[k + 1])
  }

  ghost predicate StepAdds(tokens: seq<Token>, k: nat, a: Info, b: Info)
    requires k < |tokens|
  {
    exists path :: IsPath(tokens, k, path) && Adds(path, tokens[k], a, b)
  }

  /** Along a history, what has been collected is what stands in it. */
  lemma {:induction false} CollectedSo(tokens: seq<Token>, infos: seq<Info>, k: nat)
    requires Nested(tokens) && History(tokens, infos) && Starting(infos[0]) && k <= |tokens|
    ensures CellsOk(tokens) && Collected(tokens[..k], infos[0]) == Ok(infos[k]) && Starting(infos[k])
    decreases k
  {
    hide Adds, Gathered, IsPath, PathAfter, Starting;
    HistoryCells(tokens, infos);
    if k == 0 {
      assert tokens[..0] == [];
    } else {
      var j := k - 1;
      CollectedSo(tokens, infos, j);
      assert StepAdds(tokens, j, infos[j], infos[j + 1]);
      var path :| IsPath(tokens, j, path) && Adds(path, tokens[j], infos[j], infos[k]);
      PathIs(tokens, j);
      OnePath(tokens, j, path, PathAfter(tokens[..j]));
      GatheredAdds(path, tokens[j], infos[j], infos[k]);
      assert tokens[..k] == tokens[..j] + [tokens[j]];
      CollectedMore(tokens[..j], tokens[j], infos[0]);
      CollectedFrom(tokens[..k], infos[0]);
      FromStarts(tokens[..k], infos[0], infos[k]);
    }
  }

  lemma HistoryCells(tokens: seq<Token>, infos: seq<Info>)
    requires History(tokens, infos)
    ensures CellsOk(tokens)
  {
    hide IsPath, Sort, CellOk;
    forall j | 0 <= j < |tokens| ensures CellOk(tokens[j]) {
      assert StepAdds(tokens, j, infos[j], infos[j + 1]);
      if !tokens[j].Prop? { NoCell(tokens[j]); }
    }
  }

  lemma NoCell(t: Token)
    requires !t.Prop?
    ensures CellOk(t)
  {
  }

  lemma FromStarts(tokens: seq<Token>, start: Info, info: Info)
    requires InfoFrom(tokens, start, info)
    ensures Starting(info)
  {
  }

  /** What has been collected after each of the tokens. */
  lemma {:induction false} HasHistory(tokens: seq<Token>, start: Info, k: nat) returns (infos: seq<Info>)
    requires Nested(tokens) && Starting(start) && k <= |tokens| && Collected(tokens, start).Ok? && CellsOk(tokens)
    ensures |infos| == k + 1 && infos[0] == start && Collected(tokens[..k], start) == Ok(infos[k])
    ensures forall j :: 0 <= j < k ==> StepAdds(tokens, j, infos[j], infos[j + 1])
    decreases k
  {
    hide Adds, Gathered, IsPath, PathAfter, Starting, StepAdds;
    if k == 0 {
      assert tokens[..0] == [];
      infos := [start];
    } else {
      var j := k - 1;
      var before := HasHistory(tokens, start, j);
      CollectedPrefix(tokens, start, k);
      assert tokens[..k] == tokens[..j] + [tokens[j]];
      CollectedMore(tokens[..j], tokens[j], start);
      CollectedFrom(tokens[..j], start);
      FromStarts(tokens[..j], start, before[j]);
      var next := Collected(tokens[..k], start).value;
      PathIs(tokens, j);
      GatheredAdds(PathAfter(tokens[..j]), tokens[j], before[j], next);
      StepBy(tokens, j, PathAfter(tokens[..j]), before[j], next);
      infos := before + [next];
      forall i | 0 <= i < k ensures StepAdds(tokens, i, infos[i], infos[i + 1]) {
        if i < j { assert StepAdds(tokens, i, before[i], before[i + 1]); }
      }
    }
  }

  lemma StepBy(tokens: seq<Token>, k: nat, path: seq<Node>, a: Info, b: Info)
    requires k < |tokens| && IsPath(tokens, k, path) && Adds(path, tokens[k], a, b)
    ensures StepAdds(tokens, k, a, b)
  {
    hide IsPath, Adds;
  }

  lemma {:induction false} CollectedCells(tokens: seq<Token>, start: Info, k: nat)
    requires Starting(start) && Collected(tokens, start).Ok? && k < |tokens|
    ensures CellOk(tokens[k])
  {
    hide Closed, Ascii, PathAfter;
    CollectedPrefix(tokens, start, k + 1);
    CollectedPrefix(tokens, start, k);
    assert tokens[..k + 1] == tokens[..k] + [tokens[k]];
    CollectedMore(tokens[..k], tokens[k], start);
  }

  /** The parser collects exactly what the tokens add, and refuses exactly when some token
      adds nothing that is allowed. */
  lemma CollectsExactly(tokens: seq<Token>, start: Info, info: Info)
    requires Nested(tokens) && Starting(start)
    ensures Collected(tokens, start) == Ok(info) <==>
              exists infos :: History(tokens, infos) && infos[0] == start && infos[|tokens|] == info
  {
    hide Adds, IsPath, Starting, Collected, StepAdds, CellOk, Nested;
    assert tokens[..|tokens|] == tokens;
    if Collected(tokens, start) == Ok(info) {
      forall k | 0 <= k < |tokens| ensures CellOk(tokens[k]) { CollectedCells(tokens, start, k); }
      var infos := HasHistory(tokens, start, |tokens|);
      assert History(tokens, infos);
    }
    forall infos | History(tokens, infos) && infos[0] == start && infos[|tokens|] == info
      ensures Collected(tokens, start) == Ok(info) {
      CollectedSo(tokens, infos, |tokens|);
    }
  }

  // ----- what is recorded, sort by sort

  function Flat<T>(parts: seq<seq<T>>): seq<T> {
    if parts == [] then [] else Flat(parts[..|parts| - 1]) + parts[|parts| - 1]
  }

  /** Token `k` closes a node of that sort, with that path. */
  ghost predicate Closes(tokens: seq<Token>, k: nat, what: What, path: seq<Node>)
    requires k < |tokens|
  {
    tokens[k].End? && IsPath(tokens, k, path) && Sort(what, path)
  }

  /** What token `k` puts into a table: the images of a node's tuples, or nothing. */
  ghost predicate PartOf(tokens: seq<Token>, k: nat, what: What, part: seq<Range>)
    requires k < |tokens|
  {
    && (forall path :: Closes(tokens, k, what, path) ==> Images(path, part))
    && ((forall path :: !Closes(tokens, k, what, path)) ==> part == [])
  }

  ghost predicate IrqOf(tokens: seq<Token>, k: nat, part: seq<nat>)
    requires k < |tokens|
  {
    && (forall path: seq<Node> :: Closes(tokens, k, Virtio, path) ==> part == [Cell(path[|path| - 1].interrupts, 0)])
    && ((forall path :: !Closes(tokens, k, Virtio, path)) ==> part == [])
  }

  /** The table was extended by the parts of the first `n` tokens, in their order, and by
      nothing else. */
  ghost predicate Table(tokens: seq<Token>, n: nat, what: What, was: seq<Range>, now: seq<Range>)
    requires n <= |tokens|
  {
    exists parts: seq<seq<Range>> ::
      |parts| == n && (forall k :: 0 <= k < n ==> PartOf(tokens, k, what, parts[k])) && now == was + Flat(parts)
  }

  ghost predicate IrqTable(tokens: seq<Token>, n: nat, was: seq<nat>, now: seq<nat>)
    requires n <= |tokens|
  {
    exists parts: seq<seq<nat>> ::
      |parts| == n && (forall k :: 0 <= k < n ==> IrqOf(tokens, k, parts[k])) && now == was + Flat(parts)
  }

  /** A device of which there is at most one: its window is that of the node that closed,
      its number that of the node's property or, without one, what it was. */
  ghost predicate Device(tokens: seq<Token>, n: nat, what: What, was: Option<Range>, wasNumber: nat, now: Option<Range>,
                         number: nat)
    requires n <= |tokens|
  {
    && (forall k, path :: 0 <= k < n && Closes(tokens, k, what, path) ==>
                            && was.None? && now.Some? && Images(path, [now.value])
                            && number == Cell(NumberOf(what, path[|path| - 1]), wasNumber))
    && ((forall k, path :: 0 <= k < n ==> !Closes(tokens, k, what, path)) ==> now == was && number == wasNumber)
  }

  function NumberOf(what: What, node: Node): Option<seq<Byte>> {
    if what == Plic then node.sources else node.interrupts
  }

  /** Token `k` gives the clock frequency: a property directly inside /cpus. */
  ghost predicate IsClock(tokens: seq<Token>, k: nat)
    requires k < |tokens|
  {
    && tokens[k].Prop? && tokens[k].name == Ascii("timebase-frequency")
    && exists path: seq<Node> :: IsPath(tokens, k, path) && path != [] && path[|path| - 1].cpus
  }

  /** The frequency is the last one given. */
  ghost predicate Clock(tokens: seq<Token>, n: nat, was: nat, now: nat)
    requires n <= |tokens|
  {
    if n == 0 then now == was
    else if IsClock(tokens, n - 1) then |tokens[n - 1].value| == 4 && now == Be32(tokens[n - 1].value, 0)
    else Clock(tokens, n - 1, was, now)
  }

  /** Everything the tree describes is recorded, and nothing else. */
  ghost predicate Recorded(tokens: seq<Token>, n: nat, start: Info, info: Info)
    requires n <= |tokens|
  {
    && Table(tokens, n, Memory, start.memory, info.memory) && Table(tokens, n, Reserved, start.reserved, info.reserved)
    && Table(tokens, n, Virtio, start.virtio, info.virtio) && IrqTable(tokens, n, start.virtioIrqs, info.virtioIrqs)
    && Device(tokens, n, Uart, start.uart, start.uartIrq, info.uart, info.uartIrq)
    && Device(tokens, n, Plic, start.plic, start.plicSources, info.plic, info.plicSources)
    && Clock(tokens, n, start.timebase, info.timebase)
  }

  lemma FlatMore<T>(parts: seq<seq<T>>, part: seq<T>)
    ensures Flat(parts + [part]) == Flat(parts) + part
  {
    assert (parts + [part])[..|parts|] == parts;
  }

  lemma TableMore(tokens: seq<Token>, n: nat, what: What, was: seq<Range>, now: seq<Range>, part: seq<Range>)
    requires n < |tokens| && Table(tokens, n, what, was, now) && PartOf(tokens, n, what, part)
    ensures Table(tokens, n + 1, what, was, now + part)
  {
    hide PartOf, Flat;
    var parts: seq<seq<Range>> :|
      |parts| == n && (forall k :: 0 <= k < n ==> PartOf(tokens, k, what, parts[k])) && now == was + Flat(parts);
    var more := parts + [part];
    FlatMore(parts, part);
    assert now + part == was + Flat(more);
    forall k | 0 <= k < n + 1 ensures PartOf(tokens, k, what, more[k]) {
      if k < n { assert PartOf(tokens, k, what, parts[k]); }
    }
  }

  lemma IrqTableMore(tokens: seq<Token>, n: nat, was: seq<nat>, now: seq<nat>, part: seq<nat>)
    requires n < |tokens| && IrqTable(tokens, n, was, now) && IrqOf(tokens, n, part)
    ensures IrqTable(tokens, n + 1, was, now + part)
  {
    hide IrqOf, Flat;
    var parts: seq<seq<nat>> :|
      |parts| == n && (forall k :: 0 <= k < n ==> IrqOf(tokens, k, parts[k])) && now == was + Flat(parts);
    var more := parts + [part];
    FlatMore(parts, part);
    assert now + part == was + Flat(more);
    forall k | 0 <= k < n + 1 ensures IrqOf(tokens, k, more[k]) {
      if k < n { assert IrqOf(tokens, k, parts[k]); }
    }
  }

  /** Which node a token closes is decided by its path. */
  lemma ClosesHere(tokens: seq<Token>, k: nat, what: What, path: seq<Node>)
    requires k < |tokens| && IsPath(tokens, k, path)
    ensures forall other :: Closes(tokens, k, what, other) <==> other == path && tokens[k].End? && Sort(what, path)
  {
    hide IsPath, Sort;
    forall other | Closes(tokens, k, what, other) ensures other == path {
      OnePath(tokens, k, other, path);
    }
  }

  lemma PartHere(tokens: seq<Token>, k: nat, what: What, path: seq<Node>, part: seq<Range>)
    requires k < |tokens| && IsPath(tokens, k, path)
    requires if tokens[k].End? && Sort(what, path) then Images(path, part) else part == []
    ensures PartOf(tokens, k, what, part)
  {
    hide IsPath, Sort, Images, Closes;
    ClosesHere(tokens, k, what, path);
    assert Closes(tokens, k, what, path) <==> tokens[k].End? && Sort(what, path);
  }

  lemma IrqHere(tokens: seq<Token>, k: nat, path: seq<Node>, part: seq<nat>)
    requires k < |tokens| && IsPath(tokens, k, path)
    requires if tokens[k].End? && Sort(Virtio, path) then path != [] && part == [Cell(path[|path| - 1].interrupts, 0)]
             else part == []
    ensures IrqOf(tokens, k, part)
  {
    hide IsPath, Sort, Images;
    ClosesHere(tokens, k, Virtio, path);
    assert Closes(tokens, k, Virtio, path) <==> tokens[k].End? && Sort(Virtio, path);
  }

  lemma GainsParts(path: seq<Node>, was: seq<Range>, now: seq<Range>, capacity: nat)
    requires Gains(path, was, now, capacity)
    ensures Images(path, now[|was|..]) && now == was + now[|was|..]
  {
    hide Images;
    assert now == now[..|was|] + now[|was|..];
  }

  lemma NoPart(was: seq<Range>)
    ensures was + [] == was
  {
  }

  lemma TablesNext(tokens: seq<Token>, n: nat, what: What, path: seq<Node>, was: seq<Range>, a: seq<Range>,
                   b: seq<Range>,
                   capacity: nat)
    requires n < |tokens| && IsPath(tokens, n, path) && Table(tokens, n, what, was, a)
    requires if tokens[n].End? && Sort(what, path) then Gains(path, a, b, capacity) else b == a
    ensures Table(tokens, n + 1, what, was, b)
  {
    hide IsPath, Sort, Gains, Table, PartOf;
    if tokens[n].End? && Sort(what, path) {
      GainsParts(path, a, b, capacity);
      PartHere(tokens, n, what, path, b[|a|..]);
      TableMore(tokens, n, what, was, a, b[|a|..]);
    } else {
      PartHere(tokens, n, what, path, []);
      TableMore(tokens, n, what, was, a, []);
      NoPart(a);
    }
  }

  lemma VirtioNext(tokens: seq<Token>, n: nat, path: seq<Node>, start: Info, a: Info, b: Info)
    requires n < |tokens| && IsPath(tokens, n, path) && Adds(path, tokens[n], a, b)
    requires Table(tokens, n, Virtio, start.virtio, a.virtio) && IrqTable(tokens, n, start.virtioIrqs, a.virtioIrqs)
    ensures Table(tokens, n + 1, Virtio, start.virtio, b.virtio)
    ensures IrqTable(tokens, n + 1, start.virtioIrqs, b.virtioIrqs)
  {
    hide IsPath, Sort, Gains, Table, IrqTable, Images, PartOf, IrqOf, Cell;
    if tokens[n].End? && Sort(Virtio, path) {
      assert AddsVirtio(path, a, b);
      var r, irq :| Images(path, [r]) && Gives(path[|path| - 1].interrupts, 0, irq) && |a.virtio| < 16
                    && b.virtio == a.virtio + [r] && b.virtioIrqs == a.virtioIrqs + [irq];
      PartHere(tokens, n, Virtio, path, [r]);
      TableMore(tokens, n, Virtio, start.virtio, a.virtio, [r]);
      IrqHere(tokens, n, path, [irq]);
      IrqTableMore(tokens, n, start.virtioIrqs, a.virtioIrqs, [irq]);
    } else {
      PartHere(tokens, n, Virtio, path, []);
      TableMore(tokens, n, Virtio, start.virtio, a.virtio, []);
      IrqHere(tokens, n, path, []);
      IrqTableMore(tokens, n, start.virtioIrqs, a.virtioIrqs, []);
      assert b.virtio == a.virtio && b.virtioIrqs == a.virtioIrqs;
      assert a.virtio + [] == a.virtio && a.virtioIrqs + [] == a.virtioIrqs;
    }
  }

  lemma DeviceNext(tokens: seq<Token>, n: nat, what: What, path: seq<Node>, was: Option<Range>, wasNumber: nat,
                   a: Option<Range>, aNumber: nat, b: Option<Range>, bNumber: nat)
    requires n < |tokens| && IsPath(tokens, n, path) && Device(tokens, n, what, was, wasNumber, a, aNumber)
    requires if tokens[n].End? && Sort(what, path) then
               && path != [] && a.None? && b.Some? && Images(path, [b.value])
               && Gives(NumberOf(what, path[|path| - 1]), aNumber, bNumber)
             else b == a && bNumber == aNumber
    ensures Device(tokens, n + 1, what, was, wasNumber, b, bNumber)
  {
    hide IsPath, Sort, Images, Closes, Cell, NumberOf;
    ClosesHere(tokens, n, what, path);
    if tokens[n].End? && Sort(what, path) {
      assert Closes(tokens, n, what, path);
      forall k, p | 0 <= k < n ensures !Closes(tokens, k, what, p) {
      }
    }
  }

  lemma ClockNext(tokens: seq<Token>, n: nat, path: seq<Node>, was: nat, a: Info, b: Info)
    requires n < |tokens| && IsPath(tokens, n, path) && Adds(path, tokens[n], a, b) && Clock(tokens, n, was, a.timebase)
    ensures Clock(tokens, n + 1, was, b.timebase)
  {
    hide IsPath, Sort, Ascii, Be32;
    if IsClock(tokens, n) {
      var p: seq<Node> :| IsPath(tokens, n, p) && p != [] && p[|p| - 1].cpus;
      OnePath(tokens, n, p, path);
    }
  }

  lemma RecordedNext(tokens: seq<Token>, n: nat, start: Info, a: Info, b: Info)
    requires n < |tokens| && Recorded(tokens, n, start, a) && StepAdds(tokens, n, a, b)
    ensures Recorded(tokens, n + 1, start, b)
  {
    hide IsPath, Sort, Gains, Images, Table, IrqTable, Device, Clock, Gives;
    var path :| IsPath(tokens, n, path) && Adds(path, tokens[n], a, b);
    TablesNext(tokens, n, Memory, path, start.memory, a.memory, b.memory, 8);
    TablesNext(tokens, n, Reserved, path, start.reserved, a.reserved, b.reserved, 16);
    VirtioNext(tokens, n, path, start, a, b);
    DeviceNext(tokens, n, Uart, path, start.uart, start.uartIrq, a.uart, a.uartIrq, b.uart, b.uartIrq);
    DeviceNext(tokens, n, Plic, path, start.plic, start.plicSources, a.plic, a.plicSources, b.plic, b.plicSources);
    ClockNext(tokens, n, path, start.timebase, a, b);
  }

  lemma {:induction false} HistoryRecords(tokens: seq<Token>, infos: seq<Info>, n: nat)
    requires History(tokens, infos) && n <= |tokens|
    ensures Recorded(tokens, n, infos[0], infos[n])
    decreases n
  {
    hide StepAdds, Recorded;
    if n == 0 {
      NothingRecorded(tokens, infos[0]);
    } else {
      HistoryRecords(tokens, infos, n - 1);
      assert StepAdds(tokens, n - 1, infos[n - 1], infos[n - 1 + 1]);
      RecordedNext(tokens, n - 1, infos[0], infos[n - 1], infos[n]);
    }
  }

  lemma NothingRecorded(tokens: seq<Token>, start: Info)
    ensures Recorded(tokens, 0, start, start)
  {
    var none: seq<seq<Range>>, noIrqs: seq<seq<nat>> := [], [];
    assert start.memory + Flat(none) == start.memory && start.reserved + Flat(none) == start.reserved;
    assert start.virtio + Flat(none) == start.virtio && start.virtioIrqs + Flat(noIrqs) == start.virtioIrqs;
    assert |none| == 0 && |noIrqs| == 0;
  }

  /** What the parser collects is what the tree describes. */
  lemma CollectedIsRecorded(tokens: seq<Token>, start: Info)
    requires Nested(tokens) && Starting(start) && Collected(tokens, start).Ok?
    ensures Recorded(tokens, |tokens|, start, Collected(tokens, start).value)
  {
    hide Nested, Starting, Collected, StepAdds, Recorded;
    var info := Collected(tokens, start).value;
    CollectsExactly(tokens, start, info);
    var infos :| History(tokens, infos) && infos[0] == start && infos[|tokens|] == info;
    HistoryRecords(tokens, infos, |tokens|);
  }
}
