/** The flattened device tree: addresses translated through buses, and the node
    records that carry them. */
module Dtb {
  import opened Common
  import opened Physical


  datatype Error = ARGUMENT | MAGIC | VERSION | BOUNDS | STRUCTURE | PROPERTY | UNSUPPORTED | CAPACITY

  datatype Result<T> = Ok(value: T) | Err(error: Error)

  /** What is known of a node while it is open; the cell counts say how its children
      encode addresses and sizes. */
  datatype Node = Node(
    name: seq<Byte>,
    addressCells: nat,
    sizeCells: nat,
    ranges: Option<seq<Byte>>,
    reg: Option<seq<Byte>>,
    compatible: seq<Byte>,
    deviceType: Option<seq<Byte>>,
    status: Option<seq<Byte>>,
    interrupts: Option<seq<Byte>>,
    sources: Option<seq<Byte>>,
    reservedMemory: bool,
    cpus: bool)

  datatype Range = Range(base: nat, size: nat)

  // ----- numbers

  function Be32(bytes: seq<Byte>, at: nat): (v: nat)
    requires at + 4 <= |bytes|
    ensures v < WORD32
  {
    var b0: int, b1: int, b2: int, b3: int := bytes[at], bytes[at + 1], bytes[at + 2], bytes[at + 3];
    b0 * 0x100_0000 + b1 * 0x1_0000 + b2 * 0x100 + b3
  }

  function Be64(bytes: seq<Byte>, at: nat): (v: nat)
    requires at + 8 <= |bytes|
    ensures v < WORD64
  {
    Be32(bytes, at) * WORD32 + Be32(bytes, at + 4)
  }

  /** A number of up to two cells. */
  function Cells(bytes: seq<Byte>, at: nat, n: nat): (v: nat)
    requires at + 4 * n <= |bytes| && n <= 2
    ensures v < WORD64
  {
    if n == 0 then 0 else if n == 1 then Be32(bytes, at) else Be64(bytes, at)
  }

  method DecodeCells(bytes: seq<Byte>, at: nat, cells: nat) returns (r: Result<nat>)
    requires cells <= 2 ==> at + 4 * cells <= |bytes|
    ensures r == if cells > 2 then Err(UNSUPPORTED) else Ok(Cells(bytes, at, cells))
  {
    if cells > 2 {
      return Err(UNSUPPORTED);
    }
    var value, i := 0, 0;
    while i < cells
      invariant 0 <= i <= cells && value == Cells(bytes, at, i)
    {
      value := value * WORD32 + Be32(bytes, at + 4 * i);
      i := i + 1;
    }
    r := Ok(value);
  }

  // ----- one bus

  /** One entry of a bus's address map. */
  datatype Window = Window(child: nat, parent: nat, size: nat)

  function EntrySize(bus: Node, parent: Node): nat {
    4 * (bus.addressCells + parent.addressCells + bus.sizeCells)
  }

  predicate FewCells(bus: Node, parent: Node) {
    bus.addressCells <= 2 && parent.addressCells <= 2 && bus.sizeCells <= 2
  }

  function WindowAt(bus: Node, parent: Node, bytes: seq<Byte>, at: nat): Window
    requires FewCells(bus, parent) && at + EntrySize(bus, parent) <= |bytes|
  {
    var second := at + 4 * bus.addressCells;
    var third := second + 4 * parent.addressCells;
    Window(Cells(bytes, at, bus.addressCells), Cells(bytes, second, parent.addressCells),
           Cells(bytes, third, bus.sizeCells))
  }

  /** The window holds the whole range, and its image does not overflow. */
  predicate Carries(w: Window, address: nat, size: nat, image: nat) {
    && w.child <= address && address + size <= w.child + w.size
    && image == w.parent + (address - w.child) && image < WORD64
  }

  predicate Holds(w: Window, address: nat, size: nat) {
    w.child <= address && address + size <= w.child + w.size
  }

  /** The first entry from an offset on whose window holds the range. */
  ghost predicate FirstHolding(bus: Node, parent: Node, bytes: seq<Byte>, at: nat, address: nat, size: nat,
                               entry: nat) {
    && at <= entry && IsEntry(bus, parent, bytes, entry) && Holds(WindowAt(bus, parent, bytes, entry), address, size)
    && forall k: nat ::
         at <= k < entry && IsEntry(bus, parent, bytes, k) ==> !Holds(WindowAt(bus, parent, bytes, k), address, size)
  }

  /** A range crosses a bus: unchanged if the map is present and empty, and
      otherwise through the first window that holds all of it. */
  ghost predicate Crosses(bus: Node, parent: Node, address: nat, size: nat, image: nat) {
    && bus.ranges.Some?
    && var bytes := bus.ranges.value;
    && (bytes == [] ==> image == address)
    && (bytes != [] ==>
          && FewCells(bus, parent) && EntrySize(bus, parent) > 0 && |bytes| % EntrySize(bus, parent) == 0
          && exists at: nat ::
               FirstHolding(bus, parent, bytes, 0, address, size, at)
               && Carries(WindowAt(bus, parent, bytes, at), address, size, image))
  }

  predicate IsEntry(bus: Node, parent: Node, bytes: seq<Byte>, at: nat) {
    FewCells(bus, parent) && EntrySize(bus, parent) > 0 && at % EntrySize(bus, parent) == 0
    && at + EntrySize(bus, parent) <= |bytes|
  }

  /** The first window from an offset on that holds the range decides. */
  function Through(bus: Node, parent: Node, bytes: seq<Byte>, at: nat, address: nat, size: nat): Result<nat>
    requires FewCells(bus, parent) && EntrySize(bus, parent) > 0
    decreases |bytes| - at
  {
    if at + EntrySize(bus, parent) > |bytes| then Err(PROPERTY)
    else
      var w := WindowAt(bus, parent, bytes, at);
      if Holds(w, address, size) then
        if w.parent + (address - w.child) >= WORD64 then Err(PROPERTY) else Ok(w.parent + (address - w.child))
      else Through(bus, parent, bytes, at + EntrySize(bus, parent), address, size)
  }

  function Crossed(bus: Node, parent: Node, address: nat, size: nat): Result<nat> {
    if bus.ranges.None? then Err(UNSUPPORTED)
    else if bus.ranges.value == [] then Ok(address)
    else if !FewCells(bus, parent) then Err(UNSUPPORTED)
    else if EntrySize(bus, parent) == 0 || |bus.ranges.value| % EntrySize(bus, parent) != 0 then Err(PROPERTY)
    else Through(bus, parent, bus.ranges.value, 0, address, size)
  }

  /** An address goes through a map exactly to its image in the first window that holds
      the whole range, unless that leaves 64 bits. */
  lemma {:induction false} ThroughExact(bus: Node, parent: Node, bytes: seq<Byte>, at: nat, address: nat, size: nat,
                                        image: nat)
    requires FewCells(bus, parent) && EntrySize(bus, parent) > 0 && at % EntrySize(bus, parent) == 0
    ensures Through(bus, parent, bytes, at, address, size) == Ok(image) <==>
            exists entry: nat ::
              FirstHolding(bus, parent, bytes, at, address, size, entry)
              && Carries(WindowAt(bus, parent, bytes, entry), address, size, image)
    decreases |bytes| - at
  {
    hide WindowAt, EntrySize, FirstHolding, Carries, Holds;
    var n := EntrySize(bus, parent);
    if at + n > |bytes| {
      forall entry: nat ensures !FirstHolding(bus, parent, bytes, at, address, size, entry) {
        TooLate(bus, parent, bytes, at, address, size, entry);
      }
    } else if Holds(WindowAt(bus, parent, bytes, at), address, size) {
      HeldHere(bus, parent, bytes, at, address, size, image);
    } else {
      CellBytes(bus, parent);
      NextEntry(at, n);
      ThroughExact(bus, parent, bytes, at + n, address, size, image);
      forall entry: nat
        ensures FirstHolding(bus, parent, bytes, at, address, size, entry) <==>
                  FirstHolding(bus, parent, bytes, at + n, address, size, entry)
      {
        NotHere(bus, parent, bytes, at, address, size, entry);
      }
    }
  }

  lemma TooLate(bus: Node, parent: Node, bytes: seq<Byte>, at: nat, address: nat, size: nat, entry: nat)
    requires at + EntrySize(bus, parent) > |bytes|
    ensures !FirstHolding(bus, parent, bytes, at, address, size, entry)
  {
    hide WindowAt, EntrySize;
  }

  lemma HeldHere(bus: Node, parent: Node, bytes: seq<Byte>, at: nat, address: nat, size: nat, image: nat)
    requires IsEntry(bus, parent, bytes, at) && Holds(WindowAt(bus, parent, bytes, at), address, size)
    ensures Through(bus, parent, bytes, at, address, size) == Ok(image) <==>
            exists entry: nat ::
              FirstHolding(bus, parent, bytes, at, address, size, entry)
              && Carries(WindowAt(bus, parent, bytes, entry), address, size, image)
  {
    hide WindowAt, EntrySize;
    assert FirstHolding(bus, parent, bytes, at, address, size, at);
    forall entry: nat ensures FirstHolding(bus, parent, bytes, at, address, size, entry) ==> entry == at { }
  }

  lemma NotHere(bus: Node, parent: Node, bytes: seq<Byte>, at: nat, address: nat, size: nat, entry: nat)
    requires IsEntry(bus, parent, bytes, at) && !Holds(WindowAt(bus, parent, bytes, at), address, size)
    ensures FirstHolding(bus, parent, bytes, at, address, size, entry) <==>
              FirstHolding(bus, parent, bytes, at + EntrySize(bus, parent), address, size, entry)
  {
    hide WindowAt, EntrySize, Holds;
    CellBytes(bus, parent);
    forall k: nat | at < k && IsEntry(bus, parent, bytes, k) ensures at + EntrySize(bus, parent) <= k {
      FitsEntry(at, k, EntrySize(bus, parent));
    }
  }

  lemma CellBytes(bus: Node, parent: Node)
    requires FewCells(bus, parent) && EntrySize(bus, parent) > 0
    ensures var n := EntrySize(bus, parent); n == 4 || n == 8 || n == 12 || n == 16 || n == 20 || n == 24
  {
  }

  /** Entries have at most six cells. */
  lemma NextEntry(at: nat, n: nat)
    requires (n == 4 || n == 8 || n == 12 || n == 16 || n == 20 || n == 24) && at % n == 0
    ensures (at + n) % n == 0
  {
  }

  /** The walk along the map, entry by entry. */
  method CrossBus(bus: Node, parent: Node, address: nat, size: nat) returns (r: Result<nat>)
    ensures r == Crossed(bus, parent, address, size)
  {
    if bus.ranges.None? {
      return Err(UNSUPPORTED);
    }
    var bytes := bus.ranges.value;
    if |bytes| == 0 {
      return Ok(address);
    }
    if bus.addressCells > 2 || parent.addressCells > 2 || bus.sizeCells > 2 {
      return Err(UNSUPPORTED);
    }
    var entrySize := 4 * (bus.addressCells + parent.addressCells + bus.sizeCells);
    if entrySize == 0 || |bytes| % entrySize != 0 {
      return Err(PROPERTY);
    }
    r := FindWindow(bus, parent, bytes, address, size);
  }

  method FindWindow(bus: Node, parent: Node, bytes: seq<Byte>, address: nat, size: nat) returns (r: Result<nat>)
    requires FewCells(bus, parent) && EntrySize(bus, parent) > 0 && |bytes| % EntrySize(bus, parent) == 0
    ensures r == Through(bus, parent, bytes, 0, address, size)
  {
    hide WindowAt;
    var at, n := 0, EntrySize(bus, parent);
    while at < |bytes|
      invariant 0 <= at <= |bytes| && at % n == 0
      invariant Through(bus, parent, bytes, 0, address, size) == Through(bus, parent, bytes, at, address, size)
      decreases |bytes| - at
    {
      FitsEntry(at, |bytes|, n);
      var w := WindowAt(bus, parent, bytes, at);
      if address >= w.child && size <= w.size && address - w.child <= w.size - size {
        var displacement := address - w.child;
        if w.parent + displacement >= WORD64 {
          return Err(PROPERTY);
        }
        return Ok(w.parent + displacement);
      }
      NextEntry(at, n);
      at := at + n;
    }
    r := Err(PROPERTY);
  }

  lemma FitsEntry(at: nat, length: nat, n: nat)
    requires (n == 4 || n == 8 || n == 12 || n == 16 || n == 20 || n == 24) && at % n == 0 && length % n == 0
             && at < length
    ensures at + n <= length
  {
  }

  /** Crossing a bus gives an address exactly when the range crosses to it. */
  lemma CrossedExact(bus: Node, parent: Node, address: nat, size: nat, image: nat)
    ensures Crossed(bus, parent, address, size) == Ok(image) <==> Crosses(bus, parent, address, size, image)
  {
    hide WindowAt, FirstHolding, Carries, Through, EntrySize;
    if bus.ranges.Some? && bus.ranges.value != [] && FewCells(bus, parent) && EntrySize(bus, parent) > 0 {
      ThroughExact(bus, parent, bus.ranges.value, 0, address, size, image);
    }
  }

  // ----- up to the root

  /** From the bus at depth `d` of a path of nodes up to the root's address space. */
  function Translated(path: seq<Node>, d: nat, size: nat, address: nat): Result<nat>
    requires d < |path|
    decreases d
  {
    if d == 0 then Ok(address)
    else
      match Crossed(path[d], path[d - 1], address, size)
      case Err(e) => Err(e)
      case Ok(image) => Translated(path, d - 1, size, image)
  }

  /** The range reaches the root through one window per bus, or unchanged where the
      map is empty. */
  ghost predicate Reaches(path: seq<Node>, d: nat, address: nat, size: nat, base: nat)
    requires d < |path|
    decreases d
  {
    if d == 0 then base == address
    else
      var bus, above, next := path[d], path[d - 1], d - 1;
      exists image: nat :: Crosses(bus, above, address, size, image) && Reaches(path, next, image, size, base)
  }

  /** Translation gives an address exactly when the range reaches it. */
  lemma {:induction false} TranslatedExact(path: seq<Node>, d: nat, size: nat, address: nat, base: nat)
    requires d < |path|
    ensures Translated(path, d, size, address) == Ok(base) <==> Reaches(path, d, address, size, base)
    decreases d
  {
    hide Crossed, Crosses;
    if d > 0 {
      var bus, above, next := path[d], path[d - 1], d - 1;
      forall image: nat
        ensures Crossed(bus, above, address, size) == Ok(image) <==> Crosses(bus, above, address, size, image) {
        CrossedExact(bus, above, address, size, image);
      }
      var r := Crossed(bus, above, address, size);
      if r.Ok? {
        TranslatedExact(path, next, size, r.value, base);
      }
    }
  }

  method TranslateAddress(path: seq<Node>, depth: nat, size: nat, address: nat) returns (r: Result<nat>)
    requires 0 < depth < |path|
    ensures r == Translated(path, depth - 1, size, address)
  {
    hide Crossed;
    var bus, at := depth - 1, address;
    while bus > 0
      invariant 0 <= bus < depth && Translated(path, depth - 1, size, address) == Translated(path, bus, size, at)
    {
      var step := CrossBus(path[bus], path[bus - 1], at, size);
      if step.Err? {
        return step;
      }
      at := step.value;
      bus := bus - 1;
    }
    r := Ok(at);
  }

  // ----- the reg property

  function TupleSize(parent: Node): nat {
    4 * (parent.addressCells + parent.sizeCells)
  }

  /** The address and size of the tuple at an offset. */
  function TupleAt(parent: Node, reg: seq<Byte>, at: nat): Range
    requires parent.addressCells <= 2 && parent.sizeCells <= 2 && at + TupleSize(parent) <= |reg|
  {
    Range(Cells(reg, at, parent.addressCells), Cells(reg, at + 4 * parent.addressCells, parent.sizeCells))
  }

  /** Adds a range that is not empty, within a capacity. */
  function WithRange(ranges: seq<Range>, capacity: nat, r: Range): Result<seq<Range>> {
    if r.size == 0 then Ok(ranges)
    else if r.base + r.size >= WORD64 then Err(PROPERTY)
    else if |ranges| >= capacity then Err(CAPACITY)
    else Ok(ranges + [r])
  }

  function RegFrom(path: seq<Node>, reg: seq<Byte>, at: nat, ranges: seq<Range>, capacity: nat): Result<seq<Range>>
    requires |path| >= 2 && var parent := path[|path| - 2];
             parent.addressCells <= 2 && parent.sizeCells <= 2 && TupleSize(parent) > 0
    decreases |reg| - at
  {
    var parent := path[|path| - 2];
    if at + TupleSize(parent) > |reg| then Ok(ranges)
    else
      var t := TupleAt(parent, reg, at);
      match Translated(path, |path| - 2, t.size, t.base)
      case Err(e) => Err(e)
      case Ok(base) =>
        match WithRange(ranges, capacity, Range(base, t.size))
        case Err(e) => Err(e)
        case Ok(more) => RegFrom(path, reg, at + TupleSize(parent), more, capacity)
  }

  /** All ranges of the innermost node of a path, added to those before. */
  function RegAll(path: seq<Node>, ranges: seq<Range>, capacity: nat): Result<seq<Range>>
    requires |path| > 0
  {
    var node := path[|path| - 1];
    if node.reg.None? then Err(PROPERTY)
    else if |path| == 1 then Err(STRUCTURE)
    else
      var parent := path[|path| - 2];
      if parent.addressCells > 2 || parent.sizeCells > 2 then Err(UNSUPPORTED)
      else if TupleSize(parent) == 0 || node.reg.value == [] || |node.reg.value| % TupleSize(parent) != 0 then
        Err(PROPERTY)
      else RegFrom(path, node.reg.value, 0, ranges, capacity)
  }

  /** A recorded range: not empty, within 64 bits, and the image at the root of one of
      the node's own tuples. */
  ghost predicate FromReg(path: seq<Node>, r: Range) {
    && |path| >= 2 && path[|path| - 1].reg.Some?
    && var parent, reg := path[|path| - 2], path[|path| - 1].reg.value;
    && parent.addressCells <= 2 && parent.sizeCells <= 2 && 0 < r.size && r.base + r.size < WORD64
    && exists at: nat :: at + TupleSize(parent) <= |reg| && IsImage(path, TupleAt(parent, reg, at), r)
  }

  ghost predicate IsImage(path: seq<Node>, t: Range, r: Range)
    requires |path| >= 2
  {
    t.size == r.size && Reaches(path, |path| - 2, t.base, t.size, r.base)
  }

  /** From an offset on, `added` lists the images of the tuples that are not empty, in
      order; the empty ones must have an image too. */
  ghost predicate Lists(path: seq<Node>, reg: seq<Byte>, at: nat, added: seq<Range>)
    requires |path| >= 2 && var parent := path[|path| - 2];
             parent.addressCells <= 2 && parent.sizeCells <= 2 && TupleSize(parent) > 0
    decreases |reg| - at
  {
    var parent := path[|path| - 2];
    var n := TupleSize(parent);
    if at + n > |reg| then added == []
    else
      var t := TupleAt(parent, reg, at);
      if t.size == 0 then (exists r :: IsImage(path, t, r)) && Lists(path, reg, at + n, added)
      else added != [] && added[0].base + added[0].size < WORD64 && IsImage(path, t, added[0])
           && Lists(path, reg, at + n, added[1..])
  }

  lemma ImageExact(path: seq<Node>, t: Range)
    requires |path| >= 2
    ensures forall r ::
              IsImage(path, t, r) <==> Translated(path, |path| - 2, t.size, t.base) == Ok(r.base) && r.size == t.size
  {
    hide Translated, Reaches;
    forall r ensures IsImage(path, t, r) <==>
             Translated(path, |path| - 2, t.size, t.base) == Ok(r.base) && r.size == t.size {
      TranslatedExact(path, |path| - 2, t.size, t.base, r.base);
    }
  }

  /** A register property is accepted exactly when every tuple translates and everything
      fits, and then exactly the images of its non-empty tuples are added, in order. */
  lemma {:induction false} RegFromExact(path: seq<Node>, reg: seq<Byte>, at: nat, ranges: seq<Range>, capacity: nat,
                                        all: seq<Range>)
    requires |path| >= 2 && var parent := path[|path| - 2];
             parent.addressCells <= 2 && parent.sizeCells <= 2 && TupleSize(parent) > 0
    requires |ranges| <= capacity
    ensures RegFrom(path, reg, at, ranges, capacity) == Ok(all) <==>
              ranges <= all && |all| <= capacity && Lists(path, reg, at, all[|ranges|..])
    decreases |reg| - at
  {
    hide TupleAt, Translated, IsImage, TupleSize;
    var parent := path[|path| - 2];
    var n := TupleSize(parent);
    if at + n > |reg| {
      assert ranges <= all && all[|ranges|..] == [] ==> all == ranges;
    } else {
      var t := TupleAt(parent, reg, at);
      ImageExact(path, t);
      var base := Translated(path, |path| - 2, t.size, t.base);
      if base.Ok? {
        var r := Range(base.value, t.size);
        assert IsImage(path, t, r);
        var more := WithRange(ranges, capacity, r);
        if more.Ok? {
          RegFromExact(path, reg, at + n, more.value, capacity, all);
        }
        OneMore(ranges, r, all);
      }
    }
  }

  lemma OneMore(ranges: seq<Range>, r: Range, all: seq<Range>)
    ensures ranges + [r] <= all <==> ranges <= all && |all| > |ranges| && all[|ranges|] == r
    ensures ranges <= all && |all| > |ranges| ==>
              all[|ranges|..][0] == all[|ranges|] && all[|ranges|..][1..] == all[|ranges| + 1..]
  {
    if ranges <= all && |all| > |ranges| && all[|ranges|] == r {
      assert all[..|ranges| + 1] == ranges + [r];
    }
  }

  /** What can be read as a list of tuples. */
  predicate RegOk(path: seq<Node>)
    requires |path| > 0
  {
    && path[|path| - 1].reg.Some? && |path| >= 2
    && var parent, reg := path[|path| - 2], path[|path| - 1].reg.value;
    && parent.addressCells <= 2 && parent.sizeCells <= 2 && TupleSize(parent) > 0 && reg != []
    && |reg| % TupleSize(parent) == 0
  }

  lemma RegExact(path: seq<Node>, ranges: seq<Range>, capacity: nat, all: seq<Range>)
    requires |path| > 0 && |ranges| <= capacity
    ensures RegAll(path, ranges, capacity) == Ok(all) <==>
            RegOk(path) && ranges <= all && |all| <= capacity
            && Lists(path, path[|path| - 1].reg.value, 0, all[|ranges|..])
  {
    hide RegFrom, Lists, TupleSize;
    if RegOk(path) {
      RegFromExact(path, path[|path| - 1].reg.value, 0, ranges, capacity, all);
    }
  }

  lemma {:induction false} ListedFrom(path: seq<Node>, reg: seq<Byte>, at: nat, added: seq<Range>, i: nat)
    requires |path| >= 2 && path[|path| - 1].reg == Some(reg) && i < |added|
    requires var parent := path[|path| - 2]; parent.addressCells <= 2 && parent.sizeCells <= 2 && TupleSize(parent) > 0
    requires Lists(path, reg, at, added)
    ensures FromReg(path, added[i])
    decreases |reg| - at
  {
    hide TupleAt, IsImage, TupleSize;
    var parent := path[|path| - 2];
    var n := TupleSize(parent);
    var t := TupleAt(parent, reg, at);
    if t.size == 0 {
      ListedFrom(path, reg, at + n, added, i);
    } else if i > 0 {
      ListedFrom(path, reg, at + n, added[1..], i - 1);
    } else {
      SameSize(path, t, added[0]);
    }
  }

  lemma SameSize(path: seq<Node>, t: Range, r: Range)
    requires |path| >= 2 && IsImage(path, t, r)
    ensures r.size == t.size
  {
    hide Reaches;
  }

  /** So everything that is added comes from a tuple of the node. */
  lemma RegSound(path: seq<Node>, ranges: seq<Range>, capacity: nat)
    requires |path| > 0 && |ranges| <= capacity
    ensures var r := RegAll(path, ranges, capacity);
            r.Ok? ==>
              |r.value| <= capacity && ranges <= r.value
              && forall i :: |ranges| <= i < |r.value| ==> FromReg(path, r.value[i])
  {
    hide RegAll, FromReg, Lists, TupleSize;
    var r := RegAll(path, ranges, capacity);
    if r.Ok? {
      RegExact(path, ranges, capacity, r.value);
      forall i | |ranges| <= i < |r.value| ensures FromReg(path, r.value[i]) {
        ListedFrom(path, path[|path| - 1].reg.value, 0, r.value[|ranges|..], i - |ranges|);
      }
    }
  }

  method AddRange(ranges: seq<Range>, capacity: nat, base: nat, size: nat) returns (r: Result<seq<Range>>)
    requires |ranges| <= capacity
    ensures r == WithRange(ranges, capacity, Range(base, size))
    ensures r.Ok? <==> size == 0 || (base + size < WORD64 && |ranges| < capacity)
    ensures r.Ok? && size > 0 ==>
              |r.value| == |ranges| + 1 <= capacity && ranges <= r.value && r.value[|ranges|] == Range(base, size)
  {
    if size == 0 {
      return Ok(ranges);
    }
    if base + size >= WORD64 {
      return Err(PROPERTY);
    }
    if |ranges| == capacity {
      return Err(CAPACITY);
    }
    r := Ok(ranges + [Range(base, size)]);
  }

  method ParseReg(path: seq<Node>, ranges: seq<Range>, capacity: nat) returns (r: Result<seq<Range>>)
    requires |path| > 0 && |ranges| <= capacity
    ensures r == RegAll(path, ranges, capacity)
  {
    hide Translated, TupleAt;
    RegSound(path, ranges, capacity);
    var depth := |path| - 1;
    var node := path[depth];
    if node.reg.None? {
      return Err(PROPERTY);
    }
    if depth == 0 {
      return Err(STRUCTURE);
    }
    var parent := path[depth - 1];
    if parent.addressCells > 2 || parent.sizeCells > 2 {
      return Err(UNSUPPORTED);
    }
    var n, reg := TupleSize(parent), node.reg.value;
    if n == 0 || |reg| == 0 || |reg| % n != 0 {
      return Err(PROPERTY);
    }
    var at, sofar := 0, ranges;
    while at < |reg|
      invariant 0 <= at <= |reg| && at % n == 0 && |sofar| <= capacity
      invariant RegAll(path, ranges, capacity) == RegFrom(path, reg, at, sofar, capacity)
      decreases |reg| - at
    {
      FitsEntry(at, |reg|, n);
      var t := TupleAt(parent, reg, at);
      var base := TranslateAddress(path, depth, t.size, t.base);
      if base.Err? {
        return Err(base.error);
      }
      var more := AddRange(sofar, capacity, base.value, t.size);
      if more.Err? {
        return more;
      }
      sofar := more.value;
      NextEntry(at, n);
      at := at + n;
    }
    r := Ok(sofar);
  }
}
