/** The loops of the device tree parser. */
module FdtParser {
  import opened Common
  import opened Physical
  import opened Dtb
  import opened Fdt
  import opened TreeContents

  /** Looks for the zero that ends a string, within its block. */
  method FindZero(bytes: seq<Byte>, from: nat) returns (found: bool, at: nat)
    requires from <= |bytes|
    ensures ZeroFrom(bytes, from) == if found then Some(at - from) else None
    ensures found ==> from <= at < |bytes|
    ensures !found ==> at == |bytes|
  {
    at := from;
    while at < |bytes| && bytes[at] != 0
      invariant from <= at <= |bytes| && forall i :: from <= i < at ==> bytes[i] != 0
    {
      at := at + 1;
    }
    found := at < |bytes|;
    ZeroIs(bytes, from, at);
  }

  lemma {:induction false} ZeroIs(bytes: seq<Byte>, from: nat, at: nat)
    requires from <= at <= |bytes| && (forall i :: from <= i < at ==> bytes[i] != 0)
             && (at < |bytes| ==> bytes[at] == 0)
    ensures ZeroFrom(bytes, from) == if at < |bytes| then Some(at - from) else None
    decreases at - from
  {
    if from < at {
      ZeroIs(bytes, from + 1, at);
    }
  }

  method CompatibleHas(node: Node, text: string) returns (has: bool)
    requires forall i :: 0 <= i < |text| ==> 0 < text[i] as int < 256
    ensures has == Compatible(node, text) && (has <==> OneOf(node.compatible, Ascii(text)))
  {
    hide ZeroFrom, Ascii, OneOf;
    CompatibleMeans(node, text);
    var list, wanted, at := node.compatible, Ascii(text), 0;
    while at < |list|
      invariant 0 <= at <= |list| && HasString(list, 0, wanted) == HasString(list, at, wanted)
      decreases |list| - at
    {
      var found, end := FindZero(list, at);
      if !found {
        return false;
      }
      if list[at..end] == wanted {
        return true;
      }
      at := end + 1;
    }
    has := false;
  }

  /** Extracts what a complete node contributes. */
  method FinishNode(path: seq<Node>, info: Info) returns (r: Result<Info>)
    requires path != [] && Starting(info)
    ensures r == Closed(path, info) && forall b :: r == Ok(b) <==> Adds(path, End, info, b)
  {
    hide Compatible, RegAll, Says, Adds;
    forall b ensures Closed(path, info) == Ok(b) <==> Adds(path, End, info, b) { ClosedAdds(path, info, b); }
    r := Ok(info);
    var node, depth := path[|path| - 1], |path| - 1;
    var enabled := Enabled(node);
    Steps(path, info);
    if enabled && node.deviceType.Some? && Says(node.deviceType.value, "memory") {
      var ranges := ParseReg(path, info.memory, MAX_MEMORY);
      if ranges.Err? {
        return Err(ranges.error);
      }
      r := Ok(info.(memory := ranges.value));
    }
    if enabled && depth > 0 && path[depth - 1].reservedMemory && node.reg.Some? {
      var ranges := ParseReg(path, r.value.reserved, MAX_RESERVED);
      if ranges.Err? {
        return Err(ranges.error);
      }
      r := Ok(r.value.(reserved := ranges.value));
    }
    if !enabled {
      return;
    }
    r := FinishDevice(path, r.value);
  }

  /** The steps one by one. */
  lemma Steps(path: seq<Node>, info: Info)
    requires path != []
    ensures var a := WithMemory(path, info);
            Closed(path, info) == if a.Err? then a else var b := WithReserved(path, a.value);
            if b.Err? then b else Devices(path, b.value)
    ensures !Enabled(path[|path| - 1]) ==> forall i :: Devices(path, i) == Ok(i)
  {
    hide Compatible, RegAll, Says;
  }

  ghost function Devices(path: seq<Node>, info: Info): Result<Info>
    requires path != []
  {
    Then(Then(WithUart(path, info), path, WithPlic), path, WithVirtio)
  }

  method FirstReg(path: seq<Node>) returns (r: Result<Range>)
    requires path != []
    ensures r == OneReg(path)
  {
    hide RegAll;
    var ranges := ParseReg(path, [], 1);
    if ranges.Err? {
      return Err(ranges.error);
    }
    r := if |ranges.value| == 1 then Ok(ranges.value[0]) else Err(PROPERTY);
  }

  /** The number a one-cell property gives, or the one there was. */
  method ReadCell(value: Option<seq<Byte>>, was: nat, e: Error) returns (r: Result<nat>)
    ensures r == OneCell(value, was, e)
  {
    hide Be32;
    if value.None? {
      return Ok(was);
    }
    if |value.value| != 4 {
      return Err(e);
    }
    return Ok(Be32(value.value, 0));
  }

  method FinishUart(path: seq<Node>, info: Info) returns (r: Result<Info>)
    requires path != [] && Enabled(path[|path| - 1])
    ensures r == WithUart(path, info)
  {
    hide Compatible, OneReg, OneCell, OneOf, Ascii, Enabled;
    var node := path[|path| - 1];
    var one := CompatibleHas(node, "ns16550a");
    var two := CompatibleHas(node, "sifive,uart0");
    if !one && !two {
      return Ok(info);
    }
    if info.uart.Some? {
      return Err(CAPACITY);
    }
    var window := FirstReg(path);
    if window.Err? {
      return Err(window.error);
    }
    var irq := ReadCell(node.interrupts, info.uartIrq, UNSUPPORTED);
    if irq.Err? {
      return Err(irq.error);
    }
    r := Ok(info.(uart := Some(window.value), uartIrq := irq.value));
  }

  method FinishPlic(path: seq<Node>, info: Info) returns (r: Result<Info>)
    requires path != [] && Enabled(path[|path| - 1])
    ensures r == WithPlic(path, info)
  {
    hide Compatible, OneReg, OneCell, OneOf, Ascii, Enabled;
    var node := path[|path| - 1];
    var one := CompatibleHas(node, "sifive,plic-1.0.0");
    var two := CompatibleHas(node, "riscv,plic0");
    if !one && !two {
      return Ok(info);
    }
    if info.plic.Some? {
      return Err(CAPACITY);
    }
    var window := FirstReg(path);
    if window.Err? {
      return Err(window.error);
    }
    var sources := ReadCell(node.sources, info.plicSources, PROPERTY);
    if sources.Err? {
      return Err(sources.error);
    }
    r := Ok(info.(plic := Some(window.value), plicSources := sources.value));
  }

  method FinishVirtio(path: seq<Node>, info: Info) returns (r: Result<Info>)
    requires path != [] && Enabled(path[|path| - 1])
    ensures r == WithVirtio(path, info)
  {
    hide Compatible, OneReg, OneCell, OneOf, Ascii, Enabled;
    var node := path[|path| - 1];
    var one := CompatibleHas(node, "virtio,mmio");
    if !one {
      return Ok(info);
    }
    if |info.virtio| >= MAX_VIRTIO {
      return Err(CAPACITY);
    }
    var window := FirstReg(path);
    if window.Err? {
      return Err(window.error);
    }
    var irq := ReadCell(node.interrupts, 0, UNSUPPORTED);
    if irq.Err? {
      return Err(irq.error);
    }
    r := Ok(info.(virtio := info.virtio + [window.value], virtioIrqs := info.virtioIrqs + [irq.value]));
  }

  method FinishDevice(path: seq<Node>, info: Info) returns (r: Result<Info>)
    requires path != [] && Enabled(path[|path| - 1])
    ensures r == Devices(path, info)
  {
    hide WithUart, WithPlic, WithVirtio;
    r := FinishUart(path, info);
    if r.Err? {
      return;
    }
    r := FinishPlic(path, r.value);
    if r.Err? {
      return;
    }
    r := FinishVirtio(path, r.value);
  }

  // ----- the reservation table

  /** The entry at an offset, inside the blob and outside the other blocks. */
  predicate EntryAt(v: View, at: nat, e: Range) {
    Clear(v, at) && at + 16 <= |v.blob| && e == Range(Be64(v.blob, at), Be64(v.blob, at + 8))
  }

  /** The entries of the table, up to the first zero entry. */
  ghost predicate TableOf(v: View, entries: seq<Range>) {
    && (forall k ::
          0 <= k < |entries| ==> entries[k] != Range(0, 0) && EntryAt(v, v.reservationAt + 16 * k, entries[k]))
    && EntryAt(v, v.reservationAt + 16 * |entries|, Range(0, 0))
  }

  predicate NonEmpty(r: Range) {
    r.size != 0
  }

  function Kept(entries: seq<Range>): seq<Range> {
    if entries == [] then [] else (if NonEmpty(entries[0]) then [entries[0]] else []) + Kept(entries[1..])
  }

  /** What the boot information has room for. */
  predicate Recordable(entries: seq<Range>) {
    var kept := Kept(entries);
    |kept| <= MAX_RESERVED && forall i :: 0 <= i < |kept| ==> kept[i].base + kept[i].size < WORD64
  }

  /** The table goes on from what has been read in one way only. */
  lemma OneTable(v: View, entries: seq<Range>, all: seq<Range>, at: nat)
    requires at == v.reservationAt + 16 * |entries|
    requires TableOf(v, all)
             && forall k ::
                  0 <= k < |entries| ==> entries[k] != Range(0, 0) && EntryAt(v, v.reservationAt + 16 * k, entries[k])
    ensures |entries| <= |all| && all[..|entries|] == entries && Clear(v, at)
    ensures EntryAt(v, at, Range(0, 0)) ==> all == entries
    ensures forall e :: e != Range(0, 0) && EntryAt(v, at, e) ==> |entries| < |all| && all[|entries|] == e
  {
    hide Be64, Clear;
    assert |entries| > |all| ==> entries[|all|] == Range(0, 0);
    forall k | 0 <= k < |entries| && k < |all| ensures all[k] == entries[k] {
      assert EntryAt(v, v.reservationAt + 16 * k, entries[k]) && EntryAt(v, v.reservationAt + 16 * k, all[k]);
    }
    assert |entries| < |all| ==> EntryAt(v, at, all[|entries|]);
  }

  lemma {:induction false} KeptPrefix(entries: seq<Range>, k: nat)
    requires k <= |entries|
    ensures Kept(entries[..k]) <= Kept(entries)
  {
    if k > 0 {
      KeptPrefix(entries[1..], k - 1);
      assert entries[..k][1..] == entries[1..][..k - 1];
    }
  }

  /** An entry that cannot be recorded spoils every table that has it. */
  lemma Unrecordable(entries: seq<Range>, e: Range, all: seq<Range>)
    requires |entries| < |all| && all[..|entries|] == entries && all[|entries|] == e
    requires WithRange(Kept(entries), MAX_RESERVED, e).Err?
    ensures !Recordable(all)
  {
    hide Kept;
    KeptMore(entries, e);
    KeptPrefix(all, |entries| + 1);
    assert all[..|entries| + 1] == entries + [e];
    var n := |Kept(entries)|;
    assert Kept(entries + [e])[n] == e;
    assert |Kept(all)| > n && Kept(all)[n] == e;
  }

  /** Reads the table: what is recorded are its non-empty entries, in order, and it is
      refused only if it has no end or holds what cannot be recorded. */
  method ParseReservations(v: View) returns (r: Result<seq<Range>>, ghost entries: seq<Range>)
    requires ViewOk(v)
    ensures r.Ok? ==> TableOf(v, entries) && r.value == Kept(entries) && Recordable(entries)
    ensures forall all :: TableOf(v, all) && Recordable(all) ==> r == Ok(Kept(all))
  {
    hide Be64, ViewOk, Clear, WithRange, TableOf, EntryAt, Recordable;
    var at, ranges := v.reservationAt, [];
    entries := [];
    while true
      invariant at == v.reservationAt + 16 * |entries| && |ranges| <= MAX_RESERVED && ranges == Kept(entries)
      invariant forall i :: 0 <= i < |ranges| ==> ranges[i].base + ranges[i].size < WORD64
      invariant forall k ::
                  0 <= k < |entries| ==> entries[k] != Range(0, 0) && EntryAt(v, v.reservationAt + 16 * k, entries[k])
      decreases |v.blob| - at
    {
      forall all | TableOf(v, all)
        ensures Clear(v, at) && (EntryAt(v, at, Range(0, 0)) ==> all == entries) && |entries| <= |all|
                && all[..|entries|] == entries
        ensures forall e :: e != Range(0, 0) && EntryAt(v, at, e) ==> |entries| < |all| && all[|entries|] == e
      {
        OneTable(v, entries, all, at);
      }
      if !Clear(v, at) {
        return Err(BOUNDS), entries;
      }
      ClearMeans(v, at);
      var address, size := Be64(v.blob, at), Be64(v.blob, at + 8);
      var e := Range(address, size);
      ReadHere(v, at);
      if address == 0 && size == 0 {
        WholeTable(v, entries);
        return Ok(ranges), entries;
      }
      var more := AddRange(ranges, MAX_RESERVED, address, size);
      if more.Err? {
        forall all | TableOf(v, all) ensures !Recordable(all) {
          Unrecordable(entries, e, all);
        }
        return more, entries;
      }
      KeptMore(entries, e);
      RangeAdded(ranges, e);
      ranges := more.value;
      entries := entries + [e];
      at := at + 16;
    }
  }

  /** Sixteen bytes inside the blob that belong to no other block. */
  predicate Clear(v: View, at: nat) {
    && Within(|v.blob|, at, 16) && !Overlap(at, 16, v.structureAt, |v.structure|)
    && !Overlap(at, 16, v.stringsAt, |v.strings|)
  }

  lemma ReadHere(v: View, at: nat)
    requires Clear(v, at)
    ensures at + 16 <= |v.blob| && EntryAt(v, at, Range(Be64(v.blob, at), Be64(v.blob, at + 8)))
  {
  }

  lemma WholeTable(v: View, entries: seq<Range>)
    requires forall k ::
               0 <= k < |entries| ==> entries[k] != Range(0, 0) && EntryAt(v, v.reservationAt + 16 * k, entries[k])
    requires EntryAt(v, v.reservationAt + 16 * |entries|, Range(0, 0))
    requires |Kept(entries)| <= MAX_RESERVED
             && forall i :: 0 <= i < |Kept(entries)| ==> Kept(entries)[i].base + Kept(entries)[i].size < WORD64
    ensures TableOf(v, entries) && Recordable(entries)
  {
  }

  lemma RangeAdded(ranges: seq<Range>, e: Range)
    ensures var r := WithRange(ranges, MAX_RESERVED, e);
            r.Ok? ==>
              r.value == (ranges + if NonEmpty(e) then [e] else [])
              && (NonEmpty(e) ==> |ranges| < MAX_RESERVED && e.base + e.size < WORD64)
  {
  }

  lemma ClearMeans(v: View, at: nat)
    requires Clear(v, at)
    ensures at + 16 <= |v.blob|
  {
  }

  lemma {:induction false} KeptMore(entries: seq<Range>, e: Range)
    ensures Kept(entries + [e]) == Kept(entries) + if e.size != 0 then [e] else []
  {
    if entries == [] {
      assert [] + [e] == [e];
    } else {
      KeptMore(entries[1..], e);
      assert (entries + [e])[1..] == entries[1..] + [e];
    }
  }

  // ----- the structure block

  /** Reads one token. */
  method NextToken(v: View, at: nat) returns (l: Lexeme)
    requires at + 4 <= |v.structure|
    ensures l == Lex(v, at)
  {
    hide ZeroFrom, Be32;
    var word, next := Be32(v.structure, at), at + 4;
    if word == 1 {
      var found, end := FindZero(v.structure, next);
      if !found {
        return Bad(BOUNDS);
      }
      return Next(Begin(v.structure[next..end]), RoundUp4(end + 1));
    } else if word == 2 {
      return Next(End, next);
    } else if word == 3 {
      if !Within(|v.structure|, next, 8) {
        return Bad(STRUCTURE);
      }
      var length, nameAt, value := Be32(v.structure, next), Be32(v.structure, next + 4), next + 8;
      if !Within(|v.structure|, value, length) || nameAt >= |v.strings| {
        return Bad(BOUNDS);
      }
      var found, end := FindZero(v.strings, nameAt);
      if !found {
        return Bad(BOUNDS);
      }
      return Next(Prop(v.strings[nameAt..end], v.structure[value..value + length]), RoundUp4(value + length));
    } else if word == 4 {
      return Next(Nop, next);
    } else if word == 9 {
      return Finish;
    } else {
      return Bad(STRUCTURE);
    }
  }

  /** The loop's state after some tokens: the open nodes, what has been collected, and
      how far the tokens nest. */
  ghost predicate Following(v: View, tokens: seq<Token>, at: nat, path: seq<Node>, start: Info, info: Info,
                            sawRoot: bool) {
    && Lexed(v, 0, tokens, at) && path == PathAfter(tokens) && Collected(tokens, start) == Ok(info) && Nested(tokens)
    && |path| == Level(tokens) && |path| <= MAX_DEPTH && Roots(tokens) == (if sawRoot then 1 else 0)
    && (path != [] ==> sawRoot)
  }

  lemma FollowNext(v: View, tokens: seq<Token>, at: nat, path: seq<Node>, start: Info, info: Info, sawRoot: bool,
                   info': Info)
    requires Following(v, tokens, at, path, start, info, sawRoot) && at + 4 <= |v.structure| && Lex(v, at).Next?
    requires var t := Lex(v, at).token;
             && Gathered(path, t, info) == Ok(info')
             && (t.Begin? ==> |path| < MAX_DEPTH && (path == [] ==> !sawRoot && t.name == []))
    ensures var t := Lex(v, at).token;
            Following(v, tokens + [t], Lex(v, at).at, Opened(path, t), start, info', sawRoot || t.Begin?)
  {
    hide Lex, Lexed, Collected, PathAfter, Closed, PropOk, WithProp, NewNode, Nested;
    var t := Lex(v, at).token;
    LexedMore(v, 0, tokens, at);
    PathMore(tokens, t);
    CollectedMore(tokens, t, start);
    LevelMore(tokens, t);
    NestedMore(tokens, t);
  }

  /** A reading of the whole block that is one tree and collects without error. */
  ghost predicate Complete(v: View, start: Info, tokens: seq<Token>, end: nat) {
    Lexed(v, 0, tokens, end) && EndsAt(v, end) && OneTree(tokens) && Collected(tokens, start).Ok?
  }

  /** What the block must hold at an offset for the reading so far to go on. */
  ghost predicate GoesOn(v: View, start: Info, tokens: seq<Token>, at: nat) {
    && at + 4 <= |v.structure|
    && match Lex(v, at)
       case Bad(_) => false
       case Finish => OneTree(tokens)
       case Next(t, _) =>
         NestedAt(tokens + [t], |tokens|) && Roots(tokens + [t]) <= 1 && Collected(tokens + [t], start).Ok?
  }

  lemma MustGoOn(v: View, start: Info, tokens: seq<Token>, at: nat, all: seq<Token>, end: nat)
    requires Lexed(v, 0, tokens, at) && Complete(v, start, all, end)
    ensures GoesOn(v, start, tokens, at)
    ensures Lex(v, at).Finish? ==> all == tokens
  {
    hide Lex, Collected, NestedAt, Level, Roots;
    LexedPrefix(v, 0, tokens, at, all, end);
    var n := |tokens|;
    if n == |all| {
      assert all[n..] == [];
      assert all == tokens;
    } else {
      var t := all[n];
      assert all[n..][0] == t && all[..n + 1] == tokens + [t];
      NestedSame(all, n);
      RootsGrow(all, n + 1);
      CollectedPrefix(all, start, n + 1);
    }
  }

  lemma NestedSame(all: seq<Token>, n: nat)
    requires n < |all| && Nested(all)
    ensures NestedAt(all[..n + 1], n)
  {
    assert NestedAt(all, n) && all[..n + 1][..n] == all[..n];
  }

  lemma FollowStart(v: View, start: Info)
    ensures Following(v, [], 0, [], start, start, false)
  {
  }

  /** Walks the token stream. Success means that the whole block, up to its end mark,
      is one tree of closed nodes, and that exactly what its nodes contribute has been
      collected. */
  method ParseStructure(v: View, start: Info) returns (r: Result<Info>, ghost tokens: seq<Token>, ghost end: nat)
    requires ViewOk(v) && Starting(start)
    ensures r.Ok? ==>
              && Complete(v, start, tokens, end) && Collected(tokens, start) == r && InfoFrom(tokens, start, r.value)
              && Recorded(tokens, |tokens|, start, r.value)
    ensures forall all, last :: Complete(v, start, all, last) ==> r == Collected(all, start)
  {
    hide Lex, Lexed, Collected, PathAfter, Closed, PropOk, WithProp, NewNode, Nested, Ascii, Be32, InfoFrom, Complete,
         GoesOn, Recorded;
    var at, path, info, sawRoot := 0, [], start, false;
    tokens, end := [], 0;
    FollowStart(v, start);
    while Within(|v.structure|, at, 4)
      invariant Following(v, tokens, at, path, start, info, sawRoot) && Starting(info)
      decreases |v.structure| - at
    {
      var l := NextToken(v, at);
      forall all, last | Complete(v, start, all, last)
        ensures GoesOn(v, start, tokens, at) && (l.Finish? ==> all == tokens)
      {
        MustGoOn(v, start, tokens, at, all, last);
      }
      if GoesOn(v, start, tokens, at) {
        GoingOn(v, tokens, at, path, start, info, sawRoot);
      }
      if l.Bad? {
        return Err(l.error), tokens, at;
      }
      if l.Finish? {
        if sawRoot && path == [] {
          CollectedFrom(tokens, start);
          Completed(v, tokens, at, path, start, info);
          CollectedIsRecorded(tokens, start);
          return Ok(info), tokens, at;
        }
        return Err(STRUCTURE), tokens, at;
      }
      var t := l.token;
      ghost var before := info;
      match t {
        case Begin(name) =>
          if |path| == MAX_DEPTH {
            return Err(CAPACITY), tokens, at;
          }
          if path == [] && (sawRoot || name != []) {
            return Err(STRUCTURE), tokens, at;
          }
          FollowNext(v, tokens, at, path, start, before, sawRoot, info);
          path := path + [NewNode(name, |path|)];
          sawRoot := true;
        case End =>
          if path == [] {
            return Err(STRUCTURE), tokens, at;
          }
          var done := FinishNode(path, info);
          if done.Err? {
            return done, tokens, at;
          }
          info := done.value;
          FollowNext(v, tokens, at, path, start, before, sawRoot, info);
          path := path[..|path| - 1];
        case Prop(name, value) =>
          if path == [] {
            return Err(STRUCTURE), tokens, at;
          }
          var node := path[|path| - 1];
          if !PropOk(node, name, value) {
            return Err(PROPERTY), tokens, at;
          }
          if node.cpus && name == Ascii("timebase-frequency") && |value| == 4 {
            info := info.(timebase := Be32(value, 0));
          }
          FollowNext(v, tokens, at, path, start, before, sawRoot, info);
          path := path[|path| - 1 := WithProp(node, name, value)];
        case Nop =>
          FollowNext(v, tokens, at, path, start, before, sawRoot, info);
      }
      tokens := tokens + [t];
      CollectedFrom(tokens, start);
      StillStarting(tokens, start, info);
      at := l.at;
    }
    forall all, last | Complete(v, start, all, last) ensures GoesOn(v, start, tokens, at) {
      MustGoOn(v, start, tokens, at, all, last);
    }
    Exhausted(v, start, tokens, at);
    r := Err(STRUCTURE);
  }

  lemma Completed(v: View, tokens: seq<Token>, at: nat, path: seq<Node>, start: Info, info: Info)
    requires Following(v, tokens, at, path, start, info, true) && path == [] && EndsAt(v, at)
    ensures Complete(v, start, tokens, at)
  {
    hide Lex, Lexed, Collected, PathAfter, Nested;
  }

  /** What going on means in terms of the loop's state. */
  lemma GoingOn(v: View, tokens: seq<Token>, at: nat, path: seq<Node>, start: Info, info: Info, sawRoot: bool)
    requires Following(v, tokens, at, path, start, info, sawRoot) && GoesOn(v, start, tokens, at)
    ensures at + 4 <= |v.structure|
    ensures match Lex(v, at)
            case Bad(_) => false
            case Finish => sawRoot && path == []
            case Next(t, _) =>
              && Gathered(path, t, info).Ok?
              && match t
                 case Begin(name) => |path| < MAX_DEPTH && (path == [] ==> !sawRoot && name == [])
                 case Nop => true
                 case _ => path != []
  {
    hide Lex, Lexed, Collected, PathAfter, Closed, PropOk, WithProp, NewNode, Nested;
    if Lex(v, at).Next? {
      var t := Lex(v, at).token;
      CollectedMore(tokens, t, start);
      LevelMore(tokens, t);
      assert (tokens + [t])[..|tokens|] == tokens && (tokens + [t])[|tokens|] == t;
    }
  }

  lemma Exhausted(v: View, start: Info, tokens: seq<Token>, at: nat)
    requires at + 4 > |v.structure|
    ensures !GoesOn(v, start, tokens, at)
  {
  }

  lemma StillStarting(tokens: seq<Token>, start: Info, info: Info)
    requires InfoFrom(tokens, start, info)
    ensures Starting(info)
  {
  }

  /** The entry point: header, reservations, structure. */
  method Parse(bytes: seq<Byte>) returns (r: Result<Info>, ghost tokens: seq<Token>, ghost entries: seq<Range>)
    requires Readable(bytes)
    ensures r.Ok? ==>
              && HeaderOk(bytes) && TableOf(ViewOf(bytes), entries) && Recordable(entries)
              && (exists end: nat :: Complete(ViewOf(bytes), FirstInfo(Kept(entries)), tokens, end))
              && r == Collected(tokens, FirstInfo(Kept(entries))) && InfoFrom(tokens, FirstInfo(Kept(entries)), r.value)
              && Recorded(tokens, |tokens|, Info([], Kept(entries), None, 0, None, 0, [], [], 0), r.value)
    ensures HeaderOk(bytes) ==>
              forall es, ts, end: nat :: Parses(ViewOf(bytes), es, ts, end) ==> r == Collected(ts, FirstInfo(Kept(es)))
    ensures HeaderOk(bytes) ==>
              forall es, ts, end: nat, infos, info :: Tells(ViewOf(bytes), es, ts, end, infos, info) ==> r == Ok(info)
    ensures r.Ok? ==> exists end: nat, infos :: Tells(ViewOf(bytes), entries, tokens, end, infos, r.value)
  {
    hide Tells, Recorded, Collected, InfoFrom, OneTree, ViewOk, Lexed, Be32, HeaderOk, ViewOf, TableOf,
         Recordable, Kept;
    tokens, entries := [], [];
    var view := ValidateHeader(bytes);
    if view.Err? {
      return Err(view.error), tokens, entries;
    }
    forall es, ts, last: nat, infos, info | Tells(view.value, es, ts, last, infos, info)
      ensures Parses(view.value, es, ts, last) && Collected(ts, FirstInfo(Kept(es))) == Ok(info) {
      TellsParses(view.value, es, ts, last, infos, info);
    }
    var reserved;
    reserved, entries := ParseReservations(view.value);
    if reserved.Err? {
      return Err(reserved.error), tokens, entries;
    }
    ghost var end: nat;
    RecordableStarts(entries);
    r, tokens, end := ParseStructure(view.value, FirstInfo(reserved.value));
    if r.Ok? {
      ghost var infos := ParsesTells(view.value, entries, tokens, end);
    }
  }

  /** A blob tells a history: its table and its tokens are in order, and from token to token
      the information grows by what that token adds. */
  ghost predicate Tells(v: View, entries: seq<Range>, tokens: seq<Token>, end: nat, infos: seq<Info>, info: Info) {
    && TableOf(v, entries) && Recordable(entries) && Lexed(v, 0, tokens, end) && EndsAt(v, end) && OneTree(tokens)
    && History(tokens, infos) && infos[0] == Info([], Kept(entries), None, 0, None, 0, [], [], 0)
    && infos[|tokens|] == info
  }

  lemma TellsParses(v: View, entries: seq<Range>, tokens: seq<Token>, end: nat, infos: seq<Info>, info: Info)
    requires Tells(v, entries, tokens, end, infos, info)
    ensures Parses(v, entries, tokens, end) && Collected(tokens, FirstInfo(Kept(entries))) == Ok(info)
  {
    hide TableOf, Recordable, Lexed, EndsAt, Collected, StepAdds, Kept;
    RecordableStarts(entries);
    CollectsExactly(tokens, infos[0], info);
  }

  lemma ParsesTells(v: View, entries: seq<Range>, tokens: seq<Token>, end: nat) returns (infos: seq<Info>)
    requires Parses(v, entries, tokens, end)
    ensures Parses(v, entries, tokens, end)
    ensures Tells(v, entries, tokens, end, infos, Collected(tokens, FirstInfo(Kept(entries))).value)
  {
    hide TableOf, Recordable, Lexed, EndsAt, Collected, StepAdds, Kept;
    RecordableStarts(entries);
    var start := FirstInfo(Kept(entries));
    var info := Collected(tokens, start).value;
    CollectsExactly(tokens, start, info);
    infos :| History(tokens, infos) && infos[0] == start && infos[|tokens|] == info;
  }

  lemma RecordableStarts(entries: seq<Range>)
    requires Recordable(entries)
    ensures Starting(FirstInfo(Kept(entries)))
  {
  }

  /** A reservation table that can be recorded, and a complete reading of the structure. */
  ghost predicate Parses(v: View, entries: seq<Range>, tokens: seq<Token>, end: nat) {
    TableOf(v, entries) && Recordable(entries) && Complete(v, FirstInfo(Kept(entries)), tokens, end)
  }

  function FirstInfo(reserved: seq<Range>): Info {
    Info([], reserved, None, 0, None, 0, [], [], 0)
  }
}
