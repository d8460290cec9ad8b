/** Pipes: a ring of 512 bytes between blocking readers and writers. */
module Pipes {
  import opened Common
  import opened Physical
  import opened Scheduling
  import opened Threads

  const CAPACITY: nat := 512

  /** What a turn at the pipe ends with: the caller sleeps, or returns. */
  datatype Outcome = Sleeps | Reads(bytes: seq<Byte>) | Writes(count: nat) | BrokenPipe

  // ----- the ring

  /** The bytes in the ring, oldest first. */
  function Ring(data: seq<Byte>, head: nat, used: nat): (bytes: seq<Byte>)
    requires |data| == CAPACITY && head < CAPACITY && used <= CAPACITY
    ensures |bytes| == used
  {
    seq(used, i requires 0 <= i < used => data[(head + i) % CAPACITY])
  }

  lemma RingDrop(data: seq<Byte>, head: nat, used: nat, n: nat)
    requires |data| == CAPACITY && head < CAPACITY && n <= used <= CAPACITY
    ensures Ring(data, (head + n) % CAPACITY, used - n) == Ring(data, head, used)[n..]
  {
    var late, all := Ring(data, (head + n) % CAPACITY, used - n), Ring(data, head, used);
    forall i | 0 <= i < used - n ensures late[i] == all[n + i] {
      RoundTwice(head, n, i);
    }
  }

  lemma RingAt(data: seq<Byte>, head: nat, used: nat, i: nat)
    requires |data| == CAPACITY && head < CAPACITY && i < used <= CAPACITY
    ensures Ring(data, head, used)[i] == data[(head + i) % CAPACITY]
            && ((head + i) % CAPACITY + 1) % CAPACITY == (head + (i + 1)) % CAPACITY
    ensures Ring(data, head, used)[..i + 1] == Ring(data, head, used)[..i] + [data[(head + i) % CAPACITY]]
  {
    RoundTwice(head, i, 1);
  }

  lemma RoundTwice(head: nat, n: nat, i: nat)
    ensures ((head + n) % CAPACITY + i) % CAPACITY == (head + (n + i)) % CAPACITY
  {
  }

  /** The slot after the newest byte holds none of the ring's bytes. */
  lemma RingPush(data: seq<Byte>, head: nat, used: nat, b: Byte)
    requires |data| == CAPACITY && head < CAPACITY && used < CAPACITY
    ensures Ring(data[(head + used) % CAPACITY := b], head, used + 1) == Ring(data, head, used) + [b]
  {
    var more := Ring(data[(head + used) % CAPACITY := b], head, used + 1);
    forall i | 0 <= i < used ensures more[i] == Ring(data, head, used)[i] {
      SlotsDiffer(head, i, used);
    }
  }

  lemma SlotsDiffer(head: nat, i: nat, j: nat)
    requires head < CAPACITY && i < j < CAPACITY
    ensures (head + i) % CAPACITY != (head + j) % CAPACITY
  {
  }

  // ----- a turn at the pipe, on values

  datatype PipeView = PipeView(bytes: seq<Byte>, reader: bool, writer: bool)

  function ReadOutcome(p: PipeView, size: nat): Outcome {
    if size == 0 then Reads([])
    else if p.bytes == [] && p.writer then Sleeps
    else Reads(p.bytes[..Min(size, |p.bytes|)])
  }

  function WriteOutcome(p: PipeView, data: seq<Byte>): Outcome
    requires |p.bytes| <= CAPACITY
  {
    if data == [] then Writes(0)
    else if |p.bytes| == CAPACITY && p.reader then Sleeps
    else if !p.reader then BrokenPipe
    else Writes(Min(|data|, CAPACITY - |p.bytes|))
  }

  class Pipe {
    const data: array<Byte>
    const readable: Queue
    const writable: Queue
    var head: nat
    var used: nat
    var reader: bool
    var writer: bool

    predicate Valid()
      reads this
    {
      data.Length == CAPACITY && head < CAPACITY && used <= CAPACITY && readable != writable
    }

    function V(): PipeView
      reads this, data
      requires Valid()
    {
      PipeView(Ring(data[..], head, used), reader, writer)
    }

    constructor (readQueue: Queue, writeQueue: Queue)
      requires readQueue != writeQueue
      ensures Valid() && V() == PipeView([], true, true) && readable == readQueue && writable == writeQueue
              && fresh(data)
    {
      data := new Byte[CAPACITY];
      readable, writable := readQueue, writeQueue;
      head, used, reader, writer := 0, 0, true, true;
    }

    /** Takes the oldest bytes out of the ring. */
    method Take(size: nat) returns (bytes: seq<Byte>)
      requires Valid() && size <= used
      modifies this`head, this`used
      ensures Valid() && bytes == old(V().bytes)[..size] && V() == old(V()).(bytes := old(V().bytes)[size..])
    {
      hide Ring;
      bytes := [];
      ghost var start := head;
      var i := 0;
      while i < size
        invariant 0 <= i <= size && |bytes| == i && used == old(used) && head == (start + i) % CAPACITY
        invariant bytes == Ring(data[..], start, used)[..i]
      {
        RingAt(data[..], start, used, i);
        bytes := bytes + [data[head]];
        head := (head + 1) % CAPACITY;
        i := i + 1;
      }
      RingDrop(data[..], start, used, size);
      used := used - size;
    }

    /** Puts bytes behind the newest. */
    method Put(bytes: seq<Byte>)
      requires Valid() && |bytes| <= CAPACITY - used
      modifies this`used, data
      ensures Valid() && V() == old(V()).(bytes := old(V().bytes) + bytes)
    {
      var i := 0;
      ghost var was := Ring(data[..], head, used);
      assert was + bytes[..0] == was;
      while i < |bytes|
        invariant 0 <= i <= |bytes| && used == old(used)
        invariant Ring(data[..], head, used + i) == was + bytes[..i]
      {
        RingPush(data[..], head, used + i, bytes[i]);
        data[(head + used + i) % CAPACITY] := bytes[i];
        assert bytes[..i + 1] == bytes[..i] + [bytes[i]];
        i := i + 1;
      }
      assert bytes[..i] == bytes;
      used := used + |bytes|;
    }

    /** A reader's turn: from taking the lock until it sleeps or returns. */
    method ReadTurn(s: Scheduler, size: nat) returns (outcome: Outcome)
      requires Valid() && Inv(s.V()) && s.current != s.idle && readable in s.queues && writable in s.queues
      modifies this, s`state, s`queues, s`current
      ensures Valid() && Inv(s.V()) && outcome == ReadOutcome(old(V()), size)
      ensures outcome.Sleeps? <==> size > 0 && old(V().bytes) == [] && old(writer)
      ensures !outcome.Sleeps? ==>
                && outcome.Reads? && |outcome.bytes| <= size
                && (|outcome.bytes| == size || |outcome.bytes| == |old(V().bytes)|)
                && outcome.bytes <= old(V().bytes)
      ensures outcome.Sleeps? ==> V() == old(V()) && Next(old(s.V()), Block(readable), s.V())
      ensures size == 0 ==> V() == old(V()) && s.V() == old(s.V())
      ensures size > 0 && outcome.Reads? ==>
                V() == old(V()).(bytes := old(V().bytes)[|outcome.bytes|..])
                && Next(old(s.V()), WakeAll(writable), s.V())
    {
      hide Inv, Listed, Poised, Ring, Switched, Blocked, WokenAll;
      InvParts(s.V());
      if size == 0 {
        return Reads([]);
      }
      if used == 0 && writer {
        s.BlockCurrent(readable);
        PoisedParts(s.V());
        SwitchKeeps(s.V());
        s.Switch();
        return Sleeps;
      }
      var bytes := Take(if size > used then used else size);
      s.WakeAll(writable);
      outcome := Reads(bytes);
    }

    /** A writer's turn. */
    method WriteTurn(s: Scheduler, bytes: seq<Byte>) returns (outcome: Outcome)
      requires Valid() && Inv(s.V()) && s.current != s.idle && readable in s.queues && writable in s.queues
      modifies this, data, s`state, s`queues, s`current
      ensures Valid() && Inv(s.V()) && outcome == WriteOutcome(old(V()), bytes)
      ensures outcome.Sleeps? <==> bytes != [] && |old(V().bytes)| == CAPACITY && old(reader)
      ensures outcome.BrokenPipe? <==> bytes != [] && !old(reader)
      ensures !outcome.Sleeps? && !outcome.BrokenPipe? ==>
                && outcome.Writes? && outcome.count <= |bytes| && |old(V().bytes)| + outcome.count <= CAPACITY
                && (outcome.count == |bytes| || |old(V().bytes)| + outcome.count == CAPACITY)
      ensures outcome.Sleeps? ==> V() == old(V()) && Next(old(s.V()), Block(writable), s.V())
      ensures bytes == [] || outcome.BrokenPipe? ==> V() == old(V()) && s.V() == old(s.V())
      ensures bytes != [] && outcome.Writes? ==>
                && outcome.count > 0 && V() == old(V()).(bytes := old(V().bytes) + bytes[..outcome.count])
                && Next(old(s.V()), WakeAll(readable), s.V())
    {
      hide Inv, Listed, Poised, Ring, Switched, Blocked, WokenAll;
      InvParts(s.V());
      if |bytes| == 0 {
        return Writes(0);
      }
      if used == CAPACITY && reader {
        s.BlockCurrent(writable);
        PoisedParts(s.V());
        SwitchKeeps(s.V());
        s.Switch();
        return Sleeps;
      }
      if !reader {
        return BrokenPipe;
      }
      var size := if |bytes| > CAPACITY - used then CAPACITY - used else |bytes|;
      Put(bytes[..size]);
      s.WakeAll(readable);
      outcome := Writes(size);
    }

    /** Closes one end for good; `last` says that both are now closed. */
    method Release(s: Scheduler, readEnd: bool) returns (last: bool)
      requires Valid() && Inv(s.V()) && readable in s.queues && writable in s.queues
      modifies this`reader, this`writer, s`state, s`queues
      ensures Valid() && Inv(s.V())
      ensures V() == if readEnd then old(V()).(reader := false) else old(V()).(writer := false)
      ensures last <==> !reader && !writer
      ensures exists u :: Next(old(s.V()), WakeAll(readable), u) && Next(u, WakeAll(writable), s.V())
    {
      hide Inv, Listed, Ring, WokenAll;
      InvParts(s.V());
      if readEnd {
        reader := false;
      } else {
        writer := false;
      }
      s.WakeAll(readable);
      ghost var u := s.V();
      InvParts(u);
      s.WakeAll(writable);
      last := !reader && !writer;
      assert Next(old(s.V()), WakeAll(readable), u) && Next(u, WakeAll(writable), s.V());
    }
  }
}
