/** The shared-memory queue as one thread uses it: the push and pop loops of
    workspace/src/framework/impl/ipc/shared_memory_transport.cpp over the ring's own array. */
module ShmQueue {
  import opened Bytes
  import opened Words
  import opened ShmFrames

  datatype PushResult = Pushed | InvalidArguments | MessageTooLarge | QueueFull

  datatype PopResult = Popped(body: Message) | NoData | InvalidMessageSize

  /** `ring` holds `bytes` from stream position `from` on. */
  ghost predicate Holds(ring: seq<byte>, from: nat, bytes: seq<byte>)
    requires |ring| == QUEUE_SIZE
  {
    forall x :: 0 <= x < |bytes| ==> ring[Slot(from + x)] == bytes[x]
  }

  /** A byte written behind what the ring holds disturbs nothing and extends it. */
  lemma HoldsAfterWrite(ring: seq<byte>, from: nat, bytes: seq<byte>, b: byte)
    requires |ring| == QUEUE_SIZE && Holds(ring, from, bytes) && |bytes| < QUEUE_SIZE
    ensures Holds(ring[Slot(from + |bytes|) := b], from, bytes + [b])
  {
    var ring' := ring[Slot(from + |bytes|) := b];
    forall x | 0 <= x < |bytes + [b]|
      ensures ring'[Slot(from + x)] == (bytes + [b])[x]
    {
      if x < |bytes| {
        SlotsDiffer(from + x, from + |bytes|);
      }
    }
  }

  /** Dropping the front of the stream. */
  lemma HoldsRest(ring: seq<byte>, from: nat, front: seq<byte>, rest: seq<byte>)
    requires |ring| == QUEUE_SIZE && Holds(ring, from, front + rest)
    ensures Holds(ring, from + |front|, rest)
  {
    forall x | 0 <= x < |rest|
      ensures ring[Slot(from + |front| + x)] == rest[x]
    {
      assert (front + rest)[|front| + x] == rest[x];
      assert from + |front| + x == from + (|front| + x);
    }
  }

  class MessageQueue {
    const data: array<byte>
    var writePos: nat
    var readPos: nat
    /** The messages in the queue, oldest first, and the stream position of the oldest. */
    ghost var messages: seq<Message>
    ghost var given: nat

    ghost predicate Valid()
      reads this, data
    {
      && data.Length == QUEUE_SIZE
      && readPos == Slot(given) && writePos == Slot(given + |Stream(messages)|)
      && |Stream(messages)| < QUEUE_SIZE
      && Holds(data[..], given, Stream(messages))
      && forall m :: m in messages ==> Sendable(m)
    }

    constructor ()
      ensures Valid() && fresh(data) && messages == []
    {
      data := new byte[QUEUE_SIZE](_ => 0);
      writePos, readPos := 0, 0;
      messages, given := [], 0;
    }

    method PushToQueue(m: Message) returns (r: PushResult)
      requires Valid()
      modifies this, data
      ensures Valid()
      ensures r == if |m| == 0 then InvalidArguments
                   else if |m| > MAX_MSG_SIZE then MessageTooLarge
                   else if |Stream(old(messages))| + PREFIX + |m| >= QUEUE_SIZE then QueueFull
                   else Pushed
      ensures messages == if r.Pushed? then old(messages) + [m] else old(messages)
    {
      hide Stream, Frame, Slot, Available, Holds, PushByte;
      if |m| == 0 {
        return InvalidArguments;
      }
      if |m| > MAX_MSG_SIZE {
        return MessageTooLarge;
      }
      var size := PREFIX + |m|;
      AvailableIsRoom(given + |Stream(messages)|, given);
      if size > Available(writePos, readPos) {
        return QueueFull;
      }

      ghost var stored := Stream(messages);
      assert stored + Frame(m)[..0] == stored;
      var at := writePos;
      for i := 0 to PREFIX
        invariant unchanged(this)
        invariant at == Slot(given + |stored| + i) && Holds(data[..], given, stored + Frame(m)[..i])
      {
        NextFrameByte(stored, m, i);
        at := PutByte(at, ByteOf(|m|, i), stored + Frame(m)[..i]);
      }
      for i := 0 to |m|
        invariant unchanged(this)
        invariant at == Slot(given + |stored| + (PREFIX + i)) && Holds(data[..], given, stored + Frame(m)[..PREFIX + i])
      {
        NextFrameByte(stored, m, PREFIX + i);
        at := PutByte(at, m[i], stored + Frame(m)[..PREFIX + i]);
      }
      writePos := at;
      assert Frame(m)[..PREFIX + |m|] == Frame(m);
      StreamAppend(messages, m);
      messages := messages + [m];
      return Pushed;
    }

    /** Write one byte behind those the ring holds and move the index on. */
    method PutByte(at: nat, b: byte, ghost bytes: seq<byte>) returns (next: nat)
      requires data.Length == QUEUE_SIZE && |bytes| < QUEUE_SIZE
      requires at == Slot(given + |bytes|) && Holds(data[..], given, bytes)
      modifies data
      ensures next == Slot(given + |bytes| + 1) && Holds(data[..], given, bytes + [b])
    {
      HoldsAfterWrite(data[..], given, bytes, b);
      ghost var ring := data[..];
      data[at] := b;
      assert data[..] == ring[at := b];
      SlotNext(given + |bytes|);
      next := (at + 1) % QUEUE_SIZE;
    }

    /** With nothing to wait for: `NoData` stands for all the ways in which the wait ends without data. */
    method PopFromQueue() returns (r: PopResult)
      requires Valid()
      modifies this
      ensures Valid()
      ensures old(messages) == [] ==> r == NoData && messages == []
      ensures old(messages) != [] ==> r == Popped(old(messages)[0]) && messages == old(messages)[1..]
    {
      hide Stream, Frame, Slot, Holds, Value, Weight, Or;
      if readPos == writePos {
        EqualSlotsMeanEmpty(messages, given);
        return NoData;
      }
      EmptyMeansEqualSlots(messages, given);
      ghost var m, rest := messages[0], messages[1..];
      ghost var ring := data[..];
      FirstFrame(messages, ring, given);

      var at, size := readPos, 0;
      for i := 0 to PREFIX
        invariant unchanged(this) && data[..] == ring
        invariant at == Slot(given + i) && size == Value(Frame(m)[..i])
      {
        SizePrefixValue(m, i);
        SlotNext(given + i);
        HoldsAt(ring, given, Frame(m), i);
        size := Or(size, data[at] * Weight(i));
        at := (at + 1) % QUEUE_SIZE;
      }
      SizePrefixValue(m, 0);
      if size == 0 || size > MAX_MSG_SIZE {
        return InvalidMessageSize;
      }

      var body: Message := [];
      for i := 0 to size
        invariant unchanged(this) && data[..] == ring
        invariant at == Slot(given + (PREFIX + i)) && body == m[..i]
      {
        SlotNext(given + (PREFIX + i));
        HoldsAt(ring, given, Frame(m), PREFIX + i);
        body := body + [data[at]];
        at := (at + 1) % QUEUE_SIZE;
      }
      readPos := at;
      given := given + PREFIX + size;
      messages := rest;
      return Popped(body);
    }
  }

  lemma NextFrameByte(stored: seq<byte>, m: Message, i: nat)
    requires i < PREFIX + |m|
    ensures |stored + Frame(m)[..i]| == |stored| + i
    ensures stored + Frame(m)[..i + 1] == stored + Frame(m)[..i] + [PushByte(m, i)]
    ensures PushByte(m, i) == if i < PREFIX then ByteOf(|m|, i) else m[i - PREFIX]
  {
    PushByteIsFrameByte(m, i);
  }

  lemma HoldsAt(ring: seq<byte>, from: nat, bytes: seq<byte>, x: nat)
    requires |ring| == QUEUE_SIZE && Holds(ring, from, bytes) && x < |bytes|
    ensures ring[Slot(from + x)] == bytes[x]
  {
  }

  lemma EqualSlotsMeanEmpty(ms: seq<Message>, given: nat)
    requires |Stream(ms)| < QUEUE_SIZE && Slot(given) == Slot(given + |Stream(ms)|)
    ensures ms == []
  {
    if ms != [] {
      assert |Stream(ms)| >= PREFIX;
      SlotsDiffer(given, given + |Stream(ms)|);
    }
  }

  lemma EmptyMeansEqualSlots(ms: seq<Message>, given: nat)
    ensures ms == [] ==> Slot(given) == Slot(given + |Stream(ms)|)
  {
  }

  /** The oldest message's frame is what the read index points at; the others follow. */
  lemma FirstFrame(ms: seq<Message>, ring: seq<byte>, given: nat)
    requires ms != [] && |ring| == QUEUE_SIZE && Holds(ring, given, Stream(ms))
    requires forall m :: m in ms ==> Sendable(m)
    ensures Sendable(ms[0]) && |Frame(ms[0])| == PREFIX + |ms[0]|
    ensures Holds(ring, given, Frame(ms[0]))
    ensures Holds(ring, given + PREFIX + |ms[0]|, Stream(ms[1..]))
    ensures |Stream(ms)| == PREFIX + |ms[0]| + |Stream(ms[1..])|
    ensures Frame(ms[0])[..0] == [] && Value([]) == 0
    ensures forall i :: 0 <= i < |ms[0]| ==> Frame(ms[0])[PREFIX + i] == ms[0][i]
    ensures forall m :: m in ms[1..] ==> Sendable(m)
  {
    hide Stream, Slot, Sendable;
    var m, rest := ms[0], ms[1..];
    assert ms == [m] + rest;
    StreamPrepend(m, rest);
    HoldsRest(ring, given, Frame(m), Stream(rest));
    HoldsFront(ring, given, Frame(m), Stream(rest));
  }

  lemma HoldsFront(ring: seq<byte>, from: nat, front: seq<byte>, rest: seq<byte>)
    requires |ring| == QUEUE_SIZE && Holds(ring, from, front + rest)
    ensures Holds(ring, from, front)
  {
    forall x | 0 <= x < |front|
      ensures ring[Slot(from + x)] == front[x]
    {
      assert (front + rest)[x] == front[x];
    }
  }
}
