/** The byte stream that a shared-memory queue carries
    (workspace/src/framework/impl/ipc/shared_memory_transport.cpp): messages prefixed with their
    sizes, laid out round a ring of QUEUE_SIZE slots. */
module ShmFrames {
  import opened Bytes
  import opened Words

  /** workspace/src/framework/include/ipc/shared_memory_transport.h:195-196 */
  const QUEUE_SIZE: nat := 1024 * 1024
  const MAX_MSG_SIZE: nat := 65536
  const PREFIX: nat := 4

  type Message = seq<byte>

  predicate Sendable(m: Message) {
    0 < |m| <= MAX_MSG_SIZE
  }

  /** What one push writes: four bytes of size, then the message. */
  function Frame(m: Message): (f: seq<byte>)
    ensures |f| == PREFIX + |m|
  {
    LittleEndian(|m|, PREFIX) + m
  }

  /** The bytes of a run of pushes. */
  function Stream(ms: seq<Message>): seq<byte> {
    if ms == [] then [] else Stream(ms[..|ms| - 1]) + Frame(ms[|ms| - 1])
  }

  /** Where in the stream frame number `k` begins. */
  function Start(ms: seq<Message>, k: nat): nat
    requires k <= |ms|
  {
    |Stream(ms[..k])|
  }

  /** The ring slot of stream position `a`. */
  function Slot(a: nat): (i: nat)
    ensures i < QUEUE_SIZE
  {
    a % QUEUE_SIZE
  }

  lemma SlotNext(a: nat)
    ensures (Slot(a) + 1) % QUEUE_SIZE == Slot(a + 1)
  {
  }

  /** Positions less than a turn apart have different slots. */
  lemma SlotsDiffer(a: nat, b: nat)
    requires a < b < a + QUEUE_SIZE
    ensures Slot(a) != Slot(b)
  {
  }

  lemma StreamAppend(ms: seq<Message>, m: Message)
    ensures Stream(ms + [m]) == Stream(ms) + Frame(m)
  {
    assert (ms + [m])[..|ms|] == ms;
  }

  lemma StartNext(ms: seq<Message>, k: nat)
    requires k < |ms|
    ensures Start(ms, k + 1) == Start(ms, k) + PREFIX + |ms[k]|
  {
    assert ms[..k + 1][..k] == ms[..k];
  }

  lemma {:induction false} StartMonotone(ms: seq<Message>, j: nat, k: nat)
    requires j <= k <= |ms|
    ensures Start(ms, j) <= Start(ms, k)
    decreases k - j
  {
    if j < k {
      StartMonotone(ms, j, k - 1);
      StartNext(ms, k - 1);
    }
  }

  lemma StartOfPrefix(ms: seq<Message>, ns: seq<Message>, k: nat)
    requires ms <= ns && k <= |ms|
    ensures Start(ns, k) == Start(ms, k)
  {
    assert ns[..k] == ms[..k];
  }

  lemma StartOfAll(ms: seq<Message>)
    ensures Start(ms, |ms|) == |Stream(ms)|
  {
    assert ms[..|ms|] == ms;
  }

  /** Frame `k` sits in the stream where it begins. */
  lemma {:induction false} FrameInStream(ms: seq<Message>, k: nat, x: nat)
    requires k < |ms| && x < PREFIX + |ms[k]|
    ensures Start(ms, k) + x < |Stream(ms)|
    ensures Stream(ms)[Start(ms, k) + x] == Frame(ms[k])[x]
    decreases |ms|
  {
    var rest := ms[..|ms| - 1];
    if k == |ms| - 1 {
      assert rest == ms[..k];
    } else {
      FrameInStream(rest, k, x);
      assert rest[..k] == ms[..k];
    }
  }

  /** The first frame leaves the stream of the others behind. */
  lemma {:induction false} StreamPrepend(m: Message, ms: seq<Message>)
    ensures Stream([m] + ms) == Frame(m) + Stream(ms)
    decreases |ms|
  {
    if ms == [] {
      assert [m] + ms == [] + [m];
      StreamAppend([], m);
    } else {
      var rest, last := ms[..|ms| - 1], ms[|ms| - 1];
      hide Frame;
      StreamPrepend(m, rest);
      assert ms == rest + [last] && [m] + ms == ([m] + rest) + [last];
      StreamAppend(rest, last);
      StreamAppend([m] + rest, last);
    }
  }

  /** The free room that both sides of the ring compute from the two indices. */
  function Available(writePos: nat, readPos: nat): (room: nat)
    requires writePos < QUEUE_SIZE && readPos < QUEUE_SIZE
  {
    if writePos >= readPos then QUEUE_SIZE - (writePos - readPos) - 1 else readPos - writePos - 1
  }

  /** The indices wrap, the room does not lie: it is what is left of a turn, less one slot. */
  lemma AvailableIsRoom(written: nat, read: nat)
    requires read <= written < read + QUEUE_SIZE
    ensures Available(Slot(written), Slot(read)) == QUEUE_SIZE - 1 - (written - read)
  {
  }

  lemma SlotForgetsTurns(a: nat, turns: nat)
    ensures Slot(a + QUEUE_SIZE * turns) == Slot(a)
  {
    var q := a / QUEUE_SIZE;
    Distribute(QUEUE_SIZE, 1, q, turns);
    Quotient(a + QUEUE_SIZE * turns, QUEUE_SIZE, q + turns, Slot(a));
  }

  /** From a position further back the room is what a whole turn would leave, turns being lost. */
  lemma AvailableForgetsTurns(written: nat, read: nat)
    requires read <= written
    ensures Available(Slot(written), Slot(read)) == QUEUE_SIZE - 1 - (written - read) % QUEUE_SIZE
  {
    hide Slot, Available;
    var turns, left := (written - read) / QUEUE_SIZE, (written - read) % QUEUE_SIZE;
    SlotForgetsTurns(read + left, turns);
    AvailableIsRoom(read + left, read);
  }

  /** Frames of one size begin at its multiples. */
  lemma {:induction false} StartOfEqualFrames(ms: seq<Message>, size: nat, k: nat)
    requires k <= |ms| && forall m :: m in ms ==> |m| == size
    ensures Start(ms, k) == k * (PREFIX + size)
  {
    hide Frame;
    if k == 0 {
      assert ms[..k] == [];
    } else {
      hide Stream, Start;
      StartOfEqualFrames(ms, size, k - 1);
      StartNext(ms, k - 1);
      assert ms[k - 1] in ms;
      assert k * (PREFIX + size) == (k - 1) * (PREFIX + size) + (PREFIX + size);
    }
  }

  /** Reading the four size bytes back. */
  lemma SizePrefixValue(m: Message, j: nat)
    requires Sendable(m) && j < PREFIX
    ensures Or(Value(Frame(m)[..j]), Frame(m)[j] * Weight(j)) == Value(Frame(m)[..j + 1])
    ensures Value(Frame(m)[..PREFIX]) == |m|
  {
    hide Or;
    assert Frame(m)[..PREFIX] == LittleEndian(|m|, PREFIX);
    Weights();
    ValueOfLittleEndian(|m|, PREFIX);
    OrAddsByte(Frame(m), j);
  }

  /** The byte that the push loops write at place `i`. */
  function PushByte(m: Message, i: nat): byte
    requires i < PREFIX + |m|
  {
    if i < PREFIX then ByteOf(|m|, i) else m[i - PREFIX]
  }

  lemma PushByteIsFrameByte(m: Message, i: nat)
    requires i < PREFIX + |m|
    ensures PushByte(m, i) == Frame(m)[i]
  {
    if i < PREFIX {
      LittleEndianAt(|m|, PREFIX, i);
    }
  }
}
