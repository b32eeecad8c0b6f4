/** One producer and one consumer on a shared-memory queue, interleaved byte by byte
    (workspace/src/framework/impl/ipc/shared_memory_transport.cpp:664-800).

    Memory model.  The shared indices keep the whole order of their stores.  A load may return any
    store at least as recent as the last one that the same thread has seen (coherence), so each side
    may work with an old value of the other's index; an acquire load of a store makes the bytes written
    before that store visible.  That no thread touches a slot the other may be using, which makes a
    single array a sound picture of the data bytes, is proved below (NoRaceOnASlot).  */
module ShmProtocol {
  import opened Bytes
  import opened Words
  import opened ShmFrames

  datatype Producer =
    | Idle
    | Writing(message: Message, at: nat, done: nat)

  datatype Consumer =
    | Waiting
    | ReadingSize(at: nat, read: nat, size: nat)
    | ReadingBody(at: nat, size: nat, body: Message)
    | InvalidSize

  /** `pushed` and `popped` record the messages of the completed operations; no step reads them. */
  datatype State = State(
    data: seq<byte>,
    writeStores: seq<nat>, readStores: seq<nat>,
    seenRead: nat, seenWrite: nat,
    producer: Producer, consumer: Consumer,
    pushed: seq<Message>, popped: seq<Message>)
  {
    function WritePos(): nat
      requires writeStores != []
    {
      writeStores[|writeStores| - 1]
    }

    function ReadPos(): nat
      requires readStores != []
    {
      readStores[|readStores| - 1]
    }
  }

  datatype Step =
    | RejectArguments(m: Message)           // empty, or larger than MAX_MSG_SIZE
    | RejectFull(m: Message, view: nat)     // "Queue full"
    | BeginPush(m: Message, view: nat)
    | WriteByte
    | Publish                               // the release store of write_pos
    | FindEmpty(view: nat)
    | BeginPop(view: nat)
    | ReadSizeByte
    | AcceptSize
    | RejectSize                            // "Invalid message size"
    | ReadBodyByte
    | Release                               // the release store of read_pos

  ghost predicate Init(s: State) {
    && |s.data| == QUEUE_SIZE
    && s.writeStores == [0] && s.readStores == [0] && s.seenRead == 0 && s.seenWrite == 0
    && s.producer == Idle && s.consumer == Waiting
    && s.pushed == [] && s.popped == []
  }

  ghost predicate WellFormed(s: State) {
    && |s.data| == QUEUE_SIZE
    && s.writeStores != [] && s.readStores != []
    && (forall k :: 0 <= k < |s.writeStores| ==> s.writeStores[k] < QUEUE_SIZE)
    && (forall k :: 0 <= k < |s.readStores| ==> s.readStores[k] < QUEUE_SIZE)
    && (s.producer.Writing? ==> s.producer.at < QUEUE_SIZE)
    && (s.consumer.ReadingSize? || s.consumer.ReadingBody? ==> s.consumer.at < QUEUE_SIZE)
  }

  ghost predicate NextStep(s: State, s': State, step: Step)
    requires WellFormed(s)
  {
    match step
    case RejectArguments(m) =>
      s.producer.Idle? && !Sendable(m) && s' == s
    case RejectFull(m, view) =>
      && s.producer.Idle? && Sendable(m) && s.seenRead <= view < |s.readStores|
      && PREFIX + |m| > Available(s.WritePos(), s.readStores[view])
      && s' == s.(seenRead := view)
    case BeginPush(m, view) =>
      && s.producer.Idle? && Sendable(m) && s.seenRead <= view < |s.readStores|
      && PREFIX + |m| <= Available(s.WritePos(), s.readStores[view])
      && s' == s.(seenRead := view, producer := Writing(m, s.WritePos(), 0))
    case WriteByte =>
      && s.producer.Writing? && s.producer.done < PREFIX + |s.producer.message|
      && var Writing(m, at, done) := s.producer;
         s' == s.(data := s.data[at := PushByte(m, done)], producer := Writing(m, (at + 1) % QUEUE_SIZE, done + 1))
    case Publish =>
      && s.producer.Writing? && s.producer.done == PREFIX + |s.producer.message|
      && s' == s.(writeStores := s.writeStores + [s.producer.at], pushed := s.pushed + [s.producer.message], producer := Idle)
    case FindEmpty(view) =>
      && s.consumer.Waiting? && s.seenWrite <= view < |s.writeStores|
      && s.ReadPos() == s.writeStores[view]
      && s' == s.(seenWrite := view)
    case BeginPop(view) =>
      && s.consumer.Waiting? && s.seenWrite <= view < |s.writeStores|
      && s.ReadPos() != s.writeStores[view]
      && s' == s.(seenWrite := view, consumer := ReadingSize(s.ReadPos(), 0, 0))
    case ReadSizeByte =>
      && s.consumer.ReadingSize? && s.consumer.read < PREFIX
      && var ReadingSize(at, read, size) := s.consumer;
         s' == s.(consumer := ReadingSize((at + 1) % QUEUE_SIZE, read + 1, Or(size, s.data[at] * Weight(read))))
    case AcceptSize =>
      && s.consumer.ReadingSize? && s.consumer.read == PREFIX && 0 < s.consumer.size <= MAX_MSG_SIZE
      && s' == s.(consumer := ReadingBody(s.consumer.at, s.consumer.size, []))
    case RejectSize =>
      && s.consumer.ReadingSize? && s.consumer.read == PREFIX && !(0 < s.consumer.size <= MAX_MSG_SIZE)
      && s' == s.(consumer := InvalidSize)
    case ReadBodyByte =>
      && s.consumer.ReadingBody? && |s.consumer.body| < s.consumer.size
      && var ReadingBody(at, size, body) := s.consumer;
         s' == s.(consumer := ReadingBody((at + 1) % QUEUE_SIZE, size, body + [s.data[at]]))
    case Release =>
      && s.consumer.ReadingBody? && |s.consumer.body| == s.consumer.size
      && s' == s.(readStores := s.readStores + [s.consumer.at], popped := s.popped + [s.consumer.body], consumer := Waiting)
  }

  ghost predicate Next(s: State, s': State) {
    WellFormed(s) && exists step :: NextStep(s, s', step)
  }

  ghost predicate IsRun(run: seq<State>) {
    && run != [] && Init(run[0])
    && forall i :: 0 <= i < |run| - 1 ==> Next(run[i], run[i + 1])
  }

  // ---------------------------------------------------------------------------------------------
  // The invariant
  // ---------------------------------------------------------------------------------------------

  /** Stream positions: all published bytes, and all bytes given back. */
  function Written(s: State): nat {
    |Stream(s.pushed)|
  }

  function Given(s: State): nat {
    |Stream(s.popped)|
  }

  /** Each store of an index is the slot at which a frame begins. */
  ghost predicate IndicesFollowStreams(s: State) {
    && |s.writeStores| == |s.pushed| + 1
    && |s.readStores| == |s.popped| + 1
    && (forall k :: 0 <= k <= |s.pushed| ==> s.writeStores[k] == Slot(Start(s.pushed, k)))
    && (forall k :: 0 <= k <= |s.popped| ==> s.readStores[k] == Slot(Start(s.popped, k)))
  }

  /** Popped messages are pushed messages that the consumer has seen, in order; every message is one
      that a push accepts. */
  ghost predicate InOrder(s: State) {
    && s.popped <= s.pushed
    && |s.popped| <= s.seenWrite <= |s.pushed|
    && s.seenRead <= |s.popped|
    && forall m :: m in s.pushed ==> Sendable(m)
  }

  /** What the producer has published, and what it is writing, fits behind what it has seen read. */
  ghost predicate WithinOneTurn(s: State)
    requires s.seenRead <= |s.popped|
  {
    Written(s) + (if s.producer.Writing? then PREFIX + |s.producer.message| else 0) < Start(s.popped, s.seenRead) + QUEUE_SIZE
  }

  /** The slots of unread stream bytes hold those bytes. */
  ghost predicate HoldsUnread(s: State)
    requires |s.data| == QUEUE_SIZE
  {
    forall a :: Given(s) <= a < Written(s) ==> s.data[Slot(a)] == Stream(s.pushed)[a]
  }

  ghost predicate ProducerOnCourse(s: State)
    requires |s.data| == QUEUE_SIZE
  {
    s.producer.Writing? ==>
      var Writing(m, at, done) := s.producer;
      && Sendable(m) && done <= PREFIX + |m|
      && at == Slot(Written(s) + done)
      && forall x :: 0 <= x < done ==> s.data[Slot(Written(s) + x)] == Frame(m)[x]
  }

  ghost predicate ConsumerOnCourse(s: State) {
    match s.consumer
    case Waiting => true
    case ReadingSize(at, read, size) =>
      && |s.popped| < s.seenWrite <= |s.pushed| && read <= PREFIX
      && at == Slot(Given(s) + read)
      && size == Value(Frame(s.pushed[|s.popped|])[..read])
    case ReadingBody(at, size, body) =>
      && |s.popped| < s.seenWrite <= |s.pushed|
      && size == |s.pushed[|s.popped|]|
      && body <= s.pushed[|s.popped|]
      && at == Slot(Given(s) + PREFIX + |body|)
    case InvalidSize => false
  }

  ghost predicate Inv(s: State) {
    && |s.data| == QUEUE_SIZE
    && IndicesFollowStreams(s)
    && InOrder(s)
    && WithinOneTurn(s)
    && HoldsUnread(s)
    && ProducerOnCourse(s)
    && ConsumerOnCourse(s)
  }

  lemma InvIsWellFormed(s: State)
    requires Inv(s)
    ensures WellFormed(s)
  {
    forall k | 0 <= k < |s.writeStores|
      ensures s.writeStores[k] < QUEUE_SIZE
    {
      assert s.writeStores[k] == Slot(Start(s.pushed, k));
    }
    forall k | 0 <= k < |s.readStores|
      ensures s.readStores[k] < QUEUE_SIZE
    {
      assert s.readStores[k] == Slot(Start(s.popped, k));
    }
  }

  lemma InitInv(s: State)
    requires Init(s)
    ensures Inv(s)
  {
  }

  /** Where everything is, in stream positions. */
  lemma Positions(s: State)
    requires IndicesFollowStreams(s) && InOrder(s)
    ensures s.WritePos() == Slot(Written(s)) && s.ReadPos() == Slot(Given(s))
    ensures Given(s) == Start(s.pushed, |s.popped|) <= Written(s)
    ensures forall k :: s.seenRead <= k <= |s.popped| ==>
      s.readStores[k] == Slot(Start(s.popped, k)) && Start(s.popped, s.seenRead) <= Start(s.popped, k) <= Given(s)
    ensures forall k :: s.seenWrite <= k <= |s.pushed| ==>
      s.writeStores[k] == Slot(Start(s.pushed, k)) && Given(s) <= Start(s.pushed, k) <= Written(s)
  {
    StartOfAll(s.pushed);
    StartOfAll(s.popped);
    StartOfPrefix(s.popped, s.pushed, |s.popped|);
    StartMonotone(s.pushed, |s.popped|, |s.pushed|);
    forall k | s.seenRead <= k <= |s.popped|
      ensures Start(s.popped, s.seenRead) <= Start(s.popped, k) <= Given(s)
    {
      StartMonotone(s.popped, s.seenRead, k);
      StartMonotone(s.popped, k, |s.popped|);
    }
    forall k | s.seenWrite <= k <= |s.pushed|
      ensures Given(s) <= Start(s.pushed, k) <= Written(s)
    {
      StartMonotone(s.pushed, |s.popped|, k);
      StartMonotone(s.pushed, k, |s.pushed|);
    }
  }

  /** An old view of read_pos makes the producer see less room than there is, never more. */
  lemma OldViewIsCautious(s: State, view: nat)
    requires Inv(s) && s.producer.Idle? && s.seenRead <= view < |s.readStores|
    ensures s.WritePos() < QUEUE_SIZE && s.readStores[view] < QUEUE_SIZE
    ensures Available(s.WritePos(), s.readStores[view]) == QUEUE_SIZE - 1 - (Written(s) - Start(s.popped, view))
    ensures Available(s.WritePos(), s.readStores[view]) <= QUEUE_SIZE - 1 - (Written(s) - Given(s))
  {
    Positions(s);
    AvailableIsRoom(Written(s), Start(s.popped, view));
  }

  /** The room that a view of read_pos shows is more than there is. */
  ghost predicate Misleads(s: State, view: nat) {
    && view < |s.readStores| && s.writeStores != []
    && s.WritePos() < QUEUE_SIZE && s.readStores[view] < QUEUE_SIZE
    && Given(s) <= Written(s)
    && Available(s.WritePos(), s.readStores[view]) > QUEUE_SIZE - 1 - (Written(s) - Given(s))
  }

  /** Without coherence any store might be read.  One misleads exactly when the turns made since then,
      left out by the indices, hide bytes in flight; then it is older than any that a thread may see. */
  lemma ViewMisleadsExactly(s: State, view: nat)
    requires Inv(s) && s.producer.Idle? && view < |s.readStores|
    ensures Start(s.popped, view) <= Given(s) <= Written(s)
    ensures Misleads(s, view) <==> (Written(s) - Start(s.popped, view)) % QUEUE_SIZE < Written(s) - Given(s)
    ensures Misleads(s, view) ==> view < s.seenRead && Written(s) - Start(s.popped, view) >= QUEUE_SIZE
  {
    hide Stream, Slot, Start, HoldsUnread;
    Positions(s);
    StartMonotone(s.popped, view, |s.popped|);
    AvailableForgetsTurns(Written(s), Start(s.popped, view));
    assert s.readStores[view] == Slot(Start(s.popped, view));
    if s.seenRead <= view {
      OldViewIsCautious(s, view);
    }
  }

  /** With the newest value, a push is accepted exactly when its frame fits in the free room. */
  lemma FreshViewIsExact(s: State, m: Message)
    requires Inv(s) && s.producer.Idle? && Sendable(m)
    ensures WellFormed(s)
    ensures (exists s' :: NextStep(s, s', BeginPush(m, |s.popped|))) <==>
            Written(s) - Given(s) + PREFIX + |m| <= QUEUE_SIZE - 1
  {
    InvIsWellFormed(s);
    Positions(s);
    OldViewIsCautious(s, |s.popped|);
    StartOfAll(s.popped);
    var s' := s.(seenRead := |s.popped|, producer := Writing(m, s.WritePos(), 0));
    if Written(s) - Given(s) + PREFIX + |m| <= QUEUE_SIZE - 1 {
      assert NextStep(s, s', BeginPush(m, |s.popped|));
    }
  }

  /** What becomes of a push, with any value that the producer may see: it is refused for its size, or
      because its frame and one spare byte do not fit behind what that value shows as read, and accepted
      otherwise. */
  lemma PushIsDecided(s: State, m: Message, view: nat)
    requires Inv(s) && s.producer.Idle? && s.seenRead <= view <= |s.popped|
    ensures WellFormed(s)
    ensures (exists s' :: NextStep(s, s', RejectArguments(m))) <==> !(1 <= |m| <= 65536)
    ensures var fits := Written(s) + 4 + |m| + 1 <= Start(s.popped, view) + QUEUE_SIZE;
            && ((exists s' :: NextStep(s, s', BeginPush(m, view))) <==> 1 <= |m| <= 65536 && fits)
            && ((exists s' :: NextStep(s, s', RejectFull(m, view))) <==> 1 <= |m| <= 65536 && !fits)
  {
    InvIsWellFormed(s);
    OldViewIsCautious(s, view);
    hide Available, Inv, Start, Written, Given;
    var begun := s.(seenRead := view, producer := Writing(m, s.WritePos(), 0));
    var refused := s.(seenRead := view);
    assert NextStep(s, s, RejectArguments(m)) || Sendable(m);
    assert NextStep(s, begun, BeginPush(m, view)) || !Sendable(m) || PREFIX + |m| > Available(s.WritePos(), s.readStores[view]);
    assert NextStep(s, refused, RejectFull(m, view)) || !Sendable(m) || PREFIX + |m| <= Available(s.WritePos(), s.readStores[view]);
  }

  /** What becomes of a pop, with any value that the consumer may see: it begins exactly when that store
      published a message not yet popped, and finds no data otherwise. */
  lemma PopIsDecided(s: State, view: nat)
    requires Inv(s) && s.consumer.Waiting? && s.seenWrite <= view <= |s.pushed|
    ensures WellFormed(s)
    ensures (exists s' :: NextStep(s, s', BeginPop(view))) <==> |s.popped| < view
    ensures (exists s' :: NextStep(s, s', FindEmpty(view))) <==> |s.popped| == view
  {
    InvIsWellFormed(s);
    StoreShowsMessages(s, view);
    hide Inv;
    var begun := s.(seenWrite := view, consumer := ReadingSize(s.ReadPos(), 0, 0));
    var empty := s.(seenWrite := view);
    assert NextStep(s, begun, BeginPop(view)) || s.ReadPos() == s.writeStores[view];
    assert NextStep(s, empty, FindEmpty(view)) || s.ReadPos() != s.writeStores[view];
  }

  lemma StoreShowsMessages(s: State, view: nat)
    requires Inv(s) && s.seenWrite <= view <= |s.pushed|
    ensures |s.popped| <= view < |s.writeStores| && s.readStores != []
    ensures s.ReadPos() == s.writeStores[view] <==> |s.popped| == view
  {
    hide Stream, HoldsUnread;
    Positions(s);
    if |s.popped| < view {
      StartNext(s.pushed, |s.popped|);
      StartMonotone(s.pushed, |s.popped| + 1, view);
      StartMonotone(s.popped, s.seenRead, |s.popped|);
      SlotsDiffer(Given(s), Start(s.pushed, view));
    }
  }

  // ---------------------------------------------------------------------------------------------
  // Every step keeps the invariant
  // ---------------------------------------------------------------------------------------------

  lemma IndicesUnchanged(s: State, s': State)
    requires IndicesFollowStreams(s)
    requires s'.writeStores == s.writeStores && s'.readStores == s.readStores && s'.pushed == s.pushed && s'.popped == s.popped
    ensures IndicesFollowStreams(s') && |s.writeStores| == |s.pushed| + 1 && |s.readStores| == |s.popped| + 1
  {
  }

  lemma ProducerStepKeepsInv(s: State, s': State, step: Step)
    requires Inv(s) && WellFormed(s) && NextStep(s, s', step)
    requires step.RejectArguments? || step.RejectFull? || step.BeginPush?
    ensures Inv(s')
  {
    hide Stream, Start, Slot, IndicesFollowStreams, Available;
    IndicesUnchanged(s, s');
    Positions(s);
    if step.RejectFull? || step.BeginPush? {
      OldViewIsCautious(s, step.view);
    }
  }

  lemma WriteByteSparesUnread(s: State, s': State)
    requires Inv(s) && WellFormed(s) && NextStep(s, s', WriteByte)
    ensures HoldsUnread(s')
  {
    hide Stream, Start, Slot, IndicesFollowStreams, ConsumerOnCourse;
    Positions(s);
    forall a | Given(s) <= a < Written(s)
      ensures s'.data[Slot(a)] == Stream(s.pushed)[a]
    {
      SlotsDiffer(a, Written(s) + s.producer.done);
    }
  }

  lemma WriteByteKeepsInv(s: State, s': State)
    requires Inv(s) && WellFormed(s) && NextStep(s, s', WriteByte)
    ensures Inv(s')
  {
    WriteByteSparesUnread(s, s');
    hide Stream, Start, Slot, IndicesFollowStreams, HoldsUnread, Frame, PushByte;
    IndicesUnchanged(s, s');
    var Writing(m, at, done) := s.producer;
    var w := Written(s) + done;
    SlotNext(w);
    PushByteIsFrameByte(m, done);
    forall x | 0 <= x < done
      ensures s'.data[Slot(Written(s') + x)] == Frame(m)[x]
    {
      SlotsDiffer(Written(s) + x, w);
    }
  }

  lemma PublishKeepsIndices(s: State, s': State)
    requires Inv(s) && WellFormed(s) && NextStep(s, s', Publish)
    ensures Written(s') == Written(s) + PREFIX + |s.producer.message|
    ensures Stream(s'.pushed) == Stream(s.pushed) + Frame(s.producer.message)
    ensures IndicesFollowStreams(s')
  {
    hide InOrder, WithinOneTurn, HoldsUnread, ConsumerOnCourse, Slot, Stream;
    StreamAppend(s.pushed, s.producer.message);
    forall k | 0 <= k <= |s'.pushed|
      ensures s'.writeStores[k] == Slot(Start(s'.pushed, k))
    {
      if k <= |s.pushed| {
        StartOfPrefix(s.pushed, s'.pushed, k);
      } else {
        StartOfAll(s'.pushed);
      }
    }
  }

  lemma PublishKeepsInv(s: State, s': State)
    requires Inv(s) && WellFormed(s) && NextStep(s, s', Publish)
    ensures Inv(s')
  {
    hide IndicesFollowStreams, Slot, Stream, Start;
    PublishKeepsIndices(s, s');
    forall a | Given(s') <= a < Written(s')
      ensures s'.data[Slot(a)] == Stream(s'.pushed)[a]
    {
      if a >= Written(s) {
        assert Slot(a) == Slot(Written(s) + (a - Written(s)));
      }
    }
    assert s.consumer.ReadingSize? || s.consumer.ReadingBody? ==> s'.pushed[|s.popped|] == s.pushed[|s.popped|];
  }

  lemma ConsumerLoadKeepsInv(s: State, s': State, step: Step)
    requires Inv(s) && WellFormed(s) && NextStep(s, s', step)
    requires step.FindEmpty? || step.BeginPop?
    ensures Inv(s')
  {
    hide Stream, Start, Slot, IndicesFollowStreams;
    IndicesUnchanged(s, s');
    Positions(s);
    if step.BeginPop? {
      assert |s.popped| < step.view;
      assert Frame(s.pushed[|s.popped|])[..0] == [];
    }
  }

  /** The byte the consumer is about to read is the one its frame has there. */
  lemma NextByteToRead(s: State, x: nat)
    requires Inv(s) && |s.popped| < |s.pushed| && x < PREFIX + |s.pushed[|s.popped|]|
    ensures Given(s) + x < Written(s)
    ensures s.data[Slot(Given(s) + x)] == Frame(s.pushed[|s.popped|])[x]
  {
    Positions(s);
    FrameInStream(s.pushed, |s.popped|, x);
  }

  lemma ReadSizeByteKeepsInv(s: State, s': State)
    requires Inv(s) && WellFormed(s) && NextStep(s, s', ReadSizeByte)
    ensures Inv(s')
  {
    hide Stream, Start, Slot, IndicesFollowStreams;
    IndicesUnchanged(s, s');
    var ReadingSize(at, read, size) := s.consumer;
    NextByteToRead(s, read);
    SizePrefixValue(s.pushed[|s.popped|], read);
    SlotNext(Given(s) + read);
  }

  lemma CheckSizeKeepsInv(s: State, s': State, step: Step)
    requires Inv(s) && WellFormed(s) && NextStep(s, s', step)
    requires step.AcceptSize? || step.RejectSize?
    ensures Inv(s')
  {
    var m := s.pushed[|s.popped|];
    assert m in s.pushed && Sendable(m);
    SizePrefixValue(m, 0);
  }

  lemma ReadBodyByteKeepsInv(s: State, s': State)
    requires Inv(s) && WellFormed(s) && NextStep(s, s', ReadBodyByte)
    ensures Inv(s')
  {
    hide Stream, Start, Slot, IndicesFollowStreams;
    IndicesUnchanged(s, s');
    var ReadingBody(at, size, body) := s.consumer;
    NextByteToRead(s, PREFIX + |body|);
    SlotNext(Given(s) + PREFIX + |body|);
    assert s.pushed[|s.popped|][..|body|] == body;
  }

  lemma ReleaseKeepsIndices(s: State, s': State)
    requires Inv(s) && WellFormed(s) && NextStep(s, s', Release)
    ensures s'.popped <= s'.pushed
    ensures Given(s') == Given(s) + PREFIX + |s.consumer.body|
    ensures s.seenRead <= |s.popped| && Start(s'.popped, s.seenRead) == Start(s.popped, s.seenRead)
    ensures IndicesFollowStreams(s')
  {
    hide WithinOneTurn, HoldsUnread, ProducerOnCourse, Slot, Stream;
    assert s.consumer.body == s.pushed[|s.popped|];
    StreamAppend(s.popped, s.consumer.body);
    StartOfPrefix(s.popped, s'.popped, s.seenRead);
    forall k | 0 <= k <= |s'.popped|
      ensures s'.readStores[k] == Slot(Start(s'.popped, k))
    {
      if k <= |s.popped| {
        StartOfPrefix(s.popped, s'.popped, k);
      } else {
        StartOfAll(s'.popped);
      }
    }
  }

  lemma ReleaseKeepsInv(s: State, s': State)
    requires Inv(s) && WellFormed(s) && NextStep(s, s', Release)
    ensures Inv(s')
  {
    hide IndicesFollowStreams, Slot, Stream, Start;
    ReleaseKeepsIndices(s, s');
  }

  lemma NextKeepsInv(s: State, s': State)
    requires Inv(s) && Next(s, s')
    ensures Inv(s')
  {
    hide Inv;
    var step :| NextStep(s, s', step);
    match step
    case RejectArguments(_) => ProducerStepKeepsInv(s, s', step);
    case RejectFull(_, _) => ProducerStepKeepsInv(s, s', step);
    case BeginPush(_, _) => ProducerStepKeepsInv(s, s', step);
    case WriteByte => WriteByteKeepsInv(s, s');
    case Publish => PublishKeepsInv(s, s');
    case FindEmpty(_) => ConsumerLoadKeepsInv(s, s', step);
    case BeginPop(_) => ConsumerLoadKeepsInv(s, s', step);
    case ReadSizeByte => ReadSizeByteKeepsInv(s, s');
    case AcceptSize => CheckSizeKeepsInv(s, s', step);
    case RejectSize => CheckSizeKeepsInv(s, s', step);
    case ReadBodyByte => ReadBodyByteKeepsInv(s, s');
    case Release => ReleaseKeepsInv(s, s');
  }

  lemma {:induction false} RunKeepsInv(run: seq<State>, i: nat)
    requires IsRun(run) && i < |run|
    ensures Inv(run[i])
    decreases i
  {
    if i == 0 {
      InitInv(run[0]);
    } else {
      RunKeepsInv(run, i - 1);
      assert Next(run[i - 1], run[i - 1 + 1]);
      NextKeepsInv(run[i - 1], run[i]);
    }
  }

  // ---------------------------------------------------------------------------------------------
  // What every run promises
  // ---------------------------------------------------------------------------------------------

  /** In every state of every run, the popped messages are a prefix of the pushed ones, byte for byte,
      and no pop has met an invalid size. */
  lemma MessagesArriveInOrder(run: seq<State>, i: nat)
    requires IsRun(run) && i < |run|
    ensures run[i].popped <= run[i].pushed
    ensures !run[i].consumer.InvalidSize?
  {
    RunKeepsInv(run, i);
  }

  /** The slot the producer writes next holds no byte that is published and not given back. */
  lemma NoUnreadByteIsOverwritten(run: seq<State>, i: nat, a: nat)
    requires IsRun(run) && i < |run|
    requires var s := run[i]; s.producer.Writing? && s.producer.done < PREFIX + |s.producer.message|
    requires Given(run[i]) <= a < Written(run[i])
    ensures Slot(a) != run[i].producer.at
  {
    RunKeepsInv(run, i);
    Positions(run[i]);
    SlotsDiffer(a, Written(run[i]) + run[i].producer.done);
  }

  /** How far into its frame the consumer is; `None` when it reads no byte next. */
  predicate ReadsByte(c: Consumer, x: nat) {
    || (c.ReadingSize? && x == c.read < PREFIX)
    || (c.ReadingBody? && x == PREFIX + |c.body| < PREFIX + c.size)
  }

  /** The byte the consumer reads next was published by a store that it has seen, and the slot still
      holds that byte. */
  lemma OnlyPublishedBytesAreRead(run: seq<State>, i: nat, x: nat)
    requires IsRun(run) && i < |run| && ReadsByte(run[i].consumer, x)
    ensures var s := run[i];
            && s.seenWrite <= |s.pushed|
            && Given(s) + x < Start(s.pushed, s.seenWrite)
            && Given(s) + x < |Stream(s.pushed)|
            && s.consumer.at < |s.data| && s.data[s.consumer.at] == Stream(s.pushed)[Given(s) + x]
  {
    hide Stream, Slot, Start, Or, Value, Weight, IsRun, IndicesFollowStreams, ProducerOnCourse;
    var s := run[i];
    RunKeepsInv(run, i);
    Positions(s);
    var n := |s.popped|;
    var m := s.pushed[n];
    if s.consumer.ReadingSize? {
      assert m in s.pushed && Sendable(m);
    }
    NextByteToRead(s, x);
    StartNext(s.pushed, n);
    StartMonotone(s.pushed, n + 1, s.seenWrite);
  }

  /** The slot the producer writes next was last used for a byte that the consumer gave back with a
      store the producer has seen. */
  lemma OnlyReleasedSlotsAreWritten(run: seq<State>, i: nat, a: nat)
    requires IsRun(run) && i < |run|
    requires var s := run[i]; s.producer.Writing? && s.producer.done < PREFIX + |s.producer.message|
    requires a < Written(run[i]) && Slot(a) == run[i].producer.at
    ensures var s := run[i]; s.seenRead <= |s.popped| && a < Start(s.popped, s.seenRead)
  {
    var s := run[i];
    RunKeepsInv(run, i);
    if a >= Start(s.popped, s.seenRead) {
      SlotsDiffer(a, Written(s) + s.producer.done);
    }
  }

  /** Producer and consumer never use the same slot at the same time. */
  lemma NoRaceOnASlot(run: seq<State>, i: nat, x: nat)
    requires IsRun(run) && i < |run| && ReadsByte(run[i].consumer, x)
    requires var s := run[i]; s.producer.Writing? && s.producer.done < PREFIX + |s.producer.message|
    ensures run[i].producer.at != run[i].consumer.at
  {
    RunKeepsInv(run, i);
    OnlyPublishedBytesAreRead(run, i, x);
    NoUnreadByteIsOverwritten(run, i, Given(run[i]) + x);
  }

  // ---------------------------------------------------------------------------------------------
  // Refinement of a queue of messages
  // ---------------------------------------------------------------------------------------------

  /** The messages in flight, oldest first. */
  function InFlight(s: State): seq<Message>
    requires |s.popped| <= |s.pushed|
  {
    s.pushed[|s.popped|..]
  }

  /** What a step does to a plain queue of messages: nothing, add one at the back, take the front one. */
  ghost predicate QueueStep(q: seq<Message>, q': seq<Message>, step: Step, s: State) {
    match step
    case Publish => s.producer.Writing? && q' == q + [s.producer.message]
    case Release => s.consumer.ReadingBody? && q == [s.consumer.body] + q'
    case _ => q' == q
  }

  /** Byte-level steps with stale views behave as steps of a first-in first-out queue of messages. */
  lemma RefinesMessageQueue(s: State, s': State, step: Step)
    requires Inv(s) && WellFormed(s) && NextStep(s, s', step)
    ensures |s.popped| <= |s.pushed| && |s'.popped| <= |s'.pushed|
    ensures QueueStep(InFlight(s), InFlight(s'), step, s)
  {
    hide IndicesFollowStreams, WithinOneTurn, HoldsUnread, ProducerOnCourse, Slot, Stream, Start, Frame, Value, PushByte;
    NextKeepsInv(s, s');
    if step.Release? {
      assert s.consumer.body == s.pushed[|s.popped|];
    }
  }

  /** When both sides rest and the indices agree, everything pushed has been popped. */
  lemma EqualIndicesMeanDrained(run: seq<State>, i: nat)
    requires IsRun(run) && i < |run|
    ensures run[i].writeStores != [] && run[i].readStores != []
    ensures run[i].WritePos() == run[i].ReadPos() <==> run[i].popped == run[i].pushed
  {
    var s := run[i];
    RunKeepsInv(run, i);
    Positions(s);
    if |s.popped| < |s.pushed| {
      StartNext(s.pushed, |s.popped|);
      StartMonotone(s.pushed, |s.popped| + 1, |s.pushed|);
      StartOfAll(s.pushed);
      SlotsDiffer(Given(s), Written(s));
    } else {
      assert s.popped == s.pushed;
    }
  }
}
