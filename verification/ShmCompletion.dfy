/** What has begun on a shared-memory queue can be completed, whatever has gone before
    (workspace/src/framework/impl/ipc/shared_memory_transport.cpp:664-800), and where a queue gets to in that
    way. */
module ShmCompletion {
  import opened Bytes
  import opened Words
  import opened ShmFrames
  import opened ShmProtocol

  function Last(run: seq<State>): State
    requires run != []
  {
    run[|run| - 1]
  }

  /** One more step of a run. */
  lemma Extend(run: seq<State>, s': State, step: Step)
    requires IsRun(run) && WellFormed(Last(run)) && NextStep(Last(run), s', step)
    ensures IsRun(run + [s']) && Last(run + [s']) == s'
  {
    hide NextStep, WellFormed, Init;
    var run' := run + [s'];
    assert Next(run[|run| - 1], s') by {
      assert WellFormed(Last(run)) && NextStep(Last(run), s', step);
    }
    forall i | 0 <= i < |run'| - 1
      ensures Next(run'[i], run'[i + 1])
    {
      if i < |run| - 1 {
        assert run'[i] == run[i] && run'[i + 1] == run[i + 1];
      }
    }
  }

  lemma LastIsSound(run: seq<State>)
    requires IsRun(run)
    ensures Inv(Last(run)) && WellFormed(Last(run))
  {
    hide Inv, Next, Init, WellFormed;
    RunKeepsInv(run, |run| - 1);
    InvIsWellFormed(Last(run));
  }

  // ---------------------------------------------------------------------------------------------
  // Pushing
  // ---------------------------------------------------------------------------------------------

  /** The bytes that are still to be written can be written, and published. */
  lemma {:induction false} WritingCompletes(run: seq<State>) returns (run': seq<State>)
    requires IsRun(run) && Last(run).producer.Writing?
    ensures IsRun(run')
    ensures var s, s' := Last(run), Last(run');
            && s'.producer == Idle && s'.pushed == s.pushed + [s.producer.message] && s'.seenRead == s.seenRead
            && s'.consumer == s.consumer && s'.popped == s.popped && s'.seenWrite == s.seenWrite
    decreases PREFIX + |Last(run).producer.message| - Last(run).producer.done
  {
    hide Next, Init, HoldsUnread, IndicesFollowStreams, WithinOneTurn, ConsumerOnCourse, Frame, Slot, Stream, Start, PushByte;
    LastIsSound(run);
    var s := Last(run);
    var Writing(m, at, done) := s.producer;
    if done < PREFIX + |m| {
      var next := s.(data := s.data[at := PushByte(m, done)], producer := Writing(m, (at + 1) % QUEUE_SIZE, done + 1));
      Extend(run, next, WriteByte);
      run' := WritingCompletes(run + [next]);
    } else {
      var next := s.(writeStores := s.writeStores + [at], pushed := s.pushed + [m], producer := Idle);
      Extend(run, next, Publish);
      run' := run + [next];
    }
  }

  /** A message that fits can be pushed. */
  lemma PushCompletes(run: seq<State>, m: Message) returns (run': seq<State>)
    requires IsRun(run) && Last(run).producer.Idle? && Sendable(m)
    requires Written(Last(run)) - Given(Last(run)) + PREFIX + |m| <= QUEUE_SIZE - 1
    ensures IsRun(run')
    ensures var s, s' := Last(run), Last(run');
            && s'.producer == Idle && s'.pushed == s.pushed + [m] && s'.seenRead == |s.popped|
            && s'.consumer == s.consumer && s'.popped == s.popped && s'.seenWrite == s.seenWrite
  {
    hide Next, Init, Inv, WellFormed, Frame, Slot, Stream, Start, Available;
    LastIsSound(run);
    var s := Last(run);
    FreshViewIsExact(s, m);
    var next :| NextStep(s, next, BeginPush(m, |s.popped|));
    Extend(run, next, BeginPush(m, |s.popped|));
    run' := WritingCompletes(run + [next]);
  }

  // ---------------------------------------------------------------------------------------------
  // Popping
  // ---------------------------------------------------------------------------------------------

  /** The front message is one that the size check lets through. */
  lemma FrontSize(s: State)
    requires Inv(s) && |s.popped| < |s.pushed|
    ensures Sendable(s.pushed[|s.popped|])
    ensures Value(Frame(s.pushed[|s.popped|])[..PREFIX]) == |s.pushed[|s.popped|]|
  {
    hide HoldsUnread, IndicesFollowStreams, WithinOneTurn, ConsumerOnCourse, ProducerOnCourse, Slot, Stream, Start, Frame;
    SizePrefixValue(s.pushed[|s.popped|], 0);
  }

  lemma {:induction false} BodyCompletes(run: seq<State>) returns (run': seq<State>)
    requires IsRun(run) && Last(run).consumer.ReadingBody?
    ensures IsRun(run') && |Last(run).popped| < |Last(run).pushed|
    ensures var s, s' := Last(run), Last(run');
            && s'.consumer == Waiting && s'.popped == s.popped + [s.pushed[|s.popped|]] && s'.seenWrite == s.seenWrite
            && s'.producer == s.producer && s'.pushed == s.pushed && s'.seenRead == s.seenRead
    decreases Last(run).consumer.size - |Last(run).consumer.body|
  {
    hide Next, Init, HoldsUnread, IndicesFollowStreams, WithinOneTurn, ProducerOnCourse, Frame, Slot, Stream, Start;
    LastIsSound(run);
    var s := Last(run);
    var ReadingBody(at, size, body) := s.consumer;
    if |body| < size {
      var next := s.(consumer := ReadingBody((at + 1) % QUEUE_SIZE, size, body + [s.data[at]]));
      Extend(run, next, ReadBodyByte);
      run' := BodyCompletes(run + [next]);
    } else {
      var next := s.(readStores := s.readStores + [at], popped := s.popped + [body], consumer := Waiting);
      Extend(run, next, Release);
      run' := run + [next];
      assert body == s.pushed[|s.popped|];
    }
  }

  lemma {:induction false} SizeCompletes(run: seq<State>) returns (run': seq<State>)
    requires IsRun(run) && Last(run).consumer.ReadingSize?
    ensures IsRun(run')
    ensures var s, s' := Last(run), Last(run');
            && s'.consumer.ReadingBody? && s'.popped == s.popped && s'.seenWrite == s.seenWrite
            && s'.producer == s.producer && s'.pushed == s.pushed && s'.seenRead == s.seenRead
    decreases PREFIX - Last(run).consumer.read
  {
    hide Next, Init, HoldsUnread, IndicesFollowStreams, WithinOneTurn, ProducerOnCourse;
    hide Frame, Slot, Stream, Start, Or, Weight, Value;
    LastIsSound(run);
    var s := Last(run);
    var ReadingSize(at, read, size) := s.consumer;
    if read < PREFIX {
      var next := s.(consumer := ReadingSize((at + 1) % QUEUE_SIZE, read + 1, Or(size, s.data[at] * Weight(read))));
      Extend(run, next, ReadSizeByte);
      run' := SizeCompletes(run + [next]);
    } else {
      FrontSize(s);
      var next := s.(consumer := ReadingBody(at, size, []));
      Extend(run, next, AcceptSize);
      run' := run + [next];
    }
  }

  /** The oldest message can be popped. */
  lemma PopCompletes(run: seq<State>) returns (run': seq<State>)
    requires IsRun(run) && Last(run).consumer.Waiting? && |Last(run).popped| < |Last(run).pushed|
    ensures IsRun(run')
    ensures var s, s' := Last(run), Last(run');
            && s'.consumer == Waiting && s'.popped == s.popped + [s.pushed[|s.popped|]] && s'.seenWrite == |s.pushed|
            && s'.producer == s.producer && s'.pushed == s.pushed && s'.seenRead == s.seenRead
  {
    hide Next, Init, Inv, WellFormed, Slot, Stream, Start;
    LastIsSound(run);
    var s := Last(run);
    FindsWhatIsThere(run);
    var next := s.(seenWrite := |s.pushed|, consumer := ReadingSize(s.ReadPos(), 0, 0));
    Extend(run, next, BeginPop(|s.pushed|));
    run' := SizeCompletes(run + [next]);
    run' := BodyCompletes(run');
  }

  lemma FindsWhatIsThere(run: seq<State>)
    requires IsRun(run) && |Last(run).popped| < |Last(run).pushed|
    ensures var s := Last(run);
            && s.seenWrite <= |s.pushed| && |s.writeStores| == |s.pushed| + 1 && s.readStores != []
            && s.ReadPos() != s.writeStores[|s.pushed|]
  {
    hide Next, Init, HoldsUnread, WithinOneTurn, ProducerOnCourse, ConsumerOnCourse, Slot, Stream, Start;
    LastIsSound(run);
    EqualIndicesMeanDrained(run, |run| - 1);
  }

  // ---------------------------------------------------------------------------------------------
  // A whole turn
  // ---------------------------------------------------------------------------------------------

  /** A message pushed and popped any number of times. */
  lemma {:induction false} RoundsComplete(m: Message, n: nat) returns (run: seq<State>)
    requires Sendable(m)
    ensures IsRun(run)
    ensures var s := Last(run);
            && s.producer == Idle && s.consumer == Waiting && s.pushed == s.popped == seq(n, _ => m)
  {
    hide Next, Stream;
    if n == 0 {
      var s := State(seq(QUEUE_SIZE, _ => 0), [0], [0], 0, 0, Idle, Waiting, [], []);
      run := [s];
      assert Init(s);
    } else {
      run := RoundsComplete(m, n - 1);
      run := PushCompletes(run, m);
      run := PopCompletes(run);
      assert seq(n, _ => m) == seq(n - 1, _ => m) + [m];
    }
  }

  /** Sixteen of the largest messages can be pushed and fifteen of them popped, all stores of read_pos seen.
      The first of these stores then shows all but 64 bytes free, while a whole message waits. */
  lemma FirstViewMisleads() returns (run: seq<State>)
    ensures IsRun(run)
    ensures var s := Last(run);
            && s.producer == Idle && s.consumer == Waiting && |s.pushed| == 16 && |s.popped| == 15 && s.seenRead == 15
            && Misleads(s, 0) && Available(s.WritePos(), s.readStores[0]) == QUEUE_SIZE - 1 - 64
  {
    hide Next, Init, Stream, Slot, Available, Frame;
    var big: Message := seq(MAX_MSG_SIZE, _ => 0);
    run := RoundsComplete(big, 15);
    run := PushCompletes(run, big);
    var s := Last(run);
    forall k: nat | k <= 16
      ensures Start(s.pushed, k) == k * 65540
    {
      StartOfEqualFrames(s.pushed, MAX_MSG_SIZE, k);
    }
    assert s.popped == s.pushed[..15];
    StartOfPrefix(s.popped, s.pushed, 15);
    StartOfPrefix(s.popped, s.pushed, 0);
    StartOfAll(s.pushed);
    StartOfAll(s.popped);
    LastIsSound(run);
    Positions(s);
    assert Written(s) == 1048640 && Given(s) == 983100;
    ViewMisleadsExactly(s, 0);
    AvailableForgetsTurns(Written(s), 0);
    assert s.readStores[0] == Slot(Start(s.popped, 0));
  }
}
