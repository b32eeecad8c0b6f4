/** The decoder of the binary format in the memory that it runs in
    (workspace/src/framework/impl/ipc/serializer.cpp:65-94, 148-256, 322-406).

    Every offset is an unsigned 32-bit number, and nothing but the checks in the code keeps a reader inside
    the buffer, which begins at address 0 here; what lies behind it may be anything.  How far the reading
    went tells whether the buffer was left. */
module BinaryMemory {
  import opened Bytes
  import opened Wrappers
  import opened Messages
  import opened BinaryCodec

  type Memory = nat -> byte

  /** What was made of the bytes read; none of them was at `reach` or behind it. */
  datatype Run<+T> = Run(result: T, reach: nat)

  function At(mem: Memory, from: nat, n: nat): (s: seq<byte>)
    ensures |s| == n
  {
    seq(n, i requires 0 <= i < n => mem(from + i))
  }

  function Max(a: nat, b: nat): nat {
    if a >= b then a else b
  }

  function RunText(mem: Memory, at: nat, size: nat): (r: Run<Option<(seq<byte>, nat)>>)
    ensures r.result.Some? ==> r.result.value.1 <= size
    ensures r.reach >= at
  {
    if size < 4 then Run(None, at)
    else
      var length := ReadU32(At(mem, at, 4));
      if length > size - 4 then Run(None, at + 4)
      else Run(Some((At(mem, at + 4, length), 4 + length)), at + 4 + length)
  }

  function RunTexts(mem: Memory, at: nat, size: nat, count: nat): (r: Run<Option<(seq<seq<byte>>, nat)>>)
    ensures r.result.Some? ==> |r.result.value.0| == count && r.result.value.1 <= size
    ensures r.reach >= at
    decreases count
  {
    if count == 0 then Run(Some(([], 0)), at)
    else
      var first := RunText(mem, at, size);
      if first.result.None? then Run(None, first.reach)
      else
        var (t, n) := first.result.value;
        var rest := RunTexts(mem, at + n, size - n, count - 1);
        Run(if rest.result.None? then None else Some(([t] + rest.result.value.0, n + rest.result.value.1)),
            Max(first.reach, rest.reach))
  }

  /** The counters behind `n` bytes of a block at `at`. */
  function RunCounters(mem: Memory, at: nat, n: nat, size: nat): Run<Option<(uint64, uint32, uint32)>> {
    var next := (n + 8) % WORD;
    if next > size then Run(None, 0)
    else if (next + 8) % WORD > size then Run(None, at + n + 8)
    else Run(Some((ReadU64(At(mem, at + n, 8)), ReadU32(At(mem, at + next, 4)), ReadU32(At(mem, at + (next + 4) % WORD, 4)))),
             Max(at + n + 8, Max(at + next + 4, at + (next + 4) % WORD + 4)))
  }

  function RunMetadata(mem: Memory, at: nat, size: nat): Run<Option<Metadata>> {
    var texts := RunTexts(mem, at, size, 4);
    if texts.result.None? then Run(None, texts.reach)
    else
      var (t, n) := texts.result.value;
      var counters := RunCounters(mem, at, n, size);
      Run(if counters.result.None? then None
          else Some(Metadata(t[0], t[1], t[2], t[3], counters.result.value.0, counters.result.value.1, counters.result.value.2)),
          Max(texts.reach, counters.reach))
  }

  function RunErrorInfo(mem: Memory, at: nat, size: nat): Run<Option<ErrorInfo>> {
    if size < 4 then Run(None, at)
    else
      var texts := RunTexts(mem, at + 4, size - 4, 3);
      Run(if texts.result.None? then None
          else
            var (t, n) := texts.result.value;
            Some(ErrorInfo(ReadU32(At(mem, at, 4)), t[0], t[1], t[2])), texts.reach)
  }

  function Finished(h: Header, m: Metadata, payload: seq<byte>, e: ErrorInfo): Result<Contents, Error> {
    if h.checksum != ChecksumOf(payload) then Failure(ChecksumMismatch) else Success(Contents(h, m, payload, e))
  }

  /** The error block of an error message at `offset`. */
  function RunErrorBlock(mem: Memory, size: nat, offset: nat): Run<Result<ErrorInfo, Error>> {
    var at := (offset + 4) % WORD;
    if at > size then Run(Failure(InsufficientData), 0)
    else
      var n := ReadU32(At(mem, offset, 4));
      if (at + n) % WORD > size then Run(Failure(InsufficientData), offset + 4)
      else
        var e := RunErrorInfo(mem, at, n);
        Run(if e.result.None? then Failure(DeserializationError) else Success(e.result.value), Max(offset + 4, e.reach))
  }

  function RunRest(mem: Memory, size: nat, offset: nat, h: Header, m: Metadata): Run<Result<Contents, Error>> {
    var end := (offset + h.payloadSize) % WORD;
    if end > size then Run(Failure(InsufficientData), 0)
    else
      var payload, reach := At(mem, offset, h.payloadSize), offset + h.payloadSize;
      if h.messageType != ERROR then Run(Finished(h, m, payload, DEFAULT_ERROR_INFO), reach)
      else
        var e := RunErrorBlock(mem, size, end);
        Run(if e.result.Failure? then Failure(e.result.error) else Finished(h, m, payload, e.result.value), Max(reach, e.reach))
  }

  /** The run of deserialize on a buffer of `size` bytes. */
  function Execute(mem: Memory, size: nat): Run<Result<Contents, Error>> {
    if size < HEADER_SIZE + 4 then Run(Failure(InsufficientData), 0)
    else
      var h := ReadHeader(At(mem, 0, HEADER_SIZE));
      if !ValidHeader(h) then Run(Failure(InvalidFormat), HEADER_SIZE)
      else
        var n := ReadU32(At(mem, HEADER_SIZE, 4));
        var end := (HEADER_SIZE + 4 + n) % WORD;
        if end > size then Run(Failure(InsufficientData), HEADER_SIZE + 4)
        else
          var m := RunMetadata(mem, HEADER_SIZE + 4, n);
          if m.result.None? then Run(Failure(DeserializationError), m.reach)
          else
            var rest := RunRest(mem, size, end, h, m.result.value);
            Run(rest.result, Max(m.reach, rest.reach))
  }

  // ---------------------------------------------------------------------------------------------
  // What the buffer says about the run
  // ---------------------------------------------------------------------------------------------

  ghost predicate Holds(mem: Memory, s: seq<byte>) {
    forall i: nat :: i < |s| ==> mem(i) == s[i]
  }

  /** A reader on the buffer tells what the run makes of it, or that the run leaves it. */
  predicate Tells<T(==)>(r: Passage<T>, run: Run<Option<T>>, end: nat) {
    && (r.Astray? <==> run.reach > end)
    && (r.Arrived? ==> run.result == Some(r.value))
    && (r.Refused? ==> run.result == None)
  }

  lemma HoldsAt(mem: Memory, s: seq<byte>, from: nat, n: nat)
    requires Holds(mem, s) && from + n <= |s|
    ensures At(mem, from, n) == s[from..from + n] == s[from..][..n]
  {
  }

  lemma NumbersAt(mem: Memory, s: seq<byte>, from: nat)
    requires Holds(mem, s)
    ensures from + 4 <= |s| ==> ReadU32(At(mem, from, 4)) == ReadU32(s[from..])
    ensures from + 8 <= |s| ==> ReadU64(At(mem, from, 8)) == ReadU64(s[from..])
  {
    hide At;
    if from + 4 <= |s| {
      HoldsAt(mem, s, from, 4);
      assert At(mem, from, 4)[..4] == s[from..][..4];
    }
    if from + 8 <= |s| {
      HoldsAt(mem, s, from, 8);
      assert At(mem, from, 8)[..8] == s[from..][..8];
    }
  }

  lemma TextTells(mem: Memory, s: seq<byte>, at: nat, size: nat)
    requires Holds(mem, s) && at <= |s|
    ensures Tells(ReadText(s[at..], size), RunText(mem, at, size), |s|)
  {
    hide ReadU32, At, Holds;
    NumbersAt(mem, s, at);
    if size >= 4 && at + 4 <= |s| {
      var length := ReadU32(s[at..]);
      if at + 4 + length <= |s| {
        HoldsAt(mem, s, at + 4, length);
        assert s[at..][4..4 + length] == s[at + 4..at + 4 + length];
      }
    }
  }

  lemma {:induction false} TextsTell(mem: Memory, s: seq<byte>, at: nat, size: nat, count: nat)
    requires Holds(mem, s) && at <= |s|
    ensures Tells(ReadTexts(s[at..], size, count), RunTexts(mem, at, size, count), |s|)
    decreases count
  {
    hide ReadText, ReadTexts, RunText, Holds;
    if count == 0 {
      NoTextsLeft(s[at..], size, [], 0);
    } else {
      OneMoreText(s[at..], size, count - 1);
      TextTells(mem, s, at, size);
      var first := ReadText(s[at..], size);
      if first.Arrived? {
        var n := first.value.1;
        assert s[at..][n..] == s[at + n..];
        TextsTell(mem, s, at + n, size - n, count - 1);
      }
    }
  }

  lemma CountersTell(mem: Memory, s: seq<byte>, at: nat, n: nat, size: nat)
    requires Holds(mem, s) && 8 <= at && at + n <= |s| < WORD && n <= size
    ensures Tells(ReadCounters(s[at + n..], size - n), RunCounters(mem, at, n, size), |s|)
  {
    hide ReadU32, ReadU64, At, Holds;
    ModuloAtMost(n + 8);
    ModuloAtMost(n + 12);
    ModuloAtMost(n + 16);
    var next := at + n;
    NumbersAt(mem, s, next);
    NumbersAt(mem, s, next + 8);
    NumbersAt(mem, s, next + 12);
    if next + 16 <= |s| {
      assert s[next..][8..] == s[next + 8..] && s[next..][12..] == s[next + 12..];
    }
  }

  lemma MetadataTells(mem: Memory, s: seq<byte>, at: nat, size: nat)
    requires Holds(mem, s) && 8 <= at <= |s| < WORD
    ensures var r, run := ReadMetadata(s[at..], size), RunMetadata(mem, at, size);
            && (r.Astray? <==> run.reach > |s|)
            && (r.Arrived? ==> run.result == Some(r.value.0))
            && (r.Refused? ==> run.result == None)
  {
    hide ReadTexts, RunTexts, ReadCounters, RunCounters, Holds;
    TextsTell(mem, s, at, size, 4);
    var texts := ReadTexts(s[at..], size, 4);
    if texts.Arrived? {
      var n := texts.value.1;
      assert s[at..][n..] == s[at + n..];
      CountersTell(mem, s, at, n, size);
    }
  }

  lemma ErrorInfoTells(mem: Memory, s: seq<byte>, at: nat, size: nat)
    requires Holds(mem, s) && at <= |s|
    ensures var r, run := ReadErrorInfo(s[at..], size), RunErrorInfo(mem, at, size);
            && (r.Astray? <==> run.reach > |s|)
            && (r.Arrived? ==> run.result == Some(r.value.0))
            && (r.Refused? ==> run.result == None)
  {
    hide ReadTexts, RunTexts, Holds, ReadU32, At;
    if size >= 4 && at + 4 <= |s| {
      NumbersAt(mem, s, at);
      assert s[at..][4..] == s[at + 4..];
      TextsTell(mem, s, at + 4, size - 4, 3);
    }
  }

  /** The same for results of the whole. */
  predicate Agrees<T(==)>(r: Result<T, Error>, run: Run<Result<T, Error>>, end: nat) {
    && (r == Failure(Unspecified) <==> run.reach > end)
    && (run.reach <= end ==> run.result == r)
  }

  lemma ErrorBlockAgrees(mem: Memory, s: seq<byte>, offset: nat, h: Header)
    requires Holds(mem, s) && offset <= |s| < WORD && h.messageType == ERROR
    ensures Agrees(ReadErrorBlock(Machine, s, offset, h), RunErrorBlock(mem, |s|, offset), |s|)
  {
    hide ReadErrorInfo, RunErrorInfo, Holds, ReadU32, At;
    ModuloAtMost(offset + 4);
    NumbersAt(mem, s, offset);
    if offset + 4 <= |s| {
      ErrorInfoTells(mem, s, offset + 4, ReadU32(s[offset..]));
    }
  }

  lemma RestAgrees(mem: Memory, s: seq<byte>, offset: nat, h: Header, m: Metadata)
    requires Holds(mem, s) && offset <= |s| < WORD
    ensures Agrees(ReadRest(Machine, s, offset, h, m), RunRest(mem, |s|, offset, h, m), |s|)
  {
    hide ReadErrorBlock, RunErrorBlock, Holds, At, ChecksumOf;
    var end := offset + h.payloadSize;
    ModuloAtMost(end);
    OnlyErrorsCarryInfo(s, end, h);
    if end <= |s| {
      HoldsAt(mem, s, offset, h.payloadSize);
      if h.messageType == ERROR {
        ErrorBlockAgrees(mem, s, end, h);
      }
    }
  }

  /** The outcome is unspecified exactly when some read passes the end of the buffer, whatever the memory
      behind it holds; any other outcome is that of the run. */
  lemma UnspecifiedExactlyWhenReadPastTheEnd(mem: Memory, s: seq<byte>)
    requires Holds(mem, s) && |s| < WORD
    ensures Decoded(s) == Failure(Unspecified) <==> Execute(mem, |s|).reach > |s|
    ensures Execute(mem, |s|).reach <= |s| ==> Execute(mem, |s|).result == Decoded(s)
  {
    hide ReadMetadata, RunMetadata, ReadRest, RunRest, Holds, At, ReadHeader, ReadU32, ValidHeader;
    if |s| >= HEADER_SIZE + 4 {
      HeaderAt(mem, s);
      NumbersAt(mem, s, HEADER_SIZE);
      ModuloAtMost(HEADER_SIZE + 4);
      var n := ReadU32(s[HEADER_SIZE..]);
      var end := (HEADER_SIZE + 4 + n) % WORD;
      if end <= |s| {
        MetadataTells(mem, s, HEADER_SIZE + 4, n);
        var m := ReadMetadata(s[HEADER_SIZE + 4..], n);
        if m.Arrived? {
          RestAgrees(mem, s, end, ReadHeader(s), m.value.0);
        }
      }
    }
  }

  lemma HeaderAt(mem: Memory, s: seq<byte>)
    requires Holds(mem, s) && |s| >= HEADER_SIZE
    ensures ReadHeader(At(mem, 0, HEADER_SIZE)) == ReadHeader(s)
  {
    hide ReadU32, ReadU64, At;
    var h := s[..HEADER_SIZE];
    HoldsAt(mem, s, 0, HEADER_SIZE);
    assert At(mem, 0, HEADER_SIZE) == h;
    HeaderNumbers(s);
    assert h[..16] == s[..16] && h[16..32] == s[16..32];
  }

  lemma HeaderNumbers(s: seq<byte>)
    requires |s| >= HEADER_SIZE
    ensures var h := s[..HEADER_SIZE];
            && ReadU64(h[32..]) == ReadU64(s[32..]) && ReadU32(h[44..]) == ReadU32(s[44..])
            && ReadU32(h[48..]) == ReadU32(s[48..]) && ReadU32(h[52..]) == ReadU32(s[52..])
  {
    var h := s[..HEADER_SIZE];
    assert h[32..][..8] == s[32..][..8] && h[44..][..4] == s[44..][..4];
    assert h[48..][..4] == s[48..][..4] && h[52..][..4] == s[52..][..4];
  }
}
