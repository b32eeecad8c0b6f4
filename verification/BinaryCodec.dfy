/** Messages in the length-prefixed binary format (workspace/src/framework/impl/ipc/serializer.cpp).
    The header is written field by field in its packed layout, least significant byte first. */
module BinaryCodec {
  import opened Bytes
  import opened Words
  import opened Wrappers
  import opened Messages

  /** `Unspecified` is no result of the program: it has read past the end of the buffer, and what it makes
      of the bytes there is not for a model of the buffer to say. */
  datatype Error = InsufficientData | InvalidFormat | DeserializationError | ChecksumMismatch | Unspecified

  /** The bounds checks add in 32 bits; `Exact` is what they are meant to compute. */
  datatype Width = Machine | Exact

  const WORD: nat := 0x1_0000_0000

  // ---------------------------------------------------------------------------------------------
  // Encoding
  // ---------------------------------------------------------------------------------------------

  function U32(v: uint32): (s: seq<byte>)
    ensures |s| == 4
  {
    LittleEndian(v, 4)
  }

  function U64(v: uint64): (s: seq<byte>)
    ensures |s| == 8
  {
    LittleEndian(v, 8)
  }

  /** A text behind its length, which is cut to 32 bits; nothing follows a length of zero. */
  function Text(t: seq<byte>): seq<byte> {
    U32(|t| % WORD) + if |t| % WORD > 0 then t else []
  }

  /** A block behind its length, which is cut to 32 bits. */
  function Block(b: seq<byte>): seq<byte> {
    U32(|b| % WORD) + b
  }

  function EncodeHeader(h: Header): (s: seq<byte>)
    ensures |s| == HEADER_SIZE
  {
    h.messageId + h.correlationId + U64(h.timestamp) +
    [h.messageType, h.priority, h.format, h.version] + U32(h.flags) + U32(h.payloadSize) + U32(h.checksum)
  }

  predicate Fit(ts: seq<seq<byte>>) {
    forall t :: t in ts ==> |t| < WORD
  }

  function TextsOf(m: Metadata): seq<seq<byte>> {
    [m.source, m.destination, m.subject, m.contentType]
  }

  function ErrorTexts(e: ErrorInfo): seq<seq<byte>> {
    [e.message, e.category, e.context]
  }

  /** Texts one after the other. */
  function Texts(ts: seq<seq<byte>>): seq<byte> {
    if ts == [] then [] else Text(ts[0]) + Texts(ts[1..])
  }

  function EncodeMetadata(m: Metadata): seq<byte> {
    Texts(TextsOf(m)) +
    (U64(m.expiration) + (U32(m.retryCount) + U32(m.maxRetries)))
  }

  function EncodeErrorInfo(e: ErrorInfo): seq<byte> {
    U32(e.code) + Texts(ErrorTexts(e))
  }

  /** Every length fits the 32 bits it is written with. */
  predicate Representable(m: Contents) {
    && Fit(TextsOf(m.metadata)) && Fit(ErrorTexts(m.errorInfo))
    && |EncodeMetadata(m.metadata)| < 0x1_0000_0000
    && |EncodeErrorInfo(m.errorInfo)| < 0x1_0000_0000
  }

  /** What is written behind the metadata. */
  function EncodeRest(m: Contents): seq<byte> {
    m.payload[..|m.payload| % WORD] + if m.IsError() then Block(EncodeErrorInfo(m.errorInfo)) else []
  }

  function Encoded(m: Contents): seq<byte> {
    EncodeHeader(m.header) + (Block(EncodeMetadata(m.metadata)) + EncodeRest(m))
  }

  // ---------------------------------------------------------------------------------------------
  // Decoding
  // ---------------------------------------------------------------------------------------------

  function ReadU32(s: seq<byte>): uint32
    requires |s| >= 4
  {
    ValueBounded(s[..4]);
    Weights();
    Value(s[..4])
  }

  function ReadU64(s: seq<byte>): uint64
    requires |s| >= 8
  {
    ValueBounded(s[..8]);
    Weights();
    Value(s[..8])
  }

  // A reader gets the bytes `s` from its pointer to the end of the buffer, and `size`, how many there are
  // said to be.  It checks against `size` alone, and goes astray when it reads a byte that `s` lacks.

  /** A text and the bytes it takes. */
  function ReadText(s: seq<byte>, size: nat): (r: Passage<(seq<byte>, nat)>)
    ensures r.Arrived? ==> 4 <= r.value.1 <= |s| && r.value.1 <= size
  {
    if size < 4 then Refused
    else if |s| < 4 then Astray
    else
      var length := ReadU32(s);
      if length > size - 4 then Refused
      else if 4 + length > |s| then Astray
      else Arrived((s[4..4 + length], 4 + length))
  }

  /** So many texts one after the other. */
  function ReadTexts(s: seq<byte>, size: nat, count: nat): (r: Passage<(seq<seq<byte>>, nat)>)
    ensures r.Arrived? ==> |r.value.0| == count && r.value.1 <= |s| && r.value.1 <= size
    decreases count
  {
    if count == 0 then Arrived(([], 0))
    else
      var first :- ReadText(s, size);
      var rest :- ReadTexts(s[first.1..], size - first.1, count - 1);
      Arrived(([first.0] + rest.0, first.1 + rest.1))
  }

  /** The expiration and the two counts: sixteen bytes, tested and read eight at a time. */
  function ReadCounters(s: seq<byte>, size: nat): (r: Passage<(uint64, uint32, uint32)>)
    ensures r.Arrived? ==> 16 <= |s| && 16 <= size
  {
    if size < 8 then Refused
    else if |s| < 8 then Astray
    else if size < 16 then Refused
    else if |s| < 16 then Astray
    else Arrived((ReadU64(s), ReadU32(s[8..]), ReadU32(s[12..])))
  }

  function ReadHeader(s: seq<byte>): Header
    requires |s| >= HEADER_SIZE
  {
    Header(s[..16], s[16..32], ReadU64(s[32..]), s[40], s[41], s[42], s[43], ReadU32(s[44..]), ReadU32(s[48..]), ReadU32(s[52..]))
  }

  /** The metadata at the front of `s` and the bytes it takes. */
  function ReadMetadata(s: seq<byte>, size: nat): (r: Passage<(Metadata, nat)>)
    ensures r.Arrived? ==> r.value.1 <= |s| && r.value.1 <= size
  {
    var texts :- ReadTexts(s, size, 4);
    var (t, n) := texts;
    var counters :- ReadCounters(s[n..], size - n);
    Arrived((Metadata(t[0], t[1], t[2], t[3], counters.0, counters.1, counters.2), n + 16))
  }

  function ReadErrorInfo(s: seq<byte>, size: nat): (r: Passage<(ErrorInfo, nat)>)
    ensures r.Arrived? ==> r.value.1 <= |s| && r.value.1 <= size
  {
    if size < 4 then Refused
    else if |s| < 4 then Astray
    else
      var texts :- ReadTexts(s[4..], size - 4, 3);
      var (t, n) := texts;
      Arrived((ErrorInfo(ReadU32(s), t[0], t[1], t[2]), 4 + n))
  }

  /** What a reader's refusal, or its leaving the buffer, makes of the whole. */
  function Decodes<T>(r: Passage<T>): Result<T, Error> {
    match r
    case Arrived(value) => Success(value)
    case Refused => Failure(DeserializationError)
    case Astray => Failure(Unspecified)
  }

  /** `offset + n` as a bounds check, and the step that follows it, compute it. */
  function Sum(width: Width, offset: nat, n: nat): nat {
    if width == Machine then (offset + n) % WORD else offset + n
  }

  /** The length in front of a block at `offset`, which the check of its end has let through. */
  function OpenBlock(width: Width, s: seq<byte>, offset: nat): (r: Result<uint32, Error>)
    ensures r.Success? ==> offset + 4 <= |s| && Sum(width, offset + 4, r.value) <= |s|
  {
    if Sum(width, offset, 4) > |s| then Failure(InsufficientData)
    else if offset + 4 > |s| then Failure(Unspecified)
    else
      var size := ReadU32(s[offset..]);
      if Sum(width, offset + 4, size) > |s| then Failure(InsufficientData) else Success(size)
  }

  /** The error info of an error message at `offset`; other messages have none. */
  function ReadErrorBlock(width: Width, s: seq<byte>, offset: nat, h: Header): Result<ErrorInfo, Error> {
    if h.messageType != ERROR then Success(DEFAULT_ERROR_INFO)
    else
      var size :- OpenBlock(width, s, offset);
      var e :- Decodes(ReadErrorInfo(s[offset + 4..], size));
      Success(e.0)
  }

  /** Payload, error info and checksum, with the offset where the metadata block is held to end. */
  function ReadRest(width: Width, s: seq<byte>, offset: nat, h: Header, m: Metadata): Result<Contents, Error> {
    var end := offset + h.payloadSize;
    if Sum(width, offset, h.payloadSize) > |s| then Failure(InsufficientData)
    else if end > |s| then Failure(Unspecified)
    else
      var e :- ReadErrorBlock(width, s, end, h);
      if h.checksum != ChecksumOf(s[offset..end]) then Failure(ChecksumMismatch)
      else Success(Contents(h, m, s[offset..end], e))
  }

  function ReadMessage(width: Width, s: seq<byte>): Result<Contents, Error> {
    if |s| < HEADER_SIZE + 4 then Failure(InsufficientData)
    else
      var h := ReadHeader(s);
      if !ValidHeader(h) then Failure(InvalidFormat)
      else
        var size :- OpenBlock(width, s, HEADER_SIZE);
        var m :- Decodes(ReadMetadata(s[HEADER_SIZE + 4..], size));
        ReadRest(width, s, Sum(width, HEADER_SIZE + 4, size), h, m.0)
  }

  /** What the program makes of a buffer. */
  function Decoded(s: seq<byte>): Result<Contents, Error> {
    ReadMessage(Machine, s)
  }

  // ---------------------------------------------------------------------------------------------
  // The bounds checks
  // ---------------------------------------------------------------------------------------------

  /** A check, true when it refuses, is right exactly when its sum stays below 2^32: a sum that wraps round
      always passes, and goes on from an offset in front of the one checked. */
  lemma CheckIsRightBelowWord(offset: nat, n: uint32, size: uint32)
    requires offset <= size
    ensures (Sum(Machine, offset, n) > size <==> Sum(Exact, offset, n) > size) <==> offset + n < WORD
    ensures Sum(Exact, offset, n) == offset + n
    ensures offset + n < WORD ==> Sum(Machine, offset, n) == offset + n
    ensures offset + n >= WORD ==> Sum(Machine, offset, n) == offset + n - WORD < offset
  {
    if offset + n >= WORD {
      assert (offset + n) % WORD == offset + n - WORD;
    } else {
      assert (offset + n) % WORD == offset + n;
    }
  }

  /** A reader that is told no more than there is stays in the buffer. */
  lemma {:induction false} TextsWithinStay(s: seq<byte>, size: nat, count: nat)
    requires size <= |s|
    ensures !ReadTexts(s, size, count).Astray?
    decreases count
  {
    hide ReadU32;
    if count > 0 && ReadText(s, size).Arrived? {
      var n := ReadText(s, size).value.1;
      TextsWithinStay(s[n..], size - n, count - 1);
    }
  }

  lemma ReadersWithinStay(s: seq<byte>, size: nat)
    requires size <= |s|
    ensures !ReadMetadata(s, size).Astray? && !ReadErrorInfo(s, size).Astray?
  {
    hide ReadTexts, ReadU32, ReadU64;
    TextsWithinStay(s, size, 4);
    if size >= 4 {
      TextsWithinStay(s[4..], size - 4, 3);
    }
  }

  /** The lengths of a block at `offset` stay below 2^32. */
  predicate BlockFits(s: seq<byte>, offset: nat) {
    offset + 4 < WORD && (offset + 4 <= |s| ==> offset + 4 + ReadU32(s[offset..]) < WORD)
  }

  lemma BlockOpensRight(s: seq<byte>, offset: nat)
    requires offset <= |s| < WORD
    ensures OpenBlock(Machine, s, offset) == OpenBlock(Exact, s, offset) <==> BlockFits(s, offset)
    ensures OpenBlock(Exact, s, offset) == Failure(InsufficientData) || OpenBlock(Exact, s, offset).Success?
    ensures !BlockFits(s, offset) ==>
              && OpenBlock(Exact, s, offset) == Failure(InsufficientData)
              && OpenBlock(Machine, s, offset) != Failure(InsufficientData)
  {
    hide ReadU32, Sum;
    CheckIsRightBelowWord(offset, 4, |s|);
    if offset + 4 <= |s| {
      CheckIsRightBelowWord(offset + 4, ReadU32(s[offset..]), |s|);
    }
  }

  /** What follows the metadata, from `offset` on, makes no sum wrap round. */
  predicate RestFits(s: seq<byte>, offset: nat, h: Header) {
    var end := offset + h.payloadSize;
    end < WORD && (end <= |s| && h.messageType == ERROR ==> BlockFits(s, end))
  }

  lemma ErrorBlockReadsRight(s: seq<byte>, offset: nat, h: Header)
    requires offset <= |s| < WORD && h.messageType == ERROR
    ensures ReadErrorBlock(Machine, s, offset, h) == ReadErrorBlock(Exact, s, offset, h) <==> BlockFits(s, offset)
    ensures !BlockFits(s, offset) ==>
              && ReadErrorBlock(Exact, s, offset, h) == Failure(InsufficientData)
              && ReadErrorBlock(Machine, s, offset, h) != Failure(InsufficientData)
    ensures ReadErrorBlock(Exact, s, offset, h) != Failure(Unspecified)
  {
    hide BlockFits, ReadErrorInfo, OpenBlock;
    BlockOpensRight(s, offset);
    OpenedIsThere(s, offset);
    var size := OpenBlock(Exact, s, offset);
    if size.Success? {
      ReadersWithinStay(s[offset + 4..], size.value);
    }
  }

  lemma OpenedIsThere(s: seq<byte>, offset: nat)
    ensures OpenBlock(Exact, s, offset).Success? ==> offset + 4 + OpenBlock(Exact, s, offset).value <= |s|
  {
    hide ReadU32;
  }

  lemma RestReadsRight(s: seq<byte>, offset: nat, h: Header, m: Metadata)
    requires offset <= |s| < WORD
    ensures ReadRest(Machine, s, offset, h, m) == ReadRest(Exact, s, offset, h, m) <==> RestFits(s, offset, h)
    ensures ReadRest(Exact, s, offset, h, m) != Failure(Unspecified)
  {
    hide BlockFits, ReadErrorBlock, ChecksumOf, Sum;
    CheckIsRightBelowWord(offset, h.payloadSize, |s|);
    var end := offset + h.payloadSize;
    OnlyErrorsCarryInfo(s, end, h);
    if end <= |s| && h.messageType == ERROR {
      ErrorBlockReadsRight(s, end, h);
    }
  }

  lemma OnlyErrorsCarryInfo(s: seq<byte>, offset: nat, h: Header)
    ensures h.messageType != ERROR ==> forall w :: ReadErrorBlock(w, s, offset, h) == Success(DEFAULT_ERROR_INFO)
  {
  }

  /** What follows `offset` is refused for want of data: the payload, the length of the error info, or the
      error info. */
  predicate LacksData(s: seq<byte>, offset: nat, h: Header) {
    var end := offset + h.payloadSize;
    || end > |s|
    || (h.messageType == ERROR &&
        (end + 4 > |s| || |s| < end + 4 + ReadU32(s[end..]) < WORD))
  }

  lemma RestLacksData(s: seq<byte>, offset: nat, h: Header, m: Metadata)
    requires offset < HEADER_SIZE + 4 <= |s| < WORD && ValidHeader(h)
    ensures ReadRest(Machine, s, offset, h, m) == Failure(InsufficientData) <==> LacksData(s, offset, h)
  {
    hide ReadErrorInfo, ReadU32, ChecksumOf, Sum;
    CheckIsRightBelowWord(offset, h.payloadSize, |s|);
    var end := offset + h.payloadSize;
    if end <= |s| && h.messageType == ERROR {
      CheckIsRightBelowWord(end, 4, |s|);
      if end + 4 <= |s| {
        CheckIsRightBelowWord(end + 4, ReadU32(s[end..]), |s|);
      }
    }
  }

  /** Exact sums would lead to the same outcome.  If the metadata length leaves its sum below 2^32, no later
      sum may wrap round.  If it does not, exact sums find the data insufficient: then there must be metadata
      all the same, and what follows from the wrapped offset on must lack data too. */
  predicate SumsDoNoHarm(s: seq<byte>) {
    |s| >= HEADER_SIZE + 4 && ValidHeader(ReadHeader(s)) ==>
      var h, size := ReadHeader(s), ReadU32(s[HEADER_SIZE..]);
      var m, end := ReadMetadata(s[HEADER_SIZE + 4..], size), HEADER_SIZE + 4 + size;
      if end < WORD then end <= |s| && m.Arrived? ==> RestFits(s, end, h)
      else m.Arrived? && LacksData(s, end - WORD, h)
  }

  /** The program decodes a buffer as with exact sums exactly when its sums do no harm. */
  lemma DecodesAsMeantExactly(s: seq<byte>)
    requires |s| < WORD
    ensures Decoded(s) == ReadMessage(Exact, s) <==> SumsDoNoHarm(s)
    ensures ReadMessage(Exact, s) != Failure(Unspecified)
  {
    hide ReadU32, ReadHeader, ReadMetadata, ReadRest, RestFits, LacksData, ValidHeader, Sum;
    if |s| >= HEADER_SIZE + 4 && ValidHeader(ReadHeader(s)) {
      var h, size := ReadHeader(s), ReadU32(s[HEADER_SIZE..]);
      var m, end := ReadMetadata(s[HEADER_SIZE + 4..], size), HEADER_SIZE + 4 + size;
      CheckIsRightBelowWord(HEADER_SIZE, 4, |s|);
      CheckIsRightBelowWord(HEADER_SIZE + 4, size, |s|);
      if end <= |s| {
        ReadersWithinStay(s[HEADER_SIZE + 4..], size);
      }
      if m.Arrived? {
        if end < WORD {
          if end <= |s| {
            RestReadsRight(s, end, h, m.value.0);
          }
        } else {
          RestLacksData(s, end - WORD, h, m.value.0);
        }
      }
    }
  }

  // ---------------------------------------------------------------------------------------------
  // Round trips
  // ---------------------------------------------------------------------------------------------

  lemma ReadU32Back(v: uint32, rest: seq<byte>)
    ensures ReadU32(U32(v) + rest) == v
  {
    Weights();
    ValueOfLittleEndian(v, 4);
    assert (U32(v) + rest)[..4] == U32(v);
  }

  lemma ReadU64Back(v: uint64, rest: seq<byte>)
    ensures ReadU64(U64(v) + rest) == v
  {
    Weights();
    ValueOfLittleEndian(v, 8);
    assert (U64(v) + rest)[..8] == U64(v);
  }

  lemma ReadTextBack(t: seq<byte>, rest: seq<byte>, size: nat)
    requires |t| < WORD && size >= |Text(t)|
    ensures ReadText(Text(t) + rest, size) == Arrived((t, |Text(t)|))
    ensures (Text(t) + rest)[|Text(t)|..] == rest
  {
    hide U32, ReadU32;
    assert Text(t) + rest == U32(|t|) + (t + rest);
    ReadU32Back(|t|, t + rest);
    assert (Text(t) + rest)[4..4 + |t|] == t;
  }

  /** A text comes back exactly when its length fits the 32 bits it is written with. */
  lemma TextComesBackExactly(t: seq<byte>, rest: seq<byte>, size: nat)
    requires size >= |Text(t)|
    ensures ReadText(Text(t) + rest, size) == Arrived((t, |Text(t)|)) <==> |t| < WORD
  {
    hide U32, ReadU32;
    if |t| < WORD {
      ReadTextBack(t, rest, size);
    } else {
      ReadU32Back(|t| % WORD, if |t| % WORD > 0 then t + rest else rest);
      assert Text(t) + rest == U32(|t| % WORD) + if |t| % WORD > 0 then t + rest else rest;
    }
  }

  /** The texts read so far, and what becomes of the others. */
  function Continued(done: seq<seq<byte>>, n: nat, r: Passage<(seq<seq<byte>>, nat)>): Passage<(seq<seq<byte>>, nat)> {
    if r.Arrived? then Arrived((done + r.value.0, n + r.value.1)) else r
  }

  lemma {:induction false} TextsBack(ts: seq<seq<byte>>, rest: seq<byte>, size: nat)
    requires Fit(ts) && size >= |Texts(ts)|
    ensures ReadTexts(Texts(ts) + rest, size, |ts|) == Arrived((ts, |Texts(ts)|))
  {
    hide Text, ReadText, ReadTexts;
    if ts == [] {
      NoTextsLeft(Texts(ts) + rest, size, [], 0);
    } else {
      var first, others := ts[0], ts[1..];
      var s := Texts(others) + rest;
      assert Texts(ts) + rest == Text(first) + s;
      ReadTextBack(first, s, size);
      assert forall t :: t in others ==> t in ts;
      TextsBack(others, rest, size - |Text(first)|);
      OneMoreText(Text(first) + s, size, |others|);
      assert ts == [first] + others;
    }
  }

  lemma NoTextsLeft(s: seq<byte>, size: nat, done: seq<seq<byte>>, n: nat)
    ensures Continued(done, n, ReadTexts(s, size, 0)) == Arrived((done, n)) && ReadTexts(s, size, 0) == Arrived(([], 0))
  {
    assert done + [] == done;
  }

  lemma OneMoreText(s: seq<byte>, size: nat, count: nat)
    ensures var t := ReadText(s, size);
            ReadTexts(s, size, count + 1) ==
              if t.Arrived? then Continued([t.value.0], t.value.1, ReadTexts(s[t.value.1..], size - t.value.1, count))
              else t.PropagateFailure()
  {
    hide ReadText;
  }

  /** The metadata comes back whatever follows and however much is said to follow, and its decoder consumes
      what its encoder wrote. */
  lemma MetadataRoundTrip(m: Metadata, rest: seq<byte>, size: nat)
    requires Fit(TextsOf(m)) && size >= |EncodeMetadata(m)|
    ensures ReadMetadata(EncodeMetadata(m) + rest, size) == Arrived((m, |EncodeMetadata(m)|))
  {
    hide Texts, ReadTexts, U32, U64, ReadU32, ReadU64;
    var t := Texts(TextsOf(m));
    var counters := U64(m.expiration) + (U32(m.retryCount) + (U32(m.maxRetries) + rest));
    Regroup(U64(m.expiration), U32(m.retryCount), U32(m.maxRetries), rest);
    assert EncodeMetadata(m) + rest == t + counters;
    TextsBack(TextsOf(m), counters, size);
    assert (t + counters)[|t|..] == counters;
    CountersBack(m, rest);
  }

  lemma CountersBack(m: Metadata, rest: seq<byte>)
    ensures
      var s := U64(m.expiration) + (U32(m.retryCount) + (U32(m.maxRetries) + rest));
      ReadU64(s) == m.expiration && ReadU32(s[8..]) == m.retryCount && ReadU32(s[12..]) == m.maxRetries
  {
    hide U32, U64, ReadU32, ReadU64;
    var s2 := U32(m.maxRetries) + rest;
    var s1 := U32(m.retryCount) + s2;
    var s := U64(m.expiration) + s1;
    assert s[8..] == s1 && s[12..] == s2;
    ReadU64Back(m.expiration, s1);
    ReadU32Back(m.retryCount, s2);
    ReadU32Back(m.maxRetries, rest);
  }

  lemma ErrorInfoRoundTrip(e: ErrorInfo, rest: seq<byte>, size: nat)
    requires Fit(ErrorTexts(e)) && size >= |EncodeErrorInfo(e)|
    ensures ReadErrorInfo(EncodeErrorInfo(e) + rest, size) == Arrived((e, |EncodeErrorInfo(e)|))
  {
    hide Texts, ReadTexts, U32, ReadU32;
    var t := Texts(ErrorTexts(e));
    var s := EncodeErrorInfo(e) + rest;
    assert s == U32(e.code) + (t + rest);
    ReadU32Back(e.code, t + rest);
    assert s[4..] == t + rest;
    TextsBack(ErrorTexts(e), rest, size - 4);
  }

  lemma Regroup(a: seq<byte>, b: seq<byte>, c: seq<byte>, rest: seq<byte>)
    ensures (a + (b + c)) + rest == a + (b + (c + rest))
  {
  }

  lemma HeaderRoundTrip(h: Header, rest: seq<byte>)
    ensures ReadHeader(EncodeHeader(h) + rest) == h
  {
    hide U32, U64, ReadU32, ReadU64;
    var s := EncodeHeader(h) + rest;
    var s3 := U32(h.checksum) + rest;
    var s2 := U32(h.payloadSize) + s3;
    var s1 := U32(h.flags) + s2;
    var s0 := U64(h.timestamp) + ([h.messageType, h.priority, h.format, h.version] + s1);
    assert s == h.messageId + (h.correlationId + s0);
    assert s[..16] == h.messageId && s[16..32] == h.correlationId;
    assert s[32..] == s0 && s[44..] == s1 && s[48..] == s2 && s[52..] == s3;
    assert s[40] == s0[8] && s[41] == s0[9] && s[42] == s0[10] && s[43] == s0[11];
    ReadU64Back(h.timestamp, [h.messageType, h.priority, h.format, h.version] + s1);
    ReadU32Back(h.flags, s2);
    ReadU32Back(h.payloadSize, s3);
    ReadU32Back(h.checksum, rest);
  }

  lemma ModuloAtMost(n: nat)
    ensures n % WORD <= n
    ensures n < WORD ==> n % WORD == n
  {
  }

  /** A block opens behind whatever comes before it. */
  lemma BlockOpens(before: seq<byte>, block: seq<byte>, rest: seq<byte>)
    requires |before| + 4 + |block| < WORD
    ensures OpenBlock(Machine, before + (Block(block) + rest), |before|) == Success(|block|)
    ensures (before + (Block(block) + rest))[|before| + 4..] == block + rest
  {
    hide U32, ReadU32;
    var s := before + (Block(block) + rest);
    ModuloAtMost(|before| + 4);
    ModuloAtMost(|before| + 4 + |block|);
    assert s[|before|..] == U32(|block|) + (block + rest);
    ReadU32Back(|block|, block + rest);
  }

  /** Behind a valid header and some metadata, said to take `size` bytes or more, the decoder goes on where
      its sum says that the metadata ends. */
  lemma GoesOnWhereTheSumSays(width: Width, h: Header, m: Metadata, size: uint32, rest: seq<byte>)
    requires ValidHeader(h) && Fit(TextsOf(m)) && size >= |EncodeMetadata(m)|
    requires Sum(width, HEADER_SIZE + 4, size) <= HEADER_SIZE + 4 + |EncodeMetadata(m) + rest|
    ensures var s := EncodeHeader(h) + (U32(size) + (EncodeMetadata(m) + rest));
            ReadMessage(width, s) == ReadRest(width, s, Sum(width, HEADER_SIZE + 4, size), h, m)
  {
    hide U32, ReadU32, EncodeHeader, ReadHeader, EncodeMetadata, ReadMetadata, ReadRest, ValidHeader;
    var metadata := EncodeMetadata(m) + rest;
    var s := EncodeHeader(h) + (U32(size) + metadata);
    HeaderRoundTrip(h, U32(size) + metadata);
    assert s[HEADER_SIZE..] == U32(size) + metadata && s[HEADER_SIZE + 4..] == metadata;
    ReadU32Back(size, metadata);
    MetadataRoundTrip(m, rest, size);
  }

  /** A metadata length within sixty bytes of 2^32 passes its check, and the decoder goes on inside the
      header.  A message without payload, checksum and error info is accepted with its metadata, although the
      length says that there is much more than the buffer holds. */
  lemma LongMetadataIsAccepted(h: Header, m: Metadata, size: uint32, rest: seq<byte>)
    requires ValidHeader(h) && h.payloadSize == 0 && h.checksum == 0 && h.messageType != ERROR
    requires Fit(TextsOf(m)) && size >= |EncodeMetadata(m)| && size >= WORD - (HEADER_SIZE + 4)
    requires HEADER_SIZE + 4 + |EncodeMetadata(m) + rest| < WORD
    ensures var s := EncodeHeader(h) + (U32(size) + (EncodeMetadata(m) + rest));
            && Decoded(s) == Success(Contents(h, m, [], DEFAULT_ERROR_INFO))
            && ReadMessage(Exact, s) == Failure(InsufficientData)
  {
    hide EncodeMetadata, EncodeHeader, ReadHeader, ReadMetadata, ReadMessage;
    var s := EncodeHeader(h) + (U32(size) + (EncodeMetadata(m) + rest));
    CheckIsRightBelowWord(HEADER_SIZE + 4, size, |s|);
    GoesOnWhereTheSumSays(Machine, h, m, size, rest);
    ModuloAtMost(Sum(Machine, HEADER_SIZE + 4, size));
    TooLongForExactSums(h, size, EncodeMetadata(m) + rest);
  }

  /** Such a buffer takes 92 bytes: a response without payload, default metadata, and all bits set in the
      length in front of them. */
  lemma NinetyTwoBytesAreAccepted()
    ensures var h := DEFAULT_HEADER.(messageType := RESPONSE);
            var s := EncodeHeader(h) + (U32(0xFFFF_FFFF) + EncodeMetadata(DEFAULT_METADATA));
            && |s| == 92
            && Decoded(s) == Success(Contents(h, DEFAULT_METADATA, [], DEFAULT_ERROR_INFO))
            && ReadMessage(Exact, s) == Failure(InsufficientData)
  {
    hide U32, U64, EncodeHeader, ReadMessage;
    var metadata := EncodeMetadata(DEFAULT_METADATA);
    EmptyTexts();
    assert metadata + [] == metadata;
    LongMetadataIsAccepted(DEFAULT_HEADER.(messageType := RESPONSE), DEFAULT_METADATA, 0xFFFF_FFFF, []);
  }

  lemma EmptyTexts()
    ensures |Texts(TextsOf(DEFAULT_METADATA))| == 16 && Fit(TextsOf(DEFAULT_METADATA))
  {
    hide U32;
    FourTexts([], [], [], [], []);
    var t := TextsOf(DEFAULT_METADATA);
    assert Texts(t) + [] == Texts(t);
  }

  /** With a payload size that the bytes behind that offset do not hold, the same message is refused as it
      should be. */
  lemma LongMetadataMayBeRefused(h: Header, m: Metadata, size: uint32, rest: seq<byte>)
    requires ValidHeader(h)
    requires Fit(TextsOf(m)) && size >= |EncodeMetadata(m)| && size >= WORD - (HEADER_SIZE + 4)
    requires HEADER_SIZE + 4 + |EncodeMetadata(m) + rest| < WORD
    requires HEADER_SIZE + 4 + size - WORD + h.payloadSize > HEADER_SIZE + 4 + |EncodeMetadata(m) + rest|
    ensures var s := EncodeHeader(h) + (U32(size) + (EncodeMetadata(m) + rest));
            Decoded(s) == Failure(InsufficientData) == ReadMessage(Exact, s)
  {
    hide EncodeMetadata, EncodeHeader, ReadHeader, ReadMetadata, ReadMessage;
    var s := EncodeHeader(h) + (U32(size) + (EncodeMetadata(m) + rest));
    CheckIsRightBelowWord(HEADER_SIZE + 4, size, |s|);
    GoesOnWhereTheSumSays(Machine, h, m, size, rest);
    ModuloAtMost(Sum(Machine, HEADER_SIZE + 4, size) + h.payloadSize);
    TooLongForExactSums(h, size, EncodeMetadata(m) + rest);
  }

  /** A first text that goes past the end, though not past what the metadata length claims, is read there. */
  lemma LongTextIsReadPastTheEnd(h: Header, size: uint32, length: uint32, rest: seq<byte>)
    requires ValidHeader(h) && size >= WORD - (HEADER_SIZE + 4) && HEADER_SIZE + 8 + |rest| < WORD
    requires |rest| < length <= size - 4
    ensures Decoded(EncodeHeader(h) + (U32(size) + (U32(length) + rest))) == Failure(Unspecified)
  {
    hide U32, ReadU32, EncodeHeader, ReadHeader, ValidHeader, ReadRest, ReadTexts;
    var s := EncodeHeader(h) + (U32(size) + (U32(length) + rest));
    HeaderRoundTrip(h, U32(size) + (U32(length) + rest));
    assert s[HEADER_SIZE..] == U32(size) + (U32(length) + rest) && s[HEADER_SIZE + 4..] == U32(length) + rest;
    ReadU32Back(size, U32(length) + rest);
    ReadU32Back(length, rest);
    CheckIsRightBelowWord(HEADER_SIZE + 4, size, |s|);
    OneMoreText(U32(length) + rest, size, 3);
  }

  lemma TooLongForExactSums(h: Header, size: uint32, rest: seq<byte>)
    requires ValidHeader(h) && size > |rest|
    ensures ReadMessage(Exact, EncodeHeader(h) + (U32(size) + rest)) == Failure(InsufficientData)
  {
    hide U32, ReadU32, EncodeHeader, ReadHeader, ValidHeader, ReadMetadata, ReadRest;
    var s := EncodeHeader(h) + (U32(size) + rest);
    HeaderRoundTrip(h, U32(size) + rest);
    assert s[HEADER_SIZE..] == U32(size) + rest;
    ReadU32Back(size, rest);
  }

  predicate Consistent(m: Contents) {
    && ValidHeader(m.header)
    && m.header.payloadSize == |m.payload|
    && m.header.checksum == ChecksumOf(m.payload)
  }

  function Transported(m: Contents): Contents {
    if m.IsError() then m else m.(errorInfo := DEFAULT_ERROR_INFO)
  }

  lemma RestRoundTrip(before: seq<byte>, m: Contents, trailing: seq<byte>)
    requires Consistent(m) && Fit(ErrorTexts(m.errorInfo)) && |EncodeErrorInfo(m.errorInfo)| < WORD
    requires |before + (EncodeRest(m) + trailing)| < WORD
    ensures ReadRest(Machine, before + (EncodeRest(m) + trailing), |before|, m.header, m.metadata) == Success(Transported(m))
  {
    hide EncodeErrorInfo, ReadErrorInfo, OpenBlock, Block, ChecksumOf;
    var error := EncodeErrorInfo(m.errorInfo);
    var errorBlock := if m.IsError() then Block(error) else [];
    var s := before + (EncodeRest(m) + trailing);
    BlockSize(error);
    ModuloAtMost(|m.payload|);
    assert m.payload[..|m.payload| % WORD] == m.payload;
    assert s == (before + m.payload) + (errorBlock + trailing);
    assert s[|before|..|before| + |m.payload|] == m.payload;
    ModuloAtMost(|before| + |m.payload|);
    if m.IsError() {
      BlockOpens(before + m.payload, error, trailing);
      ErrorInfoRoundTrip(m.errorInfo, trailing, |error|);
    }
  }

  /** A valid, checksummed message comes back from its encoding, whatever bytes follow it. */
  lemma RoundTrip(m: Contents, trailing: seq<byte>)
    requires Representable(m) && Consistent(m) && |Encoded(m) + trailing| < WORD
    ensures Decoded(Encoded(m) + trailing) == Success(Transported(m))
  {
    hide EncodeHeader, EncodeMetadata, EncodeErrorInfo, EncodeRest, ReadMessage, ReadRest, Transported, Consistent;
    hide Block, Fit, U32;
    ConsistentHeaderIsValid(m);
    var header, metadata := EncodeHeader(m.header), EncodeMetadata(m.metadata);
    var rest := EncodeRest(m) + trailing;
    BlockSize(metadata);
    BlockLayout(header, metadata, EncodeRest(m), trailing);
    ModuloAtMost(HEADER_SIZE + 4 + |metadata|);
    GoesOnWhereTheSumSays(Machine, m.header, m.metadata, |metadata|, rest);
    RestRoundTrip(header + Block(metadata), m, trailing);
  }

  lemma ConsistentHeaderIsValid(m: Contents)
    requires Consistent(m)
    ensures ValidHeader(m.header)
  {
  }

  lemma BlockLayout(header: seq<byte>, block: seq<byte>, rest: seq<byte>, trailing: seq<byte>)
    requires |block| < WORD
    ensures var s := header + (Block(block) + rest) + trailing;
            && s == header + (U32(|block|) + (block + (rest + trailing)))
            && s == (header + Block(block)) + (rest + trailing)
  {
    hide U32;
  }

  lemma BlockSize(b: seq<byte>)
    ensures |Block(b)| == 4 + |b|
  {
  }

  // ---------------------------------------------------------------------------------------------
  // The encoders
  // ---------------------------------------------------------------------------------------------

  /** Append the `count` lowest bytes of `v`. */
  method WriteInteger(buffer: seq<byte>, v: nat, count: nat) returns (data: seq<byte>)
    ensures data == buffer + LittleEndian(v, count)
  {
    data := buffer;
    for i := 0 to count
      invariant data == buffer + LittleEndian(v, count)[..i]
    {
      LittleEndianAt(v, count, i);
      data := data + [ByteOf(v, i)];
    }
  }

  method WriteText(buffer: seq<byte>, t: seq<byte>) returns (data: seq<byte>)
    ensures data == buffer + Text(t)
  {
    var length := |t| % WORD;
    data := WriteInteger(buffer, length, 4);
    if length > 0 {
      data := data + t;
    }
  }

  lemma LaidEndToEnd(a: seq<byte>, b: seq<byte>, c: seq<byte>, d: seq<byte>, e: seq<byte>, f: seq<byte>, g: seq<byte>)
    ensures a + (b + (c + (d + (e + (f + g))))) == [] + a + b + c + d + e + f + g
  {
  }

  lemma ThreeTexts(a: seq<byte>, b: seq<byte>, c: seq<byte>)
    ensures Texts([a, b, c]) == Text(a) + (Text(b) + Text(c))
  {
    hide Text;
    assert [a, b, c][1..] == [b, c] && [b, c][1..] == [c] && [c][1..] == [];
    assert Text(c) + [] == Text(c);
    assert Texts([c]) == Text(c) + Texts([c][1..]);
    assert Texts([b, c]) == Text(b) + Texts([b, c][1..]);
    assert Texts([a, b, c]) == Text(a) + Texts([a, b, c][1..]);
  }

  lemma FourTexts(a: seq<byte>, b: seq<byte>, c: seq<byte>, d: seq<byte>, rest: seq<byte>)
    ensures Texts([a, b, c, d]) + rest == Text(a) + (Text(b) + (Text(c) + (Text(d) + rest)))
  {
    hide Text;
    ThreeTexts(b, c, d);
    assert [a, b, c, d][1..] == [b, c, d];
    assert Texts([a, b, c, d]) == Text(a) + Texts([a, b, c, d][1..]);
  }

  method SerializeMetadata(m: Metadata) returns (data: seq<byte>)
    ensures data == EncodeMetadata(m)
  {
    hide Text, LittleEndian;
    LaidEndToEnd(Text(m.source), Text(m.destination), Text(m.subject), Text(m.contentType),
                 U64(m.expiration), U32(m.retryCount), U32(m.maxRetries));
    FourTexts(m.source, m.destination, m.subject, m.contentType, U64(m.expiration) + (U32(m.retryCount) + U32(m.maxRetries)));
    data := WriteText([], m.source);
    data := WriteText(data, m.destination);
    data := WriteText(data, m.subject);
    data := WriteText(data, m.contentType);
    data := WriteInteger(data, m.expiration, 8);
    data := WriteInteger(data, m.retryCount, 4);
    data := WriteInteger(data, m.maxRetries, 4);
  }

  method SerializeErrorInfo(e: ErrorInfo) returns (data: seq<byte>)
    ensures data == EncodeErrorInfo(e)
  {
    hide Text;
    ThreeTexts(e.message, e.category, e.context);
    data := WriteInteger([], e.code, 4);
    data := WriteText(data, e.message);
    data := WriteText(data, e.category);
    data := WriteText(data, e.context);
  }

  method Serialize(m: Contents) returns (data: seq<byte>)
    ensures data == Encoded(m)
  {
    hide EncodeMetadata, EncodeErrorInfo, EncodeHeader, LittleEndian;
    ghost var payload := m.payload[..|m.payload| % WORD];
    LaidEndToEnd(EncodeHeader(m.header), U32(|EncodeMetadata(m.metadata)| % WORD), EncodeMetadata(m.metadata), payload,
                 U32(|EncodeErrorInfo(m.errorInfo)| % WORD), EncodeErrorInfo(m.errorInfo), []);
    data := EncodeHeader(m.header);
    var metadata := SerializeMetadata(m.metadata);
    data := WriteInteger(data, |metadata| % WORD, 4);
    data := data + metadata;
    var payloadSize := |m.payload| % WORD;
    if payloadSize > 0 {
      data := data + m.payload[..payloadSize];
    }
    if m.IsError() {
      var error := SerializeErrorInfo(m.errorInfo);
      data := WriteInteger(data, |error| % WORD, 4);
      data := data + error;
    }
  }

  // ---------------------------------------------------------------------------------------------
  // The decoders
  // ---------------------------------------------------------------------------------------------

  /** The number in the `count` bytes at `offset`. */
  method ReadInteger(data: seq<byte>, offset: nat, count: nat) returns (v: nat)
    requires offset + count <= |data|
    ensures v == Value(data[offset..offset + count])
  {
    hide Value, Weight, Or;
    ghost var s := data[offset..offset + count];
    NothingToRead(s);
    v := 0;
    for i := 0 to count
      invariant v == Value(s[..i])
    {
      OrAddsByte(s, i);
      v := Or(v, data[offset + i] * Weight(i));
    }
    assert s[..count] == s;
  }

  lemma NothingToRead(s: seq<byte>)
    ensures Value(s[..0]) == 0
  {
  }

  method ReadU32At(data: seq<byte>, offset: nat) returns (v: uint32)
    requires offset + 4 <= |data|
    ensures v == ReadU32(data[offset..])
  {
    assert data[offset..][..4] == data[offset..offset + 4];
    var n := ReadInteger(data, offset, 4);
    assert n == ReadU32(data[offset..]);
    v := n;
  }

  method ReadU64At(data: seq<byte>, offset: nat) returns (v: uint64)
    requires offset + 8 <= |data|
    ensures v == ReadU64(data[offset..])
  {
    assert data[offset..][..8] == data[offset..offset + 8];
    var n := ReadInteger(data, offset, 8);
    assert n == ReadU64(data[offset..]);
    v := n;
  }

  method ReadTextAt(data: seq<byte>, at: nat, size: nat) returns (r: Passage<(seq<byte>, nat)>)
    requires at <= |data|
    ensures r == ReadText(data[at..], size)
  {
    hide ReadU32;
    if size < 4 {
      return Refused;
    }
    if at + 4 > |data| {
      return Astray;
    }
    var length := ReadU32At(data, at);
    if length > size - 4 {
      return Refused;
    }
    if at + 4 + length > |data| {
      return Astray;
    }
    assert data[at..][4..4 + length] == data[at + 4..at + 4 + length];
    return Arrived((data[at + 4..at + 4 + length], 4 + length));
  }

  lemma TextsNext(data: seq<byte>, at: nat, size: nat, done: seq<seq<byte>>, n: nat, left: nat)
    requires at + n <= |data| && n <= size && left > 0
    ensures var all := Continued(done, n, ReadTexts(data[at + n..], size - n, left));
            var t := ReadText(data[at + n..], size - n);
            all == if t.Arrived? then
                     var next := n + t.value.1;
                     Continued(done + [t.value.0], next, ReadTexts(data[at + next..], size - next, left - 1))
                   else t.PropagateFailure()
  {
    hide ReadText, ReadTexts;
    var s := data[at + n..];
    var t := ReadText(s, size - n);
    OneMoreText(s, size - n, left - 1);
    if t.Arrived? {
      assert s[t.value.1..] == data[at + n + t.value.1..];
      var rest := ReadTexts(data[at + n + t.value.1..], size - n - t.value.1, left - 1);
      if rest.Arrived? {
        assert done + ([t.value.0] + rest.value.0) == done + [t.value.0] + rest.value.0;
      }
    }
  }

  /** The counters behind the `offset` bytes of a block at `at` that have been read.  The sums do not wrap
      round: those bytes lie in the buffer, behind at least eight others. */
  method ReadCountersAt(data: seq<byte>, at: nat, offset: nat, size: uint32) returns (r: Passage<(uint64, uint32, uint32)>)
    requires 8 <= at && at + offset <= |data| < WORD && offset <= size
    ensures r == ReadCounters(data[at + offset..], size - offset)
  {
    hide ReadU32, ReadU64;
    ModuloAtMost(offset + 8);
    if (offset + 8) % WORD > size { return Refused; }
    var next := at + offset;
    if next + 8 > |data| { return Astray; }
    var expiration := ReadU64At(data, next);
    ModuloAtMost(offset + 16);
    if (offset + 16) % WORD > size { return Refused; }
    if next + 16 > |data| { return Astray; }
    assert data[next..][8..] == data[next + 8..] && data[next..][12..] == data[next + 12..];
    var retryCount := ReadU32At(data, next + 8);
    var maxRetries := ReadU32At(data, next + 12);
    return Arrived((expiration, retryCount, maxRetries));
  }

  /** The metadata at `at`, where the block is said to take `size` bytes. */
  method DeserializeMetadata(data: seq<byte>, at: nat, size: uint32) returns (r: Passage<(Metadata, nat)>)
    requires 8 <= at <= |data| < WORD
    ensures r == ReadMetadata(data[at..], size)
  {
    hide ReadText, ReadTexts, ReadCounters, Continued, ReadU32, ReadU64;
    assert data[at + 0..] == data[at..];
    ContinuedFromNothing(ReadTexts(data[at..], size, 4));
    TextsNext(data, at, size, [], 0, 4);
    var source :- ReadTextAt(data, at, size);
    var offset := source.1;
    var texts := [] + [source.0];
    TextsNext(data, at, size, texts, offset, 3);
    var destination :- ReadTextAt(data, at + offset, size - offset);
    offset := offset + destination.1;
    texts := texts + [destination.0];
    TextsNext(data, at, size, texts, offset, 2);
    var subject :- ReadTextAt(data, at + offset, size - offset);
    offset := offset + subject.1;
    texts := texts + [subject.0];
    TextsNext(data, at, size, texts, offset, 1);
    var contentType :- ReadTextAt(data, at + offset, size - offset);
    offset := offset + contentType.1;
    texts := texts + [contentType.0];
    NoTextsLeft(data[at + offset..], size - offset, texts, offset);
    assert data[at..][offset..] == data[at + offset..];
    var counters :- ReadCountersAt(data, at, offset, size);
    return Arrived((Metadata(texts[0], texts[1], texts[2], texts[3], counters.0, counters.1, counters.2), offset + 16));
  }

  lemma ContinuedFromNothing(r: Passage<(seq<seq<byte>>, nat)>)
    ensures Continued([], 0, r) == r
  {
    if r.Arrived? {
      assert [] + r.value.0 == r.value.0;
    }
  }

  method DeserializeErrorInfo(data: seq<byte>, at: nat, size: uint32) returns (r: Passage<(ErrorInfo, nat)>)
    requires at <= |data| < WORD
    ensures r == ReadErrorInfo(data[at..], size)
  {
    hide ReadText, ReadTexts, Continued, ReadU32;
    if 4 > size { return Refused; }
    if at + 4 > |data| { return Astray; }
    var code := ReadU32At(data, at);
    var offset := 4;
    assert data[at..][4..] == data[at + 4..];
    ContinuedFromNothing(ReadTexts(data[at + 4..], size - 4, 3));
    TextsNext(data, at + 4, size - 4, [], 0, 3);
    var message :- ReadTextAt(data, at + offset, size - offset);
    offset := offset + message.1;
    var texts := [] + [message.0];
    TextsNext(data, at + 4, size - 4, texts, offset - 4, 2);
    var category :- ReadTextAt(data, at + offset, size - offset);
    offset := offset + category.1;
    texts := texts + [category.0];
    TextsNext(data, at + 4, size - 4, texts, offset - 4, 1);
    var context :- ReadTextAt(data, at + offset, size - offset);
    offset := offset + context.1;
    texts := texts + [context.0];
    NoTextsLeft(data[at + offset..], size - offset, texts, offset - 4);
    return Arrived((ErrorInfo(code, texts[0], texts[1], texts[2]), offset));
  }

  /** The length of a block at `offset`, once both checks have let it through. */
  method OpenBlockAt(data: seq<byte>, offset: nat) returns (r: Result<uint32, Error>)
    ensures r == OpenBlock(Machine, data, offset)
  {
    hide ReadU32;
    if (offset + 4) % WORD > |data| {
      return Failure(InsufficientData);
    }
    if offset + 4 > |data| {
      return Failure(Unspecified);
    }
    var size := ReadU32At(data, offset);
    if (offset + 4 + size) % WORD > |data| {
      return Failure(InsufficientData);
    }
    return Success(size);
  }

  method Deserialize(data: seq<byte>) returns (r: Result<Contents, Error>)
    requires |data| < WORD
    ensures r == Decoded(data)
  {
    hide OpenBlock, ReadMetadata, ReadErrorInfo, ReadHeader, ChecksumOf;
    if |data| < HEADER_SIZE + 4 {
      return Failure(InsufficientData);
    }
    var header := ReadHeader(data);
    if !ValidHeader(header) {
      return Failure(InvalidFormat);
    }
    var offset := HEADER_SIZE;
    var metadataSize :- OpenBlockAt(data, offset);
    offset := offset + 4;
    var metadata := DeserializeMetadata(data, offset, metadataSize);
    if !metadata.Arrived? {
      return Failure(if metadata.Refused? then DeserializationError else Unspecified);
    }
    offset := (offset + metadataSize) % WORD;

    if (offset + header.payloadSize) % WORD > |data| {
      return Failure(InsufficientData);
    }
    if offset + header.payloadSize > |data| {
      return Failure(Unspecified);
    }
    var payload := data[offset..offset + header.payloadSize];
    offset := offset + header.payloadSize;

    var errorInfo := DEFAULT_ERROR_INFO;
    if header.messageType == ERROR {
      var errorSize :- OpenBlockAt(data, offset);
      offset := offset + 4;
      var e := DeserializeErrorInfo(data, offset, errorSize);
      if !e.Arrived? {
        return Failure(if e.Refused? then DeserializationError else Unspecified);
      }
      errorInfo := e.value.0;
    }

    var checksum := ComputeChecksum(payload);
    if checksum != header.checksum {
      return Failure(ChecksumMismatch);
    }
    return Success(Contents(header, metadata.value.0, payload, errorInfo));
  }
}
