/** Whole messages in the Protocol Buffers format
    (workspace/src/framework/impl/ipc/protobuf_serializer.cpp:527-736): four length-delimited parts, of
    which the header is required and the checksum must fit the payload. */
module ProtoBufMessages {
  import opened Bytes
  import opened Wrappers
  import opened Messages
  import opened ProtoBuf
  import opened ProtoBufRecords
  import Varint

  /** `Unspecified` is no result of the program: it says that a length has led a decoder astray. */
  datatype Error = DeserializationError | InvalidFormat | InsufficientData | SizeExceeded | ChecksumMismatch | Unspecified

  /** What the decoder has collected. */
  datatype Parts = Parts(header: Header, metadata: Metadata, payload: seq<byte>, errorInfo: ErrorInfo,
                         hasHeader: bool, hasErrorInfo: bool)

  const NO_PARTS: Parts := Parts(DEFAULT_HEADER, DEFAULT_METADATA, [], DEFAULT_ERROR_INFO, false, false)

  datatype Part = Part(number: nat, data: seq<byte>, length: nat)

  // ---------------------------------------------------------------------------------------------
  // Decoding
  // ---------------------------------------------------------------------------------------------

  function ReadPart(s: seq<byte>): (r: Result<Part, Error>)
    ensures r.Success? ==> 1 <= r.value.length <= |s|
  {
    var tag := Varint.Read(s);
    if tag.None? then Failure(DeserializationError)
    else if tag.value.value % 8 != LENGTH_DELIMITED then Failure(InvalidFormat)
    else
      var rest := s[tag.value.length..];
      var n := Varint.Read(rest);
      if n.None? then Failure(DeserializationError)
      else if n.value.length + n.value.value > |rest| then Failure(InsufficientData)
      else
        var end := n.value.length + n.value.value;
        Success(Part(NumberOf(tag.value.value), rest[n.value.length..end], tag.value.length + end))
  }

  function PutPart(p: Parts, number: nat, data: seq<byte>): Result<Parts, Error> {
    match number
    case 1 =>
      var h := DecodeHeader(data, p.header);
      if h.None? then Failure(DeserializationError) else Success(p.(header := h.value, hasHeader := true))
    case 2 =>
      var m := DecodeMetadata(data, p.metadata);
      if m.None? then Failure(DeserializationError) else Success(p.(metadata := m.value))
    case 3 => Success(p.(payload := data))
    case 4 =>
      var e := DecodeError(data, p.errorInfo);
      if e.None? then Failure(DeserializationError) else Success(p.(errorInfo := e.value, hasErrorInfo := true))
    case _ => Success(p)
  }

  function DecodeParts(s: seq<byte>, p: Parts): Result<Parts, Error>
    decreases |s|
  {
    if s == [] then Success(p)
    else
      var part := ReadPart(s);
      if part.Failure? then Failure(part.error)
      else
        var q := PutPart(p, part.value.number, part.value.data);
        if q.Failure? then Failure(q.error) else DecodeParts(s[part.value.length..], q.value)
  }

  function Finish(p: Parts): Result<Contents, Error> {
    if !p.hasHeader then Failure(InvalidFormat)
    else if |p.payload| > MAX_PAYLOAD_SIZE then Failure(SizeExceeded)
    else
      var header := if p.payload == [] then p.header else p.header.(payloadSize := |p.payload|);
      if header.checksum != ChecksumOf(p.payload) then Failure(ChecksumMismatch)
      else Success(Contents(header, p.metadata, p.payload, if p.hasErrorInfo then p.errorInfo else DEFAULT_ERROR_INFO))
  }

  function Decoded(s: seq<byte>): Result<Contents, Error> {
    var p := DecodeParts(s, NO_PARTS);
    if p.Failure? then Failure(p.error) else Finish(p.value)
  }

  /** What comes of a part at address `ptr` whose length makes the bounds check wrap round.  A payload of such
      a length cannot be stored: that throws, and the decoding fails.  Other parts take the decoder to an
      earlier address. */
  function PartDetour(ptr: nat, s: seq<byte>): Option<Error> {
    var tag := Varint.Read(s);
    if tag.Some? && tag.value.value % 8 == LENGTH_DELIMITED && LengthWraps(ptr + tag.value.length, s[tag.value.length..]) then
      Some(if NumberOf(tag.value.value) == 3 then DeserializationError else Unspecified)
    else None
  }

  predicate RecordStrays(number: nat, ptr: nat, data: seq<byte>) {
    match number
    case 1 => Strays(HeaderSchema, ptr, data)
    case 2 => Strays(MetadataSchema, ptr, data)
    case 4 => Strays(ErrorSchema, ptr, data)
    case _ => false
  }

  /** What a sum that wraps round makes of a message at address `ptr`, or of a record in it. */
  function Detour(ptr: nat, s: seq<byte>, p: Parts): Option<Error>
    decreases |s|
  {
    if s == [] then None
    else
      var part := ReadPart(s);
      if part.Failure? then PartDetour(ptr, s)
      else if RecordStrays(part.value.number, ptr + part.value.length - |part.value.data|, part.value.data) then Some(Unspecified)
      else
        var q := PutPart(p, part.value.number, part.value.data);
        if q.Failure? then None else Detour(ptr + part.value.length, s[part.value.length..], q.value)
  }

  /** What the program makes of a buffer at an address. */
  function DecodedAt(ptr: nat, s: seq<byte>): Result<Contents, Error> {
    var d := Detour(ptr, s, NO_PARTS);
    if d.Some? then Failure(d.value) else Decoded(s)
  }

  /** Only a sum that wraps round leaves the outcome open. */
  lemma {:induction false} PartsAreSpecified(s: seq<byte>, p: Parts)
    ensures DecodeParts(s, p) != Failure(Unspecified)
    decreases |s|
  {
    hide Varint.Read, DecodeHeader, DecodeMetadata, DecodeError;
    if s != [] && ReadPart(s).Success? {
      var part := ReadPart(s).value;
      var q := PutPart(p, part.number, part.data);
      if q.Success? {
        PartsAreSpecified(s[part.length..], q.value);
      }
    }
  }

  /** A message that decodes leads nobody astray. */
  lemma {:induction false} DecodablePartsDoNotStray(ptr: nat, s: seq<byte>, p: Parts)
    requires ptr + |s| < ADDRESSES && DecodeParts(s, p).Success?
    ensures Detour(ptr, s, p).None?
    decreases |s|
  {
    hide Varint.Read, Strays, ReadFields;
    if s != [] {
      var part := ReadPart(s).value;
      var start := ptr + part.length - |part.data|;
      if part.number == 1 {
        WellFormedRecordsDoNotStray(HeaderSchema, start, part.data);
      } else if part.number == 2 {
        WellFormedRecordsDoNotStray(MetadataSchema, start, part.data);
      } else if part.number == 4 {
        WellFormedRecordsDoNotStray(ErrorSchema, start, part.data);
      }
      DecodablePartsDoNotStray(ptr + part.length, s[part.length..], PutPart(p, part.number, part.data).value);
    }
  }

  /** A first part that is too long: what is reported depends on whether its length wraps round, and on
      which part it is. */
  lemma LongFirstPart(ptr: nat, number: nat, length: uint64, rest: seq<byte>)
    requires number < 0x1_0000_0000 && length > |rest|
    ensures var s := EncodeLength(number, length) + rest;
            DecodedAt(ptr, s) ==
              Failure(if !Wraps(ptr + |EncodeLength(number, length)|, length) then InsufficientData
                      else if number == 3 then DeserializationError else Unspecified)
  {
    hide Varint.Read, Varint.Encode, PutPart;
    var tag, n := Tag(number, LENGTH_DELIMITED), Varint.Encode(length);
    var s := EncodeLength(number, length) + rest;
    assert s == tag + (n + rest);
    ReadTag(number, LENGTH_DELIMITED, n + rest);
    assert s[|tag|..] == n + rest;
    Varint.ReadEncoded(length, rest);
  }

  /** A first part of any other wire type than length-delimited is refused, at any address and whatever
      follows its tag. */
  lemma OtherWireTypesAreRefused(ptr: nat, tag: uint64, rest: seq<byte>)
    requires tag % 8 != 2
    ensures DecodedAt(ptr, Varint.Encode(tag) + rest) == Failure(InvalidFormat)
  {
    hide Varint.Read, Varint.Encode, PutPart;
    Varint.ReadEncoded(tag, rest);
  }

  // ---------------------------------------------------------------------------------------------
  // Encoding
  // ---------------------------------------------------------------------------------------------

  function Encoded(m: Contents): seq<byte> {
    EncodeText(1, EncodeFields(HeaderFields(m.header))) +
    EncodeText(2, EncodeFields(MetadataFields(m.metadata))) +
    (if m.payload == [] then [] else EncodeText(3, m.payload)) +
    if m.IsError() then EncodeText(4, EncodeFields(ErrorFields(m.errorInfo))) else []
  }

  /** Lengths that the size types of the program can hold. */
  predicate Representable(m: Contents) {
    && |m.payload| < 0x1_0000_0000_0000_0000
    && |m.metadata.source| < 0x1_0000_0000_0000_0000 && |m.metadata.destination| < 0x1_0000_0000_0000_0000
    && |m.metadata.subject| < 0x1_0000_0000_0000_0000 && |m.metadata.contentType| < 0x1_0000_0000_0000_0000
    && |m.errorInfo.message| < 0x1_0000_0000_0000_0000 && |m.errorInfo.category| < 0x1_0000_0000_0000_0000
    && |m.errorInfo.context| < 0x1_0000_0000_0000_0000
    && |EncodeFields(HeaderFields(m.header))| < 0x1_0000_0000_0000_0000
    && |EncodeFields(MetadataFields(m.metadata))| < 0x1_0000_0000_0000_0000
    && |EncodeFields(ErrorFields(m.errorInfo))| < 0x1_0000_0000_0000_0000
  }

  /** Size and checksum fields agree with the payload, as setPayload and updateChecksum leave them. */
  predicate Consistent(m: Contents) {
    && |m.payload| <= MAX_PAYLOAD_SIZE
    && m.header.payloadSize == |m.payload|
    && m.header.checksum == ChecksumOf(m.payload)
  }

  lemma DecodeEncodedPart(number: nat, data: seq<byte>, rest: seq<byte>, p: Parts)
    requires number < 0x1_0000_0000 && |data| < 0x1_0000_0000_0000_0000
    ensures DecodeParts(EncodeText(number, data) + rest, p) ==
            var q := PutPart(p, number, data);
            if q.Failure? then Failure(q.error) else DecodeParts(rest, q.value)
  {
    hide PutPart, Varint.Read, Varint.Encode, NumberOf;
    var tag, body := Tag(number, LENGTH_DELIMITED), Varint.Encode(|data|) + data;
    var s := EncodeText(number, data) + rest;
    assert s == tag + (body + rest);
    ReadTag(number, LENGTH_DELIMITED, body + rest);
    assert body + rest == Varint.Encode(|data|) + (data + rest);
    Varint.ReadEncoded(|data|, data + rest);
    assert (body + rest)[|Varint.Encode(|data|)|..|body|] == data;
    assert s[|tag| + |body|..] == rest;
  }

  /** What a message looks like after the trip: only an error message carries its error info. */
  function Transported(m: Contents): Contents {
    if m.IsError() then m else m.(errorInfo := DEFAULT_ERROR_INFO)
  }

  /** A consistent message comes back from its encoding. */
  lemma RoundTrip(m: Contents)
    requires Representable(m) && Consistent(m)
    ensures Decoded(Encoded(m)) == Success(Transported(m))
  {
    hide EncodeFields, EncodeText, DecodeParts, ChecksumOf;
    var header, metadata := EncodeFields(HeaderFields(m.header)), EncodeFields(MetadataFields(m.metadata));
    var error := EncodeFields(ErrorFields(m.errorInfo));
    var errorPart := if m.IsError() then EncodeText(4, error) else [];
    var payloadPart := if m.payload == [] then [] else EncodeText(3, m.payload);
    assert Encoded(m) == EncodeText(1, header) + (EncodeText(2, metadata) + (payloadPart + errorPart));

    HeaderRoundTrip(m.header, NO_PARTS.header);
    DecodeEncodedPart(1, header, EncodeText(2, metadata) + (payloadPart + errorPart), NO_PARTS);
    var p1 := NO_PARTS.(header := m.header, hasHeader := true);

    MetadataRoundTrip(m.metadata);
    DecodeEncodedPart(2, metadata, payloadPart + errorPart, p1);
    var p2 := p1.(metadata := m.metadata);

    DecodeEncodedPart(3, m.payload, errorPart, p2);
    assert [] + errorPart == errorPart;
    var p3 := p2.(payload := m.payload);

    ErrorRoundTrip(m.errorInfo);
    DecodeEncodedPart(4, error, [], p3);
    assert EncodeText(4, error) + [] == EncodeText(4, error);
    NothingLeft(p3);
    NothingLeft(p3.(errorInfo := m.errorInfo, hasErrorInfo := true));
  }

  /** Wherever the buffer lies in memory, no sum of its decoder wraps. */
  lemma RoundTripAnywhere(m: Contents, ptr: nat)
    requires Representable(m) && Consistent(m) && ptr + |Encoded(m)| < ADDRESSES
    ensures DecodedAt(ptr, Encoded(m)) == Success(Transported(m))
  {
    hide Encoded, DecodeParts, Detour, Transported;
    RoundTrip(m);
    DecodablePartsDoNotStray(ptr, Encoded(m), NO_PARTS);
  }

  lemma NothingLeft(p: Parts)
    ensures DecodeParts([], p) == Success(p)
  {
  }

  // ---------------------------------------------------------------------------------------------
  // Validation without decoding
  // ---------------------------------------------------------------------------------------------

  /** The bytes are a run of fields of the two wire types in use. */
  predicate SplitsIntoFields(s: seq<byte>)
    decreases |s|
  {
    if s == [] then true
    else
      var tag := Varint.Read(s);
      tag.Some? &&
      var rest, wire := s[tag.value.length..], tag.value.value % 8;
      var body := ReadBody(Unknown, NumberOf(tag.value.value), wire, rest);
      body.Some? && SplitsIntoFields(rest[body.value.length..])
  }

  lemma {:induction false} DecodablePartsSplit(s: seq<byte>, p: Parts)
    requires DecodeParts(s, p).Success?
    ensures SplitsIntoFields(s)
    decreases |s|
  {
    hide PutPart, Varint.Read;
    if s != [] {
      var part := ReadPart(s).value;
      DecodablePartsSplit(s[part.length..], PutPart(p, part.number, part.data).value);
      var tag := Varint.Read(s).value;
      var body := ReadBody(Unknown, NumberOf(tag.value), tag.value % 8, s[tag.length..]).value;
      assert s[tag.length..][body.length..] == s[part.length..];
    }
  }

  /** The scan of a buffer at address `ptr` comes to a length that makes the bounds check wrap round. */
  predicate SplitStrays(ptr: nat, s: seq<byte>)
    decreases |s|
  {
    s != [] &&
    var tag := Varint.Read(s);
    tag.Some? &&
    var rest, wire := s[tag.value.length..], tag.value.value % 8;
    var body := ReadBody(Unknown, NumberOf(tag.value.value), wire, rest);
    if body.Some? then SplitStrays(ptr + tag.value.length + body.value.length, rest[body.value.length..])
    else BodyStrays(Unknown, wire, ptr + tag.value.length, rest)
  }

  lemma {:induction false} SplittingDoesNotStray(ptr: nat, s: seq<byte>)
    requires ptr + |s| < ADDRESSES && SplitsIntoFields(s)
    ensures !SplitStrays(ptr, s)
    decreases |s|
  {
    hide Varint.Read, ReadText;
    if s != [] {
      var tag := Varint.Read(s).value;
      var rest := s[tag.length..];
      var body := ReadBody(Unknown, NumberOf(tag.value), tag.value % 8, rest).value;
      SplittingDoesNotStray(ptr + tag.length + body.length, rest[body.length..]);
    }
  }

  /** Every buffer that decodes also validates, at every address. */
  lemma DecodableIsValid(ptr: nat, s: seq<byte>)
    requires ptr + |s| < ADDRESSES && DecodedAt(ptr, s).Success?
    ensures |s| >= 2 && SplitsIntoFields(s) && !SplitStrays(ptr, s)
  {
    hide DecodeParts, SplitsIntoFields, SplitStrays, Detour;
    DecodablePartsSplit(s, NO_PARTS);
    TooShortForAHeader(s);
    SplittingDoesNotStray(ptr, s);
  }

  lemma TooShortForAHeader(s: seq<byte>)
    ensures |s| < 2 ==> Decoded(s).Failure?
  {
    if |s| == 1 && Varint.Read(s).Some? {
      assert s[Varint.Read(s).value.length..] == [];
    }
  }

  /** The record of a part can be decoded, whatever it is decoded into. */
  predicate RecordReadable(number: nat, data: seq<byte>) {
    match number
    case 1 => ReadFields(HeaderSchema, data).Some?
    case 2 => ReadFields(MetadataSchema, data).Some?
    case 4 => ReadFields(ErrorSchema, data).Some?
    case _ => true
  }

  /** All fields are length-delimited, and the records among them can be decoded. */
  predicate PartsReadable(s: seq<byte>)
    decreases |s|
  {
    if s == [] then true
    else
      var part := ReadPart(s);
      part.Success? && RecordReadable(part.value.number, part.value.data) && PartsReadable(s[part.value.length..])
  }

  lemma {:induction false} PartsDecodeExactly(s: seq<byte>, p: Parts)
    ensures DecodeParts(s, p).Success? <==> PartsReadable(s)
    decreases |s|
  {
    hide Varint.Read, ReadFields;
    if s != [] && ReadPart(s).Success? {
      var part := ReadPart(s).value;
      var q := PutPart(p, part.number, part.data);
      if q.Success? {
        PartsDecodeExactly(s[part.length..], q.value);
      }
    }
  }

  /** All fields of the buffer are length-delimited, and those that carry a record carry a readable one. */
  predicate OnlyParts(s: seq<byte>)
    requires SplitsIntoFields(s)
    decreases |s|
  {
    if s == [] then true
    else
      var tag := Varint.Read(s).value;
      var rest, wire := s[tag.length..], tag.value % 8;
      var body := ReadBody(Unknown, NumberOf(tag.value), wire, rest).value;
      && wire == LENGTH_DELIMITED
      && RecordReadable(NumberOf(tag.value), ReadText(rest).value.0)
      && OnlyParts(rest[body.length..])
  }

  lemma {:induction false} SplitPartsAreReadable(s: seq<byte>)
    requires SplitsIntoFields(s)
    ensures PartsReadable(s) <==> OnlyParts(s)
    decreases |s|
  {
    hide Varint.Read, ReadFields;
    if s != [] {
      var tag := Varint.Read(s).value;
      var rest := s[tag.length..];
      var body := ReadBody(Unknown, NumberOf(tag.value), tag.value % 8, rest).value;
      SplitPartsAreReadable(rest[body.length..]);
      if tag.value % 8 == LENGTH_DELIMITED {
        assert rest[body.length..] == s[tag.length + body.length..];
      }
    }
  }

  /** What validation leaves open: a buffer that splits into fields decodes exactly when its fields are all
      length-delimited and their records readable, and the parts make a message: there is a header, the
      payload is not too large, and the header carries its checksum. */
  lemma ValidDecodesExactly(s: seq<byte>)
    requires SplitsIntoFields(s)
    ensures OnlyParts(s) <==> DecodeParts(s, NO_PARTS).Success?
    ensures Decoded(s).Success? <==>
            OnlyParts(s) &&
            var p := DecodeParts(s, NO_PARTS).value;
            p.hasHeader && |p.payload| <= MAX_PAYLOAD_SIZE && p.header.checksum == ChecksumOf(p.payload)
  {
    hide OnlyParts, PartsReadable, DecodeParts, SplitsIntoFields, ChecksumOf;
    SplitPartsAreReadable(s);
    PartsDecodeExactly(s, NO_PARTS);
  }

  // ---------------------------------------------------------------------------------------------
  // Which error
  // ---------------------------------------------------------------------------------------------

  lemma ReadPartPrefix(s: seq<byte>, rest: seq<byte>)
    requires ReadPart(s).Success?
    ensures ReadPart(s + rest) == ReadPart(s)
  {
    hide Varint.Read;
    Varint.ReadPrefix(s, rest);
    var tag := Varint.Read(s).value;
    var behind := s[tag.length..];
    assert (s + rest)[tag.length..] == behind + rest;
    Varint.ReadPrefix(behind, rest);
    var n := Varint.Read(behind).value;
    var end := n.length + n.value;
    assert (behind + rest)[n.length..end] == behind[n.length..end];
  }

  /** Behind complete parts decoding goes on with what they have collected. */
  lemma {:induction false} DecodePartsAppend(good: seq<byte>, rest: seq<byte>, p: Parts)
    requires DecodeParts(good, p).Success?
    ensures DecodeParts(good + rest, p) == DecodeParts(rest, DecodeParts(good, p).value)
    decreases |good|
  {
    hide ReadPart, PutPart;
    if good == [] {
      assert good + rest == rest;
    } else {
      var part := ReadPart(good).value;
      ReadPartPrefix(good, rest);
      DecodePartsAppend(good[part.length..], rest, PutPart(p, part.number, part.data).value);
      assert (good + rest)[part.length..] == good[part.length..] + rest;
    }
  }

  /** Behind good parts, the first bad one decides: an incomplete tag or length, or an unreadable record, is a
      deserialization error, another wire type an invalid format, and a length beyond the end insufficient
      data; whatever follows. */
  lemma FirstBadPartDecides(good: seq<byte>, s: seq<byte>)
    requires DecodeParts(good, NO_PARTS).Success? && s != []
    ensures var tag, d := Varint.Read(s), Decoded(good + s);
            if tag.None? then d == Failure(DeserializationError)
            else if tag.value.value % 8 != 2 then d == Failure(InvalidFormat)
            else
              var rest := s[tag.value.length..];
              var n := Varint.Read(rest);
              if n.None? then d == Failure(DeserializationError)
              else if n.value.value > |rest| - n.value.length then d == Failure(InsufficientData)
              else !RecordReadable(NumberOf(tag.value.value), rest[n.value.length..][..n.value.value]) ==> d == Failure(DeserializationError)
  {
    hide Varint.Read, ReadFields, NumberOf;
    DecodePartsAppend(good, s, NO_PARTS);
    var p := DecodeParts(good, NO_PARTS).value;
    if ReadPart(s).Success? {
      var part := ReadPart(s).value;
      var rest := s[Varint.Read(s).value.length..];
      var n := Varint.Read(rest).value;
      assert rest[n.length..][..n.value] == part.data;
      UnreadableIsRefused(p, part.number, part.data);
    }
  }

  lemma UnreadableIsRefused(p: Parts, number: nat, data: seq<byte>)
    ensures PutPart(p, number, data).Success? <==> RecordReadable(number, data)
    ensures PutPart(p, number, data).Failure? ==> PutPart(p, number, data).error == DeserializationError
  {
    hide ReadFields;
  }

  /** When all parts are readable: a missing header is an invalid format; then a payload that is too large; then
      a header whose checksum is not the payload's; otherwise the message, with the size of its payload. */
  lemma ReadablePartsDecide(s: seq<byte>)
    requires PartsReadable(s)
    ensures DecodeParts(s, NO_PARTS).Success?
    ensures var p := DecodeParts(s, NO_PARTS).value;
            && (!p.hasHeader ==> Decoded(s) == Failure(InvalidFormat))
            && (p.hasHeader && |p.payload| > MAX_PAYLOAD_SIZE ==> Decoded(s) == Failure(SizeExceeded))
            && (p.hasHeader && |p.payload| <= MAX_PAYLOAD_SIZE && p.header.checksum != ChecksumOf(p.payload) ==>
                  Decoded(s) == Failure(ChecksumMismatch))
            && (p.hasHeader && |p.payload| <= MAX_PAYLOAD_SIZE && p.header.checksum == ChecksumOf(p.payload) ==>
                  && Decoded(s).Success? && Decoded(s).value.payload == p.payload && Decoded(s).value.metadata == p.metadata
                  && (p.payload != [] ==> Decoded(s).value.header == p.header.(payloadSize := |p.payload|))
                  && (p.payload == [] ==> Decoded(s).value.header == p.header)
                  && Decoded(s).value.errorInfo == if p.hasErrorInfo then p.errorInfo else DEFAULT_ERROR_INFO)
  {
    hide PartsReadable, DecodeParts, ChecksumOf;
    PartsDecodeExactly(s, NO_PARTS);
  }

  // ---------------------------------------------------------------------------------------------
  // The serializer
  // ---------------------------------------------------------------------------------------------

  method WritePart(buffer: seq<byte>, number: nat, data: seq<byte>) returns (r: seq<byte>)
    requires number < 0x1_0000_0000 && |data| < 0x1_0000_0000_0000_0000
    ensures r == buffer + EncodeText(number, data)
  {
    r := Varint.Write(buffer, number * 8 + LENGTH_DELIMITED);
    r := Varint.Write(r, |data|);
    r := r + data;
  }

  method Serialize(m: Contents) returns (data: seq<byte>)
    requires Representable(m)
    ensures data == Encoded(m)
  {
    hide EncodeFields, EncodeText;
    var header := SerializeHeader(m.header);
    data := WritePart([], 1, header);
    var metadata := SerializeMetadata(m.metadata);
    data := WritePart(data, 2, metadata);
    if |m.payload| > 0 {
      data := WritePart(data, 3, m.payload);
    }
    if m.IsError() {
      var error := SerializeErrorInfo(m.errorInfo);
      data := WritePart(data, 4, error);
    }
  }

  /** One turn of the loop in Deserialize. */
  lemma PartsNext(ptr: nat, s: seq<byte>, p: Parts)
    ensures s == [] ==> Detour(ptr, s, p).None? && DecodeParts(s, p) == Success(p)
    ensures s != [] && ReadPart(s).Failure? ==>
              Detour(ptr, s, p) == PartDetour(ptr, s) && DecodeParts(s, p) == Failure(ReadPart(s).error)
    ensures s != [] && ReadPart(s).Success? ==>
              var part := ReadPart(s).value;
              var q := PutPart(p, part.number, part.data);
              var strays := RecordStrays(part.number, ptr + part.length - |part.data|, part.data);
              && (strays ==> Detour(ptr, s, p) == Some(Unspecified))
              && (q.Failure? ==> DecodeParts(s, p) == Failure(q.error) && (!strays ==> Detour(ptr, s, p).None?))
              && (q.Success? ==>
                    && DecodeParts(s, p) == DecodeParts(s[part.length..], q.value)
                    && (!strays ==> Detour(ptr, s, p) == Detour(ptr + part.length, s[part.length..], q.value)))
  {
    hide Varint.Read, PutPart, RecordStrays;
  }

  /** One record, decoded into what was collected before. */
  method PutPartAt(p: Parts, number: nat, address: nat, data: seq<byte>) returns (r: Passage<Parts>)
    requires address + |data| < USER
    ensures r == if RecordStrays(number, address, data) then Astray
                 else if PutPart(p, number, data).Failure? then Refused else Arrived(PutPart(p, number, data).value)
    ensures PutPart(p, number, data).Failure? ==> PutPart(p, number, data).error == DeserializationError
  {
    hide Strays, Decode;
    match number {
      case 1 =>
        var h := DeserializeHeader(data, address, p.header);
        return if h.Astray? then Astray else if h.Refused? then Refused else Arrived(p.(header := h.value, hasHeader := true));
      case 2 =>
        var m := DeserializeMetadata(data, address, p.metadata);
        return if m.Astray? then Astray else if m.Refused? then Refused else Arrived(p.(metadata := m.value));
      case 3 =>
        return Arrived(p.(payload := data));
      case 4 =>
        var e := DeserializeErrorInfo(data, address, p.errorInfo);
        return if e.Astray? then Astray else if e.Refused? then Refused else Arrived(p.(errorInfo := e.value, hasErrorInfo := true));
      case _ =>
        return Arrived(p);
    }
  }

  /** The part at `ptr`. */
  method ReadPartAt(data: seq<byte>, address: nat, ptr: nat) returns (r: Result<Part, Error>)
    requires ptr < |data| && address + |data| < USER
    ensures var d := PartDetour(address + ptr, data[ptr..]);
            && (r == if d.Some? then Failure(d.value) else ReadPart(data[ptr..]))
            && (d.Some? ==> ReadPart(data[ptr..]).Failure?)
  {
    hide Varint.Read, NumberOf;
    ghost var s := data[ptr..];
    var tag := Varint.ReadAt(data, ptr);
    if tag.None? {
      return Failure(DeserializationError);
    }
    if tag.value.value % 8 != LENGTH_DELIMITED {
      return Failure(InvalidFormat);
    }
    var body := ptr + tag.value.length;
    assert s[tag.value.length..] == data[body..];
    var n := Varint.ReadAt(data, body);
    if n.None? {
      return Failure(DeserializationError);
    }
    var start := body + n.value.length;
    var end := Require(data, address, start, n.value.value);
    match end {
      case Refused => return Failure(InsufficientData);
      case Astray =>
        LengthIsUnstorable(address + start, n.value.value);
        return Failure(if NumberOf(tag.value.value) == 3 then DeserializationError else Unspecified);
      case Arrived(e) =>
        assert data[start..e] == data[body..][n.value.length..e - body];
        return Success(Part(NumberOf(tag.value.value), data[start..e], e - ptr));
    }
  }

  /** `address` is where the buffer lies. */
  method Deserialize(data: seq<byte>, address: nat) returns (r: Result<Contents, Error>)
    requires |data| < 0x1_0000_0000 && address + |data| < USER
    ensures r == DecodedAt(address, data)
  {
    hide ReadPart, PutPart, DecodeParts, Detour, PartDetour, RecordStrays, ChecksumOf;
    var ptr, p := 0, NO_PARTS;
    assert data[0..] == data;
    while ptr < |data|
      invariant ptr <= |data|
      invariant DecodeParts(data, NO_PARTS) == DecodeParts(data[ptr..], p)
      invariant Detour(address, data, NO_PARTS) == Detour(address + ptr, data[ptr..], p)
    {
      PartsNext(address + ptr, data[ptr..], p);
      var part := ReadPartAt(data, address, ptr);
      if part.Failure? {
        return Failure(part.error);
      }
      var bytes, end := part.value.data, ptr + part.value.length;
      PartLiesBehindItsTag(data[ptr..]);
      var q := PutPartAt(p, part.value.number, address + end - |bytes|, bytes);
      if !q.Arrived? {
        return Failure(if q.Astray? then Unspecified else DeserializationError);
      }
      assert data[ptr..][part.value.length..] == data[end..];
      p := q.value;
      ptr := end;
    }
    PartsNext(address + ptr, data[ptr..], p);

    if !p.hasHeader {
      return Failure(InvalidFormat);
    }
    var header := p.header;
    if p.payload != [] {
      if |p.payload| > MAX_PAYLOAD_SIZE {
        return Failure(SizeExceeded);
      }
      header := header.(payloadSize := |p.payload|);
    }
    var errorInfo := if p.hasErrorInfo then p.errorInfo else DEFAULT_ERROR_INFO;
    var checksum := ComputeChecksum(p.payload);
    if checksum != header.checksum {
      return Failure(ChecksumMismatch);
    }
    return Success(Contents(header, p.metadata, p.payload, errorInfo));
  }

  lemma PartLiesBehindItsTag(s: seq<byte>)
    ensures ReadPart(s).Success? ==> |ReadPart(s).value.data| <= ReadPart(s).value.length <= |s|
  {
    hide Varint.Read;
  }

  lemma SplitNext(ptr: nat, s: seq<byte>)
    requires s != []
    ensures var tag := Varint.Read(s);
            && (tag.None? ==> !SplitsIntoFields(s) && !SplitStrays(ptr, s))
            && (tag.Some? ==>
                  var rest, wire := s[tag.value.length..], tag.value.value % 8;
                  var body := ReadBody(Unknown, NumberOf(tag.value.value), wire, rest);
                  var strays := BodyStrays(Unknown, wire, ptr + tag.value.length, rest);
                  && (body.None? ==> !SplitsIntoFields(s) && SplitStrays(ptr, s) == strays)
                  && (body.Some? ==>
                        var next := rest[body.value.length..];
                        && SplitsIntoFields(s) == SplitsIntoFields(next)
                        && SplitStrays(ptr, s) == SplitStrays(ptr + tag.value.length + body.value.length, next)))
  {
    hide Varint.Read, ReadText, BodyStrays, NumberOf;
  }

  /** The quick scan: Astray where the code has left the buffer. */
  method Validate(data: seq<byte>, address: nat) returns (valid: Passage<bool>)
    requires |data| < 0x1_0000_0000 && address + |data| < USER
    ensures valid == if |data| >= 2 && SplitStrays(address, data) then Astray
                     else Arrived(|data| >= 2 && SplitsIntoFields(data))
  {
    hide Varint.Read, ReadBody, BodyStrays, NumberOf, SplitsIntoFields, SplitStrays;
    if |data| < 2 {
      return Arrived(false);
    }
    var ptr := 0;
    assert data[0..] == data;
    while ptr < |data|
      invariant ptr <= |data|
      invariant SplitsIntoFields(data) <==> SplitsIntoFields(data[ptr..])
      invariant SplitStrays(address, data) <==> SplitStrays(address + ptr, data[ptr..])
    {
      ghost var s := data[ptr..];
      SplitNext(address + ptr, s);
      var tag := Varint.ReadAt(data, ptr);
      if tag.None? {
        return Arrived(false);
      }
      var wire, body := tag.value.value % 8, ptr + tag.value.length;
      assert s[tag.value.length..] == data[body..];
      var skipped := SkipAt(data, address, body, wire, NumberOf(tag.value.value));
      match skipped {
        case Astray =>
          StrayBodyIsTooLong(Unknown, NumberOf(tag.value.value), wire, address + body, data[body..]);
          return Astray;
        case Refused => return Arrived(false);
        case Arrived(length) =>
          BodyStraysNowhere(NumberOf(tag.value.value), wire, address + body, data[body..]);
          assert data[body..][length..] == data[body + length..];
          ptr := body + length;
      }
    }
    NothingToSplit(address + ptr);
    assert data[ptr..] == [];
    return Arrived(true);
  }

  lemma BodyStraysNowhere(number: nat, wire: nat, ptr: nat, s: seq<byte>)
    requires ptr + |s| < ADDRESSES && ReadBody(Unknown, number, wire, s).Some?
    ensures ReadBody(Unknown, number, wire, s).value.length <= |s|
  {
    hide Varint.Read, ReadText;
  }

  lemma NothingToSplit(ptr: nat)
    ensures SplitsIntoFields([]) && !SplitStrays(ptr, [])
  {
  }
}
