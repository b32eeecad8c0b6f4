/** What the two serializers put on the wire, byte by byte: the binary format
    (workspace/src/framework/impl/ipc/serializer.cpp:25-146, 301-374) and that of Protocol Buffers
    (workspace/src/framework/impl/ipc/protobuf_serializer.cpp:79-270, 545-592). */
module WireFormat {
  import opened Bytes
  import opened Messages
  import Varint
  import B = BinaryCodec
  import P = ProtoBuf
  import R = ProtoBufRecords
  import M = ProtoBufMessages

  // ---------------------------------------------------------------------------------------------
  // The binary format
  // ---------------------------------------------------------------------------------------------

  /** The `count` bytes from `k` on are `v`, least significant byte first. */
  predicate NumberAt(s: seq<byte>, k: nat, count: nat, v: nat) {
    k + count <= |s| && forall i: nat :: i < count ==> s[k + i] == v / Weight(i) % 0x100
  }

  lemma NumberBytes(v: nat, count: nat)
    ensures forall i: nat :: i < count ==> LittleEndian(v, count)[i] == v / Weight(i) % 0x100
  {
    forall i: nat | i < count
      ensures LittleEndian(v, count)[i] == v / Weight(i) % 0x100
    {
      LittleEndianAt(v, count, i);
    }
  }

  /** The header: every member at its place. */
  lemma BinaryHeader(h: Header)
    ensures var s := B.EncodeHeader(h);
            && |s| == 56 && s[..16] == h.messageId && s[16..32] == h.correlationId && NumberAt(s, 32, 8, h.timestamp)
            && s[40] == h.messageType && s[41] == h.priority && s[42] == h.format && s[43] == h.version
            && NumberAt(s, 44, 4, h.flags) && NumberAt(s, 48, 4, h.payloadSize) && NumberAt(s, 52, 4, h.checksum)
  {
    hide LittleEndian, Weight;
    var s := B.EncodeHeader(h);
    NumberBytes(h.timestamp, 8);
    NumberBytes(h.flags, 4);
    NumberBytes(h.payloadSize, 4);
    NumberBytes(h.checksum, 4);
    var rest := B.U32(h.payloadSize) + B.U32(h.checksum);
    assert s[32..40] == B.U64(h.timestamp) && s[44..48] == B.U32(h.flags) && s[48..] == rest;
    assert s[48..52] == rest[..4] == B.U32(h.payloadSize);
    assert s[52..56] == rest[4..] == B.U32(h.checksum);
    forall i: nat | i < 8
      ensures s[32 + i] == B.U64(h.timestamp)[i]
    {
      assert s[32..40][i] == s[32 + i];
    }
    forall i: nat | i < 4
      ensures s[44 + i] == B.U32(h.flags)[i] && s[48 + i] == B.U32(h.payloadSize)[i] && s[52 + i] == B.U32(h.checksum)[i]
    {
      assert s[44..48][i] == s[44 + i] && s[48..52][i] == s[48 + i] && s[52..56][i] == s[52 + i];
    }
  }

  /** A text behind its length. */
  function Sized(t: seq<byte>): seq<byte> {
    LittleEndian(|t|, 4) + t
  }

  /** Texts, counters and error code in their order, each text behind its length. */
  lemma BinaryRecords(m: Metadata, e: ErrorInfo)
    requires B.Fit(B.TextsOf(m)) && B.Fit(B.ErrorTexts(e))
    ensures B.EncodeMetadata(m) ==
            Sized(m.source) + (Sized(m.destination) + (Sized(m.subject) + (Sized(m.contentType) +
            (LittleEndian(m.expiration, 8) + (LittleEndian(m.retryCount, 4) + LittleEndian(m.maxRetries, 4))))))
    ensures B.EncodeErrorInfo(e) == LittleEndian(e.code, 4) + (Sized(e.message) + (Sized(e.category) + Sized(e.context)))
  {
    hide B.Text, Sized, LittleEndian, B.Texts;
    FittingText(m.source);
    FittingText(m.destination);
    FittingText(m.subject);
    FittingText(m.contentType);
    FittingText(e.message);
    FittingText(e.category);
    FittingText(e.context);
    B.FourTexts(m.source, m.destination, m.subject, m.contentType, B.U64(m.expiration) + (B.U32(m.retryCount) + B.U32(m.maxRetries)));
    B.ThreeTexts(e.message, e.category, e.context);
  }

  lemma FittingText(t: seq<byte>)
    ensures |t| < B.WORD ==> B.Text(t) == Sized(t)
  {
    B.ModuloAtMost(|t|);
  }

  /** Header, metadata, payload and, in an error message, error information; metadata and error information
      behind their lengths. */
  lemma BinaryMessage(m: Contents)
    requires B.Representable(m) && |m.payload| < B.WORD
    ensures B.Encoded(m) == B.EncodeHeader(m.header) + Sized(B.EncodeMetadata(m.metadata)) + m.payload +
            if m.header.messageType == ERROR then Sized(B.EncodeErrorInfo(m.errorInfo)) else []
  {
    hide LittleEndian, B.EncodeHeader, B.EncodeMetadata, B.EncodeErrorInfo;
    B.ModuloAtMost(|m.payload|);
    B.ModuloAtMost(|B.EncodeMetadata(m.metadata)|);
    B.ModuloAtMost(|B.EncodeErrorInfo(m.errorInfo)|);
    assert m.payload[..|m.payload|] == m.payload;
  }

  // ---------------------------------------------------------------------------------------------
  // Protocol Buffers
  // ---------------------------------------------------------------------------------------------

  /** A number behind its tag. */
  function Tagged(tag: byte, v: nat): seq<byte> {
    [tag] + Varint.Encode(v)
  }

  /** A text behind its tag and length. */
  function TaggedText(tag: byte, t: seq<byte>): seq<byte> {
    [tag] + Varint.Encode(|t|) + t
  }

  function Optional(tag: byte, t: seq<byte>): seq<byte> {
    if t == [] then [] else TaggedText(tag, t)
  }

  lemma SmallTag(number: nat, wire: nat)
    requires number < 16 && wire < 8
    ensures P.Tag(number, wire) == [number * 8 + wire]
  {
    assert number * 8 + wire < 0x80;
  }

  lemma NumberField(number: nat, v: uint64)
    requires number < 16
    ensures P.EncodeField(P.NumberField(number, v)) == Tagged(number * 8, v)
  {
    hide Varint.Encode;
    SmallTag(number, 0);
  }

  lemma TextField(number: nat, t: seq<byte>)
    requires number < 16
    ensures P.EncodeText(number, t) == P.EncodeField(P.TextField(number, t)) == TaggedText(number * 8 + 2, t)
    ensures P.EncodeFields(R.OptionalText(number, t)) == Optional(number * 8 + 2, t)
  {
    hide Varint.Encode;
    SmallTag(number, 2);
    if t != [] {
      R.EncodeOne(P.TextField(number, t));
      assert R.OptionalText(number, t) == [P.TextField(number, t)];
    }
  }

  lemma NextField(f: P.Field, rest: seq<P.Field>)
    ensures P.EncodeFields([f] + rest) == P.EncodeField(f) + P.EncodeFields(rest)
  {
    assert ([f] + rest)[1..] == rest;
  }

  lemma LastField(f: P.Field)
    ensures P.EncodeFields([f]) == P.EncodeField(f)
  {
    R.EncodeOne(f);
  }

  /** The header: ten fields in order, identifiers of sixteen bytes. */
  lemma ProtoHeader(h: Header)
    ensures P.EncodeFields(R.HeaderFields(h)) ==
            ([0x0A, 0x10] + h.messageId) + (([0x12, 0x10] + h.correlationId) + (Tagged(0x18, h.timestamp) +
            (Tagged(0x20, h.messageType) + (Tagged(0x28, h.priority) + (Tagged(0x30, h.format) + (Tagged(0x38, h.version) +
            (Tagged(0x40, h.flags) + (Tagged(0x48, h.payloadSize) + Tagged(0x50, h.checksum)))))))))
  {
    hide Tagged, P.EncodeField, P.EncodeFields;
    var f10 := [P.NumberField(10, h.checksum)];
    var f9 := [P.NumberField(9, h.payloadSize)] + f10;
    var f8 := [P.NumberField(8, h.flags)] + f9;
    var f7 := [P.NumberField(7, h.version)] + f8;
    var f6 := [P.NumberField(6, h.format)] + f7;
    var f5 := [P.NumberField(5, h.priority)] + f6;
    var f4 := [P.NumberField(4, h.messageType)] + f5;
    var f3 := [P.NumberField(3, h.timestamp)] + f4;
    var f2 := [P.TextField(2, h.correlationId)] + f3;
    assert R.HeaderFields(h) == [P.TextField(1, h.messageId)] + f2;
    NextField(P.TextField(1, h.messageId), f2);
    NextField(P.TextField(2, h.correlationId), f3);
    NextField(P.NumberField(3, h.timestamp), f4);
    NextField(P.NumberField(4, h.messageType), f5);
    NextField(P.NumberField(5, h.priority), f6);
    NextField(P.NumberField(6, h.format), f7);
    NextField(P.NumberField(7, h.version), f8);
    NextField(P.NumberField(8, h.flags), f9);
    NextField(P.NumberField(9, h.payloadSize), f10);
    LastField(P.NumberField(10, h.checksum));
    IdentifierField(1, h.messageId);
    IdentifierField(2, h.correlationId);
    NumberField(3, h.timestamp);
    NumberField(4, h.messageType);
    NumberField(5, h.priority);
    NumberField(6, h.format);
    NumberField(7, h.version);
    NumberField(8, h.flags);
    NumberField(9, h.payloadSize);
    NumberField(10, h.checksum);
  }

  lemma IdentifierField(number: nat, id: Id)
    requires number < 16
    ensures P.EncodeField(P.TextField(number, id)) == [number * 8 + 2, 0x10] + id
  {
    TextField(number, id);
    assert Varint.Encode(0x10) == [0x10];
  }

  /** The metadata: texts that are not empty, then the three numbers. */
  lemma ProtoMetadata(m: Metadata)
    ensures P.EncodeFields(R.MetadataFields(m)) ==
            Optional(0x0A, m.source) + (Optional(0x12, m.destination) + (Optional(0x1A, m.subject) + (Optional(0x22, m.contentType) +
            (Tagged(0x28, m.expiration) + (Tagged(0x30, m.retryCount) + Tagged(0x38, m.maxRetries))))))
  {
    hide Tagged, Optional, P.EncodeField, P.EncodeFields, R.OptionalText;
    var f1, f2, f3, f4 := R.OptionalText(1, m.source), R.OptionalText(2, m.destination), R.OptionalText(3, m.subject), R.OptionalText(4, m.contentType);
    var n7 := [P.NumberField(7, m.maxRetries)];
    var n6 := [P.NumberField(6, m.retryCount)] + n7;
    var n5 := [P.NumberField(5, m.expiration)] + n6;
    assert R.MetadataFields(m) == f1 + (f2 + (f3 + (f4 + n5)));
    R.EncodeFieldsAppend(f1, f2 + (f3 + (f4 + n5)));
    R.EncodeFieldsAppend(f2, f3 + (f4 + n5));
    R.EncodeFieldsAppend(f3, f4 + n5);
    R.EncodeFieldsAppend(f4, n5);
    NextField(P.NumberField(5, m.expiration), n6);
    NextField(P.NumberField(6, m.retryCount), n7);
    LastField(P.NumberField(7, m.maxRetries));
    TextField(1, m.source);
    TextField(2, m.destination);
    TextField(3, m.subject);
    TextField(4, m.contentType);
    NumberField(5, m.expiration);
    NumberField(6, m.retryCount);
    NumberField(7, m.maxRetries);
  }

  lemma ProtoError(e: ErrorInfo)
    ensures P.EncodeFields(R.ErrorFields(e)) ==
            Tagged(0x08, e.code) + (Optional(0x12, e.message) + (Optional(0x1A, e.category) + Optional(0x22, e.context)))
  {
    hide Tagged, Optional, P.EncodeField, P.EncodeFields, R.OptionalText;
    var f2, f3, f4 := R.OptionalText(2, e.message), R.OptionalText(3, e.category), R.OptionalText(4, e.context);
    assert R.ErrorFields(e) == [P.NumberField(1, e.code)] + (f2 + (f3 + f4));
    NextField(P.NumberField(1, e.code), f2 + (f3 + f4));
    R.EncodeFieldsAppend(f2, f3 + f4);
    R.EncodeFieldsAppend(f3, f4);
    NumberField(1, e.code);
    TextField(2, e.message);
    TextField(3, e.category);
    TextField(4, e.context);
  }

  /** The four parts; no payload is written if there is none, and no error information but for an error. */
  lemma ProtoMessage(m: Contents)
    ensures M.Encoded(m) ==
            TaggedText(0x0A, P.EncodeFields(R.HeaderFields(m.header))) + TaggedText(0x12, P.EncodeFields(R.MetadataFields(m.metadata))) +
            Optional(0x1A, m.payload) +
            if m.header.messageType == ERROR then TaggedText(0x22, P.EncodeFields(R.ErrorFields(m.errorInfo))) else []
  {
    hide TaggedText, P.EncodeFields, P.EncodeText, R.HeaderFields, R.MetadataFields, R.ErrorFields;
    TextField(1, P.EncodeFields(R.HeaderFields(m.header)));
    TextField(2, P.EncodeFields(R.MetadataFields(m.metadata)));
    TextField(3, m.payload);
    TextField(4, P.EncodeFields(R.ErrorFields(m.errorInfo)));
  }
}
