/** The three records of the Protocol Buffers serializer
    (workspace/src/framework/impl/ipc/protobuf_serializer.cpp:163-509): their encoders write the known
    fields in order, their decoders fold whatever fields they find into a record. */
module ProtoBufRecords {
  import opened Bytes
  import opened Wrappers
  import opened Messages
  import opened ProtoBuf
  import Varint

  // ---------------------------------------------------------------------------------------------
  // Records as fields
  // ---------------------------------------------------------------------------------------------

  function HeaderFields(h: Header): seq<Field> {
    [TextField(1, h.messageId), TextField(2, h.correlationId), NumberField(3, h.timestamp),
     NumberField(4, h.messageType), NumberField(5, h.priority), NumberField(6, h.format),
     NumberField(7, h.version), NumberField(8, h.flags), NumberField(9, h.payloadSize), NumberField(10, h.checksum)]
  }

  /** Empty strings are not written. */
  function OptionalText(number: nat, text: seq<byte>): seq<Field> {
    if text == [] then [] else [TextField(number, text)]
  }

  function MetadataFields(m: Metadata): seq<Field> {
    OptionalText(1, m.source) + OptionalText(2, m.destination) + OptionalText(3, m.subject) + OptionalText(4, m.contentType) +
    [NumberField(5, m.expiration), NumberField(6, m.retryCount), NumberField(7, m.maxRetries)]
  }

  function ErrorFields(e: ErrorInfo): seq<Field> {
    [NumberField(1, e.code)] + OptionalText(2, e.message) + OptionalText(3, e.category) + OptionalText(4, e.context)
  }

  /** Storing a field: a number is cut to the width of its member. */
  function PutHeader(h: Header, f: Field): Header {
    match f
    case NumberField(3, v) => h.(timestamp := v)
    case NumberField(4, v) => h.(messageType := v % 0x100)
    case NumberField(5, v) => h.(priority := v % 0x100)
    case NumberField(6, v) => h.(format := v % 0x100)
    case NumberField(7, v) => h.(version := v % 0x100)
    case NumberField(8, v) => h.(flags := v % 0x1_0000_0000)
    case NumberField(9, v) => h.(payloadSize := v % 0x1_0000_0000)
    case NumberField(10, v) => h.(checksum := v % 0x1_0000_0000)
    case TextField(1, t) => if |t| == 16 then h.(messageId := t) else h
    case TextField(2, t) => if |t| == 16 then h.(correlationId := t) else h
    case _ => h
  }

  function PutMetadata(m: Metadata, f: Field): Metadata {
    match f
    case TextField(1, t) => m.(source := t)
    case TextField(2, t) => m.(destination := t)
    case TextField(3, t) => m.(subject := t)
    case TextField(4, t) => m.(contentType := t)
    case NumberField(5, v) => m.(expiration := v)
    case NumberField(6, v) => m.(retryCount := v % 0x1_0000_0000)
    case NumberField(7, v) => m.(maxRetries := v % 0x1_0000_0000)
    case _ => m
  }

  function PutError(e: ErrorInfo, f: Field): ErrorInfo {
    match f
    case NumberField(1, v) => e.(code := v % 0x1_0000_0000)
    case TextField(2, t) => e.(message := t)
    case TextField(3, t) => e.(category := t)
    case TextField(4, t) => e.(context := t)
    case _ => e
  }

  /** The record after a run of fields; of a field that occurs twice the later one wins. */
  function PutAll<R>(record: R, fields: seq<Field>, put: (R, Field) -> R): R {
    if fields == [] then record else PutAll(put(record, fields[0]), fields[1..], put)
  }

  function Decode<R>(schema: Schema, s: seq<byte>, record: R, put: (R, Field) -> R): Option<R> {
    var fields := ReadFields(schema, s);
    if fields.None? then None else Some(PutAll(record, fields.value, put))
  }

  function DecodeHeader(s: seq<byte>, h: Header): Option<Header> {
    Decode(HeaderSchema, s, h, PutHeader)
  }

  function DecodeMetadata(s: seq<byte>, m: Metadata): Option<Metadata> {
    Decode(MetadataSchema, s, m, PutMetadata)
  }

  function DecodeError(s: seq<byte>, e: ErrorInfo): Option<ErrorInfo> {
    Decode(ErrorSchema, s, e, PutError)
  }

  /** One turn of a decoding loop. */
  lemma DecodeNext<R>(schema: Schema, s: seq<byte>, record: R, put: (R, Field) -> R)
    ensures s == [] ==> Decode(schema, s, record, put) == Some(record)
    ensures s != [] && ReadField(schema, s).None? ==> Decode(schema, s, record, put) == None
    ensures s != [] && ReadField(schema, s).Some? ==>
      var f := ReadField(schema, s).value;
      Decode(schema, s, record, put) == Decode(schema, s[f.length..], put(record, f.field), put)
  {
    hide ReadField;
  }

  // ---------------------------------------------------------------------------------------------
  // Unknown fields
  // ---------------------------------------------------------------------------------------------

  lemma {:induction false} PutAllAppend<R>(record: R, a: seq<Field>, b: seq<Field>, put: (R, Field) -> R)
    ensures PutAll(record, a + b, put) == PutAll(PutAll(record, a, put), b, put)
    decreases |a|
  {
    if a == [] {
      assert a + b == b;
    } else {
      assert (a + b)[1..] == a[1..] + b;
      PutAllAppend(put(record, a[0]), a[1..], b, put);
    }
  }

  lemma UnknownFieldLeavesRecord<R>(schema: Schema, s: seq<byte>, u: UnknownField, rest: seq<byte>, record: R, put: (R, Field) -> R)
    requires ReadFields(schema, s).Some? && WellFormedUnknown(schema, u)
    requires forall r :: put(r, Ignored) == r
    ensures Decode(schema, s + EncodeUnknown(u) + rest, record, put) == Decode(schema, s + rest, record, put)
  {
    hide ReadFields, EncodeUnknown;
    UnknownFieldIsIgnored(schema, s, u, rest);
    ReadFieldsAppend(schema, s, rest);
    if ReadFields(schema, rest).Some? {
      var before, after := ReadFields(schema, s).value, ReadFields(schema, rest).value;
      PutAllAppend(record, before + [Ignored], after, put);
      PutAllAppend(record, before, [Ignored], put);
      PutAllAppend(record, before, after, put);
      assert PutAll(PutAll(record, before, put), [Ignored], put) == PutAll(record, before, put);
    }
  }

  /** Wherever a run of fields ends inside a record, a field of a later version can be inserted without
      changing what is decoded, be it a record or a failure. */
  lemma UnknownFieldsAreSkipped(s: seq<byte>, u: UnknownField, rest: seq<byte>)
    ensures ReadFields(HeaderSchema, s).Some? && WellFormedUnknown(HeaderSchema, u) ==>
      forall h :: DecodeHeader(s + EncodeUnknown(u) + rest, h) == DecodeHeader(s + rest, h)
    ensures ReadFields(MetadataSchema, s).Some? && WellFormedUnknown(MetadataSchema, u) ==>
      forall m :: DecodeMetadata(s + EncodeUnknown(u) + rest, m) == DecodeMetadata(s + rest, m)
    ensures ReadFields(ErrorSchema, s).Some? && WellFormedUnknown(ErrorSchema, u) ==>
      forall e :: DecodeError(s + EncodeUnknown(u) + rest, e) == DecodeError(s + rest, e)
  {
    hide ReadFields, EncodeUnknown, Decode;
    if ReadFields(HeaderSchema, s).Some? && WellFormedUnknown(HeaderSchema, u) {
      forall h
        ensures DecodeHeader(s + EncodeUnknown(u) + rest, h) == DecodeHeader(s + rest, h)
      {
        UnknownFieldLeavesRecord(HeaderSchema, s, u, rest, h, PutHeader);
      }
    }
    if ReadFields(MetadataSchema, s).Some? && WellFormedUnknown(MetadataSchema, u) {
      forall m
        ensures DecodeMetadata(s + EncodeUnknown(u) + rest, m) == DecodeMetadata(s + rest, m)
      {
        UnknownFieldLeavesRecord(MetadataSchema, s, u, rest, m, PutMetadata);
      }
    }
    if ReadFields(ErrorSchema, s).Some? && WellFormedUnknown(ErrorSchema, u) {
      forall e
        ensures DecodeError(s + EncodeUnknown(u) + rest, e) == DecodeError(s + rest, e)
      {
        UnknownFieldLeavesRecord(ErrorSchema, s, u, rest, e, PutError);
      }
    }
  }

  /** What a decoder makes of a record at an address. */
  function AtAddress<R>(schema: Schema, address: nat, s: seq<byte>, record: R, put: (R, Field) -> R): Passage<R> {
    if Strays(schema, address, s) then Astray else Meant(Decode(schema, s, record, put))
  }

  /** In full: with the unknown field inserted, the outcome is that of the record without it, but for what
      follows being at a later address; and only what follows can lead the decoder astray. */
  lemma UnknownFieldLeavesAtAddress<R>(schema: Schema, address: nat, s: seq<byte>, u: UnknownField, rest: seq<byte>,
                                     record: R, put: (R, Field) -> R)
    requires ReadFields(schema, s).Some? && WellFormedUnknown(schema, u)
    requires forall r :: put(r, Ignored) == r
    ensures AtAddress(schema, address, s + EncodeUnknown(u) + rest, record, put) ==
            if Strays(schema, address + |s| + |EncodeUnknown(u)|, rest) then Astray
            else Meant(Decode(schema, s + rest, record, put))
    ensures AtAddress(schema, address, s + rest, record, put) ==
            if Strays(schema, address + |s|, rest) then Astray else Meant(Decode(schema, s + rest, record, put))
  {
    hide ReadFields, EncodeUnknown, Decode, Strays;
    UnknownFieldLeavesRecord(schema, s, u, rest, record, put);
    UnknownFieldMovesTheRest(schema, address, s, u, rest);
    StraysBehind(schema, address, s, rest);
  }

  // ---------------------------------------------------------------------------------------------
  // Round trips
  // ---------------------------------------------------------------------------------------------

  lemma DecodeEncoded<R>(schema: Schema, fields: seq<Field>, record: R, put: (R, Field) -> R)
    requires forall f :: f in fields ==> Fits(schema, f)
    ensures Decode(schema, EncodeFields(fields), record, put) == Some(PutAll(record, fields, put))
  {
    hide EncodeFields;
    ReadEncodedFields(schema, fields, []);
    assert EncodeFields(fields) + [] == EncodeFields(fields);
    assert fields + [] == fields;
  }

  lemma PutFrom<R>(record: R, fields: seq<Field>, k: nat, put: (R, Field) -> R)
    requires k < |fields|
    ensures PutAll(record, fields[k..], put) == PutAll(put(record, fields[k]), fields[k + 1..], put)
  {
    assert fields[k..][1..] == fields[k + 1..];
  }

  lemma PutNone<R>(record: R, put: (R, Field) -> R)
    ensures PutAll(record, [], put) == record
  {
  }

  /** The whole header comes back, whatever was in the one it is decoded into. */
  lemma HeaderRoundTrip(h: Header, into: Header)
    ensures DecodeHeader(EncodeFields(HeaderFields(h)), into) == Some(h)
  {
    hide EncodeFields, Decode, PutAll;
    DecodeEncoded(HeaderSchema, HeaderFields(h), into, PutHeader);
    HeaderPutBack(h, into);
  }

  lemma HeaderPutBack(h: Header, into: Header)
    ensures PutAll(into, HeaderFields(h), PutHeader) == h
  {
    hide PutAll;
    var f := HeaderFields(h);
    var r1 := into.(messageId := h.messageId);
    var r2 := r1.(correlationId := h.correlationId);
    var r3 := r2.(timestamp := h.timestamp);
    var r4 := r3.(messageType := h.messageType);
    var r5 := r4.(priority := h.priority);
    var r6 := r5.(format := h.format);
    var r7 := r6.(version := h.version);
    var r8 := r7.(flags := h.flags);
    var r9 := r8.(payloadSize := h.payloadSize);
    assert f[0..] == f && f[10..] == [];
    PutFrom(into, f, 0, PutHeader);
    PutFrom(r1, f, 1, PutHeader);
    PutFrom(r2, f, 2, PutHeader);
    PutFrom(r3, f, 3, PutHeader);
    PutFrom(r4, f, 4, PutHeader);
    PutFrom(r5, f, 5, PutHeader);
    PutFrom(r6, f, 6, PutHeader);
    PutFrom(r7, f, 7, PutHeader);
    PutFrom(r8, f, 8, PutHeader);
    PutFrom(r9, f, 9, PutHeader);
    PutNone(h, PutHeader);
  }

  lemma PutOptional<R>(record: R, number: nat, text: seq<byte>, put: (R, Field) -> R)
    ensures PutAll(record, OptionalText(number, text), put) == if text == [] then record else put(record, TextField(number, text))
  {
    if text != [] {
      assert OptionalText(number, text)[1..] == [];
    }
  }

  /** Metadata comes back when decoded into a record whose strings are empty, as the decoder does. */
  lemma MetadataRoundTrip(m: Metadata)
    requires |m.source| < 0x1_0000_0000_0000_0000 && |m.destination| < 0x1_0000_0000_0000_0000
    requires |m.subject| < 0x1_0000_0000_0000_0000 && |m.contentType| < 0x1_0000_0000_0000_0000
    ensures DecodeMetadata(EncodeFields(MetadataFields(m)), DEFAULT_METADATA) == Some(m)
  {
    hide EncodeFields, Decode, PutAll;
    DecodeEncoded(MetadataSchema, MetadataFields(m), DEFAULT_METADATA, PutMetadata);
    MetadataPutBack(m);
  }

  lemma MetadataPutBack(m: Metadata)
    ensures PutAll(DEFAULT_METADATA, MetadataFields(m), PutMetadata) == m
  {
    hide PutAll, OptionalText;
    var o1, o2, o3, o4 := OptionalText(1, m.source), OptionalText(2, m.destination), OptionalText(3, m.subject), OptionalText(4, m.contentType);
    var numbers := [NumberField(5, m.expiration), NumberField(6, m.retryCount), NumberField(7, m.maxRetries)];
    var r1 := DEFAULT_METADATA.(source := m.source);
    var r2 := r1.(destination := m.destination);
    var r3 := r2.(subject := m.subject);
    var r4 := r3.(contentType := m.contentType);
    PutAllAppend(DEFAULT_METADATA, o1, o2, PutMetadata);
    PutAllAppend(DEFAULT_METADATA, o1 + o2, o3, PutMetadata);
    PutAllAppend(DEFAULT_METADATA, o1 + o2 + o3, o4, PutMetadata);
    PutAllAppend(DEFAULT_METADATA, o1 + o2 + o3 + o4, numbers, PutMetadata);
    PutOptional(DEFAULT_METADATA, 1, m.source, PutMetadata);
    PutOptional(r1, 2, m.destination, PutMetadata);
    PutOptional(r2, 3, m.subject, PutMetadata);
    PutOptional(r3, 4, m.contentType, PutMetadata);
    var r5 := r4.(expiration := m.expiration);
    var r6 := r5.(retryCount := m.retryCount);
    assert numbers[0..] == numbers && numbers[3..] == [];
    PutFrom(r4, numbers, 0, PutMetadata);
    PutFrom(r5, numbers, 1, PutMetadata);
    PutFrom(r6, numbers, 2, PutMetadata);
    PutNone(m, PutMetadata);
  }

  lemma ErrorRoundTrip(e: ErrorInfo)
    requires |e.message| < 0x1_0000_0000_0000_0000 && |e.category| < 0x1_0000_0000_0000_0000
    requires |e.context| < 0x1_0000_0000_0000_0000
    ensures DecodeError(EncodeFields(ErrorFields(e)), DEFAULT_ERROR_INFO) == Some(e)
  {
    hide EncodeFields, Decode, PutAll;
    DecodeEncoded(ErrorSchema, ErrorFields(e), DEFAULT_ERROR_INFO, PutError);
    ErrorPutBack(e);
  }

  lemma ErrorPutBack(e: ErrorInfo)
    ensures PutAll(DEFAULT_ERROR_INFO, ErrorFields(e), PutError) == e
  {
    hide PutAll, OptionalText;
    var code := [NumberField(1, e.code)];
    var o2, o3, o4 := OptionalText(2, e.message), OptionalText(3, e.category), OptionalText(4, e.context);
    var r1 := DEFAULT_ERROR_INFO.(code := e.code);
    var r2 := r1.(message := e.message);
    var r3 := r2.(category := e.category);
    PutAllAppend(DEFAULT_ERROR_INFO, code, o2, PutError);
    PutAllAppend(DEFAULT_ERROR_INFO, code + o2, o3, PutError);
    PutAllAppend(DEFAULT_ERROR_INFO, code + o2 + o3, o4, PutError);
    assert code[0..] == code && code[1..] == [];
    PutFrom(DEFAULT_ERROR_INFO, code, 0, PutError);
    PutNone(r1, PutError);
    PutOptional(r1, 2, e.message, PutError);
    PutOptional(r2, 3, e.category, PutError);
    PutOptional(r3, 4, e.context, PutError);
  }

  // ---------------------------------------------------------------------------------------------
  // The encoders
  // ---------------------------------------------------------------------------------------------

  lemma {:induction false} EncodeFieldsAppend(a: seq<Field>, b: seq<Field>)
    ensures EncodeFields(a + b) == EncodeFields(a) + EncodeFields(b)
    decreases |a|
  {
    hide EncodeField;
    if a == [] {
      assert a + b == b;
    } else {
      assert (a + b)[1..] == a[1..] + b;
      EncodeFieldsAppend(a[1..], b);
    }
  }

  lemma EncodeOne(f: Field)
    ensures EncodeFields([f]) == EncodeField(f)
  {
    hide EncodeField;
    assert [f][1..] == [];
    assert EncodeField(f) + [] == EncodeField(f);
  }

  method WriteNumber(buffer: seq<byte>, number: nat, value: uint64, ghost before: seq<Field>) returns (data: seq<byte>)
    requires number < 0x1_0000_0000 && buffer == EncodeFields(before)
    ensures data == EncodeFields(before + [NumberField(number, value)])
  {
    hide EncodeFields, Varint.Encode;
    data := Varint.Write(buffer, number * 8 + VARINT);
    data := Varint.Write(data, value);
    EncodeFieldsAppend(before, [NumberField(number, value)]);
    EncodeOne(NumberField(number, value));
    assert data == buffer + EncodeNumber(number, value);
  }

  method WriteText(buffer: seq<byte>, number: nat, text: seq<byte>, ghost before: seq<Field>) returns (data: seq<byte>)
    requires number < 0x1_0000_0000 && |text| < 0x1_0000_0000_0000_0000 && buffer == EncodeFields(before)
    ensures data == EncodeFields(before + [TextField(number, text)])
  {
    hide EncodeFields, Varint.Encode;
    data := Varint.Write(buffer, number * 8 + LENGTH_DELIMITED);
    data := Varint.Write(data, |text|);
    data := data + text;
    EncodeFieldsAppend(before, [TextField(number, text)]);
    EncodeOne(TextField(number, text));
    assert data == buffer + EncodeText(number, text);
  }

  method WriteOptionalText(buffer: seq<byte>, number: nat, text: seq<byte>, ghost before: seq<Field>) returns (data: seq<byte>)
    requires number < 0x1_0000_0000 && |text| < 0x1_0000_0000_0000_0000 && buffer == EncodeFields(before)
    ensures data == EncodeFields(before + OptionalText(number, text))
  {
    hide EncodeFields;
    data := buffer;
    if text != [] {
      data := WriteText(data, number, text, before);
    }
    assert text == [] ==> before + OptionalText(number, text) == before;
  }

  method SerializeHeader(h: Header) returns (data: seq<byte>)
    ensures data == EncodeFields(HeaderFields(h))
  {
    ghost var f := HeaderFields(h);
    hide EncodeFields;
    NoFields();
    assert f[..0] == [] && f[..10] == f;
    assert forall k :: 0 <= k < 10 ==> f[..k] + [f[k]] == f[..k + 1];
    data := WriteText([], 1, h.messageId, f[..0]);
    data := WriteText(data, 2, h.correlationId, f[..1]);
    data := WriteNumber(data, 3, h.timestamp, f[..2]);
    data := WriteNumber(data, 4, h.messageType, f[..3]);
    data := WriteNumber(data, 5, h.priority, f[..4]);
    data := WriteNumber(data, 6, h.format, f[..5]);
    data := WriteNumber(data, 7, h.version, f[..6]);
    data := WriteNumber(data, 8, h.flags, f[..7]);
    data := WriteNumber(data, 9, h.payloadSize, f[..8]);
    data := WriteNumber(data, 10, h.checksum, f[..9]);
  }

  method SerializeMetadata(m: Metadata) returns (data: seq<byte>)
    requires |m.source| < 0x1_0000_0000_0000_0000 && |m.destination| < 0x1_0000_0000_0000_0000
    requires |m.subject| < 0x1_0000_0000_0000_0000 && |m.contentType| < 0x1_0000_0000_0000_0000
    ensures data == EncodeFields(MetadataFields(m))
  {
    hide EncodeFields, OptionalText;
    NoFields();
    ghost var o1, o2 := OptionalText(1, m.source), OptionalText(2, m.destination);
    ghost var o3, o4 := OptionalText(3, m.subject), OptionalText(4, m.contentType);
    ghost var n5, n6 := NumberField(5, m.expiration), NumberField(6, m.retryCount);
    assert [] + o1 == o1;
    data := WriteOptionalText([], 1, m.source, []);
    data := WriteOptionalText(data, 2, m.destination, o1);
    data := WriteOptionalText(data, 3, m.subject, o1 + o2);
    data := WriteOptionalText(data, 4, m.contentType, o1 + o2 + o3);
    data := WriteNumber(data, 5, m.expiration, o1 + o2 + o3 + o4);
    data := WriteNumber(data, 6, m.retryCount, o1 + o2 + o3 + o4 + [n5]);
    data := WriteNumber(data, 7, m.maxRetries, o1 + o2 + o3 + o4 + [n5] + [n6]);
    assert o1 + o2 + o3 + o4 + [n5] + [n6] + [NumberField(7, m.maxRetries)] == MetadataFields(m);
  }

  method SerializeErrorInfo(e: ErrorInfo) returns (data: seq<byte>)
    requires |e.message| < 0x1_0000_0000_0000_0000 && |e.category| < 0x1_0000_0000_0000_0000
    requires |e.context| < 0x1_0000_0000_0000_0000
    ensures data == EncodeFields(ErrorFields(e))
  {
    hide EncodeFields, OptionalText;
    NoFields();
    ghost var n1 := [NumberField(1, e.code)];
    assert [] + n1 == n1;
    data := WriteNumber([], 1, e.code, []);
    data := WriteOptionalText(data, 2, e.message, n1);
    data := WriteOptionalText(data, 3, e.category, n1 + OptionalText(2, e.message));
    data := WriteOptionalText(data, 4, e.context, n1 + OptionalText(2, e.message) + OptionalText(3, e.category));
  }

  lemma NoFields()
    ensures EncodeFields([]) == []
  {
  }

  // ---------------------------------------------------------------------------------------------
  // The decoders
  // ---------------------------------------------------------------------------------------------

  // `address` is where the record begins; every check adds to it in 64 bits.

  /** The end of `length` bytes at `start`, as far as the check lets them through. */
  method Require(data: seq<byte>, address: nat, start: nat, length: uint64) returns (r: Passage<nat>)
    requires start <= |data| && address + |data| < ADDRESSES
    ensures r == if Wraps(address + start, length) then Astray
                 else if start + length <= |data| then Arrived(start + length) else Refused
  {
    AddressCheckIsRight(address + start, length, address + |data|);
    if (address + start + length) % ADDRESSES > address + |data| {
      return Refused;
    }
    return if start + length > |data| then Astray else Arrived(start + length);
  }

  /** A text at `ptr` and the bytes it takes. */
  method ReadTextAt(data: seq<byte>, address: nat, ptr: nat) returns (r: Passage<(seq<byte>, nat)>)
    requires ptr <= |data| && address + |data| < USER
    ensures r == Meant(ReadText(data[ptr..]))
  {
    hide Varint.Read;
    var n := Varint.ReadAt(data, ptr);
    if n.None? {
      return Refused;
    }
    var start := ptr + n.value.length;
    var end := Require(data, address, start, n.value.value);
    match end {
      case Refused => return Refused;
      case Astray =>
        LengthIsUnstorable(address + start, n.value.value);
        return Refused;
      case Arrived(e) =>
        assert data[start..e] == data[ptr..][n.value.length..e - ptr];
        return Arrived((data[start..e], e - ptr));
    }
  }

  /** Sixteen bytes at `ptr`; any other length is refused before it is added. */
  method ReadIdentifierAt(data: seq<byte>, address: nat, ptr: nat) returns (r: Passage<(seq<byte>, nat)>)
    requires ptr <= |data| && address + |data| < USER
    ensures var t := ReadText(data[ptr..]);
            r == if t.None? || |t.value.0| != 16 then Refused else Arrived(t.value)
  {
    hide Varint.Read;
    var n := Varint.ReadAt(data, ptr);
    if n.None? || n.value.value != 16 {
      return Refused;
    }
    r := ReadTextAt(data, address, ptr);
  }

  /** Skip the value of an unknown field: the bytes it takes. */
  method SkipAt(data: seq<byte>, address: nat, ptr: nat, wire: nat, ghost number: nat) returns (r: Passage<nat>)
    requires ptr <= |data| && address + |data| < USER
    ensures var body := ReadBody(Unknown, number, wire, data[ptr..]);
            r == if BodyStrays(Unknown, wire, address + ptr, data[ptr..]) then Astray
                 else if body.None? then Refused else Arrived(body.value.length)
    ensures r.Arrived? ==> ReadBody(Unknown, number, wire, data[ptr..]).value.field == Ignored
  {
    hide Varint.Read;
    if wire == VARINT {
      var v := Varint.ReadAt(data, ptr);
      return if v.None? then Refused else Arrived(v.value.length);
    } else if wire == LENGTH_DELIMITED {
      var n := Varint.ReadAt(data, ptr);
      if n.None? {
        return Refused;
      }
      var end := Require(data, address, ptr + n.value.length, n.value.value);
      return if end.Astray? then Astray else if end.Refused? then Refused else Arrived(end.value - ptr);
    } else {
      return Refused;
    }
  }

  /** A field is its tag and its body. */
  lemma FieldAt(schema: Schema, data: seq<byte>, address: nat, ptr: nat)
    requires ptr < |data| && address + |data| < USER
    ensures var tag := Varint.Read(data[ptr..]);
      ReadField(schema, data[ptr..]) ==
      if tag.None? then None
      else
        var number, after := NumberOf(tag.value.value), ptr + tag.value.length;
        var body := ReadBody(schema.KindOf(number), number, tag.value.value % 8, data[after..]);
        if body.None? then None else Some(FieldReading(body.value.field, tag.value.length + body.value.length))
    ensures var tag := Varint.Read(data[ptr..]);
      FieldStrays(schema, address + ptr, data[ptr..]) ==
        (tag.Some? &&
         var after := ptr + tag.value.length;
         BodyStrays(schema.KindOf(NumberOf(tag.value.value)), tag.value.value % 8, address + after, data[after..]))
    ensures FieldStrays(schema, address + ptr, data[ptr..]) ==> ReadField(schema, data[ptr..]).None?
  {
    hide Varint.Read, ReadBody, BodyStrays;
    var tag := Varint.Read(data[ptr..]);
    if tag.Some? {
      var number, after := NumberOf(tag.value.value), ptr + tag.value.length;
      assert data[ptr..][tag.value.length..] == data[after..];
      if BodyStrays(schema.KindOf(number), tag.value.value % 8, address + after, data[after..]) {
        StrayBodyIsTooLong(schema.KindOf(number), number, tag.value.value % 8, address + after, data[after..]);
      }
    }
  }

  /** Where a decoder stands: what is left decodes, or leads astray, as the whole does. */
  lemma StepOn(schema: Schema, data: seq<byte>, address: nat, ptr: nat)
    requires ptr < |data| && address + |data| < USER
    ensures var f := ReadField(schema, data[ptr..]);
            && (f.Some? ==> f.value.length <= |data| - ptr)
            && Strays(schema, address + ptr, data[ptr..]) ==
                 if f.Some? then Strays(schema, address + ptr + f.value.length, data[ptr + f.value.length..])
                 else FieldStrays(schema, address + ptr, data[ptr..])
  {
    hide ReadField, FieldStrays, Strays;
    StraysNext(schema, address + ptr, data[ptr..]);
    var f := ReadField(schema, data[ptr..]);
    if f.Some? {
      assert data[ptr..][f.value.length..] == data[ptr + f.value.length..];
    }
  }

  method DeserializeHeader(data: seq<byte>, address: nat, into: Header) returns (r: Passage<Header>)
    requires address + |data| < USER
    ensures r == if Strays(HeaderSchema, address, data) then Astray else Meant(DecodeHeader(data, into))
  {
    hide Varint.Read, ReadText, ReadField, Decode, NumberOf, Strays, FieldStrays, LengthWraps;
    var ptr, h := 0, into;
    assert data[0..] == data;
    while ptr < |data|
      invariant ptr <= |data|
      invariant DecodeHeader(data, into) == DecodeHeader(data[ptr..], h)
      invariant Strays(HeaderSchema, address, data) == Strays(HeaderSchema, address + ptr, data[ptr..])
    {
      ghost var s := data[ptr..];
      DecodeNext(HeaderSchema, s, h, PutHeader);
      StepOn(HeaderSchema, data, address, ptr);
      FieldAt(HeaderSchema, data, address, ptr);
      var tag := Varint.ReadAt(data, ptr);
      if tag.None? {
        return Refused;
      }
      var number, wire := NumberOf(tag.value.value), tag.value.value % 8;
      var body := ptr + tag.value.length;
      var length: nat;
      if number == 1 || number == 2 {
        var t := ReadIdentifierAt(data, address, body);
        if !t.Arrived? {
          return Refused;
        }
        h := if number == 1 then h.(messageId := t.value.0) else h.(correlationId := t.value.0);
        length := t.value.1;
      } else if 3 <= number <= 10 {
        var v := Varint.ReadAt(data, body);
        if v.None? {
          return Refused;
        }
        var value := v.value.value;
        match number {
        case 3 => h := h.(timestamp := value);
        case 4 => h := h.(messageType := value % 0x100);
        case 5 => h := h.(priority := value % 0x100);
        case 6 => h := h.(format := value % 0x100);
        case 7 => h := h.(version := value % 0x100);
        case 8 => h := h.(flags := value % 0x1_0000_0000);
        case 9 => h := h.(payloadSize := value % 0x1_0000_0000);
        case _ => h := h.(checksum := value % 0x1_0000_0000);
        }
        length := v.value.length;
      } else {
        var skipped := SkipAt(data, address, body, wire, number);
        if !skipped.Arrived? {
          return if skipped.Astray? then Astray else Refused;
        }
        length := skipped.value;
      }
      assert s[tag.value.length + length..] == data[body + length..];
      ptr := body + length;
    }
    StraysNext(HeaderSchema, address + ptr, data[ptr..]);
    DecodeNext(HeaderSchema, data[ptr..], h, PutHeader);
    return Arrived(h);
  }

  method DeserializeMetadata(data: seq<byte>, address: nat, into: Metadata) returns (r: Passage<Metadata>)
    requires address + |data| < USER
    ensures r == if Strays(MetadataSchema, address, data) then Astray else Meant(DecodeMetadata(data, into))
  {
    hide Varint.Read, ReadText, ReadField, Decode, NumberOf, Strays, FieldStrays, LengthWraps;
    var ptr, m := 0, into;
    assert data[0..] == data;
    while ptr < |data|
      invariant ptr <= |data|
      invariant DecodeMetadata(data, into) == DecodeMetadata(data[ptr..], m)
      invariant Strays(MetadataSchema, address, data) == Strays(MetadataSchema, address + ptr, data[ptr..])
    {
      ghost var s := data[ptr..];
      DecodeNext(MetadataSchema, s, m, PutMetadata);
      StepOn(MetadataSchema, data, address, ptr);
      FieldAt(MetadataSchema, data, address, ptr);
      var tag := Varint.ReadAt(data, ptr);
      if tag.None? {
        return Refused;
      }
      var number, wire := NumberOf(tag.value.value), tag.value.value % 8;
      var body := ptr + tag.value.length;
      var length: nat;
      if 1 <= number <= 4 {
        var t := ReadTextAt(data, address, body);
        if !t.Arrived? {
          return Refused;
        }
        var text := t.value.0;
        match number {
        case 1 => m := m.(source := text);
        case 2 => m := m.(destination := text);
        case 3 => m := m.(subject := text);
        case _ => m := m.(contentType := text);
        }
        length := t.value.1;
      } else if 5 <= number <= 7 {
        var v := Varint.ReadAt(data, body);
        if v.None? {
          return Refused;
        }
        var value := v.value.value;
        match number {
        case 5 => m := m.(expiration := value);
        case 6 => m := m.(retryCount := value % 0x1_0000_0000);
        case _ => m := m.(maxRetries := value % 0x1_0000_0000);
        }
        length := v.value.length;
      } else {
        var skipped := SkipAt(data, address, body, wire, number);
        if !skipped.Arrived? {
          return if skipped.Astray? then Astray else Refused;
        }
        length := skipped.value;
      }
      assert s[tag.value.length + length..] == data[body + length..];
      ptr := body + length;
    }
    StraysNext(MetadataSchema, address + ptr, data[ptr..]);
    DecodeNext(MetadataSchema, data[ptr..], m, PutMetadata);
    return Arrived(m);
  }

  method DeserializeErrorInfo(data: seq<byte>, address: nat, into: ErrorInfo) returns (r: Passage<ErrorInfo>)
    requires address + |data| < USER
    ensures r == if Strays(ErrorSchema, address, data) then Astray else Meant(DecodeError(data, into))
  {
    hide Varint.Read, ReadText, ReadField, Decode, NumberOf, Strays, FieldStrays, LengthWraps;
    var ptr, e := 0, into;
    assert data[0..] == data;
    while ptr < |data|
      invariant ptr <= |data|
      invariant DecodeError(data, into) == DecodeError(data[ptr..], e)
      invariant Strays(ErrorSchema, address, data) == Strays(ErrorSchema, address + ptr, data[ptr..])
    {
      ghost var s := data[ptr..];
      DecodeNext(ErrorSchema, s, e, PutError);
      StepOn(ErrorSchema, data, address, ptr);
      FieldAt(ErrorSchema, data, address, ptr);
      var tag := Varint.ReadAt(data, ptr);
      if tag.None? {
        return Refused;
      }
      var number, wire := NumberOf(tag.value.value), tag.value.value % 8;
      var body := ptr + tag.value.length;
      var length: nat;
      if number == 1 {
        var v := Varint.ReadAt(data, body);
        if v.None? {
          return Refused;
        }
        e := e.(code := v.value.value % 0x1_0000_0000);
        length := v.value.length;
      } else if 2 <= number <= 4 {
        var t := ReadTextAt(data, address, body);
        if !t.Arrived? {
          return Refused;
        }
        var text := t.value.0;
        match number {
        case 2 => e := e.(message := text);
        case 3 => e := e.(category := text);
        case _ => e := e.(context := text);
        }
        length := t.value.1;
      } else {
        var skipped := SkipAt(data, address, body, wire, number);
        if !skipped.Arrived? {
          return if skipped.Astray? then Astray else Refused;
        }
        length := skipped.value;
      }
      assert s[tag.value.length + length..] == data[body + length..];
      ptr := body + length;
    }
    StraysNext(ErrorSchema, address + ptr, data[ptr..]);
    DecodeNext(ErrorSchema, data[ptr..], e, PutError);
    return Arrived(e);
  }
}
