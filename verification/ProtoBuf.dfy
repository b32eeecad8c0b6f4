/** Records in the Protocol Buffers wire format
    (workspace/src/framework/impl/ipc/protobuf_serializer.cpp): header, metadata and error info.

    A record is a run of fields.  A decoder reads fields one by one, stores those whose number it
    knows and skips those it does not; the encoders write the known ones in order.  */
module ProtoBuf {
  import opened Bytes
  import opened Wrappers
  import opened Messages
  import Varint

  const VARINT: nat := 0
  const LENGTH_DELIMITED: nat := 2

  /** What the decoder of a record does with a field number. */
  datatype Kind = Number | Text | Identifier | Unknown

  datatype Schema = HeaderSchema | MetadataSchema | ErrorSchema
  {
    function KindOf(number: nat): Kind {
      match this
      case HeaderSchema => if number == 1 || number == 2 then Identifier else if 3 <= number <= 10 then Number else Unknown
      case MetadataSchema => if 1 <= number <= 4 then Text else if 5 <= number <= 7 then Number else Unknown
      case ErrorSchema => if number == 1 then Number else if 2 <= number <= 4 then Text else Unknown
    }
  }

  datatype Field =
    | NumberField(number: nat, value: uint64)
    | TextField(number: nat, text: seq<byte>)
    | Ignored

  datatype FieldReading = FieldReading(field: Field, length: nat)

  // ---------------------------------------------------------------------------------------------
  // Reading fields
  // ---------------------------------------------------------------------------------------------

  /** A length and that many bytes. */
  function ReadText(s: seq<byte>): (r: Option<(seq<byte>, nat)>)
    ensures r.Some? ==> 1 <= r.value.1 <= |s|
  {
    var n := Varint.Read(s);
    if n.None? || n.value.length + n.value.value > |s| then None
    else
      var end := n.value.length + n.value.value;
      Some((s[n.value.length..end], end))
  }

  /** What follows the tag of a field. */
  function ReadBody(kind: Kind, number: nat, wire: nat, s: seq<byte>): (r: Option<FieldReading>)
    ensures r.Some? ==> 1 <= r.value.length <= |s|
  {
    match kind
    case Number =>
      var v := Varint.Read(s);
      if v.None? then None else Some(FieldReading(NumberField(number, v.value.value), v.value.length))
    case Text =>
      var t := ReadText(s);
      if t.None? then None else Some(FieldReading(TextField(number, t.value.0), t.value.1))
    case Identifier =>
      var t := ReadText(s);
      if t.None? || |t.value.0| != 16 then None else Some(FieldReading(TextField(number, t.value.0), t.value.1))
    case Unknown =>
      if wire == VARINT then
        var v := Varint.Read(s);
        if v.None? then None else Some(FieldReading(Ignored, v.value.length))
      else if wire == LENGTH_DELIMITED then
        var t := ReadText(s);
        if t.None? then None else Some(FieldReading(Ignored, t.value.1))
      else None
  }

  /** The field number of a tag: what is left of the wire type, cut to 32 bits. */
  function NumberOf(tag: uint64): uint32 {
    tag / 8 % 0x1_0000_0000
  }

  function ReadField(schema: Schema, s: seq<byte>): (r: Option<FieldReading>)
    ensures r.Some? ==> 1 <= r.value.length <= |s|
  {
    var tag := Varint.Read(s);
    if tag.None? then None
    else
      var number, n := NumberOf(tag.value.value), tag.value.length;
      var body := ReadBody(schema.KindOf(number), number, tag.value.value % 8, s[n..]);
      if body.None? then None else Some(FieldReading(body.value.field, n + body.value.length))
  }

  function ReadFields(schema: Schema, s: seq<byte>): Option<seq<Field>>
    decreases |s|
  {
    if s == [] then Some([])
    else
      var f := ReadField(schema, s);
      if f.None? then None
      else
        var rest := ReadFields(schema, s[f.value.length..]);
        if rest.None? then None else Some([f.value.field] + rest.value)
  }

  // ---------------------------------------------------------------------------------------------
  // Bounds checks on addresses
  // ---------------------------------------------------------------------------------------------

  /** A decoder reads a record at some address and checks `ptr + length > end` in 64 bits.  A length that
      makes the sum wrap round passes.  A field to be skipped then takes the decoder to an earlier address,
      which the language leaves undefined: it goes astray.  A text is refused after all, see
      LengthIsUnstorable. */
  const ADDRESSES: nat := 0x1_0000_0000_0000_0000

  /** The addresses of a program's own memory are in the lower half, and so is the size of any object. */
  const USER: nat := 0x8000_0000_0000_0000

  function Meant<T>(r: Option<T>): Passage<T> {
    if r.None? then Refused else Arrived(r.value)
  }

  predicate Wraps(ptr: nat, length: nat) {
    ptr + length >= ADDRESSES
  }

  /** The check lets `length` bytes at `ptr` through. */
  predicate LetThrough(ptr: nat, length: nat, end: nat) {
    (ptr + length) % ADDRESSES <= end
  }

  /** The check is right exactly when the sum does not wrap round; then it always passes, and takes the
      decoder back to where it has been before, or in front of that. */
  lemma AddressCheckIsRight(ptr: nat, length: uint64, end: nat)
    requires ptr <= end < ADDRESSES
    ensures (LetThrough(ptr, length, end) <==> ptr + length <= end) <==> !Wraps(ptr, length)
    ensures Wraps(ptr, length) ==> LetThrough(ptr, length, end) && (ptr + length) % ADDRESSES < ptr
  {
    if Wraps(ptr, length) {
      assert (ptr + length) % ADDRESSES == ptr + length - ADDRESSES;
    } else {
      assert (ptr + length) % ADDRESSES == ptr + length;
    }
  }

  /** A length that wraps round is more than a string or vector can hold, so assigning that many bytes to
      one throws, which fails the decoding. */
  lemma LengthIsUnstorable(ptr: nat, length: uint64)
    requires ptr < USER && Wraps(ptr, length)
    ensures length > USER
  {
  }

  predicate LengthWraps(ptr: nat, s: seq<byte>) {
    var n := Varint.Read(s);
    n.Some? && Wraps(ptr + n.value.length, n.value.value)
  }

  /** Only the length of a skipped field leads astray; an identifier's is compared with 16 before it is
      added. */
  predicate BodyStrays(kind: Kind, wire: nat, ptr: nat, s: seq<byte>) {
    kind == Unknown && wire == LENGTH_DELIMITED && LengthWraps(ptr, s)
  }

  predicate FieldStrays(schema: Schema, ptr: nat, s: seq<byte>) {
    var tag := Varint.Read(s);
    tag.Some? && BodyStrays(schema.KindOf(NumberOf(tag.value.value)), tag.value.value % 8,
                            ptr + tag.value.length, s[tag.value.length..])
  }

  /** The decoder of a record at address `ptr` comes to a length that makes the sum wrap round. */
  predicate Strays(schema: Schema, ptr: nat, s: seq<byte>)
    decreases |s|
  {
    s != [] &&
    var f := ReadField(schema, s);
    if f.Some? then Strays(schema, ptr + f.value.length, s[f.value.length..]) else FieldStrays(schema, ptr, s)
  }

  lemma WrappingLengthIsTooLong(ptr: nat, s: seq<byte>)
    requires ptr + |s| < ADDRESSES && LengthWraps(ptr, s)
    ensures ReadText(s).None?
  {
    hide Varint.Read;
  }

  lemma StrayBodyIsTooLong(kind: Kind, number: nat, wire: nat, ptr: nat, s: seq<byte>)
    requires ptr + |s| < ADDRESSES && BodyStrays(kind, wire, ptr, s)
    ensures ReadBody(kind, number, wire, s).None?
  {
    hide Varint.Read;
    if LengthWraps(ptr, s) {
      WrappingLengthIsTooLong(ptr, s);
    }
  }

  /** Only records that are not well formed can lead their decoder astray. */
  lemma {:induction false} WellFormedRecordsDoNotStray(schema: Schema, ptr: nat, s: seq<byte>)
    requires ptr + |s| < ADDRESSES && ReadFields(schema, s).Some?
    ensures !Strays(schema, ptr, s)
    decreases |s|
  {
    hide ReadField;
    if s != [] {
      var f := ReadField(schema, s).value;
      WellFormedRecordsDoNotStray(schema, ptr + f.length, s[f.length..]);
    }
  }

  // ---------------------------------------------------------------------------------------------
  // Writing fields
  // ---------------------------------------------------------------------------------------------

  function Tag(number: nat, wire: nat): seq<byte> {
    Varint.Encode(number * 8 + wire)
  }

  function EncodeNumber(number: nat, value: uint64): seq<byte> {
    Tag(number, VARINT) + Varint.Encode(value)
  }

  function EncodeText(number: nat, text: seq<byte>): seq<byte> {
    Tag(number, LENGTH_DELIMITED) + (Varint.Encode(|text|) + text)
  }

  function EncodeField(f: Field): seq<byte> {
    match f
    case NumberField(number, value) => EncodeNumber(number, value)
    case TextField(number, text) => EncodeText(number, text)
    case Ignored => []
  }

  function EncodeFields(fields: seq<Field>): seq<byte> {
    if fields == [] then [] else EncodeField(fields[0]) + EncodeFields(fields[1..])
  }

  /** A field of the record, with the kind of value that the record has there. */
  predicate Fits(schema: Schema, f: Field) {
    match f
    case NumberField(number, _) => schema.KindOf(number) == Number
    case TextField(number, text) =>
      && |text| < 0x1_0000_0000_0000_0000
      && (schema.KindOf(number) == Text || (schema.KindOf(number) == Identifier && |text| == 16))
    case Ignored => false
  }

  /** A field that no decoder of the record knows, as some later version may write it. */
  datatype UnknownField = UnknownNumber(number: nat, value: uint64) | UnknownText(number: nat, text: seq<byte>)

  predicate WellFormedUnknown(schema: Schema, u: UnknownField) {
    && u.number < 0x1_0000_0000 && schema.KindOf(u.number) == Unknown
    && (u.UnknownText? ==> |u.text| < 0x1_0000_0000_0000_0000)
  }

  function EncodeUnknown(u: UnknownField): seq<byte> {
    match u
    case UnknownNumber(number, value) => EncodeNumber(number, value)
    case UnknownText(number, text) => EncodeText(number, text)
  }

  // ---------------------------------------------------------------------------------------------
  // Fields round trip
  // ---------------------------------------------------------------------------------------------

  lemma ReadTag(number: nat, wire: nat, rest: seq<byte>)
    requires number < 0x1_0000_0000 && wire < 8
    ensures var tag := Varint.Read(Tag(number, wire) + rest);
            && tag.Some? && tag.value.length == |Tag(number, wire)|
            && NumberOf(tag.value.value) == number && tag.value.value % 8 == wire
    ensures (Tag(number, wire) + rest)[|Tag(number, wire)|..] == rest
  {
    Varint.ReadEncoded(number * 8 + wire, rest);
  }

  lemma ReadEncodedText(text: seq<byte>, rest: seq<byte>)
    requires |text| < 0x1_0000_0000_0000_0000
    ensures ReadText((Varint.Encode(|text|) + text) + rest) == Some((text, |Varint.Encode(|text|) + text|))
  {
    var e := Varint.Encode(|text|);
    assert (e + text) + rest == e + (text + rest);
    Varint.ReadEncoded(|text|, text + rest);
    assert ((e + text) + rest)[|e|..|e| + |text|] == text;
  }

  lemma ReadEncodedField(schema: Schema, f: Field, rest: seq<byte>)
    requires Fits(schema, f)
    ensures ReadField(schema, EncodeField(f) + rest) == Some(FieldReading(f, |EncodeField(f)|))
  {
    hide Varint.Encode, Varint.Read, ReadText, NumberOf, Tag;
    match f
    case NumberField(number, value) =>
      var body := Varint.Encode(value);
      assert (Tag(number, VARINT) + body) + rest == Tag(number, VARINT) + (body + rest);
      ReadTag(number, VARINT, body + rest);
      Varint.ReadEncoded(value, rest);
    case TextField(number, text) =>
      var body := Varint.Encode(|text|) + text;
      assert (Tag(number, LENGTH_DELIMITED) + body) + rest == Tag(number, LENGTH_DELIMITED) + (body + rest);
      ReadTag(number, LENGTH_DELIMITED, body + rest);
      ReadEncodedText(text, rest);
  }

  lemma ReadEncodedUnknown(schema: Schema, u: UnknownField, rest: seq<byte>)
    requires WellFormedUnknown(schema, u)
    ensures ReadField(schema, EncodeUnknown(u) + rest) == Some(FieldReading(Ignored, |EncodeUnknown(u)|))
  {
    hide Varint.Encode, Varint.Read, ReadText, NumberOf, Tag;
    match u
    case UnknownNumber(number, value) =>
      var body := Varint.Encode(value);
      assert (Tag(number, VARINT) + body) + rest == Tag(number, VARINT) + (body + rest);
      ReadTag(number, VARINT, body + rest);
      Varint.ReadEncoded(value, rest);
    case UnknownText(number, text) =>
      var body := Varint.Encode(|text|) + text;
      assert (Tag(number, LENGTH_DELIMITED) + body) + rest == Tag(number, LENGTH_DELIMITED) + (body + rest);
      ReadTag(number, LENGTH_DELIMITED, body + rest);
      ReadEncodedText(text, rest);
  }

  /** A run of encoded fields is read back, and then whatever follows. */
  lemma {:induction false} ReadEncodedFields(schema: Schema, fields: seq<Field>, rest: seq<byte>)
    requires forall f :: f in fields ==> Fits(schema, f)
    requires ReadFields(schema, rest).Some?
    ensures ReadFields(schema, EncodeFields(fields) + rest) == Some(fields + ReadFields(schema, rest).value)
    decreases |fields|
  {
    hide EncodeField, ReadField, Fits;
    if fields == [] {
      assert EncodeFields(fields) + rest == rest;
      assert fields + ReadFields(schema, rest).value == ReadFields(schema, rest).value;
    } else {
      var first, others := EncodeField(fields[0]), EncodeFields(fields[1..]);
      ReadEncodedFields(schema, fields[1..], rest);
      assert EncodeFields(fields) + rest == first + (others + rest);
      ReadEncodedField(schema, fields[0], others + rest);
      assert (first + (others + rest))[|first|..] == others + rest;
      assert fields == [fields[0]] + fields[1..];
      assert [fields[0]] + (fields[1..] + ReadFields(schema, rest).value) == fields + ReadFields(schema, rest).value;
    }
  }

  // ---------------------------------------------------------------------------------------------
  // Field boundaries
  // ---------------------------------------------------------------------------------------------

  lemma ReadTextPrefix(s: seq<byte>, rest: seq<byte>)
    requires ReadText(s).Some?
    ensures ReadText(s + rest) == ReadText(s)
  {
    Varint.ReadPrefix(s, rest);
    var n := Varint.Read(s).value;
    assert (s + rest)[n.length..n.length + n.value] == s[n.length..n.length + n.value];
  }

  lemma ReadBodyPrefix(kind: Kind, number: nat, wire: nat, s: seq<byte>, rest: seq<byte>)
    requires ReadBody(kind, number, wire, s).Some?
    ensures ReadBody(kind, number, wire, s + rest) == ReadBody(kind, number, wire, s)
  {
    hide Varint.Read, ReadText;
    if kind == Number || (kind == Unknown && wire == VARINT) {
      Varint.ReadPrefix(s, rest);
    } else {
      ReadTextPrefix(s, rest);
    }
  }

  lemma ReadFieldPrefix(schema: Schema, s: seq<byte>, rest: seq<byte>)
    requires ReadField(schema, s).Some?
    ensures ReadField(schema, s + rest) == ReadField(schema, s)
  {
    hide Varint.Read, ReadBody;
    Varint.ReadPrefix(s, rest);
    var tag := Varint.Read(s).value;
    assert (s + rest)[tag.length..] == s[tag.length..] + rest;
    ReadBodyPrefix(schema.KindOf(NumberOf(tag.value)), NumberOf(tag.value), tag.value % 8, s[tag.length..], rest);
  }

  /** Reading goes on behind a complete run of fields as if it began there. */
  lemma {:induction false} ReadFieldsAppend(schema: Schema, s: seq<byte>, rest: seq<byte>)
    requires ReadFields(schema, s).Some?
    ensures ReadFields(schema, s + rest) ==
            if ReadFields(schema, rest).None? then None
            else Some(ReadFields(schema, s).value + ReadFields(schema, rest).value)
    decreases |s|
  {
    hide ReadField;
    if s == [] {
      assert s + rest == rest;
      assert ReadFields(schema, rest).Some? ==> [] + ReadFields(schema, rest).value == ReadFields(schema, rest).value;
    } else {
      var f := ReadField(schema, s).value;
      ReadFieldPrefix(schema, s, rest);
      ReadFieldsAppend(schema, s[f.length..], rest);
      assert (s + rest)[f.length..] == s[f.length..] + rest;
      if ReadFields(schema, rest).Some? {
        var tail, more := ReadFields(schema, s[f.length..]).value, ReadFields(schema, rest).value;
        assert [f.field] + (tail + more) == ([f.field] + tail) + more;
      }
    }
  }

  /** An unknown field at a boundary is one more ignored field there, or nothing decodes at all. */
  lemma {:induction false} UnknownFieldIsIgnored(schema: Schema, s: seq<byte>, u: UnknownField, rest: seq<byte>)
    requires ReadFields(schema, s).Some? && WellFormedUnknown(schema, u)
    ensures ReadFields(schema, s + EncodeUnknown(u) + rest) ==
            if ReadFields(schema, rest).None? then None
            else Some(ReadFields(schema, s).value + [Ignored] + ReadFields(schema, rest).value)
  {
    hide ReadField, EncodeUnknown;
    var e := EncodeUnknown(u);
    ReadEncodedUnknown(schema, u, rest);
    assert (e + rest)[|e|..] == rest;
    assert s + e + rest == s + (e + rest);
    ReadFieldsAppend(schema, s, e + rest);
    if ReadFields(schema, rest).Some? {
      var before, after := ReadFields(schema, s).value, ReadFields(schema, rest).value;
      assert ReadFields(schema, e + rest) == Some([Ignored] + after);
      assert before + ([Ignored] + after) == before + [Ignored] + after;
    }
  }

  lemma StraysNext(schema: Schema, ptr: nat, s: seq<byte>)
    ensures s == [] ==> !Strays(schema, ptr, s)
    ensures s != [] ==>
              var f := ReadField(schema, s);
              Strays(schema, ptr, s) == if f.Some? then Strays(schema, ptr + f.value.length, s[f.value.length..])
                                        else FieldStrays(schema, ptr, s)
  {
    hide ReadField, FieldStrays;
  }

  /** Behind a complete run of fields the decoder strays as it would if it began there. */
  lemma {:induction false} StraysBehind(schema: Schema, ptr: nat, s: seq<byte>, rest: seq<byte>)
    requires ReadFields(schema, s).Some?
    ensures Strays(schema, ptr, s + rest) == Strays(schema, ptr + |s|, rest)
    decreases |s|
  {
    hide ReadField, FieldStrays;
    if s == [] {
      assert s + rest == rest;
    } else {
      var f := ReadField(schema, s).value;
      ReadFieldPrefix(schema, s, rest);
      StraysBehind(schema, ptr + f.length, s[f.length..], rest);
      assert (s + rest)[f.length..] == s[f.length..] + rest;
    }
  }

  /** An unknown field at a boundary only moves what follows it to a later address. */
  lemma {:induction false} UnknownFieldMovesTheRest(schema: Schema, ptr: nat, s: seq<byte>, u: UnknownField, rest: seq<byte>)
    requires ReadFields(schema, s).Some? && WellFormedUnknown(schema, u)
    ensures Strays(schema, ptr, s + EncodeUnknown(u) + rest) == Strays(schema, ptr + |s| + |EncodeUnknown(u)|, rest)
  {
    hide ReadField, FieldStrays, EncodeUnknown;
    var e := EncodeUnknown(u);
    ReadEncodedUnknown(schema, u, []);
    assert e + [] == e;
    NoFieldsLeft(schema);
    UnknownFieldIsIgnored(schema, s, u, []);
    assert s + e + [] == s + e;
    StraysBehind(schema, ptr, s + e, rest);
  }

  lemma NoFieldsLeft(schema: Schema)
    ensures ReadFields(schema, []) == Some([])
  {
  }

  /** A text field no decoder knows, with a length of `length` whatever really follows. */
  function EncodeLength(number: nat, length: uint64): seq<byte> {
    Tag(number, LENGTH_DELIMITED) + Varint.Encode(length)
  }

  /** Such a field leads its decoder astray exactly when the length reaches the end of the addresses; any
      other length that is too long is refused. */
  lemma {:induction false} LongUnknownFieldStrays(schema: Schema, ptr: nat, number: nat, length: uint64, rest: seq<byte>)
    requires number < 0x1_0000_0000 && schema.KindOf(number) == Unknown
    requires ptr + |EncodeLength(number, length) + rest| < ADDRESSES && length > |rest|
    ensures ReadFields(schema, EncodeLength(number, length) + rest).None?
    ensures Strays(schema, ptr, EncodeLength(number, length) + rest) <==>
            Wraps(ptr + |EncodeLength(number, length)|, length)
  {
    hide Varint.Read, Varint.Encode, Strays, ReadFields;
    var tag, n := Tag(number, LENGTH_DELIMITED), Varint.Encode(length);
    var s := EncodeLength(number, length) + rest;
    assert s == tag + (n + rest);
    ReadTag(number, LENGTH_DELIMITED, n + rest);
    assert s[|tag|..] == n + rest;
    Varint.ReadEncoded(length, rest);
    StraysNext(schema, ptr, s);
    FirstFieldDecides(schema, s);
  }

  lemma FirstFieldDecides(schema: Schema, s: seq<byte>)
    ensures s != [] && ReadField(schema, s).None? ==> ReadFields(schema, s).None?
  {
    hide ReadField;
  }

  /** Field 11, of no known record, with a length of 2^64 - 11. */
  const GOES_ROUND: seq<byte> := [0x5A, 0xF5, 0xFF, 0xFF, 0xFF, 0xFF, 0xFF, 0xFF, 0xFF, 0xFF, 0x01]

  lemma LongLengthEncoded()
    ensures Varint.Encode(0xFFFF_FFFF_FFFF_FFF5) == GOES_ROUND[1..] && Tag(11, LENGTH_DELIMITED) == [0x5A]
  {
    var v0 := 0xFFFF_FFFF_FFFF_FFF5;
    var v1 := 0x1FF_FFFF_FFFF_FFFF;
    var v2 := 0x3_FFFF_FFFF_FFFF;
    var v3 := 0x7FF_FFFF_FFFF;
    var v4 := 0xF_FFFF_FFFF;
    var v5 := 0x1FFF_FFFF;
    var v6 := 0x3F_FFFF;
    var v7 := 0x7FFF;
    var v8 := 0xFF;
    assert Varint.Encode(1) == [0x01];
    assert Varint.Encode(v8) == [0xFF, 0x01];
    assert Varint.Encode(v7) == [0xFF] + Varint.Encode(v8);
    assert Varint.Encode(v6) == [0xFF] + Varint.Encode(v7);
    assert Varint.Encode(v5) == [0xFF] + Varint.Encode(v6);
    assert Varint.Encode(v4) == [0xFF] + Varint.Encode(v5);
    assert Varint.Encode(v3) == [0xFF] + Varint.Encode(v4);
    assert Varint.Encode(v2) == [0xFF] + Varint.Encode(v3);
    assert Varint.Encode(v1) == [0xFF] + Varint.Encode(v2);
    assert Varint.Encode(v0) == [0xF5] + Varint.Encode(v1);
  }

  /** Eleven bytes that lead every decoder astray at every address: back to where it began. */
  lemma ElevenBytesGoRound(schema: Schema, ptr: nat)
    requires ptr + 11 < ADDRESSES
    ensures Strays(schema, ptr, GOES_ROUND) && ReadFields(schema, GOES_ROUND).None?
    ensures (ptr + 11 + 0xFFFF_FFFF_FFFF_FFF5) % ADDRESSES == ptr
  {
    hide Varint.Encode, Strays, ReadFields;
    LongLengthEncoded();
    assert EncodeLength(11, 0xFFFF_FFFF_FFFF_FFF5) + [] == GOES_ROUND;
    LongUnknownFieldStrays(schema, ptr, 11, 0xFFFF_FFFF_FFFF_FFF5, []);
    assert (ptr + ADDRESSES) % ADDRESSES == ptr;
  }
}
