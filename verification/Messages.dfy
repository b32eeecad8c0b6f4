/** Messages and their checksums (workspace/src/framework/impl/ipc/message.cpp,
    workspace/src/framework/include/ipc/message_types.h). */
module Messages {
  import opened Bytes
  import opened Octets
  import Crc32

  const RESPONSE: byte := 0x02
  const ERROR: byte := 0x04
  const UNKNOWN: byte := 0xFF
  const NORMAL_PRIORITY: byte := 1
  const BINARY_FORMAT: byte := 0x01
  const PROTOCOL_VERSION: byte := 0x01

  const HEADER_SIZE: nat := 56
  const MAX_PAYLOAD_SIZE: nat := 16 * 1024 * 1024 - HEADER_SIZE

  const ZERO_ID: seq<byte> := [0, 0, 0, 0, 0, 0, 0, 0, 0, 0, 0, 0, 0, 0, 0, 0]

  type Id = id: seq<byte> | |id| == 16 witness ZERO_ID

  /** The enumerations are bytes: a cast accepts any value of their one-byte type. */
  datatype Header = Header(
    messageId: Id, correlationId: Id, timestamp: uint64,
    messageType: byte, priority: byte, format: byte, version: byte,
    flags: uint32, payloadSize: uint32, checksum: uint32)

  /** `expiration` counts microseconds since the epoch, as both codecs write it. */
  datatype Metadata = Metadata(
    source: seq<byte>, destination: seq<byte>, subject: seq<byte>, contentType: seq<byte>,
    expiration: uint64, retryCount: uint32, maxRetries: uint32)

  datatype ErrorInfo = ErrorInfo(code: uint32, message: seq<byte>, category: seq<byte>, context: seq<byte>)

  datatype Contents = Contents(header: Header, metadata: Metadata, payload: seq<byte>, errorInfo: ErrorInfo)
  {
    predicate IsError() {
      header.messageType == ERROR
    }
  }

  const DEFAULT_HEADER: Header :=
    Header(ZERO_ID, ZERO_ID, 0, UNKNOWN, NORMAL_PRIORITY, BINARY_FORMAT, PROTOCOL_VERSION, 0, 0, 0)

  const DEFAULT_METADATA: Metadata := Metadata([], [], [], [], 0, 0, 3)

  const DEFAULT_ERROR_INFO: ErrorInfo := ErrorInfo(0, [], [], [])

  predicate ValidHeader(h: Header) {
    h.version == PROTOCOL_VERSION && h.payloadSize <= MAX_PAYLOAD_SIZE && h.messageType != UNKNOWN
  }

  // ---------------------------------------------------------------------------------------------
  // Checksums
  // ---------------------------------------------------------------------------------------------

  function Register(r: bv32): uint32 {
    r as int
  }

  /** The checksum a message with this payload should carry. */
  function ChecksumOf(payload: seq<byte>): uint32 {
    if payload == [] then 0 else Register(Crc32.Crc(OctetsOf(payload)))
  }

  /** The checksum of the digits 1 to 9. */
  lemma ChecksumCheckValue()
    ensures ChecksumOf([0x31, 0x32, 0x33, 0x34, 0x35, 0x36, 0x37, 0x38, 0x39]) == 0xCBF4_3926
    ensures ChecksumOf([]) == 0
  {
    hide Octet, Crc32.Crc;
    var digits: seq<byte> := [0x31, 0x32, 0x33, 0x34, 0x35, 0x36, 0x37, 0x38, 0x39];
    forall i | 0 <= i < 9
      ensures OctetsOf(digits)[i] == Crc32.CHECK_INPUT[i]
    {
      OctetIsTheByte(digits[i]);
    }
    assert OctetsOf(digits) == Crc32.CHECK_INPUT;
    Crc32.CheckValue();
  }

  lemma RegisterRoundTrip(r: bv32)
    ensures Register(r) as bv32 == r
  {
  }

  lemma OctetsDifferWithin(s: seq<byte>, t: seq<byte>, i: nat, k: nat)
    requires Crc32.DifferWithin(s, t, i, k)
    ensures Crc32.DifferWithin(OctetsOf(s), OctetsOf(t), i, k)
  {
    hide Octet;
    forall x | 0 <= x < |s| && (x < i || i + k <= x)
      ensures s[x] == t[x]
    {
      assert x < i ==> s[..i][x] == t[..i][x];
      assert i + k <= x ==> s[i + k..][x - (i + k)] == t[i + k..][x - (i + k)];
    }
    assert OctetsOf(s)[..i] == OctetsOf(t)[..i];
    assert OctetsOf(s)[i + k..] == OctetsOf(t)[i + k..];
  }

  /** A received payload that differs from the sent one within four consecutive bytes has another
      checksum, so the check lets it through only if it is the sent one. */
  lemma CorruptionIsDetected(sent: seq<byte>, received: seq<byte>, i: nat, k: nat)
    requires k <= 4 && Crc32.DifferWithin(sent, received, i, k)
    ensures ChecksumOf(received) == ChecksumOf(sent) <==> received == sent
  {
    hide Crc32.Crc, OctetsOf, Register;
    if sent != [] && ChecksumOf(received) == ChecksumOf(sent) {
      RegisterRoundTrip(Crc32.Crc(OctetsOf(sent)));
      RegisterRoundTrip(Crc32.Crc(OctetsOf(received)));
      OctetsDifferWithin(sent, received, i, k);
      Crc32.BurstIsDetected(OctetsOf(sent), OctetsOf(received), i, k);
      OctetsAreInjective(sent, received);
    }
  }

  method ComputeChecksum(payload: seq<byte>) returns (checksum: uint32)
    ensures checksum == ChecksumOf(payload)
  {
    if payload == [] {
      return 0;
    }
    var crc := Crc32.ComputeCrc32(OctetsOf(payload));
    checksum := Register(crc);
  }

  // ---------------------------------------------------------------------------------------------
  // The message object
  // ---------------------------------------------------------------------------------------------

  class Message {
    var header: Header
    var metadata: Metadata
    var payload: seq<byte>
    var errorInfo: ErrorInfo

    function Current(): Contents
      reads this
    {
      Contents(header, metadata, payload, errorInfo)
    }

    /** `id` stands for the random identifier, `now` for the clock. */
    constructor (messageType: byte, id: Id, now: uint64)
      ensures Current() == Contents(
        DEFAULT_HEADER.(messageType := messageType, messageId := id, timestamp := now), DEFAULT_METADATA, [], DEFAULT_ERROR_INFO)
    {
      header := DEFAULT_HEADER.(messageType := messageType, messageId := id, timestamp := now);
      metadata, payload, errorInfo := DEFAULT_METADATA, [], DEFAULT_ERROR_INFO;
    }

    method SetPayload(data: seq<byte>) returns (accepted: bool)
      modifies this
      ensures accepted <==> |data| <= MAX_PAYLOAD_SIZE
      ensures Current() == if accepted then old(Current()).(payload := data, header := old(header).(payloadSize := |data|))
                           else old(Current())
    {
      if |data| > MAX_PAYLOAD_SIZE {
        return false;
      }
      payload := data;
      header := header.(payloadSize := |data|);
      return true;
    }

    method UpdateChecksum()
      modifies this
      ensures Current() == old(Current()).(header := old(header).(checksum := ChecksumOf(old(payload))))
    {
      var checksum := ComputeChecksum(payload);
      header := header.(checksum := checksum);
    }

    method VerifyChecksum() returns (intact: bool)
      ensures intact <==> header.checksum == ChecksumOf(payload)
    {
      var checksum := ComputeChecksum(payload);
      intact := checksum == header.checksum;
    }

    method Validate() returns (valid: bool)
      ensures valid <==> && header.version == PROTOCOL_VERSION && header.messageType != UNKNOWN
                         && header.payloadSize == |payload| <= MAX_PAYLOAD_SIZE
                         && (payload == [] || header.checksum == 0 || header.checksum == ChecksumOf(payload))
    {
      if !ValidHeader(header) || header.payloadSize != |payload| {
        return false;
      }
      if payload != [] && header.checksum != 0 {
        var checksum := ComputeChecksum(payload);
        return checksum == header.checksum;
      }
      return true;
    }

    /** The response correlates with this message and goes back the way it came. */
    method CreateResponse(id: Id, now: uint64) returns (response: Message)
      ensures fresh(response)
      ensures response.header.messageType == RESPONSE && response.header.correlationId == header.messageId
      ensures response.metadata.source == metadata.destination && response.metadata.destination == metadata.source
      ensures response.metadata.subject == metadata.subject && response.payload == []
    {
      response := new Message(RESPONSE, id, now);
      response.header := response.header.(correlationId := header.messageId);
      response.metadata := response.metadata.(
        destination := metadata.source, source := metadata.destination, subject := metadata.subject);
    }
  }
}
