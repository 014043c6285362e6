/** The observable contract of the message codec (protobuf_encode_decoder.py):
    the records its decoders return, the dictionaries the server hands to its
    encoders, and the payloads those encoders produce. Bytes on the wire are
    represented by the structured Payload; the generated message classes
    (messages_pb2) are not part of this model. */
module Messages {

  datatype Option<T> = None | Some(value: T)

  /** The protobuf MessageType enum. */
  datatype MessageType = MessageTypeHeartbeat | MessageTypeStatus | MessageTypeError

  /** A value stored under the key "type": the decoders put an enum member
      there, while the server writes and compares plain text. */
  datatype TypeValue = Enum(tag: MessageType) | Text(name: string)

  const HeartbeatText: TypeValue := Text("heartbeat")
  const StatusText: TypeValue := Text("status")
  const AckText: string := "ACK"
  const IncorrectDecoderText: string := "incorrect decoder"

  /** What decode_heartbeat returns: the five heartbeat fields, or the error
      record {"type": MESSAGE_TYPE_ERROR, "msg": "incorrect decoder"}. */
  datatype HeartbeatDecode =
    | HeartbeatRecord(kind: TypeValue, msg: string, clientHost: string, clientPort: int, identifier: int)
    | HeartbeatDecodeError

  /** What decode_status returns: the three status fields, or the same error record. */
  datatype StatusDecode =
    | StatusRecord(kind: TypeValue, messageCount: int, identifier: int)
    | StatusDecodeError

  /** A heartbeat-shaped dictionary; None is an absent key, which `.get` reads as None. */
  datatype HeartbeatDict = HeartbeatDict(
    kind: Option<TypeValue>, msg: Option<string>,
    clientHost: Option<string>, clientPort: Option<int>, identifier: Option<int>)

  /** A status-shaped dictionary, as handed to encode_status. */
  datatype StatusDict = StatusDict(kind: Option<TypeValue>, messageCount: Option<int>, identifier: Option<int>)

  /** An encoded message: one of the two message kinds, or the ErrorMessage
      the encoders emit when a field cannot be assigned. */
  datatype Payload =
    | HeartbeatPayload(kind: TypeValue, msg: string, clientHost: string, identifier: int, clientPort: int)
    | StatusPayload(kind: TypeValue, identifier: int, messageCount: int)
    | ErrorPayload

  /** The value of `.get("type")` on a decoded heartbeat. */
  function TypeOf(d: HeartbeatDecode): TypeValue {
    match d
    case HeartbeatRecord(kind, _, _, _, _) => kind
    case HeartbeatDecodeError => Enum(MessageTypeError)
  }

  /** The dictionary decode_heartbeat returns, key by key. */
  function HeartbeatFields(d: HeartbeatDecode): HeartbeatDict {
    match d
    case HeartbeatRecord(kind, msg, host, port, id) => HeartbeatDict(Some(kind), Some(msg), Some(host), Some(port), Some(id))
    case HeartbeatDecodeError => HeartbeatDict(Some(Enum(MessageTypeError)), Some(IncorrectDecoderText), None, None, None)
  }

  /** `.get("message_count", 0)` on a decoded status reply. */
  function MessageCountOrZero(d: StatusDecode): int {
    if d.StatusRecord? then d.messageCount else 0
  }

  /** `.get("identifier")` on a decoded status reply. */
  function StatusIdentifier(d: StatusDecode): Option<int> {
    if d.StatusRecord? then Some(d.identifier) else None
  }

  /** encode_heartbeat: assigning an absent (None) field raises TypeError,
      which the encoder turns into an error payload. */
  function EncodeHeartbeat(d: HeartbeatDict): Payload {
    if d.kind.None? || d.msg.None? || d.clientHost.None? || d.clientPort.None? || d.identifier.None? then
      ErrorPayload
    else
      HeartbeatPayload(d.kind.value, d.msg.value, d.clientHost.value, d.identifier.value, d.clientPort.value)
  }

  /** encode_status, with the same error path. */
  function EncodeStatus(d: StatusDict): Payload {
    if d.kind.None? || d.messageCount.None? || d.identifier.None? then
      ErrorPayload
    else
      StatusPayload(d.kind.value, d.identifier.value, d.messageCount.value)
  }

  /** decode_heartbeat as the protobuf codec writes it: the record is returned
      only when the wire type is the heartbeat enum member, and then its "type"
      entry is that enum member, never the text "heartbeat". A payload of
      another kind is read as an error record. */
  function DecodeHeartbeat(p: Payload): (d: HeartbeatDecode)
    ensures d.HeartbeatRecord? <==> p.HeartbeatPayload? && p.kind == Enum(MessageTypeHeartbeat)
    ensures d.HeartbeatRecord? ==> d == HeartbeatRecord(p.kind, p.msg, p.clientHost, p.clientPort, p.identifier)
    ensures TypeOf(d) != HeartbeatText
  {
    if p.HeartbeatPayload? && p.kind == Enum(MessageTypeHeartbeat) then
      HeartbeatRecord(p.kind, p.msg, p.clientHost, p.clientPort, p.identifier)
    else
      HeartbeatDecodeError
  }

  /** decode_status as the protobuf codec writes it. */
  function DecodeStatus(p: Payload): StatusDecode {
    if p.StatusPayload? && p.kind == Enum(MessageTypeStatus) then
      StatusRecord(p.kind, p.messageCount, p.identifier)
    else
      StatusDecodeError
  }

  /** Encoding a decoded heartbeat and decoding it again gives it back. */
  lemma HeartbeatRoundTrip(d: HeartbeatDecode)
    requires d.HeartbeatRecord? && d.kind == Enum(MessageTypeHeartbeat)
    ensures DecodeHeartbeat(EncodeHeartbeat(HeartbeatFields(d))) == d
  {
  }

  /** Encoding a decoded status reply and decoding it again gives it back. */
  lemma StatusRoundTrip(d: StatusDecode)
    requires d.StatusRecord? && d.kind == Enum(MessageTypeStatus)
    ensures DecodeStatus(EncodeStatus(StatusDict(Some(d.kind), Some(d.messageCount), Some(d.identifier)))) == d
  {
  }

  /** A heartbeat dictionary survives encoding and decoding exactly when
      every field is present and "type" holds the heartbeat enum member; it
      then comes back field by field. */
  lemma HeartbeatDecodesBack(d: HeartbeatDict)
    ensures DecodeHeartbeat(EncodeHeartbeat(d)).HeartbeatRecord? <==>
      && d.kind == Some(Enum(MessageTypeHeartbeat))
      && d.msg.Some? && d.clientHost.Some? && d.clientPort.Some? && d.identifier.Some?
    ensures DecodeHeartbeat(EncodeHeartbeat(d)).HeartbeatRecord? ==>
      HeartbeatFields(DecodeHeartbeat(EncodeHeartbeat(d))) == d
  {
  }

  /** A status dictionary survives encoding and decoding exactly when every
      field is present and "type" holds the status enum member; it then comes
      back field by field. Any other dictionary decodes as the error record,
      whose message count reads as 0 and whose identifier is absent. */
  lemma StatusDecodesBack(d: StatusDict)
    ensures DecodeStatus(EncodeStatus(d)).StatusRecord? <==>
      d.kind == Some(Enum(MessageTypeStatus)) && d.messageCount.Some? && d.identifier.Some?
    ensures DecodeStatus(EncodeStatus(d)).StatusRecord? ==>
      DecodeStatus(EncodeStatus(d)) == StatusRecord(d.kind.value, d.messageCount.value, d.identifier.value)
    ensures DecodeStatus(EncodeStatus(d)).StatusDecodeError? ==>
      MessageCountOrZero(DecodeStatus(EncodeStatus(d))) == 0 && StatusIdentifier(DecodeStatus(EncodeStatus(d))).None?
  {
  }
}
