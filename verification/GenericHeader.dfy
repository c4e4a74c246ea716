/** The generic DoIP header: parser and printer of DoIPGenericHeaderHandler.cpp. */
module GenericHeader {
  import opened Bytes

  const HEADER_LENGTH := 8
  const NACK_LENGTH := 1
  const INCORRECT_PATTERN: byte := 0x00
  const UNKNOWN_PAYLOAD_TYPE: byte := 0x01
  const INVALID_PAYLOAD_LENGTH: byte := 0x04

  datatype PayloadType =
    | NegativeAck
    | RoutingActivationRequest
    | RoutingActivationResponse
    | VehicleIdentRequest
    | VehicleIdentResponse
    | DiagnosticMessage
    | DiagnosticPositiveAck
    | DiagnosticNegativeAck
    | AliveCheckResponse

  /** `value == None` marks the field the parser leaves unassigned. */
  datatype Action = Action(typ: PayloadType, value: Option<byte>, payloadLength: uint32)

  // ---------- What the bytes of a header say ----------

  predicate Synchronised(h: seq<byte>)
    requires |h| >= 8
  {
    h[0] == 0xFF - h[1]
  }

  function TypeCode(h: seq<byte>): uint16
    requires |h| >= 8
  {
    Value16(h[2], h[3])
  }

  function LengthField(h: seq<byte>): uint32
    requires |h| >= 8
  {
    Value32(h[4], h[5], h[6], h[7])
  }

  /** The payload types the parser knows. 0x0008 (alive check response) is not one of them. */
  function KnownType(code: uint16): Option<PayloadType> {
    if code == 0x0005 then Some(RoutingActivationRequest)
    else if code == 0x0004 then Some(VehicleIdentResponse)
    else if code == 0x0001 then Some(VehicleIdentRequest)
    else if code == 0x8001 then Some(DiagnosticMessage)
    else if code == 0x8002 then Some(DiagnosticPositiveAck)
    else if code == 0x8003 then Some(DiagnosticNegativeAck)
    else None
  }

  /** Lengths the parser enforces. The checks on the two diagnostic acknowledgements
      have no effect on the type that is returned. */
  predicate LengthAccepted(t: PayloadType, n: uint32) {
    match t
    case RoutingActivationRequest => n == 7 || n == 11
    case VehicleIdentRequest => n == 0
    case VehicleIdentResponse => n == 32 || n == 33
    case DiagnosticMessage => n > 4
    case _ => true
  }

  function Parse(h: seq<byte>): (a: Action)
    requires |h| >= 8
  {
    var n := LengthField(h);
    if !Synchronised(h) then Action(NegativeAck, Some(INCORRECT_PATTERN), 0)
    else match KnownType(TypeCode(h))
      case None => Action(NegativeAck, Some(UNKNOWN_PAYLOAD_TYPE), n)
      case Some(t) =>
        if !LengthAccepted(t, n) then Action(NegativeAck, Some(INVALID_PAYLOAD_LENGTH), n)
        else if (t.DiagnosticPositiveAck? || t.DiagnosticNegativeAck?) && n < 5
        then Action(t, Some(INVALID_PAYLOAD_LENGTH), n)
        else Action(t, None, n)
  }

  /** The parser as written: it fills a local action field by field and may return early. */
  method ParseGenericHeader(data: array<byte>, dataLength: int) returns (action: Action)
    requires HEADER_LENGTH <= dataLength <= data.Length
    ensures action == Parse(data[..8])
  {
    var value: Option<byte> := None;
    if 0xFF - data[1] != data[0] {
      return Action(NegativeAck, Some(INCORRECT_PATTERN), 0);
    }

    var payloadLength: int := 0;
    payloadLength := payloadLength + data[4] as int * 0x100_0000;
    payloadLength := payloadLength + data[5] as int * 0x1_0000;
    payloadLength := payloadLength + data[6] as int * 0x100;
    payloadLength := payloadLength + data[7] as int;

    var messagePayloadType;
    if data[2] == 0x00 && data[3] == 0x05 {
      messagePayloadType := RoutingActivationRequest;
    } else if data[2] == 0x00 && data[3] == 0x04 {
      messagePayloadType := VehicleIdentResponse;
    } else if data[2] == 0x00 && data[3] == 0x01 {
      messagePayloadType := VehicleIdentRequest;
    } else if data[2] == 0x80 && data[3] == 0x01 {
      messagePayloadType := DiagnosticMessage;
    } else if data[2] == 0x80 && data[3] == 0x02 {
      messagePayloadType := DiagnosticPositiveAck;
    } else if data[2] == 0x80 && data[3] == 0x03 {
      messagePayloadType := DiagnosticNegativeAck;
    } else {
      return Action(NegativeAck, Some(UNKNOWN_PAYLOAD_TYPE), payloadLength);
    }

    match messagePayloadType {
      case RoutingActivationRequest =>
        if payloadLength != 7 && payloadLength != 11 {
          return Action(NegativeAck, Some(INVALID_PAYLOAD_LENGTH), payloadLength);
        }
      case VehicleIdentRequest =>
        if payloadLength != 0 {
          return Action(NegativeAck, Some(INVALID_PAYLOAD_LENGTH), payloadLength);
        }
      case VehicleIdentResponse =>
        if payloadLength != 32 && payloadLength != 33 {
          return Action(NegativeAck, Some(INVALID_PAYLOAD_LENGTH), payloadLength);
        }
      case DiagnosticMessage =>
        if payloadLength <= 4 {
          return Action(NegativeAck, Some(INVALID_PAYLOAD_LENGTH), payloadLength);
        }
      case DiagnosticPositiveAck =>
        if payloadLength < 5 {
          value := Some(INVALID_PAYLOAD_LENGTH);
        }
      case DiagnosticNegativeAck =>
        if payloadLength < 5 {
          value := Some(INVALID_PAYLOAD_LENGTH);
        }
    }
    action := Action(messagePayloadType, value, payloadLength);
  }

  // ---------- Printer ----------

  /** The types `createGenericHeader` has a case for. */
  predicate Printable(t: PayloadType) {
    !t.RoutingActivationRequest? && !t.VehicleIdentRequest?
  }

  function PrintedType(t: PayloadType): uint16
    requires Printable(t)
  {
    match t
    case RoutingActivationResponse => 0x0006
    case NegativeAck => 0x0000
    case VehicleIdentResponse => 0x0004
    case DiagnosticMessage => 0x8001
    case DiagnosticPositiveAck => 0x8002
    case DiagnosticNegativeAck => 0x8003
    case AliveCheckResponse => 0x0008
  }

  function HeaderWire(t: PayloadType, length: uint32): (h: seq<byte>)
    requires Printable(t)
    ensures |h| == 8
  {
    [0x02, 0xFD] + Be16(PrintedType(t)) + Be32(length)
  }

  /** For a type without a case the two type bytes keep whatever the allocation held. */
  method CreateGenericHeader(typ: PayloadType, length: uint32) returns (header: array<byte>)
    requires 8 + length < 0x1_0000_0000
    ensures fresh(header) && header.Length == 8 + length
    ensures Printable(typ) ==> header[..8] == HeaderWire(typ, length)
    ensures header[0] == 0x02 && header[1] == 0xFD && header[4..8] == Be32(length)
    ensures typ.NegativeAck? ==> header[2] == 0x00 && header[3] == 0x00
    ensures typ.VehicleIdentResponse? ==> header[2] == 0x00 && header[3] == 0x04
    ensures typ.RoutingActivationResponse? ==> header[2] == 0x00 && header[3] == 0x06
    ensures typ.AliveCheckResponse? ==> header[2] == 0x00 && header[3] == 0x08
    ensures typ.DiagnosticMessage? ==> header[2] == 0x80 && header[3] == 0x01
    ensures typ.DiagnosticPositiveAck? ==> header[2] == 0x80 && header[3] == 0x02
    ensures typ.DiagnosticNegativeAck? ==> header[2] == 0x80 && header[3] == 0x03
  {
    header := new byte[8 + length];
    header[0] := 0x02;
    header[1] := 0xFD;
    match typ {
      case RoutingActivationResponse => header[2], header[3] := 0x00, 0x06;
      case NegativeAck => header[2], header[3] := 0x00, 0x00;
      case VehicleIdentResponse => header[2], header[3] := 0x00, 0x04;
      case DiagnosticMessage => header[2], header[3] := 0x80, 0x01;
      case DiagnosticPositiveAck => header[2], header[3] := 0x80, 0x02;
      case DiagnosticNegativeAck => header[2], header[3] := 0x80, 0x03;
      case AliveCheckResponse => header[2], header[3] := 0x00, 0x08;
      case _ =>
    }
    header[4] := length / 0x100_0000;
    header[5] := length / 0x1_0000 % 0x100;
    header[6] := length / 0x100 % 0x100;
    header[7] := length % 0x100;
  }

  // ---------- Properties ----------

  /** The fields of a header, read off its bytes. */
  lemma HeaderBytes(h: seq<byte>)
    requires |h| >= 8
    ensures Synchronised(h) <==> h[0] as int + h[1] == 0xFF
    ensures TypeCode(h) == h[2] as int * 0x100 + h[3]
    ensures LengthField(h) == h[4] as int * 0x100_0000 + h[5] as int * 0x1_0000 + h[6] as int * 0x100 + h[7]
  {
  }

  /** The printed headers, byte by byte. */
  lemma PrintedBytes(length: uint32)
    ensures var start, end := [0x02, 0xFD], Be32(length);
            && HeaderWire(NegativeAck, length) == start + [0x00, 0x00] + end
            && HeaderWire(VehicleIdentResponse, length) == start + [0x00, 0x04] + end
            && HeaderWire(RoutingActivationResponse, length) == start + [0x00, 0x06] + end
            && HeaderWire(AliveCheckResponse, length) == start + [0x00, 0x08] + end
            && HeaderWire(DiagnosticMessage, length) == start + [0x80, 0x01] + end
            && HeaderWire(DiagnosticPositiveAck, length) == start + [0x80, 0x02] + end
            && HeaderWire(DiagnosticNegativeAck, length) == start + [0x80, 0x03] + end
  {
  }

  lemma NackBytes(code: byte)
    ensures HeaderWire(NegativeAck, NACK_LENGTH) + [code] == [0x02, 0xFD, 0x00, 0x00, 0, 0, 0, 1, code]
  {
    PrintedBytes(NACK_LENGTH);
  }

  lemma PrintedFields(t: PayloadType, length: uint32)
    requires Printable(t)
    ensures var h := HeaderWire(t, length);
            Synchronised(h) && TypeCode(h) == PrintedType(t) && LengthField(h) == length
  {
    RoundTrip32(length);
  }

  lemma AckFieldsParse(h: seq<byte>)
    requires |h| >= 8 && Synchronised(h) && LengthField(h) >= 5
    ensures TypeCode(h) == 0x8002 ==> Parse(h) == Action(DiagnosticPositiveAck, None, LengthField(h))
    ensures TypeCode(h) == 0x8003 ==> Parse(h) == Action(DiagnosticNegativeAck, None, LengthField(h))
  {
  }

  /** A printed header is parsed back to its type and length exactly when the printed type
      is one the parser knows and the length is one it accepts. The negative acknowledgement,
      the activation response and the alive check response are never recognised. */
  lemma HeaderRoundTrip(t: PayloadType, length: uint32)
    requires Printable(t)
    ensures var a := Parse(HeaderWire(t, length));
            && a.payloadLength == length
            && ((a.typ == t && a.value != Some(UNKNOWN_PAYLOAD_TYPE)) <==>
                || t.DiagnosticPositiveAck? || t.DiagnosticNegativeAck?
                || (t.VehicleIdentResponse? && (length == 32 || length == 33))
                || (t.DiagnosticMessage? && length > 4))
            && (a == Action(NegativeAck, Some(UNKNOWN_PAYLOAD_TYPE), length) <==>
                t.NegativeAck? || t.RoutingActivationResponse? || t.AliveCheckResponse?)
            && (a == Action(NegativeAck, Some(INVALID_PAYLOAD_LENGTH), length) <==>
                || (t.VehicleIdentResponse? && length != 32 && length != 33)
                || (t.DiagnosticMessage? && length <= 4))
  {
    PrintedFields(t, length);
  }

  /** The code of every classification: 0x00 for the pattern before 0x01 for the type before 0x04 for
      the length. The two diagnostic acknowledgements get the last one too, but keep their type. */
  lemma ClassificationCodes(h: seq<byte>)
    requires |h| >= 8
    ensures var a, code, n := Parse(h), TypeCode(h), LengthField(h);
            && (a.value == Some(0x00) <==> !Synchronised(h))
            && (a.value == Some(0x01) <==>
                Synchronised(h) && code !in {0x0001, 0x0004, 0x0005, 0x8001, 0x8002, 0x8003})
            && (a.value == Some(0x04) <==>
                Synchronised(h) &&
                (|| (code == 0x0005 && n != 7 && n != 11)
                 || (code == 0x0001 && n != 0)
                 || (code == 0x0004 && n != 32 && n != 33)
                 || (code == 0x8001 && n <= 4)
                 || (code == 0x8002 && n < 5)
                 || (code == 0x8003 && n < 5)))
            && (a.value.Some? ==> a.value.value in {0x00, 0x01, 0x04})
            && (a.typ == NegativeAck <==> a.value.Some? && !(Synchronised(h) && (code == 0x8002 || code == 0x8003)))
  {
  }

  /** Classification decides what may be read: an accepted request or message carries every
      payload byte its handler indexes, and a negative acknowledgement always has a code. */
  lemma Classification(h: seq<byte>)
    requires |h| >= 8
    ensures var a := Parse(h);
            && (a.typ == RoutingActivationRequest <==>
                Synchronised(h) && TypeCode(h) == 0x0005 && (LengthField(h) == 7 || LengthField(h) == 11))
            && (a.typ == VehicleIdentRequest <==>
                Synchronised(h) && TypeCode(h) == 0x0001 && LengthField(h) == 0)
            && (a.typ == DiagnosticMessage <==>
                Synchronised(h) && TypeCode(h) == 0x8001 && LengthField(h) > 4)
            && (a.typ == VehicleIdentResponse <==>
                Synchronised(h) && TypeCode(h) == 0x0004 && (LengthField(h) == 32 || LengthField(h) == 33))
            && (a.typ == DiagnosticPositiveAck <==> Synchronised(h) && TypeCode(h) == 0x8002)
            && (a.typ == DiagnosticNegativeAck <==> Synchronised(h) && TypeCode(h) == 0x8003)
            && (a.typ == NegativeAck ==> a.value.Some?)
            && (a.typ == NegativeAck && a.value != Some(UNKNOWN_PAYLOAD_TYPE) <==>
                !Synchronised(h)
                || (TypeCode(h) == 0x0005 && LengthField(h) != 7 && LengthField(h) != 11)
                || (TypeCode(h) == 0x0001 && LengthField(h) != 0)
                || (TypeCode(h) == 0x0004 && LengthField(h) != 32 && LengthField(h) != 33)
                || (TypeCode(h) == 0x8001 && LengthField(h) <= 4))
            && a.payloadLength == (if Synchronised(h) then LengthField(h) else 0)
            && !a.typ.AliveCheckResponse?
  {
  }
}
