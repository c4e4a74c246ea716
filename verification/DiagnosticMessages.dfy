/** Diagnostic messages and their acknowledgements (DiagnosticMessageHandler.cpp). */
module DiagnosticMessages {
  import opened Bytes
  import opened GenericHeader

  const ACK_LENGTH := 5
  const MINIMUM_LENGTH := 4
  const VALID_MESSAGE: byte := 0x00
  const INVALID_SOURCE_ADDRESS: byte := 0x02
  const UNKNOWN_TARGET_ADDRESS: byte := 0x03

  /** User data whose complete message length is still an `int`. */
  type AppData = d: seq<byte> | |d| + 12 <= 0x7FFF_FFFF

  function MessageWire(source: uint16, target: Addr, data: AppData): (w: seq<byte>)
    ensures |w| == 12 + |data|
  {
    HeaderWire(DiagnosticMessage, MINIMUM_LENGTH + |data|) + Be16(source) + [target.hi, target.lo] + data
  }

  function AckWire(positive: bool, source: uint16, target: Addr, code: byte): (w: seq<byte>)
    ensures |w| == 13
  {
    HeaderWire(if positive then DiagnosticPositiveAck else DiagnosticNegativeAck, ACK_LENGTH)
    + Be16(source) + [target.hi, target.lo] + [code]
  }

  /** A message and an acknowledgement, byte by byte. */
  lemma MessageBytes(source: uint16, target: Addr, data: AppData)
    ensures MessageWire(source, target, data)
            == [0x02, 0xFD, 0x80, 0x01] + Be32(4 + |data|)
               + [source / 0x100, source % 0x100, target.hi, target.lo] + data
  {
    PrintedBytes(4 + |data|);
  }

  lemma AckBytes(positive: bool, source: uint16, target: Addr, code: byte)
    ensures AckWire(positive, source, target, code)
            == [0x02, 0xFD, 0x80, if positive then 0x02 else 0x03, 0, 0, 0, 5,
                source / 0x100, source % 0x100, target.hi, target.lo, code]
  {
    PrintedBytes(ACK_LENGTH);
  }

  method CreateDiagnosticMessage(source: uint16, target: Addr, userData: array<byte>, userDataLength: nat)
    returns (message: array<byte>)
    requires userDataLength <= userData.Length
    requires userDataLength + 12 <= 0x7FFF_FFFF
    ensures fresh(message)
    ensures message[..] == MessageWire(source, target, userData[..userDataLength])
  {
    message := CreateGenericHeader(DiagnosticMessage, MINIMUM_LENGTH + userDataLength);
    ghost var front := message[..8] + Be16(source) + [target.hi, target.lo];
    message[8] := source / 0x100 % 0x100;
    message[9] := source % 0x100;
    message[10] := target.hi;
    message[11] := target.lo;
    assert message[..12] == front;
    for i := 0 to userDataLength
      invariant message[..12] == front
      invariant message[12..12 + i] == userData[..i]
    {
      message[12 + i] := userData[i];
    }
    assert message[..] == message[..12] + message[12..];
  }

  method CreateDiagnosticAck(positive: bool, source: uint16, target: Addr, code: byte)
    returns (message: array<byte>)
    ensures fresh(message)
    ensures message[..] == AckWire(positive, source, target, code)
  {
    var typ := if positive then DiagnosticPositiveAck else DiagnosticNegativeAck;
    message := CreateGenericHeader(typ, ACK_LENGTH);
    ghost var header := message[..8];
    message[8] := source / 0x100 % 0x100;
    message[9] := source % 0x100;
    message[10] := target.hi;
    message[11] := target.lo;
    message[12] := code;
    assert message[..8] == header;
    assert message[..] == message[..8] + message[8..];
  }

  /** What the callback of the parser is called with. */
  datatype Delivery = Delivery(target: uint16, data: seq<byte>)

  /** The code that is returned, and the callback's arguments if it is called. */
  datatype Parsed = Parsed(code: byte, delivery: Option<Delivery>)

  function ParseMessage(registered: Addr, data: seq<byte>, length: int): Parsed
    requires length <= |data|
  {
    if length < MINIMUM_LENGTH then Parsed(UNKNOWN_TARGET_ADDRESS, None)
    else if Addr(data[0], data[1]) != registered then Parsed(INVALID_SOURCE_ADDRESS, None)
    else Parsed(VALID_MESSAGE, Some(Delivery(Value16(data[2], data[3]), data[4..length])))
  }

  method ParseDiagnosticMessage(registered: Addr, data: array<byte>, length: int) returns (p: Parsed)
    requires length <= data.Length
    ensures p == ParseMessage(registered, data[..], length)
  {
    if length >= MINIMUM_LENGTH {
      if data[0] != registered.hi || data[1] != registered.lo {
        return Parsed(INVALID_SOURCE_ADDRESS, None);
      }
      var target := Value16(data[2], data[3]);
      var message := new byte[length - MINIMUM_LENGTH];
      for i := MINIMUM_LENGTH to length
        invariant message[..i - MINIMUM_LENGTH] == data[MINIMUM_LENGTH..i]
      {
        message[i - MINIMUM_LENGTH] := data[i];
      }
      assert message[..] == data[..][MINIMUM_LENGTH..length];
      return Parsed(VALID_MESSAGE, Some(Delivery(target, message[..])));
    }
    p := Parsed(UNKNOWN_TARGET_ADDRESS, None);
  }

  /** The code the parser returns and what it calls back with, read off the bytes. */
  lemma MessageVerdict(registered: Addr, data: seq<byte>, length: int)
    requires length <= |data|
    ensures var p := ParseMessage(registered, data, length);
            && (p.code == 0x03 <==> length < 4)
            && (p.code == 0x02 <==> length >= 4 && (data[0] != registered.hi || data[1] != registered.lo))
            && (p.code == 0x00 <==> length >= 4 && data[0] == registered.hi && data[1] == registered.lo)
            && (p.delivery.Some? <==> p.code == 0x00)
            && (p.delivery.Some? ==> p.delivery.value == Delivery(data[2] as int * 0x100 + data[3], data[4..length]))
  {
  }

  lemma MessageParts(source: uint16, target: Addr, data: AppData)
    ensures var w := MessageWire(source, target, data);
            && w[..8] == HeaderWire(DiagnosticMessage, 4 + |data|)
            && w[8..] == Be16(source) + [target.hi, target.lo] + data
  {
  }

  lemma PayloadRoundTrip(source: uint16, target: Addr, data: AppData, registered: Addr)
    ensures var payload := Be16(source) + [target.hi, target.lo] + data;
            var p := ParseMessage(registered, payload, |payload|);
            && p.delivery == (if AddrValue(registered) == source
                              then Some(Delivery(AddrValue(target), data)) else None)
            && (p.code == VALID_MESSAGE <==> AddrValue(registered) == source)
  {
    var payload := Be16(source) + [target.hi, target.lo] + data;
    assert payload[4..|payload|] == data;
    assert payload[0] == source / 0x100 && payload[1] == source % 0x100;
    assert payload[2] == target.hi && payload[3] == target.lo;
  }

  lemma MessageHeaderParses(length: uint32)
    requires length > 4
    ensures Parse(HeaderWire(DiagnosticMessage, length)) == Action(DiagnosticMessage, None, length)
  {
    HeaderRoundTrip(DiagnosticMessage, length);
  }

  /** Printer, header parser and message parser agree: a built message is classified as a
      diagnostic message with the right length, and its data reaches the callback unchanged
      exactly when the registered address is the sender's. */
  lemma MessageRoundTrip(source: uint16, target: Addr, data: AppData, registered: Addr)
    requires |data| >= 1
    ensures var w := MessageWire(source, target, data);
            && Parse(w[..8]) == Action(DiagnosticMessage, None, 4 + |data|)
            && |w| == 8 + (4 + |data|)
            && var p := ParseMessage(registered, w[8..], ToInt32(4 + |data|));
               && p.delivery == (if AddrValue(registered) == source
                                 then Some(Delivery(AddrValue(target), data)) else None)
               && (p.code == VALID_MESSAGE <==> AddrValue(registered) == source)
  {
    MessageParts(source, target, data);
    MessageHeaderParses(4 + |data|);
    PayloadRoundTrip(source, target, data, registered);
  }

  lemma AckParts(positive: bool, source: uint16, target: Addr, code: byte)
    ensures var w := AckWire(positive, source, target, code);
            && w[..8] == HeaderWire(if positive then DiagnosticPositiveAck else DiagnosticNegativeAck, ACK_LENGTH)
            && w[8..] == Be16(source) + [target.hi, target.lo, code]
  {
  }

  lemma AckHeaderParses(positive: bool)
    ensures var t := if positive then DiagnosticPositiveAck else DiagnosticNegativeAck;
            Parse(HeaderWire(t, ACK_LENGTH)) == Action(t, None, 5)
  {
    var t := if positive then DiagnosticPositiveAck else DiagnosticNegativeAck;
    PrintedFields(t, ACK_LENGTH);
    AckFieldsParse(HeaderWire(t, ACK_LENGTH));
  }

  /** The acknowledgement is recognised by the header parser with the type that was asked for. */
  lemma AckRoundTrip(positive: bool, source: uint16, target: Addr, code: byte)
    ensures var w := AckWire(positive, source, target, code);
            && Parse(w[..8]) == Action(if positive then DiagnosticPositiveAck else DiagnosticNegativeAck, None, 5)
            && w[8..] == Be16(source) + [target.hi, target.lo, code]
  {
    AckParts(positive, source, target, code);
    AckHeaderParses(positive);
  }
}
