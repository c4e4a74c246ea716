/** Routing activation (RoutingActivationHandler.cpp). */
module RoutingActivation {
  import opened Bytes
  import opened GenericHeader

  const RESPONSE_LENGTH := 9
  const UNKNOWN_SOURCE_ADDRESS: byte := 0x00
  const UNSUPPORTED_ROUTING_TYPE: byte := 0x06
  const SUCCESSFULLY_ROUTED: byte := 0x10

  /** The addresses reserved for external test equipment. */
  predicate IsTesterAddress(address: uint16) {
    0x0E00 <= address <= 0x0FFF
  }

  /** The scan of the source accepts exactly the tester range. */
  method CheckSourceAddress(address: uint32) returns (known: bool)
    ensures known <==> address < 0x1_0000 && IsTesterAddress(address)
  {
    var minAddress, maxAddress := 3584, 4095;
    var i := minAddress;
    while i <= maxAddress
      invariant minAddress <= i <= maxAddress + 1
      invariant address < minAddress || i <= address
    {
      if address == i {
        return true;
      }
      i := i + 1;
    }
    return false;
  }

  function ActivationCode(data: seq<byte>): byte
    requires |data| >= 3
  {
    if !IsTesterAddress(Value16(data[0], data[1])) then UNKNOWN_SOURCE_ADDRESS
    else if data[2] != 0x00 && data[2] != 0x01 then UNSUPPORTED_ROUTING_TYPE
    else SUCCESSFULLY_ROUTED
  }

  /** The two refusals and the success, told apart by the bytes of the request. */
  lemma ActivationCodes(data: seq<byte>)
    requires |data| >= 3
    ensures var address, code := data[0] as int * 0x100 + data[1], ActivationCode(data);
            && (code == 0x00 <==> address < 0x0E00 || address > 0x0FFF)
            && (code == 0x06 <==> 0x0E00 <= address <= 0x0FFF && data[2] > 0x01)
            && (code == 0x10 <==> 0x0E00 <= address <= 0x0FFF && data[2] <= 0x01)
  {
  }

  method ParseRoutingActivation(data: array<byte>) returns (code: byte)
    requires data.Length >= 3
    ensures code == ActivationCode(data[..])
  {
    var address := Value16(data[0], data[1]);
    var known := CheckSourceAddress(address);
    if !known {
      return UNKNOWN_SOURCE_ADDRESS;
    }
    if data[2] == 0x00 {
    } else if data[2] == 0x01 {
    } else {
      return UNSUPPORTED_ROUTING_TYPE;
    }
    return SUCCESSFULLY_ROUTED;
  }

  function ResponseWire(gateway: uint16, client: Addr, code: byte): (w: seq<byte>)
    ensures |w| == 17
  {
    HeaderWire(RoutingActivationResponse, RESPONSE_LENGTH)
    + [client.hi, client.lo] + Be16(gateway) + [code, 0, 0, 0, 0]
  }

  /** The response, byte by byte. */
  lemma ResponseBytes(gateway: uint16, client: Addr, code: byte)
    ensures ResponseWire(gateway, client, code)
            == [0x02, 0xFD, 0x00, 0x06, 0, 0, 0, 9, client.hi, client.lo, gateway / 0x100, gateway % 0x100,
                code, 0, 0, 0, 0]
  {
    PrintedBytes(RESPONSE_LENGTH);
  }

  method CreateRoutingActivationResponse(gateway: uint16, client: Addr, code: byte)
    returns (message: array<byte>)
    ensures fresh(message)
    ensures message[..] == ResponseWire(gateway, client, code)
  {
    message := CreateGenericHeader(RoutingActivationResponse, RESPONSE_LENGTH);
    ghost var header := message[..8];
    message[8] := client.hi;
    message[9] := client.lo;
    message[10] := gateway / 0x100 % 0x100;
    message[11] := gateway % 0x100;
    message[12] := code;
    message[13] := 0x00;
    message[14] := 0x00;
    message[15] := 0x00;
    message[16] := 0x00;
    assert message[8..] == [client.hi, client.lo] + Be16(gateway) + [code, 0, 0, 0, 0];
    assert message[..] == header + message[8..];
  }
}
