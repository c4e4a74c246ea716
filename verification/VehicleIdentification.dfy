/** Vehicle identification responses (VehicleIdentificationHandler.cpp) and the server's side of
    the UDP exchange (DoIPServer.cpp). */
module VehicleIdentification {
  import opened Bytes
  import opened GenericHeader

  const RESPONSE_LENGTH := 32
  const ASCII_ZERO: byte := 0x30

  type uint64 = x: int | 0 <= x < 0x1_0000_0000_0000_0000

  /** The VIN cut to 17 characters, or filled up with ASCII '0'. */
  function PadVin(vin: seq<byte>): (p: seq<byte>)
    ensures |p| == 17
    ensures forall i :: 0 <= i < 17 ==> p[i] == if i < |vin| then vin[i] else ASCII_ZERO
    decreases 17 - |vin|
  {
    if |vin| >= 17 then vin[..17] else PadVin(vin + [ASCII_ZERO])
  }

  /** The low 48 bits, most significant byte first. */
  function Be48(x: uint64): (s: seq<byte>)
    ensures |s| == 6
  {
    [x / 0x100_0000_0000 % 0x100, x / 0x1_0000_0000 % 0x100, x / 0x100_0000 % 0x100,
     x / 0x1_0000 % 0x100, x / 0x100 % 0x100, x % 0x100]
  }

  function Value48(s: seq<byte>): int
    requires |s| == 6
  {
    ((((s[0] * 0x100 as int + s[1]) * 0x100 + s[2]) * 0x100 + s[3]) * 0x100 + s[4]) * 0x100 + s[5]
  }

  lemma ShiftTwice(x: nat)
    ensures x / 0x1_0000 == x / 0x100 / 0x100
    ensures x / 0x100_0000 == x / 0x100 / 0x100 / 0x100
  {
  }

  lemma Shifts(x: nat)
    ensures x / 0x1_0000_0000 == x / 0x100_0000 / 0x100
    ensures x / 0x100_0000_0000 == x / 0x100_0000 / 0x100 / 0x100
    ensures x / 0x1_0000_0000_0000 == x / 0x100_0000 / 0x100 / 0x100 / 0x100
  {
  }

  /** Six bytes, most significant first. */
  lemma Value48Bytes(s: seq<byte>)
    requires |s| == 6
    ensures Value48(s) == s[0] as int * 0x100_0000_0000 + s[1] as int * 0x1_0000_0000 + s[2] as int * 0x100_0000
                          + s[3] as int * 0x1_0000 + s[4] as int * 0x100 + s[5]
  {
  }

  lemma Low48(x: uint64)
    ensures Value48(Be48(x)) == x % 0x1_0000_0000_0000
  {
    ShiftTwice(x);
    Shifts(x);
    var x1 := x / 0x100;
    var x2 := x1 / 0x100;
    var x3 := x2 / 0x100;
    var x4 := x3 / 0x100;
    var x5 := x4 / 0x100;
    Horner(x, x1, x2, x3, x4, x5, x5 / 0x100);
  }

  lemma Horner(x: nat, x1: nat, x2: nat, x3: nat, x4: nat, x5: nat, x6: nat)
    requires x1 == x / 0x100 && x2 == x1 / 0x100 && x3 == x2 / 0x100
    requires x4 == x3 / 0x100 && x5 == x4 / 0x100 && x6 == x5 / 0x100
    ensures var v := Value48([x5 % 0x100, x4 % 0x100, x3 % 0x100, x2 % 0x100, x1 % 0x100, x % 0x100]);
            x == x6 * 0x1_0000_0000_0000 + v && 0 <= v < 0x1_0000_0000_0000
  {
  }

  /** The fields of a response as a receiver sees them. */
  datatype Identification = Identification(
    vin: seq<byte>, logicalAddress: seq<byte>, eid: seq<byte>, gid: seq<byte>, furtherAction: byte)

  function ParseIdentification(w: seq<byte>): Identification
    requires |w| >= 40
  {
    Identification(w[8..25], w[25..27], w[27..33], w[33..39], w[39])
  }

  function ResponseWire(vin: seq<byte>, address: uint16, eid: seq<byte>, gid: seq<byte>, far: byte): (w: seq<byte>)
    requires |eid| == 6 && |gid| == 6
    ensures |w| == 40
  {
    HeaderWire(VehicleIdentResponse, RESPONSE_LENGTH) + PadVin(vin) + Be16(address) + eid + gid + [far]
  }

  method CreateVehicleIdentificationResponse(vin: seq<byte>, address: uint16,
                                             eid: array<byte>, gid: array<byte>, far: byte)
    returns (message: array<byte>)
    requires eid.Length == 6 && gid.Length == 6
    ensures fresh(message)
    ensures message[..] == ResponseWire(vin, address, eid[..], gid[..], far)
  {
    message := CreateGenericHeader(VehicleIdentResponse, RESPONSE_LENGTH);
    ghost var header := message[..8];

    var j := 0;
    for i := 8 to 25
      invariant j == if i - 8 < |vin| then i - 8 else |vin|
      invariant message[..i] == header + PadVin(vin)[..i - 8]
    {
      if j < |vin| {
        message[i] := vin[j];
        j := j + 1;
      } else {
        message[i] := ASCII_ZERO;
      }
    }
    assert message[..25] == header + PadVin(vin);
    message[25] := address / 0x100 % 0x100;
    message[26] := address % 0x100;
    ghost var front := message[..27];
    assert front == header + PadVin(vin) + Be16(address);

    j := 0;
    for i := 27 to 33
      invariant j == i - 27
      invariant message[..i] == front + eid[..j]
    {
      message[i] := eid[j];
      j := j + 1;
    }

    j := 0;
    for i := 33 to 39
      invariant j == i - 33
      invariant message[..i] == front + eid[..] + gid[..j]
    {
      message[i] := gid[j];
      j := j + 1;
    }

    message[39] := far;
    assert message[..] == message[..39] + [far];
  }

  lemma ResponseHeaderParses()
    ensures Parse(HeaderWire(VehicleIdentResponse, RESPONSE_LENGTH))
            == Action(VehicleIdentResponse, None, RESPONSE_LENGTH)
  {
    HeaderRoundTrip(VehicleIdentResponse, RESPONSE_LENGTH);
  }

  lemma ResponseParts(h: seq<byte>, vin: seq<byte>, a: seq<byte>, eid: seq<byte>, gid: seq<byte>, far: byte)
    requires |h| == 8 && |vin| == 17 && |a| == 2 && |eid| == 6 && |gid| == 6
    ensures var w := h + vin + a + eid + gid + [far];
            w[..8] == h && ParseIdentification(w) == Identification(vin, a, eid, gid, far)
  {
    var w := h + vin + a + eid + gid + [far];
    assert w[8..25] == vin;
    assert w[25..27] == a;
    assert w[27..33] == eid;
    assert w[33..39] == gid;
  }

  /** The printer and the parser agree field by field, and the header is a response's header. */
  lemma ResponseRoundTrip(vin: seq<byte>, address: uint16, eid: seq<byte>, gid: seq<byte>, far: byte)
    requires |eid| == 6 && |gid| == 6
    ensures var w := ResponseWire(vin, address, eid, gid, far);
            && Parse(w[..8]) == Action(VehicleIdentResponse, None, RESPONSE_LENGTH)
            && ParseIdentification(w) == Identification(PadVin(vin), Be16(address), eid, gid, far)
  {
    ResponseHeaderParses();
    ResponseParts(HeaderWire(VehicleIdentResponse, RESPONSE_LENGTH), PadVin(vin), Be16(address), eid, gid, far);
  }

  /** The response, byte by byte. */
  lemma ResponseBytes(vin: seq<byte>, address: uint16, eid: seq<byte>, gid: seq<byte>, far: byte)
    requires |eid| == 6 && |gid| == 6
    ensures var w := ResponseWire(vin, address, eid, gid, far);
            && w[..8] == [0x02, 0xFD, 0x00, 0x04, 0, 0, 0, 0x20]
            && (forall i :: 0 <= i < 17 ==> w[8..25][i] == if i < |vin| then vin[i] else 0x30)
            && w[25] == address / 0x100 && w[26] == address % 0x100
            && w[27..33] == eid && w[33..39] == gid && w[39] == far
  {
    PrintedBytes(RESPONSE_LENGTH);
    ResponseParts(HeaderWire(VehicleIdentResponse, RESPONSE_LENGTH), PadVin(vin), Be16(address), eid, gid, far);
    var w := ResponseWire(vin, address, eid, gid, far);
    assert w[25..27][0] == w[25] && w[25..27][1] == w[26];
  }

  // ---------- Server ----------

  datatype Config = Config(vin: seq<byte>, address: uint16, eid: seq<byte>, gid: seq<byte>, far: byte)

  predicate WellFormed(c: Config) {
    |c.eid| == 6 && |c.gid| == 6
  }

  /** The datagram a received datagram is answered with, if any. */
  function Reply(c: Config, datagram: seq<byte>): Option<seq<byte>>
    requires WellFormed(c) && |datagram| >= 8
  {
    var a := Parse(datagram[..8]);
    match a.typ
    case NegativeAck =>
      Classification(datagram[..8]);
      Some(HeaderWire(NegativeAck, NACK_LENGTH) + [a.value.value])
    case VehicleIdentRequest => Some(ResponseWire(c.vin, c.address, c.eid, c.gid, c.far))
    case _ => None
  }

  /** A negative acknowledgement for which -1 is returned although it was sent. */
  predicate Refuses(h: seq<byte>)
    requires |h| >= 8
  {
    var a := Parse(h);
    a.typ == NegativeAck && (a.value == Some(INCORRECT_PATTERN) || a.value == Some(INVALID_PAYLOAD_LENGTH))
  }

  /** What a datagram is answered with, byte by byte, and when -1 is returned although it is. */
  lemma UdpAnswers(c: Config, datagram: seq<byte>)
    requires WellFormed(c) && |datagram| >= 8
    ensures var h, r := datagram[..8], Reply(c, datagram);
            var code, n := TypeCode(h), LengthField(h);
            var badLength := (code == 0x0005 && n != 7 && n != 11) || (code == 0x0001 && n != 0)
                             || (code == 0x0004 && n != 32 && n != 33) || (code == 0x8001 && n <= 4);
            var unknown := code !in {0x0001, 0x0004, 0x0005, 0x8001, 0x8002, 0x8003};
            && (!Synchronised(h) ==> r == Some([0x02, 0xFD, 0, 0, 0, 0, 0, 1, 0x00]))
            && (Synchronised(h) && unknown ==> r == Some([0x02, 0xFD, 0, 0, 0, 0, 0, 1, 0x01]))
            && (Synchronised(h) && badLength ==> r == Some([0x02, 0xFD, 0, 0, 0, 0, 0, 1, 0x04]))
            && (Synchronised(h) && code == 0x0001 && n == 0 ==>
                r == Some(ResponseWire(c.vin, c.address, c.eid, c.gid, c.far)))
            && (Synchronised(h) && !unknown && !badLength && code != 0x0001 ==> r == None)
            && (Refuses(h) <==> !Synchronised(h) || badLength)
  {
    var h := datagram[..8];
    ClassificationCodes(h);
    Classification(h);
    if Parse(h).typ == NegativeAck {
      NackBytes(Parse(h).value.value);
    }
  }

  class DoIPServer {
    var vin: seq<byte>
    var logicalGatewayAddress: uint16
    const eid: array<byte>
    const gid: array<byte>
    var furtherActionReq: byte
    const data: array<byte>
    const sendto: (seq<seq<byte>>, seq<byte>) -> int
    var sent: seq<seq<byte>>

    ghost predicate Valid()
      reads this
    {
      eid.Length == 6 && gid.Length == 6 && eid != gid && data !in {eid, gid} && data.Length == 0xFF_FFFF
    }

    ghost function Settings(): Config
      reads this, eid, gid
    {
      Config(vin, logicalGatewayAddress, eid[..], gid[..], furtherActionReq)
    }

    constructor (sendto: (seq<seq<byte>>, seq<byte>) -> int)
      ensures Valid() && this.sendto == sendto && sent == [] && logicalGatewayAddress == 0 && furtherActionReq == 0
      ensures vin == seq(17, i => ASCII_ZERO) && gid[..] == [0, 0, 0, 0, 0, 0]
      ensures fresh(eid) && fresh(gid) && fresh(data)
    {
      vin := seq<byte>(17, i => ASCII_ZERO);
      logicalGatewayAddress, furtherActionReq, sent := 0, 0, [];
      eid := new byte[6];
      gid := new byte[6](i => 0);
      data := new byte[0xFF_FFFF];
      this.sendto := sendto;
    }

    method SetVIN(input: seq<byte>)
      requires Valid()
      modifies `vin
      ensures Valid() && Settings() == old(Settings()).(vin := input)
    {
      vin := input;
    }

    method SetEID(input: uint64)
      requires Valid()
      modifies eid
      ensures Settings() == old(Settings()).(eid := Be48(input))
    {
      StoreSix(eid, input);
    }

    method SetGID(input: uint64)
      requires Valid()
      modifies gid
      ensures Settings() == old(Settings()).(gid := Be48(input))
    {
      StoreSix(gid, input);
    }

    /** The six shifts that `setEID` and `setGID` share. */
    static method StoreSix(a: array<byte>, x: uint64)
      requires a.Length == 6
      modifies a
      ensures a[..] == Be48(x)
    {
      a[0] := x / 0x100_0000_0000 % 0x100;
      a[1] := x / 0x1_0000_0000 % 0x100;
      a[2] := x / 0x100_0000 % 0x100;
      a[3] := x / 0x1_0000 % 0x100;
      a[4] := x / 0x100 % 0x100;
      a[5] := x % 0x100;
    }

    method SetFAR(input: uint32)
      requires Valid()
      modifies `furtherActionReq
      ensures Valid() && Settings() == old(Settings()).(far := input % 0x100)
    {
      furtherActionReq := input % 0x100;
    }

    method SendUdpMessage(message: array<byte>) returns (result: int)
      modifies `sent
      ensures sent == old(sent) + [message[..]]
      ensures result == sendto(old(sent), message[..])
    {
      result := sendto(sent, message[..]);
      sent := sent + [message[..]];
    }

    method ReactToReceivedUdpMessage(readBytes: int) returns (code: int)
      requires Valid() && HEADER_LENGTH <= readBytes <= data.Length
      modifies `sent
      ensures Valid()
      ensures var r := Reply(Settings(), data[..readBytes]);
              && sent == (if r.Some? then old(sent) + [r.value] else old(sent))
              && code == if r.None? || Refuses(data[..8]) then -1 else sendto(old(sent), r.value)
    {
      var action := ParseGenericHeader(data, readBytes);
      assert data[..readBytes][..8] == data[..8];
      match action.typ {
        case VehicleIdentResponse =>
          return -1;
        case NegativeAck =>
          Classification(data[..8]);
          var message := CreateGenericHeader(NegativeAck, NACK_LENGTH);
          ghost var header := message[..8];
          message[8] := action.value.value;
          assert message[..] == header + [action.value.value];
          code := SendUdpMessage(message);
          if action.value.value == INCORRECT_PATTERN || action.value.value == INVALID_PAYLOAD_LENGTH {
            return -1;
          }
        case VehicleIdentRequest =>
          var message := CreateVehicleIdentificationResponse(vin, logicalGatewayAddress, eid, gid, furtherActionReq);
          code := SendUdpMessage(message);
        case _ =>
          return -1;
      }
    }
  }
}
