/** The client: what it writes, what it keeps of a vehicle identification, when it reconnects. */
module Client {
  import opened Bytes
  import opened GenericHeader
  import opened DiagnosticMessages
  import opened VehicleIdentification

  /** The bytes of `buildRoutingActivationRequest`: source address 0x0E00, default type. */
  const ACTIVATION_REQUEST: seq<byte> := [0x02, 0xFD, 0x00, 0x05, 0, 0, 0, 7, 0x0E, 0x00, 0x00, 0, 0, 0, 0]
  /** The bytes of `buildVehicleIdentificationRequest`. */
  const IDENTIFICATION_REQUEST: seq<byte> := [0x02, 0xFD, 0x00, 0x01, 0, 0, 0, 0]
  const TESTER := Addr(0x0E, 0x00)

  /** Empty receives since the last reconnect, and reconnects so far. */
  datatype Reconnects = Reconnects(empty: nat, count: nat)

  function AfterReceive(r: Reconnects, readBytes: int): Reconnects {
    if readBytes != 0 then r
    else if r.empty + 1 == 5 then Reconnects(0, r.count + 1)
    else Reconnects(r.empty + 1, r.count)
  }

  function AfterReceives(r: Reconnects, received: seq<int>): Reconnects
    decreases |received|
  {
    if received == [] then r else AfterReceives(AfterReceive(r, received[0]), received[1..])
  }

  function EmptyReceives(received: seq<int>): nat {
    if received == [] then 0 else (if received[0] == 0 then 1 else 0) + EmptyReceives(received[1..])
  }

  /** Every fifth empty receive reconnects, whatever else is received in between. */
  lemma {:induction false} ReconnectsEveryFifth(r: Reconnects, received: seq<int>)
    requires r.empty < 5
    ensures var e, n := AfterReceives(r, received), 5 * r.count + r.empty + EmptyReceives(received);
            e.empty == n % 5 && e.count == n / 5
    decreases |received|
  {
    if received != [] {
      ReconnectsEveryFifth(AfterReceive(r, received[0]), received[1..]);
    }
  }

  class DoIPClient {
    var tcpSent: seq<byte>
    var emptyMessageCounter: nat
    var reconnects: nat
    var sourceAddress: Addr
    const vinResult: array<byte>
    const logicalAddressResult: array<byte>
    const eidResult: array<byte>
    const gidResult: array<byte>
    var furtherActionReqResult: byte

    ghost predicate Valid()
      reads this
    {
      && vinResult.Length == 17 && logicalAddressResult.Length == 2
      && eidResult.Length == 6 && gidResult.Length == 6
      && eidResult != gidResult
      && emptyMessageCounter < 5
    }

    ghost function Identified(): Identification
      reads this, vinResult, logicalAddressResult, eidResult, gidResult
    {
      Identification(vinResult[..], logicalAddressResult[..], eidResult[..], gidResult[..], furtherActionReqResult)
    }

    constructor (address: Addr)
      ensures Valid() && tcpSent == [] && sourceAddress == address
      ensures Reconnects(emptyMessageCounter, reconnects) == Reconnects(0, 0)
    {
      tcpSent, emptyMessageCounter, reconnects, sourceAddress := [], 0, 0, address;
      vinResult := new byte[17];
      logicalAddressResult := new byte[2];
      eidResult := new byte[6];
      gidResult := new byte[6];
      furtherActionReqResult := 0;
    }

    method BuildRoutingActivationRequest() returns (rareq: array<byte>)
      ensures fresh(rareq) && rareq[..] == ACTIVATION_REQUEST
    {
      rareq := new byte[15];
      rareq[0], rareq[1], rareq[2], rareq[3] := 0x02, 0xFD, 0x00, 0x05;
      rareq[4], rareq[5], rareq[6], rareq[7] := 0x00, 0x00, 0x00, 0x07;
      rareq[8], rareq[9], rareq[10], rareq[11] := 0x0E, 0x00, 0x00, 0x00;
      rareq[12], rareq[13], rareq[14] := 0x00, 0x00, 0x00;
    }

    method SendRoutingActivationRequest()
      modifies `tcpSent
      ensures tcpSent == old(tcpSent) + ACTIVATION_REQUEST
    {
      var rareq := BuildRoutingActivationRequest();
      tcpSent := tcpSent + rareq[..];
    }

    method SendDiagnosticMessage(targetAddress: Addr, userData: array<byte>, userDataLength: nat)
      requires userDataLength <= userData.Length && userDataLength + 12 <= 0x7FFF_FFFF
      modifies `tcpSent
      ensures tcpSent == old(tcpSent) + MessageWire(AddrValue(TESTER), targetAddress, userData[..userDataLength])
    {
      var message := CreateDiagnosticMessage(0x0E00, targetAddress, userData, userDataLength);
      tcpSent := tcpSent + message[..];
    }

    method SendAliveCheckResponse()
      modifies `tcpSent
      ensures tcpSent == old(tcpSent) + HeaderWire(AliveCheckResponse, 2) + [sourceAddress.hi, sourceAddress.lo]
    {
      var message := CreateGenericHeader(AliveCheckResponse, 2);
      ghost var header := message[..8];
      message[8] := sourceAddress.hi;
      message[9] := sourceAddress.lo;
      assert message[..] == header + [sourceAddress.hi, sourceAddress.lo];
      tcpSent := tcpSent + message[..];
    }

    /** The counter part of `receiveMessage`, given what `recv` returned. */
    method ReceiveMessage(readBytes: int)
      requires Valid()
      modifies `emptyMessageCounter, `reconnects
      ensures Valid()
      ensures Reconnects(emptyMessageCounter, reconnects)
              == AfterReceive(old(Reconnects(emptyMessageCounter, reconnects)), readBytes)
    {
      if readBytes == 0 {
        emptyMessageCounter := emptyMessageCounter + 1;
        if emptyMessageCounter == 5 {
          emptyMessageCounter := 0;
          reconnects := reconnects + 1;
        }
      }
    }

    method BuildVehicleIdentificationRequest() returns (rareq: array<byte>)
      ensures fresh(rareq) && rareq[..] == IDENTIFICATION_REQUEST
    {
      rareq := new byte[8];
      rareq[0], rareq[1], rareq[2], rareq[3] := 0x02, 0xFD, 0x00, 0x01;
      rareq[4], rareq[5], rareq[6], rareq[7] := 0x00, 0x00, 0x00, 0x00;
    }

    method ParseVIResponseInformation(data: array<byte>)
      requires Valid() && data.Length >= 40
      requires data !in {vinResult, logicalAddressResult, eidResult, gidResult}
      modifies vinResult, logicalAddressResult, eidResult, gidResult, `furtherActionReqResult
      ensures Valid() && Identified() == ParseIdentification(data[..])
    {
      var j := 0;
      for i := 8 to 25
        invariant j == i - 8
        invariant vinResult[..j] == data[8..i]
      {
        vinResult[j] := data[i];
        j := j + 1;
      }
      assert vinResult[..] == data[..][8..25];

      j := 0;
      for i := 25 to 27
        invariant j == i - 25
        invariant vinResult[..] == data[..][8..25]
        invariant logicalAddressResult[..j] == data[25..i]
      {
        logicalAddressResult[j] := data[i];
        j := j + 1;
      }
      assert logicalAddressResult[..] == data[..][25..27];

      CopySix(data, 27, eidResult);
      CopySix(data, 33, gidResult);
      furtherActionReqResult := data[39];
    }

    /** The buffer holds 64 bytes; only the datagram's header decides whether it is parsed. */
    method ReceiveUdpMessage(received: array<byte>, readBytes: int)
      requires Valid() && HEADER_LENGTH <= readBytes <= received.Length == 64
      requires received !in {vinResult, logicalAddressResult, eidResult, gidResult}
      modifies vinResult, logicalAddressResult, eidResult, gidResult, `furtherActionReqResult
      ensures Valid()
      ensures Identified() == if Parse(received[..8]).typ == VehicleIdentResponse
                              then ParseIdentification(received[..]) else old(Identified())
    {
      var action := ParseGenericHeader(received, readBytes);
      if action.typ == VehicleIdentResponse {
        ParseVIResponseInformation(received);
      }
    }

    /** The loop that is written out once for the EID and once for the GID. */
    static method CopySix(data: array<byte>, from: nat, result: array<byte>)
      requires data != result && result.Length == 6 && from + 6 <= data.Length
      modifies result
      ensures result[..] == data[from..from + 6]
    {
      var j := 0;
      for i := from to from + 6
        invariant j == i - from
        invariant result[..j] == data[from..i]
      {
        result[j] := data[i];
        j := j + 1;
      }
    }
  }
}
