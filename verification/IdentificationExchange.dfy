/** The UDP exchange from the client's request to the client's result. */
module IdentificationExchange {
  import opened Bytes
  import opened GenericHeader
  import opened VehicleIdentification
  import opened Client

  lemma HeaderIsRequest(h: seq<byte>)
    requires |h| == 8 && h[0] == 0x02 && h[1] == 0xFD && h[2] == 0 && h[3] == 1
    requires h[4] == 0 && h[5] == 0 && h[6] == 0 && h[7] == 0
    ensures Parse(h) == Action(VehicleIdentRequest, None, 0)
  {
  }

  lemma RequestIsRecognised()
    ensures Parse(IDENTIFICATION_REQUEST[..8]) == Action(VehicleIdentRequest, None, 0)
  {
    HeaderIsRequest(IDENTIFICATION_REQUEST[..8]);
  }

  lemma RequestIsAnswered(config: Config)
    requires WellFormed(config)
    ensures Reply(config, IDENTIFICATION_REQUEST)
            == Some(ResponseWire(config.vin, config.address, config.eid, config.gid, config.far))
  {
    RequestIsRecognised();
  }

  lemma ResponseIsIgnored(config: Config, w: seq<byte>)
    requires WellFormed(config) && |w| >= 8 && Parse(w[..8]).typ == VehicleIdentResponse
    ensures Reply(config, w) == None
  {
  }

  /** What a client reads from the fields of a response. */
  predicate Reads(r: Identification, vin: seq<byte>, address: uint16, eid: uint64, gid: uint64, far: uint32) {
    && |r.vin| == 17 && |r.logicalAddress| == 2 && |r.eid| == 6 && |r.gid| == 6
    && (forall i :: 0 <= i < 17 ==> r.vin[i] == if i < |vin| then vin[i] else ASCII_ZERO)
    && Value16(r.logicalAddress[0], r.logicalAddress[1]) == address
    && Value48(r.eid) == eid % 0x1_0000_0000_0000
    && Value48(r.gid) == gid % 0x1_0000_0000_0000
    && r.furtherAction == far % 0x100
  }

  lemma FieldsRead(vin: seq<byte>, address: uint16, eid: uint64, gid: uint64, far: uint32)
    ensures Reads(Identification(PadVin(vin), Be16(address), Be48(eid), Be48(gid), far % 0x100),
                  vin, address, eid, gid, far)
  {
    Low48(eid);
    Low48(gid);
  }

  /** Whatever the server was configured with, the client ends up with: the VIN cut or padded to
      17 characters, the address, the low 48 bits of EID and GID and the low byte of the further
      action code. The response itself, broadcast or sent back to a server, is not answered. */
  lemma IdentificationEndToEnd(vin: seq<byte>, address: uint16, eid: uint64, gid: uint64, far: uint32, other: Config)
    requires WellFormed(other)
    ensures var reply := Reply(Config(vin, address, Be48(eid), Be48(gid), far % 0x100), IDENTIFICATION_REQUEST);
            && reply.Some? && |reply.value| == 40
            && Parse(reply.value[..8]) == Action(VehicleIdentResponse, None, RESPONSE_LENGTH)
            && Reads(ParseIdentification(reply.value), vin, address, eid, gid, far)
            && Reply(other, reply.value) == None
  {
    RequestIsAnswered(Config(vin, address, Be48(eid), Be48(gid), far % 0x100));
    ResponseRoundTrip(vin, address, Be48(eid), Be48(gid), far % 0x100);
    FieldsRead(vin, address, eid, gid, far);
    ResponseIsIgnored(other, ResponseWire(vin, address, Be48(eid), Be48(gid), far % 0x100));
  }
}
