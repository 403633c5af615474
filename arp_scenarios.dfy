/** The behaviours the ARP test suite fixes, replayed against the model as
    client code: each method builds objects with the model's constructors and
    setters and ensures what the suite expects of them. A few members go
    beyond the suite: `NestedCopyIsDeep`, `CopyAssignment`, `ShortBuffers`
    and `DefaultChecksMissSenderHw`. */
module ArpScenarios {
  import opened Bytes
  import opened Addresses
  import opened ArpHeader
  import opened PduChain
  import opened ArpLayer

  const HW_ADDR1: HWAddress := [0x13, 0xda, 0xde, 0xf1, 0x01, 0x85]
  const HW_ADDR2: HWAddress := [0x7a, 0x1f, 0xf4, 0x39, 0xab, 0x0d]
  const ADDR1: IPv4Address := 0x1234
  const ADDR2: IPv4Address := 0xa3f1

  /** A captured ARP reply: Ethernet/IPv4, lengths 6 and 4, opcode 2. */
  const EXPECTED_PACKET: seq<uint8> := [
    0x00, 0x01, 0x08, 0x00, 0x06, 0x04, 0x00, 0x02,
    0x03, 0xde, 0xf5, 0x12, 0x09, 0xfa, 0xc0, 0xa8, 0x2d,
    0xe7, 0xf5, 0x12, 0xda, 0x67, 0xbd, 0x0d, 0x20, 0x9b, 0x51,
    0xfe]

  /** The fields of `EXPECTED_PACKET`. */
  function ExpectedHeader(): Header
  {
    Header(ETHERNET, IPV4, 6, 4, REPLY,
           [0x03, 0xde, 0xf5, 0x12, 0x09, 0xfa], 0xc0a8_2de7,
           [0xf5, 0x12, 0xda, 0x67, 0xbd, 0x0d], 0x209b_51fe)
  }

  /** The captured packet, cut at its field boundaries. */
  lemma ExpectedPacketFields()
    ensures EXPECTED_PACKET
         == [0x00, 0x01] + [0x08, 0x00] + [0x06, 0x04] + [0x00, 0x02]
          + [0x03, 0xde, 0xf5, 0x12, 0x09, 0xfa] + [0xc0, 0xa8, 0x2d, 0xe7]
          + [0xf5, 0x12, 0xda, 0x67, 0xbd, 0x0d] + [0x20, 0x9b, 0x51, 0xfe]
  {
  }

  /** The bytes of the two addresses of `EXPECTED_PACKET`. */
  lemma ExpectedAddressBytes()
    ensures IPv4Bytes(ExpectedHeader().senderIp) == [0xc0, 0xa8, 0x2d, 0xe7]
    ensures IPv4Bytes(ExpectedHeader().targetIp) == [0x20, 0x9b, 0x51, 0xfe]
  {
  }

  /** The captured packet decodes to the reply it holds and re-serializes to
      the identical 28 bytes. */
  lemma ExpectedPacketRoundTrip()
    ensures PduChain.Decode(EXPECTED_PACKET) == Ok(ArpPdu(ExpectedHeader(), None))
    ensures PduChain.Serialize(ArpPdu(ExpectedHeader(), None)) == EXPECTED_PACKET
  {
    var h := ExpectedHeader();
    assert Be16(ETHERNET) == [0x00, 0x01] && Be16(IPV4) == [0x08, 0x00] && Be16(REPLY) == [0x00, 0x02];
    ExpectedAddressBytes();
    FitSelf(h.senderHw);
    FitSelf(h.targetHw);
    FitSelf(IPv4Bytes(h.senderIp));
    FitSelf(IPv4Bytes(h.targetIp));
    EncodeOfParts(h, [0x00, 0x01], [0x08, 0x00], [0x00, 0x02],
                  h.senderHw, IPv4Bytes(h.senderIp), h.targetHw, IPv4Bytes(h.targetIp));
    ExpectedPacketFields();
    DecodeSerialize(ArpPdu(h, None));
  }

  /** What the default-constructor case checks, as written: both IPs zero,
      the target hardware address empty (twice) and the kind ARP. The sender
      hardware address is never looked at. */
  predicate DefaultChecksAsWritten(p: Pdu)
  {
    && p.header.targetIp == 0 && p.header.senderIp == 0
    && p.header.targetHw == EmptyHWAddress()
    && p.header.targetHw == EmptyHWAddress()
    && p.Kind() == ARP
  }

  /** What the default-constructor case evidently means to check: both IPs
      zero, both hardware addresses empty and the kind ARP. */
  predicate DefaultChecks(p: Pdu)
  {
    && p.header.targetIp == 0 && p.header.senderIp == 0
    && p.header.targetHw == EmptyHWAddress()
    && p.header.senderHw == EmptyHWAddress()
    && p.Kind() == ARP
  }

  /** A default layer whose sender hardware address is not empty. */
  const STRAY_SENDER_HW: Pdu := ArpPdu(DefaultHeader().(senderHw := HW_ADDR1), None)

  /** The checks as written accept a default layer with a non-empty sender
      hardware address; the intended checks reject it. */
  lemma DefaultChecksMissSenderHw()
    ensures DefaultChecksAsWritten(STRAY_SENDER_HW)
    ensures !DefaultChecks(STRAY_SENDER_HW)
  {
    assert STRAY_SENDER_HW.header.senderHw[0] != EmptyHWAddress()[0];
  }

  /** A default-constructed object passes the intended checks. */
  method DefaultConstructor() returns (arp: Arp)
    ensures DefaultChecks(arp.Value())
  {
    arp := new Arp();
  }

  /** A copy-constructed object is field-equal to its source. */
  method CopyConstructor() returns (arp1: Arp, arp2: Arp)
    ensures FieldEqual(arp1.Value(), arp2.Value())
  {
    arp1 := new Arp.Complete(ADDR1, ADDR2, HW_ADDR1, HW_ADDR2);
    arp2 := new Arp.Copy(arp1);
  }

  /** The case named after copy assignment, as written: `arp2` is
      copy-initialised from `arp1`, which is copy construction. */
  method CopyAssignmentOperator() returns (arp1: Arp, arp2: Arp)
    ensures FieldEqual(arp1.Value(), arp2.Value())
  {
    arp1 := new Arp.Complete(ADDR1, ADDR2, HW_ADDR1, HW_ADDR2);
    arp2 := new Arp.Copy(arp1);
  }

  /** Copy assignment proper: an existing object with other contents takes
      `arp1`'s fields. */
  method CopyAssignment() returns (arp1: Arp, arp2: Arp)
    ensures FieldEqual(arp1.Value(), arp2.Value())
  {
    arp1 := new Arp.Complete(ADDR1, ADDR2, HW_ADDR1, HW_ADDR2);
    arp2 := new Arp();
    arp2.SetOpcode(REQUEST);
    arp2.Assign(arp1);
  }

  /** Copying a layer that owns an inner ARP gives a field-equal layer that
      owns a copy of the inner layer. */
  method NestedCopy() returns (arp1: Arp, arp2: Arp)
    ensures FieldEqual(arp1.Value(), arp2.Value())
    ensures arp2.inner == Some(ArpPdu(CompleteHeader(ADDR1, ADDR2, HW_ADDR1, HW_ADDR2), None))
  {
    var nested := new Arp.Complete(ADDR1, ADDR2, HW_ADDR1, HW_ADDR2);
    arp1 := new Arp.Complete(ADDR1, ADDR2, HW_ADDR1, HW_ADDR2);
    arp1.SetInnerPdu(nested);
    arp2 := new Arp.Copy(arp1);
  }

  /** The copy is deep: changing the original after copying leaves the copy's
      whole chain as it was. `nested` was copied in by `SetInnerPdu`, so
      changing it afterwards reaches neither chain. */
  method NestedCopyIsDeep() returns (arp1: Arp, arp2: Arp)
    ensures arp1.opcode == REQUEST && arp1.targetHw == HW_ADDR2
    ensures arp1.inner == arp2.inner
    ensures arp2.Value() == ArpPdu(CompleteHeader(ADDR1, ADDR2, HW_ADDR1, HW_ADDR2),
                                   Some(ArpPdu(CompleteHeader(ADDR1, ADDR2, HW_ADDR1, HW_ADDR2), None)))
  {
    var nested := new Arp.Complete(ADDR1, ADDR2, HW_ADDR1, HW_ADDR2);
    arp1 := new Arp.Complete(ADDR1, ADDR2, HW_ADDR1, HW_ADDR2);
    arp1.SetInnerPdu(nested);
    arp2 := new Arp.Copy(arp1);
    arp1.SetOpcode(REQUEST);
    arp1.SetTargetHw(HW_ADDR2);
    nested.SetTargetIp(ADDR2);
  }

  /** The four-argument constructor stores (target IP, sender IP, target
      hardware address, sender hardware address). */
  method CompleteConstructor() returns (arp: Arp)
    ensures arp.targetHw == HW_ADDR1 && arp.senderHw == HW_ADDR2
    ensures arp.targetIp == ADDR1 && arp.senderIp == ADDR2
  {
    arp := new Arp.Complete(ADDR1, ADDR2, HW_ADDR1, HW_ADDR2);
  }

  /** Each setter stores its value, and setting one field leaves the fields
      set before it as they were. */
  method Setters() returns (arp: Arp)
    ensures arp.senderIp == ADDR1 && arp.targetIp == ADDR1
    ensures arp.targetHw == HW_ADDR1 && arp.senderHw == HW_ADDR1
    ensures arp.protoFormat == 0x45fa && arp.protoLength == 0x4f
    ensures arp.hwFormat == 0x45fa && arp.hwLength == 0xd1
    ensures arp.opcode == REQUEST && arp.inner.None?
  {
    arp := new Arp();
    arp.SetSenderIp(ADDR1);
    arp.SetTargetIp(ADDR1);
    arp.SetTargetHw(HW_ADDR1);
    arp.SetSenderHw(HW_ADDR1);
    arp.SetProtoFormat(0x45fa);
    arp.SetProtoLength(0x4f);
    arp.SetHwFormat(0x45fa);
    arp.SetHwLength(0xd1);
    arp.SetOpcode(REQUEST);
  }

  /** A layer and its copy serialize to the same 28 bytes. */
  method Serialize() returns (buffer: seq<uint8>, size: nat, buffer2: seq<uint8>, size2: nat)
    ensures size == size2 == 28
    ensures buffer == buffer2
  {
    var arp1 := new Arp.Complete(ADDR1, ADDR2, HW_ADDR1, HW_ADDR2);
    buffer, size := arp1.Serialize();
    var arp2 := new Arp.Copy(arp1);
    buffer2, size2 := arp2.Serialize();
  }

  /** The captured packet is read, serialized and read again; both reads
      give the captured reply's fields. */
  method ConstructorFromBuffer() returns (arp1: Arp, arp2: Arp)
    ensures FieldEqual(arp1.Value(), arp2.Value())
    ensures arp1.Header() == ExpectedHeader()
  {
    ExpectedPacketRoundTrip();
    var r1 := Arp.FromBuffer(EXPECTED_PACKET);
    arp1 := r1.value;
    var buffer, size := arp1.Serialize();
    var r2 := Arp.FromBuffer(buffer);
    arp2 := r2.value;
  }

  /** Buffers too short for the fixed fields, or for the addresses their
      length fields declare, are rejected. */
  method ShortBuffers() returns (r1: Result<Arp>, r2: Result<Arp>)
    ensures r1 == Err(MalformedPacket) && r2 == Err(MalformedPacket)
  {
    r1 := Arp.FromBuffer(EXPECTED_PACKET[..7]);
    r2 := Arp.FromBuffer(EXPECTED_PACKET[..27]);
  }
}
