/** The ARP layer as a live object: nine header fields and the inner-PDU slot,
    changed in place by one setter per field. Getters are the fields
    themselves. `Value()` is the object's current contents as a `Pdu`, the
    value the codec and the chain lemmas speak about. */
module ArpLayer {
  import opened Bytes
  import opened Addresses
  import opened ArpHeader
  import opened PduChain

  class Arp {
    var hwFormat: uint16
    var protoFormat: uint16
    var hwLength: uint8
    var protoLength: uint8
    var opcode: uint16
    var senderHw: HWAddress
    var senderIp: IPv4Address
    var targetHw: HWAddress
    var targetIp: IPv4Address
    /** The owned inner PDU, if any. */
    var inner: Option<Pdu>

    /** The nine header fields as one value. */
    function Header(): ArpHeader.Header
      reads this
    {
      ArpHeader.Header(hwFormat, protoFormat, hwLength, protoLength, opcode,
                       senderHw, senderIp, targetHw, targetIp)
    }

    /** The whole layer, inner chain included, as one value. */
    function Value(): Pdu
      reads this
    {
      ArpPdu(Header(), inner)
    }

    /** Default construction: Ethernet/IPv4 formats, lengths 6 and 4,
        opcode 0, zero addresses, no inner PDU. */
    constructor ()
      ensures Value() == ArpPdu(DefaultHeader(), None)
    {
      hwFormat, protoFormat := ETHERNET, IPV4;
      hwLength, protoLength := HW_ADDRESS_SIZE as uint8, IPV4_ADDRESS_SIZE as uint8;
      opcode := 0;
      senderHw, senderIp := EmptyHWAddress(), 0;
      targetHw, targetIp := EmptyHWAddress(), 0;
      inner := None;
    }

    /** Construction from (target IP, sender IP, target hardware address,
        sender hardware address); every other field at its default. */
    constructor Complete(targetIp: IPv4Address, senderIp: IPv4Address,
                         targetHw: HWAddress, senderHw: HWAddress)
      ensures Value() == ArpPdu(CompleteHeader(targetIp, senderIp, targetHw, senderHw), None)
      ensures this.targetIp == targetIp && this.senderIp == senderIp
      ensures this.targetHw == targetHw && this.senderHw == senderHw
    {
      hwFormat, protoFormat := ETHERNET, IPV4;
      hwLength, protoLength := HW_ADDRESS_SIZE as uint8, IPV4_ADDRESS_SIZE as uint8;
      opcode := 0;
      this.senderHw, this.senderIp := senderHw, senderIp;
      this.targetHw, this.targetIp := targetHw, targetIp;
      inner := None;
    }

    /** Copy construction: a new object holding the same header fields and
        its own copy of the inner chain. */
    constructor Copy(other: Arp)
      ensures Value() == other.Value()
    {
      hwFormat, protoFormat := other.hwFormat, other.protoFormat;
      hwLength, protoLength := other.hwLength, other.protoLength;
      opcode := other.opcode;
      senderHw, senderIp := other.senderHw, other.senderIp;
      targetHw, targetIp := other.targetHw, other.targetIp;
      inner := other.inner;
    }

    /** Construction from a captured buffer: fails with MalformedPacket when
        the buffer is shorter than the 8 fixed bytes or than the header its
        own length fields declare; otherwise holds the decoded fields and no
        inner PDU. */
    static method FromBuffer(buffer: seq<uint8>) returns (r: Result<Arp>)
      ensures r.Ok? <==> PduChain.Decode(buffer).Ok?
      ensures r.Err? ==> r.error == MalformedPacket
      ensures r.Ok? ==> fresh(r.value) && r.value.Value() == PduChain.Decode(buffer).value
    {
      var decoded := PduChain.Decode(buffer);
      if decoded.Err? {
        r := Err(decoded.error);
      } else {
        var h := decoded.value.header;
        var arp := new Arp.Complete(h.targetIp, h.senderIp, h.targetHw, h.senderHw);
        arp.hwFormat, arp.protoFormat := h.hwFormat, h.protoFormat;
        arp.hwLength, arp.protoLength := h.hwLength, h.protoLength;
        arp.opcode := h.opcode;
        r := Ok(arp);
      }
    }

    /** Copy assignment: this object takes the other's fields and a copy of
        its inner chain. */
    method Assign(other: Arp)
      modifies this
      ensures Value() == old(other.Value())
    {
      hwFormat, protoFormat := other.hwFormat, other.protoFormat;
      hwLength, protoLength := other.hwLength, other.protoLength;
      opcode := other.opcode;
      senderHw, senderIp := other.senderHw, other.senderIp;
      targetHw, targetIp := other.targetHw, other.targetIp;
      inner := other.inner;
    }

    method SetHwFormat(v: uint16)
      modifies this
      ensures hwFormat == v
      ensures Value() == old(Value()).(header := old(Header()).(hwFormat := v))
    {
      hwFormat := v;
    }

    method SetProtoFormat(v: uint16)
      modifies this
      ensures protoFormat == v
      ensures Value() == old(Value()).(header := old(Header()).(protoFormat := v))
    {
      protoFormat := v;
    }

    /** Changes only the advertised length; the stored addresses keep their
        six bytes. */
    method SetHwLength(v: uint8)
      modifies this
      ensures hwLength == v
      ensures Value() == old(Value()).(header := old(Header()).(hwLength := v))
    {
      hwLength := v;
    }

    /** Changes only the advertised length; the stored addresses keep their
        four bytes. */
    method SetProtoLength(v: uint8)
      modifies this
      ensures protoLength == v
      ensures Value() == old(Value()).(header := old(Header()).(protoLength := v))
    {
      protoLength := v;
    }

    method SetOpcode(v: uint16)
      modifies this
      ensures opcode == v
      ensures Value() == old(Value()).(header := old(Header()).(opcode := v))
    {
      opcode := v;
    }

    method SetSenderHw(a: HWAddress)
      modifies this
      ensures senderHw == a
      ensures Value() == old(Value()).(header := old(Header()).(senderHw := a))
    {
      senderHw := a;
    }

    method SetSenderIp(ip: IPv4Address)
      modifies this
      ensures senderIp == ip
      ensures Value() == old(Value()).(header := old(Header()).(senderIp := ip))
    {
      senderIp := ip;
    }

    method SetTargetHw(a: HWAddress)
      modifies this
      ensures targetHw == a
      ensures Value() == old(Value()).(header := old(Header()).(targetHw := a))
    {
      targetHw := a;
    }

    method SetTargetIp(ip: IPv4Address)
      modifies this
      ensures targetIp == ip
      ensures Value() == old(Value()).(header := old(Header()).(targetIp := ip))
    {
      targetIp := ip;
    }

    /** Attaches `child` as the inner PDU, replacing (and so releasing) any
        previous one; the header fields are untouched. */
    method SetInnerPdu(child: Arp)
      modifies this
      ensures Value() == ArpPdu(old(Header()), Some(old(child.Value())))
    {
      inner := Some(child.Value());
    }

    /** The wire bytes of this layer and its inner chain, and their count. */
    method Serialize() returns (buffer: seq<uint8>, size: nat)
      ensures buffer == PduChain.Serialize(Value())
      ensures size == |buffer| && size == Size(Value())
      // follows from the first clause; stated for callers that read the header
      ensures buffer[..HeaderSize(Header())] == Encode(Header())
    {
      buffer := PduChain.Serialize(Value());
      SerializedLength(Value());
      size := |buffer|;
    }
  }
}
