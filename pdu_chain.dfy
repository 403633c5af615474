/** The protocol-layer chain: a PDU is one layer's header plus at most one
    owned inner PDU. Owning the inner layer as a value makes every copy of a
    chain a deep copy: two chains never share a layer. */
module PduChain {
  import opened Bytes
  import opened Addresses
  import opened ArpHeader

  /** The kind tag of a layer. ARP is the only layer kind in this model. */
  datatype PduType = ARP

  datatype Option<T> = None | Some(value: T)

  /** One ARP layer and the chain it encapsulates, outermost first. */
  datatype Pdu = ArpPdu(header: Header, inner: Option<Pdu>)
  {
    /** The layer's kind tag; it never changes. */
    function Kind(): (k: PduType)
      ensures k == ARP
    {
      ARP
    }
  }

  /** Number of layers in a chain. */
  function Depth(p: Pdu): (d: nat)
    ensures d >= 1
    ensures p.inner.None? <==> d == 1
  {
    match p.inner
    case None => 1
    case Some(q) => 1 + Depth(q)
  }

  /** The byte count `Serialize` produces, computed from the declared lengths
      of each layer without building the bytes. */
  function Size(p: Pdu): (s: nat)
    ensures s >= MIN_HEADER_SIZE * Depth(p)
    ensures p.inner.None? <==> s == HeaderSize(p.header)
  {
    HeaderSize(p.header) + match p.inner
      case None => 0
      case Some(q) => Size(q)
  }

  /** The wire bytes of a chain: this layer's header, then the inner chain's
      bytes. */
  function Serialize(p: Pdu): (r: seq<uint8>)
    ensures |r| >= HeaderSize(p.header)
    ensures r[..HeaderSize(p.header)] == Encode(p.header)
    ensures p.inner.None? ==> r == Encode(p.header)
  {
    Encode(p.header) + match p.inner
      case None => []
      case Some(q) => Serialize(q)
  }

  /** An ARP layer read from the front of a buffer. The layer owns no inner
      PDU; bytes after its header are left to whoever knows what follows. */
  function Decode(buf: seq<uint8>): (r: Result<Pdu>)
    ensures r.Ok? <==> ArpHeader.Decode(buf).Ok?
    ensures r.Ok? ==> r.value.inner.None? && r.value.header == ArpHeader.Decode(buf).value
    ensures r.Err? ==> r.error == MalformedPacket
  {
    match ArpHeader.Decode(buf)
    case Ok(h) => Ok(ArpPdu(h, None))
    case Err(e) => Err(e)
  }

  /** Two layers agree on all nine header fields and on whether an inner PDU
      is attached (the relation the test suite checks copies against). */
  predicate FieldEqual(a: Pdu, b: Pdu): (r: bool)
    ensures r <==> a.header == b.header && (a.inner.Some? <==> b.inner.Some?)
  {
    && a.header.opcode == b.header.opcode
    && a.header.hwLength == b.header.hwLength
    && a.header.hwFormat == b.header.hwFormat
    && a.header.protoLength == b.header.protoLength
    && a.header.protoFormat == b.header.protoFormat
    && a.header.senderIp == b.header.senderIp
    && a.header.targetIp == b.header.targetIp
    && a.header.senderHw == b.header.senderHw
    && a.header.targetHw == b.header.targetHw
    && a.inner.Some? == b.inner.Some?
  }

  /** Every layer of the chain declares the canonical Ethernet/IPv4 lengths. */
  predicate AllCanonical(p: Pdu)
  {
    && p.header.hwLength as nat == HW_ADDRESS_SIZE
    && p.header.protoLength as nat == IPV4_ADDRESS_SIZE
    && match p.inner
       case None => true
       case Some(q) => AllCanonical(q)
  }

  /** `Size` is exactly the length of what `Serialize` produces. */
  lemma {:induction false} SerializedLength(p: Pdu)
    ensures |Serialize(p)| == Size(p)
  {
    match p.inner
    case None =>
    case Some(q) => SerializedLength(q);
  }

  /** A chain of canonical layers is 28 bytes per layer. */
  lemma {:induction false} CanonicalChainSize(p: Pdu)
    requires AllCanonical(p)
    ensures Size(p) == 28 * Depth(p)
  {
    match p.inner
    case None =>
    case Some(q) => CanonicalChainSize(q);
  }

  /** Without inner layers and with lossless lengths, two layers serialize to
      the same bytes exactly when they are field-equal. */
  lemma SameBytesIffFieldEqual(a: Pdu, b: Pdu)
    requires a.inner.None? && b.inner.None?
    requires Lossless(a.header) && Lossless(b.header)
    ensures Serialize(a) == Serialize(b) <==> FieldEqual(a, b)
  {
    EncodeInjective(a.header, b.header);
  }

  /** Decoding a serialized chain recovers the outer layer's fields; the
      inner chain is not reattached, so the result is field-equal to the
      original exactly when the original had no inner PDU. */
  lemma DecodeSerialize(p: Pdu)
    requires Lossless(p.header)
    ensures Decode(Serialize(p)) == Ok(ArpPdu(p.header, None))
    ensures FieldEqual(Decode(Serialize(p)).value, p) <==> p.inner.None?
  {
    var s := Serialize(p);
    var e := Encode(p.header);
    DecodeEncode(p.header);
    assert s == e + s[HeaderSize(p.header)..];
    DecodeIgnoresTrailing(e, s[HeaderSize(p.header)..]);
  }

  /** After its own header, a chain's bytes are exactly the inner chain's
      bytes. */
  lemma SerializeTail(p: Pdu)
    requires p.inner.Some?
    ensures Serialize(p)[HeaderSize(p.header)..] == Serialize(p.inner.value)
  {
  }

  /** The bytes a layer leaves after its header decode as the inner layer's
      header, so a reader that knows what follows recovers the inner layer. */
  lemma DecodeResidual(p: Pdu)
    requires p.inner.Some? && Lossless(p.inner.value.header)
    ensures Decode(Serialize(p)[HeaderSize(p.header)..]) == Ok(ArpPdu(p.inner.value.header, None))
  {
    SerializeTail(p);
    DecodeSerialize(p.inner.value);
  }

  /** A layer read from any buffer, serialized and read again, has the same
      fields: opcode, both lengths, both formats and all four addresses. */
  lemma DecodeSerializeDecode(buf: seq<uint8>)
    requires Decode(buf).Ok?
    ensures Decode(Serialize(Decode(buf).value)) == Decode(buf)
  {
    DecodeEncodeDecode(buf);
  }

  /** When the declared lengths are at most the stored ones (the canonical
      6 and 4 included), serializing a decoded layer reproduces the header
      bytes of the buffer it was read from. */
  lemma SerializeDecode(buf: seq<uint8>)
    requires Decode(buf).Ok?
    requires buf[4] as nat <= HW_ADDRESS_SIZE && buf[5] as nat <= IPV4_ADDRESS_SIZE
    ensures Serialize(Decode(buf).value) == buf[..DeclaredSize(buf[4], buf[5])]
  {
    EncodeDecode(buf);
  }
}
