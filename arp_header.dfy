/** The ARP header as a value, and its wire codec (RFC 826, "Packet format"):

      offset        size  field
      0             2     hardware address format
      2             2     protocol address format
      4             1     hardware address length N
      5             1     protocol address length M
      6             2     opcode
      8             N     sender hardware address
      8 + N         M     sender protocol address
      8 + N + M     N     target hardware address
      8 + 2N + M    M     target protocol address

    Multi-byte integers are big-endian. The header stores a 6-byte hardware
    address and a 4-byte IPv4 address whatever N and M say; the codec writes
    each stored address into a field of the declared width (cut or zero
    padded) and reads each field back into the stored width the same way. */
module ArpHeader {
  import opened Bytes
  import opened Addresses

  /** Hardware address format code of Ethernet. */
  const ETHERNET: uint16 := 0x0001
  /** Protocol address format code of IPv4. */
  const IPV4: uint16 := 0x0800
  /** ARP opcodes. */
  const REQUEST: uint16 := 1
  const REPLY: uint16 := 2

  /** Bytes needed before the two length fields can be read and the
      address fields located. */
  const MIN_HEADER_SIZE: nat := 8

  datatype ParseError = MalformedPacket

  datatype Result<T> = Ok(value: T) | Err(error: ParseError)

  /** The nine fields of an ARP header. */
  datatype Header = Header(
    hwFormat: uint16,
    protoFormat: uint16,
    hwLength: uint8,
    protoLength: uint8,
    opcode: uint16,
    senderHw: HWAddress,
    senderIp: IPv4Address,
    targetHw: HWAddress,
    targetIp: IPv4Address)

  /** The header a default-constructed ARP holds: Ethernet/IPv4 formats and
      lengths, opcode 0, all addresses zero. */
  function DefaultHeader(): (h: Header)
    ensures h.hwLength as nat == HW_ADDRESS_SIZE && h.protoLength as nat == IPV4_ADDRESS_SIZE
  {
    Header(ETHERNET, IPV4, HW_ADDRESS_SIZE, IPV4_ADDRESS_SIZE, 0,
           EmptyHWAddress(), 0, EmptyHWAddress(), 0)
  }

  /** The header built from (target IP, sender IP, target hardware address,
      sender hardware address), in that order, with every other field at its
      default. */
  function CompleteHeader(targetIp: IPv4Address, senderIp: IPv4Address,
                          targetHw: HWAddress, senderHw: HWAddress): (h: Header)
    ensures h.targetIp == targetIp && h.senderIp == senderIp
    ensures h.targetHw == targetHw && h.senderHw == senderHw
    ensures h.hwFormat == ETHERNET && h.protoFormat == IPV4 && h.opcode == 0
    ensures h.hwLength as nat == HW_ADDRESS_SIZE && h.protoLength as nat == IPV4_ADDRESS_SIZE
  {
    DefaultHeader().(targetIp := targetIp, senderIp := senderIp,
                     targetHw := targetHw, senderHw := senderHw)
  }

  /** Header length implied by the declared address lengths. */
  function DeclaredSize(hwLength: uint8, protoLength: uint8): nat
  {
    MIN_HEADER_SIZE + 2 * hwLength + 2 * protoLength
  }

  function HeaderSize(h: Header): nat
  {
    DeclaredSize(h.hwLength, h.protoLength)
  }

  /** The declared address fields are wide enough to carry the stored
      addresses, so encoding drops nothing. */
  predicate Lossless(h: Header)
  {
    h.hwLength as nat >= HW_ADDRESS_SIZE && h.protoLength as nat >= IPV4_ADDRESS_SIZE
  }

  /** The wire bytes of a header. */
  function Encode(h: Header): (r: seq<uint8>)
    ensures |r| == HeaderSize(h)
    ensures r[4] == h.hwLength && r[5] == h.protoLength
  {
    Be16(h.hwFormat) + Be16(h.protoFormat) + [h.hwLength, h.protoLength] + Be16(h.opcode)
    + Fit(h.senderHw, h.hwLength) + Fit(IPv4Bytes(h.senderIp), h.protoLength)
    + Fit(h.targetHw, h.hwLength) + Fit(IPv4Bytes(h.targetIp), h.protoLength)
  }

  /** The header at the front of `buf`; bytes after it are not looked at. */
  function Decode(buf: seq<uint8>): (r: Result<Header>)
    ensures r.Ok? <==> |buf| >= MIN_HEADER_SIZE && |buf| >= DeclaredSize(buf[4], buf[5])
    ensures r.Err? ==> r.error == MalformedPacket
    ensures r.Ok? ==> r.value.hwLength == buf[4] && r.value.protoLength == buf[5]
  {
    if |buf| < MIN_HEADER_SIZE then Err(MalformedPacket)
    else if |buf| < DeclaredSize(buf[4], buf[5]) then Err(MalformedPacket)
    else
      var n, m := buf[4] as nat, buf[5] as nat;
      Ok(Header(
        ReadBe16(buf[0], buf[1]),
        ReadBe16(buf[2], buf[3]),
        buf[4],
        buf[5],
        ReadBe16(buf[6], buf[7]),
        Fit(buf[8..8 + n], HW_ADDRESS_SIZE),
        IPv4FromBytes(Fit(buf[8 + n..8 + n + m], IPV4_ADDRESS_SIZE)),
        Fit(buf[8 + n + m..8 + 2 * n + m], HW_ADDRESS_SIZE),
        IPv4FromBytes(Fit(buf[8 + 2 * n + m..8 + 2 * n + 2 * m], IPV4_ADDRESS_SIZE))))
  }

  /** What a hardware address becomes after a trip through a field of width `n`. */
  function ThroughHwField(a: HWAddress, n: nat): HWAddress
  {
    Fit(Fit(a, n), HW_ADDRESS_SIZE)
  }

  /** What an IPv4 address becomes after a trip through a field of width `m`. */
  function ThroughIpField(ip: IPv4Address, m: nat): IPv4Address
  {
    IPv4FromBytes(Fit(Fit(IPv4Bytes(ip), m), IPV4_ADDRESS_SIZE))
  }

  /** Where each field sits in the wire bytes of a header. */
  lemma EncodeLayout(h: Header)
    ensures var e, n, m := Encode(h), h.hwLength as nat, h.protoLength as nat;
      && e[0..2] == Be16(h.hwFormat) && e[2..4] == Be16(h.protoFormat)
      && e[6..8] == Be16(h.opcode)
      && e[8..8 + n] == Fit(h.senderHw, n)
      && e[8 + n..8 + n + m] == Fit(IPv4Bytes(h.senderIp), m)
      && e[8 + n + m..8 + 2 * n + m] == Fit(h.targetHw, n)
      && e[8 + 2 * n + m..8 + 2 * n + 2 * m] == Fit(IPv4Bytes(h.targetIp), m)
  {
    var n, m := h.hwLength as nat, h.protoLength as nat;
    var f0, f1, f2, f3 := Be16(h.hwFormat), Be16(h.protoFormat), [h.hwLength, h.protoLength], Be16(h.opcode);
    var sh, si := Fit(h.senderHw, n), Fit(IPv4Bytes(h.senderIp), m);
    var th, ti := Fit(h.targetHw, n), Fit(IPv4Bytes(h.targetIp), m);
    var e := Encode(h);
    var p0 := f0 + f1 + f2 + f3;
    assert e == p0 + sh + si + th + ti;
    assert e[0..2] == f0 && e[2..4] == f1 && e[6..8] == f3;
    SliceOfConcat(p0, sh, si + th + ti);
    SliceOfConcat(p0 + sh, si, th + ti);
    SliceOfConcat(p0 + sh + si, th, ti);
    SliceOfConcat(p0 + sh + si + th, ti, []);
  }

  /** The middle part of a concatenation, cut back out. */
  lemma SliceOfConcat(a: seq<uint8>, b: seq<uint8>, c: seq<uint8>)
    ensures (a + b + c)[|a|..|a| + |b|] == b
  {
  }

  /** Decoding an encoded header gives back every field, except that each
      address comes back as it survives a field of its declared width. */
  lemma DecodeOfEncode(h: Header)
    ensures Decode(Encode(h)) == Ok(h.(
      senderHw := ThroughHwField(h.senderHw, h.hwLength),
      senderIp := ThroughIpField(h.senderIp, h.protoLength),
      targetHw := ThroughHwField(h.targetHw, h.hwLength),
      targetIp := ThroughIpField(h.targetIp, h.protoLength)))
  {
    var e := Encode(h);
    EncodeLayout(h);
    assert e[0] == e[0..2][0] && e[1] == e[0..2][1];
    assert e[2] == e[2..4][0] && e[3] == e[2..4][1];
    assert e[6] == e[6..8][0] && e[7] == e[6..8][1];
    Be16RoundTrip(h.hwFormat);
    Be16RoundTrip(h.protoFormat);
    Be16RoundTrip(h.opcode);
  }

  /** A header whose declared lengths can carry its addresses decodes back
      from its own encoding unchanged. */
  lemma DecodeEncode(h: Header)
    requires Lossless(h)
    ensures Decode(Encode(h)) == Ok(h)
  {
    DecodeOfEncode(h);
    FitWiden(h.senderHw, h.hwLength as nat);
    FitWiden(h.targetHw, h.hwLength as nat);
    FitWiden(IPv4Bytes(h.senderIp), h.protoLength as nat);
    FitWiden(IPv4Bytes(h.targetIp), h.protoLength as nat);
    IPv4BytesRoundTrip(h.senderIp);
    IPv4BytesRoundTrip(h.targetIp);
  }

  /** For any header, whatever the declared lengths: decoding its encoding
      succeeds, and encoding the result again gives the same bytes. */
  lemma EncodeDecodeEncode(h: Header)
    ensures Decode(Encode(h)).Ok?
    ensures Encode(Decode(Encode(h)).value) == Encode(h)
  {
    DecodeOfEncode(h);
    var n, m := h.hwLength as nat, h.protoLength as nat;
    Refit(h.senderHw, n);
    Refit(h.targetHw, n);
    Refit(IPv4Bytes(h.senderIp), m);
    Refit(IPv4Bytes(h.targetIp), m);
  }

  /** The fields read from any buffer survive being encoded and decoded again. */
  lemma DecodeEncodeDecode(buf: seq<uint8>)
    requires Decode(buf).Ok?
    ensures Decode(Encode(Decode(buf).value)) == Decode(buf)
  {
    var h := Decode(buf).value;
    var n, m := buf[4] as nat, buf[5] as nat;
    var sh, si := buf[8..8 + n], buf[8 + n..8 + n + m];
    var th, ti := buf[8 + n + m..8 + 2 * n + m], buf[8 + 2 * n + m..8 + 2 * n + 2 * m];
    assert h.senderHw == Fit(sh, HW_ADDRESS_SIZE) && h.targetHw == Fit(th, HW_ADDRESS_SIZE);
    assert h.senderIp == IPv4FromBytes(Fit(si, IPV4_ADDRESS_SIZE));
    assert h.targetIp == IPv4FromBytes(Fit(ti, IPV4_ADDRESS_SIZE));
    HwFieldStable(sh);
    HwFieldStable(th);
    IpFieldStable(si);
    IpFieldStable(ti);
    DecodeOfEncode(h);
    assert h.(senderHw := ThroughHwField(h.senderHw, h.hwLength),
              senderIp := ThroughIpField(h.senderIp, h.protoLength),
              targetHw := ThroughHwField(h.targetHw, h.hwLength),
              targetIp := ThroughIpField(h.targetIp, h.protoLength)) == h;
  }

  /** A hardware address read from a field of width `|x|` survives another
      trip through a field of that width. */
  lemma HwFieldStable(x: seq<uint8>)
    requires |x| < 0x100
    ensures ThroughHwField(Fit(x, HW_ADDRESS_SIZE), |x|) == Fit(x, HW_ADDRESS_SIZE)
  {
    Refit(x, HW_ADDRESS_SIZE);
  }

  /** An IPv4 address read from a field of width `|y|` survives another trip
      through a field of that width. */
  lemma IpFieldStable(y: seq<uint8>)
    requires |y| < 0x100
    ensures ThroughIpField(IPv4FromBytes(Fit(y, IPV4_ADDRESS_SIZE)), |y|)
         == IPv4FromBytes(Fit(y, IPV4_ADDRESS_SIZE))
  {
    var b := Fit(y, IPV4_ADDRESS_SIZE);
    assert IPv4Bytes(IPv4FromBytes(b)) == b;
    Refit(y, IPV4_ADDRESS_SIZE);
  }

  /** When the declared lengths are at most 6 and 4, encoding the header read
      from a buffer reproduces the buffer's header bytes exactly. */
  lemma EncodeDecode(buf: seq<uint8>)
    requires Decode(buf).Ok?
    requires buf[4] as nat <= HW_ADDRESS_SIZE && buf[5] as nat <= IPV4_ADDRESS_SIZE
    ensures Encode(Decode(buf).value) == buf[..DeclaredSize(buf[4], buf[5])]
  {
    var h := Decode(buf).value;
    var n, m := buf[4] as nat, buf[5] as nat;
    var sh, si := buf[8..8 + n], buf[8 + n..8 + n + m];
    var th, ti := buf[8 + n + m..8 + 2 * n + m], buf[8 + 2 * n + m..8 + 2 * n + 2 * m];
    assert h.senderHw == Fit(sh, HW_ADDRESS_SIZE) && h.targetHw == Fit(th, HW_ADDRESS_SIZE);
    assert IPv4Bytes(h.senderIp) == Fit(si, IPV4_ADDRESS_SIZE);
    assert IPv4Bytes(h.targetIp) == Fit(ti, IPV4_ADDRESS_SIZE);
    FitWiden(sh, HW_ADDRESS_SIZE);
    FitWiden(th, HW_ADDRESS_SIZE);
    FitWiden(si, IPV4_ADDRESS_SIZE);
    FitWiden(ti, IPV4_ADDRESS_SIZE);
    ReadBe16RoundTrip(buf[0], buf[1]);
    ReadBe16RoundTrip(buf[2], buf[3]);
    ReadBe16RoundTrip(buf[6], buf[7]);
    EncodeOfParts(h, [buf[0], buf[1]], [buf[2], buf[3]], [buf[6], buf[7]], sh, si, th, ti);
    SplitHeaderBytes(buf, n, m);
  }

  /** The wire bytes of a header, given each field's bytes. */
  lemma EncodeOfParts(h: Header, hwFormat: seq<uint8>, protoFormat: seq<uint8>, opcode: seq<uint8>,
                      sh: seq<uint8>, si: seq<uint8>, th: seq<uint8>, ti: seq<uint8>)
    requires Be16(h.hwFormat) == hwFormat && Be16(h.protoFormat) == protoFormat
    requires Be16(h.opcode) == opcode
    requires Fit(h.senderHw, h.hwLength) == sh && Fit(IPv4Bytes(h.senderIp), h.protoLength) == si
    requires Fit(h.targetHw, h.hwLength) == th && Fit(IPv4Bytes(h.targetIp), h.protoLength) == ti
    ensures Encode(h) == hwFormat + protoFormat + [h.hwLength, h.protoLength] + opcode + sh + si + th + ti
  {
  }

  /** A buffer's header bytes cut at the field boundaries. */
  lemma SplitHeaderBytes(buf: seq<uint8>, n: nat, m: nat)
    requires |buf| >= 8 + 2 * n + 2 * m
    ensures buf[..8 + 2 * n + 2 * m]
         == [buf[0], buf[1]] + [buf[2], buf[3]] + [buf[4], buf[5]] + [buf[6], buf[7]]
          + buf[8..8 + n] + buf[8 + n..8 + n + m]
          + buf[8 + n + m..8 + 2 * n + m] + buf[8 + 2 * n + m..8 + 2 * n + 2 * m]
  {
    assert buf[0..2] == [buf[0], buf[1]] && buf[2..4] == [buf[2], buf[3]];
    assert buf[4..6] == [buf[4], buf[5]] && buf[6..8] == [buf[6], buf[7]];
  }

  /** Headers with lossless lengths are equal exactly when their wire bytes
      are equal. */
  lemma EncodeInjective(h1: Header, h2: Header)
    requires Lossless(h1) && Lossless(h2)
    ensures Encode(h1) == Encode(h2) <==> h1 == h2
  {
    DecodeEncode(h1);
    DecodeEncode(h2);
  }

  /** Decoding reads only the header: bytes after it change nothing. */
  lemma DecodeIgnoresTrailing(buf: seq<uint8>, rest: seq<uint8>)
    requires Decode(buf).Ok?
    ensures Decode(buf + rest) == Decode(buf)
  {
    SenderHwIgnoresTrailing(buf, rest);
    SenderIpIgnoresTrailing(buf, rest);
    TargetHwIgnoresTrailing(buf, rest);
    TargetIpIgnoresTrailing(buf, rest);
  }

  /** The sender hardware address of a decodable buffer is read from its header bytes
      only. */
  lemma SenderHwIgnoresTrailing(buf: seq<uint8>, rest: seq<uint8>)
    requires Decode(buf).Ok?
    ensures Decode(buf + rest).Ok?
    ensures Decode(buf + rest).value.senderHw == Decode(buf).value.senderHw
  {
    var n, m := buf[4] as nat, buf[5] as nat;
    assert (buf + rest)[8..8 + n] == buf[8..8 + n];
  }

  /** The sender IP address of a decodable buffer is read from its header bytes
      only. */
  lemma SenderIpIgnoresTrailing(buf: seq<uint8>, rest: seq<uint8>)
    requires Decode(buf).Ok?
    ensures Decode(buf + rest).Ok?
    ensures Decode(buf + rest).value.senderIp == Decode(buf).value.senderIp
  {
    var n, m := buf[4] as nat, buf[5] as nat;
    assert (buf + rest)[8 + n..8 + n + m] == buf[8 + n..8 + n + m];
  }

  /** The target hardware address of a decodable buffer is read from its header bytes
      only. */
  lemma TargetHwIgnoresTrailing(buf: seq<uint8>, rest: seq<uint8>)
    requires Decode(buf).Ok?
    ensures Decode(buf + rest).Ok?
    ensures Decode(buf + rest).value.targetHw == Decode(buf).value.targetHw
  {
    var n, m := buf[4] as nat, buf[5] as nat;
    assert (buf + rest)[8 + n + m..8 + 2 * n + m] == buf[8 + n + m..8 + 2 * n + m];
  }

  /** The target IP address of a decodable buffer is read from its header bytes
      only. */
  lemma TargetIpIgnoresTrailing(buf: seq<uint8>, rest: seq<uint8>)
    requires Decode(buf).Ok?
    ensures Decode(buf + rest).Ok?
    ensures Decode(buf + rest).value.targetIp == Decode(buf).value.targetIp
  {
    var n, m := buf[4] as nat, buf[5] as nat;
    assert (buf + rest)[8 + 2 * n + m..8 + 2 * n + 2 * m] == buf[8 + 2 * n + m..8 + 2 * n + 2 * m];
  }

  /** The complete constructor's arguments land in the sender and target
      fields of the wire image in RFC 826 order, and decode back in place. */
  lemma CompleteHeaderLayout(targetIp: IPv4Address, senderIp: IPv4Address,
                             targetHw: HWAddress, senderHw: HWAddress)
    ensures var e := Encode(CompleteHeader(targetIp, senderIp, targetHw, senderHw));
      && |e| == 28
      && e[8..14] == senderHw && e[14..18] == IPv4Bytes(senderIp)
      && e[18..24] == targetHw && e[24..28] == IPv4Bytes(targetIp)
    ensures Decode(Encode(CompleteHeader(targetIp, senderIp, targetHw, senderHw)))
         == Ok(CompleteHeader(targetIp, senderIp, targetHw, senderHw))
  {
    var h := CompleteHeader(targetIp, senderIp, targetHw, senderHw);
    DecodeEncode(h);
    EncodeLayout(h);
    FitSelf(senderHw);
    FitSelf(targetHw);
    FitSelf(IPv4Bytes(senderIp));
    FitSelf(IPv4Bytes(targetIp));
  }

  /** Changing the opcode changes bytes 6 and 7 of the wire image and no
      other byte. */
  lemma SetOpcodeBytes(h: Header, v: uint16)
    ensures var e, e' := Encode(h), Encode(h.(opcode := v));
      && |e'| == |e|
      && e'[6..8] == Be16(v)
      && e'[..6] == e[..6] && e'[8..] == e[8..]
  {
    var n, m := h.hwLength, h.protoLength;
    var front := Be16(h.hwFormat) + Be16(h.protoFormat) + [n, m];
    var back := Fit(h.senderHw, n) + Fit(IPv4Bytes(h.senderIp), m)
              + Fit(h.targetHw, n) + Fit(IPv4Bytes(h.targetIp), m);
    assert Encode(h) == front + Be16(h.opcode) + back;
    assert Encode(h.(opcode := v)) == front + Be16(v) + back;
  }
}
