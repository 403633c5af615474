/** The address values an ARP header carries: a link-layer hardware address of
    fixed length 6 and a 32-bit IPv4 address. Both are plain immutable values,
    compared byte by byte and as integers respectively. */
module Addresses {
  import opened Bytes

  /** Length in bytes of a hardware address (the canonical link-layer length). */
  const HW_ADDRESS_SIZE: nat := 6
  /** Length in bytes of an IPv4 address on the wire. */
  const IPV4_ADDRESS_SIZE: nat := 4

  /** A hardware address: exactly six bytes, whatever value it holds. */
  type HWAddress = s: seq<uint8> | |s| == HW_ADDRESS_SIZE witness [0, 0, 0, 0, 0, 0]

  /** An IPv4 address, held as its 32-bit value in host order. */
  type IPv4Address = uint32

  /** The default hardware address: six zero bytes. */
  function EmptyHWAddress(): (a: HWAddress)
    ensures forall i | 0 <= i < HW_ADDRESS_SIZE :: a[i] == 0
  {
    Zeros(HW_ADDRESS_SIZE)
  }

  /** The network-byte-order bytes of an IPv4 address. */
  function IPv4Bytes(ip: IPv4Address): (r: seq<uint8>)
    ensures |r| == IPV4_ADDRESS_SIZE
    ensures ReadBe32(r) == ip
  {
    Be32RoundTrip(ip);
    Be32(ip)
  }

  /** The IPv4 address held in four network-byte-order bytes. */
  function IPv4FromBytes(b: seq<uint8>): (ip: IPv4Address)
    requires |b| == IPV4_ADDRESS_SIZE
    ensures IPv4Bytes(ip) == b
  {
    ReadBe32RoundTrip(b);
    ReadBe32(b)
  }

  /** Reading an address back from its bytes gives the address. */
  lemma IPv4BytesRoundTrip(ip: IPv4Address)
    ensures IPv4FromBytes(IPv4Bytes(ip)) == ip
  {
    var b := IPv4Bytes(ip);
    assert IPv4Bytes(IPv4FromBytes(b)) == b;
    assert ReadBe32(IPv4Bytes(IPv4FromBytes(b))) == IPv4FromBytes(b);
  }

  /** Two addresses are equal exactly when their wire bytes are. */
  lemma IPv4BytesInjective(a: IPv4Address, b: IPv4Address)
    ensures IPv4Bytes(a) == IPv4Bytes(b) <==> a == b
  {
    if IPv4Bytes(a) == IPv4Bytes(b) {
      assert ReadBe32(IPv4Bytes(a)) == ReadBe32(IPv4Bytes(b));
    }
  }
}
