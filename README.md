# ARP layer of libtins, modelled in Dafny

This project models the ARP part of the libtins packet-crafting library. It covers:

- the two address values an ARP header carries: a 6-byte hardware address and a 32-bit IPv4 address;
- the ARP header with its nine fields and its big-endian wire codec, laid out as in the "Packet format" section of RFC 826;
- the protocol-layer chain, in which a PDU (one protocol layer) owns at most one inner PDU;
- the live `ARP` object, with its constructors, copy semantics and one setter per field.

The model follows the behaviour that the library's ARP test suite (`tests/src/arp.cpp`) fixes; where the suite is silent it follows RFC 826.

Files:

- `bytes.dfy` (module `Bytes`): 8/16/32-bit unsigned integers and their big-endian bytes. `Fit` writes a byte string into a field of a declared width, cutting it or padding it with zeros.
- `addresses.dfy` (module `Addresses`): `HWAddress` is six bytes. `IPv4Address` is a 32-bit value. `IPv4Bytes` and `IPv4FromBytes` convert between an IPv4 address and its 4 bytes in network order.
- `arp_header.dfy` (module `ArpHeader`): the header record, its default and complete values, `Encode`/`Decode`, and the round-trip lemmas.
- `pdu_chain.dfy` (module `PduChain`): `Pdu` is an ARP layer plus an optional owned inner `Pdu`. Around it sit `Serialize` (the header, then the inner chain), `Size`, `Decode`, and `FieldEqual` (the field-equality relation the tests use).
- `arp_layer.dfy` (module `ArpLayer`): class `Arp`. It has the nine header fields and the inner slot, constructors, copy assignment, setters, and a `Serialize` method. `Value()` is the object's contents as a `Pdu`.
- `arp_scenarios.dfy` (module `ArpScenarios`): the suite's test cases, written as verified client methods, and a lemma about the captured packet. Four members go beyond the suite: `NestedCopyIsDeep`, `CopyAssignment`, `ShortBuffers` and `DefaultChecksMissSenderHw`.

Design decisions:

- **Stored width vs. declared length.** A header stores a 6-byte hardware address and a 4-byte IPv4 address, whatever its hardware length N and protocol length M say. The length setters only change this declared metadata. `Encode` writes 8 + 2N + 2M bytes: each address goes into a field of the declared width, cut or padded with zeros. `Decode` reads each field back into the stored width the same way. Consequences:
  - decode∘encode is the identity when N ≥ 6 and M ≥ 4;
  - encode∘decode reproduces the buffer when N ≤ 6 and M ≤ 4;
  - both are the identity for the canonical 6/4;
  - the two "stable" round trips (decode, encode, decode again; encode, decode, encode again) hold for every input.
- **Decode errors.** Decoding fails with `MalformedPacket` exactly when the buffer is shorter than 8 bytes, or shorter than 8 + 2N + 2M for its own N and M. It never yields a partial record. Bytes after the header are ignored, and no inner PDU is attached.
- **Inner PDU as a value.** The inner PDU is held as a value (`Option<Pdu>`). A copy is therefore always deep: two chains never share a layer, and changing one object never changes another (`ArpScenarios.NestedCopyIsDeep` shows this).
- **Default constants.** Hardware format Ethernet = 1, protocol format IPv4 = 0x0800, lengths 6 and 4, opcode 0, zero addresses. These agree with the captured packet in the suite (`00 01 08 00 06 04 …`). REQUEST = 1, REPLY = 2.
- **Getters.** The getters are the public fields of `Arp`.

## Model

| member | source | states |
|---|---|---|
| `Addresses.EmptyHWAddress` | tests/src/arp.cpp:28 | the default hardware address has all six bytes zero |
| `Addresses.IPv4FromBytes` | tests/src/arp.cpp:170-171 | the address read from four network-order bytes writes back to exactly those bytes |
| `Addresses.IPv4BytesInjective` | tests/src/arp.cpp:45-46 | two IPv4 addresses are equal iff their wire bytes are equal |
| `ArpHeader.DefaultHeader` | tests/src/arp.cpp:52-59 | the default header declares the canonical lengths 6 and 4 |
| `ArpHeader.CompleteHeader` | tests/src/arp.cpp:81-87 | the four-argument header holds its arguments as target IP, sender IP, target HW and sender HW, with the Ethernet/IPv4 formats, lengths 6 and 4 and opcode 0 |
| `ArpHeader.Encode` | tests/src/arp.cpp:143-157 | the header's wire image is 8 + 2N + 2M bytes long, with N and M at offsets 4 and 5 |
| `ArpHeader.Decode` | tests/src/arp.cpp:159-160 | decoding succeeds iff the buffer has at least 8 bytes and at least 8 + 2N + 2M for the N and M at offsets 4 and 5; the error is MalformedPacket; N and M are read from those offsets |
| `ArpHeader.EncodeLayout` | tests/src/arp.cpp:143-157 | each field sits at its RFC 826 offset in the wire image: formats and opcode big-endian, then sender HW, sender IP, target HW, target IP in their declared widths |
| `ArpHeader.DecodeOfEncode` | tests/src/arp.cpp:159-176 | decoding an encoded header returns every field, each address as it survives a field of its declared width |
| `ArpHeader.DecodeEncode` | tests/src/arp.cpp:159-176 | a header whose declared lengths can hold its addresses decodes back from its encoding unchanged |
| `ArpHeader.EncodeDecodeEncode` | tests/src/arp.cpp:143-157 | for every header, the encoding decodes, and re-encoding the result gives identical bytes |
| `ArpHeader.DecodeEncodeDecode` | tests/src/arp.cpp:159-176 | for every buffer that decodes, encoding the result and decoding again gives the same fields |
| `ArpHeader.EncodeDecode` | tests/src/arp.cpp:31-36 | for declared lengths up to 6 and 4, encoding a decoded header reproduces the buffer's header bytes |
| `ArpHeader.EncodeInjective` | tests/src/arp.cpp:150-154 | headers with lossless lengths are equal iff their wire bytes are equal |
| `ArpHeader.DecodeIgnoresTrailing` | tests/src/arp.cpp:160 | bytes after the header do not change what is decoded |
| `ArpHeader.CompleteHeaderLayout` | tests/src/arp.cpp:81-87 | the four-argument header (target IP, sender IP, target HW, sender HW) puts sender HW at bytes 8-13, sender IP at 14-17, target HW at 18-23 and target IP at 24-27 of a 28-byte image, and decodes back to itself |
| `ArpHeader.SetOpcodeBytes` | tests/src/arp.cpp:137-141 | setting the opcode changes wire bytes 6-7 to the new value and no other byte |
| `PduChain.Pdu.Kind` | tests/src/arp.cpp:58 | every layer reports the ARP kind |
| `PduChain.Depth` | tests/src/arp.cpp:73-76 | a chain has at least one layer, and exactly one iff no inner PDU is attached |
| `PduChain.Serialize` | tests/src/arp.cpp:143-157 | a chain's bytes start with its own header's encoding, and are only that when no inner PDU is attached; `SerializeTail` states that the rest is the inner chain's bytes |
| `PduChain.SerializeTail` | tests/src/arp.cpp:143-157 | after a layer's own header, a chain's bytes are exactly the inner chain's serialization |
| `PduChain.DecodeResidual` | tests/src/arp.cpp:73-78 | when the inner header's declared lengths are at least 6 and 4, the bytes after the outer header decode to the inner layer's header, so the attached inner ARP is carried in the wire image |
| `PduChain.Size` | tests/src/arp.cpp:146-153 | a chain's size is at least 8 bytes per layer, and equals its own header size iff no inner PDU is attached |
| `PduChain.FieldEqual` | tests/src/arp.cpp:39-50 | two layers are field-equal iff their nine header fields agree and either both or neither carries an inner PDU |
| `PduChain.Decode` | tests/src/arp.cpp:159-160 | a layer read from a buffer fails exactly when the header decode fails, holds the decoded header and owns no inner PDU |
| `PduChain.SerializedLength` | tests/src/arp.cpp:146-153 | the size reported for a chain equals the length of its serialization |
| `PduChain.CanonicalChainSize` | tests/src/arp.cpp:73-79 | a chain whose every layer has lengths 6 and 4 serializes to 28 bytes per layer |
| `PduChain.SameBytesIffFieldEqual` | tests/src/arp.cpp:150-154 | layers with no inner PDU and lossless lengths serialize to identical bytes iff they are field-equal; with `Arp.Copy` (the copy's value is the original's) and `Arp.Serialize` (the buffer is the value's serialization) this gives the equal buffers and sizes of the copied layer |
| `PduChain.DecodeSerialize` | tests/src/arp.cpp:159-176 | when the outer header's declared lengths are at least 6 and 4, decoding a serialized chain returns the outer header with no inner PDU, so the result is field-equal to the original iff the original had no inner PDU |
| `PduChain.DecodeSerializeDecode` | tests/src/arp.cpp:159-176 | a layer read from any buffer, serialized and read again, has the same fields |
| `PduChain.SerializeDecode` | tests/src/arp.cpp:160-162 | for declared lengths up to 6 and 4, serializing a decoded layer reproduces the buffer's header bytes |
| `ArpLayer.Arp.constructor` | tests/src/arp.cpp:52-59 | a default-constructed ARP has zero IPs, zero hardware addresses, the Ethernet/IPv4 formats and lengths, opcode 0 and no inner PDU |
| `ArpLayer.Arp.Complete` | tests/src/arp.cpp:81-87 | the arguments are stored as target IP, sender IP, target HW, sender HW; every other field is at its default |
| `ArpLayer.Arp.Copy` | tests/src/arp.cpp:61-65 | a copy holds the same nine fields and the same inner chain as the original; lines 69, 77 and 150 construct copies the same way |
| `ArpLayer.Arp.Assign` | tests/src/arp.cpp:67-71 | the library's copy assignment: the object holds the other object's fields and inner chain. The suite does not exercise it: line 69 is copy-initialisation, which runs the copy constructor (see Findings) |
| `ArpLayer.Arp.FromBuffer` | tests/src/arp.cpp:159-160 | construction from a buffer fails with MalformedPacket exactly when decoding fails; otherwise the new object holds the decoded fields |
| `ArpLayer.Arp.SetSenderIp` | tests/src/arp.cpp:89-93 | the sender IP becomes the value set; every other field and the inner PDU are unchanged |
| `ArpLayer.Arp.SetTargetIp` | tests/src/arp.cpp:95-99 | the target IP becomes the value set; everything else is unchanged |
| `ArpLayer.Arp.SetTargetHw` | tests/src/arp.cpp:101-105 | the target HW address becomes the value set; everything else is unchanged |
| `ArpLayer.Arp.SetSenderHw` | tests/src/arp.cpp:107-111 | the sender HW address becomes the value set; everything else is unchanged |
| `ArpLayer.Arp.SetProtoFormat` | tests/src/arp.cpp:113-117 | the protocol format becomes the value set; everything else is unchanged |
| `ArpLayer.Arp.SetProtoLength` | tests/src/arp.cpp:119-123 | the protocol length becomes the value set; the stored addresses and all other fields are unchanged |
| `ArpLayer.Arp.SetHwFormat` | tests/src/arp.cpp:125-129 | the hardware format becomes the value set; everything else is unchanged |
| `ArpLayer.Arp.SetHwLength` | tests/src/arp.cpp:131-135 | the hardware length becomes the value set; the stored addresses and all other fields are unchanged |
| `ArpLayer.Arp.SetOpcode` | tests/src/arp.cpp:137-141 | the opcode becomes the value set; everything else is unchanged |
| `ArpLayer.Arp.SetInnerPdu` | tests/src/arp.cpp:76 | the object owns a copy of the child's whole chain as its inner PDU, replacing any previous one; the header fields are unchanged |
| `ArpLayer.Arp.Serialize` | tests/src/arp.cpp:143-157 | the method returns the chain's serialization and its size, the size equals the computed `Size`, and the buffer starts with the header's encoding |
| `ArpScenarios.DefaultChecksMissSenderHw` | tests/src/arp.cpp:54-58 | the default-constructor checks as written accept a layer whose sender hardware address is not empty |
| `ArpScenarios.DefaultConstructor` | tests/src/arp.cpp:52-59 | a default-constructed object has zero IPs, both hardware addresses empty and the ARP kind |
| `ArpScenarios.CopyAssignmentOperator` | tests/src/arp.cpp:67-71 | the case as written: a copy-initialised object is field-equal to its source |
| `ArpScenarios.CopyAssignment` | tests/src/arp.cpp:67-71 | an existing object with other contents is field-equal to the source after copy assignment |
| `ArpScenarios.CopyConstructor` | tests/src/arp.cpp:61-65 | a copy-constructed layer is field-equal to its source |
| `ArpScenarios.NestedCopy` | tests/src/arp.cpp:73-79 | copying a layer that owns an inner ARP gives a field-equal layer that owns a copy of that inner layer |
| `ArpScenarios.NestedCopyIsDeep` | tests/src/arp.cpp:73-79 | after the copy, changing the original leaves the copy's whole chain as it was; `nested` is copied in by `SetInnerPdu`, so changing it reaches neither chain (see Left out) |
| `ArpScenarios.CompleteConstructor` | tests/src/arp.cpp:81-87 | the four-argument constructor stores its arguments as target IP, sender IP, target HW and sender HW |
| `ArpScenarios.Setters` | tests/src/arp.cpp:89-141 | each of the nine setters stores its value, and later setters leave earlier fields as they were |
| `ArpScenarios.Serialize` | tests/src/arp.cpp:143-157 | a layer and its copy serialize to the same size, 28, and the same bytes |
| `ArpScenarios.ConstructorFromBuffer` | tests/src/arp.cpp:159-176 | the captured packet read, serialized and read again gives a field-equal layer, holding the captured reply's fields |
| `ArpScenarios.ShortBuffers` | tests/src/arp.cpp:159-160 | reading 7 bytes (short of the fixed fields) or 27 bytes (short of the declared addresses) fails with MalformedPacket. The suite only reads the full 28-byte packet; the short-buffer rule follows from RFC 826's declared lengths |
| `ArpScenarios.ExpectedPacketRoundTrip` | tests/src/arp.cpp:31-36 | the captured 28-byte reply decodes to Ethernet/IPv4, lengths 6/4, opcode REPLY, sender 03:de:f5:12:09:fa / 192.168.45.231, target f5:12:da:67:bd:0d / 32.155.81.254, and re-serializes to the identical 28 bytes |

## Findings

| source | as written | input that shows it | evidently intended | confidence | as-written member | corrected member |
|---|---|---|---|---|---|---|
| tests/src/arp.cpp:69 | `ARP arp2 = arp1;` is copy-initialisation, so the case named CopyAssignmentOperator runs the copy constructor, as the CopyContructor case does, and `operator=` is never called | any `arp1`: the case calls the copy constructor on it | assign `arp1` to an already constructed `arp2` | not executed | `ArpScenarios.CopyAssignmentOperator` | `ArpScenarios.CopyAssignment` |
| tests/src/arp.cpp:56-57 | `target_hw_addr()` is checked twice and `sender_hw_addr()` never | a default layer whose sender hardware address is `13:da:de:f1:01:85` passes the checks | line 57 checks `sender_hw_addr()` | not executed | `ArpScenarios.DefaultChecksMissSenderHw` | `ArpScenarios.DefaultConstructor` |

## Left out

- Parsing hardware addresses from colon-hex strings and IPv4 addresses from dotted-decimal strings: that code is not part of this model. Addresses are given as bytes or integers; the scenario constants write the test addresses out as bytes.
- The production headers `arp.h`, `utils.h` and `ipaddress.h` are not part of this model. Field layout and defaults follow RFC 826 and the captured packet in the suite.
- Buffer allocation and release (`new`/`delete[]` of serialized buffers and of an attached inner PDU): buffers are sequences and the inner PDU is a value, so there is nothing to free.
- ArpLayer.Arp.SetInnerPdu: stores a copy of the child's contents, not the child object itself. A caller that keeps a pointer to the attached child and then mutates it would, in the C++ library, change the parent's inner layer; the model does not capture that aliasing.
- Detaching the inner PDU (`release_inner`, which hands the inner layer back to the caller and leaves the slot empty): no test case uses it, so the model has no counterpart; `SetInnerPdu` covers attaching and replacing.
- Other layer kinds (Ethernet, IP, raw payloads) and the decoder that picks the layer following ARP: `PduType` has the single kind ARP, and `Decode` attaches no inner PDU.
- The GoogleTest harness itself; its test cases are replayed as the client methods in `ArpScenarios`.
